# Password manager console tool — Dafny model

This project models `main.cpp` of a small password-manager console program.
One run of the program shows a menu and reads a choice. Choice 1 reads a
service name, generates a 20-character password from a fixed 93-character
alphabet, and appends the pair as a row of the `PASSWORDS` table of an SQLite
file. Choice 2 reports "Not yet implemented", choice 3 "Exiting...", and
anything else, a failed read included, "Invalid input".

The design description of the system speaks of an encrypted vault with a
master password, listing and delete-with-renumbering. `main.cpp` contains none
of that, and this model follows the code: rows are stored as plain text and
nothing is ever listed or deleted. The design description also says an empty
service is detected after trimming; the code only maps an empty or all-space
line to the empty name and otherwise keeps the line untrimmed, which is what
the model does.

In choice 1, the brace initialiser `{get_service(), generate_password()}`
evaluates left to right, so a password is generated even when the service
turns out blank; it is then discarded.

Modules, one per part of `main.cpp`:

- `Generator` (`generator.dfy`): the alphabet, the range contract of
  `randombytes_uniform`, and `generate_password` as a method with a loop,
  proved equal to the specification function `PasswordFrom`.
- `Service` (`service.dfy`): `find_first_not_of(' ')` and the blank-line
  filter of `get_service`.
- `Database` (`database.dfy`): the table as a `Store` value, and the database
  file as the class `PasswordDb`, which `write_to_database` changes in place.
  Each SQLite step that can throw is an explicit `DbFault` input.
- `Menu` (`menu.dfy`): `main` as the method `Run`, specified by the function
  `Session`, and `Runs`, which chains program runs over one database file.
- `Wrappers` (`wrappers.dfy`): the `Option` datatype.

Inputs that the program reads from the world are parameters. `read` is the
outcome of `std::cin >> choice`, with `None` for a failed read. `line` is the
line that `getline` returns. `entropy(i)` is the raw randomness consumed by
the i-th call to `randombytes_uniform`. `fault` says where, if anywhere, SQLite
throws.

## Model

| member | source | states |
|---|---|---|
| Generator.AlphabetSize | main.cpp:62-63 | the alphabet literal has 93 characters, and `char_size` is exactly that count |
| Generator.ArrayIsNulTerminated | main.cpp:62-63 | the array holds the alphabet in its first `char_size` slots and the NUL terminator in the slot after them |
| Generator.NulNotInAlphabet | main.cpp:62 | NUL is not one of the alphabet's characters |
| Generator.RandomBytesUniform | main.cpp:67 | the value drawn for the bound `char_size` lies in `[0, bound)`; for a bound below 2 it is 0 |
| Generator.PickInAlphabet | main.cpp:67-68 | the character indexed by a draw is in the alphabet and is never the NUL terminator |
| Generator.PasswordFrom | main.cpp:65-69 | after `n` iterations the password has exactly `n` characters |
| Generator.PasswordFromPicks | main.cpp:65-69 | the k-th character of the password is the one picked by the k-th draw |
| Generator.FromAlphabetPointwise | main.cpp:62 | for any alphabet, "every character is from the alphabet" stated recursively agrees with the pointwise statement, in both directions |
| Generator.GeneratePassword | main.cpp:59-72 | the loop returns the password the specification determines from the draws, of exactly `LENGTH` = 20 characters |
| Generator.GeneratedHasShape | main.cpp:5 | every generated password has length 20 and only alphabet characters, whatever the randomness, and never contains NUL |
| Service.FindFirstNotOf | main.cpp:82 | the result is `npos` (None) exactly when every character equals the searched one; otherwise it is the first position holding a different character |
| Service.GetService | main.cpp:82-87 | the service is empty exactly when the line is empty or all spaces; otherwise it is the line, unchanged |
| Service.TabOnlyLinePassesThrough | main.cpp:82-87 | a tab-only line is not blank and is kept as the service name |
| Service.PaddedLineIsNotTrimmed | main.cpp:82-87 | a line with leading and trailing spaces is kept untrimmed |
| Database.CreateTableIfNotExists | main.cpp:95-99 | after `CREATE TABLE IF NOT EXISTS` the table exists with the same rows; an existing table is left as it was |
| Database.Write | main.cpp:90-111 | without a fault, exactly the row (service, password) is appended; a fault leaves the rows unchanged, and a fault at opening or at table creation leaves the whole file unchanged |
| Database.WriteOnlyAppends | main.cpp:95-105 | a write keeps every existing row in place and adds nothing or exactly the given row |
| Database.PasswordDb.constructor | main.cpp:94 | the file opens in the given state, and that state is consistent |
| Database.PasswordDb.CreateTable | main.cpp:95-99 | the table exists afterwards and its rows are untouched |
| Database.PasswordDb.Insert | main.cpp:101-105 | exactly one row (service, password), in that column order, is appended |
| Database.PasswordDb.WriteToDatabase | main.cpp:90-111 | the new state of the file is the `Write` function of the old state, for each fault |
| Menu.Session | main.cpp:25-56 | a run leaves the rows unchanged or appends one well-formed row: a non-blank service and a 20-character password over the alphabet |
| Menu.Run | main.cpp:17-57 | the run changes the database and reports exactly as `Session` says |
| Menu.FailedReadIsInvalidInput | main.cpp:29-32 | a failed read of the choice becomes choice 0, reports "Invalid input" and writes nothing |
| Menu.OnlyChoiceOneWrites | main.cpp:34-56 | any choice but 1 leaves the database unchanged; choice 2 reports "Not yet implemented", choice 3 "Exiting...", any other "Invalid input" |
| Menu.BlankServiceWritesNothing | main.cpp:38-43 | with a blank service line no run changes the database, and choice 1 reports "No service entered" |
| Menu.ChoiceOneStoresOneRow | main.cpp:38-46 | choice 1 with a non-blank line shows the untrimmed line and the generated password; without a fault it appends exactly that row, with a fault it appends nothing |
| Menu.RunsKeepRows | main.cpp:94-105 | over any sequence of runs on one file, earlier rows stay in place and each run adds at most one row |
| Menu.RunsAddWellFormedRows | main.cpp:38-44 | over any sequence of runs on one file, every row added has a non-blank service and a generated password |

## Left out

- Console output and input plumbing: the menu text, `cin.ignore`, `getline`, and the messages. The read choice and the read line are inputs; what is printed is the `Shown` result.
- Parsing of the choice by `std::cin >> choice`: the model takes its outcome as given, with an out-of-range number counted as a failed read.
- SQLite itself: file handling, SQL parsing, and the `NOT NULL` constraint, which a bound `std::string` always meets. The table is an ordered sequence of rows, and each exception is a `DbFault` input that the model handles as the `catch` block does.
- Generator.RandomBytesUniform: only libsodium's range contract is modelled. The reduction of the raw value modulo the bound is a stand-in, and uniformity and cryptographic quality are not captured.
- The alphabet constant `Generator.Characters` is written as the concatenation of four string constants that together spell the literal of main.cpp:62. This keeps membership proofs cheap. The model does not prove that the concatenation equals the single literal; it is written out by hand.
- The text of the exception message printed by the `catch` block is not modelled. The success line that is printed even after a caught exception is modelled through `Shown`.
- Encryption, a master password, listing and deletion: `main.cpp` has none of these, and "View passwords" only prints "Not yet implemented".
