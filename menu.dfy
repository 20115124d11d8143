/**
 * The single pass of `main` in main.cpp: read a menu choice, and for choice 1
 * read a service name, generate a password and store the pair. The console
 * reads are inputs; what the program prints is the `Shown` result.
 */
module Menu {
  import opened Wrappers
  import opened Generator
  import opened Service
  import opened Database

  /** What one run reports on the console. */
  datatype Shown =
    | NoServiceEntered
    | Generated(service: string, password: string)
    | NotYetImplemented
    | Exiting
    | InvalidInput

  /** The choice after `std::cin >> choice`: a failed read leaves choice 0. */
  function ChoiceOf(read: Option<int>): int
  {
    match read
    case None => 0
    case Some(n) => n
  }

  /** A row this program may have written: a non-blank service and a generated password. */
  predicate WellFormedRow(r: Password)
  {
    !IsBlank(r.service) && IsGeneratedShape(r.password)
  }

  /**
   * One run of `main` against the database in state `s`: `read` is the outcome
   * of reading the choice, `line` the service line, `entropy` the random
   * source and `fault` where, if anywhere, SQLite throws.
   */
  function Session(s: Store, read: Option<int>, line: string, entropy: nat -> nat, fault: DbFault): (res: (Store, Shown))
    requires s.Valid()
    ensures res.0.Valid()
    ensures res.0.rows == s.rows || exists r :: res.0.rows == s.rows + [r] && WellFormedRow(r)
  {
    match ChoiceOf(read)
    case 1 =>
      var service := GetService(line);
      var password := PasswordFrom(entropy, Length);
      if service == "" then (s, NoServiceEntered)
      else
        GeneratedHasShape(entropy);
        (Write(s, Password(service, password), fault), Generated(service, password))
    case 2 => (s, NotYetImplemented)
    case 3 => (s, Exiting)
    case _ => (s, InvalidInput)
  }

  /** `main` itself, over the database object. */
  method Run(db: PasswordDb, read: Option<int>, line: string, entropy: nat -> nat, fault: DbFault)
    returns (shown: Shown)
    requires db.Valid()
    modifies db
    ensures db.Valid()
    ensures (db.State(), shown) == Session(old(db.State()), read, line, entropy, fault)
  {
    var choice: int;
    if read.None? {
      choice := 0;
    } else {
      choice := read.value;
    }
    match choice
    case 1 =>
      var service := GetService(line);
      var password := GeneratePassword(entropy);
      if service == "" {
        shown := NoServiceEntered;
        return;
      }
      db.WriteToDatabase(service, password, fault);
      shown := Generated(service, password);
    case 2 =>
      shown := NotYetImplemented;
    case 3 =>
      shown := Exiting;
    case _ =>
      shown := InvalidInput;
  }

  /** A failed read of the choice ends in "Invalid input" and writes nothing. */
  lemma FailedReadIsInvalidInput(s: Store, line: string, entropy: nat -> nat, fault: DbFault)
    requires s.Valid()
    ensures Session(s, None, line, entropy, fault) == (s, InvalidInput)
  {
  }

  /** Only choice 1 can change the database; choices 2 and 3 report their
      messages, every other choice "Invalid input". */
  lemma OnlyChoiceOneWrites(s: Store, read: Option<int>, line: string, entropy: nat -> nat, fault: DbFault)
    requires s.Valid()
    ensures read != Some(1) ==> Session(s, read, line, entropy, fault).0 == s
    ensures read == Some(2) ==> Session(s, read, line, entropy, fault).1 == NotYetImplemented
    ensures read == Some(3) ==> Session(s, read, line, entropy, fault).1 == Exiting
    ensures read !in {Some(1), Some(2), Some(3)} ==> Session(s, read, line, entropy, fault).1 == InvalidInput
  {
  }

  /** A blank service line prints the error and leaves the database as it was,
      whatever the choice. */
  lemma BlankServiceWritesNothing(s: Store, read: Option<int>, line: string, entropy: nat -> nat, fault: DbFault)
    requires s.Valid() && IsBlank(line)
    ensures Session(s, read, line, entropy, fault).0 == s
    ensures read == Some(1) ==> Session(s, read, line, entropy, fault).1 == NoServiceEntered
  {
  }

  /** Choice 1 with a non-blank line stores exactly one row: the line, untrimmed,
      with the generated password; the pair is shown even if SQLite threw. */
  lemma ChoiceOneStoresOneRow(s: Store, line: string, entropy: nat -> nat, fault: DbFault)
    requires s.Valid() && !IsBlank(line)
    ensures Session(s, Some(1), line, entropy, fault).1 == Generated(line, PasswordFrom(entropy, Length))
    ensures fault == NoFault ==>
      Session(s, Some(1), line, entropy, fault).0.rows == s.rows + [Password(line, PasswordFrom(entropy, Length))]
    ensures fault != NoFault ==> Session(s, Some(1), line, entropy, fault).0.rows == s.rows
  {
  }

  /** One run of the program per element, the database file kept between runs. */
  datatype Invocation = Invocation(read: Option<int>, line: string, entropy: nat -> nat, fault: DbFault)

  function Runs(s: Store, runs: seq<Invocation>): (t: Store)
    requires s.Valid()
    ensures t.Valid()
    decreases runs
  {
    if runs == [] then s
    else
      var i := runs[0];
      Runs(Session(s, i.read, i.line, i.entropy, i.fault).0, runs[1..])
  }

  /** Across any number of runs the table only grows: earlier rows stay in
      place, and each run adds at most one row. */
  lemma {:induction false} RunsKeepRows(s: Store, runs: seq<Invocation>)
    requires s.Valid()
    ensures s.rows <= Runs(s, runs).rows
    ensures |Runs(s, runs).rows| <= |s.rows| + |runs|
    decreases runs
  {
    if runs != [] {
      var i := runs[0];
      var mid := Session(s, i.read, i.line, i.entropy, i.fault).0;
      RunsKeepRows(mid, runs[1..]);
    }
  }

  /** Every row added over any number of runs has a non-blank service and a
      generated password. */
  lemma {:induction false} RunsAddWellFormedRows(s: Store, runs: seq<Invocation>)
    requires s.Valid()
    ensures forall k :: |s.rows| <= k < |Runs(s, runs).rows| ==> WellFormedRow(Runs(s, runs).rows[k])
    decreases runs
  {
    if runs != [] {
      var i := runs[0];
      var mid := Session(s, i.read, i.line, i.entropy, i.fault).0;
      RunsAddWellFormedRows(mid, runs[1..]);
      RunsKeepRows(mid, runs[1..]);
      assert Runs(s, runs) == Runs(mid, runs[1..]);
    }
  }
}
