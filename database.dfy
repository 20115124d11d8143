/**
 * The `PASSWORDS` table that `write_to_database` in main.cpp fills, seen as an
 * ordered sequence of rows. SQLite itself is not modelled: each library call
 * that can throw is represented by the fault it may raise.
 */
module Database {

  /** One row: the `struct Password` of main.cpp, columns in (SERVICE, PASSWORD) order. */
  datatype Password = Password(service: string, password: string)

  /** Contents of the database file: whether the table exists, and its rows in insertion order. */
  datatype Store = Store(created: bool, rows: seq<Password>)
  {
    /** A table that does not exist holds no rows. */
    predicate Valid()
    {
      !created ==> rows == []
    }
  }

  /** Where, if anywhere, a call to `write_to_database` throws (and the exception is caught). */
  datatype DbFault = NoFault | OpenFails | CreateFails | InsertFails

  /** `CREATE TABLE IF NOT EXISTS`: the table exists afterwards, its rows untouched. */
  function CreateTableIfNotExists(s: Store): (t: Store)
    ensures t.created && t.rows == s.rows
    ensures s.created ==> t == s
  {
    s.(created := true)
  }

  /** `write_to_database(service, password)` when the given fault, if any, is raised. */
  function Write(s: Store, row: Password, fault: DbFault): (t: Store)
    requires s.Valid()
    ensures t.Valid()
    ensures fault == NoFault ==> t.created && t.rows == s.rows + [row]
    ensures fault != NoFault ==> t.rows == s.rows
    ensures fault in {OpenFails, CreateFails} ==> t == s
  {
    match fault
    case OpenFails => s
    case CreateFails => s
    case InsertFails => CreateTableIfNotExists(s)
    case NoFault => Store(true, CreateTableIfNotExists(s).rows + [row])
  }

  /** A write never removes, reorders or alters a row that was already there,
      and adds at most the one row it was given. */
  lemma WriteOnlyAppends(s: Store, row: Password, fault: DbFault)
    requires s.Valid()
    ensures s.rows <= Write(s, row, fault).rows
    ensures Write(s, row, fault).rows[|s.rows|..] in {[], [row]}
  {
    var t := Write(s, row, fault);
    if fault == NoFault {
      assert t.rows[|s.rows|..] == [row];
    } else {
      assert t.rows[|s.rows|..] == [];
    }
  }

  /** The database file, whose contents the program changes in place. */
  class PasswordDb {
    var created: bool
    var rows: seq<Password>

    ghost predicate Valid()
      reads this
    {
      State().Valid()
    }

    function State(): Store
      reads this
    {
      Store(created, rows)
    }

    /** A database file found in the given state. */
    constructor (initial: Store)
      requires initial.Valid()
      ensures Valid() && State() == initial
    {
      created := initial.created;
      rows := initial.rows;
    }

    /** The `CREATE TABLE IF NOT EXISTS PASSWORDS` statement. */
    method CreateTable()
      requires Valid()
      modifies this
      ensures Valid() && created && rows == old(rows)
    {
      created := true;
    }

    /** The `INSERT INTO PASSWORDS (SERVICE, PASSWORD) VALUES (?, ?)` statement. */
    method Insert(service: string, password: string)
      requires Valid() && created
      modifies this
      ensures Valid() && created
      ensures rows == old(rows) + [Password(service, password)]
    {
      rows := rows + [Password(service, password)];
    }

    /** `write_to_database`: create the table if needed, insert one row; an
        exception raised on the way ends the call, later steps skipped. */
    method WriteToDatabase(service: string, password: string, fault: DbFault)
      requires Valid()
      modifies this
      ensures Valid()
      ensures State() == Write(old(State()), Password(service, password), fault)
    {
      if fault == OpenFails {
        return;
      }
      if fault == CreateFails {
        return;
      }
      CreateTable();
      if fault == InsertFails {
        return;
      }
      Insert(service, password);
    }
  }
}
