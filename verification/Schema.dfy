/** The database as the migrator sees it: tables with the tables their foreign keys reference, and
    the migrations table with one batch number per recorded name. Statements behave as PostgreSQL's
    do; a transaction is all or nothing. */
module Schema {
  import opened Wrappers

  const REPOSITORY := "migrations"

  datatype Database = Database(tables: map<string, set<string>>, repository: Option<map<string, int>>)

  const EMPTY := Database(map[], None)

  /** Every base table, the migrations table included. */
  function TableNames(db: Database): set<string> {
    db.tables.Keys + if db.repository.Some? then {REPOSITORY} else {}
  }

  /** The migrations table is kept apart from the others. */
  predicate WellFormed(db: Database) {
    REPOSITORY !in db.tables
  }

  /** Every foreign key references a table that exists. */
  predicate Resolved(db: Database) {
    forall table :: table in db.tables ==> db.tables[table] <= TableNames(db)
  }

  function Rows(db: Database): map<string, int> {
    if db.repository.Some? then db.repository.value else map[]
  }

  datatype Statement =
    | CreateRepository
    | CreateTable(table: string, references: set<string>)
    | DropTable(table: string)
    | DropCascade(table: string)
    | Record(name: string, batch: int)
    | Forget(name: string)

  /** `None` is an error: a reference to a missing table, a table others still reference, a
      duplicate name, or no migrations table. */
  function Execute(db: Database, statement: Statement): Option<Database> {
    match statement
    case CreateRepository =>
      Some(if db.repository.Some? then db else db.(repository := Some(map[])))
    case CreateTable(table, references) =>
      if table in TableNames(db) then Some(db)
      else if references <= TableNames(db) + {table} then Some(db.(tables := db.tables[table := references]))
      else None
    case DropTable(table) =>
      if table !in TableNames(db) then Some(db)
      else if exists other :: other in db.tables && other != table && table in db.tables[other] then None
      else if table == REPOSITORY then Some(db.(repository := None))
      else Some(db.(tables := db.tables - {table}))
    case DropCascade(table) =>
      Some(Database(
        map other | other in db.tables && other != table :: db.tables[other] - {table},
        if table == REPOSITORY then None else db.repository))
    case Record(name, batch) =>
      if db.repository.None? || name in db.repository.value then None
      else Some(db.(repository := Some(db.repository.value[name := batch])))
    case Forget(name) =>
      if db.repository.None? then None
      else Some(db.(repository := Some(db.repository.value - {name})))
  }

  function ExecuteAll(db: Database, statements: seq<Statement>): Option<Database>
    decreases |statements|
  {
    if statements == [] then Some(db)
    else
      match Execute(db, statements[0])
      case None => None
      case Some(next) => ExecuteAll(next, statements[1..])
  }

  lemma {:induction false} ExecuteOneMore(db: Database, statements: seq<Statement>, last: Statement)
    ensures ExecuteAll(db, statements + [last]) ==
      match ExecuteAll(db, statements)
      case None => None
      case Some(next) => Execute(next, last)
    decreases |statements|
  {
    if statements == [] {
      assert statements + [last] == [last];
    } else {
      assert (statements + [last])[1..] == statements[1..] + [last];
      match Execute(db, statements[0])
      case None =>
      case Some(next) => ExecuteOneMore(next, statements[1..], last);
    }
  }

  /** How many more round trips to the server succeed; `None` if none ever fails. */
  type Fault = Option<nat>

  predicate Survives(fault: Fault, trips: nat) {
    fault.None? || trips <= fault.value
  }

  function After(fault: Fault, trips: nat): Fault
    requires Survives(fault, trips)
  {
    if fault.None? then None else Some(fault.value - trips)
  }

  datatype Outcome = Done(db: Database, fault: Fault) | Failed(db: Database)

  /** A transaction: its statements all take effect, or, if any statement, the begin or the commit
      fails, none does. */
  function Atomically(db: Database, statements: seq<Statement>, fault: Fault): Outcome {
    var result := ExecuteAll(db, statements);
    if result.Some? && Survives(fault, |statements| + 2) then Done(result.value, After(fault, |statements| + 2))
    else Failed(db)
  }

  predicate Greatest(batch: int, rows: map<string, int>) {
    && (exists name :: name in rows && rows[name] == batch)
    && (forall name :: name in rows ==> rows[name] <= batch)
  }

  /** The greatest recorded batch, zero when nothing is recorded. */
  function MaxBatch(rows: map<string, int>): (max: int)
    ensures if rows == map[] then max == 0 else Greatest(max, rows)
  {
    if rows == map[] then 0
    else
      GreatestExists(rows);
      var max :| Greatest(max, rows);
      max
  }

  lemma {:induction false} GreatestExists(rows: map<string, int>)
    requires rows != map[]
    ensures exists batch :: Greatest(batch, rows)
    decreases |rows|
  {
    var name :| name in rows;
    var others := rows - {name};
    if others == map[] {
      assert rows.Keys == {name} + others.Keys;
      assert Greatest(rows[name], rows);
    } else {
      assert rows.Keys == {name} + others.Keys;
      GreatestExists(others);
      var batch :| Greatest(batch, others);
      var holder :| holder in others && others[holder] == batch;
      assert rows[holder] == batch;
      assert forall other :: other in rows ==> other == name || other in others;
      assert Greatest(if batch <= rows[name] then rows[name] else batch, rows);
    }
  }
}
