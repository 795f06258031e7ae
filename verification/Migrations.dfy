/** What each command of the migrator does to the database, as functions of the database, the
    registration list and the point at which the server stops answering (database/migrator.go). */
module Migrations {
  import opened Wrappers
  import opened Schema

  datatype Migration = Migration(name: string, table: string, references: set<string>) {
    function Up(): seq<Statement> { [CreateTable(table, references)] }

    function Down(): seq<Statement> { [DropTable(table)] }
  }

  function ApplySpec(db: Database, m: Migration, batch: int, fault: Fault): Outcome {
    Atomically(db, m.Up() + [Record(m.name, batch)], fault)
  }

  function RevertSpec(db: Database, m: Migration, fault: Fault): Outcome {
    Atomically(db, m.Down() + [Forget(m.name)], fault)
  }

  /** The loop of `Run`, on the names read before it started. */
  function ApplyPending(db: Database, plan: seq<Migration>, applied: set<string>, batch: int, fault: Fault): Outcome
    decreases |plan|
  {
    if plan == [] then Done(db, fault)
    else if plan[0].name in applied then ApplyPending(db, plan[1..], applied, batch, fault)
    else
      match ApplySpec(db, plan[0], batch, fault)
      case Failed(same) => Failed(same)
      case Done(next, rest) => ApplyPending(next, plan[1..], applied, batch, rest)
  }

  function RunSpec(db: Database, plan: seq<Migration>, fault: Fault): Outcome {
    match Atomically(db, [CreateRepository], fault)
    case Failed(same) => Failed(same)
    case Done(ready, rest) =>
      if !Survives(rest, 2) then Failed(ready)
      else ApplyPending(ready, plan, Rows(ready).Keys, MaxBatch(Rows(ready)) + 1, After(rest, 2))
  }

  /** The loop of `Reset`, last registered first. */
  function RevertApplied(db: Database, plan: seq<Migration>, applied: set<string>, fault: Fault): Outcome
    decreases |plan|
  {
    if plan == [] then Done(db, fault)
    else
      var last := |plan| - 1;
      if plan[last].name !in applied then RevertApplied(db, plan[..last], applied, fault)
      else
        match RevertSpec(db, plan[last], fault)
        case Failed(same) => Failed(same)
        case Done(next, rest) => RevertApplied(next, plan[..last], applied, rest)
  }

  function ResetSpec(db: Database, plan: seq<Migration>, fault: Fault): Outcome {
    match Atomically(db, [CreateRepository], fault)
    case Failed(same) => Failed(same)
    case Done(ready, rest) =>
      if !Survives(rest, 1) then Failed(ready)
      else RevertApplied(ready, plan, Rows(ready).Keys, After(rest, 1))
  }

  function RefreshSpec(db: Database, plan: seq<Migration>, fault: Fault): Outcome {
    match ResetSpec(db, plan, fault)
    case Failed(stopped) => Failed(stopped)
    case Done(reset, rest) => RunSpec(reset, plan, rest)
  }

  function DropStatements(order: seq<string>): seq<Statement> {
    seq(|order|, i requires 0 <= i < |order| => DropCascade(order[i]))
  }

  /** Dropping every table in the order the catalogue lists them. */
  function DropAllSpec(db: Database, order: seq<string>, fault: Fault): Outcome {
    if !Survives(fault, 1) then Failed(db)
    else if order == [] then Done(db, After(fault, 1))
    else Atomically(db, DropStatements(order), After(fault, 1))
  }

  function FreshSpec(db: Database, plan: seq<Migration>, order: seq<string>, fault: Fault): Outcome {
    match DropAllSpec(db, order, fault)
    case Failed(same) => Failed(same)
    case Done(dropped, rest) => RunSpec(dropped, plan, rest)
  }

  /** A listing of every table. */
  ghost predicate Lists(order: seq<string>, db: Database) {
    forall table :: table in order <==> table in TableNames(db)
  }

  // ---------- what a command commits on the way

  /** The databases the loop of `Run` commits, one after another. */
  function PendingCommits(
      db: Database, plan: seq<Migration>, applied: set<string>, batch: int, fault: Fault): seq<Database>
    decreases |plan|
  {
    if plan == [] then []
    else if plan[0].name in applied then PendingCommits(db, plan[1..], applied, batch, fault)
    else
      match ApplySpec(db, plan[0], batch, fault)
      case Failed(same) => []
      case Done(next, rest) => [next] + PendingCommits(next, plan[1..], applied, batch, rest)
  }

  function RunCommits(db: Database, plan: seq<Migration>, fault: Fault): seq<Database> {
    match Atomically(db, [CreateRepository], fault)
    case Failed(same) => []
    case Done(ready, rest) =>
      if !Survives(rest, 2) then [ready]
      else [ready] + PendingCommits(ready, plan, Rows(ready).Keys, MaxBatch(Rows(ready)) + 1, After(rest, 2))
  }

  function RevertCommits(db: Database, plan: seq<Migration>, applied: set<string>, fault: Fault): seq<Database>
    decreases |plan|
  {
    if plan == [] then []
    else
      var last := |plan| - 1;
      if plan[last].name !in applied then RevertCommits(db, plan[..last], applied, fault)
      else
        match RevertSpec(db, plan[last], fault)
        case Failed(same) => []
        case Done(next, rest) => [next] + RevertCommits(next, plan[..last], applied, rest)
  }

  function ResetCommits(db: Database, plan: seq<Migration>, fault: Fault): seq<Database> {
    match Atomically(db, [CreateRepository], fault)
    case Failed(same) => []
    case Done(ready, rest) =>
      if !Survives(rest, 1) then [ready]
      else [ready] + RevertCommits(ready, plan, Rows(ready).Keys, After(rest, 1))
  }

  function RefreshCommits(db: Database, plan: seq<Migration>, fault: Fault): seq<Database> {
    match ResetSpec(db, plan, fault)
    case Failed(stopped) => ResetCommits(db, plan, fault)
    case Done(reset, rest) => ResetCommits(db, plan, fault) + RunCommits(reset, plan, rest)
  }

  /** With no table to drop there is no transaction. */
  function DropAllCommits(db: Database, order: seq<string>, fault: Fault): seq<Database> {
    match DropAllSpec(db, order, fault)
    case Failed(same) => []
    case Done(dropped, rest) => if order == [] then [] else [dropped]
  }

  function FreshCommits(db: Database, plan: seq<Migration>, order: seq<string>, fault: Fault): seq<Database> {
    match DropAllSpec(db, order, fault)
    case Failed(same) => DropAllCommits(db, order, fault)
    case Done(dropped, rest) => DropAllCommits(db, order, fault) + RunCommits(dropped, plan, rest)
  }

  // ---------- registration lists

  predicate DistinctlyNamed(plan: seq<Migration>) {
    && (forall i :: 0 <= i < |plan| ==> plan[i].table != REPOSITORY)
    && (forall i, j :: 0 <= i < j < |plan| ==> plan[i].name != plan[j].name && plan[i].table != plan[j].table)
  }

  /** A migration references only tables registered earlier, its own, or the migrations table. */
  ghost predicate ReferencesEarlier(plan: seq<Migration>, i: nat)
    requires i < |plan|
  {
    plan[i].references <= Tables(plan[..i + 1]).Keys + {REPOSITORY}
  }

  /** Distinct names and distinct tables, none of them the migrations table, in an order that lets
      every foreign key resolve. */
  ghost predicate WellRegistered(plan: seq<Migration>) {
    && DistinctlyNamed(plan)
    && (forall i :: 0 <= i < |plan| ==> ReferencesEarlier(plan, i))
  }

  /** How many of the list's names are among these. */
  function Recorded(plan: seq<Migration>, names: set<string>): (count: nat)
    ensures count <= |plan|
  {
    if plan == [] then 0
    else
      var last := |plan| - 1;
      Recorded(plan[..last], names) + if plan[last].name in names then 1 else 0
  }

  function Names(plan: seq<Migration>): set<string> {
    set i | 0 <= i < |plan| :: plan[i].name
  }

  function Tables(plan: seq<Migration>): map<string, set<string>> {
    if plan == [] then map[]
    else
      var last := |plan| - 1;
      Tables(plan[..last])[plan[last].table := plan[last].references]
  }
}
