/** What the commands of the migrator promise. */
module MigratorTheorems {
  import opened Wrappers
  import opened Schema
  import opened Migrations
  import opened MigrationHistory

  // ---------- batches, resumption and repetition, from any database whatsoever

  /** One loop of `Run` adds rows of its own batch for migrations of the list and keeps the rest. */
  lemma {:induction false} PendingShareABatch(
      db: Database, plan: seq<Migration>, applied: set<string>, batch: int, fault: Fault, name: string)
    ensures var after := Rows(ApplyPending(db, plan, applied, batch, fault).db);
      && (name in Rows(db) ==> name in after && after[name] == Rows(db)[name])
      && (name in after && name !in Rows(db) ==> after[name] == batch && name in Names(plan) && name !in applied)
    decreases |plan|
  {
    if plan != [] {
      RestNames(plan);
      if plan[0].name in applied {
        PendingShareABatch(db, plan[1..], applied, batch, fault, name);
      } else {
        ApplyEffect(db, plan[0], batch, fault);
        match ApplySpec(db, plan[0], batch, fault)
        case Failed(same) =>
        case Done(next, rest) =>
          hide ApplySpec;
          PendingShareABatch(next, plan[1..], applied, batch, rest, name);
      }
    }
  }

  lemma RestNames(plan: seq<Migration>)
    requires plan != []
    ensures Names(plan) == {plan[0].name} + Names(plan[1..])
  {
    assert forall i :: 0 <= i < |plan[1..]| ==> plan[1..][i] == plan[i + 1];
    forall name | name in Names(plan)
      ensures name in {plan[0].name} + Names(plan[1..])
    {
      var i :| 0 <= i < |plan| && plan[i].name == name;
      assert i > 0 ==> plan[1..][i - 1].name == name;
    }
    forall name | name in Names(plan[1..])
      ensures name in Names(plan)
    {
      var i :| 0 <= i < |plan[1..]| && plan[1..][i].name == name;
      assert plan[i + 1].name == name;
    }
    assert plan[0].name in Names(plan);
  }

  /** The table part of what Up does. */
  predicate Creatable(db: Database, m: Migration) {
    m.table in TableNames(db) || m.references <= TableNames(db) + {m.table}
  }

  function Created(db: Database, m: Migration): map<string, set<string>> {
    if m.table in TableNames(db) then db.tables else db.tables[m.table := m.references]
  }

  /** A migration is applied exactly when the server holds out, its references exist, the migrations
      table exists and its name is new. */
  lemma ApplyEffect(db: Database, m: Migration, batch: int, fault: Fault)
    ensures ApplySpec(db, m, batch, fault) ==
      if Survives(fault, 4) && db.repository.Some? && m.name !in Rows(db)
         && (m.table in TableNames(db) || m.references <= TableNames(db) + {m.table}) then
        Done(Database(
            if m.table in TableNames(db) then db.tables else db.tables[m.table := m.references],
            Some(Rows(db)[m.name := batch])), After(fault, 4))
      else
        Failed(db)
  {
    ExecuteAllTwo(db, CreateTable(m.table, m.references), Record(m.name, batch));
  }

  /** A migration is reverted exactly when the server holds out, the migrations table exists and would
      survive, and no other table references the migration's; a table that is gone already is no
      obstacle. Otherwise table and row both stay. */
  lemma RevertEffect(db: Database, m: Migration, fault: Fault)
    ensures RevertSpec(db, m, fault) ==
      if Survives(fault, 4) && db.repository.Some? && m.table != REPOSITORY
         && (m.table in db.tables ==>
               forall other :: other in db.tables && other != m.table ==> m.table !in db.tables[other]) then
        Done(Database(db.tables - {m.table}, Some(Rows(db) - {m.name})), After(fault, 4))
      else
        Failed(db)
  {
    ExecuteAllTwo(db, DropTable(m.table), Forget(m.name));
    if m.table !in db.tables {
      assert db.tables - {m.table} == db.tables;
    }
  }

  /** All rows that one run adds, wherever it stops, carry the same batch, greater than every batch
      recorded before; rows recorded before are untouched. */
  lemma RunSharesOneNewBatch(db: Database, plan: seq<Migration>, fault: Fault, name: string)
    ensures var before, after := Rows(db), Rows(RunSpec(db, plan, fault).db);
      && (name in before ==> name in after && after[name] == before[name] && before[name] <= MaxBatch(before))
      && (name in after && name !in before ==> after[name] == MaxBatch(before) + 1 && name in Names(plan))
  {
    hide ApplyPending, Names, Greatest;
    BatchesUpToMax(Rows(db), name);
    EnsureEffect(db, fault);
    match Atomically(db, [CreateRepository], fault)
    case Failed(same) =>
    case Done(ready, rest) =>
      if Survives(rest, 2) {
        PendingShareABatch(ready, plan, Rows(ready).Keys, MaxBatch(Rows(ready)) + 1, After(rest, 2), name);
      }
  }

  lemma BatchesUpToMax(rows: map<string, int>, name: string)
    ensures name in rows ==> rows[name] <= MaxBatch(rows)
  {}

  lemma EnsureEffect(db: Database, fault: Fault)
    ensures Atomically(db, [CreateRepository], fault) ==
      if Survives(fault, 3) then Done(db.(repository := Some(Rows(db))), After(fault, 3)) else Failed(db)
  {
    ExecuteOneMore(db, [], CreateRepository);
    assert [] + [CreateRepository] == [CreateRepository];
  }

  lemma {:induction false} NothingPendingNothingDone(
      db: Database, plan: seq<Migration>, applied: set<string>, batch: int, fault: Fault)
    requires Names(plan) <= applied
    ensures ApplyPending(db, plan, applied, batch, fault) == Done(db, fault)
    decreases |plan|
  {
    if plan != [] {
      RestNames(plan);
      NothingPendingNothingDone(db, plan[1..], applied, batch, fault);
    }
  }

  /** A run with nothing pending changes nothing, wherever it stops. */
  lemma RunWithNothingPending(db: Database, plan: seq<Migration>, fault: Fault)
    requires db.repository.Some? && Names(plan) <= Rows(db).Keys
    ensures RunSpec(db, plan, fault).db == db
  {
    hide ApplyPending, Names;
    EnsureEffect(db, fault);
    match Atomically(db, [CreateRepository], fault)
    case Failed(same) =>
    case Done(ready, rest) =>
      assert ready == db;
      if Survives(rest, 2) {
        NothingPendingNothingDone(ready, plan, Rows(ready).Keys, MaxBatch(Rows(ready)) + 1, After(rest, 2));
      }
  }

  /** The same tables and the same recorded names; batch numbers may differ. */
  ghost predicate Alike(x: Database, y: Database) {
    && x.tables == y.tables
    && x.repository.Some? && y.repository.Some?
    && x.repository.value.Keys == y.repository.value.Keys
  }

  lemma ApplyAlike(x: Database, y: Database, m: Migration, xBatch: int, yBatch: int, xFault: Fault, yFault: Fault)
    requires Alike(x, y)
    ensures var a, b := ApplySpec(x, m, xBatch, xFault), ApplySpec(y, m, yBatch, yFault);
      && (a.Done? && yFault.None? ==> b.Done?)
      && (a.Done? && b.Done? ==> Alike(a.db, b.db))
      && (yFault.None? && b.Done? ==> b.fault.None?)
  {
    ApplyEffect(x, m, xBatch, xFault);
    ApplyEffect(y, m, yBatch, yFault);
  }

  predicate AgreeOnNames(plan: seq<Migration>, first: set<string>, second: set<string>) {
    forall i :: 0 <= i < |plan| ==> (plan[i].name in first <==> plan[i].name in second)
  }

  predicate DistinctNames(plan: seq<Migration>) {
    forall i, j :: 0 <= i < j < |plan| ==> plan[i].name != plan[j].name
  }

  /** The loop does the same from databases that are alike. */
  lemma {:induction false} PendingAlike(
      x: Database, y: Database, plan: seq<Migration>, xApplied: set<string>, yApplied: set<string>,
      xBatch: int, yBatch: int, xFault: Fault)
    requires Alike(x, y) && AgreeOnNames(plan, xApplied, yApplied)
    requires ApplyPending(x, plan, xApplied, xBatch, xFault).Done?
    ensures var a, b := ApplyPending(x, plan, xApplied, xBatch, xFault), ApplyPending(y, plan, yApplied, yBatch, None);
      b.Done? && b.fault.None? && Alike(a.db, b.db)
    decreases |plan|
  {
    hide Alike, ApplySpec;
    if plan != [] {
      assert forall i :: 0 <= i < |plan[1..]| ==> plan[1..][i] == plan[i + 1];
      if plan[0].name in xApplied {
        PendingAlike(x, y, plan[1..], xApplied, yApplied, xBatch, yBatch, xFault);
      } else {
        ApplyAlike(x, y, plan[0], xBatch, yBatch, xFault, None);
        var a, b := ApplySpec(x, plan[0], xBatch, xFault), ApplySpec(y, plan[0], yBatch, None);
        PendingAlike(a.db, b.db, plan[1..], xApplied, yApplied, xBatch, yBatch, a.fault);
      }
    }
  }

  /** A loop that stopped anywhere, then a loop from what it left behind that completes, come to what
      one uninterrupted loop comes to. */
  lemma {:induction false} PendingResumes(
      db: Database, plan: seq<Migration>, applied: set<string>, batch: int, fault: Fault,
      resumed: Database, again: set<string>, laterBatch: int, laterFault: Fault)
    requires DistinctNames(plan) && AgreeOnNames(plan, applied, Rows(db).Keys)
    requires Alike(ApplyPending(db, plan, applied, batch, fault).db, resumed)
    requires AgreeOnNames(plan, again, Rows(resumed).Keys)
    requires ApplyPending(resumed, plan, again, laterBatch, laterFault).Done?
    ensures var whole := ApplyPending(db, plan, applied, batch, None);
      && whole.Done? && whole.fault.None?
      && Alike(whole.db, ApplyPending(resumed, plan, again, laterBatch, laterFault).db)
    decreases |plan|
  {
    hide Atomically, Names, Creatable, Created;
    if plan != [] {
      var m, stopped := plan[0], ApplyPending(db, plan, applied, batch, fault).db;
      assert forall i :: 0 <= i < |plan[1..]| ==> plan[1..][i] == plan[i + 1];
      PendingShareABatch(db, plan, applied, batch, fault, m.name);
      if m.name in applied {
        assert m.name in Rows(stopped) && m.name in again;
        PendingResumes(db, plan[1..], applied, batch, fault, resumed, again, laterBatch, laterFault);
      } else {
        ApplyEffect(db, m, batch, fault);
        ApplyEffect(db, m, batch, None);
        match ApplySpec(db, m, batch, fault)
        case Failed(same) =>
          assert Alike(resumed, db);
          PendingAlike(resumed, db, plan, again, applied, laterBatch, batch, laterFault);
        case Done(next, rest) =>
          NewNameRecorded(plan, applied, Rows(db).Keys, Rows(next).Keys);
          PendingShareABatch(next, plan[1..], applied, batch, rest, m.name);
          assert m.name in again;
          PendingResumes(next, plan[1..], applied, batch, rest, resumed, again, laterBatch, laterFault);
      }
    }
  }

  lemma NewNameRecorded(plan: seq<Migration>, applied: set<string>, before: set<string>, after: set<string>)
    requires plan != [] && DistinctNames(plan) && AgreeOnNames(plan, applied, before)
    requires after == before + {plan[0].name}
    ensures AgreeOnNames(plan[1..], applied, after)
  {
    forall i | 0 <= i < |plan[1..]|
      ensures plan[1..][i].name in applied <==> plan[1..][i].name in after
    {
      assert plan[1..][i] == plan[i + 1] && plan[0].name != plan[i + 1].name;
    }
  }

  /** Resumption: a run that failed anywhere, followed by one that succeeds, leaves the tables and the
      recorded names that one uninterrupted run would have left. */
  lemma RunResumes(db: Database, plan: seq<Migration>, fault: Fault, laterFault: Fault)
    requires DistinctNames(plan)
    requires RunSpec(RunSpec(db, plan, fault).db, plan, laterFault).Done?
    ensures RunSpec(db, plan, None).Done?
    ensures Alike(RunSpec(db, plan, None).db, RunSpec(RunSpec(db, plan, fault).db, plan, laterFault).db)
  {
    hide ApplyPending;
    var stopped := RunSpec(db, plan, fault).db;
    var ready := db.(repository := Some(Rows(db)));
    EnsureEffect(db, fault);
    EnsureEffect(db, None);
    EnsureEffect(stopped, laterFault);
    var applied, batch := Rows(db).Keys, MaxBatch(Rows(db)) + 1;
    var resumed := stopped.(repository := Some(Rows(stopped)));
    var again, laterBatch, later := Rows(resumed).Keys, MaxBatch(Rows(resumed)) + 1, After(After(laterFault, 3), 2);
    if Survives(fault, 5) {
      RepositoryStays(ready, plan, applied, batch, After(After(fault, 3), 2));
      assert resumed == stopped;
      PendingResumes(ready, plan, applied, batch, After(After(fault, 3), 2), resumed, again, laterBatch, later);
    } else {
      assert stopped == db || stopped == ready;
      assert resumed == ready;
      PendingAlike(resumed, ready, plan, again, applied, laterBatch, batch, later);
    }
  }

  lemma {:induction false} RepositoryStays(
      db: Database, plan: seq<Migration>, applied: set<string>, batch: int, fault: Fault)
    requires db.repository.Some?
    ensures ApplyPending(db, plan, applied, batch, fault).db.repository.Some?
    decreases |plan|
  {
    if plan != [] {
      if plan[0].name in applied {
        RepositoryStays(db, plan[1..], applied, batch, fault);
      } else {
        ApplyEffect(db, plan[0], batch, fault);
        match ApplySpec(db, plan[0], batch, fault)
        case Failed(same) =>
        case Done(next, rest) => RepositoryStays(next, plan[1..], applied, batch, rest);
      }
    }
  }

  // ---------- what a command that succeeds has done, from any database whatsoever

  lemma {:induction false} PendingRecordsAll(
      db: Database, plan: seq<Migration>, applied: set<string>, batch: int, fault: Fault)
    requires applied <= Rows(db).Keys && ApplyPending(db, plan, applied, batch, fault).Done?
    ensures Rows(ApplyPending(db, plan, applied, batch, fault).db).Keys == Rows(db).Keys + Names(plan)
    decreases |plan|
  {
    hide Names;
    if plan == [] {
      NoNames();
    } else {
      RestNames(plan);
      if plan[0].name in applied {
        PendingRecordsAll(db, plan[1..], applied, batch, fault);
      } else {
        ApplyEffect(db, plan[0], batch, fault);
        var outcome := ApplySpec(db, plan[0], batch, fault);
        PendingRecordsAll(outcome.db, plan[1..], applied, batch, outcome.fault);
      }
    }
  }

  lemma NoNames()
    ensures Names([]) == {}
  {}

  /** From any database, a Run that succeeds has recorded every migration of the list. */
  lemma RunRecordsAll(db: Database, plan: seq<Migration>, fault: Fault)
    requires RunSpec(db, plan, fault).Done?
    ensures Rows(RunSpec(db, plan, fault).db).Keys == Rows(db).Keys + Names(plan)
  {
    hide ApplyPending, Names, MaxBatch;
    EnsureEffect(db, fault);
    var ready := db.(repository := Some(Rows(db)));
    PendingRecordsAll(ready, plan, Rows(ready).Keys, MaxBatch(Rows(ready)) + 1, After(After(fault, 3), 2));
  }

  /** The tables of the migrations that are recorded. */
  function RecordedTables(plan: seq<Migration>, names: set<string>): set<string> {
    set i | 0 <= i < |plan| && plan[i].name in names :: plan[i].table
  }

  lemma RecordedTablesLast(plan: seq<Migration>, names: set<string>)
    requires plan != []
    ensures var last := |plan| - 1;
      && Names(plan) == Names(plan[..last]) + {plan[last].name}
      && RecordedTables(plan, names)
         == RecordedTables(plan[..last], names) + if plan[last].name in names then {plan[last].table} else {}
  {
    var last := |plan| - 1;
    RestNamesLast(plan, last);
    assert plan[..last + 1] == plan;
    forall table
      ensures table in RecordedTables(plan, names)
         <==> (table in RecordedTables(plan[..last], names) || (plan[last].name in names && table == plan[last].table))
    {
      if i :| 0 <= i < |plan| && plan[i].name in names && plan[i].table == table {
        assert i < last ==> plan[..last][i].table == table && plan[..last][i].name in names;
      }
      if i :| 0 <= i < last && plan[..last][i].name in names && plan[..last][i].table == table {
        assert plan[i].table == table;
      }
    }
  }

  lemma {:induction false} RevertsExactlyTheRecorded(
      db: Database, plan: seq<Migration>, applied: set<string>, fault: Fault)
    requires db.repository.Some? && Rows(db).Keys <= applied + (Rows(db).Keys - Names(plan))
    requires RevertApplied(db, plan, applied, fault).Done?
    ensures RevertApplied(db, plan, applied, fault).db
         == Database(db.tables - RecordedTables(plan, applied), Some(Rows(db) - Names(plan)))
    decreases |plan|
  {
    hide Names, RecordedTables;
    if plan == [] {
      NoNames();
      NoRecordedTables(applied);
      assert db.tables - {} == db.tables && Rows(db) - {} == Rows(db);
    } else {
      var last := |plan| - 1;
      var names, tables := Names(plan[..last]), RecordedTables(plan[..last], applied);
      RecordedTablesLast(plan, applied);
      if plan[last].name !in applied {
        RevertsExactlyTheRecorded(db, plan[..last], applied, fault);
        assert Rows(db) - Names(plan) == Rows(db) - names;
      } else {
        RevertEffect(db, plan[last], fault);
        var outcome := RevertSpec(db, plan[last], fault);
        RevertsExactlyTheRecorded(outcome.db, plan[..last], applied, outcome.fault);
        assert db.tables - {plan[last].table} - tables == db.tables - (tables + {plan[last].table});
        assert Rows(db) - {plan[last].name} - names == Rows(db) - (names + {plan[last].name});
      }
    }
  }

  lemma NoRecordedTables(names: set<string>)
    ensures RecordedTables([], names) == {}
  {}

  /** From any database, a Reset that succeeds has dropped exactly the tables of the list's migrations
      that were recorded, and forgotten those migrations and no other row. */
  lemma ResetUndoesExactlyTheRecorded(db: Database, plan: seq<Migration>, fault: Fault)
    requires ResetSpec(db, plan, fault).Done?
    ensures ResetSpec(db, plan, fault).db
         == Database(db.tables - RecordedTables(plan, Rows(db).Keys), Some(Rows(db) - Names(plan)))
  {
    hide RevertApplied, Names, RecordedTables;
    EnsureEffect(db, fault);
    var ready := db.(repository := Some(Rows(db)));
    RevertsExactlyTheRecorded(ready, plan, Rows(ready).Keys, After(After(fault, 3), 1));
  }

  // ---------- a steady server

  lemma {:induction false} PendingOnASteadyServer(
      db: Database, plan: seq<Migration>, applied: set<string>, batch: int, fault: Fault)
    requires ApplyPending(db, plan, applied, batch, fault).Done?
    ensures ApplyPending(db, plan, applied, batch, None)
         == Done(ApplyPending(db, plan, applied, batch, fault).db, None)
    decreases |plan|
  {
    if plan != [] {
      if plan[0].name in applied {
        PendingOnASteadyServer(db, plan[1..], applied, batch, fault);
      } else {
        ApplyEffect(db, plan[0], batch, fault);
        ApplyEffect(db, plan[0], batch, None);
        var applied1 := ApplySpec(db, plan[0], batch, fault);
        PendingOnASteadyServer(applied1.db, plan[1..], applied, batch, applied1.fault);
      }
    }
  }

  /** A run that succeeds does what it does on a server that never fails. */
  lemma RunOnASteadyServer(db: Database, plan: seq<Migration>, fault: Fault)
    requires RunSpec(db, plan, fault).Done?
    ensures RunSpec(db, plan, None) == Done(RunSpec(db, plan, fault).db, None)
  {
    hide ApplyPending;
    EnsureEffect(db, fault);
    EnsureEffect(db, None);
    var ready := db.(repository := Some(Rows(db)));
    PendingOnASteadyServer(ready, plan, Rows(ready).Keys, MaxBatch(Rows(ready)) + 1, After(After(fault, 3), 2));
  }

  // ---------- Fresh, Reset and Refresh

  /** Fresh forgets the past: from any database, tables and foreign keys in any state, with or without
      a migrations table, and dropping in any order, it is a Run on an empty database once the server
      has held out for the drops, and leaves everything as it was when the server has not. */
  lemma FreshForgetsThePast(db: Database, plan: seq<Migration>, order: seq<string>, fault: Fault)
    requires Lists(order, db)
    ensures FreshSpec(db, plan, order, fault) ==
      if Survives(fault, DropTrips(order)) then RunSpec(EMPTY, plan, After(fault, DropTrips(order))) else Failed(db)
  {
    hide RunSpec, DropAllSpec;
    DropAllLeavesNothing(db, order, fault);
  }

  /** A Fresh that succeeds ends in the database that Run makes of an empty one, all in batch 1. */
  lemma FreshStartsOver(db: Database, plan: seq<Migration>, order: seq<string>, fault: Fault, name: string)
    requires Lists(order, db) && FreshSpec(db, plan, order, fault).Done?
    ensures var after := FreshSpec(db, plan, order, fault).db;
      && RunSpec(EMPTY, plan, None) == Done(after, None)
      && (name in Rows(after) ==> Rows(after)[name] == 1 && name in Names(plan))
  {
    hide RunSpec, FreshSpec, Names;
    FreshForgetsThePast(db, plan, order, fault);
    var rest := After(fault, DropTrips(order));
    RunOnASteadyServer(EMPTY, plan, rest);
    RunSharesOneNewBatch(EMPTY, plan, rest, name);
  }

  /** Reset undoes Run: whatever prefix is recorded, a Reset succeeds exactly when the server holds out
      for it, and then leaves the host's own tables and rows and an empty remainder of the migrations
      table. */
  lemma ResetUndoesRun(db: Database, base: Database, plan: seq<Migration>, runFault: Fault, resetFault: Fault)
    requires WellRegistered(plan) && Hosts(base, plan) && Reached(db, base, plan)
    ensures var ran := RunSpec(db, plan, runFault).db;
      var outcome := ResetSpec(ran, plan, resetFault);
      && Costs(outcome, resetFault, ResetTrips(ran, plan))
      && (outcome.Done? ==> outcome.db == base.(repository := Some(Rows(base))))
  {
    hide RunSpec, ResetSpec, WellRegistered, Hosts, At, Reached, ResetTrips;
    RunReaches(db, base, plan, runFault);
    ResetReaches(RunSpec(db, plan, runFault).db, base, plan, resetFault);
  }

  /** Refresh from any recorded prefix, on any host, succeeds exactly when the server holds out for it. */
  lemma RefreshSucceedsExactly(db: Database, base: Database, plan: seq<Migration>, fault: Fault)
    requires WellRegistered(plan) && Hosts(base, plan) && Reached(db, base, plan)
    ensures RefreshSpec(db, plan, fault).Done? <==> Survives(fault, ResetTrips(db, plan) + 5 + 4 * |plan|)
  {
    hide WellRegistered, Hosts, Reached, RefreshSpec, ResetTrips;
    RefreshReaches(db, base, plan, fault);
  }

  /** It then ends with the whole list applied, recorded in one batch just above the host's, and the
      host's own tables and rows untouched. */
  lemma RefreshReapplies(db: Database, base: Database, plan: seq<Migration>, fault: Fault, name: string)
    requires WellRegistered(plan) && Hosts(base, plan) && Reached(db, base, plan)
    ensures RefreshSpec(db, plan, fault).Done? ==>
      var after := RefreshSpec(db, plan, fault).db;
      && after.tables == base.tables + Tables(plan)
      && Rows(after).Keys == Rows(base).Keys + Names(plan)
      && (name in Rows(base) ==> Rows(after)[name] == Rows(base)[name])
      && (name in Names(plan) ==> Rows(after)[name] == MaxBatch(Rows(base)) + 1)
  {
    hide RunSpec, ResetSpec, WellRegistered, Reached, Names, Tables, ResetTrips;
    if RefreshSpec(db, plan, fault).Done? {
      RefreshReaches(db, base, plan, fault);
      assert name in Names(plan) ==> name !in Rows(base);
      assert plan[..|plan|] == plan;
      ResetReaches(db, base, plan, fault);
      var reset := ResetSpec(db, plan, fault);
      assert Rows(reset.db) == Rows(base);
      RunSharesOneNewBatch(reset.db, plan, reset.fault, name);
    }
  }

  // ---------- every history

  datatype Command = Run | Reset | Refresh | Fresh(order: seq<string>)

  /** A command, and where the server fails it, if it does. */
  datatype Attempt = Attempt(command: Command, fault: Fault)

  function Perform(db: Database, plan: seq<Migration>, attempt: Attempt): Outcome {
    match attempt.command
    case Run => RunSpec(db, plan, attempt.fault)
    case Reset => ResetSpec(db, plan, attempt.fault)
    case Refresh => RefreshSpec(db, plan, attempt.fault)
    case Fresh(order) => FreshSpec(db, plan, order, attempt.fault)
  }

  /** The round trips an attempt makes when none of them fails. */
  function Trips(db: Database, plan: seq<Migration>, command: Command): nat {
    match command
    case Run => RunTrips(db, plan)
    case Reset => ResetTrips(db, plan)
    case Refresh => ResetTrips(db, plan) + 5 + 4 * |plan|
    case Fresh(order) => DropTrips(order) + 5 + 4 * |plan|
  }

  /** The databases an attempt commits, one after another. */
  function Commits(db: Database, plan: seq<Migration>, attempt: Attempt): seq<Database> {
    match attempt.command
    case Run => RunCommits(db, plan, attempt.fault)
    case Reset => ResetCommits(db, plan, attempt.fault)
    case Refresh => RefreshCommits(db, plan, attempt.fault)
    case Fresh(order) => FreshCommits(db, plan, order, attempt.fault)
  }

  function AfterHistory(db: Database, plan: seq<Migration>, attempts: seq<Attempt>): Database
    decreases |attempts|
  {
    if attempts == [] then db else AfterHistory(Perform(db, plan, attempts[0]).db, plan, attempts[1..])
  }

  function HistoryCommits(db: Database, plan: seq<Migration>, attempts: seq<Attempt>): seq<Database>
    decreases |attempts|
  {
    if attempts == [] then []
    else Commits(db, plan, attempts[0]) + HistoryCommits(Perform(db, plan, attempts[0]).db, plan, attempts[1..])
  }

  /** What the catalogue lists when a Fresh asks. */
  ghost predicate Catalogued(db: Database, attempt: Attempt) {
    attempt.command.Fresh? ==> Lists(attempt.command.order, db)
  }

  ghost predicate CataloguedThroughout(db: Database, plan: seq<Migration>, attempts: seq<Attempt>)
    decreases |attempts|
  {
    attempts == [] ||
    (Catalogued(db, attempts[0]) && CataloguedThroughout(Perform(db, plan, attempts[0]).db, plan, attempts[1..]))
  }

  lemma EmptyHosts(plan: seq<Migration>)
    ensures Hosts(EMPTY, plan) && Reached(EMPTY, EMPTY, plan)
  {}

  lemma AttemptReaches(db: Database, plan: seq<Migration>, attempt: Attempt)
    requires WellRegistered(plan) && Reached(db, EMPTY, plan) && Catalogued(db, attempt)
    ensures Reached(Perform(db, plan, attempt).db, EMPTY, plan)
    ensures Costs(Perform(db, plan, attempt), attempt.fault, Trips(db, plan, attempt.command))
    ensures AllReached(Commits(db, plan, attempt), EMPTY, plan)
  {
    hide WellRegistered, At, Hosts, Reached, RunSpec, ResetSpec, RefreshSpec, RunCommits, ResetCommits, RefreshCommits,
      Recorded;
    EmptyHosts(plan);
    match attempt.command
    case Run => RunReaches(db, EMPTY, plan, attempt.fault);
    case Reset => ResetReaches(db, EMPTY, plan, attempt.fault);
    case Refresh => RefreshReaches(db, EMPTY, plan, attempt.fault);
    case Fresh(order) =>
      DropAllLeavesNothing(db, order, attempt.fault);
      match DropAllSpec(db, order, attempt.fault)
      case Failed(same) =>
      case Done(dropped, rest) =>
        HostRecordsNothing(EMPTY, plan);
        RunReaches(EMPTY, EMPTY, plan, rest);
  }

  lemma {:induction false} HistoryReaches(db: Database, plan: seq<Migration>, attempts: seq<Attempt>)
    requires WellRegistered(plan) && Reached(db, EMPTY, plan) && CataloguedThroughout(db, plan, attempts)
    ensures Reached(AfterHistory(db, plan, attempts), EMPTY, plan)
    ensures AllReached(HistoryCommits(db, plan, attempts), EMPTY, plan)
    decreases |attempts|
  {
    hide WellRegistered, Reached, Perform, Catalogued, Commits;
    if attempts != [] {
      AttemptReaches(db, plan, attempts[0]);
      HistoryReaches(Perform(db, plan, attempts[0]).db, plan, attempts[1..]);
    }
  }

  /** Exactly a prefix of the registration list is recorded, its tables are the only ones, and every
      foreign key resolves. */
  ghost predicate Consistent(db: Database, plan: seq<Migration>) {
    Resolved(db) && exists n: nat :: n <= |plan| && RecordsPrefix(db, plan, n)
  }

  ghost predicate RecordsPrefix(db: Database, plan: seq<Migration>, n: nat)
    requires n <= |plan|
  {
    && db.tables == Tables(plan[..n])
    && Rows(db).Keys == Names(plan[..n])
  }

  lemma ReachedIsConsistent(db: Database, plan: seq<Migration>)
    requires WellRegistered(plan) && Reached(db, EMPTY, plan)
    ensures Consistent(db, plan)
  {
    if db == EMPTY {
      assert plan[..0] == [] && RecordsPrefix(db, plan, 0);
    } else {
      var n: nat :| n <= |plan| && At(db, EMPTY, plan, n);
      assert map[] + Tables(plan[..n]) == Tables(plan[..n]);
      assert RecordsPrefix(db, plan, n);
      forall table | table in db.tables
        ensures db.tables[table] <= TableNames(db)
      {
        PrefixReferences(plan, n, table);
      }
    }
  }

  /** Every history of Run, Reset, Refresh and Fresh from an empty database, each failing wherever
      it may: the database records exactly a prefix of the list, holds exactly its tables, and every
      foreign key resolves. The same is true of every database committed on the way. */
  lemma EveryHistoryRecordsAPrefix(plan: seq<Migration>, attempts: seq<Attempt>)
    requires WellRegistered(plan) && CataloguedThroughout(EMPTY, plan, attempts)
    ensures Consistent(AfterHistory(EMPTY, plan, attempts), plan)
    ensures forall state :: state in HistoryCommits(EMPTY, plan, attempts) ==> Consistent(state, plan)
  {
    hide WellRegistered, Consistent, Reached;
    EmptyHosts(plan);
    HistoryReaches(EMPTY, plan, attempts);
    ReachedIsConsistent(AfterHistory(EMPTY, plan, attempts), plan);
    forall state | state in HistoryCommits(EMPTY, plan, attempts)
      ensures Consistent(state, plan)
    {
      ReachedIsConsistent(state, plan);
    }
  }

  /** The database after the last of these commits. */
  function LastOf(db: Database, commits: seq<Database>): Database {
    if commits == [] then db else commits[|commits| - 1]
  }

  lemma {:induction false} PendingEndsCommitted(
      db: Database, plan: seq<Migration>, applied: set<string>, batch: int, fault: Fault)
    ensures ApplyPending(db, plan, applied, batch, fault).db
         == LastOf(db, PendingCommits(db, plan, applied, batch, fault))
    decreases |plan|
  {
    if plan != [] {
      if plan[0].name in applied {
        PendingEndsCommitted(db, plan[1..], applied, batch, fault);
      } else {
        hide ApplySpec;
        var outcome := ApplySpec(db, plan[0], batch, fault);
        AFailureChangesNothing(db, plan[0], batch, fault);
        if outcome.Done? { PendingEndsCommitted(outcome.db, plan[1..], applied, batch, outcome.fault); }
      }
    }
  }

  lemma AFailureChangesNothing(db: Database, m: Migration, batch: int, fault: Fault)
    ensures ApplySpec(db, m, batch, fault).Failed? ==> ApplySpec(db, m, batch, fault).db == db
    ensures RevertSpec(db, m, fault).Failed? ==> RevertSpec(db, m, fault).db == db
  {}

  lemma {:induction false} RevertEndsCommitted(
      db: Database, plan: seq<Migration>, applied: set<string>, fault: Fault)
    ensures RevertApplied(db, plan, applied, fault).db == LastOf(db, RevertCommits(db, plan, applied, fault))
    decreases |plan|
  {
    if plan != [] {
      var last := |plan| - 1;
      if plan[last].name !in applied {
        RevertEndsCommitted(db, plan[..last], applied, fault);
      } else {
        hide RevertSpec;
        var outcome := RevertSpec(db, plan[last], fault);
        AFailureChangesNothing(db, plan[last], 0, fault);
        if outcome.Done? { RevertEndsCommitted(outcome.db, plan[..last], applied, outcome.fault); }
      }
    }
  }

  lemma RunEndsCommitted(db: Database, plan: seq<Migration>, fault: Fault)
    ensures RunSpec(db, plan, fault).db == LastOf(db, RunCommits(db, plan, fault))
  {
    hide ApplyPending, PendingCommits, MaxBatch;
    EnsureEffect(db, fault);
    match Atomically(db, [CreateRepository], fault)
    case Failed(same) =>
    case Done(ready, rest) =>
      if Survives(rest, 2) {
        PendingEndsCommitted(ready, plan, Rows(ready).Keys, MaxBatch(Rows(ready)) + 1, After(rest, 2));
      }
  }

  lemma ResetEndsCommitted(db: Database, plan: seq<Migration>, fault: Fault)
    ensures ResetSpec(db, plan, fault).db == LastOf(db, ResetCommits(db, plan, fault))
  {
    hide RevertApplied, RevertCommits;
    EnsureEffect(db, fault);
    match Atomically(db, [CreateRepository], fault)
    case Failed(same) =>
    case Done(ready, rest) =>
      if Survives(rest, 1) {
        RevertEndsCommitted(ready, plan, Rows(ready).Keys, After(rest, 1));
      }
  }

  lemma NothingDroppedNothingChanged(db: Database, order: seq<string>, fault: Fault)
    ensures DropAllSpec(db, order, fault).db == LastOf(db, DropAllCommits(db, order, fault))
  {}

  /** Whatever fails, what an attempt leaves is what it last committed. */
  lemma WhatIsLeftWasCommitted(db: Database, plan: seq<Migration>, attempt: Attempt)
    ensures Perform(db, plan, attempt).db == LastOf(db, Commits(db, plan, attempt))
  {
    hide RunSpec, ResetSpec, RunCommits, ResetCommits, DropAllSpec, DropAllCommits;
    match attempt.command
    case Run => RunEndsCommitted(db, plan, attempt.fault);
    case Reset => ResetEndsCommitted(db, plan, attempt.fault);
    case Refresh =>
      ResetEndsCommitted(db, plan, attempt.fault);
      var reset := ResetSpec(db, plan, attempt.fault);
      if reset.Done? { RunEndsCommitted(reset.db, plan, reset.fault); }
    case Fresh(order) =>
      NothingDroppedNothingChanged(db, order, attempt.fault);
      var dropped := DropAllSpec(db, order, attempt.fault);
      if dropped.Done? { RunEndsCommitted(dropped.db, plan, dropped.fault); }
  }

  /** After every history no Up and no Down is blocked by a missing or a dependent table: a command
      succeeds exactly when the server holds out for the round trips it makes. */
  lemma NoCommandIsBlocked(plan: seq<Migration>, attempts: seq<Attempt>, next: Attempt)
    requires WellRegistered(plan) && CataloguedThroughout(EMPTY, plan, attempts + [next])
    ensures var db := AfterHistory(EMPTY, plan, attempts);
      Perform(db, plan, next).Done? <==> next.fault.None? || Trips(db, plan, next.command) <= next.fault.value
  {
    hide WellRegistered, Reached, Perform, Trips;
    EmptyHosts(plan);
    HistoryJoins(EMPTY, plan, attempts, next);
    HistoryReaches(EMPTY, plan, attempts);
    AttemptReaches(AfterHistory(EMPTY, plan, attempts), plan, next);
  }

  lemma {:induction false} HistoryJoins(db: Database, plan: seq<Migration>, attempts: seq<Attempt>, next: Attempt)
    requires CataloguedThroughout(db, plan, attempts + [next])
    ensures CataloguedThroughout(db, plan, attempts) && Catalogued(AfterHistory(db, plan, attempts), next)
    decreases |attempts|
  {
    hide Perform, Catalogued;
    if attempts == [] {
      assert attempts + [next] == [next];
    } else {
      assert (attempts + [next])[1..] == attempts[1..] + [next];
      HistoryJoins(Perform(db, plan, attempts[0]).db, plan, attempts[1..], next);
    }
  }

  // ---------- the order of registration

  /** A prefix, seen from the whole list. */
  lemma PrefixReferencesEarlier(plan: seq<Migration>, n: nat, i: nat)
    requires i < n <= |plan|
    ensures ReferencesEarlier(plan[..n], i) <==> ReferencesEarlier(plan, i)
  {
    assert plan[..n][..i + 1] == plan[..i + 1] && plan[..n][i] == plan[i];
  }

  lemma NextInOrder(plan: seq<Migration>, n: nat)
    requires n < |plan| && DistinctlyNamed(plan) && WellRegistered(plan[..n])
    ensures WellRegistered(plan[..n + 1]) <==> ReferencesEarlier(plan, n)
  {
    PrefixReferencesEarlier(plan, n + 1, n);
    var shorter, longer := plan[..n], plan[..n + 1];
    forall i | 0 <= i < n
      ensures ReferencesEarlier(longer, i)
    {
      PrefixReferencesEarlier(plan, n, i);
      PrefixReferencesEarlier(plan, n + 1, i);
      assert ReferencesEarlier(shorter, i);
    }
    assert forall i :: 0 <= i <= n ==> longer[i] == plan[i];
  }

  /** Standing at the first `n` migrations, the next one can be applied exactly when it references
      nothing later. */
  lemma CreatableInOrder(db: Database, plan: seq<Migration>, n: nat)
    requires n < |plan| && DistinctlyNamed(plan) && At(db, EMPTY, plan, n)
    ensures Creatable(db, plan[n]) && plan[n].name !in Rows(db) <==> ReferencesEarlier(plan, n)
    ensures ReferencesEarlier(plan, n) ==>
      At(Database(Created(db, plan[n]), Some(Rows(db)[plan[n].name := 1])), EMPTY, plan, n + 1)
  {
    var m, longer := plan[n], plan[..n + 1];
    assert longer[..n] == plan[..n];
    assert Tables(longer) == Tables(plan[..n])[m.table := m.references];
    assert m.table !in Tables(plan[..n]) by { TablesOf(plan[..n], m.table); }
    assert m.name !in Names(plan[..n]);
    RestNamesLast(plan, n);
    assert map[] + Tables(longer) == Tables(longer) && map[] + Tables(plan[..n]) == Tables(plan[..n]);
  }

  lemma RestNamesLast(plan: seq<Migration>, n: nat)
    requires n < |plan|
    ensures Names(plan[..n + 1]) == Names(plan[..n]) + {plan[n].name}
  {
    var longer := plan[..n + 1];
    forall name | name in Names(longer)
      ensures name in Names(plan[..n]) + {plan[n].name}
    {
      var i :| 0 <= i < n + 1 && longer[i].name == name;
      assert i < n ==> plan[..n][i].name == name;
    }
    assert forall i :: 0 <= i < n ==> longer[i] == plan[..n][i];
    assert longer[n].name in Names(longer);
  }

  lemma {:induction false} PendingSucceedsInOrder(db: Database, plan: seq<Migration>, n: nat)
    requires n <= |plan| && DistinctlyNamed(plan) && At(db, EMPTY, plan, n) && WellRegistered(plan[..n])
    ensures ApplyPending(db, plan[n..], {}, 1, None).Done? <==> WellRegistered(plan)
    decreases |plan| - n
  {
    if n == |plan| {
      assert plan[..n] == plan;
    } else {
      assert plan[n..][0] == plan[n] && plan[n..][1..] == plan[n + 1..];
      ApplyEffect(db, plan[n], 1, None);
      CreatableInOrder(db, plan, n);
      NextInOrder(plan, n);
      if ReferencesEarlier(plan, n) {
        hide At, Creatable, Created;
        PendingSucceedsInOrder(ApplySpec(db, plan[n], 1, None).db, plan, n + 1);
      }
    }
  }

  lemma SteadyRunSucceedsInOrder(plan: seq<Migration>)
    requires DistinctlyNamed(plan)
    ensures RunSpec(EMPTY, plan, None).Done? <==> WellRegistered(plan)
  {
    EnsureEffect(EMPTY, None);
    var ready := EMPTY.(repository := Some(map[]));
    assert plan[..0] == [] && plan[0..] == plan;
    assert At(ready, EMPTY, plan, 0);
    assert MaxBatch(Rows(ready)) + 1 == 1 && Rows(ready).Keys == {};
    hide MaxBatch, WellRegistered, At;
    PendingSucceedsInOrder(ready, plan, 0);
  }

  /** On an empty database Run succeeds exactly when the list is registered in an order that lets every
      reference find its table and the server holds out for every migration. */
  lemma RunSucceedsExactlyInOrder(plan: seq<Migration>, fault: Fault)
    requires DistinctlyNamed(plan)
    ensures RunSpec(EMPTY, plan, fault).Done? <==> WellRegistered(plan) && Survives(fault, 5 + 4 * |plan|)
  {
    hide RunSpec, WellRegistered, Reached, Recorded;
    SteadyRunSucceedsInOrder(plan);
    if RunSpec(EMPTY, plan, fault).Done? { RunOnASteadyServer(EMPTY, plan, fault); }
    if WellRegistered(plan) {
      EmptyHosts(plan);
      RunReaches(EMPTY, EMPTY, plan, fault);
      HostRecordsNothing(EMPTY, plan);
    }
  }

  /** Fresh rebuilds any database whatsoever under the same condition, the drops' trips added. */
  lemma FreshSucceedsExactlyInOrder(db: Database, plan: seq<Migration>, order: seq<string>, fault: Fault)
    requires Lists(order, db) && DistinctlyNamed(plan)
    ensures FreshSpec(db, plan, order, fault).Done?
       <==> WellRegistered(plan) && Survives(fault, DropTrips(order) + 5 + 4 * |plan|)
  {
    hide FreshSpec, RunSpec, WellRegistered;
    FreshForgetsThePast(db, plan, order, fault);
    if Survives(fault, DropTrips(order)) { RunSucceedsExactlyInOrder(plan, After(fault, DropTrips(order))); }
  }

  // ---------- the registered migrations (database/kernel.go)

  const USERS := Migration("users", "users", {})
  const EVENTS := Migration("events", "events", {"users"})
  const REGISTERED := [USERS, EVENTS]

  lemma RegisteredInOrder()
    ensures WellRegistered(REGISTERED)
    ensures !WellRegistered([EVENTS, USERS])
  {
    assert REGISTERED[..1] == [USERS] && REGISTERED[..2] == REGISTERED;
    assert ReferencesEarlier(REGISTERED, 0) && "users" in Tables(REGISTERED);
    TablesOf([USERS], "users");
    TablesOf(REGISTERED, "users");
    assert [EVENTS, USERS][..1] == [EVENTS];
    TablesOf([EVENTS], "users");
    assert !ReferencesEarlier([EVENTS, USERS], 0);
  }
}
