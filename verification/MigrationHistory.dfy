/** What every history of migrator commands keeps, wherever the server fails. */
module MigrationHistory {
  import opened Wrappers
  import opened Schema
  import opened Migrations

  /** A database the list can be registered against: its own tables and rows are of other names and
      reference none of the list's tables. */
  ghost predicate Hosts(base: Database, plan: seq<Migration>) {
    && WellFormed(base)
    && Names(plan) !! Rows(base).Keys
    && Tables(plan).Keys !! base.tables.Keys
    && forall table :: table in base.tables ==> base.tables[table] !! Tables(plan).Keys
  }

  /** Exactly the first `n` migrations of the list are recorded, exactly their tables stand beside
      those of the host, and the host's own rows are untouched. */
  ghost predicate At(db: Database, base: Database, plan: seq<Migration>, n: nat)
    requires n <= |plan|
  {
    && db.tables == base.tables + Tables(plan[..n])
    && db.repository.Some?
    && db.repository.value.Keys == Rows(base).Keys + Names(plan[..n])
    && forall name :: name in Rows(base) ==> db.repository.value[name] == Rows(base)[name]
  }

  ghost predicate Reached(db: Database, base: Database, plan: seq<Migration>) {
    db == base || exists n: nat :: n <= |plan| && At(db, base, plan, n)
  }

  // ---------- prefixes of a registration list

  lemma PrefixGrows(plan: seq<Migration>, n: nat)
    requires n < |plan| && WellRegistered(plan)
    ensures Names(plan[..n + 1]) == Names(plan[..n]) + {plan[n].name} && plan[n].name !in Names(plan[..n])
    ensures Tables(plan[..n + 1]) == Tables(plan[..n])[plan[n].table := plan[n].references]
    ensures plan[n].table !in Tables(plan[..n]) && plan[n].table != REPOSITORY
    ensures plan[n].references <= Tables(plan[..n]).Keys + {plan[n].table, REPOSITORY}
  {
    assert ReferencesEarlier(plan, n);
    var longer := plan[..n + 1];
    assert longer[..n] == plan[..n];
    forall name | name in Names(longer)
      ensures name in Names(plan[..n]) + {plan[n].name}
    {
      var i :| 0 <= i < n + 1 && longer[i].name == name;
      assert i < n ==> plan[..n][i].name == name;
    }
    assert forall i :: 0 <= i < n ==> longer[i] == plan[..n][i];
    assert longer[n].name in Names(longer);
    TablesOf(plan[..n], plan[n].table);
  }

  lemma {:induction false} TablesOf(plan: seq<Migration>, table: string)
    ensures table in Tables(plan) <==> exists i :: 0 <= i < |plan| && plan[i].table == table
  {
    if plan != [] {
      var last := |plan| - 1;
      TablesOf(plan[..last], table);
      if table in Tables(plan[..last]) {
        var i :| 0 <= i < last && plan[..last][i].table == table;
        assert plan[i].table == table;
      }
      if i :| 0 <= i < |plan| && plan[i].table == table {
        assert i < last ==> plan[..last][i].table == table;
      }
    }
  }

  lemma PrefixTables(plan: seq<Migration>, n: nat)
    requires n <= |plan|
    ensures Tables(plan[..n]).Keys <= Tables(plan).Keys && Names(plan[..n]) <= Names(plan)
  {
    forall table | table in Tables(plan[..n])
      ensures table in Tables(plan)
    {
      TablesOf(plan[..n], table);
      var i :| 0 <= i < n && plan[..n][i].table == table;
      assert plan[i].table == table;
      TablesOf(plan, table);
    }
    forall name | name in Names(plan[..n])
      ensures name in Names(plan)
    {
      var i :| 0 <= i < n && plan[..n][i].name == name;
      assert plan[i].name == name;
    }
  }

  lemma {:induction false} PrefixReferences(plan: seq<Migration>, n: nat, table: string)
    requires n <= |plan| && WellRegistered(plan) && table in Tables(plan[..n])
    ensures Tables(plan[..n])[table] <= Tables(plan[..n]).Keys + {REPOSITORY}
  {
    PrefixGrows(plan, n - 1);
    if table != plan[n - 1].table {
      PrefixReferences(plan, n - 1, table);
    }
  }

  // ---------- nothing is blocked

  /** The next migration's Up finds every table it references, and its row is new. */
  lemma UpIsNotBlocked(db: Database, base: Database, plan: seq<Migration>, n: nat, batch: int)
    requires WellRegistered(plan) && Hosts(base, plan) && n < |plan| && At(db, base, plan, n)
    ensures var result := ExecuteAll(db, plan[n].Up() + [Record(plan[n].name, batch)]);
      result.Some? && At(result.value, base, plan, n + 1)
  {
    hide WellRegistered, Names, Tables, ExecuteAll;
    var m := plan[n];
    PrefixGrows(plan, n);
    PrefixTables(plan, n + 1);
    assert m.table in Tables(plan) && m.name in Names(plan);
    var raised := db.(tables := db.tables[m.table := m.references]);
    assert Execute(db, CreateTable(m.table, m.references)) == Some(raised);
    ExecuteAllTwo(db, CreateTable(m.table, m.references), Record(m.name, batch));
    assert raised.tables == base.tables + Tables(plan[..n + 1]);
  }

  lemma ExecuteAllTwo(db: Database, first: Statement, second: Statement)
    ensures ExecuteAll(db, [first] + [second]) ==
      match Execute(db, first)
      case None => None
      case Some(next) => Execute(next, second)
  {
    ExecuteOneMore(db, [first], second);
    assert [first][1..] == [];
  }

  /** The last recorded migration's Down drops a table nothing references any more. */
  lemma DownIsNotBlocked(db: Database, base: Database, plan: seq<Migration>, n: nat)
    requires WellRegistered(plan) && Hosts(base, plan) && n < |plan| && At(db, base, plan, n + 1)
    ensures var result := ExecuteAll(db, plan[n].Down() + [Forget(plan[n].name)]);
      result.Some? && At(result.value, base, plan, n)
  {
    hide WellRegistered, Names, Tables, ExecuteAll;
    var m := plan[n];
    PrefixGrows(plan, n);
    PrefixTables(plan, n + 1);
    assert m.table in Tables(plan) && m.name in Names(plan);
    forall other | other in db.tables && other != m.table
      ensures m.table !in db.tables[other]
    {
      if other in Tables(plan[..n]) {
        PrefixReferences(plan, n, other);
      }
    }
    var lowered := db.(tables := db.tables - {m.table});
    assert Execute(db, DropTable(m.table)) == Some(lowered);
    ExecuteAllTwo(db, DropTable(m.table), Forget(m.name));
    assert lowered.tables == base.tables + Tables(plan[..n]);
  }

  // ---------- the loops

  /** It succeeds exactly when the server holds out for so many round trips, and then uses them up. */
  predicate Costs(outcome: Outcome, fault: Fault, trips: nat) {
    && (outcome.Done? <==> Survives(fault, trips))
    && (outcome.Done? ==> outcome.fault == After(fault, trips))
  }

  ghost predicate AllReached(commits: seq<Database>, base: Database, plan: seq<Migration>) {
    forall state :: state in commits ==> Reached(state, base, plan)
  }

  /** The loop of `Run`, standing before the i-th migration with the first `recorded` read. */
  lemma {:induction false} ApplyPendingReaches(
      db: Database, base: Database, plan: seq<Migration>, i: nat, recorded: nat, applied: set<string>, batch: int,
      fault: Fault)
    requires WellRegistered(plan) && Hosts(base, plan) && i <= |plan| && recorded <= |plan|
    requires forall k :: 0 <= k < |plan| ==> (plan[k].name in applied <==> k < recorded)
    requires At(db, base, plan, if i < recorded then recorded else i)
    ensures var outcome := ApplyPending(db, plan[i..], applied, batch, fault);
      && Reached(outcome.db, base, plan)
      && (outcome.Done? ==> At(outcome.db, base, plan, |plan|))
      && Costs(outcome, fault, 4 * (|plan| - if i < recorded then recorded else i))
    ensures AllReached(PendingCommits(db, plan[i..], applied, batch, fault), base, plan)
    decreases |plan| - i
  {
    hide WellRegistered, Hosts, Names, Tables, ExecuteAll, At;
    if i < |plan| {
      assert plan[i..][0] == plan[i] && plan[i..][1..] == plan[i + 1..];
      if i < recorded {
        ApplyPendingReaches(db, base, plan, i + 1, recorded, applied, batch, fault);
      } else {
        UpIsNotBlocked(db, base, plan, i, batch);
        match ApplySpec(db, plan[i], batch, fault)
        case Failed(same) =>
        case Done(next, rest) => ApplyPendingReaches(next, base, plan, i + 1, recorded, applied, batch, rest);
      }
    }
  }

  /** The loop of `Reset`, with the i first-registered migrations still before it. */
  lemma {:induction false} RevertAppliedReaches(
      db: Database, base: Database, plan: seq<Migration>, i: nat, recorded: nat, applied: set<string>, fault: Fault)
    requires WellRegistered(plan) && Hosts(base, plan) && i <= |plan| && recorded <= |plan|
    requires forall k :: 0 <= k < |plan| ==> (plan[k].name in applied <==> k < recorded)
    requires At(db, base, plan, if i < recorded then i else recorded)
    ensures var outcome := RevertApplied(db, plan[..i], applied, fault);
      && Reached(outcome.db, base, plan)
      && (outcome.Done? ==> At(outcome.db, base, plan, 0))
      && Costs(outcome, fault, 4 * if i < recorded then i else recorded)
    ensures AllReached(RevertCommits(db, plan[..i], applied, fault), base, plan)
    decreases i
  {
    hide WellRegistered, Hosts, Names, Tables, ExecuteAll, At;
    if i > 0 {
      assert plan[..i][i - 1] == plan[i - 1] && plan[..i][..i - 1] == plan[..i - 1];
      if i > recorded {
        RevertAppliedReaches(db, base, plan, i - 1, recorded, applied, fault);
      } else {
        DownIsNotBlocked(db, base, plan, i - 1);
        match RevertSpec(db, plan[i - 1], fault)
        case Failed(same) =>
        case Done(next, rest) => RevertAppliedReaches(next, base, plan, i - 1, recorded, applied, rest);
      }
    }
  }

  /** Once the migrations table exists, the names read from it are those of the recorded prefix. */
  lemma RepositoryReady(db: Database, base: Database, plan: seq<Migration>) returns (recorded: nat)
    requires WellRegistered(plan) && Hosts(base, plan) && Reached(db, base, plan)
    ensures recorded <= |plan| && recorded == Recorded(plan, Rows(db).Keys)
    ensures var created := db.(repository := Some(Rows(db)));
      && ExecuteAll(db, [CreateRepository]) == Some(created)
      && At(created, base, plan, recorded)
      && forall k :: 0 <= k < |plan| ==> (plan[k].name in Rows(created) <==> k < recorded)
  {
    var created := db.(repository := Some(Rows(db)));
    ExecuteOneMore(db, [], CreateRepository);
    assert [] + [CreateRepository] == [CreateRepository];
    if db == base {
      recorded := 0;
      assert created.tables == base.tables + Tables(plan[..0]);
      assert Names(plan[..0]) == {};
    } else {
      recorded :| recorded <= |plan| && At(db, base, plan, recorded);
    }
    RecordedNames(base, plan, recorded);
    RecordedCounts(plan, |plan|, Rows(db).Keys, recorded);
    assert plan[..|plan|] == plan;
  }

  lemma RecordedNames(base: Database, plan: seq<Migration>, recorded: nat)
    requires WellRegistered(plan) && Hosts(base, plan) && recorded <= |plan|
    ensures forall k :: 0 <= k < |plan| ==>
      (plan[k].name in Rows(base).Keys + Names(plan[..recorded]) <==> k < recorded)
  {
    forall k | 0 <= k < |plan|
      ensures plan[k].name in Rows(base).Keys + Names(plan[..recorded]) <==> k < recorded
    {
      assert plan[k].name in Names(plan);
      if k < recorded {
        assert plan[..recorded][k] == plan[k];
      }
    }
  }

  lemma {:induction false} RecordedCounts(plan: seq<Migration>, i: nat, names: set<string>, recorded: nat)
    requires i <= |plan| && forall k :: 0 <= k < |plan| ==> (plan[k].name in names <==> k < recorded)
    ensures Recorded(plan[..i], names) == if i < recorded then i else recorded
  {
    if i > 0 {
      assert plan[..i][..i - 1] == plan[..i - 1];
      RecordedCounts(plan, i - 1, names, recorded);
    }
  }

  /** The trips of a Run: three to create the table, two reads, and four for every migration pending. */
  function RunTrips(db: Database, plan: seq<Migration>): nat {
    5 + 4 * (|plan| - Recorded(plan, Rows(db).Keys))
  }

  /** The trips of a Reset: three to create the table, a read, and four for every migration recorded. */
  function ResetTrips(db: Database, plan: seq<Migration>): nat {
    4 + 4 * Recorded(plan, Rows(db).Keys)
  }

  lemma RunReaches(db: Database, base: Database, plan: seq<Migration>, fault: Fault)
    requires WellRegistered(plan) && Hosts(base, plan) && Reached(db, base, plan)
    ensures var outcome := RunSpec(db, plan, fault);
      && Reached(outcome.db, base, plan)
      && (outcome.Done? ==> At(outcome.db, base, plan, |plan|))
      && Costs(outcome, fault, RunTrips(db, plan))
    ensures AllReached(RunCommits(db, plan, fault), base, plan)
  {
    hide WellRegistered, Hosts, Names, Tables, ExecuteAll, At, ApplyPending, PendingCommits, Recorded;
    var recorded := RepositoryReady(db, base, plan);
    match Atomically(db, [CreateRepository], fault)
    case Failed(same) =>
    case Done(ready, rest) =>
      assert plan[0..] == plan;
      if Survives(rest, 2) {
        ApplyPendingReaches(
          ready, base, plan, 0, recorded, Rows(ready).Keys, MaxBatch(Rows(ready)) + 1, After(rest, 2));
      }
  }

  lemma ResetReaches(db: Database, base: Database, plan: seq<Migration>, fault: Fault)
    requires WellRegistered(plan) && Hosts(base, plan) && Reached(db, base, plan)
    ensures var outcome := ResetSpec(db, plan, fault);
      && Reached(outcome.db, base, plan)
      && (outcome.Done? ==> outcome.db == base.(repository := Some(Rows(base))))
      && Costs(outcome, fault, ResetTrips(db, plan))
    ensures AllReached(ResetCommits(db, plan, fault), base, plan)
  {
    hide WellRegistered, Hosts, Names, Tables, ExecuteAll, At, RevertApplied, RevertCommits, Recorded;
    var recorded := RepositoryReady(db, base, plan);
    match Atomically(db, [CreateRepository], fault)
    case Failed(same) =>
    case Done(ready, rest) =>
      assert plan[..|plan|] == plan;
      if Survives(rest, 1) {
        RevertAppliedReaches(ready, base, plan, |plan|, recorded, Rows(ready).Keys, After(rest, 1));
        var outcome := ResetSpec(db, plan, fault);
        if outcome.Done? { AtNothing(outcome.db, base, plan); }
      }
  }

  lemma AtNothing(db: Database, base: Database, plan: seq<Migration>)
    requires At(db, base, plan, 0)
    ensures db == base.(repository := Some(Rows(base)))
  {
    assert plan[..0] == [] && Names(plan[..0]) == {};
    assert db.tables == base.tables;
    assert db.repository.value == Rows(base);
  }

  /** On the host itself nothing is recorded. */
  lemma HostRecordsNothing(base: Database, plan: seq<Migration>)
    requires Hosts(base, plan)
    ensures Recorded(plan, Rows(base).Keys) == 0
  {
    assert forall k :: 0 <= k < |plan| ==> plan[k].name in Names(plan);
    RecordedCounts(plan, |plan|, Rows(base).Keys, 0);
    assert plan[..|plan|] == plan;
  }

  lemma RefreshReaches(db: Database, base: Database, plan: seq<Migration>, fault: Fault)
    requires WellRegistered(plan) && Hosts(base, plan) && Reached(db, base, plan)
    ensures var outcome := RefreshSpec(db, plan, fault);
      && Reached(outcome.db, base, plan)
      && (outcome.Done? ==> At(outcome.db, base, plan, |plan|))
      && Costs(outcome, fault, ResetTrips(db, plan) + 5 + 4 * |plan|)
    ensures AllReached(RefreshCommits(db, plan, fault), base, plan)
  {
    hide WellRegistered, Hosts, Names, Tables, At, ResetSpec, RunSpec, ResetCommits, RunCommits, Recorded;
    ResetReaches(db, base, plan, fault);
    match ResetSpec(db, plan, fault)
    case Failed(stopped) =>
    case Done(reset, rest) =>
      assert Rows(reset) == Rows(base);
      HostRecordsNothing(base, plan);
      RunReaches(reset, base, plan, rest);
  }

  // ---------- dropping everything

  /** The database without some tables and without references to them. */
  function Stripped(db: Database, gone: set<string>): Database {
    Database(
      map table | table in db.tables && table !in gone :: db.tables[table] - gone,
      if REPOSITORY in gone then None else db.repository)
  }

  function Elements(order: seq<string>): set<string> {
    set table | table in order
  }

  lemma {:induction false} CascadeInAnyOrder(db: Database, order: seq<string>)
    ensures ExecuteAll(db, DropStatements(order)) == Some(Stripped(db, Elements(order)))
    decreases |order|
  {
    if order == [] {
      assert Elements(order) == {};
      assert forall table :: table in db.tables ==> db.tables[table] - {} == db.tables[table];
      assert Stripped(db, {}).tables == db.tables;
    } else {
      var next := Execute(db, DropCascade(order[0])).value;
      assert DropStatements(order)[1..] == DropStatements(order[1..]);
      CascadeInAnyOrder(next, order[1..]);
      assert order == [order[0]] + order[1..];
      StripTwice(db, order[0], Elements(order[1..]));
      assert Elements(order) == {order[0]} + Elements(order[1..]);
    }
  }

  lemma StripTwice(db: Database, first: string, others: set<string>)
    ensures Stripped(Execute(db, DropCascade(first)).value, others) == Stripped(db, {first} + others)
  {
    assert forall references: set<string> :: references - {first} - others == references - ({first} + others);
    assert Stripped(Execute(db, DropCascade(first)).value, others).tables == Stripped(db, {first} + others).tables;
  }

  /** The listing and, if there is anything to drop, a transaction of one statement a table. */
  function DropTrips(order: seq<string>): nat {
    if order == [] then 1 else |order| + 3
  }

  /** Whatever the order the catalogue lists the tables in, dropping them all leaves nothing, or, if
      the server does not hold out, everything. */
  lemma DropAllLeavesNothing(db: Database, order: seq<string>, fault: Fault)
    requires Lists(order, db)
    ensures DropAllSpec(db, order, fault) ==
      if Survives(fault, DropTrips(order)) then Done(EMPTY, After(fault, DropTrips(order))) else Failed(db)
  {
    CascadeInAnyOrder(db, order);
    if order == [] {
      assert TableNames(db) == {};
      assert db.tables == map[];
    } else {
      var dropped := ExecuteAll(db, DropStatements(order)).value;
      assert Elements(order) == TableNames(db);
      assert dropped.tables == map[];
    }
  }
}
