/** The migrator statement by statement, on a connection whose every round trip may fail
    (database/migrator.go). */
module Migrator {
  import opened Wrappers
  import opened Schema
  import opened Migrations
  import MigrationHistory

  /** The server: the committed database, the working copy of an open transaction, how many more trips
      succeed, and every database committed so far. */
  class Connection {
    var committed: Database
    var working: Option<Database>
    var fault: Fault
    ghost var log: seq<Database>

    constructor (db: Database, fault: Fault)
      ensures committed == db && this.fault == fault && working.None? && log == []
    {
      this.committed := db;
      this.working := None;
      this.fault := fault;
      this.log := [];
    }

    method Trip() returns (ok: bool)
      modifies this`fault
      ensures ok == Survives(old(fault), 1)
      ensures ok ==> fault == After(old(fault), 1)
    {
      ok := fault.None? || fault.value > 0;
      if ok && fault.Some? {
        fault := Some(fault.value - 1);
      }
    }

    method Begin() returns (ok: bool)
      requires working.None?
      modifies this`fault, this`working
      ensures ok == Survives(old(fault), 1)
      ensures if ok then fault == After(old(fault), 1) && working == Some(committed) else working.None?
    {
      ok := Trip();
      if ok {
        working := Some(committed);
      }
    }

    method Exec(statement: Statement) returns (ok: bool)
      requires working.Some?
      modifies this`fault, this`working
      ensures ok == (Survives(old(fault), 1) && Execute(old(working).value, statement).Some?)
      ensures ok ==> fault == After(old(fault), 1) && working == Execute(old(working).value, statement)
      ensures !ok ==> working == old(working)
    {
      ok := Trip();
      if ok {
        var result := Execute(working.value, statement);
        ok := result.Some?;
        if ok {
          working := result;
        }
      }
    }

    method Rollback()
      modifies this`working
      ensures working.None?
    {
      working := None;
    }

    /** A commit that fails leaves what was committed before. */
    method Commit() returns (ok: bool)
      requires working.Some?
      modifies this`fault, this`working, this`committed, this`log
      ensures ok == Survives(old(fault), 1) && working.None?
      ensures ok ==> fault == After(old(fault), 1) && committed == old(working).value && log == old(log) + [committed]
      ensures !ok ==> committed == old(committed) && log == old(log)
    {
      ok := Trip();
      if ok {
        committed := working.value;
        log := log + [committed];
      }
      working := None;
    }
  }

  /** What a command leaves on the server, whether it succeeded, and what is left of the connection. */
  predicate Ends(db: Connection, outcome: Outcome, ok: bool)
    reads db
  {
    && ok == outcome.Done?
    && db.committed == outcome.db
    && db.working.None?
    && (ok ==> db.fault == outcome.fault)
  }

  /** What a transaction commits. */
  function Committed(outcome: Outcome): seq<Database> {
    if outcome.Done? then [outcome.db] else []
  }

  lemma TwoStatements(db: Database, first: Statement, second: Statement, fault: Fault)
    ensures Atomically(db, [first] + [second], fault) ==
      match Execute(db, first)
      case None => Failed(db)
      case Some(next) =>
        match Execute(next, second)
        case None => Failed(db)
        case Some(last) => if Survives(fault, 4) then Done(last, After(fault, 4)) else Failed(db)
  {
    MigrationHistory.ExecuteAllTwo(db, first, second);
  }

  lemma OneStatement(db: Database, only: Statement, fault: Fault)
    ensures Atomically(db, [only], fault) ==
      match Execute(db, only)
      case None => Failed(db)
      case Some(next) => if Survives(fault, 3) then Done(next, After(fault, 3)) else Failed(db)
  {
    ExecuteOneMore(db, [], only);
    assert [] + [only] == [only];
  }

  /** A Run up to its loop. */
  lemma RunPrepares(db: Database, plan: seq<Migration>, fault: Fault)
    ensures var ready := db.(repository := Some(Rows(db)));
      var applied, batch := Rows(ready).Keys, MaxBatch(Rows(ready)) + 1;
      && Atomically(db, [CreateRepository], fault)
         == (if Survives(fault, 3) then Done(ready, After(fault, 3)) else Failed(db))
      && RunSpec(db, plan, fault)
         == (if !Survives(fault, 3) then Failed(db)
             else if !Survives(fault, 5) then Failed(ready)
             else ApplyPending(ready, plan, applied, batch, After(fault, 5)))
      && RunCommits(db, plan, fault)
         == (if !Survives(fault, 3) then []
             else if !Survives(fault, 5) then [ready]
             else [ready] + PendingCommits(ready, plan, applied, batch, After(fault, 5)))
  {
    hide ApplyPending, PendingCommits, MaxBatch;
    OneStatement(db, CreateRepository, fault);
  }

  /** A Reset up to its loop. */
  lemma ResetPrepares(db: Database, plan: seq<Migration>, fault: Fault)
    ensures var ready := db.(repository := Some(Rows(db)));
      var applied := Rows(ready).Keys;
      && Atomically(db, [CreateRepository], fault)
         == (if Survives(fault, 3) then Done(ready, After(fault, 3)) else Failed(db))
      && ResetSpec(db, plan, fault)
         == (if !Survives(fault, 3) then Failed(db)
             else if !Survives(fault, 4) then Failed(ready)
             else RevertApplied(ready, plan, applied, After(fault, 4)))
      && ResetCommits(db, plan, fault)
         == (if !Survives(fault, 3) then []
             else if !Survives(fault, 4) then [ready]
             else [ready] + RevertCommits(ready, plan, applied, After(fault, 4)))
  {
    hide RevertApplied, RevertCommits;
    OneStatement(db, CreateRepository, fault);
  }

  /** One turn of the loop of `Run`. */
  lemma PendingTurn(db: Database, plan: seq<Migration>, i: nat, applied: set<string>, batch: int, fault: Fault)
    requires i < |plan|
    ensures var turn := ApplySpec(db, plan[i], batch, fault);
      && ApplyPending(db, plan[i..], applied, batch, fault)
         == (if plan[i].name in applied then ApplyPending(db, plan[i + 1..], applied, batch, fault)
             else if turn.Failed? then turn
             else ApplyPending(turn.db, plan[i + 1..], applied, batch, turn.fault))
      && PendingCommits(db, plan[i..], applied, batch, fault)
         == (if plan[i].name in applied then PendingCommits(db, plan[i + 1..], applied, batch, fault)
             else if turn.Failed? then []
             else [turn.db] + PendingCommits(turn.db, plan[i + 1..], applied, batch, turn.fault))
  {
    hide ApplySpec;
    assert plan[i..][0] == plan[i] && plan[i..][1..] == plan[i + 1..];
  }

  /** One turn of the loop of `Reset`. */
  lemma RevertTurn(db: Database, plan: seq<Migration>, i: nat, applied: set<string>, fault: Fault)
    requires i < |plan|
    ensures var turn := RevertSpec(db, plan[i], fault);
      && RevertApplied(db, plan[..i + 1], applied, fault)
         == (if plan[i].name !in applied then RevertApplied(db, plan[..i], applied, fault)
             else if turn.Failed? then turn
             else RevertApplied(turn.db, plan[..i], applied, turn.fault))
      && RevertCommits(db, plan[..i + 1], applied, fault)
         == (if plan[i].name !in applied then RevertCommits(db, plan[..i], applied, fault)
             else if turn.Failed? then []
             else [turn.db] + RevertCommits(turn.db, plan[..i], applied, turn.fault))
  {
    hide RevertSpec;
    assert plan[..i + 1][i] == plan[i] && plan[..i + 1][..i] == plan[..i];
  }

  lemma NothingLeft(db: Database, applied: set<string>, batch: int, fault: Fault)
    ensures ApplyPending(db, [], applied, batch, fault) == Done(db, fault)
    ensures PendingCommits(db, [], applied, batch, fault) == []
    ensures RevertApplied(db, [], applied, fault) == Done(db, fault)
    ensures RevertCommits(db, [], applied, fault) == []
  {}

  class Migrator {
    const db: Connection
    const migrations: seq<Migration>

    constructor (db: Connection, migrations: seq<Migration>)
      ensures this.db == db && this.migrations == migrations
    {
      this.db := db;
      this.migrations := migrations;
    }

    method EnsureRepository() returns (ok: bool)
      requires db.working.None?
      modifies db
      ensures Ends(db, Atomically(old(db.committed), [CreateRepository], old(db.fault)), ok)
      ensures db.log == old(db.log) + Committed(Atomically(old(db.committed), [CreateRepository], old(db.fault)))
    {
      OneStatement(db.committed, CreateRepository, db.fault);
      hide Atomically;
      ok := db.Begin();
      if !ok {
        return;
      }
      ok := db.Exec(CreateRepository);
      if !ok {
        db.Rollback();
        return;
      }
      ok := db.Commit();
    }

    /** One migration and its row in the same transaction. */
    method Apply(registered: Migration, batch: int) returns (ok: bool)
      requires db.working.None?
      modifies db
      ensures Ends(db, ApplySpec(old(db.committed), registered, batch, old(db.fault)), ok)
      ensures db.log == old(db.log) + Committed(ApplySpec(old(db.committed), registered, batch, old(db.fault)))
    {
      ok := Pair(registered.Up()[0], Record(registered.name, batch));
    }

    /** One rollback and the removal of its row in the same transaction. */
    method Revert(registered: Migration) returns (ok: bool)
      requires db.working.None?
      modifies db
      ensures Ends(db, RevertSpec(old(db.committed), registered, old(db.fault)), ok)
      ensures db.log == old(db.log) + Committed(RevertSpec(old(db.committed), registered, old(db.fault)))
    {
      ok := Pair(registered.Down()[0], Forget(registered.name));
    }

    /** The transaction that `apply` and `revert` both are: schema change, bookkeeping, commit. */
    method Pair(change: Statement, bookkeeping: Statement) returns (ok: bool)
      requires db.working.None?
      modifies db
      ensures Ends(db, Atomically(old(db.committed), [change] + [bookkeeping], old(db.fault)), ok)
      ensures db.log == old(db.log) + Committed(Atomically(old(db.committed), [change] + [bookkeeping], old(db.fault)))
    {
      TwoStatements(db.committed, change, bookkeeping, db.fault);
      hide Atomically, Execute;
      ok := db.Begin();
      if !ok {
        return;
      }
      ok := db.Exec(change);
      if !ok {
        db.Rollback();
        return;
      }
      ok := db.Exec(bookkeeping);
      if !ok {
        db.Rollback();
        return;
      }
      ok := db.Commit();
    }

    method AppliedMigrations() returns (ok: bool, applied: set<string>)
      requires db.working.None?
      modifies db`fault
      ensures ok == (Survives(old(db.fault), 1) && db.committed.repository.Some?)
      ensures ok ==> applied == Rows(db.committed).Keys && db.fault == After(old(db.fault), 1)
    {
      applied := {};
      ok := db.Trip();
      if ok {
        ok := db.committed.repository.Some?;
        applied := Rows(db.committed).Keys;
      }
    }

    method NextBatch() returns (ok: bool, batch: int)
      requires db.working.None?
      modifies db`fault
      ensures ok == (Survives(old(db.fault), 1) && db.committed.repository.Some?)
      ensures ok ==> batch == MaxBatch(Rows(db.committed)) + 1 && db.fault == After(old(db.fault), 1)
    {
      batch := 0;
      ok := db.Trip();
      if ok {
        ok := db.committed.repository.Some?;
        batch := MaxBatch(Rows(db.committed)) + 1;
      }
    }

    method Run() returns (ok: bool)
      requires db.working.None?
      modifies db
      ensures Ends(db, RunSpec(old(db.committed), migrations, old(db.fault)), ok)
      ensures db.log == old(db.log) + RunCommits(old(db.committed), migrations, old(db.fault))
    {
      hide ApplySpec, MaxBatch, Atomically, RunSpec, RunCommits, ApplyPending, PendingCommits;
      RunPrepares(db.committed, migrations, db.fault);
      ok := EnsureRepository();
      if !ok {
        return;
      }
      var applied;
      ok, applied := AppliedMigrations();
      if !ok {
        return;
      }
      var batch;
      ok, batch := NextBatch();
      if !ok {
        return;
      }
      ghost var whole := ApplyPending(db.committed, migrations, applied, batch, db.fault);
      ghost var log := db.log + PendingCommits(db.committed, migrations, applied, batch, db.fault);
      assert migrations[0..] == migrations;
      for i := 0 to |migrations|
        invariant db.working.None?
        invariant ApplyPending(db.committed, migrations[i..], applied, batch, db.fault) == whole
        invariant db.log + PendingCommits(db.committed, migrations[i..], applied, batch, db.fault) == log
      {
        PendingTurn(db.committed, migrations, i, applied, batch, db.fault);
        if migrations[i].name in applied {
          continue;
        }
        ok := Apply(migrations[i], batch);
        if !ok {
          return;
        }
      }
      NothingLeft(db.committed, applied, batch, db.fault);
      assert migrations[|migrations|..] == [] && db.log + [] == db.log;
    }

    method Reset() returns (ok: bool)
      requires db.working.None?
      modifies db
      ensures Ends(db, ResetSpec(old(db.committed), migrations, old(db.fault)), ok)
      ensures db.log == old(db.log) + ResetCommits(old(db.committed), migrations, old(db.fault))
    {
      hide RevertSpec, Atomically, ResetSpec, ResetCommits, RevertApplied, RevertCommits;
      ResetPrepares(db.committed, migrations, db.fault);
      ok := EnsureRepository();
      if !ok {
        return;
      }
      var applied;
      ok, applied := AppliedMigrations();
      if !ok {
        return;
      }
      ghost var whole := RevertApplied(db.committed, migrations, applied, db.fault);
      ghost var log := db.log + RevertCommits(db.committed, migrations, applied, db.fault);
      assert migrations[..|migrations|] == migrations;
      var i := |migrations| - 1;
      while i >= 0
        invariant -1 <= i < |migrations| && db.working.None?
        invariant RevertApplied(db.committed, migrations[..i + 1], applied, db.fault) == whole
        invariant db.log + RevertCommits(db.committed, migrations[..i + 1], applied, db.fault) == log
      {
        RevertTurn(db.committed, migrations, i, applied, db.fault);
        if migrations[i].name in applied {
          ok := Revert(migrations[i]);
          if !ok {
            return;
          }
        }
        i := i - 1;
      }
      NothingLeft(db.committed, applied, 0, db.fault);
      assert migrations[..0] == [] && db.log + [] == db.log;
    }

    method Refresh() returns (ok: bool)
      requires db.working.None?
      modifies db
      ensures Ends(db, RefreshSpec(old(db.committed), migrations, old(db.fault)), ok)
      ensures db.log == old(db.log) + RefreshCommits(old(db.committed), migrations, old(db.fault))
    {
      hide ResetSpec, RunSpec, ResetCommits, RunCommits;
      ok := Reset();
      if !ok {
        return;
      }
      ok := Run();
    }

    /** The catalogue's listing. The program asks for it sorted; no order is relied on. */
    method ListTables() returns (ok: bool, tables: seq<string>)
      requires db.working.None?
      modifies db`fault
      ensures ok == Survives(old(db.fault), 1)
      ensures Lists(tables, db.committed)
      ensures ok ==> db.fault == After(old(db.fault), 1)
    {
      ok := db.Trip();
      tables := [];
      var rest := TableNames(db.committed);
      while rest != {}
        invariant forall table :: table in TableNames(db.committed) <==> table in tables || table in rest
        decreases |rest|
      {
        var table :| table in rest;
        tables := tables + [table];
        rest := rest - {table};
      }
    }

    method DropAllTables() returns (ok: bool, ghost order: seq<string>)
      requires db.working.None?
      modifies db
      ensures Lists(order, old(db.committed))
      ensures Ends(db, DropAllSpec(old(db.committed), order, old(db.fault)), ok)
      ensures db.log == old(db.log) + DropAllCommits(old(db.committed), order, old(db.fault))
    {
      var tables;
      ok, tables := ListTables();
      order := tables;
      if !ok {
        return;
      }
      if |tables| == 0 {
        return;
      }
      ghost var fault := db.fault;
      MigrationHistory.CascadeInAnyOrder(db.committed, tables);
      ok := db.Begin();
      if !ok {
        return;
      }
      ghost var begun := db.committed;
      for i := 0 to |tables|
        invariant db.committed == begun && Survives(fault, i + 1) && db.fault == After(fault, i + 1)
        invariant db.log == old(db.log)
        invariant db.working.Some? && ExecuteAll(begun, DropStatements(tables[..i])) == db.working
      {
        DropOneMore(begun, tables, i);
        ok := db.Exec(DropCascade(tables[i]));
        if !ok {
          db.Rollback();
          return;
        }
      }
      assert tables[..|tables|] == tables;
      ok := db.Commit();
    }

    method Fresh() returns (ok: bool, ghost order: seq<string>)
      requires db.working.None?
      modifies db
      ensures Lists(order, old(db.committed))
      ensures Ends(db, FreshSpec(old(db.committed), migrations, order, old(db.fault)), ok)
      ensures db.log == old(db.log) + FreshCommits(old(db.committed), migrations, order, old(db.fault))
    {
      hide DropAllSpec, RunSpec, DropAllCommits, RunCommits;
      ok, order := DropAllTables();
      if !ok {
        return;
      }
      ok := Run();
    }
  }

  lemma DropOneMore(db: Database, tables: seq<string>, i: nat)
    requires i < |tables|
    ensures ExecuteAll(db, DropStatements(tables[..i + 1])) ==
      match ExecuteAll(db, DropStatements(tables[..i]))
      case None => None
      case Some(next) => Execute(next, DropCascade(tables[i]))
  {
    assert DropStatements(tables[..i + 1]) == DropStatements(tables[..i]) + [DropCascade(tables[i])];
    ExecuteOneMore(db, DropStatements(tables[..i]), DropCascade(tables[i]));
  }
}
