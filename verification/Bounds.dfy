/** How large the store grows, whom it evicts and how often, and how recent its keys are
    (app/services/throttle/memory.go:177-235). Bounds on size and eviction assume nothing of the
    clock or of the limits. */
module Bounds {
  import opened Allowance
  import opened TokenBucket
  import opened BoundedStore
  import opened Levels

  predicate Bounded(s: Store) {
    s.maxKeys >= 1 && |s.buckets| <= s.maxKeys
  }

  /** A call needs a new bucket. */
  predicate Inserts(s: Store, c: Call) {
    c.limit.Positive() && c.key !in Sweep(s, c.now, false).buckets
  }

  /** A call reaches the loop that sorts and evicts. */
  predicate Evicts(s: Store, c: Call) {
    Inserts(s, c) && EvictionDue(Sweep(s, c.now, false), c.now)
  }

  /** How many buckets a call sweeps away, in its paced sweep and in the one forced at the cap. */
  function SweptAway(s: Store, c: Call): nat {
    if !c.limit.Positive() then 0
    else
      var swept := Sweep(s, c.now, false);
      |s.buckets.Keys - swept.buckets.Keys| +
      if Inserts(s, c) && AtCap(swept) then |swept.buckets.Keys - Sweep(swept, c.now, true).buckets.Keys| else 0
  }

  lemma Removes<T>(all: set<T>, part: set<T>)
    requires part <= all
    ensures |all - part| == |all| - |part| && |part| <= |all|
  {
    assert all == part + (all - part);
  }

  lemma SweepCounts(s: Store, now: int, forced: bool)
    ensures Sweep(s, now, forced).buckets.Keys <= s.buckets.Keys && Sweep(s, now, forced).maxKeys == s.maxKeys
    ensures |s.buckets.Keys - Sweep(s, now, forced).buckets.Keys| == |s.buckets| - |Sweep(s, now, forced).buckets|
  {
    Removes(s.buckets.Keys, Sweep(s, now, forced).buckets.Keys);
  }

  lemma InsertCounts(buckets: map<string, Bucket>, key: string, entry: Bucket)
    ensures |buckets[key := entry]| == |buckets| + if key in buckets then 0 else 1
  {
    assert buckets[key := entry].Keys == buckets.Keys + {key};
  }

  /** One call: what is inserted, swept and evicted accounts for every change of size. */
  lemma CallConservesBuckets(s: Store, c: Call)
    requires Legal(s, c)
    ensures |Step(s, c).0.buckets| + SweptAway(s, c) + |c.evicted|
         == |s.buckets| + if Inserts(s, c) then 1 else 0
    ensures Step(s, c).0.maxKeys == s.maxKeys
  {
    hide Spend, Entry, Unreplenished;
    if c.limit.Positive() {
      var swept := Sweep(s, c.now, false);
      SweepCounts(s, c.now, false);
      SweepCounts(swept, c.now, true);
      var ready := Ready(s, c);
      InsertCounts(ready.buckets, c.key, Step(s, c).0.buckets[c.key]);
      if Evicts(s, c) {
        var forced := Sweep(swept, c.now, true);
        Removes(forced.buckets.Keys, c.evicted);
        assert ready.buckets.Keys == forced.buckets.Keys - c.evicted;
      }
      assert c.key in swept.buckets <==> c.key in ready.buckets;
    }
  }

  /** The cap is never exceeded, whatever the clock and the limits. */
  lemma CallStaysBounded(s: Store, c: Call)
    requires Bounded(s) && Legal(s, c)
    ensures Bounded(Step(s, c).0)
    ensures Evicts(s, c) ==>
      |s.buckets| == s.maxKeys && |c.evicted| == s.maxKeys - LowWater(s.maxKeys)
      && |Step(s, c).0.buckets| == LowWater(s.maxKeys) + 1 && SweptAway(s, c) == 0
    ensures !Evicts(s, c) ==> c.evicted == {}
  {
    hide Spend, Entry, Step, Sweep;
    CallConservesBuckets(s, c);
    var swept := Sweep(s, c.now, false);
    SweepCounts(s, c.now, false);
    SweepCounts(swept, c.now, true);
  }

  /** An eviction pass discards the stalest: every survivor was seen no earlier than every victim,
      and what survives besides the new bucket is the low-water mark. */
  lemma VictimsAreStalest(s: Store, c: Call, victim: string, survivor: string)
    requires Legal(s, c) && victim in c.evicted && survivor in Step(s, c).0.buckets && survivor != c.key
    ensures victim in s.buckets && victim !in Step(s, c).0.buckets
    ensures survivor in s.buckets && Step(s, c).0.buckets[survivor] == s.buckets[survivor]
    ensures s.buckets[victim].seenAt <= s.buckets[survivor].seenAt
    ensures |Step(s, c).0.buckets| == LowWater(s.maxKeys) + 1
  {
    hide Spend, Entry;
    CallConservesBuckets(s, c);
    var swept := Sweep(s, c.now, false);
    SweepCounts(s, c.now, false);
    SweepCounts(swept, c.now, true);
  }

  /** A pass evicts exactly when a new key meets a full store in which no bucket has replenished. */
  lemma EvictsExactlyWhenFull(s: Store, c: Call)
    requires Bounded(s) && Legal(s, c)
    ensures c.evicted != {} <==>
      && c.limit.Positive() && c.key !in s.buckets && |s.buckets| == s.maxKeys
      && forall key :: key in s.buckets ==> s.buckets[key].fullAt > c.now
  {
    CallStaysBounded(s, c);
    hide Step, Legal, LowWater;
    var swept := Sweep(s, c.now, false);
    if Evicts(s, c) {
      assert swept.buckets.Keys == s.buckets.Keys by { NothingRemoved(s.buckets.Keys, swept.buckets.Keys); }
      var forced := Sweep(swept, c.now, true);
      assert forced.buckets.Keys == s.buckets.Keys by { NothingRemoved(swept.buckets.Keys, forced.buckets.Keys); }
    } else if forall key :: key in s.buckets ==> s.buckets[key].fullAt > c.now {
      assert Unreplenished(s.buckets, c.now) == s.buckets;
    }
  }

  lemma NothingRemoved<T>(all: set<T>, part: set<T>)
    requires part <= all && |all - part| == 0
    ensures part == all
  {
    assert all == part + (all - part);
  }

  /** The configured cap: over any run of any callers the store tracks at most so many keys, ten
      thousand when none is configured, and discards a bucket that still carries state exactly when a
      new key finds it full of such buckets. */
  lemma CapIsAsConfigured(maxKeys: int, calls: seq<Call>, c: Call)
    requires LegalRun(New(maxKeys), calls) && Legal(Run(New(maxKeys), calls), c)
    ensures var s, cap := Run(New(maxKeys), calls), if maxKeys > 0 then maxKeys else 10_000;
      && |s.buckets| <= cap
      && (c.evicted != {} <==>
            && c.limit.Positive() && c.key !in s.buckets && |s.buckets| == cap
            && forall key :: key in s.buckets ==> s.buckets[key].fullAt > c.now)
  {
    hide Step, Legal, Inserts, Evicts, SweptAway;
    RunConservesBuckets(New(maxKeys), calls);
    EvictsExactlyWhenFull(Run(New(maxKeys), calls), c);
  }

  // ---------- totals over a run

  ghost function Inserted(s: Store, calls: seq<Call>): nat
    decreases |calls|
  {
    if calls == [] then 0
    else (if Inserts(s, calls[0]) then 1 else 0) + Inserted(Step(s, calls[0]).0, calls[1..])
  }

  ghost function Swept(s: Store, calls: seq<Call>): nat
    decreases |calls|
  {
    if calls == [] then 0 else SweptAway(s, calls[0]) + Swept(Step(s, calls[0]).0, calls[1..])
  }

  ghost function Passes(s: Store, calls: seq<Call>): nat
    decreases |calls|
  {
    if calls == [] then 0
    else (if Evicts(s, calls[0]) then 1 else 0) + Passes(Step(s, calls[0]).0, calls[1..])
  }

  function Evicted(calls: seq<Call>): nat {
    if calls == [] then 0 else |calls[0].evicted| + Evicted(calls[1..])
  }

  lemma {:induction false} RunConservesBuckets(s: Store, calls: seq<Call>)
    requires Bounded(s) && LegalRun(s, calls)
    ensures |Run(s, calls).buckets| + Swept(s, calls) + Evicted(calls) == |s.buckets| + Inserted(s, calls)
    ensures Evicted(calls) == Passes(s, calls) * (s.maxKeys - LowWater(s.maxKeys))
    ensures Bounded(Run(s, calls)) && Run(s, calls).maxKeys == s.maxKeys
    decreases |calls|
  {
    hide Step, Legal, Inserts, Evicts, SweptAway, LowWater, New;
    if calls != [] {
      var c := calls[0];
      CallConservesBuckets(s, c);
      CallStaysBounded(s, c);
      RunConservesBuckets(Step(s, c).0, calls[1..]);
      OneMorePass(Passes(Step(s, c).0, calls[1..]), s.maxKeys - LowWater(s.maxKeys));
    }
  }

  lemma OneMorePass(passes: nat, drop: int)
    ensures (1 + passes) * drop == drop + passes * drop
  {}

  /** From an empty store: every bucket ever inserted is live, was swept, or was evicted. */
  lemma EveryBucketIsAccountedFor(maxKeys: int, calls: seq<Call>)
    requires LegalRun(New(maxKeys), calls)
    ensures Inserted(New(maxKeys), calls)
         == |Run(New(maxKeys), calls).buckets| + Swept(New(maxKeys), calls) + Evicted(calls)
    ensures |Run(New(maxKeys), calls).buckets| <= New(maxKeys).maxKeys
  {
    hide Step, Legal;
    RunConservesBuckets(New(maxKeys), calls);
  }

  /** From a pass that evicts until the store is next at its cap, without which there is no other
      pass, at least a tenth of the cap is inserted, counting the insertion the pass made room for. */
  lemma PassesAreSpacedByInsertions(s: Store, calls: seq<Call>)
    requires Bounded(s) && calls != [] && LegalRun(s, calls) && Evicts(s, calls[0]) && AtCap(Run(s, calls))
    ensures Inserted(s, calls) >= s.maxKeys - LowWater(s.maxKeys)
    ensures 10 * (s.maxKeys - LowWater(s.maxKeys)) >= s.maxKeys
  {
    hide Step, Legal, EvictionDue, SweptAway;
    CallStaysBounded(s, calls[0]);
    CallConservesBuckets(s, calls[0]);
    RunConservesBuckets(Step(s, calls[0]).0, calls[1..]);
  }

  /** A pass runs only on a store at its cap. */
  lemma PassesNeedTheCap(s: Store, c: Call)
    requires Bounded(s) && Legal(s, c) && Evicts(s, c)
    ensures AtCap(s)
  {
    CallStaysBounded(s, c);
  }

  /** Amortised eviction: the buckets that all passes of a run evict, and the entries they sort,
      are linear in what the run inserts. */
  lemma EvictionIsAmortised(maxKeys: int, calls: seq<Call>)
    requires LegalRun(New(maxKeys), calls)
    ensures Evicted(calls) <= Inserted(New(maxKeys), calls)
    ensures Passes(New(maxKeys), calls) * New(maxKeys).maxKeys <= 10 * Inserted(New(maxKeys), calls)
  {
    hide Step, Legal, Inserts, Evicts, SweptAway;
    var s := New(maxKeys);
    EveryBucketIsAccountedFor(maxKeys, calls);
    RunConservesBuckets(s, calls);
    var drop := s.maxKeys - LowWater(s.maxKeys);
    TenTimes(Passes(s, calls), s.maxKeys, drop);
  }

  lemma TenTimes(passes: nat, maxKeys: int, drop: int)
    requires maxKeys <= 10 * drop
    ensures passes * maxKeys <= 10 * (passes * drop)
  {
    assert passes * (10 * drop - maxKeys) >= 0;
  }

  // ---------- how often the ordinary path walks the map, on a non-decreasing clock

  /** A call changes more of the store than its own key's bucket. */
  ghost predicate Disturbs(s: Store, c: Call) {
    Step(s, c).0.prunedAt != s.prunedAt || Step(s, c).0.buckets - {c.key} != s.buckets - {c.key}
  }

  /** A call that walks the map on the ordinary path: its unforced sweep changes the store, or, without
      being a new key at the cap, it disturbs it. */
  ghost predicate Walks(s: Store, c: Call) {
    || (c.limit.Positive() && Sweep(s, c.now, false) != s)
    || (Disturbs(s, c) && (c.key in s.buckets || |s.buckets| < s.maxKeys))
  }

  /** An unforced sweep touches the store exactly when a minute has passed since the last sweep of
      either kind. Nothing is assumed of the clock. */
  lemma WalksOnlyAfterAMinute(s: Store, now: int)
    ensures Sweep(s, now, false) != s <==> now - s.prunedAt >= 60 * 1_000_000_000
  {
    if now - s.prunedAt >= 60 * 1_000_000_000 {
      assert Sweep(s, now, false).prunedAt == now != s.prunedAt;
    }
  }

  ghost function PacedWalks(s: Store, calls: seq<Call>): nat
    decreases |calls|
  {
    if calls == [] then 0
    else (if Walks(s, calls[0]) then 1 else 0) + PacedWalks(Step(s, calls[0]).0, calls[1..])
  }

  lemma CallPrunes(s: Store, c: Call)
    requires s.prunedAt <= c.now
    ensures s.prunedAt <= Step(s, c).0.prunedAt <= c.now
    ensures Walks(s, c) ==> Step(s, c).0.prunedAt == c.now
  {
    WalksLate(s, c);
    hide Spend, Entry, Unreplenished, Walks, Disturbs;
  }

  lemma {:induction false} WalksAreApart(s: Store, calls: seq<Call>, clock: int)
    requires s.prunedAt <= clock && Clocked(calls, clock)
    ensures PacedWalks(s, calls) * (60 * 1_000_000_000) <= ClockAfter(calls, clock) - s.prunedAt
    decreases |calls|
  {
    hide Step, Walks;
    if calls != [] {
      CallPrunes(s, calls[0]);
      WalksAreApart(Step(s, calls[0]).0, calls[1..], calls[0].now);
      WalksLate(s, calls[0]);
    }
  }

  lemma WalksLate(s: Store, c: Call)
    ensures Walks(s, c) ==> c.limit.Positive() && c.now - s.prunedAt >= 60 * 1_000_000_000
  {
    hide Sweep, Spend, Entry;
    WalksOnlyAfterAMinute(s, c.now);
    if Sweep(s, c.now, false) == s && (c.key in s.buckets || |s.buckets| < s.maxKeys) {
      assert Step(s, c).0.buckets - {c.key} == s.buckets - {c.key};
    }
  }

  /** The ordinary path walks the map at most once a minute: a run of any length and any callers
      makes at most one paced walk more than minutes pass between its first call and its last. */
  lemma {:induction false} SweepsArePaced(s: Store, calls: seq<Call>, clock: int)
    requires s.prunedAt <= clock && Clocked(calls, clock)
    ensures (PacedWalks(s, calls) - 1) * (60 * 1_000_000_000) <= ClockAfter(calls, clock) - clock
    decreases |calls|
  {
    hide Step, Walks;
    if calls != [] {
      var next := Step(s, calls[0]).0;
      CallPrunes(s, calls[0]);
      ClockJoins(calls[1..], [], calls[0].now);
      if Walks(s, calls[0]) {
        WalksAreApart(next, calls[1..], calls[0].now);
      } else {
        SweepsArePaced(next, calls[1..], calls[0].now);
      }
    }
  }

  /** A call reaches the sweep that is forced at the cap. */
  predicate WalksAtTheCap(s: Store, c: Call) {
    Inserts(s, c) && AtCap(Sweep(s, c.now, false))
  }

  lemma WalkingPrunes(s: Store, c: Call)
    requires Walks(s, c) || WalksAtTheCap(s, c)
    ensures Step(s, c).0.prunedAt == c.now
  {
    WalksLate(s, c);
    hide Spend, Entry, Unreplenished, Walks, Disturbs;
  }

  lemma {:induction false} RunPrunes(s: Store, calls: seq<Call>, clock: int)
    requires s.prunedAt <= clock && Clocked(calls, clock)
    ensures s.prunedAt <= Run(s, calls).prunedAt
    decreases |calls|
  {
    hide Step;
    if calls != [] {
      CallPrunes(s, calls[0]);
      RunPrunes(Step(s, calls[0]).0, calls[1..], calls[0].now);
    }
  }

  /** A forced walk spares the ordinary path one too: after a walk of either kind no paced walk comes
      within a minute, whatever happens in between. */
  lemma WalksRestForAMinute(s: Store, walk: Call, between: seq<Call>, later: Call)
    requires s.prunedAt <= walk.now && Clocked(between + [later], walk.now)
    requires Walks(s, walk) || WalksAtTheCap(s, walk)
    requires Walks(Run(Step(s, walk).0, between), later)
    ensures later.now - walk.now >= 60 * 1_000_000_000
  {
    hide Step, Walks, WalksAtTheCap;
    WalkingPrunes(s, walk);
    ClockJoins(between, [later], walk.now);
    RunPrunes(Step(s, walk).0, between, walk.now);
    WalksLate(Run(Step(s, walk).0, between), later);
  }

  // ---------- how recent the tracked keys are, on a non-decreasing clock

  /** Some call of the run used the key at that instant. */
  ghost predicate UsedAt(calls: seq<Call>, key: string, at: int) {
    exists i :: 0 <= i < |calls| && calls[i].key == key && calls[i].now == at
  }

  /** Some call of the run used the key later than that instant. */
  ghost predicate UsedSince(calls: seq<Call>, key: string, instant: int) {
    exists i :: 0 <= i < |calls| && calls[i].key == key && calls[i].now > instant
  }

  /** Every bucket will be full only after the last sweep, within a window of its last use. */
  ghost predicate Recent(s: Store, past: seq<Call>, limits: map<string, Limit>, clock: int) {
    && s.prunedAt <= clock
    && forall key :: key in s.buckets ==>
         && key in limits
         && s.prunedAt < s.buckets[key].fullAt <= s.buckets[key].seenAt + limits[key].per
         && UsedAt(past, key, s.buckets[key].seenAt)
  }

  lemma SweepKeepsRecent(s: Store, past: seq<Call>, limits: map<string, Limit>, clock: int, now: int, forced: bool)
    requires Recent(s, past, limits, clock) && clock <= now
    ensures Recent(Sweep(s, now, forced), past, limits, now)
    ensures now - Sweep(s, now, forced).prunedAt < PRUNE_INTERVAL
  {
    hide UsedAt;
  }

  lemma CallStaysRecent(s: Store, past: seq<Call>, c: Call, limits: map<string, Limit>, clock: int)
    requires SoundStore(s, limits, clock) && Recent(s, past, limits, clock) && clock <= c.now && Legal(s, c)
    requires c.key in limits && c.limit == limits[c.key] && c.limit.Positive()
    ensures Recent(Step(s, c).0, past + [c], limits, c.now)
    ensures c.now - Step(s, c).0.prunedAt < PRUNE_INTERVAL
  {
    hide Sweep, Refilled, Spend, Spent, Decide, Advance, Level, Limit.Wait, Limit.Earned, StalestFirst, UsedAt;
    var swept := Sweep(s, c.now, false);
    SweepKeepsRecent(s, past, limits, clock, c.now, false);
    SweepKeepsRecent(swept, past, limits, c.now, c.now, true);
    SweepMovesNoLevel(s, limits, clock, c.now, false, c.key);
    EntryStandsAtTheLevel(swept, c, limits, clock);
    LevelRises(swept, c.key, limits, clock, c.now);
    LevelInRange(swept, c.key, limits, clock, c.now);
    SpendFollowsTheLevel(Entry(swept.buckets, c), c.limit, c.now);
    var next := Step(s, c).0;
    forall key | key in next.buckets
      ensures UsedAt(past + [c], key, next.buckets[key].seenAt)
    {
      if key == c.key {
        UsedLast(past, c);
      } else {
        UsedEarlier(past, c, key, next.buckets[key].seenAt);
      }
    }
  }

  lemma LevelInRange(s: Store, key: string, limits: map<string, Limit>, clock: int, at: int)
    requires SoundStore(s, limits, clock) && clock <= at && key in limits && limits[key].Positive()
    ensures 0.0 <= LevelOf(s, key, limits, at) <= limits[key].Burst()
  {
    hide Advance, Limit.Wait;
    LevelRises(s, key, limits, clock, at);
    AdvanceKeepsRange(LevelOf(s, key, limits, clock), limits[key], at - clock);
  }

  lemma UsedLast(past: seq<Call>, c: Call)
    ensures UsedAt(past + [c], c.key, c.now)
  {
    assert (past + [c])[|past|] == c;
  }

  lemma UsedEarlier(past: seq<Call>, c: Call, key: string, at: int)
    requires UsedAt(past, key, at)
    ensures UsedAt(past + [c], key, at)
  {
    var i :| 0 <= i < |past| && past[i].key == key && past[i].now == at;
    assert (past + [c])[i] == past[i];
  }

  lemma {:induction false} RunStaysRecent(
      s: Store, past: seq<Call>, calls: seq<Call>, limits: map<string, Limit>, clock: int)
    requires SoundStore(s, limits, clock) && Recent(s, past, limits, clock)
    requires Clocked(calls, clock) && Limited(calls, limits) && LegalRun(s, calls)
    ensures Recent(Run(s, calls), past + calls, limits, ClockAfter(calls, clock))
    ensures calls != [] ==> ClockAfter(calls, clock) - Run(s, calls).prunedAt < PRUNE_INTERVAL
    decreases |calls|
  {
    hide Step, Legal, SoundStore, Recent;
    if calls == [] {
      assert past + calls == past;
    } else {
      var c := calls[0];
      CallStaysRecent(s, past, c, limits, clock);
      CallMovesLevels(s, c, limits, clock, c.key);
      RunStaysRecent(Step(s, c).0, past + [c], calls[1..], limits, c.now);
      assert past + [c] + calls[1..] == past + calls;
    }
  }

  /** After any call, every tracked key was used by a call less than its window and a minute
      ago. The clock starts no earlier than Go's zero time. */
  lemma TrackedKeysAreRecent(
      maxKeys: int, calls: seq<Call>, key: string, limits: map<string, Limit>)
    requires calls != [] && Clocked(calls, 0) && Limited(calls, limits) && LegalRun(New(maxKeys), calls)
    requires key in Run(New(maxKeys), calls).buckets
    ensures key in limits && UsedSince(calls, key, ClockAfter(calls, 0) - limits[key].per - 60 * 1_000_000_000)
  {
    hide Step, Legal;
    RunStaysRecent(New(maxKeys), [], calls, limits, 0);
    assert [] + calls == calls;
    var entry := Run(New(maxKeys), calls).buckets[key];
    assert UsedAt(calls, key, entry.seenAt);
  }

  // ---------- one bucket's lifetime, on any clock

  /** The key keeps its bucket through a call: no sweep and no eviction takes it. */
  predicate Keeps(s: Store, c: Call, key: string) {
    key in s.buckets &&
    (c.limit.Positive() ==> key in Sweep(s, c.now, false).buckets && key in Ready(s, c).buckets)
  }

  ghost predicate KeepsThroughout(s: Store, calls: seq<Call>, key: string)
    decreases |calls|
  {
    calls == [] || (Keeps(s, calls[0], key) && KeepsThroughout(Step(s, calls[0]).0, calls[1..], key))
  }

  /** The latest instant a key's calls carry. */
  function Latest(calls: seq<Call>, key: string, from: int): int {
    if calls == [] then from
    else Latest(calls[1..], key, if calls[0].key == key && calls[0].now > from then calls[0].now else from)
  }

  predicate LimitOf(calls: seq<Call>, key: string, limit: Limit) {
    forall i :: 0 <= i < |calls| && calls[i].key == key ==> calls[i].limit == limit
  }

  lemma CallOnAnyClock(s: Store, c: Call, key: string, limit: Limit)
    requires Keeps(s, c, key) && InRange(s.buckets[key], limit) && (c.key == key ==> c.limit == limit)
    ensures var (next, decision) := Step(s, c);
      var spent := if c.key == key && decision.allowed then 1.0 else 0.0;
      && key in next.buckets && InRange(next.buckets[key], limit)
      && next.buckets[key].seenAt
         == (if c.key == key && c.now > s.buckets[key].seenAt then c.now else s.buckets[key].seenAt)
      && next.buckets[key].tokens >= s.buckets[key].tokens - spent
      && next.buckets[key].tokens + spent
         <= s.buckets[key].tokens + limit.Earned(next.buckets[key].seenAt - s.buckets[key].seenAt)
  {
    hide Refilled, Spend, Limit.Earned, Limit.Wait;
    NothingIsEarnedAtOnce(limit);
    if c.key == key {
      var entry := s.buckets[key];
      RefillOnAnyClock(entry, limit, c.now);
      SpendOnAnyClock(Refilled(entry, limit, c.now), limit, c.now);
      assert Step(s, c).0.buckets[key] == Spend(Refilled(entry, limit, c.now), limit, c.now).0;
    } else {
      assert Step(s, c).0.buckets[key] == s.buckets[key];
    }
  }

  lemma {:induction false} LifetimeOnAnyClock(s: Store, calls: seq<Call>, key: string, limit: Limit)
    requires key in s.buckets && InRange(s.buckets[key], limit)
    requires KeepsThroughout(s, calls, key) && LimitOf(calls, key, limit)
    ensures key in Run(s, calls).buckets
    ensures var from, to := s.buckets[key], Run(s, calls).buckets[key];
      && InRange(to, limit) && to.seenAt == Latest(calls, key, from.seenAt)
      && |Admitted(s, calls, key)| as real + to.tokens
         <= from.tokens + limit.Earned(to.seenAt - from.seenAt)
    decreases |calls|
  {
    hide Step, Keeps, Limit.Earned;
    if calls == [] {
      NothingIsEarnedAtOnce(limit);
    } else {
      var c, from := calls[0], s.buckets[key];
      var next := Step(s, c).0;
      CallOnAnyClock(s, c, key, limit);
      LifetimeOnAnyClock(next, calls[1..], key, limit);
      var to := Run(s, calls).buckets[key];
      var middle := next.buckets[key].seenAt;
      EarnedAdds(limit, to.seenAt - middle, middle - from.seenAt);
    }
  }

  /** Whatever the clock does, backward steps included, the admissions over one bucket's lifetime
      are at most an allowance and what the time from its creation to its latest use earns. */
  lemma LifetimeBound(s: Store, created: Call, calls: seq<Call>, limit: Limit)
    requires limit.Positive() && created.limit == limit && created.key !in Sweep(s, created.now, false).buckets
    requires KeepsThroughout(Step(s, created).0, calls, created.key) && LimitOf(calls, created.key, limit)
    ensures Step(s, created).1.allowed
    ensures Affords(limit, 1 + |Admitted(Step(s, created).0, calls, created.key)|, 1,
                    Latest(calls, created.key, created.now) - created.now)
  {
    hide Step, Keeps, Sweep, Limit.Earned;
    var key, next := created.key, Step(s, created).0;
    CreationOnAnyClock(s, created, limit);
    LifetimeOnAnyClock(next, calls, key, limit);
    var left := Run(next, calls).buckets[key].tokens;
    LifetimeInIntegers(limit, Latest(calls, key, created.now) - created.now, |Admitted(next, calls, key)|, left);
  }

  lemma LifetimeInIntegers(limit: Limit, elapsed: int, admitted: nat, left: real)
    requires limit.Positive() && left >= 0.0
    requires admitted as real + left <= limit.Burst() - 1.0 + limit.Earned(elapsed)
    ensures Affords(limit, 1 + admitted, 1, elapsed)
  {
    hide Limit.Earned;
    EarnedInIntegers(limit, elapsed, 1 + admitted, 1);
  }

  lemma CreationOnAnyClock(s: Store, created: Call, limit: Limit)
    requires limit.Positive() && created.limit == limit && created.key !in Sweep(s, created.now, false).buckets
    ensures var (next, decision) := Step(s, created);
      && decision.allowed && created.key in next.buckets && InRange(next.buckets[created.key], limit)
      && next.buckets[created.key].tokens == limit.Burst() - 1.0
      && next.buckets[created.key].seenAt == created.now
  {
    hide Limit.Earned, Limit.Wait, Ready, Refilled, Sweep;
    assert limit.Burst() >= 1.0;
    assert Entry(Sweep(s, created.now, false).buckets, created) == NewBucket(limit, created.now);
    assert Step(s, created).0.buckets[created.key] == Spend(NewBucket(limit, created.now), limit, created.now).0;
  }
}
