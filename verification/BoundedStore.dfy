/** What one call does to the bounded store, as a function, and runs of calls
    (app/services/throttle/memory.go:62-235).

    The only choice the program leaves open is which of several equally stale buckets an eviction
    pass discards; a call carries that choice, and `Legal` says which choices the pass can make. */
module BoundedStore {
  import opened Allowance
  import opened TokenBucket

  const DEFAULT_MAX_KEYS: int := 10_000
  const PRUNE_INTERVAL: int := 60 * SECOND

  datatype Store = Store(buckets: map<string, Bucket>, maxKeys: int, prunedAt: int)

  datatype Call = Call(key: string, limit: Limit, now: int, evicted: set<string>)

  function New(maxKeys: int): Store {
    Store(map[], if maxKeys <= 0 then DEFAULT_MAX_KEYS else maxKeys, 0)
  }

  /** Nine tenths of the cap, the size an eviction pass reduces to. */
  function LowWater(maxKeys: int): (target: int)
    ensures 10 * target <= 9 * maxKeys < 10 * (target + 1)
  {
    maxKeys * 9 / 10
  }

  function Unreplenished(buckets: map<string, Bucket>, now: int): map<string, Bucket> {
    map key | key in buckets && buckets[key].fullAt > now :: buckets[key]
  }

  function Sweep(s: Store, now: int, forced: bool): Store {
    if !forced && now - s.prunedAt < PRUNE_INTERVAL then s
    else s.(buckets := Unreplenished(s.buckets, now), prunedAt := now)
  }

  predicate AtCap(s: Store) {
    |s.buckets| >= s.maxKeys
  }

  /** An eviction pass runs: the store is at its cap and a forced sweep leaves it there. */
  predicate EvictionDue(s: Store, now: int) {
    AtCap(s) && AtCap(Sweep(s, now, true))
  }

  predicate StalestFirst(buckets: map<string, Bucket>, victims: set<string>, target: int) {
    && victims <= buckets.Keys
    && |buckets| - |victims| == target
    && forall victim, survivor ::
         victim in victims && survivor in buckets && survivor !in victims
         ==> buckets[victim].seenAt <= buckets[survivor].seenAt
  }

  predicate EvictionChoice(s: Store, now: int, evicted: set<string>) {
    if EvictionDue(s, now) then
      StalestFirst(Sweep(s, now, true).buckets, evicted, LowWater(s.maxKeys))
    else
      evicted == {}
  }

  function MakeRoom(s: Store, now: int, evicted: set<string>): Store {
    if !AtCap(s) then s
    else
      var swept := Sweep(s, now, true);
      if !AtCap(swept) then swept else swept.(buckets := swept.buckets - evicted)
  }

  predicate Legal(s: Store, c: Call) {
    var swept := Sweep(s, c.now, false);
    if !c.limit.Positive() || c.key in swept.buckets then c.evicted == {}
    else EvictionChoice(swept, c.now, c.evicted)
  }

  /** The store a call finds its bucket in, or makes room for a new one. */
  function Ready(s: Store, c: Call): Store {
    var swept := Sweep(s, c.now, false);
    if c.key in swept.buckets then swept else MakeRoom(swept, c.now, c.evicted)
  }

  function Entry(buckets: map<string, Bucket>, c: Call): Bucket
    requires c.limit.Positive()
  {
    if c.key in buckets then Refilled(buckets[c.key], c.limit, c.now) else NewBucket(c.limit, c.now)
  }

  function Refusal(limit: Limit, now: int): Decision {
    Decision(false, limit.requests, 0, limit.per, now + limit.per)
  }

  ghost function Step(s: Store, c: Call): (Store, Decision) {
    if !c.limit.Positive() then
      (s, Refusal(c.limit, c.now))
    else
      var ready := Ready(s, c);
      var (after, decision) := Spend(Entry(Sweep(s, c.now, false).buckets, c), c.limit, c.now);
      (ready.(buckets := ready.buckets[c.key := after]), decision)
  }

  // ---------- runs

  ghost function Run(s: Store, calls: seq<Call>): Store
    decreases |calls|
  {
    if calls == [] then s else Run(Step(s, calls[0]).0, calls[1..])
  }

  ghost function Decisions(s: Store, calls: seq<Call>): (decisions: seq<Decision>)
    ensures |decisions| == |calls|
    decreases |calls|
  {
    if calls == [] then [] else [Step(s, calls[0]).1] + Decisions(Step(s, calls[0]).0, calls[1..])
  }

  ghost predicate LegalRun(s: Store, calls: seq<Call>)
    decreases |calls|
  {
    calls == [] || (Legal(s, calls[0]) && LegalRun(Step(s, calls[0]).0, calls[1..]))
  }

  predicate EvictionFree(calls: seq<Call>) {
    forall i :: 0 <= i < |calls| ==> calls[i].evicted == {}
  }

  /** The clock never goes back, and starts no earlier than `from`. */
  predicate Clocked(calls: seq<Call>, from: int) {
    calls == [] || (from <= calls[0].now && Clocked(calls[1..], calls[0].now))
  }

  function ClockAfter(calls: seq<Call>, from: int): int {
    if calls == [] then from else calls[|calls| - 1].now
  }

  /** Every key has one positive limit. */
  predicate Limited(calls: seq<Call>, limits: map<string, Limit>) {
    forall i :: 0 <= i < |calls| ==>
      calls[i].key in limits && calls[i].limit == limits[calls[i].key] && calls[i].limit.Positive()
  }

  /** The instants at which a run admits requests of one key. */
  ghost function Admitted(s: Store, calls: seq<Call>, key: string): seq<int>
    decreases |calls|
  {
    if calls == [] then []
    else
      var (next, decision) := Step(s, calls[0]);
      (if calls[0].key == key && decision.allowed then [calls[0].now] else []) + Admitted(next, calls[1..], key)
  }

  /** How often a run evicts one key. */
  function Evictions(calls: seq<Call>, key: string): nat {
    if calls == [] then 0
    else (if key in calls[0].evicted then 1 else 0) + Evictions(calls[1..], key)
  }

  // ---------- joining runs

  lemma {:induction false} RunJoins(s: Store, first: seq<Call>, second: seq<Call>)
    ensures Run(s, first + second) == Run(Run(s, first), second)
    ensures LegalRun(s, first + second) <==> LegalRun(s, first) && LegalRun(Run(s, first), second)
    decreases |first|
  {
    hide Step, Legal;
    if first == [] {
      assert first + second == second;
    } else {
      assert (first + second)[1..] == first[1..] + second;
      RunJoins(Step(s, first[0]).0, first[1..], second);
    }
  }

  lemma {:induction false} ClockJoins(first: seq<Call>, second: seq<Call>, from: int)
    ensures Clocked(first + second, from) <==> Clocked(first, from) && Clocked(second, ClockAfter(first, from))
    ensures ClockAfter(first + second, from) == ClockAfter(second, ClockAfter(first, from))
    ensures Clocked(first, from) ==> from <= ClockAfter(first, from)
  {
    if first == [] {
      assert first + second == second;
    } else {
      assert (first + second)[1..] == first[1..] + second;
      ClockJoins(first[1..], second, first[0].now);
    }
  }
}
