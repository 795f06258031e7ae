/** The bounded token-bucket store, updated in place (app/services/throttle/memory.go), and the
    throttle middleware that asks it (app/http/middlewares/throttle_middleware.go). */
module InMemory {
  import opened Allowance
  import opened TokenBucket
  import opened BoundedStore
  import opened Bounds
  import Announcements

  /** What an eviction pass sorts. */
  datatype Aged = Aged(key: string, seenAt: int)

  ghost predicate Oldest(entries: seq<Aged>) {
    forall i, j :: 0 <= i < j < |entries| ==> entries[i].seenAt <= entries[j].seenAt
  }

  /** Every bucket once. */
  ghost predicate Lists(entries: seq<Aged>, buckets: map<string, Bucket>) {
    && (forall i, j :: 0 <= i < j < |entries| ==> entries[i].key != entries[j].key)
    && (forall i :: 0 <= i < |entries| ==>
          entries[i].key in buckets && entries[i].seenAt == buckets[entries[i].key].seenAt)
    && |entries| == |buckets|
  }

  class MemoryStore {
    var buckets: map<string, Bucket>
    var maxKeys: int
    var prunedAt: int

    /** The store as the value the run theorems speak of. */
    function State(): Store
      reads this
    {
      Store(buckets, maxKeys, prunedAt)
    }

    constructor (maxKeys: int)
      ensures State() == New(maxKeys) && Bounded(State())
      ensures buckets == map[] && this.maxKeys == if maxKeys > 0 then maxKeys else 10_000
    {
      this.buckets := map[];
      this.maxKeys := if maxKeys <= 0 then DEFAULT_MAX_KEYS else maxKeys;
      this.prunedAt := 0;
    }

    method Len() returns (count: nat)
      ensures count == |State().buckets|
    {
      count := |buckets|;
    }

    method Allow(key: string, limit: Limit, now: int) returns (decision: Decision, ghost evicted: set<string>)
      requires Bounded(State())
      modifies this
      ensures Legal(old(State()), Call(key, limit, now, evicted))
      ensures (State(), decision) == Step(old(State()), Call(key, limit, now, evicted))
      ensures Bounded(State())
    {
      hide Refilled, Spend, NewBucket, Sweep, EvictionChoice, BoundedStore.MakeRoom, Limit.RefillPerSecond;
      PositiveRefills(limit);
      ghost var before := State();
      evicted := {};
      var refill := limit.RefillPerSecond();
      if refill <= 0.0 {
        decision := Decision(false, limit.requests, 0, limit.per, now + limit.per);
        return;
      }
      SweepAway(now, false);
      var entry: Bucket;
      if key !in buckets {
        SweepCounts(before, now, false);
        evicted := MakeRoom(now);
        entry := NewBucket(limit, now);
      } else {
        entry := buckets[key];
        entry := Refill(entry, limit, now);
      }
      entry, decision := SpendOne(entry, limit, now);
      buckets := buckets[key := entry];
      CallStaysBounded(before, Call(key, limit, now, evicted));
    }

    /** Discards the replenished buckets, at most once an interval unless forced. */
    method SweepAway(now: int, forced: bool)
      modifies this`buckets, this`prunedAt
      ensures State() == Sweep(old(State()), now, forced)
    {
      if !forced && now - prunedAt < PRUNE_INTERVAL {
        return;
      }
      prunedAt := now;
      var keys := buckets.Keys;
      while keys != {}
        invariant keys <= old(buckets).Keys && prunedAt == now
        invariant buckets == map key |
          key in old(buckets) && (key in keys || old(buckets)[key].fullAt > now) :: old(buckets)[key]
        decreases |keys|
      {
        var key :| key in keys;
        if buckets[key].fullAt <= now {
          buckets := buckets - {key};
        }
        keys := keys - {key};
      }
      assert buckets == Unreplenished(old(buckets), now);
    }

    /** Keeps the map under its cap before a new key is inserted. */
    method MakeRoom(now: int) returns (ghost evicted: set<string>)
      requires Bounded(State())
      modifies this`buckets, this`prunedAt
      ensures EvictionChoice(old(State()), now, evicted)
      ensures State() == BoundedStore.MakeRoom(old(State()), now, evicted)
    {
      hide Sweep, StalestFirst, Lists, Oldest;
      evicted := {};
      if |buckets| < maxKeys {
        return;
      }
      SweepAway(now, true);
      if |buckets| < maxKeys {
        return;
      }
      var entries := Entries();
      entries := SortBySeenAt(entries, buckets);
      evicted := Evict(entries, LowWater(maxKeys));
    }

    /** Deletes in the order given until no more than `target` buckets are left. */
    method Evict(entries: seq<Aged>, target: int) returns (ghost evicted: set<string>)
      requires Lists(entries, buckets) && Oldest(entries) && 0 <= target <= |buckets|
      modifies this`buckets
      ensures buckets == old(buckets) - evicted && StalestFirst(old(buckets), evicted, target)
    {
      hide StalestFirst, Lists, Oldest, Firsts;
      evicted := {};
      NoFirsts(entries);
      FirstsCount(entries, 0, buckets);
      var index := 0;
      while index < |entries| && |buckets| > target
        invariant 0 <= index <= |entries|
        invariant evicted == Firsts(entries, index) && buckets == old(buckets) - evicted
        invariant target <= |buckets| == |old(buckets)| - index
      {
        FirstsCount(entries, index + 1, old(buckets));
        FirstsGrow(entries, index);
        evicted := evicted + {entries[index].key};
        buckets := buckets - {entries[index].key};
        assert buckets == old(buckets) - evicted;
        index := index + 1;
      }
      ListsLength(entries, old(buckets));
      FirstsAreStalest(entries, index, old(buckets));
    }

    /** Every bucket with the instant it was last seen, in no particular order. */
    method Entries() returns (entries: seq<Aged>)
      ensures Lists(entries, buckets)
    {
      entries := [];
      var keys := buckets.Keys;
      while keys != {}
        invariant keys <= buckets.Keys
        invariant forall i :: 0 <= i < |entries| ==>
          entries[i].key in buckets.Keys - keys && entries[i].seenAt == buckets[entries[i].key].seenAt
        invariant forall i, j :: 0 <= i < j < |entries| ==> entries[i].key != entries[j].key
        invariant |entries| + |keys| == |buckets|
        decreases |keys|
      {
        var key :| key in keys;
        entries := entries + [Aged(key, buckets[key].seenAt)];
        keys := keys - {key};
      }
    }
  }

  /** Tokens return with elapsed time; a clock stepping back takes none away. */
  method Refill(found: Bucket, limit: Limit, now: int) returns (entry: Bucket)
    requires limit.Positive()
    ensures entry == Refilled(found, limit, now)
  {
    hide Limit.RefillPerSecond, Limit.Earned;
    entry := found;
    var elapsed := Seconds(now - entry.seenAt);
    if elapsed > 0.0 {
      RefillIsEarned(limit, now - entry.seenAt);
      entry := entry.(
        tokens := Min(limit.requests as real, entry.tokens + elapsed * limit.RefillPerSecond()), seenAt := now);
    }
  }

  /** Spends one token if there is one, and records when the bucket will be full. */
  method SpendOne(found: Bucket, limit: Limit, now: int) returns (entry: Bucket, decision: Decision)
    requires limit.Positive()
    ensures (entry, decision) == Spend(found, limit, now)
  {
    hide Limit.RefillPerSecond, Limit.Wait, SecondsToDuration, Truncate, Whole;
    PositiveRefills(limit);
    var refill, burst := limit.RefillPerSecond(), limit.requests as real;
    entry := found;
    decision := Decision(false, limit.requests, 0, 0, 0);
    if entry.tokens >= 1.0 {
      entry := entry.(tokens := entry.tokens - 1.0);
      decision := decision.(allowed := true);
    } else {
      WaitIsComputed(limit, 1.0 - entry.tokens);
      decision := decision.(retryAfter := SecondsToDuration((1.0 - entry.tokens) / refill));
    }
    TruncateIsWhole(entry.tokens);
    WaitIsComputed(limit, burst - entry.tokens);
    decision := decision.(
      remaining := Truncate(entry.tokens),
      resetAt := now + SecondsToDuration((burst - entry.tokens) / refill));
    entry := entry.(fullAt := decision.resetAt);
  }

  /** Stands for `sort.Slice`; callers use only its contract. */
  method SortBySeenAt(entries: seq<Aged>, ghost buckets: map<string, Bucket>) returns (sorted: seq<Aged>)
    requires Lists(entries, buckets)
    ensures Lists(sorted, buckets) && Oldest(sorted)
  {
    sorted := [];
    var rest := entries;
    while rest != []
      invariant Lists(sorted + rest, buckets) && Oldest(sorted)
      decreases |rest|
    {
      assert rest == [rest[0]] + rest[1..];
      sorted := Insert(sorted, rest[0], rest[1..], buckets);
      rest := rest[1..];
    }
    assert sorted + [] == sorted;
  }

  method Insert(sorted: seq<Aged>, entry: Aged, ghost rest: seq<Aged>, ghost buckets: map<string, Bucket>)
    returns (longer: seq<Aged>)
    requires Lists(sorted + ([entry] + rest), buckets) && Oldest(sorted)
    ensures Lists(longer + rest, buckets) && Oldest(longer)
  {
    hide Lists;
    var at := |sorted|;
    while at > 0 && sorted[at - 1].seenAt > entry.seenAt
      invariant 0 <= at <= |sorted|
      invariant forall i :: at <= i < |sorted| ==> sorted[i].seenAt > entry.seenAt
    {
      at := at - 1;
    }
    longer := sorted[..at] + [entry] + sorted[at..];
    ListsMoved(sorted, entry, rest, at, buckets);
  }

  lemma ListsMoved(sorted: seq<Aged>, entry: Aged, rest: seq<Aged>, at: nat, buckets: map<string, Bucket>)
    requires at <= |sorted| && Lists(sorted + ([entry] + rest), buckets)
    ensures Lists(sorted[..at] + [entry] + sorted[at..] + rest, buckets)
  {
    var before, after := sorted + ([entry] + rest), sorted[..at] + [entry] + sorted[at..] + rest;
    forall i | 0 <= i < |after|
      ensures after[i] == before[From(i, at, |sorted|)]
    {}
    forall i, j | 0 <= i < j < |after|
      ensures after[i].key != after[j].key
    {
      var x, y := From(i, at, |sorted|), From(j, at, |sorted|);
      assert before[x].key != before[y].key;
    }
  }

  function From(i: int, at: nat, length: nat): int {
    if i < at then i else if i == at then length else if i <= length then i - 1 else i
  }

  ghost function Firsts(entries: seq<Aged>, count: nat): set<string>
    requires count <= |entries|
  {
    if count == 0 then {} else Firsts(entries, count - 1) + {entries[count - 1].key}
  }

  lemma ListsLength(entries: seq<Aged>, buckets: map<string, Bucket>)
    requires Lists(entries, buckets)
    ensures |entries| == |buckets|
  {}

  lemma NoFirsts(entries: seq<Aged>)
    ensures Firsts(entries, 0) == {}
  {}

  lemma FirstsGrow(entries: seq<Aged>, count: nat)
    requires count < |entries|
    ensures Firsts(entries, count + 1) == Firsts(entries, count) + {entries[count].key}
  {}

  lemma {:induction false} FirstsAreListed(entries: seq<Aged>, count: nat, key: string)
    requires count <= |entries|
    ensures key in Firsts(entries, count) <==> exists i :: 0 <= i < count && entries[i].key == key
  {
    if count > 0 {
      FirstsAreListed(entries, count - 1, key);
    }
  }

  lemma {:induction false} FirstsCount(entries: seq<Aged>, count: nat, buckets: map<string, Bucket>)
    requires count <= |entries| && Lists(entries, buckets)
    ensures Firsts(entries, count) <= buckets.Keys && |Firsts(entries, count)| == count
    ensures |buckets - Firsts(entries, count)| == |buckets| - count
  {
    if count > 0 {
      FirstsCount(entries, count - 1, buckets);
      FirstsAreListed(entries, count - 1, entries[count - 1].key);
    }
    Removes(buckets.Keys, Firsts(entries, count));
    assert (buckets - Firsts(entries, count)).Keys == buckets.Keys - Firsts(entries, count);
  }

  lemma FirstsAreStalest(entries: seq<Aged>, count: nat, buckets: map<string, Bucket>)
    requires count <= |entries| && Lists(entries, buckets) && Oldest(entries)
    ensures StalestFirst(buckets, Firsts(entries, count), |buckets| - count)
  {
    FirstsCount(entries, count, buckets);
    forall victim, survivor |
      victim in Firsts(entries, count) && survivor in buckets && survivor !in Firsts(entries, count)
      ensures buckets[victim].seenAt <= buckets[survivor].seenAt
    {
      FirstsAreListed(entries, count, victim);
      FirstsAreListed(entries, count, survivor);
      ListsAll(entries, buckets, survivor);
    }
  }

  lemma ListsAll(entries: seq<Aged>, buckets: map<string, Bucket>, key: string)
    requires Lists(entries, buckets) && key in buckets
    ensures exists i :: 0 <= i < |entries| && entries[i].key == key
  {
    var listed := Firsts(entries, |entries|);
    FirstsCount(entries, |entries|, buckets);
    Removes(buckets.Keys, listed);
    assert buckets.Keys - listed == {};
    assert key in listed;
    FirstsAreListed(entries, |entries|, key);
  }

  // ---------- the middleware

  const UNIX_EPOCH_SECONDS: int := 62_135_596_800

  predicate IsLeap(year: int) {
    year % 4 == 0 && (year % 100 != 0 || year % 400 == 0)
  }

  /** The days from the first of January of year 1 to that of another. */
  function DaysBefore(year: nat): int {
    if year <= 1 then 0 else DaysBefore(year - 1) + if IsLeap(year - 1) then 366 else 365
  }

  lemma {:induction false} DaysInClosedForm(year: nat)
    requires year >= 1
    ensures DaysBefore(year) == 365 * (year - 1) + (year - 1) / 4 - (year - 1) / 100 + (year - 1) / 400
    decreases year
  {
    if year > 1 {
      DaysInClosedForm(year - 1);
      OneLeapMore(year - 1);
    }
  }

  lemma OneLeapMore(year: nat)
    requires year >= 1
    ensures year / 4 - year / 100 + year / 400
         == (year - 1) / 4 - (year - 1) / 100 + (year - 1) / 400 + if IsLeap(year) then 1 else 0
  {
    Fourths(year);
    Hundredths(year);
    FourHundredths(year);
  }

  lemma Fourths(year: nat)
    requires year >= 1
    ensures year / 4 == (year - 1) / 4 + if year % 4 == 0 then 1 else 0
  {}

  lemma Hundredths(year: nat)
    requires year >= 1
    ensures year / 100 == (year - 1) / 100 + if year % 100 == 0 then 1 else 0
    ensures year % 100 == 0 ==> year % 4 == 0
  {
    var century := year / 100;
    assert year % 100 == 0 ==> year == 4 * (25 * century);
  }

  lemma FourHundredths(year: nat)
    requires year >= 1
    ensures year / 400 == (year - 1) / 400 + if year % 400 == 0 then 1 else 0
    ensures year % 400 == 0 ==> year % 100 == 0
  {
    var cycle := year / 400;
    assert year % 400 == 0 ==> year == 100 * (4 * cycle);
  }

  /** The Unix epoch lies the days of the years 1 to 1969 after Go's zero time. */
  lemma EpochIsNineteenSeventy()
    ensures UNIX_EPOCH_SECONDS == DaysBefore(1970) * 24 * 3600
  {
    hide DaysBefore;
    DaysInClosedForm(1970);
  }

  lemma ResetInUnixSeconds(resetAt: int)
    ensures resetAt / SECOND - UNIX_EPOCH_SECONDS
         == (resetAt - DaysBefore(1970) * (24 * 3600 * 1_000_000_000)) / 1_000_000_000
  {
    hide DaysBefore;
    EpochIsNineteenSeventy();
  }

  /** The rate-limit headers as numbers, the Retry-After header or 0 when it is not set, and whether
      the handler chain stops here. */
  datatype Response = Response(limit: int, remaining: int, reset: int, retryAfter: int, aborted: bool)

  method Throttle(store: MemoryStore, limit: Limit, clientIP: string, now: int)
    returns (response: Response, ghost call: Call)
    requires Bounded(store.State())
    modifies store
    ensures call.key == limit.Key(clientIP) && call.limit == limit && call.now == now
    ensures Legal(old(store.State()), call) && Bounded(store.State())
    ensures var (next, decision) := Step(old(store.State()), call);
      && store.State() == next
      && response.limit == decision.limit && response.remaining == decision.remaining
      && response.reset == (decision.resetAt - DaysBefore(1970) * (24 * 3600 * 1_000_000_000)) / 1_000_000_000
      && response.aborted == !decision.allowed
      && response.retryAfter == (if decision.allowed then 0 else Announcements.HeaderSeconds(decision.retryAfter))
  {
    ghost var evicted;
    var decision;
    decision, evicted := store.Allow(limit.Key(clientIP), limit, now);
    call := Call(limit.Key(clientIP), limit, now, evicted);
    hide DaysBefore;
    ResetInUnixSeconds(decision.resetAt);
    var reset := decision.resetAt / SECOND - UNIX_EPOCH_SECONDS;
    response := Response(decision.limit, decision.remaining, reset, 0, false);
    if decision.allowed {
      return;
    }
    var retryAfter := Ceil(Seconds(decision.retryAfter));
    if retryAfter < 1 {
      retryAfter := 1;
    }
    response := response.(retryAfter := retryAfter, aborted := true);
  }
}
