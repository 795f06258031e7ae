/** One caller's bucket, and the level of tokens it stands for.

    `Refilled` and `Spend` are what `Allow` does to an entry once it has found or created it
    (app/services/throttle/memory.go:118-144). `Advance`, `Spent` and `Decide` describe the same
    thing without the lazily refilled representation: a level that rises with time and falls by
    one when a request is admitted. */
module TokenBucket {
  import opened Allowance

  datatype Bucket = Bucket(tokens: real, seenAt: int, fullAt: int)

  function NewBucket(limit: Limit, now: int): Bucket {
    Bucket(limit.Burst(), now, now)
  }

  function Refilled(entry: Bucket, limit: Limit, now: int): Bucket
    requires limit.Positive()
  {
    if now > entry.seenAt then
      entry.(tokens := Min(limit.Burst(), entry.tokens + limit.Earned(now - entry.seenAt)), seenAt := now)
    else
      entry
  }

  ghost function Spend(entry: Bucket, limit: Limit, now: int): (Bucket, Decision)
    requires limit.Positive()
  {
    var allowed := entry.tokens >= 1.0;
    var tokens := if allowed then entry.tokens - 1.0 else entry.tokens;
    var retryAfter := if allowed then 0 else limit.Wait(1.0 - tokens);
    var resetAt := now + limit.Wait(limit.Burst() - tokens);
    (Bucket(tokens, entry.seenAt, resetAt), Decision(allowed, limit.requests, Whole(tokens), retryAfter, resetAt))
  }

  // ---------- levels

  /** The level after `elapsed` nanoseconds in which nothing is admitted. */
  function Advance(level: real, limit: Limit, elapsed: int): real
    requires limit.Positive()
  {
    Min(limit.Burst(), level + limit.Earned(elapsed))
  }

  /** What one request leaves of a level. */
  function Spent(level: real): real {
    if level >= 1.0 then level - 1.0 else level
  }

  /** The decision a level stands for. */
  ghost function Decide(level: real, limit: Limit, now: int): Decision
    requires limit.Positive()
  {
    Decision(
      level >= 1.0,
      limit.requests,
      Whole(Spent(level)),
      if level >= 1.0 then 0 else limit.Wait(1.0 - level),
      now + limit.Wait(limit.Burst() - Spent(level)))
  }

  /** The level a key stands at: its bucket's tokens plus what has been earned since, or the whole
      allowance when the key is not tracked. */
  function Level(buckets: map<string, Bucket>, key: string, limit: Limit, at: int): real
    requires limit.Positive()
  {
    if key in buckets then
      Advance(buckets[key].tokens, limit, at - buckets[key].seenAt)
    else
      limit.Burst()
  }

  /** What every call on a non-decreasing clock leaves in a bucket. */
  ghost predicate Sound(entry: Bucket, limit: Limit, clock: int) {
    && limit.Positive()
    && 0.0 <= entry.tokens < limit.Burst()
    && entry.seenAt <= clock
    && entry.fullAt == entry.seenAt + limit.Wait(limit.Burst() - entry.tokens)
  }

  // ---------- how a level moves

  lemma AdvanceComposes(level: real, limit: Limit, first: int, second: int)
    requires limit.Positive() && second >= 0
    ensures Advance(Advance(level, limit, first), limit, second) == Advance(level, limit, first + second)
  {
    hide Limit.Earned;
    EarnedAdds(limit, first, second);
    EarnedNeverFalls(limit, second);
  }

  lemma AdvanceKeepsRange(level: real, limit: Limit, elapsed: int)
    requires limit.Positive() && elapsed >= 0 && 0.0 <= level
    ensures 0.0 <= Advance(level, limit, elapsed) <= limit.Burst()
    ensures level <= limit.Burst() ==> level <= Advance(level, limit, elapsed)
  {
    hide Limit.Earned;
    EarnedNeverFalls(limit, elapsed);
  }

  lemma AdvanceByNothing(level: real, limit: Limit)
    requires limit.Positive() && level <= limit.Burst()
    ensures Advance(level, limit, 0) == level
  {}

  /** A bucket is at its whole allowance exactly from the instant it recorded as `fullAt`. */
  lemma FullFromFullAt(entry: Bucket, limit: Limit, clock: int, at: int)
    requires Sound(entry, limit, clock) && at >= clock
    ensures entry.fullAt <= at <==> Advance(entry.tokens, limit, at - entry.seenAt) == limit.Burst()
  {
    hide Limit.Earned, Limit.Wait;
    WaitIsLeast(limit, limit.Burst() - entry.tokens, at - entry.seenAt);
  }

  lemma RefilledIsAdvance(entry: Bucket, limit: Limit, now: int)
    requires limit.Positive() && entry.tokens <= limit.Burst() && entry.seenAt <= now
    ensures Refilled(entry, limit, now).tokens == Advance(entry.tokens, limit, now - entry.seenAt)
    ensures Refilled(entry, limit, now).seenAt == now
  {}

  /** Earning back anything short of the whole allowance takes some time, and at most the window. */
  lemma WaitIsWithinTheWindow(limit: Limit, need: real)
    requires limit.Positive() && 0.0 < need <= limit.Burst()
    ensures 0 < limit.Wait(need) <= limit.per
  {
    hide Limit.Wait;
    WaitIsLeast(limit, need, 0);
    BurstTakesTheWindow(limit);
    WaitIsLeast(limit, need, limit.per);
  }

  /** Spending from a refilled bucket decides by the level alone and leaves a sound bucket that
      is not yet full. */
  lemma SpendFollowsTheLevel(entry: Bucket, limit: Limit, now: int)
    requires limit.Positive() && entry.seenAt == now && 0.0 <= entry.tokens <= limit.Burst()
    ensures Spend(entry, limit, now).1 == Decide(entry.tokens, limit, now)
    ensures Sound(Spend(entry, limit, now).0, limit, now)
    ensures Spend(entry, limit, now).0.tokens == Spent(entry.tokens) && Spend(entry, limit, now).0.seenAt == now
    ensures now < Spend(entry, limit, now).0.fullAt <= now + limit.per
  {
    hide Limit.Wait;
    WaitIsWithinTheWindow(limit, limit.Burst() - Spent(entry.tokens));
  }

  // ---------- what a bucket keeps whatever the clock does

  /** A bucket never holds more than its allowance and never goes negative. */
  predicate InRange(entry: Bucket, limit: Limit) {
    limit.Positive() && 0.0 <= entry.tokens <= limit.Burst()
  }

  /** A clock stepping backwards takes no token away, and none is earned beyond the latest instant. */
  lemma RefillOnAnyClock(entry: Bucket, limit: Limit, now: int)
    requires InRange(entry, limit)
    ensures var refilled := Refilled(entry, limit, now);
      && InRange(refilled, limit)
      && refilled.seenAt == (if now > entry.seenAt then now else entry.seenAt)
      && entry.tokens <= refilled.tokens
      && refilled.tokens <= entry.tokens + limit.Earned(refilled.seenAt - entry.seenAt)
  {
    if now > entry.seenAt {
      EarnedNeverFalls(limit, now - entry.seenAt);
    }
  }

  lemma SpendOnAnyClock(entry: Bucket, limit: Limit, now: int)
    requires InRange(entry, limit)
    ensures var (after, decision) := Spend(entry, limit, now);
      && InRange(after, limit)
      && after.seenAt == entry.seenAt
      && after.tokens == entry.tokens - (if decision.allowed then 1.0 else 0.0)
  {}

  /** The whole tokens of a level short of a whole number are fewer. */
  lemma {:induction false} FewerWhole(level: real, requests: nat)
    requires 0.0 <= level
    ensures Whole(level) >= 0
    ensures level < requests as real ==> Whole(level) < requests
    ensures level == requests as real ==> Whole(level) == requests
    decreases level
  {
    if level >= 1.0 {
      FewerWhole(level - 1.0, if requests > 0 then requests - 1 else 0);
    }
  }

  /** Different levels decide differently: admission or `Remaining` tells a whole allowance apart
      from anything less. */
  lemma FullIsTellable(level: real, limit: Limit, now: int)
    requires limit.Positive() && 0.0 <= level <= limit.Burst()
    ensures Decide(level, limit, now) == Decide(limit.Burst(), limit, now) <==> level == limit.Burst()
    ensures Decide(level, limit, now).allowed && Decide(level, limit, now).remaining == limit.requests - 1
       <==> level == limit.Burst()
  {
    hide Limit.Wait, Whole;
    FewerWhole(limit.Burst() - 1.0, limit.requests - 1);
    if level >= 1.0 {
      FewerWhole(level - 1.0, limit.requests - 1);
    }
    assert level != limit.Burst() ==>
      Decide(level, limit, now).remaining != limit.requests - 1 || !Decide(level, limit, now).allowed;
  }

  lemma SpendDecides(entry: Bucket, limit: Limit, now: int)
    requires limit.Positive()
    ensures Spend(entry, limit, now).1 == Decide(entry.tokens, limit, now)
  {}

  /** Discarding a bucket is invisible to a call exactly when the bucket has earned back its whole
      allowance by then. Nothing is assumed of the clock. */
  lemma ForgettingIsInvisibleExactly(entry: Bucket, limit: Limit, now: int)
    requires InRange(entry, limit) && entry.tokens < limit.Burst()
    ensures Spend(Refilled(entry, limit, now), limit, now).1 == Spend(NewBucket(limit, now), limit, now).1
       <==> now >= entry.seenAt + limit.Wait(limit.Burst() - entry.tokens)
  {
    hide Spend, Decide, Limit.Wait;
    var refilled := Refilled(entry, limit, now);
    SpendDecides(refilled, limit, now);
    SpendDecides(NewBucket(limit, now), limit, now);
    RefillReachesFull(entry, limit, now);
    FullIsTellable(refilled.tokens, limit, now);
  }

  lemma RefillReachesFull(entry: Bucket, limit: Limit, now: int)
    requires InRange(entry, limit) && entry.tokens < limit.Burst()
    ensures Refilled(entry, limit, now).tokens == limit.Burst()
       <==> now >= entry.seenAt + limit.Wait(limit.Burst() - entry.tokens)
    ensures 0.0 <= Refilled(entry, limit, now).tokens <= limit.Burst()
  {
    hide Limit.Earned, Limit.Wait;
    var need := limit.Burst() - entry.tokens;
    RefillOnAnyClock(entry, limit, now);
    if now >= entry.seenAt {
      WaitIsLeast(limit, need, now - entry.seenAt);
      NothingIsEarnedAtOnce(limit);
    } else {
      WaitIsLeast(limit, need, 0);
    }
  }

  lemma NothingIsEarnedAtOnce(limit: Limit)
    requires limit.Positive()
    ensures limit.Earned(0) == 0.0
  {}
}
