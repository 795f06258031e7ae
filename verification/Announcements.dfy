/** What the numbers in a decision promise about later calls: `Remaining`, `ResetAt` and `RetryAfter`
    (app/services/throttle/memory.go:131-144), and the header the wait becomes
    (app/http/middlewares/throttle_middleware.go:77-82). */
module Announcements {
  import opened Allowance
  import opened TokenBucket
  import opened BoundedStore
  import opened Levels
  import opened Admission
  import opened Lossless

  lemma RefusedWait(level: real, limit: Limit, now: int, later: int)
    requires limit.Positive() && 0.0 <= level < 1.0 && now <= later
    ensures Advance(level, limit, later - now) >= 1.0 <==> later >= now + Decide(level, limit, now).retryAfter
    ensures Decide(level, limit, now).retryAfter > 0
  {
    hide Limit.Wait, Limit.Earned;
    WaitIsLeast(limit, 1.0 - level, later - now);
    WaitIsWithinTheWindow(limit, 1.0 - level);
  }

  /** With nothing of its key admitted in between, a later call decides by the level that time alone
      has made of the earlier one, or by a whole allowance if the key was evicted. */
  lemma DecidedLater(s: Store, between: seq<Call>, later: Call, limits: map<string, Limit>, clock: int)
    requires SoundStore(s, limits, clock) && Limited(between + [later], limits)
    requires Clocked(between + [later], clock) && LegalRun(s, between + [later])
    requires Admitted(s, between, later.key) == []
    ensures later.key in limits && limits[later.key] == later.limit && later.limit.Positive() && clock <= later.now
    ensures Step(Run(s, between), later).1 == Decide(
      if Evictions(between, later.key) == 0 then
        Advance(LevelOf(s, later.key, limits, clock), later.limit, later.now - clock)
      else later.limit.Burst(), later.limit, later.now)
  {
    hide Step, Legal, SoundStore, Sound, Level, LevelOf, Advance, Admitted, Decide, Limit.Wait, Limit.Earned;
    SplitLast(s, between, later, limits, clock);
    var key, limit, last := later.key, later.limit, ClockAfter(between, clock);
    ClockJoins(between, [later], clock);
    LevelRises(s, key, limits, clock, clock);
    LevelRisesUndisturbed(s, between, key, limits, clock);
    RunStaysSound(s, between, limits, clock);
    CallMovesLevels(Run(s, between), later, limits, last, key);
    AdvanceComposes(LevelOf(s, key, limits, clock), limit, last - clock, later.now - last);
    AdvanceKeepsRange(limit.Burst(), limit, later.now - last);
  }

  lemma FirstAndRest(first: Call, between: seq<Call>, later: Call, s: Store, limits: map<string, Limit>, clock: int)
    requires Limited([first] + between + [later], limits)
    requires Clocked([first] + between + [later], clock) && LegalRun(s, [first] + between + [later])
    ensures Limited(between + [later], limits) && Clocked(between + [later], first.now)
    ensures LegalRun(Step(s, first).0, between + [later]) && Legal(s, first) && clock <= first.now
    ensures first.key in limits && limits[first.key] == first.limit && first.limit.Positive()
  {
    hide Step, Legal;
    var calls := [first] + between + [later];
    assert calls[0] == first && calls[1..] == between + [later];
    assert forall i :: 0 <= i < |calls[1..]| ==> calls[1..][i] == calls[i + 1];
  }

  lemma LeastWaitFrom(
      s: Store, refused: Call, between: seq<Call>, retry: Call, limits: map<string, Limit>, clock: int)
    requires SoundStore(s, limits, clock) && Limited([refused] + between + [retry], limits)
    requires Clocked([refused] + between + [retry], clock) && LegalRun(s, [refused] + between + [retry])
    requires !Step(s, refused).1.allowed && retry.key == refused.key
    requires Admitted(Step(s, refused).0, between, refused.key) == []
    ensures Step(Run(Step(s, refused).0, between), retry).1.allowed
       <==> retry.now >= refused.now + Step(s, refused).1.retryAfter || Evictions(between, refused.key) > 0
    ensures 0 < Step(s, refused).1.retryAfter
  {
    hide Step, Legal, SoundStore, Sound, Level, LevelOf, Advance, Admitted, Limit.Wait, Limit.Earned, Limited, Clocked,
      LegalRun;
    FirstAndRest(refused, between, retry, s, limits, clock);
    var next := Step(s, refused).0;
    CallMovesLevels(s, refused, limits, clock, refused.key);
    LevelRises(next, refused.key, limits, refused.now, refused.now);
    DecidedLater(next, between, retry, limits, refused.now);
    RefusedWait(LevelOf(next, refused.key, limits, refused.now), refused.limit, refused.now, retry.now);
  }

  /** `RetryAfter` is the least wait: when nothing of the key is admitted in between, however often
      it polls, a retry is admitted exactly from the announced instant on, or earlier if the key was
      evicted meanwhile. */
  lemma RetryAfterIsTheLeastWait(
      maxKeys: int, before: seq<Call>, refused: Call, between: seq<Call>, retry: Call,
      limits: map<string, Limit>, start: int)
    requires Clocked(before + ([refused] + between + [retry]), start)
    requires Limited(before + ([refused] + between + [retry]), limits)
    requires LegalRun(New(maxKeys), before + ([refused] + between + [retry]))
    requires retry.key == refused.key && !Step(Run(New(maxKeys), before), refused).1.allowed
    requires Admitted(Step(Run(New(maxKeys), before), refused).0, between, refused.key) == []
    ensures var (next, decision) := Step(Run(New(maxKeys), before), refused);
      && 0 < decision.retryAfter
      && (Step(Run(next, between), retry).1.allowed
          <==> retry.now >= refused.now + decision.retryAfter || Evictions(between, refused.key) > 0)
  {
    hide Step, Legal, SoundStore, Sound, Level, LevelOf, Admitted, Limited, Clocked, LegalRun;
    CutRun(maxKeys, before, [refused] + between + [retry], limits, start);
    LeastWaitFrom(Run(New(maxKeys), before), refused, between, retry, limits, ClockAfter(before, start));
  }

  /** The Retry-After header in whole seconds (delay-seconds, section 10.2.3 of RFC 9110): the least
      positive number of seconds that covers the wait. */
  function HeaderSeconds(retryAfter: int): (seconds: int)
    ensures seconds >= 1 && seconds * 1_000_000_000 >= retryAfter
    ensures retryAfter > 0 ==> (seconds - 1) * 1_000_000_000 < retryAfter
    ensures retryAfter <= 0 ==> seconds == 1
  {
    var seconds := Ceil(Seconds(retryAfter));
    if seconds < 1 then 1 else seconds
  }

  /** A caller that waits as the header says, and is admitted nothing meanwhile, is admitted. */
  lemma HonouringTheHeaderIsEnough(
      maxKeys: int, before: seq<Call>, refused: Call, between: seq<Call>, retry: Call,
      limits: map<string, Limit>, start: int)
    requires Clocked(before + ([refused] + between + [retry]), start)
    requires Limited(before + ([refused] + between + [retry]), limits)
    requires LegalRun(New(maxKeys), before + ([refused] + between + [retry]))
    requires retry.key == refused.key && !Step(Run(New(maxKeys), before), refused).1.allowed
    requires Admitted(Step(Run(New(maxKeys), before), refused).0, between, refused.key) == []
    requires retry.now >= refused.now
      + HeaderSeconds(Step(Run(New(maxKeys), before), refused).1.retryAfter) * 1_000_000_000
    ensures Step(Run(Step(Run(New(maxKeys), before), refused).0, between), retry).1.allowed
  {
    hide Step, Legal, Admitted;
    RetryAfterIsTheLeastWait(maxKeys, before, refused, between, retry, limits, start);
  }

  // ---------- what is left, and when it is whole again

  lemma WholeAgain(before: real, limit: Limit, now: int, later: int)
    requires limit.Positive() && 0.0 <= before <= limit.Burst() && now <= later
    ensures 0.0 <= Spent(before) < limit.Burst()
    ensures Advance(Spent(before), limit, later - now) == limit.Burst() <==> later >= Decide(before, limit, now).resetAt
  {
    hide Limit.Wait;
    StaysShort(before, limit);
    WaitIsLeast(limit, limit.Burst() - Spent(before), later - now);
  }

  lemma StaysShort(level: real, limit: Limit)
    requires limit.Positive() && 0.0 <= level <= limit.Burst()
    ensures 0.0 <= Spent(level) < limit.Burst()
  {}

  /** `ResetAt` is the least instant at which the allowance is whole: with nothing of the key admitted
      or evicted in between, a later call finds all of it, so is admitted and leaves one less than
      the limit, exactly from then on. */
  lemma ResetAtIsWhenTheAllowanceIsWhole(
      s: Store, first: Call, between: seq<Call>, later: Call, limits: map<string, Limit>, clock: int)
    requires SoundStore(s, limits, clock) && Limited([first] + between + [later], limits)
    requires Clocked([first] + between + [later], clock) && LegalRun(s, [first] + between + [later])
    requires later.key == first.key && Evictions(between, first.key) == 0
    requires Admitted(Step(s, first).0, between, first.key) == []
    ensures var found := Step(Run(Step(s, first).0, between), later).1;
      found.allowed && found.remaining == first.limit.requests - 1 <==> later.now >= Step(s, first).1.resetAt
  {
    hide Step, Legal, SoundStore, Sound, Level, LevelOf, Advance, Admitted, Spent, Decide, Limit.Wait, Limit.Earned,
      Limited, Clocked, LegalRun;
    FirstAndRest(first, between, later, s, limits, clock);
    var key, limit, next := first.key, first.limit, Step(s, first).0;
    CallMovesLevels(s, first, limits, clock, key);
    LevelRises(s, key, limits, clock, clock);
    AdvanceKeepsRange(LevelOf(s, key, limits, clock), limit, first.now - clock);
    var before := Advance(LevelOf(s, key, limits, clock), limit, first.now - clock);
    DecidedLater(next, between, later, limits, first.now);
    WholeAgain(before, limit, first.now, later.now);
    AdvanceKeepsRange(Spent(before), limit, later.now - first.now);
    FullIsTellable(Advance(Spent(before), limit, later.now - first.now), limit, later.now);
  }

  /** The same call made again and again at the same instant. */
  function Again(c: Call, times: nat): seq<Call> {
    if times == 0 then [] else [c] + Again(c, times - 1)
  }

  lemma {:induction false} AdmittedAtOnce(s: Store, c: Call, times: nat, limits: map<string, Limit>)
    requires SoundStore(s, limits, c.now) && c.evicted == {}
    requires c.key in limits && c.limit == limits[c.key] && c.limit.Positive()
    requires LevelOf(s, c.key, limits, c.now) < c.limit.Burst()
    ensures LegalRun(s, Again(c, times))
    ensures |Admitted(s, Again(c, times), c.key)|
         == var left := Whole(LevelOf(s, c.key, limits, c.now)); if times <= left then times else left
    decreases times
  {
    hide Step, SoundStore, Sound, Level, LevelOf, Advance, Limit.Wait, Limit.Earned, EvictionChoice;
    var level := LevelOf(s, c.key, limits, c.now);
    LevelRises(s, c.key, limits, c.now, c.now);
    FewerWhole(level, 0);
    if times > 0 {
      SweepKeepsExactly(s, limits, c.now, c.now, false, c.key);
      AdvanceByNothing(level, c.limit);
      CallMovesLevels(s, c, limits, c.now, c.key);
      var next := Step(s, c).0;
      AdmittedAtOnce(next, c, times - 1, limits);
      assert Again(c, times)[0] == c && Again(c, times)[1..] == Again(c, times - 1);
    }
  }

  /** `Remaining` is what is left: of any number of further requests at the same instant, exactly so
      many are admitted, and no eviction is ever due for them. */
  lemma RemainingIsWhatIsLeft(s: Store, c: Call, times: nat, limits: map<string, Limit>, clock: int)
    requires SoundStore(s, limits, clock) && clock <= c.now && Legal(s, c)
    requires c.key in limits && c.limit == limits[c.key] && c.limit.Positive()
    ensures var (next, decision) := Step(s, c);
      var more := Again(c.(evicted := {}), times);
      && LegalRun(next, more)
      && |Admitted(next, more, c.key)| == if times <= decision.remaining then times else decision.remaining
  {
    hide Step, Legal, SoundStore, Sound, Level, LevelOf, Advance, Spent, Limit.Wait, Limit.Earned, Whole;
    CallMovesLevels(s, c, limits, clock, c.key);
    LevelRises(s, c.key, limits, clock, clock);
    AdvanceKeepsRange(LevelOf(s, c.key, limits, clock), c.limit, c.now - clock);
    StaysShort(Advance(LevelOf(s, c.key, limits, clock), c.limit, c.now - clock), c.limit);
    AdmittedAtOnce(Step(s, c).0, c.(evicted := {}), times, limits);
  }
}
