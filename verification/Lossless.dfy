/** Runs that decide alike: what forgetting a bucket changes and when it changes nothing, refusals that
    leave no trace, and callers that do not touch each other. */
module Lossless {
  import opened Allowance
  import opened TokenBucket
  import opened BoundedStore
  import opened Levels
  import opened Admission
  import opened Bounds

  ghost predicate SameLevels(s: Store, u: Store, limits: map<string, Limit>, at: int) {
    forall key :: key in limits && limits[key].Positive()
      ==> LevelOf(s, key, limits, at) == LevelOf(u, key, limits, at)
  }

  // ---------- a store that never forgets

  /** The same call on a store without sweep, cap or eviction. */
  ghost function Remember(s: Store, c: Call): (Store, Decision) {
    if !c.limit.Positive() then
      (s, Refusal(c.limit, c.now))
    else
      var (after, decision) := Spend(Entry(s.buckets, c), c.limit, c.now);
      (s.(buckets := s.buckets[c.key := after]), decision)
  }

  ghost function RememberedDecisions(s: Store, calls: seq<Call>): seq<Decision>
    decreases |calls|
  {
    if calls == [] then []
    else [Remember(s, calls[0]).1] + RememberedDecisions(Remember(s, calls[0]).0, calls[1..])
  }

  /** A key the store no longer tracks, and a store that never forgets still does, is asked for no
      earlier than its bucket has earned back the whole allowance. */
  ghost predicate ReturnsFull(s: Store, u: Store, c: Call)
    requires c.limit.Positive()
  {
    c.key !in Sweep(s, c.now, false).buckets && c.key in u.buckets ==>
      c.now >= u.buckets[c.key].seenAt + c.limit.Wait(c.limit.Burst() - u.buckets[c.key].tokens)
  }

  /** So it is for every call of a run. */
  ghost predicate AllReturnFull(s: Store, u: Store, calls: seq<Call>)
    requires forall i :: 0 <= i < |calls| ==> calls[i].limit.Positive()
    decreases |calls|
  {
    calls == [] ||
      (ReturnsFull(s, u, calls[0]) && AllReturnFull(Step(s, calls[0]).0, Remember(u, calls[0]).0, calls[1..]))
  }

  /** What the store tracks is what a store that never forgets has for the key. */
  predicate PartOf(s: Store, u: Store) {
    forall key :: key in s.buckets ==> key in u.buckets && s.buckets[key] == u.buckets[key]
  }

  /** What every call leaves in a bucket, whatever the clock does. */
  predicate Drawn(u: Store, limits: map<string, Limit>) {
    forall key :: key in u.buckets ==>
      key in limits && InRange(u.buckets[key], limits[key]) && u.buckets[key].tokens < limits[key].Burst()
  }

  /** A bucket back at its whole allowance and a new one are spent from alike. */
  lemma FullIsNew(entry: Bucket, limit: Limit, now: int)
    requires InRange(entry, limit) && entry.tokens < limit.Burst()
    requires now >= entry.seenAt + limit.Wait(limit.Burst() - entry.tokens)
    ensures Spend(Refilled(entry, limit, now), limit, now) == Spend(NewBucket(limit, now), limit, now)
  {
    hide Limit.Wait, Limit.Earned;
    RefillReachesFull(entry, limit, now);
    WaitIsWithinTheWindow(limit, limit.Burst() - entry.tokens);
  }

  lemma SpendDraws(entry: Bucket, limit: Limit, now: int)
    requires InRange(entry, limit)
    ensures InRange(Spend(entry, limit, now).0, limit) && Spend(entry, limit, now).0.tokens < limit.Burst()
  {}

  lemma ForgettingLeavesAPart(s: Store, u: Store, c: Call)
    requires PartOf(s, u)
    ensures PartOf(Sweep(s, c.now, false), u) && PartOf(Ready(s, c), u)
  {}

  /** The same entry, or one as good as new, unless the key was forgotten and does not return full. */
  lemma EntryForgottenExactly(s: Store, u: Store, c: Call, limits: map<string, Limit>)
    requires PartOf(Sweep(s, c.now, false), u) && Drawn(u, limits)
    requires c.key in limits && c.limit == limits[c.key] && c.limit.Positive()
    ensures var mine, kept := Entry(Sweep(s, c.now, false).buckets, c), Entry(u.buckets, c);
      && (Spend(mine, c.limit, c.now).1 == Spend(kept, c.limit, c.now).1 <==> ReturnsFull(s, u, c))
      && (ReturnsFull(s, u, c) ==> Spend(mine, c.limit, c.now) == Spend(kept, c.limit, c.now))
      && InRange(kept, c.limit)
  {
    hide Spend, Limit.Wait, Limit.Earned, Refilled, Sweep;
    if c.key in u.buckets {
      RefillOnAnyClock(u.buckets[c.key], c.limit, c.now);
      ForgettingIsInvisibleExactly(u.buckets[c.key], c.limit, c.now);
      if ReturnsFull(s, u, c) && c.key !in Sweep(s, c.now, false).buckets {
        FullIsNew(u.buckets[c.key], c.limit, c.now);
      }
    }
  }

  /** One call decides as in the store that never forgets exactly when its key returns full. */
  lemma ForgottenExactly(s: Store, u: Store, c: Call, limits: map<string, Limit>)
    requires PartOf(s, u) && Drawn(u, limits)
    requires c.key in limits && c.limit == limits[c.key] && c.limit.Positive()
    ensures Step(s, c).1 == Remember(u, c).1 <==> ReturnsFull(s, u, c)
    ensures Drawn(Remember(u, c).0, limits)
    ensures ReturnsFull(s, u, c) ==> PartOf(Step(s, c).0, Remember(u, c).0)
  {
    hide Spend, Entry, Sweep, Ready, ReturnsFull, InRange;
    ForgettingLeavesAPart(s, u, c);
    EntryForgottenExactly(s, u, c, limits);
    SpendDraws(Entry(u.buckets, c), c.limit, c.now);
  }

  lemma {:induction false} ForgettingChangesNoDecisionFrom(
      s: Store, u: Store, calls: seq<Call>, limits: map<string, Limit>)
    requires PartOf(s, u) && Drawn(u, limits) && Limited(calls, limits)
    ensures Decisions(s, calls) == RememberedDecisions(u, calls) <==> AllReturnFull(s, u, calls)
    decreases |calls|
  {
    hide Step, Remember, PartOf, Drawn, ReturnsFull;
    if calls != [] {
      var next, kept := Step(s, calls[0]).0, Remember(u, calls[0]).0;
      ForgottenExactly(s, u, calls[0], limits);
      if ReturnsFull(s, u, calls[0]) {
        ForgettingChangesNoDecisionFrom(next, kept, calls[1..], limits);
        assert Decisions(s, calls)[1..] == Decisions(next, calls[1..]);
        assert RememberedDecisions(u, calls)[1..] == RememberedDecisions(kept, calls[1..]);
      } else {
        assert Decisions(s, calls)[0] != RememberedDecisions(u, calls)[0];
      }
    }
  }

  /** Forgetting, by sweep or by eviction and on any clock, changes no decision of a run exactly when
      no key is asked for between being forgotten and having earned back its whole allowance. */
  lemma ForgettingChangesNoDecisionExactly(maxKeys: int, calls: seq<Call>, limits: map<string, Limit>)
    requires Limited(calls, limits)
    ensures Decisions(New(maxKeys), calls) == RememberedDecisions(New(maxKeys), calls)
       <==> AllReturnFull(New(maxKeys), New(maxKeys), calls)
  {
    ForgettingChangesNoDecisionFrom(New(maxKeys), New(maxKeys), calls, limits);
  }

  /** Every bucket that is no longer tracked is whole by now. */
  predicate ForgottenAreWhole(s: Store, u: Store, now: int) {
    forall key :: key in u.buckets && key !in s.buckets ==> u.buckets[key].fullAt <= now
  }

  lemma RememberStaysSound(u: Store, c: Call, limits: map<string, Limit>, clock: int)
    requires SoundStore(u, limits, clock) && clock <= c.now
    requires c.key in limits && c.limit == limits[c.key] && c.limit.Positive()
    ensures SoundStore(Remember(u, c).0, limits, c.now)
  {
    hide Spend, Advance, Limit.Wait, Limit.Earned;
    var entry := Entry(u.buckets, c);
    LevelRises(u, c.key, limits, clock, c.now);
    AdvanceKeepsRange(LevelOf(u, c.key, limits, clock), c.limit, c.now - clock);
    EntryStandsAtTheLevel(u, c, limits, clock);
    SpendFollowsTheLevel(entry, c.limit, c.now);
    assert Remember(u, c).0.buckets[c.key] == Spend(entry, c.limit, c.now).0;
  }

  /** On a steady clock and without evictions only whole buckets are forgotten. */
  lemma SweepForgetsTheWhole(s: Store, u: Store, c: Call, limits: map<string, Limit>, clock: int)
    requires PartOf(s, u) && SoundStore(u, limits, clock) && ForgottenAreWhole(s, u, clock)
    requires clock <= c.now && c.evicted == {}
    requires c.key in limits && c.limit == limits[c.key] && c.limit.Positive()
    ensures ReturnsFull(s, u, c)
    ensures ForgottenAreWhole(Step(s, c).0, Remember(u, c).0, c.now)
  {
    hide Spend, Entry, Limit.Wait, SoundStore, Sweep, Ready;
    WholeAfterForgetting(s, u, c, clock);
    if c.key in u.buckets { SoundAt(u, c.key, limits, clock); }
  }

  lemma WholeAfterForgetting(s: Store, u: Store, c: Call, clock: int)
    requires PartOf(s, u) && ForgottenAreWhole(s, u, clock) && clock <= c.now && c.evicted == {}
    ensures ForgottenAreWhole(Sweep(s, c.now, false), u, c.now) && ForgottenAreWhole(Ready(s, c), u, c.now)
  {}

  lemma SoundAt(u: Store, key: string, limits: map<string, Limit>, clock: int)
    requires SoundStore(u, limits, clock) && key in u.buckets && key in limits
    ensures Sound(u.buckets[key], limits[key], clock)
  {
    hide Sound;
  }

  lemma SoundIsDrawn(u: Store, limits: map<string, Limit>, clock: int)
    requires SoundStore(u, limits, clock)
    ensures Drawn(u, limits)
  {
    hide Limit.Wait;
  }

  lemma {:induction false} SteadyClockReturnsFull(
      s: Store, u: Store, calls: seq<Call>, limits: map<string, Limit>, clock: int)
    requires PartOf(s, u) && SoundStore(u, limits, clock) && ForgottenAreWhole(s, u, clock)
    requires Clocked(calls, clock) && Limited(calls, limits) && EvictionFree(calls)
    ensures AllReturnFull(s, u, calls)
    decreases |calls|
  {
    hide Step, Remember, PartOf, Drawn, ReturnsFull, SoundStore, ForgottenAreWhole;
    if calls != [] {
      SoundIsDrawn(u, limits, clock);
      SweepForgetsTheWhole(s, u, calls[0], limits, clock);
      ForgottenExactly(s, u, calls[0], limits);
      RememberStaysSound(u, calls[0], limits, clock);
      SteadyClockReturnsFull(Step(s, calls[0]).0, Remember(u, calls[0]).0, calls[1..], limits, calls[0].now);
    }
  }

  /** The sweep is lossless: without evictions and on a steady clock, however sweeps are paced or
      forced, every decision is the one a store that never forgets a bucket would have made. */
  lemma SweepChangesNoDecision(maxKeys: int, calls: seq<Call>, limits: map<string, Limit>, start: int)
    requires Clocked(calls, start) && Limited(calls, limits) && EvictionFree(calls)
    ensures Decisions(New(maxKeys), calls) == RememberedDecisions(New(maxKeys), calls)
  {
    hide AllReturnFull;
    ForgettingChangesNoDecisionExactly(maxKeys, calls, limits);
    SteadyClockReturnsFull(New(maxKeys), New(maxKeys), calls, limits, start);
  }

  // ---------- limits that permit nothing

  /** A limit that permits nothing refuses and touches nothing; every decision names its limit. */
  lemma NothingPermitted(s: Store, c: Call)
    ensures Step(s, c).1.limit == c.limit.requests
    ensures c.limit.requests <= 0 || c.limit.per <= 0 ==>
      Step(s, c) == (s, Decision(false, c.limit.requests, 0, c.limit.per, c.now + c.limit.per))
  {
    hide Limit.Wait, Whole, Ready, Entry, Sweep;
  }

  /** The calls under limits that permit something. */
  function Permitting(calls: seq<Call>): seq<Call> {
    if calls == [] then []
    else (if calls[0].limit.requests > 0 && calls[0].limit.per > 0 then [calls[0]] else []) + Permitting(calls[1..])
  }

  /** Such calls change no store: a run is as if they had not been made. */
  lemma {:induction false} PermittingNothingLeavesNoTrace(s: Store, calls: seq<Call>)
    ensures Run(s, calls) == Run(s, Permitting(calls))
    ensures LegalRun(s, calls) ==> LegalRun(s, Permitting(calls))
    decreases |calls|
  {
    hide Step, Legal;
    if calls != [] {
      NothingPermitted(s, calls[0]);
      PermittingNothingLeavesNoTrace(Step(s, calls[0]).0, calls[1..]);
      if calls[0].limit.requests > 0 && calls[0].limit.per > 0 {
        assert Permitting(calls)[0] == calls[0] && Permitting(calls)[1..] == Permitting(calls[1..]);
      } else {
        assert Permitting(calls) == Permitting(calls[1..]);
      }
    }
  }

  // ---------- leaving calls out

  /** The elements a mask keeps. */
  function Pick<T>(xs: seq<T>, keep: seq<bool>): (picked: seq<T>)
    requires |keep| == |xs|
    ensures |picked| <= |xs|
  {
    if xs == [] then [] else (if keep[0] then [xs[0]] else []) + Pick(xs[1..], keep[1..])
  }

  /** A sweep keeps every bucket whose level is short of the whole allowance, and a forced sweep
      keeps no other. */
  lemma SweepKeepsExactly(s: Store, limits: map<string, Limit>, clock: int, now: int, forced: bool, key: string)
    requires SoundStore(s, limits, clock) && clock <= now && key in limits && limits[key].Positive()
    ensures LevelOf(s, key, limits, now) != limits[key].Burst() ==> key in Sweep(s, now, forced).buckets
    ensures forced && key in Sweep(s, now, forced).buckets ==> LevelOf(s, key, limits, now) != limits[key].Burst()
  {
    hide Limit.Wait, Limit.Earned, Advance;
    if key in s.buckets {
      FullFromFullAt(s.buckets[key], limits[key], clock, now);
    }
  }

  /** Levels decide whether there is room: what avoids an eviction in one store avoids it in any
      other that stands at the same levels. */
  lemma RoomFollowsLevels(s: Store, u: Store, c: Call, limits: map<string, Limit>, clock: int)
    requires SoundStore(s, limits, clock) && SoundStore(u, limits, clock) && clock <= c.now
    requires SameLevels(s, u, limits, c.now) && |s.buckets| <= s.maxKeys == u.maxKeys
    requires Legal(s, c) && c.evicted == {}
    requires c.key in limits && c.limit.Positive()
    ensures Legal(u, c)
  {
    hide Sound, LevelOf, StalestFirst;
    var sweptS, sweptU := Sweep(s, c.now, false), Sweep(u, c.now, false);
    var forcedS, forcedU := Sweep(sweptS, c.now, true), Sweep(sweptU, c.now, true);
    if c.key !in sweptU.buckets {
      forall key | key in forcedU.buckets
        ensures key in sweptS.buckets && key in forcedS.buckets && key != c.key
      {
        SurvivesInBoth(s, u, limits, clock, c.now, key);
      }
      assert |sweptS.buckets| <= s.maxKeys by { SubsetSize(sweptS.buckets.Keys, s.buckets.Keys); }
      if c.key in sweptS.buckets {
        SubsetSize(forcedU.buckets.Keys, sweptS.buckets.Keys - {c.key});
      } else {
        NothingEvictedNothingDue(sweptS, c.now);
        SubsetSize(forcedU.buckets.Keys, sweptS.buckets.Keys);
        SubsetSize(forcedU.buckets.Keys, forcedS.buckets.Keys);
      }
    }
  }

  lemma NothingEvictedNothingDue(s: Store, now: int)
    requires s.maxKeys >= 1 && EvictionChoice(s, now, {})
    ensures !EvictionDue(s, now)
  {}

  lemma SurvivesInBoth(s: Store, u: Store, limits: map<string, Limit>, clock: int, now: int, key: string)
    requires SoundStore(s, limits, clock) && SoundStore(u, limits, clock) && clock <= now
    requires SameLevels(s, u, limits, now)
    requires key in Sweep(Sweep(u, now, false), now, true).buckets
    ensures key in Sweep(s, now, false).buckets && key in Sweep(Sweep(s, now, false), now, true).buckets
  {
    hide LevelOf, Limit.Wait;
    assert key in u.buckets;
    assert Sound(u.buckets[key], limits[key], clock);
    SweepMovesNoLevel(u, limits, clock, now, false, key);
    SweepKeepsExactly(Sweep(u, now, false), limits, clock, now, true, key);
    SweepMovesNoLevel(s, limits, clock, now, false, key);
    SweepKeepsExactly(s, limits, clock, now, false, key);
    SweepKeepsExactly(Sweep(s, now, false), limits, clock, now, true, key);
  }

  lemma SubsetSize<T>(small: set<T>, large: set<T>)
    requires small <= large
    ensures |small| <= |large|
  {
    assert large == small + (large - small);
  }

  predicate OnlyRefusalsDropped(decisions: seq<Decision>, keep: seq<bool>) {
    |keep| == |decisions| && forall i :: 0 <= i < |keep| && !keep[i] ==> !decisions[i].allowed
  }

  lemma {:induction false} DroppingRefusalsFrom(
      s: Store, u: Store, calls: seq<Call>, keep: seq<bool>, limits: map<string, Limit>, clock: int)
    requires SoundStore(s, limits, clock) && SoundStore(u, limits, clock) && SameLevels(s, u, limits, clock)
    requires Bounded(s) && s.maxKeys == u.maxKeys
    requires Clocked(calls, clock) && Limited(calls, limits) && LegalRun(s, calls) && EvictionFree(calls)
    requires OnlyRefusalsDropped(Decisions(s, calls), keep)
    ensures LegalRun(u, Pick(calls, keep))
    ensures Decisions(u, Pick(calls, keep)) == Pick(Decisions(s, calls), keep)
    decreases |calls|
  {
    hide Step, Legal, SoundStore, Sound, Level, LevelOf, Advance, Spent, Decide, Inserts, Evicts;
    if calls != [] {
      var c := calls[0];
      var (next, decision) := Step(s, c);
      var decisions := Decisions(s, calls);
      assert decisions[1..] == Decisions(next, calls[1..]);
      assert forall i :: 0 <= i < |keep[1..]| ==> keep[1..][i] == keep[i + 1];
      CallStaysBounded(s, c);
      CallConservesBuckets(s, c);
      CallMovesLevels(s, c, limits, clock, c.key);
      if keep[0] {
        SameLevelsLater(s, u, limits, clock, c.now);
        RoomFollowsLevels(s, u, c, limits, clock);
        SameLevelsAfter(s, u, c, limits, clock);
        CallMovesLevels(u, c, limits, clock, c.key);
        CallConservesBuckets(u, c);
        DroppingRefusalsFrom(next, Step(u, c).0, calls[1..], keep[1..], limits, c.now);
        assert Pick(calls, keep)[0] == c && Pick(calls, keep)[1..] == Pick(calls[1..], keep[1..]);
      } else {
        SameLevelsAfterRefusal(s, u, c, limits, clock);
        SoundLater(u, limits, clock, c.now);
        DroppingRefusalsFrom(next, u, calls[1..], keep[1..], limits, c.now);
        assert Pick(calls, keep) == Pick(calls[1..], keep[1..]);
      }
    }
  }

  lemma SameLevelsLater(s: Store, u: Store, limits: map<string, Limit>, clock: int, now: int)
    requires SoundStore(s, limits, clock) && SoundStore(u, limits, clock) && SameLevels(s, u, limits, clock)
    requires clock <= now
    ensures SameLevels(s, u, limits, now)
  {
    hide SoundStore, LevelOf, Advance;
    forall key | key in limits && limits[key].Positive()
      ensures LevelOf(s, key, limits, now) == LevelOf(u, key, limits, now)
    {
      LevelRises(s, key, limits, clock, now);
      LevelRises(u, key, limits, clock, now);
    }
  }

  lemma SameLevelsAfter(s: Store, u: Store, c: Call, limits: map<string, Limit>, clock: int)
    requires SoundStore(s, limits, clock) && SoundStore(u, limits, clock) && SameLevels(s, u, limits, clock)
    requires clock <= c.now && Legal(s, c) && Legal(u, c)
    requires c.key in limits && c.limit == limits[c.key] && c.limit.Positive()
    ensures SameLevels(Step(s, c).0, Step(u, c).0, limits, c.now)
    ensures Step(s, c).1 == Step(u, c).1
  {
    hide SoundStore, LevelOf, Advance, Step, Legal, Spent, Decide;
    forall key | key in limits && limits[key].Positive()
      ensures LevelOf(Step(s, c).0, key, limits, c.now) == LevelOf(Step(u, c).0, key, limits, c.now)
    {
      CallMovesLevels(s, c, limits, clock, key);
      CallMovesLevels(u, c, limits, clock, key);
    }
    CallMovesLevels(s, c, limits, clock, c.key);
    CallMovesLevels(u, c, limits, clock, c.key);
  }

  lemma SameLevelsAfterRefusal(s: Store, u: Store, c: Call, limits: map<string, Limit>, clock: int)
    requires SoundStore(s, limits, clock) && SoundStore(u, limits, clock) && SameLevels(s, u, limits, clock)
    requires clock <= c.now && Legal(s, c) && c.evicted == {} && !Step(s, c).1.allowed
    requires c.key in limits && c.limit == limits[c.key] && c.limit.Positive()
    ensures SameLevels(Step(s, c).0, u, limits, c.now)
  {
    hide SoundStore, LevelOf, Advance, Step, Legal;
    forall key | key in limits && limits[key].Positive()
      ensures LevelOf(Step(s, c).0, key, limits, c.now) == LevelOf(u, key, limits, c.now)
    {
      CallMovesLevels(s, c, limits, clock, key);
      LevelRises(u, key, limits, clock, c.now);
    }
  }

  /** Refused calls leave no trace: leaving any of them out of an eviction-free run gives a run that
      evicts nothing either and decides every remaining call the same, so polling delays nobody. */
  lemma RefusalsLeaveNoTrace(
      maxKeys: int, calls: seq<Call>, keep: seq<bool>, limits: map<string, Limit>, start: int)
    requires Clocked(calls, start) && Limited(calls, limits)
    requires LegalRun(New(maxKeys), calls) && EvictionFree(calls)
    requires OnlyRefusalsDropped(Decisions(New(maxKeys), calls), keep)
    ensures LegalRun(New(maxKeys), Pick(calls, keep))
    ensures Decisions(New(maxKeys), Pick(calls, keep)) == Pick(Decisions(New(maxKeys), calls), keep)
  {
    hide Step, Legal;
    DroppingRefusalsFrom(New(maxKeys), New(maxKeys), calls, keep, limits, start);
  }

  // ---------- callers and allowances

  /** One key's calls, on their own. */
  function Alone(calls: seq<Call>, key: string): seq<Call> {
    if calls == [] then []
    else (if calls[0].key == key then [calls[0].(evicted := {})] else []) + Alone(calls[1..], key)
  }

  function DecisionsOf(calls: seq<Call>, decisions: seq<Decision>, key: string): seq<Decision>
    requires |decisions| == |calls|
  {
    if calls == [] then []
    else (if calls[0].key == key then [decisions[0]] else []) + DecisionsOf(calls[1..], decisions[1..], key)
  }

  lemma RoomForOne(u: Store, c: Call)
    requires u.maxKeys >= 1 && u.buckets.Keys <= {c.key} && c.evicted == {}
    ensures Legal(u, c)
    ensures Step(u, c).0.buckets.Keys <= {c.key} && Step(u, c).0.maxKeys == u.maxKeys
  {
    hide StalestFirst, Spend, Entry;
    var swept := Sweep(u, c.now, false);
    assert swept.buckets.Keys <= {c.key};
    if c.key !in swept.buckets {
      assert swept.buckets == map[];
    }
  }

  lemma {:induction false} DecidedAsAloneFrom(
      s: Store, u: Store, calls: seq<Call>, key: string, limits: map<string, Limit>, clock: int)
    requires SoundStore(s, limits, clock) && SoundStore(u, limits, clock) && u.buckets.Keys <= {key}
    requires key in limits && limits[key].Positive()
    requires LevelOf(s, key, limits, clock) == LevelOf(u, key, limits, clock)
    requires Clocked(calls, clock) && Limited(calls, limits) && LegalRun(s, calls) && Evictions(calls, key) == 0
    ensures LegalRun(u, Alone(calls, key))
    ensures Decisions(u, Alone(calls, key)) == DecisionsOf(calls, Decisions(s, calls), key)
    decreases |calls|
  {
    hide Step, Legal, SoundStore, Sound, Level, LevelOf, Advance, Spent, Decide;
    if calls != [] {
      var c := calls[0];
      var (next, decision) := Step(s, c);
      assert Decisions(s, calls)[1..] == Decisions(next, calls[1..]);
      CallMovesLevels(s, c, limits, clock, key);
      if c.key == key {
        var alone := c.(evicted := {});
        RoomForOne(u, alone) by { SoundHasRoom(u, limits, clock); }
        CallMovesLevels(u, alone, limits, clock, key);
        DecidedAsAloneFrom(next, Step(u, alone).0, calls[1..], key, limits, c.now);
        assert Alone(calls, key)[0] == alone && Alone(calls, key)[1..] == Alone(calls[1..], key);
      } else {
        LevelRises(u, key, limits, clock, c.now);
        SoundLater(u, limits, clock, c.now);
        DecidedAsAloneFrom(next, u, calls[1..], key, limits, c.now);
        assert Alone(calls, key) == Alone(calls[1..], key);
      }
    }
  }

  lemma SoundHasRoom(s: Store, limits: map<string, Limit>, clock: int)
    requires SoundStore(s, limits, clock)
    ensures s.maxKeys >= 1
  {}

  /** Callers do not touch each other: as long as a key is not evicted, its decisions in any
      interleaving are those of its own calls on a fresh store of any capacity. */
  lemma DecidedAsAlone(
      maxKeys: int, capacity: int, calls: seq<Call>, key: string, limits: map<string, Limit>, start: int)
    requires Clocked(calls, start) && Limited(calls, limits) && key in limits && limits[key].Positive()
    requires LegalRun(New(maxKeys), calls) && Evictions(calls, key) == 0
    ensures LegalRun(New(capacity), Alone(calls, key))
    ensures Decisions(New(capacity), Alone(calls, key)) == DecisionsOf(calls, Decisions(New(maxKeys), calls), key)
  {
    hide Step, Legal, LevelOf, SoundStore;
    FreshStore(maxKeys, key, limits, start);
    FreshStore(capacity, key, limits, start);
    DecidedAsAloneFrom(New(maxKeys), New(capacity), calls, key, limits, start);
  }

  /** Every call is keyed by its own limit. */
  predicate KeyedByLimit(calls: seq<Call>, identities: seq<string>) {
    |identities| == |calls| && forall i :: 0 <= i < |calls| ==> calls[i].key == calls[i].limit.Key(identities[i])
  }

  /** The run without one limit's calls. */
  function Without(calls: seq<Call>, name: string): seq<Call> {
    if calls == [] then []
    else (if calls[0].limit.name == name then [] else [calls[0]]) + Without(calls[1..], name)
  }

  lemma {:induction false} AnotherLimitIsAnotherKey(
      calls: seq<Call>, identities: seq<string>, mine: Limit, identity: string, other: Limit)
    requires KeyedByLimit(calls, identities)
    requires '|' !in mine.name && '|' !in other.name && mine.name != other.name
    ensures Alone(Without(calls, other.name), mine.Key(identity)) == Alone(calls, mine.Key(identity))
    decreases |calls|
  {
    hide Limit.Key;
    if calls != [] {
      var c := calls[0];
      AnotherLimitIsAnotherKey(calls[1..], identities[1..], mine, identity, other);
      if c.limit.name == other.name {
        KeyIsInjective(c.limit, mine, identities[0], identity);
        assert Without(calls, other.name) == Without(calls[1..], other.name);
        assert Alone(calls, mine.Key(identity)) == Alone(calls[1..], mine.Key(identity));
      } else {
        assert Without(calls, other.name)[1..] == Without(calls[1..], other.name);
      }
    }
  }

  /** Two limits with different separator-free names never draw on each other: a caller's decisions
      under one are those of a fresh store that sees none of the other's calls. */
  lemma AllowancesNeverShare(
      maxKeys: int, calls: seq<Call>, identities: seq<string>, mine: Limit, identity: string, other: Limit,
      limits: map<string, Limit>, start: int)
    requires Clocked(calls, start) && Limited(calls, limits) && LegalRun(New(maxKeys), calls)
    requires KeyedByLimit(calls, identities)
    requires '|' !in mine.name && '|' !in other.name && mine.name != other.name
    requires mine.Positive() && mine.Key(identity) in limits && limits[mine.Key(identity)] == mine
    requires Evictions(calls, mine.Key(identity)) == 0
    ensures DecisionsOf(calls, Decisions(New(maxKeys), calls), mine.Key(identity))
         == Decisions(New(maxKeys), Alone(Without(calls, other.name), mine.Key(identity)))
  {
    hide Step, Legal, Limit.Key;
    AnotherLimitIsAnotherKey(calls, identities, mine, identity, other);
    DecidedAsAlone(maxKeys, maxKeys, calls, mine.Key(identity), limits, start);
  }

  // ---------- the hypothesis on the clock

  const HOURLY := Limit("hourly", 1, 3600 * SECOND)

  /** A caller spends its one request; another's call sweeps the bucket the moment it is full; the
      first comes back with an instant read before that. */
  function SteppingBack(): seq<Call> {
    [ Call("a", HOURLY, 3600 * SECOND, {}),
      Call("b", HOURLY, 7200 * SECOND, {}),
      Call("a", HOURLY, 7199 * SECOND, {}) ]
  }

  lemma HourlyWait()
    ensures HOURLY.Positive() && HOURLY.Wait(1.0) == 3600 * SECOND
    ensures HOURLY.Earned(3599 * SECOND) < 1.0
  {
    hide Limit.Wait, Limit.Earned;
    EarnedAtTheRate(HOURLY, 3600 * SECOND);
    EarnedAtTheRate(HOURLY, 3600 * SECOND - 1);
    EarnedAtTheRate(HOURLY, 3599 * SECOND);
    WaitIsLeast(HOURLY, 1.0, 3600 * SECOND);
    WaitIsLeast(HOURLY, 1.0, 3600 * SECOND - 1);
  }

  lemma HourlyFirst(now: int)
    ensures Spend(NewBucket(HOURLY, now), HOURLY, now).0 == Bucket(0.0, now, now + 3600 * SECOND)
    ensures Spend(NewBucket(HOURLY, now), HOURLY, now).1.allowed
  {
    hide Limit.Wait;
    HourlyWait();
  }

  /** A new caller in a store whose every bucket is swept is admitted and is all the store holds. */
  lemma HourlyInsert(s: Store, c: Call)
    requires c.limit == HOURLY && c.evicted == {} && s.maxKeys >= 1 && Sweep(s, c.now, false).buckets == map[]
    ensures Legal(s, c) && Step(s, c).1.allowed
    ensures Step(s, c).0.buckets == map[c.key := Bucket(0.0, c.now, c.now + 3600 * SECOND)]
    ensures Step(s, c).0.maxKeys == s.maxKeys && Step(s, c).0.prunedAt == Sweep(s, c.now, false).prunedAt
  {
    hide Spend, NewBucket, StalestFirst;
    HourlyFirst(c.now);
  }

  lemma HourlyRefusal(s: Store, c: Call)
    requires c.limit == HOURLY && c.key in s.buckets && s.buckets[c.key] == Bucket(0.0, 3600 * SECOND, 7200 * SECOND)
    requires c.now == 7199 * SECOND
    ensures !Remember(s, c).1.allowed
  {
    hide Limit.Wait, Limit.Earned;
    HourlyWait();
    RefilledIsAdvance(s.buckets[c.key], HOURLY, c.now);
  }

  /** A run on a clock that steps back in which forgetting does change a decision: the swept caller is
      admitted where a store that never forgets refuses it, for it does not return full. */
  lemma SteppingBackChangesADecision()
    ensures LegalRun(New(0), SteppingBack()) && EvictionFree(SteppingBack())
    ensures Decisions(New(0), SteppingBack())[2].allowed
    ensures !RememberedDecisions(New(0), SteppingBack())[2].allowed
    ensures !AllReturnFull(New(0), New(0), SteppingBack())
  {
    SteppingBackDecides();
    hide Step, Legal, Remember, LegalRun, Decisions, RememberedDecisions, AllReturnFull;
    ForgettingChangesNoDecisionExactly(0, SteppingBack(), map["a" := HOURLY, "b" := HOURLY]);
  }

  lemma SteppingBackDecides()
    ensures LegalRun(New(0), SteppingBack()) && EvictionFree(SteppingBack())
    ensures Decisions(New(0), SteppingBack())[2].allowed
    ensures !RememberedDecisions(New(0), SteppingBack())[2].allowed
  {
    var calls := SteppingBack();
    var first, second, third := calls[0], calls[1], calls[2];
    var s0 := New(0);
    HourlyInsert(s0, first);
    var s1 := Step(s0, first).0;
    HourlyInsert(s1, second);
    var s2 := Step(s1, second).0;
    assert Sweep(s2, third.now, false) == s2;
    SecondInsert(s2, third);
    HourlyFirst(first.now);
    HourlyFirst(second.now);
    var m1 := Remember(s0, first).0;
    assert m1.buckets["a"] == Bucket(0.0, 3600 * SECOND, 7200 * SECOND);
    var m2 := Remember(m1, second).0;
    HourlyRefusal(m2, third);
    hide Step, Legal, Remember;
    assert calls[1..] == [second, third] && calls[1..][1..] == [third];
  }

  lemma SecondInsert(s: Store, c: Call)
    requires c.limit == HOURLY && c.evicted == {} && Sweep(s, c.now, false) == s
    requires c.key !in s.buckets && |s.buckets| < s.maxKeys
    ensures Legal(s, c) && Step(s, c).1.allowed
  {
    hide Spend, NewBucket, StalestFirst;
    HourlyFirst(c.now);
  }
}
