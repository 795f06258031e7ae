/** What the decisions of whole runs add up to, on a non-decreasing clock. */
module Admission {
  import opened Allowance
  import opened TokenBucket
  import opened BoundedStore
  import opened Levels

  // ---------- the closed form of a level

  /** What the admissions from the i-th on leave of an allowance and of what was earned since. */
  function Window(past: seq<int>, i: nat, limit: Limit, at: int): real
    requires limit.Positive() && i < |past|
  {
    limit.Burst() + limit.Earned(at - past[i]) - (|past| - i) as real
  }

  /** A level is the least of the whole allowance and every window that ends now. */
  ghost predicate LeastWindow(level: real, past: seq<int>, limit: Limit, at: int)
    requires limit.Positive()
  {
    && level <= limit.Burst()
    && (forall i :: 0 <= i < |past| ==> level <= Window(past, i, limit, at))
    && (level == limit.Burst() || exists i :: 0 <= i < |past| && level == Window(past, i, limit, at))
  }

  /** Counting a request now, every window from an earlier admission holds at most an allowance
      and what the window earns. */
  predicate FitsEveryWindow(past: seq<int>, limit: Limit, now: int) {
    forall i :: 0 <= i < |past| ==> Affords(limit, |past| - i + 1, 1, now - past[i])
  }

  /** Between any two instants there are at most an allowance and what the time between earns. */
  predicate Conforms(times: seq<int>, limit: Limit) {
    forall i, j :: 0 <= i <= j < |times| ==> Affords(limit, j - i + 1, 1, times[j] - times[i])
  }

  lemma WindowRises(past: seq<int>, i: nat, limit: Limit, at: int, elapsed: int)
    requires limit.Positive() && i < |past|
    ensures Window(past, i, limit, at + elapsed) == Window(past, i, limit, at) + limit.Earned(elapsed)
  {
    EarnedAdds(limit, at - past[i], elapsed);
  }

  lemma WindowsRise(level: real, past: seq<int>, limit: Limit, at: int, elapsed: int)
    requires limit.Positive() && elapsed >= 0 && LeastWindow(level, past, limit, at)
    ensures LeastWindow(Advance(level, limit, elapsed), past, limit, at + elapsed)
  {
    hide Window, Limit.Earned;
    var later, earned := at + elapsed, limit.Earned(elapsed);
    assert earned >= 0.0 by { EarnedNeverFalls(limit, elapsed); }
    var risen := Advance(level, limit, elapsed);
    forall i | 0 <= i < |past|
      ensures Window(past, i, limit, later) == Window(past, i, limit, at) + earned
    {
      WindowRises(past, i, limit, at, elapsed);
    }
    assert forall i :: 0 <= i < |past| ==> risen <= Window(past, i, limit, later);
    if risen != limit.Burst() {
      assert level != limit.Burst();
      var i :| 0 <= i < |past| && level == Window(past, i, limit, at);
      assert risen == Window(past, i, limit, later);
    }
  }

  lemma WindowsAfterAdmission(level: real, past: seq<int>, limit: Limit, now: int)
    requires limit.Positive() && level >= 1.0 && LeastWindow(level, past, limit, now)
    ensures LeastWindow(level - 1.0, past + [now], limit, now)
  {
    var admitted := past + [now];
    forall i | 0 <= i < |past|
      ensures Window(admitted, i, limit, now) == Window(past, i, limit, now) - 1.0
    {
      assert admitted[i] == past[i];
    }
    assert Window(admitted, |past|, limit, now) == limit.Burst() - 1.0;
    if level != limit.Burst() {
      var i :| 0 <= i < |past| && level == Window(past, i, limit, now);
      assert level - 1.0 == Window(admitted, i, limit, now);
    }
  }

  lemma WindowHoldsAToken(past: seq<int>, i: nat, limit: Limit, now: int)
    requires limit.Positive() && i < |past|
    ensures Window(past, i, limit, now) >= 1.0
       <==> Affords(limit, |past| - i + 1, 1, now - past[i])
  {
    EarnedInIntegers(limit, now - past[i], |past| - i + 1, 1);
  }

  lemma TokenMeansConforming(level: real, past: seq<int>, limit: Limit, now: int)
    requires limit.Positive() && LeastWindow(level, past, limit, now)
    ensures level >= 1.0 <==> FitsEveryWindow(past, limit, now)
  {
    hide Window, Affords;
    forall i | 0 <= i < |past|
      ensures Window(past, i, limit, now) >= 1.0 <==> Affords(limit, |past| - i + 1, 1, now - past[i])
    {
      WindowHoldsAToken(past, i, limit, now);
    }
    assert limit.Burst() >= 1.0;
  }

  lemma ConformsOneMore(past: seq<int>, limit: Limit, now: int)
    requires limit.Positive() && Conforms(past, limit)
    ensures Conforms(past + [now], limit) <==> FitsEveryWindow(past, limit, now)
  {
    hide Affords;
    var times := past + [now];
    OneIsAfforded(limit);
    assert times[|past|] == now && now - now == 0;
    assert forall i :: 0 <= i < |past| ==> times[i] == past[i];
    if Conforms(times, limit) {
      forall i | 0 <= i < |past|
        ensures Affords(limit, |past| - i + 1, 1, now - past[i])
      {
        assert times[i] == past[i] && 0 <= i <= |past| < |times|;
      }
    }
  }

  lemma OneIsAfforded(limit: Limit)
    requires limit.Positive()
    ensures Affords(limit, 1, 1, 0)
  {}

  // ---------- exact conformance

  /** The instants a run admits a key at since it last evicted it; `past` are those before the run. */
  ghost function AdmittedSince(s: Store, calls: seq<Call>, key: string, past: seq<int>): seq<int>
    decreases |calls|
  {
    if calls == [] then past
    else
      var c := calls[0];
      var (next, decision) := Step(s, c);
      var kept := if key in c.evicted then [] else past;
      AdmittedSince(next, calls[1..], key, if c.key == key && decision.allowed then kept + [c.now] else kept)
  }

  lemma {:induction false} NoEvictionNoReset(s: Store, calls: seq<Call>, key: string, past: seq<int>)
    requires Evictions(calls, key) == 0
    ensures AdmittedSince(s, calls, key, past) == past + Admitted(s, calls, key)
    decreases |calls|
  {
    hide Step;
    if calls != [] {
      var c := calls[0];
      var (next, decision) := Step(s, c);
      NoEvictionNoReset(next, calls[1..], key, if c.key == key && decision.allowed then past + [c.now] else past);
    }
  }

  /** An evicted key stands at its whole allowance, and so does one with nothing admitted. */
  lemma WholeWithoutAPast(limit: Limit, at: int)
    requires limit.Positive()
    ensures LeastWindow(limit.Burst(), [], limit, at) && Conforms([], limit)
  {}

  lemma {:induction false} LevelIsLeastWindow(
      s: Store, calls: seq<Call>, key: string, past: seq<int>, limits: map<string, Limit>, clock: int)
    requires SoundStore(s, limits, clock) && key in limits && limits[key].Positive()
    requires Clocked(calls, clock) && Limited(calls, limits) && LegalRun(s, calls)
    requires LeastWindow(LevelOf(s, key, limits, clock), past, limits[key], clock)
    ensures SoundStore(Run(s, calls), limits, ClockAfter(calls, clock))
    ensures LeastWindow(LevelOf(Run(s, calls), key, limits, ClockAfter(calls, clock)),
                        AdmittedSince(s, calls, key, past), limits[key], ClockAfter(calls, clock))
    ensures Conforms(past, limits[key]) ==> Conforms(AdmittedSince(s, calls, key, past), limits[key])
    decreases |calls|
  {
    hide Step, Legal, SoundStore, Sound, LeastWindow, Level, LevelOf, Advance, Conforms, FitsEveryWindow;
    if calls != [] {
      var c := calls[0];
      var level := LevelOf(s, key, limits, clock);
      CallMovesLevels(s, c, limits, clock, key);
      NeverSelfEvicts(s, c);
      WindowsRise(level, past, limits[key], clock, c.now - clock);
      WholeWithoutAPast(limits[key], c.now);
      var before := Advance(level, limits[key], c.now - clock);
      var kept := if key in c.evicted then [] else past;
      if c.key == key && before >= 1.0 {
        WindowsAfterAdmission(before, past, limits[key], c.now);
        TokenMeansConforming(before, past, limits[key], c.now);
        if Conforms(past, limits[key]) { ConformsOneMore(past, limits[key], c.now); }
        kept := past + [c.now];
      }
      LevelIsLeastWindow(Step(s, c).0, calls[1..], key, kept, limits, c.now);
    }
  }

  /** A call evicts only others: a pass runs for a key the store does not hold. */
  lemma NeverSelfEvicts(s: Store, c: Call)
    requires Legal(s, c)
    ensures c.key !in c.evicted
  {}

  lemma FreshStore(maxKeys: int, key: string, limits: map<string, Limit>, start: int)
    requires key in limits && limits[key].Positive()
    ensures SoundStore(New(maxKeys), limits, start)
    ensures LevelOf(New(maxKeys), key, limits, start) == limits[key].Burst()
    ensures LeastWindow(LevelOf(New(maxKeys), key, limits, start), [], limits[key], start)
  {}

  lemma SplitLast(s: Store, calls: seq<Call>, c: Call, limits: map<string, Limit>, start: int)
    requires Clocked(calls + [c], start) && Limited(calls + [c], limits) && LegalRun(s, calls + [c])
    ensures Clocked(calls, start) && Limited(calls, limits) && LegalRun(s, calls)
    ensures Legal(Run(s, calls), c) && ClockAfter(calls, start) <= c.now
    ensures c.key in limits && c.limit == limits[c.key] && c.limit.Positive()
  {
    hide Step, Legal;
    RunJoins(s, calls, [c]);
    ClockJoins(calls, [c], start);
    assert (calls + [c])[|calls|] == c;
    assert forall i :: 0 <= i < |calls| ==> (calls + [c])[i] == calls[i];
  }

  /** Evictions included, a request is admitted exactly when, counting it, every window from an admission
      of its key since the key was last evicted conforms. */
  lemma AdmitsExactlySinceEviction(
      maxKeys: int, calls: seq<Call>, c: Call, limits: map<string, Limit>, start: int)
    requires Clocked(calls + [c], start) && Limited(calls + [c], limits) && LegalRun(New(maxKeys), calls + [c])
    ensures Step(Run(New(maxKeys), calls), c).1.allowed
       <==> FitsEveryWindow(AdmittedSince(New(maxKeys), calls, c.key, []), c.limit, c.now)
  {
    hide Step, Legal, SoundStore, Sound, LeastWindow, Level, LevelOf, Advance, FitsEveryWindow, Limit.Wait, Limited,
      Clocked, LegalRun, Run, AdmittedSince;
    var s := New(maxKeys);
    SplitLast(s, calls, c, limits, start);
    FreshStore(maxKeys, c.key, limits, start);
    var clock, end := ClockAfter(calls, start), Run(s, calls);
    LevelIsLeastWindow(s, calls, c.key, [], limits, start);
    var past := AdmittedSince(s, calls, c.key, []);
    CallMovesLevels(end, c, limits, clock, c.key);
    WindowsRise(LevelOf(end, c.key, limits, clock), past, c.limit, clock, c.now - clock);
    TokenMeansConforming(Advance(LevelOf(end, c.key, limits, clock), c.limit, c.now - clock), past, c.limit, c.now);
  }

  /** As long as its key is not evicted, every earlier admission counts. */
  lemma AdmitsExactlyConforming(
      maxKeys: int, calls: seq<Call>, c: Call, limits: map<string, Limit>, start: int)
    requires Clocked(calls + [c], start) && Limited(calls + [c], limits)
    requires LegalRun(New(maxKeys), calls + [c]) && Evictions(calls, c.key) == 0
    ensures Step(Run(New(maxKeys), calls), c).1.allowed
       <==> FitsEveryWindow(Admitted(New(maxKeys), calls, c.key), c.limit, c.now)
  {
    hide Step, Legal, FitsEveryWindow, Limited, Clocked, LegalRun, Run;
    AdmitsExactlySinceEviction(maxKeys, calls, c, limits, start);
    NoEvictionNoReset(New(maxKeys), calls, c.key, []);
    assert [] + Admitted(New(maxKeys), calls, c.key) == Admitted(New(maxKeys), calls, c.key);
  }

  /** From any admission of a key since its last eviction to any later one, both included, there are
      at most an allowance and what the time between them earns. */
  lemma AdmittedSinceEvictionConforms(
      maxKeys: int, calls: seq<Call>, key: string, limits: map<string, Limit>, start: int, i: nat, j: nat)
    requires Clocked(calls, start) && Limited(calls, limits) && key in limits && limits[key].Positive()
    requires LegalRun(New(maxKeys), calls) && i <= j < |AdmittedSince(New(maxKeys), calls, key, [])|
    ensures var times := AdmittedSince(New(maxKeys), calls, key, []);
      Affords(limits[key], j - i + 1, 1, times[j] - times[i])
  {
    hide Step, Legal, SoundStore, LeastWindow, LevelOf, Affords, LegalRun, Limited, Clocked, AdmittedSince;
    FreshStore(maxKeys, key, limits, start);
    WholeWithoutAPast(limits[key], start);
    LevelIsLeastWindow(New(maxKeys), calls, key, [], limits, start);
  }

  /** And so between any two admissions of a key that is not evicted. */
  lemma AdmittedTrafficConforms(
      maxKeys: int, calls: seq<Call>, key: string, limits: map<string, Limit>, start: int, i: nat, j: nat)
    requires Clocked(calls, start) && Limited(calls, limits) && key in limits && limits[key].Positive()
    requires LegalRun(New(maxKeys), calls) && Evictions(calls, key) == 0
    requires i <= j < |Admitted(New(maxKeys), calls, key)|
    ensures var times := Admitted(New(maxKeys), calls, key);
      Affords(limits[key], j - i + 1, 1, times[j] - times[i])
  {
    hide Step, Legal, Affords, LegalRun, Limited, Clocked;
    NoEvictionNoReset(New(maxKeys), calls, key, []);
    assert [] + Admitted(New(maxKeys), calls, key) == Admitted(New(maxKeys), calls, key);
    AdmittedSinceEvictionConforms(maxKeys, calls, key, limits, start, i, j);
  }

  /** The instants at which a key asks. */
  function Requested(calls: seq<Call>, key: string): seq<int> {
    if calls == [] then []
    else (if calls[0].key == key then [calls[0].now] else []) + Requested(calls[1..], key)
  }

  lemma {:induction false} ConformingIsAdmitted(
      s: Store, calls: seq<Call>, key: string, past: seq<int>, limits: map<string, Limit>, clock: int)
    requires SoundStore(s, limits, clock) && key in limits && limits[key].Positive()
    requires Clocked(calls, clock) && Limited(calls, limits) && LegalRun(s, calls)
    requires LeastWindow(LevelOf(s, key, limits, clock), past, limits[key], clock)
    requires Conforms(past + Requested(calls, key), limits[key])
    ensures Admitted(s, calls, key) == Requested(calls, key)
    decreases |calls|
  {
    hide Step, Legal, SoundStore, Sound, LeastWindow, Level, LevelOf, Advance, Conforms, FitsEveryWindow;
    if calls != [] {
      var c := calls[0];
      var level := LevelOf(s, key, limits, clock);
      CallMovesLevels(s, c, limits, clock, key);
      NeverSelfEvicts(s, c);
      WindowsRise(level, past, limits[key], clock, c.now - clock);
      var before := Advance(level, limits[key], c.now - clock);
      var rest := Requested(calls[1..], key);
      if c.key == key {
        assert past + Requested(calls, key) == past + [c.now] + rest;
        ConformsPart(past + [c.now], rest, limits[key]);
        ConformsPart(past, [c.now], limits[key]);
        ConformsOneMore(past, limits[key], c.now);
        TokenMeansConforming(before, past, limits[key], c.now);
        WindowsAfterAdmission(before, past, limits[key], c.now);
        ConformingIsAdmitted(Step(s, c).0, calls[1..], key, past + [c.now], limits, c.now);
      } else {
        assert past + Requested(calls, key) == past + rest;
        ConformsPart(past, rest, limits[key]);
        WholeWithoutAPast(limits[key], c.now);
        assert [] + rest == rest;
        ConformingIsAdmitted(Step(s, c).0, calls[1..], key, if key in c.evicted then [] else past, limits, c.now);
      }
    }
  }

  lemma ConformsPart(first: seq<int>, second: seq<int>, limit: Limit)
    requires Conforms(first + second, limit)
    ensures Conforms(first, limit) && Conforms(second, limit)
  {
    hide Affords;
    var times := first + second;
    assert forall i :: 0 <= i < |first| ==> times[i] == first[i];
    forall i, j | 0 <= i <= j < |second|
      ensures Affords(limit, j - i + 1, 1, second[j] - second[i])
    {
      assert times[|first| + i] == second[i] && times[|first| + j] == second[j];
    }
  }

  /** A key that asks no faster than its limit is never refused, evicted or not. */
  lemma ConformingTrafficIsNeverRefused(
      maxKeys: int, calls: seq<Call>, key: string, limits: map<string, Limit>, start: int)
    requires Clocked(calls, start) && Limited(calls, limits) && key in limits && limits[key].Positive()
    requires LegalRun(New(maxKeys), calls)
    requires Conforms(Requested(calls, key), limits[key])
    ensures Admitted(New(maxKeys), calls, key) == Requested(calls, key)
  {
    hide Step, Legal, SoundStore, LeastWindow, LevelOf;
    FreshStore(maxKeys, key, limits, start);
    assert [] + Requested(calls, key) == Requested(calls, key);
    ConformingIsAdmitted(New(maxKeys), calls, key, [], limits, start);
  }

  // ---------- runs with evictions

  lemma {:induction false} RunStaysSound(s: Store, calls: seq<Call>, limits: map<string, Limit>, clock: int)
    requires SoundStore(s, limits, clock) && Clocked(calls, clock) && Limited(calls, limits) && LegalRun(s, calls)
    ensures SoundStore(Run(s, calls), limits, ClockAfter(calls, clock))
    decreases |calls|
  {
    hide Step, Legal, SoundStore;
    if calls != [] {
      CallMovesLevels(s, calls[0], limits, clock, calls[0].key);
      RunStaysSound(Step(s, calls[0]).0, calls[1..], limits, calls[0].now);
    }
  }

  /** What a level, a number of evictions and a duration can pay for. */
  function Budget(level: real, limit: Limit, evictions: nat, duration: int): real
    requires limit.Positive()
  {
    level + limit.Burst() * evictions as real + limit.Earned(duration)
  }

  lemma BudgetPays(level: real, limit: Limit, elapsed: int, evictions: nat, duration: int)
    requires limit.Positive() && 0.0 <= level <= limit.Burst() && elapsed >= 0
    ensures var before := Advance(level, limit, elapsed);
      && Budget(before, limit, evictions, duration) <= Budget(level, limit, evictions, elapsed + duration)
      && Budget(limit.Burst(), limit, evictions, duration) <= Budget(level, limit, evictions + 1, elapsed + duration)
      && (before >= 1.0 ==>
            1.0 + Budget(before - 1.0, limit, evictions, duration)
            <= Budget(level, limit, evictions, elapsed + duration))
  {
    hide Limit.Earned;
    EarnedNeverFalls(limit, elapsed);
    EarnedAdds(limit, elapsed, duration);
    SplitProduct(limit.Burst(), evictions as real, 1.0);
  }

  lemma {:induction false} AdmissionsDrawDownTheLevel(
      s: Store, calls: seq<Call>, key: string, limits: map<string, Limit>, clock: int)
    requires SoundStore(s, limits, clock) && key in limits && limits[key].Positive()
    requires Clocked(calls, clock) && Limited(calls, limits) && LegalRun(s, calls)
    ensures |Admitted(s, calls, key)| as real
         <= Budget(LevelOf(s, key, limits, clock), limits[key], Evictions(calls, key), ClockAfter(calls, clock) - clock)
    decreases |calls|
  {
    hide Step, Legal, SoundStore, Sound, Level, LevelOf, Limit.Earned, Advance;
    var limit := limits[key];
    LevelRises(s, key, limits, clock, clock);
    if calls == [] {
      NothingIsEarnedAtOnce(limit);
    } else {
      hide Budget;
      var c := calls[0];
      var next := Step(s, c).0;
      CallMovesLevels(s, c, limits, clock, key);
      AdmissionsDrawDownTheLevel(next, calls[1..], key, limits, c.now);
      var rest := ClockAfter(calls[1..], c.now) - c.now;
      assert ClockAfter(calls, clock) - clock == (c.now - clock) + rest;
      BudgetPays(LevelOf(s, key, limits, clock), limit, c.now - clock, Evictions(calls[1..], key), rest);
      NeverSelfEvicts(s, c);
    }
  }

  /** A run cut in two: the rest is a run from a sound store. */
  lemma CutRun(maxKeys: int, before: seq<Call>, rest: seq<Call>, limits: map<string, Limit>, start: int)
    requires Clocked(before + rest, start) && Limited(before + rest, limits) && LegalRun(New(maxKeys), before + rest)
    ensures SoundStore(Run(New(maxKeys), before), limits, ClockAfter(before, start))
    ensures Clocked(rest, ClockAfter(before, start)) && Limited(rest, limits)
    ensures LegalRun(Run(New(maxKeys), before), rest)
  {
    hide Step, Legal, Sound;
    RunJoins(New(maxKeys), before, rest);
    ClockJoins(before, rest, start);
    assert forall i :: 0 <= i < |before| ==> (before + rest)[i] == before[i];
    assert forall i :: 0 <= i < |rest| ==> (before + rest)[|before| + i] == rest[i];
    assert SoundStore(New(maxKeys), limits, start);
    RunStaysSound(New(maxKeys), before, limits, start);
  }

  /** Evictions included, any segment of any run admits a key at most its allowance once, once more
      for each time the segment evicts the key, and what its own duration earns. */
  lemma SegmentBound(
      maxKeys: int, before: seq<Call>, segment: seq<Call>, key: string, limits: map<string, Limit>, start: int)
    requires segment != [] && Clocked(before + segment, start) && Limited(before + segment, limits)
    requires LegalRun(New(maxKeys), before + segment) && key in limits && limits[key].Positive()
    ensures Affords(limits[key], |Admitted(Run(New(maxKeys), before), segment, key)|, 1 + Evictions(segment, key),
                    segment[|segment| - 1].now - segment[0].now)
  {
    hide Step, Legal, SoundStore, Sound, Level, LevelOf, Budget, Run, LegalRun, Admitted, Evictions, Limited;
    var limit, s := limits[key], Run(New(maxKeys), before);
    CutRun(maxKeys, before, segment, limits, start);
    var first, last := segment[0].now, segment[|segment| - 1].now;
    SoundLater(s, limits, ClockAfter(before, start), first);
    LevelRises(s, key, limits, first, first);
    AdmissionsDrawDownTheLevel(s, segment, key, limits, first);
    BudgetInIntegers(
      LevelOf(s, key, limits, first), limit, Evictions(segment, key), last - first, |Admitted(s, segment, key)|);
  }

  lemma BudgetInIntegers(level: real, limit: Limit, evictions: nat, duration: int, count: nat)
    requires limit.Positive() && level <= limit.Burst()
    requires count as real <= Budget(level, limit, evictions, duration)
    ensures Affords(limit, count, 1 + evictions, duration)
  {
    hide Limit.Earned;
    SplitProduct(limit.Burst(), evictions as real, 1.0);
    EarnedInIntegers(limit, duration, count, 1 + evictions);
  }

  lemma SoundLater(s: Store, limits: map<string, Limit>, clock: int, later: int)
    requires SoundStore(s, limits, clock) && clock <= later
    ensures SoundStore(s, limits, later)
  {
    hide Limit.Wait;
  }

  // ---------- the wait a refusal announces

  lemma {:induction false} LevelRisesUndisturbed(
      s: Store, calls: seq<Call>, key: string, limits: map<string, Limit>, clock: int)
    requires SoundStore(s, limits, clock) && key in limits && limits[key].Positive()
    requires Clocked(calls, clock) && Limited(calls, limits) && LegalRun(s, calls)
    requires Admitted(s, calls, key) == []
    ensures Evictions(calls, key) == 0 ==>
      LevelOf(Run(s, calls), key, limits, ClockAfter(calls, clock))
      == Advance(LevelOf(s, key, limits, clock), limits[key], ClockAfter(calls, clock) - clock)
    ensures Evictions(calls, key) > 0 ==>
      LevelOf(Run(s, calls), key, limits, ClockAfter(calls, clock)) == limits[key].Burst()
    decreases |calls|
  {
    hide Step, Legal, SoundStore, Sound, Level, LevelOf, Advance;
    var limit := limits[key];
    LevelRises(s, key, limits, clock, clock);
    if calls != [] {
      var c := calls[0];
      var next := Step(s, c).0;
      CallMovesLevels(s, c, limits, clock, key);
      LevelRisesUndisturbed(next, calls[1..], key, limits, c.now);
      NeverSelfEvicts(s, c);
      var end := ClockAfter(calls, clock);
      assert ClockAfter(calls[1..], c.now) == end;
      ClockJoins(calls[1..], [], c.now);
      AdvanceComposes(LevelOf(s, key, limits, clock), limit, c.now - clock, end - c.now);
      AdvanceKeepsRange(limit.Burst(), limit, end - c.now);
    }
  }
}
