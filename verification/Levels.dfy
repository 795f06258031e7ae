/** A call moves levels, and nothing else about the buckets matters: on a non-decreasing clock
    the sweeps, the lazy refills and the stored `fullAt` all vanish from the decisions. */
module Levels {
  import opened Allowance
  import opened TokenBucket
  import opened BoundedStore

  /** What a non-decreasing clock keeps true of the store. */
  ghost predicate SoundStore(s: Store, limits: map<string, Limit>, clock: int) {
    s.maxKeys >= 1 &&
    forall key :: key in s.buckets ==> key in limits && Sound(s.buckets[key], limits[key], clock)
  }

  function LevelOf(s: Store, key: string, limits: map<string, Limit>, at: int): real
    requires key in limits && limits[key].Positive()
  {
    Level(s.buckets, key, limits[key], at)
  }

  lemma LevelRises(s: Store, key: string, limits: map<string, Limit>, clock: int, now: int)
    requires SoundStore(s, limits, clock) && clock <= now
    requires key in limits && limits[key].Positive()
    ensures LevelOf(s, key, limits, now) == Advance(LevelOf(s, key, limits, clock), limits[key], now - clock)
    ensures 0.0 <= LevelOf(s, key, limits, clock) <= limits[key].Burst()
  {
    var limit := limits[key];
    if key in s.buckets {
      var entry := s.buckets[key];
      assert Sound(entry, limit, clock);
      AdvanceKeepsRange(entry.tokens, limit, clock - entry.seenAt);
      AdvanceComposes(entry.tokens, limit, clock - entry.seenAt, now - clock);
    } else {
      AdvanceKeepsRange(limit.Burst(), limit, now - clock);
    }
  }

  /** The sweep is lossless: it moves no level. */
  lemma SweepMovesNoLevel(s: Store, limits: map<string, Limit>, clock: int, now: int, forced: bool, key: string)
    requires SoundStore(s, limits, clock) && clock <= now
    requires key in limits && limits[key].Positive()
    ensures SoundStore(Sweep(s, now, forced), limits, clock)
    ensures LevelOf(Sweep(s, now, forced), key, limits, now) == LevelOf(s, key, limits, now)
  {
    if key in s.buckets {
      FullFromFullAt(s.buckets[key], limits[key], clock, now);
    }
  }

  lemma MakeRoomMovesNoLevel(
      s: Store, limits: map<string, Limit>, clock: int, now: int, evicted: set<string>, key: string)
    requires SoundStore(s, limits, clock) && clock <= now && EvictionChoice(s, now, evicted)
    requires key in limits && limits[key].Positive()
    ensures SoundStore(MakeRoom(s, now, evicted), limits, clock)
    ensures LevelOf(MakeRoom(s, now, evicted), key, limits, now)
         == if key in evicted then limits[key].Burst() else LevelOf(s, key, limits, now)
  {
    hide StalestFirst, Advance, Limit.Wait, Limit.Earned;
    SweepMovesNoLevel(s, limits, clock, now, true, key);
  }

  /** The whole effect of a call: the clock has raised every level, the caller's level decides and
      is spent from, an evicted key is back at its whole allowance. */
  lemma CallMovesLevels(s: Store, c: Call, limits: map<string, Limit>, clock: int, key: string)
    requires SoundStore(s, limits, clock) && clock <= c.now && Legal(s, c)
    requires c.key in limits && c.limit == limits[c.key] && c.limit.Positive()
    requires key in limits && limits[key].Positive()
    ensures var (next, decision) := Step(s, c);
      var before := Advance(LevelOf(s, key, limits, clock), limits[key], c.now - clock);
      && SoundStore(next, limits, c.now)
      && (key == c.key ==> decision == Decide(before, c.limit, c.now))
      && LevelOf(next, key, limits, c.now)
         == if key == c.key then Spent(before) else if key in c.evicted then limits[key].Burst() else before
  {
    hide EvictionChoice, StalestFirst, MakeRoom, Sweep, Refilled, Spend, Spent, Decide, Advance, Limit.Wait,
      Limit.Earned;
    var swept := Sweep(s, c.now, false);
    SweepMovesNoLevel(s, limits, clock, c.now, false, c.key);
    SweepMovesNoLevel(s, limits, clock, c.now, false, key);
    LevelRises(s, key, limits, clock, c.now);
    LevelRises(s, c.key, limits, clock, c.now);
    EntryStandsAtTheLevel(swept, c, limits, clock);
    var entry := Entry(swept.buckets, c);
    LevelRises(swept, c.key, limits, clock, c.now);
    AdvanceKeepsRange(LevelOf(swept, c.key, limits, clock), c.limit, c.now - clock);
    SpendFollowsTheLevel(entry, c.limit, c.now);
    if c.key !in swept.buckets {
      MakeRoomMovesNoLevel(swept, limits, clock, c.now, c.evicted, key);
    }
    var next := Step(s, c).0;
    SpentStandsStill(entry.tokens, c.limit);
    assert next.buckets[c.key] == Spend(entry, c.limit, c.now).0;
  }

  lemma EntryStandsAtTheLevel(s: Store, c: Call, limits: map<string, Limit>, clock: int)
    requires SoundStore(s, limits, clock) && clock <= c.now
    requires c.key in limits && c.limit == limits[c.key] && c.limit.Positive()
    ensures Entry(s.buckets, c).seenAt == c.now
    ensures Entry(s.buckets, c).tokens == LevelOf(s, c.key, limits, c.now)
  {
    if c.key in s.buckets {
      RefilledIsAdvance(s.buckets[c.key], c.limit, c.now);
    }
  }

  lemma SpentStandsStill(level: real, limit: Limit)
    requires limit.Positive() && 0.0 <= level <= limit.Burst()
    ensures Advance(Spent(level), limit, 0) == Spent(level)
  {}
}
