/** Named allowances and the outcome of spending from one (app/services/throttle/throttle.go),
    with the arithmetic of refilling.

    Durations and instants are integers in nanoseconds; an instant counts from Go's zero time.
    Token counts and rates are exact reals where the program uses float64.

    `Earned`, `Wait` and `Whole` say what refilling, waiting and remaining mean, nanosecond by
    nanosecond and token by token; the program's formulas in seconds are proved to compute them. */
module Allowance {

  const SECOND: int := 1_000_000_000

  function Min(x: real, y: real): real {
    if x <= y then x else y
  }

  /** A duration in seconds, as `time.Duration.Seconds` gives it. */
  function Seconds(nanos: int): real {
    nanos as real / SECOND as real
  }

  /** The least integer not below `x`, as `math.Ceil`. */
  function Ceil(x: real): (n: int)
    ensures (n - 1) as real < x <= n as real
  {
    -((-x).Floor)
  }

  /** A float64 converted to an int: the fraction is dropped. */
  function Truncate(x: real): (n: int)
    ensures x >= 0.0 ==> n as real <= x < (n + 1) as real
    ensures x <= 0.0 ==> (n - 1) as real < x <= n as real
  {
    if x >= 0.0 then x.Floor else Ceil(x)
  }

  /** Rounded up, never negative: the shortest duration that is at least `seconds` long. */
  function SecondsToDuration(seconds: real): (nanos: int)
    ensures nanos >= 0 && Seconds(nanos) >= seconds
    ensures nanos > 0 ==> Seconds(nanos - 1) < seconds
  {
    if seconds <= 0.0 then 0 else Ceil(seconds * SECOND as real)
  }

  datatype Limit = Limit(name: string, requests: int, per: int) {
    function Key(identity: string): string {
      name + "|" + identity
    }

    function RefillPerSecond(): real {
      if per <= 0 || requests <= 0 then 0.0 else requests as real / Seconds(per)
    }

    predicate Positive() {
      per > 0 && requests > 0
    }

    function Burst(): real {
      requests as real
    }

    /** Tokens earned per nanosecond. */
    function Rate(): real
      requires Positive()
    {
      requests as real / per as real
    }

    /** Tokens earned in so many nanoseconds, or given back by going that far back. */
    function Earned(elapsed: int): real
      requires Positive()
      decreases if elapsed < 0 then -elapsed else elapsed
    {
      if elapsed == 0 then 0.0
      else if elapsed > 0 then Earned(elapsed - 1) + Rate()
      else Earned(elapsed + 1) - Rate()
    }

    predicate Earns(need: real, elapsed: int)
      requires Positive()
    {
      Earned(elapsed) >= need
    }

    /** `need` tokens are earned in `wait` nanoseconds and in no fewer. */
    ghost predicate IsWait(need: real, wait: int)
      requires Positive()
    {
      && wait >= 0 && Earns(need, wait)
      && forall sooner: int :: 0 <= sooner < wait ==> !Earns(need, sooner)
    }

    /** How long it takes to earn `need` tokens. */
    ghost function Wait(need: real): int
      requires Positive()
    {
      WaitExists(this, need);
      var wait :| IsWait(need, wait);
      wait
    }
  }

  datatype Decision = Decision(allowed: bool, limit: int, remaining: int, retryAfter: int, resetAt: int)

  /** The whole tokens in a level. */
  function Whole(level: real): int
    decreases if level < 0.0 then -level else level
  {
    if level >= 1.0 then Whole(level - 1.0) + 1
    else if level <= -1.0 then Whole(level + 1.0) - 1
    else 0
  }

  /** Keys start with their limit's name, and two limits with separator-free names share a key only
      if they are the same name and the same identity, whatever the identities contain. */
  lemma KeyIsInjective(first: Limit, second: Limit, firstIdentity: string, secondIdentity: string)
    requires '|' !in first.name && '|' !in second.name
    ensures first.Key(firstIdentity) == second.Key(secondIdentity)
       <==> first.name == second.name && firstIdentity == secondIdentity
    ensures first.name + "|" <= first.Key(firstIdentity)
  {
    var a, b := first.Key(firstIdentity), second.Key(secondIdentity);
    if a == b {
      assert a[|first.name|] == '|' && b[|second.name|] == '|';
      assert forall i :: 0 <= i < |first.name| ==> a[i] == first.name[i];
      assert forall i :: 0 <= i < |second.name| ==> b[i] == second.name[i];
      assert |first.name| == |second.name|;
      assert first.name == a[..|first.name|] == second.name;
      assert firstIdentity == a[|first.name| + 1..] == secondIdentity;
    }
  }

  // ---------- the program's formulas

  lemma RateInSeconds(limit: Limit)
    requires limit.Positive()
    ensures limit.Rate() > 0.0
    ensures limit.RefillPerSecond() == limit.Rate() * SECOND as real
  {
    var requests, per := limit.requests as real, limit.per as real;
    assert requests / (per / 1000000000.0) == requests / per * 1000000000.0;
  }

  /** A limit permits nothing exactly when its rate is not positive. */
  lemma PositiveRefills(limit: Limit)
    ensures limit.RefillPerSecond() > 0.0 <==> limit.Positive()
  {
    if limit.Positive() {
      RateInSeconds(limit);
    }
  }

  lemma {:induction false} EarnedAtTheRate(limit: Limit, elapsed: int)
    requires limit.Positive()
    ensures limit.Earned(elapsed) == limit.Rate() * elapsed as real
    decreases if elapsed < 0 then -elapsed else elapsed
  {
    var rate := limit.Rate();
    hide Limit.Rate;
    if elapsed > 0 {
      EarnedAtTheRate(limit, elapsed - 1);
      SplitProduct(rate, (elapsed - 1) as real, 1.0);
    } else if elapsed < 0 {
      EarnedAtTheRate(limit, elapsed + 1);
      SplitProduct(rate, elapsed as real, 1.0);
    }
  }

  lemma SplitProduct(rate: real, x: real, y: real)
    ensures rate * (x + y) == rate * x + rate * y
  {}

  /** Refilling: the elapsed seconds times the rate per second is what the nanoseconds earn. */
  lemma RefillIsEarned(limit: Limit, elapsed: int)
    requires limit.Positive()
    ensures Seconds(elapsed) * limit.RefillPerSecond() == limit.Earned(elapsed)
  {
    RateInSeconds(limit);
    EarnedAtTheRate(limit, elapsed);
    Regroup(elapsed as real, SECOND as real, limit.Rate());
  }

  lemma Regroup(elapsed: real, second: real, rate: real)
    requires second > 0.0
    ensures elapsed / second * (rate * second) == rate * elapsed
  {
    var q := elapsed / second;
    assert q * second == elapsed;
    assert q * (rate * second) == rate * (q * second);
  }

  lemma DividesAcross(need: real, refill: real, x: real)
    requires refill > 0.0
    ensures x >= need / refill <==> x * refill >= need
  {
    var q := need / refill;
    assert q * refill == need;
    assert x * refill - need == (x - q) * refill;
    if x >= q { assert (x - q) * refill >= 0.0; } else { assert (x - q) * refill < 0.0; }
  }

  lemma EarnsInSeconds(limit: Limit, need: real, elapsed: int)
    requires limit.Positive()
    ensures limit.RefillPerSecond() > 0.0
    ensures limit.Earns(need, elapsed) <==> Seconds(elapsed) >= need / limit.RefillPerSecond()
  {
    hide Limit.RefillPerSecond, Limit.Earned, Seconds;
    PositiveRefills(limit);
    RefillIsEarned(limit, elapsed);
    DividesAcross(need, limit.RefillPerSecond(), Seconds(elapsed));
  }

  /** The wait the program computes is a least wait. */
  lemma ComputedWait(limit: Limit, need: real)
    requires limit.Positive()
    ensures limit.RefillPerSecond() > 0.0
    ensures limit.IsWait(need, SecondsToDuration(need / limit.RefillPerSecond()))
  {
    hide Limit.RefillPerSecond, Limit.Earns, SecondsToDuration;
    PositiveRefills(limit);
    var seconds := need / limit.RefillPerSecond();
    var wait := SecondsToDuration(seconds);
    EarnsInSeconds(limit, need, wait);
    forall sooner: int | 0 <= sooner < wait
      ensures !limit.Earns(need, sooner)
    {
      EarnsInSeconds(limit, need, sooner);
      assert Seconds(sooner) <= Seconds(wait - 1) < seconds;
    }
  }

  lemma WaitExists(limit: Limit, need: real)
    requires limit.Positive()
    ensures exists wait :: limit.IsWait(need, wait)
  {
    ComputedWait(limit, need);
  }

  /** Waiting: rounding the shortfall over the rate up to a nanosecond gives the least wait. */
  lemma WaitIsComputed(limit: Limit, need: real)
    requires limit.Positive()
    ensures SecondsToDuration(need / limit.RefillPerSecond()) == limit.Wait(need)
  {
    hide Limit.RefillPerSecond, Limit.Earns, SecondsToDuration;
    ComputedWait(limit, need);
  }

  /** Remaining: dropping the fraction counts the whole tokens. */
  lemma {:induction false} TruncateIsWhole(level: real)
    ensures Truncate(level) == Whole(level)
    decreases if level < 0.0 then -level else level
  {
    if level >= 1.0 {
      TruncateIsWhole(level - 1.0);
      OneTokenLess(level);
    } else if level <= -1.0 {
      TruncateIsWhole(level + 1.0);
      OneTokenMore(level);
    }
  }

  lemma OneTokenLess(level: real)
    requires level >= 1.0
    ensures Truncate(level) == Truncate(level - 1.0) + 1
  {}

  lemma OneTokenMore(level: real)
    requires level <= -1.0
    ensures Truncate(level) == Truncate(level + 1.0) - 1
  {}

  // ---------- what refilling keeps

  lemma EarnedAdds(limit: Limit, first: int, second: int)
    requires limit.Positive()
    ensures limit.Earned(first + second) == limit.Earned(first) + limit.Earned(second)
  {
    hide Limit.Rate, Limit.Earned;
    EarnedAtTheRate(limit, first);
    EarnedAtTheRate(limit, second);
    EarnedAtTheRate(limit, first + second);
    SplitProduct(limit.Rate(), first as real, second as real);
  }

  lemma EarnedNeverFalls(limit: Limit, elapsed: int)
    requires limit.Positive() && elapsed >= 0
    ensures limit.Earned(elapsed) >= 0.0
  {
    hide Limit.Earned;
    RateInSeconds(limit);
    EarnedAtTheRate(limit, elapsed);
  }

  /** A wait has passed exactly when enough has been earned. */
  lemma WaitIsLeast(limit: Limit, need: real, elapsed: int)
    requires limit.Positive() && elapsed >= 0
    ensures limit.Wait(need) <= elapsed <==> limit.Earned(elapsed) >= need
    ensures limit.Wait(need) >= 0
  {
    hide Limit.Rate, Limit.Earned;
    WaitExists(limit, need);
    var wait := limit.Wait(need);
    assert limit.IsWait(need, wait);
    if wait <= elapsed {
      EarnedAdds(limit, wait, elapsed - wait);
      EarnedNeverFalls(limit, elapsed - wait);
    } else {
      assert !limit.Earns(need, elapsed);
    }
  }

  /** A whole allowance is earned in exactly the window. */
  lemma BurstTakesTheWindow(limit: Limit)
    requires limit.Positive()
    ensures limit.Earned(limit.per) == limit.Burst()
    ensures limit.Wait(limit.Burst()) <= limit.per
  {
    EarnedAtTheRate(limit, limit.per);
    hide Limit.Wait, Limit.Earned;
    WaitIsLeast(limit, limit.Burst(), limit.per);
  }

  /** So many whole allowances and what a duration earns pay for so many admissions. */
  predicate Affords(limit: Limit, admissions: int, allowances: int, duration: int) {
    admissions * limit.per <= limit.requests * (allowances * limit.per + duration)
  }

  /** The same in tokens. */
  lemma EarnedInIntegers(limit: Limit, elapsed: int, count: int, allowances: int)
    requires limit.Positive()
    ensures count as real <= limit.Burst() * allowances as real + limit.Earned(elapsed)
       <==> Affords(limit, count, allowances, elapsed)
  {
    hide Limit.Earned;
    EarnedAtTheRate(limit, elapsed);
    var requests, per, rate := limit.requests as real, limit.per as real, limit.Rate();
    assert rate * per == requests;
    var gap := requests * allowances as real + rate * elapsed as real - count as real;
    assert gap * per == (limit.requests * (allowances * limit.per + elapsed) - count * limit.per) as real by {
      assert rate * elapsed as real * per == requests * elapsed as real;
      Scale(requests, allowances as real, rate * elapsed as real, count as real, per);
      CastProducts(limit.requests, allowances, limit.per, elapsed, count);
    }
    if gap >= 0.0 { assert gap * per >= 0.0; } else { assert gap * per < 0.0; }
  }

  lemma Scale(requests: real, allowances: real, earned: real, count: real, per: real)
    ensures (requests * allowances + earned - count) * per == requests * (allowances * per) + earned * per - count * per
  {}

  lemma CastProducts(requests: int, allowances: int, per: int, elapsed: int, count: int)
    ensures (requests * (allowances * per + elapsed) - count * per) as real
         == requests as real * (allowances as real * per as real) + requests as real * elapsed as real
            - count as real * per as real
  {
    CastProduct(allowances, per);
    CastProduct(count, per);
    CastProduct(requests, elapsed);
    CastProduct(requests, allowances * per);
  }

  lemma CastProduct(x: int, y: int)
    ensures (x * y) as real == x as real * y as real
  {}
}
