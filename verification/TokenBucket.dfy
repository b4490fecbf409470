/** The token-bucket rate limiter that guards every downstream service of the gateway.
  * Tokens and times are reals; every locked call of `Allow` is one atomic step that reads the
  * clock once, so a run is the sequence of clock readings of its calls. */
module TokenBucket {

  datatype Limits = Limits(rate: real, burst: real) {
    ghost predicate Valid() {
      0.0 <= rate && 0.0 <= burst
    }
  }

  datatype Bucket = Bucket(tokens: real, lastRefill: real)

  function Min(a: real, b: real): real {
    if b < a then b else a
  }

  function Fresh(limits: Limits, now: real): Bucket {
    Bucket(limits.burst, now)
  }

  /** Tokens earned in `elapsed` seconds. */
  function Gain(limits: Limits, elapsed: real): real {
    elapsed * limits.rate
  }

  /** The balance after refilling at time `now`, capped at the burst capacity. */
  function Refilled(limits: Limits, bucket: Bucket, now: real): real {
    Min(limits.burst, bucket.tokens + Gain(limits, now - bucket.lastRefill))
  }

  predicate Admits(limits: Limits, bucket: Bucket, now: real) {
    1.0 <= Refilled(limits, bucket, now)
  }

  /** Refill at `now`, then spend one token when `take` says so. */
  function Spend(limits: Limits, bucket: Bucket, now: real, take: bool): Bucket {
    Bucket(Refilled(limits, bucket, now) - (if take then 1.0 else 0.0), now)
  }

  /** The bucket after one call of Allow at time `now`. */
  function Step(limits: Limits, bucket: Bucket, now: real): Bucket {
    Spend(limits, bucket, now, Admits(limits, bucket, now))
  }

  class TokenBucketRateLimiter {
    var tokens: real
    var lastRefill: real
    const limits: Limits

    function Model(): Bucket
      reads this
    {
      Bucket(tokens, lastRefill)
    }

    constructor (ratePerSecond: real, burstCapacity: real, now: real)
      ensures limits == Limits(ratePerSecond, burstCapacity)
      ensures Model() == Fresh(limits, now)
    {
      limits := Limits(ratePerSecond, burstCapacity);
      tokens := burstCapacity;
      lastRefill := now;
    }

    method Allow(now: real) returns (allowed: bool)
      modifies this
      ensures allowed == Admits(limits, old(Model()), now)
      ensures Model() == Step(limits, old(Model()), now)
      ensures
        var earned := old(tokens) + limits.rate * (now - old(lastRefill));
        var refilled := if limits.burst < earned then limits.burst else earned;
        (allowed <==> refilled >= 1.0) && tokens == refilled - (if allowed then 1.0 else 0.0) && lastRefill == now
    {
      var elapsed := now - lastRefill;
      tokens := Min(limits.burst, tokens + Gain(limits, elapsed));
      lastRefill := now;
      if tokens < 1.0 {
        return false;
      }
      tokens := tokens - 1.0;
      return true;
    }
  }

  /** The bucket after the first `n` calls, the k-th of them made at `times[k]`. */
  function After(limits: Limits, start: Bucket, times: seq<real>, n: nat): Bucket
    requires n <= |times|
  {
    if n == 0 then start else Step(limits, After(limits, start, times, n - 1), times[n - 1])
  }

  /** What the k-th call answered. */
  predicate Answer(limits: Limits, start: Bucket, times: seq<real>, k: nat)
    requires k < |times|
  {
    Admits(limits, After(limits, start, times, k), times[k])
  }

  /** Call times never go back: the clock is steady and read under the lock. */
  ghost predicate Steady(start: real, times: seq<real>) {
    && (forall k | 0 <= k < |times| :: start <= times[k])
    && (forall j, k | 0 <= j <= k < |times| :: times[j] <= times[k])
  }

  /** Calls admitted among those with index in [i, n). */
  function Admitted(limits: Limits, start: Bucket, times: seq<real>, i: nat, n: nat): nat
    requires i <= n <= |times|
  {
    if i == n then 0
    else Admitted(limits, start, times, i, n - 1) + (if Answer(limits, start, times, n - 1) then 1 else 0)
  }

  /** Calls admitted among the first `n` whose time lies in [from, to]. */
  function AdmittedWithin(limits: Limits, start: Bucket, times: seq<real>, n: nat, from: real, to: real): nat
    requires n <= |times|
  {
    if n == 0 then 0
    else
      AdmittedWithin(limits, start, times, n - 1, from, to)
      + (if from <= times[n - 1] <= to && Answer(limits, start, times, n - 1) then 1 else 0)
  }

  /** Later calls change nothing about earlier ones. */
  lemma {:induction false} EarlierCallsStand(limits: Limits, start: Bucket, times: seq<real>, later: real, n: nat)
    requires n <= |times|
    ensures After(limits, start, times + [later], n) == After(limits, start, times, n)
    ensures n < |times| ==> Answer(limits, start, times + [later], n) == Answer(limits, start, times, n)
  {
    if n > 0 {
      EarlierCallsStand(limits, start, times, later, n - 1);
    }
  }

  // -------------------------------------------------------------------------------------------
  // Reachable balances
  // -------------------------------------------------------------------------------------------

  lemma GainIsRate(limits: Limits, elapsed: real)
    ensures Gain(limits, elapsed) == limits.rate * elapsed
  {
  }

  lemma GainGrows(limits: Limits, elapsed: real)
    requires limits.Valid() && 0.0 <= elapsed
    ensures 0.0 <= Gain(limits, elapsed)
  {
  }

  lemma GainAdds(limits: Limits, earlier: real, middle: real, later: real)
    ensures Gain(limits, later - earlier) == Gain(limits, middle - earlier) + Gain(limits, later - middle)
  {
  }

  lemma {:induction false} TokensStayInRange(limits: Limits, start: Bucket, times: seq<real>, n: nat)
    requires limits.Valid() && n <= |times|
    requires 0.0 <= start.tokens <= limits.burst && Steady(start.lastRefill, times)
    ensures 0.0 <= After(limits, start, times, n).tokens <= limits.burst
    ensures n > 0 ==> After(limits, start, times, n).lastRefill == times[n - 1]
    ensures n == 0 ==> After(limits, start, times, n).lastRefill == start.lastRefill
  {
    if n > 0 {
      TokensStayInRange(limits, start, times, n - 1);
      var before := After(limits, start, times, n - 1);
      GainGrows(limits, times[n - 1] - before.lastRefill);
    }
  }

  // -------------------------------------------------------------------------------------------
  // A history-only description of the limiter: it admits a call exactly when doing so keeps every
  // window that starts at an earlier call within burst + rate * length
  // -------------------------------------------------------------------------------------------

  /** The room left at time `now` by the window that opened with call `i`. */
  ghost function Room(limits: Limits, start: Bucket, times: seq<real>, i: nat, n: nat, now: real): real
    requires i <= n <= |times| && i < |times|
  {
    limits.burst + limits.rate * (now - times[i]) - Admitted(limits, start, times, i, n) as real
  }

  lemma RoomShifts(limits: Limits, start: Bucket, times: seq<real>, i: nat, n: nat, at: real, now: real)
    requires i <= n <= |times| && i < |times|
    ensures Room(limits, start, times, i, n, now) == Room(limits, start, times, i, n, at) + Gain(limits, now - at)
  {
    hide Gain;
    GainAdds(limits, times[i], at, now);
    GainIsRate(limits, now - times[i]);
    GainIsRate(limits, at - times[i]);
  }

  /** What the last call did to the room of an earlier window it did to the balance, up to the cap. */
  lemma EarlierWindow(limits: Limits, start: Bucket, times: seq<real>, i: nat, n: nat)
    requires n <= |times| && i + 1 < n
    ensures Room(limits, start, times, i, n, times[n - 1]) - After(limits, start, times, n).tokens
         == Room(limits, start, times, i, n - 1, times[n - 2]) + Gain(limits, times[n - 1] - times[n - 2])
            - Refilled(limits, After(limits, start, times, n - 1), times[n - 1])
  {
    hide Gain, Refilled;
    RoomShifts(limits, start, times, i, n - 1, times[n - 2], times[n - 1]);
  }

  lemma LatestWindow(limits: Limits, start: Bucket, times: seq<real>, n: nat)
    requires 0 < n <= |times|
    ensures Room(limits, start, times, n - 1, n, times[n - 1]) - After(limits, start, times, n).tokens
         == limits.burst - Refilled(limits, After(limits, start, times, n - 1), times[n - 1])
  {
    hide Refilled;
    assert Admitted(limits, start, times, n - 1, n - 1) == 0;
    assert limits.rate * (times[n - 1] - times[n - 1]) == 0.0;
  }

  /** After call n - 1 no window has less room than there are tokens, and some window has exactly
    * that much: the bucket is the tightest of its windows. */
  lemma {:induction false} TokensAreTheTightestWindow(limits: Limits, t0: real, times: seq<real>, n: nat)
    returns (tightest: nat)
    requires limits.Valid() && 0 < n <= |times| && Steady(t0, times)
    ensures
      var start := Fresh(limits, t0);
      var bucket := After(limits, start, times, n);
      && (forall i: nat {:trigger times[i]} | i < n :: bucket.tokens <= Room(limits, start, times, i, n, times[n - 1]))
      && tightest < n
      && bucket.tokens == Room(limits, start, times, tightest, n, times[n - 1])
  {
    hide Room, Gain, After;
    var start := Fresh(limits, t0);
    var before, now := After(limits, start, times, n - 1), times[n - 1];
    TokensStayInRange(limits, start, times, n - 1);
    GainGrows(limits, now - before.lastRefill);
    LatestWindow(limits, start, times, n);
    tightest := n - 1;
    if n > 1 {
      var earlier := TokensAreTheTightestWindow(limits, t0, times, n - 1);
      forall i: nat | i < n - 1
        ensures Room(limits, start, times, i, n, now) - After(limits, start, times, n).tokens
             == Room(limits, start, times, i, n - 1, times[n - 2])
                + Gain(limits, now - times[n - 2]) - Refilled(limits, before, now)
        ensures before.tokens <= Room(limits, start, times, i, n - 1, times[n - 2])
      {
        assert times[i] <= now;
        EarlierWindow(limits, start, times, i, n);
      }
      if Refilled(limits, before, now) < limits.burst {
        tightest := earlier;
      }
    } else {
      NoCallYet(limits, start, times);
    }
  }

  lemma NoCallYet(limits: Limits, start: Bucket, times: seq<real>)
    ensures After(limits, start, times, 0) == start
  {
  }

  /** Admission stated over the history of calls alone, with no bucket in sight. */
  ghost predicate WindowsAllow(limits: Limits, start: Bucket, times: seq<real>, n: nat)
    requires n < |times|
  {
    && 1.0 <= limits.burst
    && forall i: nat | i < n ::
         (Admitted(limits, start, times, i, n) + 1) as real <= limits.burst + limits.rate * (times[n] - times[i])
  }

  lemma RoomAtCall(limits: Limits, start: Bucket, times: seq<real>, n: nat)
    requires n < |times|
    ensures WindowsAllow(limits, start, times, n) <==>
              1.0 <= limits.burst && forall i: nat | i < n :: 1.0 <= Room(limits, start, times, i, n, times[n])
  {
    hide Admitted;
    forall i: nat | i < n
      ensures (Admitted(limits, start, times, i, n) + 1) as real <= limits.burst + limits.rate * (times[n] - times[i])
              <==> 1.0 <= Room(limits, start, times, i, n, times[n])
    {
    }
  }

  /** The limiter admits a call exactly when that keeps every window that began at an earlier call. */
  lemma AllowKeepsEveryWindow(limits: Limits, t0: real, times: seq<real>, n: nat)
    requires limits.Valid() && n < |times| && Steady(t0, times)
    ensures
      var start := Fresh(limits, t0);
      Answer(limits, start, times, n) <==> WindowsAllow(limits, start, times, n)
  {
    hide Room, Gain, WindowsAllow;
    var start := Fresh(limits, t0);
    var bucket := After(limits, start, times, n);
    RoomAtCall(limits, start, times, n);
    TokensStayInRange(limits, start, times, n);
    GainGrows(limits, times[n] - bucket.lastRefill);
    if n > 0 {
      var tightest := TokensAreTheTightestWindow(limits, t0, times, n);
      forall i: nat | i < n
        ensures Room(limits, start, times, i, n, times[n])
             == Room(limits, start, times, i, n, times[n - 1]) + Gain(limits, times[n] - times[n - 1])
        ensures bucket.tokens <= Room(limits, start, times, i, n, times[n - 1])
      {
        assert times[i] <= times[n];
        RoomShifts(limits, start, times, i, n, times[n - 1], times[n]);
      }
      if !Answer(limits, start, times, n) {
        assert limits.burst < 1.0 || Room(limits, start, times, tightest, n, times[n]) < 1.0;
      }
    }
  }

  // -------------------------------------------------------------------------------------------
  // The bound on every time window
  // -------------------------------------------------------------------------------------------

  /** In terms of the tokens a window earns: as long as no call lies after `to`, calls admitted since `from`
    * plus the tokens still held fit in the window that ends with the last call. */
  lemma {:induction false} OpenWindowBound(
      limits: Limits, start: Bucket, times: seq<real>, n: nat, from: real, to: real)
    requires limits.Valid() && n <= |times| && Steady(start.lastRefill, times)
    requires 0.0 <= start.tokens <= limits.burst
    requires n > 0 ==> times[n - 1] <= to
    ensures n == 0 || times[n - 1] < from ==> AdmittedWithin(limits, start, times, n, from, to) == 0
    ensures n > 0 && from <= times[n - 1] ==>
      AdmittedWithin(limits, start, times, n, from, to) as real + After(limits, start, times, n).tokens
        <= limits.burst + Gain(limits, times[n - 1] - from)
  {
    if n > 0 {
      OpenWindowBound(limits, start, times, n - 1, from, to);
      TokensStayInRange(limits, start, times, n - 1);
      if from <= times[n - 1] {
        GainGrows(limits, times[n - 1] - from);
        if n > 1 && from <= times[n - 2] {
          GainAdds(limits, from, times[n - 2], times[n - 1]);
        }
      }
    }
  }

  lemma {:induction false} EarnedBound(
      limits: Limits, start: Bucket, times: seq<real>, n: nat, from: real, to: real)
    requires limits.Valid() && n <= |times| && Steady(start.lastRefill, times)
    requires 0.0 <= start.tokens <= limits.burst && from <= to
    ensures AdmittedWithin(limits, start, times, n, from, to) as real <= limits.burst + Gain(limits, to - from)
  {
    GainGrows(limits, to - from);
    if n > 0 {
      if to < times[n - 1] {
        EarnedBound(limits, start, times, n - 1, from, to);
      } else {
        OpenWindowBound(limits, start, times, n, from, to);
        TokensStayInRange(limits, start, times, n);
        GainAdds(limits, from, times[n - 1], to);
        GainGrows(limits, to - times[n - 1]);
      }
    }
  }

  /** In every run and every window [from, to], at most burst + rate * length calls are admitted. */
  lemma WindowBound(limits: Limits, start: Bucket, times: seq<real>, n: nat, from: real, to: real)
    requires limits.Valid() && n <= |times| && Steady(start.lastRefill, times)
    requires 0.0 <= start.tokens <= limits.burst && from <= to
    ensures AdmittedWithin(limits, start, times, n, from, to) as real <= limits.burst + limits.rate * (to - from)
  {
    hide Gain, AdmittedWithin;
    EarnedBound(limits, start, times, n, from, to);
    GainIsRate(limits, to - from);
  }

  // -------------------------------------------------------------------------------------------
  // Greedy optimality
  // -------------------------------------------------------------------------------------------

  /** The bucket when admissions follow `choices` instead of the limiter's own rule. */
  function Following(limits: Limits, start: Bucket, times: seq<real>, choices: seq<bool>, n: nat): Bucket
    requires n <= |times| && n <= |choices|
  {
    if n == 0 then start
    else Spend(limits, Following(limits, start, times, choices, n - 1), times[n - 1], choices[n - 1])
  }

  /** A policy respects the bucket when its balance never drops below zero. */
  ghost predicate Respects(limits: Limits, start: Bucket, times: seq<real>, choices: seq<bool>, n: nat)
    requires n <= |times| && n <= |choices|
  {
    forall k: nat | k <= n :: 0.0 <= Following(limits, start, times, choices, k).tokens
  }

  function Chosen(choices: seq<bool>, n: nat): nat
    requires n <= |choices|
  {
    if n == 0 then 0 else Chosen(choices, n - 1) + (if choices[n - 1] then 1 else 0)
  }

  /** At every prefix the limiter has admitted at least as many calls as any policy that respects
    * the same bucket, and what it saved up by admitting more covers its smaller balance. */
  lemma {:induction false} GreedyIsOptimal(limits: Limits, start: Bucket, times: seq<real>, choices: seq<bool>, n: nat)
    requires limits.Valid() && n <= |times| && n <= |choices|
    requires Respects(limits, start, times, choices, n)
    ensures Chosen(choices, n) <= Admitted(limits, start, times, 0, n)
    ensures Following(limits, start, times, choices, n).tokens + Chosen(choices, n) as real
         <= After(limits, start, times, n).tokens + Admitted(limits, start, times, 0, n) as real
    ensures Following(limits, start, times, choices, n).lastRefill == After(limits, start, times, n).lastRefill
  {
    if n > 0 {
      GreedyIsOptimal(limits, start, times, choices, n - 1);
      var theirs, ours := Following(limits, start, times, choices, n - 1), After(limits, start, times, n - 1);
      var lead := Admitted(limits, start, times, 0, n - 1) - Chosen(choices, n - 1);
      assert Refilled(limits, theirs, times[n - 1]) <= Refilled(limits, ours, times[n - 1]) + lead as real;
      assert 0.0 <= Following(limits, start, times, choices, n).tokens;
      assert choices[n - 1] && !Answer(limits, start, times, n - 1) ==> 0.0 < lead as real;
    }
  }

  /** The limiter's own answers are one of the policies it is compared with, so the optimum is attained. */
  lemma {:induction false} GreedyRespectsTheBucket(
      limits: Limits, start: Bucket, times: seq<real>, choices: seq<bool>, n: nat)
    requires limits.Valid() && n <= |times| && n <= |choices|
    requires 0.0 <= start.tokens <= limits.burst && Steady(start.lastRefill, times)
    requires forall k: nat | k < n :: choices[k] == Answer(limits, start, times, k)
    ensures Respects(limits, start, times, choices, n)
    ensures Chosen(choices, n) == Admitted(limits, start, times, 0, n)
    ensures Following(limits, start, times, choices, n) == After(limits, start, times, n)
  {
    if n > 0 {
      GreedyRespectsTheBucket(limits, start, times, choices, n - 1);
      TokensStayInRange(limits, start, times, n);
    }
  }
}
