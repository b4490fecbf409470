/** The three-state circuit breaker of the gateway. Each locked method is one atomic step; a run is
  * the sequence of method calls with the clock readings they could make. */
module CircuitBreaker {

  datatype Policy = Policy(failureThreshold: int, coolDown: real)

  datatype Position = Closed | Open | HalfOpen

  datatype Breaker = Breaker(position: Position, failures: int, openedAt: real)

  datatype Event =
    | Ask(at: real)
    | Succeed(at: real)
    | Fail(at: real)

  const FRESH := Breaker(Closed, 0, 0.0)

  predicate Permits(policy: Policy, breaker: Breaker, now: real) {
    breaker.position != Open || now - breaker.openedAt >= policy.coolDown
  }

  function AfterAsk(policy: Policy, breaker: Breaker, now: real): Breaker {
    if breaker.position == Open && Permits(policy, breaker, now) then breaker.(position := HalfOpen)
    else breaker
  }

  function AfterSuccess(breaker: Breaker): Breaker {
    breaker.(position := Closed, failures := 0)
  }

  function AfterFailure(policy: Policy, breaker: Breaker, now: real): Breaker {
    var failures := breaker.failures + 1;
    if failures >= policy.failureThreshold then Breaker(Open, failures, now)
    else breaker.(failures := failures)
  }

  function Step(policy: Policy, breaker: Breaker, event: Event): Breaker {
    match event
    case Ask(at) => AfterAsk(policy, breaker, at)
    case Succeed(_) => AfterSuccess(breaker)
    case Fail(at) => AfterFailure(policy, breaker, at)
  }

  class CircuitBreaker {
    var position: Position
    const policy: Policy
    var failureCount: int
    var openedAt: real

    function Model(): Breaker
      reads this
    {
      Breaker(position, failureCount, openedAt)
    }

    constructor (failureThreshold: int, coolDown: real)
      ensures policy == Policy(failureThreshold, coolDown)
      ensures Model() == FRESH
    {
      policy := Policy(failureThreshold, coolDown);
      position, failureCount, openedAt := Closed, 0, 0.0;
    }

    method AllowRequest(now: real) returns (allowed: bool)
      modifies this
      ensures allowed == Permits(policy, old(Model()), now)
      ensures Model() == Step(policy, old(Model()), Ask(now))
    {
      if position == Closed || position == HalfOpen {
        return true;
      }
      if now - openedAt >= policy.coolDown {
        position := HalfOpen;
        return true;
      }
      return false;
    }

    method RecordSuccess(now: real)
      modifies this
      ensures Model() == Step(policy, old(Model()), Succeed(now))
    {
      failureCount := 0;
      position := Closed;
    }

    method RecordFailure(now: real)
      modifies this
      ensures Model() == Step(policy, old(Model()), Fail(now))
    {
      failureCount := failureCount + 1;
      if failureCount >= policy.failureThreshold {
        position := Open;
        openedAt := now;
      }
    }
  }

  /** The breaker after the first `n` events of a run. */
  function After(policy: Policy, events: seq<Event>, n: nat): Breaker
    requires n <= |events|
  {
    if n == 0 then FRESH else Step(policy, After(policy, events, n - 1), events[n - 1])
  }

  ghost predicate Steady(events: seq<Event>) {
    forall j, k | 0 <= j <= k < |events| :: events[j].at <= events[k].at
  }

  // -------------------------------------------------------------------------------------------
  // The history the breaker stands for
  // -------------------------------------------------------------------------------------------

  /** Index just past the last success among the first `n` events, 0 if there was none. */
  function SinceSuccess(events: seq<Event>, n: nat): (i: nat)
    requires n <= |events|
    ensures i <= n
    ensures i > 0 ==> events[i - 1].Succeed?
    ensures forall k | i <= k < n :: !events[k].Succeed?
  {
    if n == 0 then 0
    else if events[n - 1].Succeed? then n
    else SinceSuccess(events, n - 1)
  }

  function FailuresIn(events: seq<Event>, i: nat, n: nat): nat
    requires i <= n <= |events|
  {
    if i == n then 0 else FailuresIn(events, i, n - 1) + (if events[n - 1].Fail? then 1 else 0)
  }

  /** Failures recorded since the last success. */
  function TrailingFailures(events: seq<Event>, n: nat): nat
    requires n <= |events|
  {
    FailuresIn(events, SinceSuccess(events, n), n)
  }

  /** Index of the last failure among the first `n` events. */
  function LastFailure(events: seq<Event>, n: nat): (i: nat)
    requires n <= |events| && exists k :: 0 <= k < n && events[k].Fail?
    ensures i < n && events[i].Fail?
    ensures forall k | i < k < n :: !events[k].Fail?
  {
    if events[n - 1].Fail? then n - 1 else LastFailure(events, n - 1)
  }

  /** Enough failures in a row, whatever the clock says: at least one, so a threshold below one acts as one. */
  ghost predicate Tripped(policy: Policy, events: seq<Event>, n: nat)
    requires n <= |events|
  {
    TrailingFailures(events, n) >= 1 && TrailingFailures(events, n) >= policy.failureThreshold
  }

  ghost predicate HasFailed(events: seq<Event>, n: nat)
    requires n <= |events|
  {
    exists k :: 0 <= k < n && events[k].Fail?
  }

  /** An AllowRequest since the last failure came after the cool-down. */
  ghost predicate Probed(policy: Policy, events: seq<Event>, n: nat)
    requires n <= |events| && HasFailed(events, n)
  {
    exists k :: LastFailure(events, n) < k < n && events[k].Ask?
                && events[k].at - events[LastFailure(events, n)].at >= policy.coolDown
  }

  /** What the history says of a breaker. */
  ghost predicate FollowsHistory(policy: Policy, breaker: Breaker, events: seq<Event>, n: nat)
    requires n <= |events|
  {
    && breaker.failures == TrailingFailures(events, n)
    && (breaker.position == Closed <==> !Tripped(policy, events, n))
    && (Tripped(policy, events, n) ==>
          && HasFailed(events, n)
          && breaker.openedAt == events[LastFailure(events, n)].at
          && (breaker.position == HalfOpen <==> Probed(policy, events, n)))
  }

  /** A failure starts the cool-down anew. */
  lemma FailureFollows(policy: Policy, breaker: Breaker, events: seq<Event>, n: nat)
    requires 0 < n <= |events| && events[n - 1].Fail? && FollowsHistory(policy, breaker, events, n - 1)
    ensures FollowsHistory(policy, Step(policy, breaker, events[n - 1]), events, n)
  {
    assert SinceSuccess(events, n) == SinceSuccess(events, n - 1);
    assert HasFailed(events, n) && LastFailure(events, n) == n - 1;
  }

  /** A request changes nothing but, once the cool-down is over, open to half-open. */
  lemma AskFollows(policy: Policy, breaker: Breaker, events: seq<Event>, n: nat)
    requires 0 < n <= |events| && events[n - 1].Ask? && FollowsHistory(policy, breaker, events, n - 1)
    ensures FollowsHistory(policy, Step(policy, breaker, events[n - 1]), events, n)
  {
    assert SinceSuccess(events, n) == SinceSuccess(events, n - 1);
    if Tripped(policy, events, n) {
      var last := LastFailure(events, n - 1);
      assert events[last].Fail? && LastFailure(events, n) == last;
      assert Probed(policy, events, n) <==>
             Probed(policy, events, n - 1) || events[n - 1].at - events[last].at >= policy.coolDown;
    }
  }

  /** Every field of the breaker is a function of the event history, for every threshold. */
  lemma {:induction false} HistoryDecidesTheBreaker(policy: Policy, events: seq<Event>, n: nat)
    requires n <= |events|
    ensures FollowsHistory(policy, After(policy, events, n), events, n)
  {
    if n > 0 {
      HistoryDecidesTheBreaker(policy, events, n - 1);
      match events[n - 1]
      case Ask(_) => AskFollows(policy, After(policy, events, n - 1), events, n);
      case Succeed(_) => SuccessFollows(policy, After(policy, events, n - 1), events, n);
      case Fail(_) => FailureFollows(policy, After(policy, events, n - 1), events, n);
    }
  }

  lemma SuccessFollows(policy: Policy, breaker: Breaker, events: seq<Event>, n: nat)
    requires 0 < n <= |events| && events[n - 1].Succeed?
    ensures FollowsHistory(policy, Step(policy, breaker, events[n - 1]), events, n)
  {
    assert SinceSuccess(events, n) == n;
  }

  /** A request is refused exactly when the run has tripped and the cool-down since the last failure
    * is not over; half-open never changes an answer. */
  lemma RefusesExactly(policy: Policy, events: seq<Event>, n: nat, now: real)
    requires n <= |events| && Steady(events)
    requires forall k | 0 <= k < n :: events[k].at <= now
    ensures !Permits(policy, After(policy, events, n), now) <==>
      && TrailingFailures(events, n) >= 1 && TrailingFailures(events, n) >= policy.failureThreshold
      && HasFailed(events, n)
      && now - events[LastFailure(events, n)].at < policy.coolDown
  {
    HistoryDecidesTheBreaker(policy, events, n);
    if Tripped(policy, events, n) && Probed(policy, events, n) {
      var k :| LastFailure(events, n) < k < n && events[k].Ask?
               && events[k].at - events[LastFailure(events, n)].at >= policy.coolDown;
      assert events[k].at <= now;
    }
  }

  // -------------------------------------------------------------------------------------------
  // The simpler two-state breaker that answers every request the same way
  // -------------------------------------------------------------------------------------------

  datatype Simple = Simple(failures: nat, lastFailureAt: real)

  function SimpleAfter(events: seq<Event>, n: nat): Simple
    requires n <= |events|
  {
    if n == 0 then Simple(0, 0.0) else
      var before := SimpleAfter(events, n - 1);
      match events[n - 1]
      case Ask(_) => before
      case Succeed(_) => before.(failures := 0)
      case Fail(at) => Simple(before.failures + 1, at)
  }

  /** With half-open dropped altogether the answers stay the same in every run. */
  lemma HalfOpenIsUnobservable(policy: Policy, events: seq<Event>, n: nat, now: real)
    requires n <= |events| && Steady(events)
    requires forall k | 0 <= k < n :: events[k].at <= now
    ensures
      var simple := SimpleAfter(events, n);
      Permits(policy, After(policy, events, n), now) <==>
        || simple.failures < 1 || simple.failures < policy.failureThreshold
        || now - simple.lastFailureAt >= policy.coolDown
  {
    RefusesExactly(policy, events, n, now);
    SimpleFollowsHistory(events, n);
    HistoryDecidesTheBreaker(policy, events, n);
  }

  lemma {:induction false} SimpleFollowsHistory(events: seq<Event>, n: nat)
    requires n <= |events|
    ensures SimpleAfter(events, n).failures == TrailingFailures(events, n)
    ensures HasFailed(events, n) ==> SimpleAfter(events, n).lastFailureAt == events[LastFailure(events, n)].at
  {
    if n > 0 {
      SimpleFollowsHistory(events, n - 1);
    }
  }
}
