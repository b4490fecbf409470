/** One downstream call of the gateway: a token from the limiter, the breaker's consent, then a
  * bounded retry loop that reports every attempt back to the breaker. */
module Resilience {
  import TB = TokenBucket
  import CB = CircuitBreaker

  /** The gRPC status codes. */
  datatype StatusCode =
    | OK | CANCELLED | UNKNOWN | INVALID_ARGUMENT | DEADLINE_EXCEEDED | NOT_FOUND | ALREADY_EXISTS
    | PERMISSION_DENIED | RESOURCE_EXHAUSTED | FAILED_PRECONDITION | ABORTED | OUT_OF_RANGE
    | UNIMPLEMENTED | INTERNAL | UNAVAILABLE | DATA_LOSS | UNAUTHENTICATED

  predicate IsRetryable(code: StatusCode) {
    code == UNAVAILABLE || code == DEADLINE_EXCEEDED
  }

  function Max(a: int, b: int): int {
    if a < b then b else a
  }

  /** The three knobs of the router, in milliseconds where they are times. */
  datatype RuntimeConfig = RuntimeConfig(grpcTimeoutMs: int, retryAttempts: int, retryBackoffMs: int) {
    function Attempts(): (attempts: nat)
      ensures attempts >= 1
    {
      Max(1, retryAttempts)
    }

    function BackoffMs(): nat {
      Max(0, retryBackoffMs)
    }

    function Sanitized(): RuntimeConfig {
      RuntimeConfig(Max(100, grpcTimeoutMs), Max(1, retryAttempts), Max(0, retryBackoffMs))
    }
  }

  class GrpcRouter {
    var runtimeConfig: RuntimeConfig

    constructor (config: RuntimeConfig)
      ensures runtimeConfig == config
    {
      runtimeConfig := config;
    }

    method UpdateRuntimeConfig(config: RuntimeConfig)
      modifies this
      ensures runtimeConfig == config.Sanitized()
      ensures runtimeConfig.grpcTimeoutMs == if config.grpcTimeoutMs < 100 then 100 else config.grpcTimeoutMs
      ensures runtimeConfig.retryAttempts == if config.retryAttempts < 1 then 1 else config.retryAttempts
      ensures runtimeConfig.retryBackoffMs == if config.retryBackoffMs < 0 then 0 else config.retryBackoffMs
    {
      var sanitized := config;
      sanitized := sanitized.(grpcTimeoutMs := Max(100, sanitized.grpcTimeoutMs));
      sanitized := sanitized.(retryAttempts := Max(1, sanitized.retryAttempts));
      sanitized := sanitized.(retryBackoffMs := Max(0, sanitized.retryBackoffMs));
      runtimeConfig := sanitized;
    }
  }

  // -------------------------------------------------------------------------------------------
  // The control flow of one request, shared by the loop and by the interleaved machine
  // -------------------------------------------------------------------------------------------

  datatype Phase =
    | AwaitingBreaker
    | Ready(attempt: nat)
    | InFlight(attempt: nat)
    | Waiting(attempt: nat)
    | Done(status: StatusCode)
  {
    predicate InLoop() {
      Ready? || InFlight? || Waiting?
    }
  }

  function AfterReply(config: RuntimeConfig, attempt: nat, status: StatusCode): Phase {
    if status == OK then Done(OK)
    else if !IsRetryable(status) || attempt == config.Attempts() then Done(status)
    else if config.BackoffMs() > 0 then Waiting(attempt)
    else Ready(attempt + 1)
  }

  function AfterWait(attempt: nat, aborted: bool): Phase {
    if aborted then Done(CANCELLED) else Ready(attempt + 1)
  }

  // -------------------------------------------------------------------------------------------
  // The retry loop run on its own
  // -------------------------------------------------------------------------------------------

  datatype Reply = Reply(status: StatusCode, elapsedMs: real)
  datatype Wait = Wait(aborted: bool, elapsedMs: real)

  /** What the world does to the request: the k-th attempt gets `replies(k)`, the wait after it is `waits(k)`. */
  datatype World = World(replies: nat -> Reply, waits: nat -> Wait)

  /** How a retry loop ended: its status, how many attempts it made, whether a backoff was aborted,
    * the events it gave the breaker and the clock at its end. */
  datatype Outcome = Outcome(status: StatusCode, attempts: nat, aborted: bool, events: seq<CB.Event>, clock: real)

  function EventFor(status: StatusCode, at: real): CB.Event {
    if status == OK then CB.Succeed(at) else CB.Fail(at)
  }

  /** The loop from attempt `k` on, entered at time `clock`. */
  function Retry(config: RuntimeConfig, world: World, k: nat, clock: real): Outcome
    requires 1 <= k <= config.Attempts()
    decreases config.Attempts() - k
  {
    var reply := world.replies(k);
    var replied := clock + reply.elapsedMs;
    var event := EventFor(reply.status, replied);
    match AfterReply(config, k, reply.status)
    case Done(status) => Outcome(status, k, false, [event], replied)
    case Waiting(_) =>
      var woken := replied + world.waits(k).elapsedMs;
      var next := AfterWait(k, world.waits(k).aborted);
      if next.Done? then Outcome(next.status, k, true, [event], woken)
      else
        var rest := Retry(config, world, k + 1, woken);
        rest.(events := [event] + rest.events)
    case _ =>
      var rest := Retry(config, world, k + 1, replied);
      rest.(events := [event] + rest.events)
  }

  /** One turn of the loop: it ends here, or the rest is that of the next attempt. */
  lemma RetryTurn(config: RuntimeConfig, world: World, k: nat, clock: real)
    requires 1 <= k <= config.Attempts()
    ensures
      var outcome, reply := Retry(config, world, k, clock), world.replies(k);
      var replied := clock + reply.elapsedMs;
      var known := [EventFor(reply.status, replied)];
      match AfterReply(config, k, reply.status)
      case Done(status) => outcome == Outcome(status, k, false, known, replied)
      case Waiting(_) =>
        var woken := replied + world.waits(k).elapsedMs;
        if world.waits(k).aborted then outcome == Outcome(CANCELLED, k, true, known, woken)
        else
          k < config.Attempts() &&
          var rest := Retry(config, world, k + 1, woken);
          outcome == rest.(events := known + rest.events)
      case Ready(_) =>
        k < config.Attempts() &&
        var rest := Retry(config, world, k + 1, replied);
        outcome == rest.(events := known + rest.events)
      case _ => false
  {
    hide EventFor, IsRetryable;
  }

  /** Feeding a list of events to a breaker. */
  function Feed(policy: CB.Policy, breaker: CB.Breaker, events: seq<CB.Event>): CB.Breaker
    decreases |events|
  {
    if |events| == 0 then breaker else Feed(policy, CB.Step(policy, breaker, events[0]), events[1..])
  }

  lemma {:induction false} FeedOneMore(policy: CB.Policy, breaker: CB.Breaker, events: seq<CB.Event>, event: CB.Event)
    ensures Feed(policy, breaker, events + [event]) == CB.Step(policy, Feed(policy, breaker, events), event)
    decreases |events|
  {
    if |events| > 0 {
      assert (events + [event])[1..] == events[1..] + [event];
      FeedOneMore(policy, CB.Step(policy, breaker, events[0]), events[1..], event);
    }
  }

  /** `whole` is `rest` with the events `given` before it. */
  ghost predicate Continues(whole: Outcome, rest: Outcome, given: seq<CB.Event>) {
    && whole.status == rest.status
    && whole.attempts == rest.attempts
    && whole.clock == rest.clock
    && whole.events == given + rest.events
  }

  ghost predicate EndsWith(whole: Outcome, status: StatusCode, attempts: nat, clock: real, events: seq<CB.Event>) {
    whole.status == status && whole.attempts == attempts && whole.clock == clock && whole.events == events
  }

  /** One turn of the loop: it ends the outcome or leaves the rest of it to the next attempt. */
  lemma OneAttempt(config: RuntimeConfig, world: World, k: nat, clock: real, whole: Outcome, given: seq<CB.Event>)
    requires 1 <= k <= config.Attempts() && Continues(whole, Retry(config, world, k, clock), given)
    ensures
      var replied := clock + world.replies(k).elapsedMs;
      var woken := replied + world.waits(k).elapsedMs;
      var known := given + [EventFor(world.replies(k).status, replied)];
      match AfterReply(config, k, world.replies(k).status)
      case Done(status) => EndsWith(whole, status, k, replied, known)
      case Waiting(_) =>
        if world.waits(k).aborted then EndsWith(whole, CANCELLED, k, woken, known)
        else k < config.Attempts() && Continues(whole, Retry(config, world, k + 1, woken), known)
      case _ => k < config.Attempts() && Continues(whole, Retry(config, world, k + 1, replied), known)
  {
    hide Retry, EventFor, IsRetryable;
    RetryTurn(config, world, k, clock);
    var events := Retry(config, world, k, clock).events;
    assert given + events == given + [events[0]] + events[1..];
  }

  /** The attempt loop as written. It does what Retry says, and the breaker has seen exactly those events. */
  method AttemptLoop(config: RuntimeConfig, breaker: CB.CircuitBreaker, world: World, start: real)
    returns (lastStatus: StatusCode, attemptsMade: nat, clock: real)
    modifies breaker
    ensures
      var outcome := Retry(config, world, 1, start);
      && lastStatus == outcome.status
      && attemptsMade == outcome.attempts
      && clock == outcome.clock
      && breaker.Model() == Feed(breaker.policy, old(breaker.Model()), outcome.events)
  {
    hide Retry, CB.Step;
    ghost var initial, whole := breaker.Model(), Retry(config, world, 1, start);
    ghost var given: seq<CB.Event> := [];
    var attempts, backoff := config.Attempts(), config.BackoffMs();
    var attempt := 1;
    attemptsMade, clock, lastStatus := 0, start, OK;
    while attempt <= attempts
      invariant 1 <= attempt <= attempts
      invariant attemptsMade == attempt - 1
      invariant breaker.Model() == Feed(breaker.policy, initial, given)
      invariant Continues(whole, Retry(config, world, attempt, clock), given)
    {
      OneAttempt(config, world, attempt, clock, whole, given);
      attemptsMade := attemptsMade + 1;
      var reply := world.replies(attempt);
      clock := clock + reply.elapsedMs;
      lastStatus := reply.status;
      FeedOneMore(breaker.policy, initial, given, EventFor(lastStatus, clock));
      given := given + [EventFor(lastStatus, clock)];
      if lastStatus == OK {
        breaker.RecordSuccess(clock);
        return;
      }
      breaker.RecordFailure(clock);
      if !IsRetryable(lastStatus) || attempt == attempts {
        return;
      }
      if backoff > 0 {
        var wait := world.waits(attempt);
        clock := clock + wait.elapsedMs;
        if wait.aborted {
          lastStatus := CANCELLED;
          return;
        }
      }
      attempt := attempt + 1;
    }
  }

  /** The whole call, with the limiter and the breaker it was given: the limiter reads the clock at
    * `start`, the breaker at `asked`. */
  method InvokeWithResilience(
      config: RuntimeConfig, breaker: CB.CircuitBreaker, limiter: TB.TokenBucketRateLimiter, world: World,
      start: real, asked: real)
    returns (lastStatus: StatusCode, attemptsMade: nat, clock: real)
    modifies breaker, limiter
    ensures limiter.Model() == TB.Step(limiter.limits, old(limiter.Model()), start)
    ensures
      var admitted := TB.Admits(limiter.limits, old(limiter.Model()), start);
      var permitted := CB.Permits(breaker.policy, old(breaker.Model()), asked);
      var probed := CB.Step(breaker.policy, old(breaker.Model()), CB.Ask(asked));
      if !admitted then
        lastStatus == RESOURCE_EXHAUSTED && attemptsMade == 0 && clock == start
            && breaker.Model() == old(breaker.Model())
      else if !permitted then
        lastStatus == UNAVAILABLE && attemptsMade == 0 && clock == asked && breaker.Model() == probed
      else
        var outcome := Retry(config, world, 1, asked);
        && lastStatus == outcome.status
        && attemptsMade == outcome.attempts
        && clock == outcome.clock
        && breaker.Model() == Feed(breaker.policy, probed, outcome.events)
  {
    var allowed := limiter.Allow(start);
    if !allowed {
      return RESOURCE_EXHAUSTED, 0, start;
    }
    allowed := breaker.AllowRequest(asked);
    if !allowed {
      return UNAVAILABLE, 0, asked;
    }
    lastStatus, attemptsMade, clock := AttemptLoop(config, breaker, world, asked);
  }

  // -------------------------------------------------------------------------------------------
  // What the loop promises
  // -------------------------------------------------------------------------------------------

  /** The number of attempts a configuration allows. */
  function Allowed(config: RuntimeConfig): nat {
    if config.retryAttempts < 1 then 1 else config.retryAttempts
  }

  /** Attempt `k` is the last one: it succeeded, failed for good, was the last allowed, or the
    * backoff after it was aborted. */
  ghost predicate Stops(config: RuntimeConfig, world: World, k: nat) {
    || world.replies(k).status !in {UNAVAILABLE, DEADLINE_EXCEEDED}
    || k >= config.retryAttempts
    || (config.retryBackoffMs > 0 && world.waits(k).aborted)
  }

  /** The number of attempts is the first stopping one; it is never more than the configuration asks
    * for, or one if that is less. */
  lemma {:induction false} RetryStopsAtTheFirstStop(config: RuntimeConfig, world: World, k: nat, clock: real)
    requires 1 <= k <= Allowed(config)
    ensures
      var n := Retry(config, world, k, clock).attempts;
      && k <= n && (n <= config.retryAttempts || n == 1)
      && Stops(config, world, n)
      && (forall i: nat | k <= i < n :: !Stops(config, world, i))
    decreases config.Attempts() - k
  {
    hide Retry, EventFor;
    RetryTurn(config, world, k, clock);
    var next := AfterReply(config, k, world.replies(k).status);
    var replied := clock + world.replies(k).elapsedMs;
    if next.Waiting? && !world.waits(k).aborted {
      RetryStopsAtTheFirstStop(config, world, k + 1, replied + world.waits(k).elapsedMs);
    } else if next.Ready? {
      RetryStopsAtTheFirstStop(config, world, k + 1, replied);
    }
  }

  /** Whole call: while every reply may be retried and no wait is aborted, all the attempts asked for are
    * made; a reply of any other status ends the call at once. */
  lemma RetryUsesItsAttempts(config: RuntimeConfig, world: World, clock: real)
    ensures
      var n := Retry(config, world, 1, clock).attempts;
      && 1 <= n <= Allowed(config)
      && ((forall i: nat | 1 <= i <= Allowed(config) ::
             world.replies(i).status in {UNAVAILABLE, DEADLINE_EXCEEDED} && !world.waits(i).aborted) ==>
            n == Allowed(config))
      && (forall i: nat | 1 <= i <= Allowed(config) && world.replies(i).status !in {UNAVAILABLE, DEADLINE_EXCEEDED} ::
            n <= i)
  {
    hide Retry;
    RetryStopsAtTheFirstStop(config, world, 1, clock);
    var n := Retry(config, world, 1, clock).attempts;
    forall i: nat | 1 <= i <= Allowed(config) && world.replies(i).status !in {UNAVAILABLE, DEADLINE_EXCEEDED}
      ensures n <= i
    {
      assert Stops(config, world, i);
    }
  }

  /** When the reply to attempt `k` arrives, if attempt `from` was sent at time `clock`. */
  function ReplyTime(config: RuntimeConfig, world: World, from: nat, k: nat, clock: real): real
    requires from <= k
    decreases k
  {
    world.replies(k).elapsedMs +
    if k == from then clock
    else
      ReplyTime(config, world, from, k - 1, clock)
      + (if config.retryBackoffMs > 0 then world.waits(k - 1).elapsedMs else 0.0)
  }

  lemma {:induction false} ReplyTimeResumes(config: RuntimeConfig, world: World, from: nat, k: nat, clock: real)
    requires from < k
    ensures
      var replied := clock + world.replies(from).elapsedMs;
      var resumed := replied + (if config.retryBackoffMs > 0 then world.waits(from).elapsedMs else 0.0);
      ReplyTime(config, world, from, k, clock) == ReplyTime(config, world, from + 1, k, resumed)
    decreases k
  {
    if from + 1 < k {
      ReplyTimeResumes(config, world, from, k - 1, clock);
    }
  }

  /** The breaker hears one event an attempt, when its reply arrives: a failure, or a success if the reply
    * was OK, which only the last one can be; and the call ends with the last reply or an aborted wait. */
  lemma {:induction false} RetryReportsEveryAttempt(config: RuntimeConfig, world: World, k: nat, clock: real)
    requires 1 <= k <= Allowed(config)
    ensures
      var outcome := Retry(config, world, k, clock);
      var n := outcome.attempts;
      && k <= n <= Allowed(config)
      && |outcome.events| == n - k + 1
      && (forall i | 0 <= i < n - k :: outcome.events[i] == CB.Fail(ReplyTime(config, world, k, k + i, clock)))
      && (var replied := ReplyTime(config, world, k, n, clock);
          && outcome.events[n - k] == (if world.replies(n).status == OK then CB.Succeed(replied) else CB.Fail(replied))
          && outcome.clock == if outcome.aborted then replied + world.waits(n).elapsedMs else replied)
    decreases config.Attempts() - k
  {
    hide Retry;
    RetryTurn(config, world, k, clock);
    var next := AfterReply(config, k, world.replies(k).status);
    var replied := clock + world.replies(k).elapsedMs;
    if next.Ready? || (next.Waiting? && !world.waits(k).aborted) {
      var resumed := if next.Ready? then replied else replied + world.waits(k).elapsedMs;
      RetryReportsEveryAttempt(config, world, k + 1, resumed);
      forall j: nat | k < j
        ensures ReplyTime(config, world, k, j, clock) == ReplyTime(config, world, k + 1, j, resumed)
      {
        ReplyTimeResumes(config, world, k, j, clock);
      }
      var whole, rest := Retry(config, world, k, clock), Retry(config, world, k + 1, resumed);
      forall i | 0 <= i < whole.attempts - k
        ensures whole.events[i] == CB.Fail(ReplyTime(config, world, k, k + i, clock))
      {
        assert i > 0 ==> whole.events[i] == rest.events[i - 1];
        assert k + i == k + 1 + (i - 1);
      }
    }
  }

  /** Every attempt but the last failed retryably; the status is that of the last attempt, or
    * CANCELLED exactly when a retry was due but its backoff was aborted. */
  lemma {:induction false} RetryStatus(config: RuntimeConfig, world: World, k: nat, clock: real)
    requires 1 <= k <= Allowed(config)
    ensures
      var outcome := Retry(config, world, k, clock);
      var n := outcome.attempts;
      && k <= n <= Allowed(config)
      && (forall i: nat | k <= i < n :: world.replies(i).status in {UNAVAILABLE, DEADLINE_EXCEEDED})
      && (outcome.aborted <==> world.replies(n).status in {UNAVAILABLE, DEADLINE_EXCEEDED} && n < config.retryAttempts)
      && outcome.status == (if outcome.aborted then CANCELLED else world.replies(n).status)
    decreases config.Attempts() - k
  {
    hide Retry, EventFor;
    RetryTurn(config, world, k, clock);
    var next := AfterReply(config, k, world.replies(k).status);
    var replied := clock + world.replies(k).elapsedMs;
    if next.Waiting? && !world.waits(k).aborted {
      RetryStatus(config, world, k + 1, replied + world.waits(k).elapsedMs);
    } else if next.Ready? {
      RetryStatus(config, world, k + 1, replied);
    }
  }

  /** An RPC's deadline, never below 100 ms, and the backoff, never negative. */
  function Deadline(config: RuntimeConfig): real {
    if config.grpcTimeoutMs < 100 then 100.0 else config.grpcTimeoutMs as real
  }

  function Backoff(config: RuntimeConfig): real {
    if config.retryBackoffMs < 0 then 0.0 else config.retryBackoffMs as real
  }

  /** Replies meet their deadline and waits last no longer than the backoff. */
  ghost predicate Punctual(config: RuntimeConfig, world: World) {
    forall k: nat ::
      && 0.0 <= world.replies(k).elapsedMs <= Deadline(config)
      && 0.0 <= world.waits(k).elapsedMs <= Backoff(config)
  }

  function Times(n: int, amount: real): real {
    n as real * amount
  }

  lemma TimesOneMore(n: int, amount: real)
    ensures Times(n + 1, amount) == Times(n, amount) + amount
  {
  }

  lemma TimesGrows(n: int, m: int, amount: real)
    requires n <= m && 0.0 <= amount
    ensures Times(n, amount) <= Times(m, amount)
  {
    assert Times(m, amount) - Times(n, amount) == Times(m - n, amount);
  }

  /** The loop takes at most one timeout an attempt and one backoff between two attempts, plus the
    * backoff that was aborted, if one was. */
  lemma {:induction false} RetryTimeBound(config: RuntimeConfig, world: World, k: nat, clock: real)
    requires 1 <= k <= config.Attempts() && Punctual(config, world)
    ensures
      var outcome := Retry(config, world, k, clock);
      var made := outcome.attempts - k + 1;
      var waits := made - 1 + (if outcome.aborted then 1 else 0);
      outcome.clock - clock <= Times(made, Deadline(config)) + Times(waits, Backoff(config))
    decreases config.Attempts() - k
  {
    hide Retry, EventFor;
    RetryTurn(config, world, k, clock);
    var timeout, backoff := Deadline(config), Backoff(config);
    var next := AfterReply(config, k, world.replies(k).status);
    var replied := clock + world.replies(k).elapsedMs;
    TimesOneMore(0, timeout);
    TimesOneMore(0, backoff);
    if next.Ready? || (next.Waiting? && !world.waits(k).aborted) {
      var resumed := if next.Ready? then replied else replied + world.waits(k).elapsedMs;
      RetryTimeBound(config, world, k + 1, resumed);
      var outcome := Retry(config, world, k + 1, resumed);
      var made := outcome.attempts - k;
      TimesOneMore(made, timeout);
      TimesOneMore(made - 1 + (if outcome.aborted then 1 else 0), backoff);
    }
  }

  /** Whole call: never longer than every allowed attempt and every backoff between them. */
  lemma RetryDeadline(config: RuntimeConfig, world: World, clock: real)
    requires Punctual(config, world)
    ensures Retry(config, world, 1, clock).clock - clock
         <= Allowed(config) as real * Deadline(config) + (Allowed(config) - 1) as real * Backoff(config)
  {
    hide Retry, Times, Punctual, Deadline, Backoff;
    RetryTimeBound(config, world, 1, clock);
    RetryStatus(config, world, 1, clock);
    BoundsAreNatural(config);
    var outcome := Retry(config, world, 1, clock);
    var waits := outcome.attempts - 1 + (if outcome.aborted then 1 else 0);
    TimesGrows(outcome.attempts, Allowed(config), Deadline(config));
    TimesGrows(waits, Allowed(config) - 1, Backoff(config));
    TimesIs(Allowed(config), Deadline(config));
    TimesIs(Allowed(config) - 1, Backoff(config));
  }

  lemma TimesIs(n: int, amount: real)
    ensures Times(n, amount) == n as real * amount
  {
  }

  lemma BoundsAreNatural(config: RuntimeConfig)
    ensures 0.0 <= Deadline(config) && 0.0 <= Backoff(config)
  {
  }

  /** Sanitising a configuration before it is stored changes no retry loop. */
  lemma {:induction false} SanitizingChangesNothing(config: RuntimeConfig, world: World, k: nat, clock: real)
    requires 1 <= k <= config.Attempts()
    ensures config.Sanitized().Attempts() == config.Attempts()
    ensures Deadline(config.Sanitized()) == Deadline(config) && Backoff(config.Sanitized()) == Backoff(config)
    ensures Retry(config.Sanitized(), world, k, clock) == Retry(config, world, k, clock)
    decreases config.Attempts() - k
  {
    hide Retry, EventFor;
    RetryTurn(config, world, k, clock);
    RetryTurn(config.Sanitized(), world, k, clock);
    var next := AfterReply(config, k, world.replies(k).status);
    var replied := clock + world.replies(k).elapsedMs;
    assert AfterReply(config.Sanitized(), k, world.replies(k).status) == next;
    if next.Waiting? && !world.waits(k).aborted {
      SanitizingChangesNothing(config, world, k + 1, replied + world.waits(k).elapsedMs);
    } else if next.Ready? {
      SanitizingChangesNothing(config, world, k + 1, replied);
    }
  }
}
