/** All requests of one downstream service at once: every locked method call, every send and every
  * reply is one atomic step, interleaved arbitrarily over a clock that never goes back. */
module Gateway {
  import opened Resilience
  import TB = TokenBucket
  import CB = CircuitBreaker

  datatype Setup = Setup(limits: TB.Limits, policy: CB.Policy, t0: real)

  /** One request: its snapshot of the configuration, what the limiter told it, where it stands, how
    * many RPCs it has sent and the replies it has heard. */
  datatype Request = Request(
    config: RuntimeConfig, admitted: bool, phase: Phase, sent: nat, heard: seq<StatusCode>)
  {
    /** Attempts it may still send. */
    function Unused(): int {
      if phase.InLoop() then config.Attempts() - sent else 0
    }
  }

  /** Requests are listed in the order in which they called the limiter, at the times in `arrivals`;
    * `events` is what the breaker was told. */
  datatype State = State(
    bucket: TB.Bucket, arrivals: seq<real>, breaker: CB.Breaker, events: seq<CB.Event>, requests: seq<Request>,
        clock: real)

  datatype Action =
    | Arrive(config: RuntimeConfig)
    | AskBreaker(id: nat)
    | Send(id: nat)
    | Receive(id: nat, status: StatusCode)
    | Wake(id: nat, aborted: bool)

  datatype Timed = Timed(action: Action, now: real)

  function Init(setup: Setup): State {
    State(TB.Fresh(setup.limits, setup.t0), [], CB.FRESH, [], [], setup.t0)
  }

  /** The request is where the action takes it up. */
  predicate Fits(r: Request, action: Action) {
    match action
    case Arrive(_) => false
    case AskBreaker(_) => r.phase.AwaitingBreaker?
    case Send(_) => r.phase.Ready?
    case Receive(_, _) => r.phase.InFlight?
    case Wake(_, _) => r.phase.Waiting?
  }

  predicate Enabled(s: State, action: Action) {
    match action
    case Arrive(_) => true
    case _ => action.id < |s.requests| && Fits(s.requests[action.id], action)
  }

  function Arrival(setup: Setup, s: State, config: RuntimeConfig, now: real): Request {
    var admitted := TB.Admits(setup.limits, s.bucket, now);
    Request(config, admitted, if admitted then AwaitingBreaker else Done(RESOURCE_EXHAUSTED), 0, [])
  }

  /** What the step does to the request it is about; `permitted` is the breaker's answer if it is asked. */
  function Advance(r: Request, action: Action, permitted: bool): Request
    requires Fits(r, action)
  {
    match action
    case AskBreaker(_) => r.(phase := if permitted then Ready(1) else Done(UNAVAILABLE))
    case Send(_) => r.(phase := InFlight(r.phase.attempt), sent := r.sent + 1)
    case Receive(_, status) => r.(phase := AfterReply(r.config, r.phase.attempt, status), heard := r.heard + [status])
    case Wake(_, aborted) => r.(phase := AfterWait(r.phase.attempt, aborted))
  }

  /** What the step tells the breaker, if anything. */
  function Told(timed: Timed): seq<CB.Event> {
    match timed.action
    case AskBreaker(_) => [CB.Ask(timed.now)]
    case Receive(_, status) => [EventFor(status, timed.now)]
    case _ => []
  }

  function Step(setup: Setup, s: State, timed: Timed): State
    requires Enabled(s, timed.action)
  {
    var now, told := timed.now, Told(timed);
    var breaker := if told == [] then s.breaker else CB.Step(setup.policy, s.breaker, told[0]);
    if timed.action.Arrive? then
      var newcomer := Arrival(setup, s, timed.action.config, now);
      State(TB.Step(setup.limits, s.bucket, now), s.arrivals + [now], breaker, s.events + told,
          s.requests + [newcomer], now)
    else
      var i := timed.action.id;
      var next := Advance(s.requests[i], timed.action, CB.Permits(setup.policy, s.breaker, now));
      State(s.bucket, s.arrivals, breaker, s.events + told, s.requests[i := next], now)
  }

  ghost predicate IsRun(setup: Setup, states: seq<State>, trace: seq<Timed>) {
    && |states| == |trace| + 1
    && states[0] == Init(setup)
    && forall k | 0 <= k < |trace| ::
         && Enabled(states[k], trace[k].action)
         && states[k].clock <= trace[k].now
         && states[k + 1] == Step(setup, states[k], trace[k])
  }

  // -------------------------------------------------------------------------------------------
  // A request that nobody interrupts does what the retry loop does
  // -------------------------------------------------------------------------------------------

  function Last(states: seq<State>): State
    requires |states| > 0
  {
    states[|states| - 1]
  }

  /** The longer run goes on from the other one by actions of request `i` alone. */
  ghost predicate GoesOn(
      states: seq<State>, trace: seq<Timed>, longer: seq<State>, further: seq<Timed>, i: nat)
  {
    && |states| > 0 && states <= longer && trace <= further
    && forall n | |trace| <= n < |further| :: !further[n].action.Arrive? && further[n].action.id == i
  }

  lemma GoesOnFurther(
      states: seq<State>, trace: seq<Timed>, longer: seq<State>, further: seq<Timed>,
      longest: seq<State>, furthest: seq<Timed>, i: nat)
    requires GoesOn(states, trace, longer, further, i) && GoesOn(longer, further, longest, furthest, i)
    ensures GoesOn(states, trace, longest, furthest, i)
  {
    forall n | |trace| <= n < |furthest|
      ensures !furthest[n].action.Arrive? && furthest[n].action.id == i
    {
      assert n < |further| ==> furthest[n] == further[n];
    }
  }

  lemma Extend(setup: Setup, states: seq<State>, trace: seq<Timed>, timed: Timed, i: nat)
    returns (longer: seq<State>, further: seq<Timed>)
    requires IsRun(setup, states, trace) && Enabled(Last(states), timed.action) && Last(states).clock <= timed.now
    requires !timed.action.Arrive? && timed.action.id == i
    ensures IsRun(setup, longer, further) && GoesOn(states, trace, longer, further, i)
    ensures |longer| > 0 && Last(longer) == Step(setup, Last(states), timed)
  {
    hide Step, Init;
    longer, further := states + [Step(setup, Last(states), timed)], trace + [timed];
  }

  /** Request `i` is done as the outcome says, the breaker has heard its events, and nothing else moved. */
  ghost predicate RanLike(setup: Setup, before: State, after: State, i: nat, k: nat, outcome: Outcome)
    requires i < |before.requests|
  {
    && |after.requests| == |before.requests|
    && (forall j | 0 <= j < |before.requests| && j != i :: after.requests[j] == before.requests[j])
    && after.requests[i].phase == Done(outcome.status)
    && after.requests[i].sent == before.requests[i].sent + outcome.attempts - k + 1
    && after.breaker == Feed(setup.policy, before.breaker, outcome.events)
    && after.events == before.events + outcome.events
    && after.clock == outcome.clock
    && after.bucket == before.bucket && after.arrivals == before.arrivals
  }

  ghost predicate TimePasses(world: World) {
    forall k: nat :: 0.0 <= world.replies(k).elapsedMs && 0.0 <= world.waits(k).elapsedMs
  }

  /** Request `i` is the only one that moved, and kept its configuration. */
  ghost predicate OthersStand(before: State, after: State, i: nat)
    requires i < |before.requests|
  {
    && |after.requests| == |before.requests|
    && (forall j | 0 <= j < |before.requests| && j != i :: after.requests[j] == before.requests[j])
    && after.requests[i].config == before.requests[i].config
    && after.bucket == before.bucket && after.arrivals == before.arrivals
  }

  /** One attempt of request `i`: a send and its reply. */
  lemma AttemptAlone(setup: Setup, states: seq<State>, trace: seq<Timed>, i: nat, k: nat, reply: Reply, clock: real)
    returns (longer: seq<State>, further: seq<Timed>)
    requires IsRun(setup, states, trace) && i < |Last(states).requests| && Last(states).requests[i].phase == Ready(k)
    requires Last(states).clock <= clock && 0.0 <= reply.elapsedMs
    ensures IsRun(setup, longer, further) && GoesOn(states, trace, longer, further, i) && |longer| > 0
    ensures
      var before, after, replied := Last(states), Last(longer), clock + reply.elapsedMs;
      var r := before.requests[i];
      && OthersStand(before, after, i)
      && after.requests[i].sent == r.sent + 1
      && after.requests[i].phase == AfterReply(r.config, k, reply.status)
      && after.breaker == CB.Step(setup.policy, before.breaker, EventFor(reply.status, replied))
      && after.events == before.events + [EventFor(reply.status, replied)]
      && after.clock == replied
  {
    hide IsRun, CB.Step, CB.Permits, AfterReply, GoesOn, EventFor;
    ghost var one, steps := Extend(setup, states, trace, Timed(Send(i), clock), i);
    longer, further := Extend(setup, one, steps, Timed(Receive(i, reply.status), clock + reply.elapsedMs), i);
    GoesOnFurther(states, trace, one, steps, longer, further, i);
  }

  /** The wait after attempt `k` ends. */
  lemma WakeAlone(setup: Setup, states: seq<State>, trace: seq<Timed>, i: nat, k: nat, aborted: bool, now: real)
    returns (longer: seq<State>, further: seq<Timed>)
    requires IsRun(setup, states, trace) && i < |Last(states).requests| && Last(states).requests[i].phase == Waiting(k)
    requires Last(states).clock <= now
    ensures IsRun(setup, longer, further) && GoesOn(states, trace, longer, further, i) && |longer| > 0
    ensures
      var before, after := Last(states), Last(longer);
      && OthersStand(before, after, i)
      && after.requests[i].sent == before.requests[i].sent
      && after.requests[i].phase == AfterWait(k, aborted)
      && after.breaker == before.breaker && after.events == before.events && after.clock == now
  {
    hide IsRun, CB.Step, CB.Permits, AfterWait, GoesOn;
    longer, further := Extend(setup, states, trace, Timed(Wake(i, aborted), now), i);
  }

  /** From its `k`-th attempt on, an uninterrupted request sends, hears, waits and ends like the loop. */
  lemma {:induction false} AloneIsTheLoop(
      setup: Setup, states: seq<State>, trace: seq<Timed>, i: nat, world: World, k: nat, clock: real)
    returns (longer: seq<State>, further: seq<Timed>)
    requires |states| > 0 && IsRun(setup, states, trace) && i < |Last(states).requests|
    requires Last(states).requests[i].phase == Ready(k) && 1 <= k <= Last(states).requests[i].config.Attempts()
    requires Last(states).clock <= clock && TimePasses(world)
    ensures IsRun(setup, longer, further) && GoesOn(states, trace, longer, further, i) && |longer| > 0
    ensures RanLike(setup, Last(states), Last(longer), i, k, Retry(Last(states).requests[i].config, world, k, clock))
    decreases Last(states).requests[i].config.Attempts() - k
  {
    hide CB.Step, CB.Permits, IsRun, GoesOn, Retry, Feed, Step, Fits, Enabled, EventFor, IsRetryable, RanLike;
    var config, reply := Last(states).requests[i].config, world.replies(k);
    var replied, whole := clock + reply.elapsedMs, Retry(config, world, k, clock);
    var known := [EventFor(reply.status, replied)];
    assert [] + known == known && [] + whole.events == whole.events;
    OneAttempt(config, world, k, clock, whole, []);
    longer, further := AttemptAlone(setup, states, trace, i, k, reply, clock);
    match AfterReply(config, k, reply.status)
    case Done(_) => LastAttempt(setup, Last(states), Last(longer), i, k, known, whole);
    case Waiting(_) =>
      var woken := replied + world.waits(k).elapsedMs;
      ghost var heard, steps := longer, further;
      longer, further := WakeAlone(setup, heard, steps, i, k, world.waits(k).aborted, woken);
      GoesOnFurther(states, trace, heard, steps, longer, further, i);
      if world.waits(k).aborted {
        LastAttempt(setup, Last(states), Last(longer), i, k, known, whole);
      } else {
        heard, steps := longer, further;
        longer, further := AloneIsTheLoop(setup, heard, steps, i, world, k + 1, woken);
        GoesOnFurther(states, trace, heard, steps, longer, further, i);
        OneMoreAttempt(
          setup, Last(states), Last(heard), Last(longer), i, k, known, Retry(config, world, k + 1, woken), whole);
      }
    case Ready(_) =>
      ghost var heard, steps := longer, further;
      longer, further := AloneIsTheLoop(setup, heard, steps, i, world, k + 1, replied);
      GoesOnFurther(states, trace, heard, steps, longer, further, i);
      OneMoreAttempt(
        setup, Last(states), Last(heard), Last(longer), i, k, known, Retry(config, world, k + 1, replied), whole);
    case _ =>
  }

  lemma LastAttempt(
      setup: Setup, before: State, after: State, i: nat, k: nat, known: seq<CB.Event>, whole: Outcome)
    requires i < |before.requests| && OthersStand(before, after, i) && |known| == 1
    requires after.requests[i].sent == before.requests[i].sent + 1 && after.requests[i].phase == Done(whole.status)
    requires after.breaker == CB.Step(setup.policy, before.breaker, known[0]) && after.events == before.events + known
    requires EndsWith(whole, whole.status, k, after.clock, known)
    ensures RanLike(setup, before, after, i, k, whole)
  {
    hide CB.Step;
    assert known[1..] == [];
    assert Feed(setup.policy, before.breaker, known) == Feed(setup.policy, after.breaker, []);
  }

  /** An attempt followed by the rest is the whole. */
  lemma OneMoreAttempt(
      setup: Setup, before: State, middle: State, after: State, i: nat, k: nat, known: seq<CB.Event>, rest: Outcome,
      whole: Outcome)
    requires i < |before.requests| && OthersStand(before, middle, i) && |known| == 1
    requires middle.requests[i].sent == before.requests[i].sent + 1
    requires middle.breaker == CB.Step(setup.policy, before.breaker, known[0]) && middle.events == before.events + known
    requires RanLike(setup, middle, after, i, k + 1, rest) && Resilience.Continues(whole, rest, known)
    ensures RanLike(setup, before, after, i, k, whole)
  {
    hide CB.Step;
    assert whole.events[0] == known[0] && whole.events[1..] == rest.events;
    assert before.events + known + rest.events == before.events + whole.events;
  }

  /** The call ended without an RPC. */
  ghost predicate Refused(r: Request, status: StatusCode) {
    r.phase == Done(status) && r.sent == 0
  }

  /** A whole call that nobody interrupts ends as the method does: it arrives at `start`, asks the breaker
    * at `asked` unless the limiter turned it away, and runs the loop unless the breaker did. */
  ghost predicate Called(
      setup: Setup, before: State, after: State, config: RuntimeConfig, world: World, start: real, asked: real)
  {
    var i := |before.requests|;
    var probed := CB.Step(setup.policy, before.breaker, CB.Ask(asked));
    && |after.requests| == i + 1 && after.requests[..i] == before.requests
    && after.arrivals == before.arrivals + [start]
    && after.bucket == TB.Step(setup.limits, before.bucket, start)
    && if !TB.Admits(setup.limits, before.bucket, start) then
         Refused(after.requests[i], RESOURCE_EXHAUSTED) && after.breaker == before.breaker && after.clock == start
       else if !CB.Permits(setup.policy, before.breaker, asked) then
         Refused(after.requests[i], UNAVAILABLE) && after.breaker == probed && after.clock == asked
       else
         var outcome := Retry(config, world, 1, asked);
         && after.requests[i].phase == Done(outcome.status) && after.requests[i].sent == outcome.attempts
         && after.breaker == Feed(setup.policy, probed, outcome.events) && after.clock == outcome.clock
  }

  lemma ArriveAlone(setup: Setup, states: seq<State>, trace: seq<Timed>, config: RuntimeConfig, start: real)
    returns (longer: seq<State>, further: seq<Timed>)
    requires |states| > 0 && IsRun(setup, states, trace) && Last(states).clock <= start
    ensures IsRun(setup, longer, further) && |longer| > 0 && states <= longer
    ensures further == trace + [Timed(Arrive(config), start)]
    ensures
      var before, after := Last(states), Last(longer);
      && after.requests == before.requests + [Arrival(setup, before, config, start)]
      && after.arrivals == before.arrivals + [start] && after.clock == start
      && after.bucket == TB.Step(setup.limits, before.bucket, start) && after.breaker == before.breaker
  {
    hide TB.Step, TB.Admits, CB.Step, CB.Permits, Init, Arrival;
    var timed := Timed(Arrive(config), start);
    longer, further := states + [Step(setup, Last(states), timed)], trace + [timed];
  }

  lemma AskAlone(setup: Setup, states: seq<State>, trace: seq<Timed>, i: nat, asked: real)
    returns (longer: seq<State>, further: seq<Timed>)
    requires |states| > 0 && IsRun(setup, states, trace) && i < |Last(states).requests|
    requires Last(states).requests[i].phase == AwaitingBreaker && Last(states).clock <= asked
    ensures IsRun(setup, longer, further) && GoesOn(states, trace, longer, further, i) && |longer| > 0
    ensures
      var before, after := Last(states), Last(longer);
      var permitted := CB.Permits(setup.policy, before.breaker, asked);
      && OthersStand(before, after, i) && after.clock == asked
      && after.requests[i] == before.requests[i].(phase := if permitted then Ready(1) else Done(UNAVAILABLE))
      && after.breaker == CB.Step(setup.policy, before.breaker, CB.Ask(asked))
  {
    hide IsRun, CB.Step, CB.Permits, GoesOn;
    longer, further := Extend(setup, states, trace, Timed(AskBreaker(i), asked), i);
  }

  /** From any reachable state the run can go on by one new request alone, which does what
    * `InvokeWithResilience` does; after its arrival all actions are its own. */
  lemma AloneIsTheCall(
      setup: Setup, states: seq<State>, trace: seq<Timed>, config: RuntimeConfig, world: World, start: real,
      asked: real)
    returns (longer: seq<State>, further: seq<Timed>)
    requires |states| > 0 && IsRun(setup, states, trace)
    requires Last(states).clock <= start <= asked && TimePasses(world)
    ensures IsRun(setup, longer, further) && |longer| > 0 && states <= longer
    ensures trace + [Timed(Arrive(config), start)] <= further
    ensures forall n | |trace| < n < |further| ::
              !further[n].action.Arrive? && further[n].action.id == |Last(states).requests|
    ensures Called(setup, Last(states), Last(longer), config, world, start, asked)
  {
    hide IsRun, GoesOn, TB.Step, TB.Admits, CB.Step, CB.Permits, Retry, Feed, TimePasses;
    ghost var before, i := Last(states), |Last(states).requests|;
    ghost var arrived, steps := ArriveAlone(setup, states, trace, config, start);
    longer, further := arrived, steps;
    assert Last(arrived).requests[..i] == before.requests;
    if TB.Admits(setup.limits, before.bucket, start) {
      longer, further := AskAlone(setup, arrived, steps, i, asked);
      PrefixHolds(states, trace, arrived, steps, longer, further, i);
      assert Last(longer).requests[..i] == before.requests;
      if CB.Permits(setup.policy, before.breaker, asked) {
        ghost var permitted, more := longer, further;
        longer, further := AloneIsTheLoop(setup, permitted, more, i, world, 1, asked);
        GoesOnFurther(arrived, steps, permitted, more, longer, further, i);
        PrefixHolds(states, trace, arrived, steps, longer, further, i);
        assert Last(longer).requests[..i] == before.requests;
      }
    }
  }

  lemma PrefixHolds(
      states: seq<State>, trace: seq<Timed>, arrived: seq<State>, steps: seq<Timed>, longer: seq<State>,
      further: seq<Timed>, i: nat)
    requires states <= arrived && |steps| == |trace| + 1 && trace <= steps
    requires GoesOn(arrived, steps, longer, further, i)
    ensures states <= longer && steps <= further
    ensures forall n | |trace| < n < |further| :: !further[n].action.Arrive? && further[n].action.id == i
  {
  }

  // -------------------------------------------------------------------------------------------
  // What every step keeps
  // -------------------------------------------------------------------------------------------

  /** The limiter answered the requests as a bucket called at their arrival times, in order. */
  ghost predicate LimiterAgrees(setup: Setup, s: State) {
    var start := TB.Fresh(setup.limits, setup.t0);
    && |s.arrivals| == |s.requests|
    && TB.Steady(setup.t0, s.arrivals)
    && (forall k | 0 <= k < |s.arrivals| :: s.arrivals[k] <= s.clock)
    && s.bucket == TB.After(setup.limits, start, s.arrivals, |s.arrivals|)
    && forall k: nat | k < |s.arrivals| :: s.requests[k].admitted == TB.Answer(setup.limits, start, s.arrivals, k)
  }

  ghost predicate BreakerAgrees(setup: Setup, s: State) {
    && CB.Steady(s.events)
    && (forall k | 0 <= k < |s.events| :: s.events[k].at <= s.clock)
    && s.breaker == CB.After(setup.policy, s.events, |s.events|)
  }

  ghost predicate AllRetryable(heard: seq<StatusCode>) {
    forall k | 0 <= k < |heard| :: IsRetryable(heard[k])
  }

  /** Where a request stands is decided by the replies it has heard, whatever the others do. */
  ghost predicate Disciplined(r: Request) {
    && r.sent <= r.config.Attempts()
    && (r.sent > 0 || r.phase.AwaitingBreaker? || r.phase.InLoop() ==> r.admitted)
    && match r.phase
       case AwaitingBreaker => r.sent == 0 && r.heard == []
       case Ready(k) => k == r.sent + 1 <= r.config.Attempts() && |r.heard| == r.sent && AllRetryable(r.heard)
       case InFlight(k) => k == r.sent == |r.heard| + 1 && AllRetryable(r.heard)
       case Waiting(k) => k == r.sent == |r.heard| < r.config.Attempts() && k > 0 && AllRetryable(r.heard)
       case Done(status) =>
         && |r.heard| == r.sent
         && (r.sent == 0 ==> status == (if r.admitted then UNAVAILABLE else RESOURCE_EXHAUSTED))
         && (r.sent > 0 ==>
               var last := r.heard[r.sent - 1];
               && AllRetryable(r.heard[..r.sent - 1])
               && if IsRetryable(last) && r.sent < r.config.Attempts() then status == CANCELLED else status == last)
  }

  ghost predicate Inv(setup: Setup, s: State) {
    && LimiterAgrees(setup, s)
    && BreakerAgrees(setup, s)
    && forall k | 0 <= k < |s.requests| :: Disciplined(s.requests[k])
  }

  lemma ReceiveKeepsDiscipline(r: Request, action: Action)
    requires Disciplined(r) && Fits(r, action) && action.Receive?
    ensures Disciplined(Advance(r, action, false))
  {
    var heard := r.heard + [action.status];
    assert heard[..|heard| - 1] == r.heard;
  }

  lemma WakeKeepsDiscipline(r: Request, action: Action)
    requires Disciplined(r) && Fits(r, action) && action.Wake?
    ensures Disciplined(Advance(r, action, false))
  {
    hide IsRetryable;
    assert AllRetryable(r.heard[..r.sent - 1]);
    assert IsRetryable(r.heard[r.sent - 1]);
  }

  lemma AdvanceKeepsDiscipline(r: Request, action: Action, permitted: bool)
    requires Disciplined(r) && Fits(r, action)
    ensures Disciplined(Advance(r, action, permitted))
  {
    match action
    case AskBreaker(_) => hide IsRetryable, AllRetryable;
    case Send(_) => hide IsRetryable, AllRetryable;
    case Receive(_, _) => ReceiveKeepsDiscipline(r, action);
    case Wake(_, _) => WakeKeepsDiscipline(r, action);
  }

  lemma StepKeepsDiscipline(setup: Setup, s: State, timed: Timed)
    requires Enabled(s, timed.action)
    requires forall k | 0 <= k < |s.requests| :: Disciplined(s.requests[k])
    ensures forall k | 0 <= k < |Step(setup, s, timed).requests| :: Disciplined(Step(setup, s, timed).requests[k])
  {
    if !timed.action.Arrive? {
      AdvanceKeepsDiscipline(s.requests[timed.action.id], timed.action, CB.Permits(setup.policy, s.breaker, timed.now));
    }
  }

  lemma StepKeepsLimiter(setup: Setup, s: State, timed: Timed)
    requires Enabled(s, timed.action) && s.clock <= timed.now && setup.t0 <= s.clock
    requires LimiterAgrees(setup, s)
    ensures LimiterAgrees(setup, Step(setup, s, timed))
  {
    if timed.action.Arrive? {
      var next, start := Step(setup, s, timed), TB.Fresh(setup.limits, setup.t0);
      TB.EarlierCallsStand(setup.limits, start, s.arrivals, timed.now, |s.arrivals|);
      forall k: nat | k < |next.arrivals|
        ensures next.requests[k].admitted == TB.Answer(setup.limits, start, next.arrivals, k)
      {
        if k < |s.arrivals| {
          TB.EarlierCallsStand(setup.limits, start, s.arrivals, timed.now, k);
        }
      }
    }
  }

  lemma {:induction false} EarlierEventsStand(policy: CB.Policy, events: seq<CB.Event>, later: CB.Event, n: nat)
    requires n <= |events|
    ensures CB.After(policy, events + [later], n) == CB.After(policy, events, n)
    ensures CB.SimpleAfter(events + [later], n) == CB.SimpleAfter(events, n)
  {
    if n > 0 {
      EarlierEventsStand(policy, events, later, n - 1);
    }
  }

  lemma StepKeepsBreaker(setup: Setup, s: State, timed: Timed)
    requires Enabled(s, timed.action) && s.clock <= timed.now
    requires BreakerAgrees(setup, s)
    ensures BreakerAgrees(setup, Step(setup, s, timed))
  {
    hide CB.Step, CB.Permits;
    var told := Told(timed);
    if told == [] {
      assert s.events + told == s.events;
    } else {
      EarlierEventsStand(setup.policy, s.events, told[0], |s.events|);
    }
  }

  lemma {:induction false} RunKeepsInv(setup: Setup, states: seq<State>, trace: seq<Timed>, n: nat)
    requires IsRun(setup, states, trace) && n <= |trace|
    ensures Inv(setup, states[n]) && setup.t0 <= states[n].clock
  {
    if n > 0 {
      RunKeepsInv(setup, states, trace, n - 1);
      StepKeepsDiscipline(setup, states[n - 1], trace[n - 1]);
      StepKeepsLimiter(setup, states[n - 1], trace[n - 1]);
      StepKeepsBreaker(setup, states[n - 1], trace[n - 1]);
    }
  }

  // -------------------------------------------------------------------------------------------
  // RPC attempts per window
  // -------------------------------------------------------------------------------------------

  /** RPCs sent by those of the first `n` requests that arrived in [from, to]. */
  function SentWithin(requests: seq<Request>, arrivals: seq<real>, n: nat, from: real, to: real): nat
    requires n <= |requests| == |arrivals|
  {
    if n == 0 then 0
    else
      SentWithin(requests, arrivals, n - 1, from, to)
      + (if from <= arrivals[n - 1] <= to then requests[n - 1].sent else 0)
  }

  /** Nobody sends more than the configuration allows, and only the admitted send. */
  ghost predicate Bounded(r: Request, most: nat) {
    r.sent <= most && (r.sent > 0 ==> r.admitted)
  }

  /** Admitted requests among the first `n` that arrived in [from, to]. */
  function AdmittedRequests(requests: seq<Request>, arrivals: seq<real>, n: nat, from: real, to: real): nat
    requires n <= |requests| == |arrivals|
  {
    if n == 0 then 0
    else
      AdmittedRequests(requests, arrivals, n - 1, from, to)
      + (if from <= arrivals[n - 1] <= to && requests[n - 1].admitted then 1 else 0)
  }

  lemma {:induction false} SentFollowsAdmission(
      requests: seq<Request>, arrivals: seq<real>, n: nat, from: real, to: real, most: nat)
    requires n <= |requests| == |arrivals|
    requires forall k | 0 <= k < n && from <= arrivals[k] <= to :: Bounded(requests[k], most)
    ensures SentWithin(requests, arrivals, n, from, to) <= most * AdmittedRequests(requests, arrivals, n, from, to)
  {
    if n > 0 {
      SentFollowsAdmission(requests, arrivals, n - 1, from, to, most);
    }
  }

  lemma {:induction false} AdmissionFollowsLimiter(
      limits: TB.Limits, start: TB.Bucket, requests: seq<Request>, arrivals: seq<real>, n: nat, from: real, to: real)
    requires n <= |requests| == |arrivals|
    requires forall k: nat | k < n :: requests[k].admitted == TB.Answer(limits, start, arrivals, k)
    ensures AdmittedRequests(requests, arrivals, n, from, to) == TB.AdmittedWithin(limits, start, arrivals, n, from, to)
  {
    hide TB.Answer;
    if n > 0 {
      AdmissionFollowsLimiter(limits, start, requests, arrivals, n - 1, from, to);
    }
  }

  /** The budget of a window for requests that try at most `most` times. */
  ghost function Budget(limits: TB.Limits, from: real, to: real, most: nat): real {
    most as real * (limits.burst + limits.rate * (to - from))
  }

  lemma ScaleBound(limits: TB.Limits, from: real, to: real, most: nat, count: nat)
    requires count as real <= limits.burst + limits.rate * (to - from)
    ensures (most * count) as real <= Budget(limits, from, to, most)
  {
    var bound := limits.burst + limits.rate * (to - from);
    assert (most * count) as real == most as real * count as real;
    assert 0.0 <= most as real * (bound - count as real);
  }

  /** In every run, the requests that arrived in a window of length w send at most
    * most * (burst + rate * w) RPCs, however often they retry. */
  lemma AttemptsPerWindow(setup: Setup, states: seq<State>, trace: seq<Timed>, n: nat, from: real, to: real, most: nat)
    requires IsRun(setup, states, trace) && n <= |trace| && setup.limits.Valid() && from <= to
    requires forall k | 0 <= k < |states[n].requests| && k < |states[n].arrivals|
        && from <= states[n].arrivals[k] <= to ::
               1 <= most && states[n].requests[k].config.retryAttempts <= most
    ensures |states[n].arrivals| == |states[n].requests|
    ensures SentWithin(states[n].requests, states[n].arrivals, |states[n].requests|, from, to) as real
         <= Budget(setup.limits, from, to, most)
  {
    hide Budget, TB.Gain, TB.Answer, TB.After, TB.AdmittedWithin, AdmittedRequests, SentWithin;
    RunKeepsInv(setup, states, trace, n);
    var s, start := states[n], TB.Fresh(setup.limits, setup.t0);
    SentFollowsAdmission(s.requests, s.arrivals, |s.requests|, from, to, most);
    AdmissionFollowsLimiter(setup.limits, start, s.requests, s.arrivals, |s.requests|, from, to);
    TB.WindowBound(setup.limits, start, s.arrivals, |s.arrivals|, from, to);
    ScaleBound(setup.limits, from, to, most, AdmittedRequests(s.requests, s.arrivals, |s.requests|, from, to));
  }

  // -------------------------------------------------------------------------------------------
  // After the breaker has tripped
  // -------------------------------------------------------------------------------------------

  function TotalSent(requests: seq<Request>, n: nat): nat
    requires n <= |requests|
  {
    if n == 0 then 0 else TotalSent(requests, n - 1) + requests[n - 1].sent
  }

  function TotalUnused(requests: seq<Request>, n: nat): int
    requires n <= |requests|
  {
    if n == 0 then 0 else TotalUnused(requests, n - 1) + requests[n - 1].Unused()
  }

  lemma {:induction false} TotalsOfUpdate(requests: seq<Request>, i: nat, r: Request, n: nat)
    requires n <= |requests| && i < |requests|
    ensures TotalSent(requests[i := r], n) == TotalSent(requests, n) + (if i < n then r.sent - requests[i].sent else 0)
    ensures TotalUnused(requests[i := r], n)
        == TotalUnused(requests, n) + (if i < n then r.Unused() - requests[i].Unused() else 0)
  {
    if n > 0 {
      TotalsOfUpdate(requests, i, r, n - 1);
    }
  }

  lemma {:induction false} TotalsOfAppend(requests: seq<Request>, r: Request, n: nat)
    requires n <= |requests|
    ensures TotalSent(requests + [r], n) == TotalSent(requests, n)
    ensures TotalUnused(requests + [r], n) == TotalUnused(requests, n)
  {
    if n > 0 {
      TotalsOfAppend(requests, r, n - 1);
    }
  }

  lemma {:induction false} UnusedIsNonNegative(requests: seq<Request>, n: nat)
    requires n <= |requests| && forall k | 0 <= k < n :: Disciplined(requests[k])
    ensures TotalUnused(requests, n) >= 0
  {
    if n > 0 {
      UnusedIsNonNegative(requests, n - 1);
    }
  }

  /** Consecutive failures so far, and the time of the latest, read off the event history. */
  function History(s: State): CB.Simple {
    CB.SimpleAfter(s.events, |s.events|)
  }

  /** The latest failures suffice to trip the breaker. */
  ghost predicate Failing(setup: Setup, s: State) {
    History(s).failures >= 1 && History(s).failures >= setup.policy.failureThreshold
  }

  ghost predicate Cooling(setup: Setup, s: State, now: real) {
    && Failing(setup, s)
    && now - History(s).lastFailureAt < setup.policy.coolDown
  }

  ghost predicate EntersNobody(before: State, after: State) {
    forall k | 0 <= k < |after.requests| && after.requests[k].phase.InLoop() ::
      k < |before.requests| && before.requests[k].phase.InLoop()
  }

  /** A refused or running request never gains attempts, and a refused one does not enter the loop. */
  lemma AdvanceSpendsAttempts(r: Request, action: Action)
    requires Disciplined(r) && Fits(r, action)
    ensures
      var next := Advance(r, action, false);
      next.sent + next.Unused() <= r.sent + r.Unused() && (next.phase.InLoop() ==> r.phase.InLoop())
  {
  }

  lemma CoolingKeepsTripped(setup: Setup, s: State, timed: Timed)
    requires Enabled(s, timed.action) && Failing(setup, s)
    requires timed.action.Receive? ==> timed.action.status != OK
    ensures Failing(setup, Step(setup, s, timed))
  {
    var told := Told(timed);
    if told == [] {
      assert s.events + told == s.events;
    } else {
      EarlierEventsStand(setup.policy, s.events, told[0], |s.events|);
    }
  }

  ghost predicate Spends(before: seq<Request>, after: seq<Request>) {
    TotalSent(after, |after|) + TotalUnused(after, |after|)
      <= TotalSent(before, |before|) + TotalUnused(before, |before|)
  }

  lemma CoolingStep(setup: Setup, s: State, timed: Timed)
    requires Enabled(s, timed.action) && Inv(setup, s) && s.clock <= timed.now
    requires Cooling(setup, s, timed.now)
    ensures EntersNobody(s, Step(setup, s, timed))
    ensures Spends(s.requests, Step(setup, s, timed).requests)
  {
    CB.HalfOpenIsUnobservable(setup.policy, s.events, |s.events|, timed.now);
    assert !CB.Permits(setup.policy, s.breaker, timed.now);
    if timed.action.Arrive? {
      TotalsOfAppend(s.requests, Arrival(setup, s, timed.action.config, timed.now), |s.requests|);
    } else {
      var i := timed.action.id;
      AdvanceSpendsAttempts(s.requests[i], timed.action);
      TotalsOfUpdate(s.requests, i, Advance(s.requests[i], timed.action, false), |s.requests|);
    }
  }

  /** Once tripped, and until a success is recorded or the cool-down since the latest failure has
    * passed, nobody new enters the attempt loop, and the RPCs still sent are covered by the unused
    * attempts of the requests already in it. */
  lemma {:induction false} TrippedMeansNoNewWork(setup: Setup, states: seq<State>, trace: seq<Timed>, n: nat, m: nat)
    requires IsRun(setup, states, trace) && n <= m <= |trace|
    requires Failing(setup, states[n])
    requires forall k | n <= k < m ::
      && trace[k].now - History(states[k]).lastFailureAt < setup.policy.coolDown
      && (trace[k].action.Receive? ==> trace[k].action.status != OK)
    ensures Failing(setup, states[m])
    ensures EntersNobody(states[n], states[m])
    ensures Spends(states[n].requests, states[m].requests)
  {
    if n < m {
      TrippedMeansNoNewWork(setup, states, trace, n, m - 1);
      assert Inv(setup, states[m - 1]) by {
        RunKeepsInv(setup, states, trace, m - 1);
      }
      CoolingKeepsTripped(setup, states[m - 1], trace[m - 1]);
      CoolingStep(setup, states[m - 1], trace[m - 1]);
    }
  }

  /** The RPCs sent while the breaker cools down number at most the attempts that the requests
    * already in the loop had left when it tripped. */
  lemma AttemptsWhileCooling(setup: Setup, states: seq<State>, trace: seq<Timed>, n: nat, m: nat)
    requires IsRun(setup, states, trace) && n <= m <= |trace|
    requires Failing(setup, states[n])
    requires forall k | n <= k < m ::
      && trace[k].now - History(states[k]).lastFailureAt < setup.policy.coolDown
      && (trace[k].action.Receive? ==> trace[k].action.status != OK)
    ensures TotalSent(states[m].requests, |states[m].requests|) - TotalSent(states[n].requests, |states[n].requests|)
         <= TotalUnused(states[n].requests, |states[n].requests|)
  {
    TrippedMeansNoNewWork(setup, states, trace, n, m);
    RunKeepsInv(setup, states, trace, m);
    UnusedIsNonNegative(states[m].requests, |states[m].requests|);
  }
}
