/** What a consumer gets done when its worker goes on: a started consumer polls every subscription, and a
  * stopping one comes to an end. */
module BusProgress {
  import opened LocalBus
  import opened BusConsumer
  import opened BusRuns

  function Last(states: seq<State>): State
    requires |states| > 0
  {
    states[|states| - 1]
  }

  /** The longer run goes on from the other one by steps of consumer `c`: its worker's, and its Start. */
  ghost predicate GoesOn(states: seq<State>, trace: seq<Action>, longer: seq<State>, further: seq<Action>, c: nat) {
    && |states| > 0 && states <= longer && trace <= further
    && forall n | |trace| <= n < |further| :: further[n] == Work(c) || further[n] == Start(c)
  }

  lemma GoesOnFurther(
      states: seq<State>, trace: seq<Action>, longer: seq<State>, further: seq<Action>,
      longest: seq<State>, furthest: seq<Action>, c: nat)
    requires GoesOn(states, trace, longer, further, c) && GoesOn(longer, further, longest, furthest, c)
    ensures GoesOn(states, trace, longest, furthest, c)
  {
    forall n | |trace| <= n < |furthest|
      ensures furthest[n] == Work(c) || furthest[n] == Start(c)
    {
      assert n < |further| ==> furthest[n] == further[n];
    }
  }

  lemma Extend(subscriptions: seq<seq<string>>, states: seq<State>, trace: seq<Action>, action: Action, c: nat)
    returns (longer: seq<State>, further: seq<Action>)
    requires IsRun(subscriptions, states, trace) && Enabled(Last(states), action)
    requires action == Work(c) || action == Start(c)
    ensures IsRun(subscriptions, longer, further) && GoesOn(states, trace, longer, further, c)
    ensures |longer| > 0 && Last(longer) == Step(Last(states), action) && further == trace + [action]
  {
    hide Step, Init;
    longer, further := states + [Step(Last(states), action)], trace + [action];
  }

  /** The subscriptions a turn still has to poll. */
  function Left(c: Consumer, next: nat): seq<string> {
    if next <= |c.subscriptions| then c.subscriptions[next..] else []
  }

  /** Queues and handler calls once the batch in hand and the turn under way are done. */
  function TurnDone(s: State, c: nat): Turn
    requires c < |s.consumers|
  {
    var consumer := s.consumers[c];
    match consumer.worker
    case Off => Turn(s.queues, consumer.handled)
    case Test => Turn(s.queues, consumer.handled)
    case Scan(next) => Polled(Turn(s.queues, consumer.handled), Left(consumer, next))
    case Handle(next, topic, batch) =>
      Polled(Turn(s.queues, consumer.handled + Calls(topic, batch)), Left(consumer, next))
  }

  /** Only queues and consumer `c` have moved, and that kept its subscriptions and what it was told. */
  ghost predicate OnlyWorked(before: State, after: State, c: nat)
    requires c < |before.consumers|
  {
    && |after.consumers| == |before.consumers| && after.published == before.published
    && (forall j | 0 <= j < |before.consumers| && j != c :: after.consumers[j] == before.consumers[j])
    && after.consumers[c].subscriptions == before.consumers[c].subscriptions
    && after.consumers[c].control == before.consumers[c].control
    && after.consumers[c].running == before.consumers[c].running
  }

  // -------------------------------------------------------------------------------------------
  // Polling from the front
  // -------------------------------------------------------------------------------------------

  lemma {:induction false} PolledFirst(before: Turn, first: string, rest: seq<string>)
    ensures Polled(before, [first] + rest) == Polled(PolledOnce(before, first), rest)
  {
    hide PolledOnce;
    var all := [first] + rest;
    if |rest| == 0 {
      assert all[..0] == [];
      assert Polled(before, all[..0]) == before;
    } else {
      PolledFirst(before, first, rest[..|rest| - 1]);
      assert all[..|all| - 1] == [first] + rest[..|rest| - 1];
    }
  }

  lemma {:induction false} CallsFirst(topic: string, batch: seq<string>)
    requires |batch| > 0
    ensures Calls(topic, batch) == [Delivery(topic, batch[0])] + Calls(topic, batch[1..])
  {
    var n := |batch| - 1;
    if n == 0 {
      assert batch[..0] == [] && batch[1..] == [];
    } else {
      CallsFirst(topic, batch[..n]);
      assert batch[1..][..n - 1] == batch[..n][1..];
      assert [Delivery(topic, batch[0])] + Calls(topic, batch[1..n]) + [Delivery(topic, batch[n])]
          == [Delivery(topic, batch[0])] + (Calls(topic, batch[1..n]) + [Delivery(topic, batch[n])]);
    }
  }

  // -------------------------------------------------------------------------------------------
  // One step of the worker
  // -------------------------------------------------------------------------------------------

  /** Work left in the turn. */
  function Effort(c: Consumer): (nat, nat) {
    match c.worker
    case Off => (0, 0)
    case Test => (0, 0)
    case Scan(next) => (1 + |Left(c, next)|, 0)
    case Handle(next, _, batch) => (1 + |Left(c, next)|, 1 + |batch|)
  }

  /** Inside a turn a step brings the end of the turn nearer, and what the turn gets done stays the same. */
  lemma WorkMovesOn(s: State, c: nat)
    requires c < |s.consumers| && (s.consumers[c].worker.Scan? || s.consumers[c].worker.Handle?)
    ensures
      var next := Step(s, Work(c));
      && OnlyWorked(s, next, c) && TurnDone(next, c) == TurnDone(s, c)
      && next.consumers[c].worker != Off
      && (var was, now := Effort(s.consumers[c]), Effort(next.consumers[c]);
          now.0 < was.0 || (now.0 == was.0 && now.1 < was.1))
  {
    hide Polled, Drained, Front, Of;
    var consumer := s.consumers[c];
    match consumer.worker
    case Scan(next) =>
      if next < |consumer.subscriptions| {
        var topic := consumer.subscriptions[next];
        assert Left(consumer, next) == [topic] + Left(consumer, next + 1);
        PolledFirst(Turn(s.queues, consumer.handled), topic, Left(consumer, next + 1));
      } else {
        assert Left(consumer, next) == [];
        PolledNothing(Turn(s.queues, consumer.handled));
      }
    case Handle(next, topic, batch) =>
      if |batch| > 0 {
        CallsFirst(topic, batch);
        assert consumer.handled + [Delivery(topic, batch[0])] + Calls(topic, batch[1..])
            == consumer.handled + ([Delivery(topic, batch[0])] + Calls(topic, batch[1..]));
      } else {
        assert consumer.handled + [] == consumer.handled;
      }
  }

  lemma PolledNothing(before: Turn)
    ensures Polled(before, []) == before
  {
  }

  // -------------------------------------------------------------------------------------------
  // The turn under way
  // -------------------------------------------------------------------------------------------

  /** The worker alone finishes the batch in hand and polls the subscriptions left. */
  lemma {:induction false} FinishTurn(subscriptions: seq<seq<string>>, states: seq<State>, trace: seq<Action>, c: nat)
    returns (longer: seq<State>, further: seq<Action>)
    requires |states| > 0 && IsRun(subscriptions, states, trace) && c < |Last(states).consumers|
    requires Last(states).consumers[c].worker != Off
    ensures IsRun(subscriptions, longer, further) && GoesOn(states, trace, longer, further, c) && |longer| > 0
    ensures OnlyWorked(Last(states), Last(longer), c) && Last(longer).consumers[c].worker == Test
    ensures TurnDone(Last(longer), c) == TurnDone(Last(states), c)
    ensures forall n | |trace| <= n < |further| :: further[n] == Work(c)
    decreases Effort(Last(states).consumers[c]).0, Effort(Last(states).consumers[c]).1
  {
    hide IsRun, GoesOn, Step, TurnDone, Effort;
    if Last(states).consumers[c].worker == Test {
      longer, further := states, trace;
      StaysPut(states, trace, c);
    } else {
      WorkMovesOn(Last(states), c);
      ghost var one, step := Extend(subscriptions, states, trace, Work(c), c);
      longer, further := FinishTurn(subscriptions, one, step, c);
      GoesOnFurther(states, trace, one, step, longer, further, c);
      OnlyThatStep(states, trace, one, step, longer, further, c);
    }
  }

  lemma StaysPut(states: seq<State>, trace: seq<Action>, c: nat)
    requires |states| > 0
    ensures GoesOn(states, trace, states, trace, c)
  {
  }

  lemma OnlyThatStep(
      states: seq<State>, trace: seq<Action>, one: seq<State>, step: seq<Action>,
      longer: seq<State>, further: seq<Action>, c: nat)
    requires step == trace + [Work(c)] && GoesOn(one, step, longer, further, c)
    requires forall n | |step| <= n < |further| :: further[n] == Work(c)
    ensures forall n | |trace| <= n < |further| :: further[n] == Work(c)
  {
    assert further[|trace|] == step[|trace|];
  }

  // -------------------------------------------------------------------------------------------
  // A started consumer polls everything it subscribed to
  // -------------------------------------------------------------------------------------------

  /** The worker is before its loop test: started if it was not, and with the turn under way done. */
  lemma ComesToTheTest(subscriptions: seq<seq<string>>, states: seq<State>, trace: seq<Action>, c: nat)
    returns (longer: seq<State>, further: seq<Action>)
    requires |states| > 0 && IsRun(subscriptions, states, trace) && c < |Last(states).consumers|
    requires Last(states).consumers[c].control != Stopping
    ensures IsRun(subscriptions, longer, further) && GoesOn(states, trace, longer, further, c) && |longer| > 0
    ensures
      var before, after := Last(states), Last(longer);
      && |after.consumers| == |before.consumers| && after.published == before.published
      && (forall j | 0 <= j < |before.consumers| && j != c :: after.consumers[j] == before.consumers[j])
      && after.consumers[c].subscriptions == before.consumers[c].subscriptions
      && after.consumers[c].running && after.consumers[c].worker == Test
      && Turn(after.queues, after.consumers[c].handled) == TurnDone(before, c)
  {
    hide IsRun, GoesOn, Polled, Calls;
    StateIsKnown(subscriptions, states, trace);
    longer, further := states, trace;
    StaysPut(states, trace, c);
    if !Last(states).consumers[c].running {
      longer, further := Extend(subscriptions, states, trace, Start(c), c);
    }
    ghost var one, step := longer, further;
    longer, further := FinishTurn(subscriptions, one, step, c);
    GoesOnFurther(states, trace, one, step, longer, further, c);
  }

  lemma StateIsKnown(subscriptions: seq<seq<string>>, states: seq<State>, trace: seq<Action>)
    requires |states| > 0 && IsRun(subscriptions, states, trace)
    ensures forall i | 0 <= i < |Last(states).consumers| :: Controlled(Last(states).consumers[i])
  {
    hide Step, FifoPerTopic, HoldsItsShare;
    RunKeepsInv(subscriptions, states, trace, |trace|);
  }

  /** From any reachable state a consumer that is not stopping can go on by its own steps alone so that,
    * after the batch in hand and the turn under way, it has polled all its subscriptions once more. */
  lemma StartedConsumerPolls(subscriptions: seq<seq<string>>, states: seq<State>, trace: seq<Action>, c: nat)
    returns (longer: seq<State>, further: seq<Action>)
    requires |states| > 0 && IsRun(subscriptions, states, trace) && c < |Last(states).consumers|
    requires Last(states).consumers[c].control != Stopping
    ensures IsRun(subscriptions, longer, further) && GoesOn(states, trace, longer, further, c) && |longer| > 0
    ensures
      var before, after := Last(states), Last(longer);
      && |after.consumers| == |before.consumers| && after.published == before.published
      && (forall j | 0 <= j < |before.consumers| && j != c :: after.consumers[j] == before.consumers[j])
      && after.consumers[c].subscriptions == before.consumers[c].subscriptions
      && after.consumers[c].running && after.consumers[c].worker == Test
      && Turn(after.queues, after.consumers[c].handled)
         == Polled(TurnDone(before, c), before.consumers[c].subscriptions)
  {
    hide IsRun, GoesOn, Polled, Calls;
    longer, further := ComesToTheTest(subscriptions, states, trace, c);
    ghost var tested, steps := longer, further;
    longer, further := Extend(subscriptions, tested, steps, Work(c), c);
    GoesOnFurther(states, trace, tested, steps, longer, further, c);
    ghost var scanning, more := longer, further;
    assert Left(Last(scanning).consumers[c], 0) == Last(states).consumers[c].subscriptions;
    assert TurnDone(Last(scanning), c) == Polled(TurnDone(Last(states), c), Last(states).consumers[c].subscriptions);
    longer, further := FinishTurn(subscriptions, scanning, more, c);
    GoesOnFurther(states, trace, scanning, more, longer, further, c);
  }

  // -------------------------------------------------------------------------------------------
  // A started consumer handles everything that waits on its topics
  // -------------------------------------------------------------------------------------------

  lemma DistinctLeft(c: Consumer, next: nat)
    requires Distinct(c.subscriptions)
    ensures Distinct(Left(c, next))
  {
  }

  /** What was handled, is in hand and waits on a topic, in that order. */
  function Due(s: State, c: nat, topic: string): seq<string>
    requires c < |s.consumers|
  {
    OnTopic(s.consumers[c].handled, topic) + Unhandled(s.consumers[c], topic) + Of(s.queues, topic)
  }

  lemma TurnKeepsDue(s: State, c: nat, topic: string)
    requires c < |s.consumers| && Distinct(s.consumers[c].subscriptions)
    ensures Seen(TurnDone(s, c), topic) == Due(s, c, topic)
  {
    hide OnTopic, Of, Polled, Calls;
    var consumer := s.consumers[c];
    assert OnTopic(consumer.handled, topic) + [] == OnTopic(consumer.handled, topic);
    match consumer.worker
    case Off =>
    case Test =>
    case Scan(next) =>
      DistinctLeft(consumer, next);
      TurnMovesOneBatch(Turn(s.queues, consumer.handled), Left(consumer, next), topic);
    case Handle(next, t, batch) =>
      DistinctLeft(consumer, next);
      TurnMovesOneBatch(Turn(s.queues, consumer.handled + Calls(t, batch)), Left(consumer, next), topic);
      CallsOnTopic(consumer.handled, t, batch, topic);
  }

  /** With the topic polled turn after turn its queue empties, everything in it handled in order. */
  lemma {:induction false} TurnsDrain(
      subscriptions: seq<seq<string>>, states: seq<State>, trace: seq<Action>, c: nat, topic: string)
    returns (longer: seq<State>, further: seq<Action>)
    requires |states| > 0 && IsRun(subscriptions, states, trace) && c < |Last(states).consumers|
    requires Last(states).consumers[c].running && Last(states).consumers[c].worker == Test
    requires Distinct(Last(states).consumers[c].subscriptions) && topic in Last(states).consumers[c].subscriptions
    ensures IsRun(subscriptions, longer, further) && GoesOn(states, trace, longer, further, c) && |longer| > 0
    ensures c < |Last(longer).consumers| && Of(Last(longer).queues, topic) == []
    ensures OnTopic(Last(longer).consumers[c].handled, topic)
         == OnTopic(Last(states).consumers[c].handled, topic) + Of(Last(states).queues, topic)
    decreases |Of(Last(states).queues, topic)|
  {
    hide IsRun, GoesOn, Polled, OnTopic, Of;
    StateIsKnown(subscriptions, states, trace);
    var before := Last(states);
    var turn := Turn(before.queues, before.consumers[c].handled);
    if Of(before.queues, topic) == [] {
      longer, further := states, trace;
      StaysPut(states, trace, c);
      assert OnTopic(before.consumers[c].handled, topic) + [] == OnTopic(before.consumers[c].handled, topic);
    } else {
      ghost var one, step := StartedConsumerPolls(subscriptions, states, trace, c);
      TurnMovesOneBatch(turn, before.consumers[c].subscriptions, topic);
      longer, further := TurnsDrain(subscriptions, one, step, c, topic);
      GoesOnFurther(states, trace, one, step, longer, further, c);
    }
  }

  /** From any reachable state a consumer that is not stopping can go on by its own steps alone until a
    * topic it subscribed to is empty and its handler has had, in order, all that was in hand or waiting. */
  lemma StartedConsumerDrains(
      subscriptions: seq<seq<string>>, states: seq<State>, trace: seq<Action>, c: nat, topic: string)
    returns (longer: seq<State>, further: seq<Action>)
    requires |states| > 0 && IsRun(subscriptions, states, trace) && c < |Last(states).consumers|
    requires Last(states).consumers[c].control != Stopping
    requires Distinct(Last(states).consumers[c].subscriptions) && topic in Last(states).consumers[c].subscriptions
    ensures IsRun(subscriptions, longer, further) && GoesOn(states, trace, longer, further, c) && |longer| > 0
    ensures c < |Last(longer).consumers| && Of(Last(longer).queues, topic) == []
    ensures
      var before := Last(states);
      OnTopic(Last(longer).consumers[c].handled, topic)
        == OnTopic(before.consumers[c].handled, topic) + Unhandled(before.consumers[c], topic)
           + Of(before.queues, topic)
  {
    hide IsRun, GoesOn, TurnDone, OnTopic, Of, Unhandled;
    ghost var tested, steps := ComesToTheTest(subscriptions, states, trace, c);
    TurnKeepsDue(Last(states), c, topic);
    longer, further := TurnsDrain(subscriptions, tested, steps, c, topic);
    GoesOnFurther(states, trace, tested, steps, longer, further, c);
  }

  // -------------------------------------------------------------------------------------------
  // A stopping consumer comes to an end
  // -------------------------------------------------------------------------------------------

  /** Once Stop has been requested the worker's own steps finish the turn and end it, and Stop can return. */
  lemma StopComesToAnEnd(subscriptions: seq<seq<string>>, states: seq<State>, trace: seq<Action>, c: nat)
    returns (longer: seq<State>, further: seq<Action>)
    requires |states| > 0 && IsRun(subscriptions, states, trace) && c < |Last(states).consumers|
    requires Last(states).consumers[c].control == Running
    ensures IsRun(subscriptions, longer, further) && |longer| > 0 && states <= longer
    ensures trace + [RequestStop(c)] <= further
    ensures forall n | |trace| < n < |further| :: further[n] == Work(c)
    ensures Enabled(Last(longer), FinishStop(c))
    ensures Turn(Last(longer).queues, Last(longer).consumers[c].handled) == TurnDone(Last(states), c)
  {
    hide IsRun, GoesOn, Polled, Calls;
    StateIsKnown(subscriptions, states, trace);
    ghost var asked, steps := ExtendStop(subscriptions, states, trace, c);
    ghost var tested, more := FinishTurn(subscriptions, asked, steps, c);
    longer, further := Extend(subscriptions, tested, more, Work(c), c);
    PrefixesJoin(states, trace, asked, steps, tested, more, longer, further, c);
  }

  lemma ExtendStop(subscriptions: seq<seq<string>>, states: seq<State>, trace: seq<Action>, c: nat)
    returns (longer: seq<State>, further: seq<Action>)
    requires |states| > 0 && IsRun(subscriptions, states, trace) && c < |Last(states).consumers|
    ensures IsRun(subscriptions, longer, further) && |longer| > 0 && states <= longer
    ensures Last(longer) == Step(Last(states), RequestStop(c)) && further == trace + [RequestStop(c)]
  {
    hide Step, Init;
    longer, further := states + [Step(Last(states), RequestStop(c))], trace + [RequestStop(c)];
  }

  lemma PrefixesJoin(
      states: seq<State>, trace: seq<Action>, asked: seq<State>, steps: seq<Action>,
      tested: seq<State>, more: seq<Action>, longer: seq<State>, further: seq<Action>, c: nat)
    requires states <= asked && steps == trace + [RequestStop(c)] && GoesOn(asked, steps, tested, more, c)
    requires (forall n | |steps| <= n < |more| :: more[n] == Work(c)) && further == more + [Work(c)]
    requires GoesOn(tested, more, longer, further, c)
    ensures states <= longer && steps <= further
    ensures forall n | |trace| < n < |further| :: further[n] == Work(c)
  {
  }
}
