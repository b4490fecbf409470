/** Every interleaving of publishers with any number of polling consumers, each with its worker
  * thread and its Start and Stop calls (which, for one consumer, do not overlap each other). */
module BusRuns {
  import opened LocalBus
  import opened BusConsumer

  datatype Control = Idle | Running | Stopping

  /** Where a worker stands: not alive, before the loop test, about to pop the `next`-th subscription,
    * or with messages of a popped batch still to hand to the handler. */
  datatype Worker =
    | Off
    | Test
    | Scan(next: nat)
    | Handle(next: nat, topic: string, batch: seq<string>)

  datatype Consumer = Consumer(
    subscriptions: seq<string>, control: Control, running: bool, worker: Worker, handled: seq<Delivery>)

  /** One pop from the bus. */
  datatype Taken = Taken(consumer: nat, topic: string, batch: seq<string>)

  /** The queues and the consumers, with the history of publishes and pops. */
  datatype State = State(queues: Streams, consumers: seq<Consumer>, published: Streams, taken: seq<Taken>)

  datatype Action =
    | Publish(topic: string, payload: string)
    | Start(consumer: nat)
    | Work(consumer: nat)
    | RequestStop(consumer: nat)
    | FinishStop(consumer: nat)

  predicate Enabled(s: State, action: Action) {
    match action
    case Publish(_, _) => true
    case Start(c) => c < |s.consumers| && s.consumers[c].control != Stopping
    case Work(c) => c < |s.consumers| && s.consumers[c].worker != Off
    case RequestStop(c) => c < |s.consumers|
    case FinishStop(c) => c < |s.consumers| && s.consumers[c].control == Stopping && s.consumers[c].worker == Off
  }

  /** Start and Stop do nothing when the running flag already says so. */
  function Started(c: Consumer): Consumer {
    if c.running then c else c.(control := Running, running := true, worker := Test)
  }

  function StopRequested(c: Consumer): Consumer {
    if !c.running then c else c.(control := Stopping, running := false)
  }

  /** A worker step that does not touch the bus. */
  function LocalWork(c: Consumer): Consumer
    requires c.worker != Off && !(c.worker.Scan? && c.worker.next < |c.subscriptions|)
  {
    match c.worker
    case Test => if c.running then c.(worker := Scan(0)) else c.(worker := Off)
    case Scan(_) => c.(worker := Test)
    case Handle(next, topic, batch) =>
      if |batch| == 0 then c.(worker := Scan(next))
      else c.(worker := Handle(next, topic, batch[1..]), handled := c.handled + [Delivery(topic, batch[0])])
  }

  function Step(s: State, action: Action): State
    requires Enabled(s, action)
  {
    match action
    case Publish(topic, payload) =>
      s.(queues := Appended(s.queues, topic, payload), published := Appended(s.published, topic, payload))
    case Start(i) => s.(consumers := s.consumers[i := Started(s.consumers[i])])
    case RequestStop(i) => s.(consumers := s.consumers[i := StopRequested(s.consumers[i])])
    case FinishStop(i) => s.(consumers := s.consumers[i := s.consumers[i].(control := Idle)])
    case Work(i) =>
      var c := s.consumers[i];
      if c.worker.Scan? && c.worker.next < |c.subscriptions| then
        var topic := c.subscriptions[c.worker.next];
        var batch := Front(s.queues, topic, BATCH);
        State(Drained(s.queues, topic, BATCH),
              s.consumers[i := c.(worker := Handle(c.worker.next + 1, topic, batch))],
              s.published,
              s.taken + [Taken(i, topic, batch)])
      else
        s.(consumers := s.consumers[i := LocalWork(c)])
  }

  function Init(subscriptions: seq<seq<string>>): State {
    State(map[],
          seq(|subscriptions|, i requires 0 <= i < |subscriptions| => Consumer(subscriptions[i], Idle, false, Off, [])),
          map[], [])
  }

  ghost predicate IsRun(subscriptions: seq<seq<string>>, states: seq<State>, trace: seq<Action>) {
    && |states| == |trace| + 1
    && states[0] == Init(subscriptions)
    && forall n | 0 <= n < |trace| :: Enabled(states[n], trace[n]) && states[n + 1] == Step(states[n], trace[n])
  }

  // -------------------------------------------------------------------------------------------
  // The stream of a topic and who took what
  // -------------------------------------------------------------------------------------------

  /** All batches popped from a topic, in pop order. */
  function Flat(taken: seq<Taken>, topic: string): seq<string> {
    if |taken| == 0 then []
    else
      var last := taken[|taken| - 1];
      Flat(taken[..|taken| - 1], topic) + (if last.topic == topic then last.batch else [])
  }

  function Repeat(c: nat, n: nat): (s: seq<nat>)
    ensures |s| == n && forall k | 0 <= k < n :: s[k] == c
  {
    if n == 0 then [] else Repeat(c, n - 1) + [c]
  }

  /** Which consumer took each message of that stream: every position has one owner. */
  function Owners(taken: seq<Taken>, topic: string): (owners: seq<nat>)
    ensures |owners| == |Flat(taken, topic)|
  {
    if |taken| == 0 then []
    else
      var last := taken[|taken| - 1];
      Owners(taken[..|taken| - 1], topic) + (if last.topic == topic then Repeat(last.consumer, |last.batch|) else [])
  }

  /** The messages of a stream that belong to one consumer, in stream order. */
  function Share(stream: seq<string>, owners: seq<nat>, c: nat): seq<string>
    requires |owners| <= |stream|
  {
    if |owners| == 0 then []
    else
      var k := |owners| - 1;
      Share(stream, owners[..k], c) + (if owners[k] == c then [stream[k]] else [])
  }

  /** What a consumer has popped from a topic but not yet handed to its handler. */
  function Unhandled(c: Consumer, topic: string): seq<string> {
    if c.worker.Handle? && c.worker.topic == topic then c.worker.batch else []
  }

  lemma {:induction false} ShareAppends(stream: seq<string>, owners: seq<nat>, more: seq<string>, owner: nat, c: nat)
    requires |owners| == |stream|
    ensures Share(stream + more, owners + Repeat(owner, |more|), c)
         == Share(stream, owners, c) + (if owner == c then more else [])
    decreases |more|
  {
    var n := |more|;
    var all, longer := stream + more, owners + Repeat(owner, n);
    if n == 0 {
      assert all == stream && longer == owners;
    } else {
      ShareAppends(stream, owners, more[..n - 1], owner, c);
      ShareOfPrefix(stream + more[..n - 1], all, owners + Repeat(owner, n - 1), c);
      assert longer[..|longer| - 1] == owners + Repeat(owner, n - 1);
      assert more[..n - 1] + [more[n - 1]] == more;
    }
  }

  /** A share looks only at positions that have an owner. */
  lemma {:induction false} ShareOfPrefix(stream: seq<string>, longer: seq<string>, owners: seq<nat>, c: nat)
    requires |owners| <= |stream| <= |longer| && stream == longer[..|stream|]
    ensures Share(stream, owners, c) == Share(longer, owners, c)
  {
    if |owners| > 0 {
      ShareOfPrefix(stream, longer, owners[..|owners| - 1], c);
    }
  }

  // -------------------------------------------------------------------------------------------
  // What every step keeps
  // -------------------------------------------------------------------------------------------

  /** The popped batches in pop order, followed by the queue, are what was published. */
  ghost predicate FifoPerTopic(s: State) {
    forall topic :: Flat(s.taken, topic) + Of(s.queues, topic) == Of(s.published, topic)
  }

  /** What a consumer handled and what it still holds is its share of the topic's stream. */
  ghost predicate HoldsItsShare(s: State, i: nat, topic: string)
    requires i < |s.consumers|
  {
    OnTopic(s.consumers[i].handled, topic) + Unhandled(s.consumers[i], topic)
      == Share(Flat(s.taken, topic), Owners(s.taken, topic), i)
  }

  ghost predicate Controlled(c: Consumer) {
    && (c.running <==> c.control == Running)
    && (c.control == Idle ==> c.worker == Off)
    && (c.control == Running ==> c.worker != Off)
  }

  ghost predicate Inv(s: State) {
    && FifoPerTopic(s)
    && (forall i: nat, topic | i < |s.consumers| :: HoldsItsShare(s, i, topic))
    && (forall i | 0 <= i < |s.consumers| :: Controlled(s.consumers[i]))
  }

  lemma TakenAppends(taken: seq<Taken>, t: Taken, topic: string)
    ensures Flat(taken + [t], topic) == Flat(taken, topic) + (if t.topic == topic then t.batch else [])
    ensures Owners(taken + [t], topic)
         == Owners(taken, topic) + (if t.topic == topic then Repeat(t.consumer, |t.batch|) else [])
  {
    assert (taken + [t])[..|taken|] == taken;
  }

  lemma HandlingOne(c: Consumer, topic: string)
    requires c.worker.Handle? && |c.worker.batch| > 0
    ensures
      var next := LocalWork(c);
      OnTopic(next.handled, topic) + Unhandled(next, topic) == OnTopic(c.handled, topic) + Unhandled(c, topic)
  {
    var next := LocalWork(c);
    assert next.handled[..|next.handled| - 1] == c.handled;
    if c.worker.topic == topic {
      assert [c.worker.batch[0]] + c.worker.batch[1..] == c.worker.batch;
    }
  }

  lemma LocalWorkKeepsHoldings(c: Consumer, topic: string)
    requires c.worker != Off && !(c.worker.Scan? && c.worker.next < |c.subscriptions|)
    ensures OnTopic(LocalWork(c).handled, topic) + Unhandled(LocalWork(c), topic)
        == OnTopic(c.handled, topic) + Unhandled(c, topic)
  {
    if c.worker.Handle? && |c.worker.batch| > 0 {
      HandlingOne(c, topic);
    }
  }

  /** What a pop by consumer `i` takes. */
  function PoppedBy(s: State, i: nat): Taken
    requires Pops(s, Work(i))
  {
    var topic := s.consumers[i].subscriptions[s.consumers[i].worker.next];
    Taken(i, topic, Front(s.queues, topic, BATCH))
  }

  lemma PopStep(s: State, i: nat, topic: string)
    requires Pops(s, Work(i))
    ensures
      var next, t := Step(s, Work(i)), PoppedBy(s, i);
      && next.taken == s.taken + [t] && next.published == s.published
      && Of(s.queues, topic) == (if t.topic == topic then t.batch else []) + Of(next.queues, topic)
      && |next.consumers| == |s.consumers|
  {
  }

  lemma PopStepConsumers(s: State, i: nat, j: nat, topic: string)
    requires Pops(s, Work(i)) && j < |s.consumers|
    ensures
      var next, t := Step(s, Work(i)), PoppedBy(s, i);
      && next.consumers[j].handled == s.consumers[j].handled
      && (j != i ==> next.consumers[j] == s.consumers[j])
      && Unhandled(s.consumers[i], topic) == []
      && Unhandled(next.consumers[i], topic) == if t.topic == topic then t.batch else []
  {
  }

  lemma PopKeepsFifo(s: State, i: nat, topic: string)
    requires Pops(s, Work(i))
    requires Flat(s.taken, topic) + Of(s.queues, topic) == Of(s.published, topic)
    ensures
      var next := Step(s, Work(i));
      Flat(next.taken, topic) + Of(next.queues, topic) == Of(next.published, topic)
  {
    hide Step;
    PopStep(s, i, topic);
    TakenAppends(s.taken, PoppedBy(s, i), topic);
    var t, left := PoppedBy(s, i), Of(Step(s, Work(i)).queues, topic);
    var more := if t.topic == topic then t.batch else [];
    assert Flat(s.taken, topic) + (more + left) == Flat(s.taken, topic) + more + left;
  }

  /** Popping moves a batch from the queue to one consumer's hands and to its share. */
  lemma PopKeepsShares(s: State, i: nat, j: nat, topic: string)
    requires Pops(s, Work(i)) && j < |s.consumers| == |Step(s, Work(i)).consumers| && HoldsItsShare(s, j, topic)
    ensures HoldsItsShare(Step(s, Work(i)), j, topic)
  {
    hide Step, Pops, OnTopic, Unhandled, Share, Flat, Owners, PoppedBy;
    var t := PoppedBy(s, i);
    PopStep(s, i, topic);
    PopStepConsumers(s, i, j, topic);
    TakenAppends(s.taken, t, topic);
    PopOwner(s, i);
    if t.topic == topic {
      ShareAppends(Flat(s.taken, topic), Owners(s.taken, topic), t.batch, i, j);
    } else {
      assert Flat(s.taken, topic) + [] == Flat(s.taken, topic);
      assert Owners(s.taken, topic) + [] == Owners(s.taken, topic);
    }
  }

  lemma PopOwner(s: State, i: nat)
    requires Pops(s, Work(i))
    ensures PoppedBy(s, i).consumer == i
  {
  }

  lemma PopKeepsInv(s: State, i: nat)
    requires Inv(s) && Pops(s, Work(i))
    ensures Inv(Step(s, Work(i)))
  {
    hide HoldsItsShare, Pops, Of, Flat, OnTopic, Unhandled, Share, Owners;
    PopKeepsControl(s, i);
    forall topic
      ensures Flat(Step(s, Work(i)).taken, topic) + Of(Step(s, Work(i)).queues, topic)
           == Of(Step(s, Work(i)).published, topic)
    {
      PopKeepsFifo(s, i, topic);
    }
    forall j: nat, topic | j < |Step(s, Work(i)).consumers|
      ensures HoldsItsShare(Step(s, Work(i)), j, topic)
    {
      PopKeepsShares(s, i, j, topic);
    }
  }

  lemma PopKeepsControl(s: State, i: nat)
    requires Pops(s, Work(i)) && forall k | 0 <= k < |s.consumers| :: Controlled(s.consumers[k])
    ensures Enabled(s, Work(i)) && |Step(s, Work(i)).consumers| == |s.consumers|
    ensures forall k | 0 <= k < |s.consumers| :: Controlled(Step(s, Work(i)).consumers[k])
  {
  }

  lemma StepKeepsInv(s: State, action: Action)
    requires Inv(s) && Enabled(s, action)
    ensures Inv(Step(s, action))
  {
    hide Step, HoldsItsShare, FifoPerTopic, Controlled;
    if Pops(s, action) {
      PopKeepsInv(s, action.consumer);
    } else {
      OtherStepsKeepFifo(s, action);
      OtherStepsKeepShares(s, action);
    }
  }

  predicate Pops(s: State, action: Action) {
    action.Work? && action.consumer < |s.consumers| &&
    var c := s.consumers[action.consumer];
    c.worker.Scan? && c.worker.next < |c.subscriptions|
  }

  lemma OtherStepsKeepFifo(s: State, action: Action)
    requires FifoPerTopic(s) && Enabled(s, action) && !Pops(s, action)
    ensures FifoPerTopic(Step(s, action))
  {
    var next := Step(s, action);
    forall topic
      ensures Flat(next.taken, topic) + Of(next.queues, topic) == Of(next.published, topic)
    {
      assert Flat(s.taken, topic) + Of(s.queues, topic) == Of(s.published, topic);
      if action.Publish? && action.topic == topic {
        assert Flat(s.taken, topic) + (Of(s.queues, topic) + [action.payload])
            == Flat(s.taken, topic) + Of(s.queues, topic) + [action.payload];
      }
    }
  }

  lemma OtherStepsKeepShares(s: State, action: Action)
    requires Enabled(s, action) && !Pops(s, action)
    requires forall i: nat, topic | i < |s.consumers| :: HoldsItsShare(s, i, topic)
    requires forall i | 0 <= i < |s.consumers| :: Controlled(s.consumers[i])
    ensures forall i: nat, topic | i < |Step(s, action).consumers| :: HoldsItsShare(Step(s, action), i, topic)
    ensures forall i | 0 <= i < |Step(s, action).consumers| :: Controlled(Step(s, action).consumers[i])
  {
    var next := Step(s, action);
    forall i: nat, topic | i < |next.consumers|
      ensures HoldsItsShare(next, i, topic)
    {
      assert HoldsItsShare(s, i, topic);
      if action.Work? && action.consumer == i {
        LocalWorkKeepsHoldings(s.consumers[i], topic);
      }
    }
  }

  lemma {:induction false} RunKeepsInv(subscriptions: seq<seq<string>>, states: seq<State>, trace: seq<Action>, n: nat)
    requires IsRun(subscriptions, states, trace) && n <= |trace|
    ensures Inv(states[n])
  {
    if n > 0 {
      RunKeepsInv(subscriptions, states, trace, n - 1);
      assert Enabled(states[n - 1], trace[n - 1]);
      StepKeepsInv(states[n - 1], trace[n - 1]);
    }
  }

  // -------------------------------------------------------------------------------------------
  // Delivery
  // -------------------------------------------------------------------------------------------

  /** The payloads sent to a topic by the first `n` actions. */
  function Sent(trace: seq<Action>, n: nat, topic: string): seq<string>
    requires n <= |trace|
  {
    if n == 0 then []
    else
      Sent(trace, n - 1, topic)
      + (if trace[n - 1].Publish? && trace[n - 1].topic == topic then [trace[n - 1].payload] else [])
  }

  lemma {:induction false} PublishedIsSent(
      subscriptions: seq<seq<string>>, states: seq<State>, trace: seq<Action>, n: nat, topic: string)
    requires IsRun(subscriptions, states, trace) && n <= |trace|
    ensures Of(states[n].published, topic) == Sent(trace, n, topic)
  {
    if n > 0 {
      PublishedIsSent(subscriptions, states, trace, n - 1, topic);
      assert Enabled(states[n - 1], trace[n - 1]);
    }
  }

  /** At every step, for each topic, the popped batches in pop order followed by the queue are the
    * sequence published so far; every popped position has exactly one owner, and what a consumer handled and
    * still holds is what it owns, in publish order. */
  lemma EveryMessageOnceInOrder(
      subscriptions: seq<seq<string>>, states: seq<State>, trace: seq<Action>, n: nat, c: nat, topic: string)
    requires IsRun(subscriptions, states, trace) && n <= |trace| && c < |states[n].consumers|
    ensures
      var s := states[n];
      var published, owners := Sent(trace, n, topic), Owners(s.taken, topic);
      && |owners| <= |published| && Flat(s.taken, topic) == published[..|owners|]
      && published == published[..|owners|] + Of(s.queues, topic)
      && OnTopic(s.consumers[c].handled, topic) + Unhandled(s.consumers[c], topic) == Share(published, owners, c)
  {
    RunKeepsInv(subscriptions, states, trace, n);
    PublishedIsSent(subscriptions, states, trace, n, topic);
    var s := states[n];
    assert HoldsItsShare(s, c, topic);
    var flat := Flat(s.taken, topic);
    assert flat + Of(s.queues, topic) == Of(s.published, topic);
    assert flat == Of(s.published, topic)[..|flat|];
    ShareOfPrefix(flat, Of(s.published, topic), Owners(s.taken, topic), c);
  }

  /** When Stop has returned, the consumer has handled everything it popped, on every topic. */
  lemma StopLeavesNothingUnhandled(
      subscriptions: seq<seq<string>>, states: seq<State>, trace: seq<Action>, n: nat, c: nat, topic: string)
    requires IsRun(subscriptions, states, trace) && n < |trace| && trace[n] == FinishStop(c)
    requires c < |states[n + 1].consumers|
    ensures OnTopic(states[n + 1].consumers[c].handled, topic)
         == Share(Flat(states[n + 1].taken, topic), Owners(states[n + 1].taken, topic), c)
  {
    RunKeepsInv(subscriptions, states, trace, n + 1);
    var s := states[n + 1];
    assert Enabled(states[n], trace[n]);
    assert HoldsItsShare(s, c, topic) && s.consumers[c].worker == Off;
    assert OnTopic(s.consumers[c].handled, topic) + [] == OnTopic(s.consumers[c].handled, topic);
  }
}
