/** A bus consumer. Its worker polls the subscribed topics in turn and hands every message it popped to
  * the topic's handler; `handled` records those calls. */
module BusConsumer {
  import opened LocalBus

  datatype Delivery = Delivery(topic: string, payload: string)

  const BATCH: nat := 32

  function OnTopic(deliveries: seq<Delivery>, topic: string): seq<string> {
    if |deliveries| == 0 then []
    else
      var last := deliveries[|deliveries| - 1];
      OnTopic(deliveries[..|deliveries| - 1], topic) + (if last.topic == topic then [last.payload] else [])
  }

  lemma OneMore(deliveries: seq<Delivery>, d: Delivery, topic: string)
    ensures OnTopic(deliveries + [d], topic)
        == OnTopic(deliveries, topic) + (if d.topic == topic then [d.payload] else [])
  {
    assert (deliveries + [d])[..|deliveries|] == deliveries;
  }

  ghost predicate Distinct(topics: seq<string>) {
    forall i, j | 0 <= i < j < |topics| :: topics[i] != topics[j]
  }

  /** A batch as handler calls. */
  function Calls(topic: string, batch: seq<string>): seq<Delivery> {
    if |batch| == 0 then []
    else Calls(topic, batch[..|batch| - 1]) + [Delivery(topic, batch[|batch| - 1])]
  }

  lemma {:induction false} CallsOnTopic(deliveries: seq<Delivery>, topic: string, batch: seq<string>, t: string)
    ensures OnTopic(deliveries + Calls(topic, batch), t)
         == OnTopic(deliveries, t) + (if t == topic then batch else [])
  {
    hide OnTopic;
    if |batch| == 0 {
      assert deliveries + [] == deliveries;
      assert OnTopic(deliveries, t) + [] == OnTopic(deliveries, t);
    } else {
      var n := |batch| - 1;
      var front, last := batch[..n], Delivery(topic, batch[n]);
      var before := deliveries + Calls(topic, front);
      CallsOnTopic(deliveries, topic, front, t);
      OneMore(before, last, t);
      assert deliveries + Calls(topic, batch) == before + [last];
      if t == topic {
        assert OnTopic(deliveries, t) + front + [batch[n]] == OnTopic(deliveries, t) + (front + [batch[n]]);
        assert front + [batch[n]] == batch;
      }
    }
  }

  /** The queues of the bus and the handler calls of a consumer. */
  datatype Turn = Turn(streams: Streams, handled: seq<Delivery>)

  function PolledOnce(before: Turn, topic: string): Turn {
    Turn(Drained(before.streams, topic, BATCH),
         before.handled + Calls(topic, Front(before.streams, topic, BATCH)))
  }

  function Polled(before: Turn, topics: seq<string>): Turn {
    if |topics| == 0 then before else PolledOnce(Polled(before, topics[..|topics| - 1]), topics[|topics| - 1])
  }

  /** What was handled from a topic and what waits there, in that order. */
  function Seen(turn: Turn, topic: string): seq<string> {
    OnTopic(turn.handled, topic) + Of(turn.streams, topic)
  }

  lemma OncePolled(before: Turn, topic: string, t: string)
    ensures
      var after := PolledOnce(before, topic);
      && Seen(after, t) == Seen(before, t)
      && |Of(before.streams, t)| - |Of(after.streams, t)|
           == (if t != topic then 0 else if |Of(before.streams, t)| <= 32 then |Of(before.streams, t)| else 32)
      && (t != topic ==> Of(after.streams, t) == Of(before.streams, t))
  {
    hide OnTopic;
    var batch := Front(before.streams, topic, BATCH);
    CallsOnTopic(before.handled, topic, batch, t);
    var left := Of(Drained(before.streams, topic, BATCH), t);
    if t == topic {
      assert batch + left == Of(before.streams, topic);
      assert OnTopic(before.handled, t) + batch + left == OnTopic(before.handled, t) + (batch + left);
    } else {
      assert OnTopic(before.handled, t) + [] == OnTopic(before.handled, t);
    }
  }

  /** A turn over the topics moves the oldest messages of each, at most a batch, from its queue to its
    * handler in order: nothing is lost or reordered, and no other topic changes. */
  lemma {:induction false} TurnMovesOneBatch(before: Turn, topics: seq<string>, t: string)
    requires Distinct(topics)
    ensures
      var after := Polled(before, topics);
      && Seen(after, t) == Seen(before, t)
      && |Of(before.streams, t)| - |Of(after.streams, t)|
           == (if t !in topics then 0 else if |Of(before.streams, t)| <= 32 then |Of(before.streams, t)| else 32)
      && (t !in topics ==> Of(after.streams, t) == Of(before.streams, t))
  {
    hide Seen, Of, PolledOnce;
    if |topics| > 0 {
      var front, last := topics[..|topics| - 1], topics[|topics| - 1];
      TurnMovesOneBatch(before, front, t);
      OncePolled(Polled(before, front), last, t);
      assert t in topics <==> t in front || t == last;
      assert last !in front;
    }
  }

  /** A turn empties a polled topic with no more than a batch waiting and hands it all to the handler. */
  lemma ShortQueueIsEmptied(before: Turn, topics: seq<string>, t: string)
    requires Distinct(topics) && t in topics && |Of(before.streams, t)| <= 32
    ensures
      var after := Polled(before, topics);
      && Of(after.streams, t) == []
      && OnTopic(after.handled, t) == OnTopic(before.handled, t) + Of(before.streams, t)
  {
    hide OnTopic, Of, Polled;
    TurnMovesOneBatch(before, topics, t);
    var after := Polled(before, topics);
    assert OnTopic(after.handled, t) + [] == OnTopic(after.handled, t);
  }

  class RedisStreamsConsumer {
    const bus: LocalStreamBus
    var subscriptions: seq<string>
    var handled: seq<Delivery>

    constructor (bus: LocalStreamBus)
      ensures this.bus == bus && subscriptions == [] && handled == []
    {
      this.bus, subscriptions, handled := bus, [], [];
    }

    /** A topic is polled once a turn, however often it is subscribed. */
    method Subscribe(topic: string)
      requires Distinct(subscriptions)
      modifies this
      ensures Distinct(subscriptions) && handled == old(handled)
      ensures forall t :: t in subscriptions <==> t in old(subscriptions) || t == topic
    {
      if topic !in subscriptions {
        subscriptions := subscriptions + [topic];
      }
    }

    /** Hands a batch to the handler of its topic. */
    method Handle(topic: string, batch: seq<string>)
      modifies this`handled
      ensures handled == old(handled) + Calls(topic, batch)
    {
      for i := 0 to |batch|
        invariant handled == old(handled) + Calls(topic, batch[..i])
      {
        assert batch[..i + 1][..i] == batch[..i];
        handled := handled + [Delivery(topic, batch[i])];
      }
      assert batch[..|batch|] == batch;
    }

    /** Pops one batch of a topic and hands it to the handler. */
    method PollTopic(topic: string) returns (any: bool)
      requires bus.Valid()
      modifies this`handled, bus, bus.topics.Values
      ensures bus.Valid() && fresh(bus.topics.Values - old(bus.topics.Values))
      ensures Turn(bus.Contents(), handled) == PolledOnce(old(Turn(bus.Contents(), handled)), topic)
      ensures any <==> Of(old(bus.Contents()), topic) != []
    {
      hide Drained, Front, Of, Calls;
      EmptyBatch(bus.Contents(), topic);
      var batch := bus.Pop(topic, BATCH);
      Handle(topic, batch);
      any := batch != [];
    }

    /** One turn of the worker, with nobody else on the bus; it tells whether anything was handled. */
    method Poll() returns (any: bool)
      requires bus.Valid() && Distinct(subscriptions)
      modifies this`handled, bus, bus.topics.Values
      ensures bus.Valid()
      ensures Turn(bus.Contents(), handled) == Polled(old(Turn(bus.Contents(), handled)), subscriptions)
      ensures any <==> exists i :: 0 <= i < |subscriptions| && Of(old(bus.Contents()), subscriptions[i]) != []
    {
      hide PolledOnce, Of;
      ghost var before := Turn(bus.Contents(), handled);
      any := false;
      for i := 0 to |subscriptions|
        invariant bus.Valid() && fresh(bus.topics.Values - old(bus.topics.Values))
        invariant Turn(bus.Contents(), handled) == Polled(before, subscriptions[..i])
        invariant any <==> exists k :: 0 <= k < i && Of(before.streams, subscriptions[k]) != []
      {
        assert subscriptions[..i + 1][..i] == subscriptions[..i];
        TurnMovesOneBatch(before, subscriptions[..i], subscriptions[i]);
        var some := PollTopic(subscriptions[i]);
        any := any || some;
      }
      assert subscriptions[..|subscriptions|] == subscriptions;
    }
  }

  lemma EmptyBatch(streams: Streams, topic: string)
    ensures Front(streams, topic, BATCH) == [] <==> Of(streams, topic) == []
  {
  }
}
