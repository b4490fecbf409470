/** The in-process message bus: one queue per topic, created when the topic is first named. */
module LocalBus {

  class TopicQueue {
    var messages: seq<string>

    constructor ()
      ensures messages == []
    {
      messages := [];
    }

    /** Takes messages off the front, at most `maxCount`. */
    method PopFront(maxCount: nat) returns (out: seq<string>)
      modifies this
      ensures out + messages == old(messages)
      ensures |out| == if |old(messages)| <= maxCount then |old(messages)| else maxCount
    {
      out := [];
      while messages != [] && |out| < maxCount
        invariant out + messages == old(messages) && |out| <= maxCount
        decreases |messages|
      {
        out := out + [messages[0]];
        messages := messages[1..];
      }
    }
  }

  function Min(a: nat, b: nat): nat {
    if a < b then a else b
  }

  type Streams = map<string, seq<string>>

  /** The messages under a topic, none for a topic not named. */
  function Of(streams: Streams, topic: string): seq<string> {
    if topic in streams then streams[topic] else []
  }

  function Appended(streams: Streams, topic: string, payload: string): Streams {
    streams[topic := Of(streams, topic) + [payload]]
  }

  /** The oldest messages of a topic, at most `maxCount`. */
  function Front(streams: Streams, topic: string, maxCount: nat): seq<string> {
    Of(streams, topic)[..Min(maxCount, |Of(streams, topic)|)]
  }

  function Drained(streams: Streams, topic: string, maxCount: nat): Streams {
    streams[topic := Of(streams, topic)[|Front(streams, topic, maxCount)|..]]
  }

  lemma TakenFromTheFront(streams: Streams, topic: string, maxCount: nat, out: seq<string>, rest: seq<string>)
    requires out + rest == Of(streams, topic)
    requires |out| == if |Of(streams, topic)| <= maxCount then |Of(streams, topic)| else maxCount
    ensures out == Front(streams, topic, maxCount) && streams[topic := rest] == Drained(streams, topic, maxCount)
    ensures Of(streams[topic := rest], topic) == rest
    ensures forall t | t != topic :: Of(streams[topic := rest], t) == Of(streams, t)
  {
  }

  lemma AddedAtTheEnd(streams: Streams, topic: string, payload: string)
    ensures
      var longer := Of(streams, topic) + [payload];
      && streams[topic := longer] == Appended(streams, topic, payload)
      && Of(streams[topic := longer], topic) == longer
      && forall t | t != topic :: Of(streams[topic := longer], t) == Of(streams, t)
  {
  }

  class LocalStreamBus {
    var topics: map<string, TopicQueue>

    /** Different topics never share a queue. */
    ghost predicate Valid()
      reads this
    {
      forall s, t | s in topics && t in topics && s != t :: topics[s] != topics[t]
    }

    ghost function Contents(): Streams
      reads this, topics.Values
    {
      map t | t in topics :: topics[t].messages
    }

    /** The messages waiting under a topic. */
    ghost function Queue(topic: string): seq<string>
      reads this, topics.Values
    {
      Of(Contents(), topic)
    }

    constructor ()
      ensures Valid() && topics == map[]
    {
      topics := map[];
    }

    method QueueFor(topic: string) returns (queue: TopicQueue)
      requires Valid()
      modifies this
      ensures Valid() && topic in topics && topics[topic] == queue
      ensures topic in old(topics) ==> topics == old(topics)
      ensures topic !in old(topics) ==> fresh(queue) && queue.messages == [] && topics == old(topics)[topic := queue]
      ensures queue.messages == old(Queue(topic)) && Contents() == old(Contents())[topic := queue.messages]
    {
      if topic !in topics {
        queue := new TopicQueue();
        topics := topics[topic := queue];
      } else {
        queue := topics[topic];
      }
    }

    /** Appends to the topic's queue and touches no other. */
    method Publish(topic: string, payload: string)
      requires Valid()
      modifies this, topics.Values
      ensures Valid() && fresh(topics.Values - old(topics.Values))
      ensures Queue(topic) == old(Queue(topic)) + [payload]
      ensures forall t | t != topic :: Queue(t) == old(Queue(t))
      ensures Contents() == Appended(old(Contents()), topic, payload)
    {
      hide Of, Appended;
      ghost var before := Contents();
      var queue := QueueFor(topic);
      queue.messages := queue.messages + [payload];
      assert Contents() == before[topic := queue.messages];
      AddedAtTheEnd(before, topic, payload);
    }

    /** Takes the oldest messages of the topic, at most `maxCount`, in order. */
    method Pop(topic: string, maxCount: nat) returns (out: seq<string>)
      requires Valid()
      modifies this, topics.Values
      ensures Valid() && fresh(topics.Values - old(topics.Values))
      ensures |out| == if |old(Queue(topic))| <= maxCount then |old(Queue(topic))| else maxCount
      ensures out + Queue(topic) == old(Queue(topic))
      ensures |old(Queue(topic))| <= maxCount ==> Queue(topic) == []
      ensures forall t | t != topic :: Queue(t) == old(Queue(t))
      ensures out == Front(old(Contents()), topic, maxCount)
      ensures Contents() == Drained(old(Contents()), topic, maxCount)
    {
      hide Of, Front, Drained, Min;
      ghost var before := Contents();
      var queue := QueueFor(topic);
      out := queue.PopFront(maxCount);
      assert Contents() == before[topic := queue.messages];
      TakenFromTheFront(before, topic, maxCount, out, queue.messages);
    }
  }
}
