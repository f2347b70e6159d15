/**
 Exchanges and queues of the in-memory AMQP broker.  A queue is a first-in first-out buffer of
 message objects; an exchange copies a published message to the queues its bindings select.
 */
module AmqpBroker {
  import opened Orders
  import opened TopicRouting

  datatype ExchangeType = Fanout | Direct | Topic | Headers

  class Message {
    const body: string
    const routingKey: string
    const exchange: string
    const queue: Queue
    var acknowledged: bool
    var requeued: bool

    constructor (body: string, routingKey: string, exchange: string, queue: Queue)
      ensures this.body == body && this.routingKey == routingKey && this.exchange == exchange
      ensures this.queue == queue && !acknowledged && !requeued
    {
      this.body, this.routingKey, this.exchange, this.queue := body, routingKey, exchange, queue;
      acknowledged, requeued := false, false;
    }

    /** Negative acknowledgement: puts the message back at the head of its queue if asked to. */
    method Nack(requeue: bool)
      modifies this, queue
      ensures !acknowledged && requeued == (old(requeued) || requeue)
      ensures queue.messages == if requeue then [this] + old(queue.messages) else old(queue.messages)
    {
      acknowledged := false;
      if requeue {
        requeued := true;
        queue.messages := [this] + queue.messages;
      }
    }
  }

  class Queue {
    var messages: seq<Message>

    constructor ()
      ensures messages == []
    {
      messages := [];
    }

    method Get(noAck: bool) returns (m: Message?)
      modifies this, messages
      ensures old(messages) == [] ==> m == null && messages == []
      ensures old(messages) != [] ==>
                && m == old(messages)[0] && messages == old(messages)[1..]
                && m.acknowledged == (old(messages[0].acknowledged) || noAck)
      ensures forall x :: x in old(messages) && x != m ==> x.acknowledged == old(x.acknowledged)
    {
      if messages == [] { return null; }
      m := messages[0];
      messages := messages[1..];
      if noAck { m.acknowledged := true; }
    }
  }

  class Exchange {
    const name: string
    const kind: ExchangeType
    const fits: (string, string) -> bool
    /** Binding patterns in insertion order, and the queues bound under each. */
    var patterns: seq<string>
    var bindings: map<string, seq<Queue>>
    var fanout: seq<Queue>

    ghost predicate Valid()
      reads this
    {
      && (forall p :: p in patterns <==> p in bindings)
      && (forall p :: p in bindings ==> Distinct(bindings[p]))
      && Distinct(fanout)
    }

    constructor (name: string, kind: ExchangeType, fits: (string, string) -> bool)
      ensures Valid() && this.name == name && this.kind == kind && this.fits == fits
      ensures bindings == map[] && fanout == []
    {
      this.name, this.kind, this.fits := name, kind, fits;
      patterns, bindings, fanout := [], map[], [];
    }

    ghost predicate Bound(q: Queue, pattern: string)
      reads this
    {
      pattern in bindings && q in bindings[pattern]
    }

    function QueuesAt(pattern: string): seq<Queue>
      reads this
    {
      if pattern in bindings then bindings[pattern] else []
    }

    /** The queues a message with this routing key has to reach. */
    ghost predicate Selects(q: Queue, routingKey: string)
      reads this
    {
      match kind
      case Fanout => q in fanout
      case Direct => Bound(q, routingKey)
      case Topic => exists p :: Bound(q, p) && TopicMatches(fits, p, routingKey)
      case Headers => false
    }

    ghost function Queues(): set<Queue>
      reads this
    {
      (set q | q in fanout) + set p, q | p in bindings && q in bindings[p] :: q
    }

    method AddBinding(queue: Queue, routingKey: string)
      requires Valid()
      modifies this
      ensures Valid()
      ensures kind.Fanout? ==>
                && bindings == old(bindings)
                && fanout == if queue in old(fanout) then old(fanout) else old(fanout) + [queue]
      ensures !kind.Fanout? ==>
                && fanout == old(fanout)
                && routingKey in bindings && (forall p :: p != routingKey ==> QueuesAt(p) == old(QueuesAt(p)))
                && bindings.Keys == old(bindings).Keys + {routingKey}
                && QueuesAt(routingKey) == if queue in old(QueuesAt(routingKey)) then old(QueuesAt(routingKey))
                                           else old(QueuesAt(routingKey)) + [queue]
    {
      if kind.Fanout? {
        if queue !in fanout { fanout := fanout + [queue]; }
      } else {
        if routingKey !in bindings {
          patterns := patterns + [routingKey];
          bindings := bindings[routingKey := []];
        }
        if queue !in bindings[routingKey] {
          bindings := bindings[routingKey := bindings[routingKey] + [queue]];
        }
      }
    }

    /** The list of target queues, each queue once. */
    method Targets(routingKey: string) returns (targets: seq<Queue>)
      requires Valid()
      ensures Distinct(targets)
      ensures forall q :: q in targets <==> Selects(q, routingKey)
    {
      targets := [];
      match kind
      case Fanout =>
        targets := fanout;
      case Direct =>
        if routingKey in bindings { targets := bindings[routingKey]; }
      case Headers =>
      case Topic =>
        for i := 0 to |patterns|
          invariant Distinct(targets)
          invariant forall q :: q in targets <==>
                      exists k :: 0 <= k < i && Bound(q, patterns[k]) && TopicMatches(fits, patterns[k], routingKey)
        {
          if TopicMatches(fits, patterns[i], routingKey) {
            targets := AddMissing(targets, bindings[patterns[i]]);
          }
        }
    }

    static method AddMissing(targets: seq<Queue>, queues: seq<Queue>) returns (all: seq<Queue>)
      requires Distinct(targets)
      ensures Distinct(all) && forall q :: q in all <==> q in targets || q in queues
    {
      all := targets;
      for j := 0 to |queues|
        invariant Distinct(all)
        invariant forall q :: q in all <==> q in targets || q in queues[..j]
      {
        if queues[j] !in all { all := all + [queues[j]]; }
        assert queues[..j + 1] == queues[..j] + [queues[j]];
      }
      assert queues[..|queues|] == queues;
    }

    /** Exactly one new copy at the end of every selected queue, and nothing anywhere else. */
    method Publish(body: string, routingKey: string)
      requires Valid()
      modifies Queues()
      ensures Valid()
      ensures forall q :: q in Queues() && !Selects(q, routingKey) ==> q.messages == old(q.messages)
      ensures forall q :: q in Queues() && Selects(q, routingKey) ==>
                && |q.messages| == |old(q.messages)| + 1
                && q.messages[..|old(q.messages)|] == old(q.messages)
                && var m := q.messages[|old(q.messages)|];
                   fresh(m) && m.body == body && m.routingKey == routingKey && m.exchange == name && m.queue == q
    {
      var targets := Targets(routingKey);
      ghost var queues := Queues();
      forall q | q in targets ensures q in queues {}
      for i := 0 to |targets|
        invariant forall q :: q in queues && q !in targets[..i] ==> q.messages == old(q.messages)
        invariant forall q :: q in queues && q in targets[..i] ==>
                    && |q.messages| == |old(q.messages)| + 1
                    && q.messages[..|old(q.messages)|] == old(q.messages)
                    && var m := q.messages[|old(q.messages)|];
                       fresh(m) && m.body == body && m.routingKey == routingKey && m.exchange == name && m.queue == q
      {
        var q := targets[i];
        assert q in targets && q in queues && q !in targets[..i];
        assert targets[..i + 1] == targets[..i] + [q];
        var m := new Message(body, routingKey, name, q);
        q.messages := q.messages + [m];
      }
      assert targets[..|targets|] == targets;
    }
  }

  /** Taking a message and putting it back with a negative acknowledgement restores the queue. */
  method GetThenRequeue(q: Queue) returns (m: Message?)
    requires forall x :: x in q.messages ==> x.queue == q
    modifies q, q.messages
    ensures q.messages == old(q.messages)
    ensures m != null <==> old(q.messages) != []
  {
    m := q.Get(false);
    if m != null { m.Nack(true); }
  }
}
