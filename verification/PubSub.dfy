/** The publish/subscribe fallback of `backend/app/realtime/pubsub.py`: in-memory queues per
    channel, used when Redis is off or has failed once. */
module PubSub {
  import opened Text

  /** An unbounded `asyncio.Queue`. */
  class Queue<E> {
    var items: seq<E>

    constructor ()
      ensures items == []
    {
      items := [];
    }
  }

  /** The fallback state: the queues of each channel and what they hold. `Q` stands for the
      queue objects. */
  datatype Hub<!Q, E> = Hub(channels: map<string, set<Q>>, items: map<Q, seq<E>>)

  function Members<Q, E>(h: Hub<Q, E>, channel: string): set<Q> {
    if channel in h.channels then h.channels[channel] else {}
  }

  function PublishStep<Q, E>(h: Hub<Q, E>, channel: string, event: E): Hub<Q, E> {
    if channel == "" then h
    else h.(items := map q | q in h.items :: if q in Members(h, channel) then h.items[q] + [event] else h.items[q])
  }

  function SubscribeStep<Q, E>(h: Hub<Q, E>, queue: Q, channel: string): Hub<Q, E> {
    Hub(h.channels[channel := Members(h, channel) + {queue}], h.items[queue := []])
  }

  function ReceiveStep<Q, E>(h: Hub<Q, E>, queue: Q): Hub<Q, E>
    requires queue in h.items && h.items[queue] != []
  {
    h.(items := h.items[queue := h.items[queue][1..]])
  }

  function UnsubscribeStep<Q, E>(h: Hub<Q, E>, queue: Q, channel: string): Hub<Q, E> {
    Hub(if channel in h.channels then h.channels[channel := h.channels[channel] - {queue}] else h.channels,
        h.items - {queue})
  }

  /** The queues of all channels. */
  ghost function AllQueues<Q>(channels: map<string, set<Q>>): set<Q> {
    set c, q | c in channels && q in channels[c] :: q
  }

  /** No queue belongs to two channels. */
  ghost predicate Disjoint<Q>(channels: map<string, set<Q>>) {
    forall c, d :: c in channels && d in channels && c != d ==> channels[c] !! channels[d]
  }

  lemma Joined<Q>(channels: map<string, set<Q>>, channel: string, queue: Q)
    requires Disjoint(channels) && queue !in AllQueues(channels)
    ensures var members := if channel in channels then channels[channel] else {};
            var joined := channels[channel := members + {queue}];
            Disjoint(joined) && AllQueues(joined) == AllQueues(channels) + {queue}
  {
    var members := if channel in channels then channels[channel] else {};
    var joined := channels[channel := members + {queue}];
    assert queue in joined[channel];
    forall q | q in AllQueues(channels) ensures q in AllQueues(joined) {
      var c :| c in channels && q in channels[c];
      assert q in joined[c];
    }
  }

  lemma Left<Q>(channels: map<string, set<Q>>, channel: string, queue: Q)
    requires Disjoint(channels) && channel in channels && queue in channels[channel]
    ensures var left := channels[channel := channels[channel] - {queue}];
            Disjoint(left) && AllQueues(left) == AllQueues(channels) - {queue}
  {
    var left := channels[channel := channels[channel] - {queue}];
    forall q | q in AllQueues(channels) && q != queue ensures q in AllQueues(left) {
      var c :| c in channels && q in channels[c];
      assert q in left[c];
    }
  }

  class Broker<E> {
    const redisAvailable: bool
    var forceFallback: bool
    var redisLoops: set<int>
    var channels: map<string, set<Queue<E>>>

    ghost function Queues(): set<Queue<E>>
      reads this`channels
    {
      AllQueues(channels)
    }

    /** No queue belongs to two channels, and as long as one is registered nothing goes over
        Redis: a broker that falls back does so for good. */
    ghost predicate Valid()
      reads this`channels, this`forceFallback
    {
      Disjoint(channels) && (Queues() != {} ==> !redisAvailable || forceFallback)
    }

    /** A Redis client is to be had. */
    ghost predicate Connects(loop: int, pingOk: bool)
      reads this
    {
      redisAvailable && !forceFallback && (loop in redisLoops || pingOk)
    }

    ghost function St(): Hub<Queue<E>, E>
      reads this`channels, Queues()
    {
      Hub(channels, map q | q in Queues() :: q.items)
    }

    constructor (redisAvailable: bool)
      ensures Valid() && channels == map[] && !forceFallback && redisLoops == {} && this.redisAvailable == redisAvailable
    {
      this.redisAvailable := redisAvailable;
      forceFallback, redisLoops, channels := false, {}, map[];
    }

    /** `pingOk` says whether a new Redis client of this event loop answers. */
    method GetRedis(loop: int, pingOk: bool) returns (client: bool)
      modifies this`forceFallback, this`redisLoops
      ensures client <==> old(Connects(loop, pingOk))
      ensures forceFallback <==> old(forceFallback) || (redisAvailable && !client)
      ensures redisLoops == old(redisLoops) + if client then {loop} else {}
    {
      if !redisAvailable || forceFallback {
        return false;
      }
      if loop in redisLoops {
        return true;
      }
      if pingOk {
        redisLoops := redisLoops + {loop};
        return true;
      }
      forceFallback := true;
      return false;
    }

    /** `sendOk` says whether publishing over Redis works. */
    method Publish(channel: string, event: E, loop: int, pingOk: bool, sendOk: bool) returns (viaRedis: bool)
      requires Valid()
      modifies this`forceFallback, this`redisLoops, Queues()
      ensures Valid() && channels == old(channels)
      ensures viaRedis <==> channel != "" && sendOk && old(Connects(loop, pingOk))
      ensures forceFallback <==> old(forceFallback) || (channel != "" && redisAvailable && !viaRedis)
      ensures redisLoops == old(redisLoops) + if channel != "" && old(Connects(loop, pingOk)) then {loop} else {}
      ensures viaRedis ==> Queues() == {} && St() == old(St())
      ensures St() == PublishStep(old(St()), channel, event)
    {
      if channel == "" {
        return false;
      }
      var client := GetRedis(loop, pingOk);
      if client {
        if sendOk {
          return true;
        }
        forceFallback := true;
      }
      PublishLocally(channel, event);
      return false;
    }

    method PublishLocally(channel: string, event: E)
      requires Valid() && channel != ""
      modifies Queues()
      ensures Queues() == old(Queues()) && St() == PublishStep(old(St()), channel, event)
    {
      Deliver(if channel in channels then channels[channel] else {}, event);
    }

    /** The delivery loop. */
    method Deliver(members: set<Queue<E>>, event: E)
      modifies members
      ensures forall q :: q in members ==> q.items == old(q.items) + [event]
    {
      var queues := members;
      while queues != {}
        invariant queues <= members
        invariant forall q :: q in members ==> q.items == if q in queues then old(q.items) else old(q.items) + [event]
      {
        var q :| q in queues;
        q.items := q.items + [event];
        queues := queues - {q};
      }
    }

    /** Up to the point where the generator waits for its first event. The caller gets no queue
        when the channel name is empty or Redis serves the subscription. */
    method Subscribe(channel: string, loop: int, pingOk: bool) returns (queue: Queue?<E>)
      requires Valid()
      modifies this
      ensures Valid()
      ensures queue == null <==> channel == "" || old(Connects(loop, pingOk))
      ensures forceFallback <==> old(forceFallback) || (redisAvailable && queue != null)
      ensures redisLoops == old(redisLoops) + if channel != "" && queue == null then {loop} else {}
      ensures queue == null ==> St() == old(St())
      ensures queue != null ==> fresh(queue) && St() == SubscribeStep(old(St()), queue, channel)
    {
      if channel == "" {
        return null;
      }
      var client := GetRedis(loop, pingOk);
      if client {
        return null;
      }
      queue := Register(channel);
    }

    /** A new queue for one more subscriber of the channel. */
    method Register(channel: string) returns (queue: Queue<E>)
      requires Valid() && (!redisAvailable || forceFallback)
      modifies this`channels
      ensures Valid() && fresh(queue)
      ensures St() == SubscribeStep(old(St()), queue, channel)
    {
      queue := new Queue<E>();
      channels := channels[channel := (if channel in channels then channels[channel] else {}) + {queue}];
      Joined(old(channels), channel, queue);
    }

    /** One turn of the generator that owns `queue`. */
    method Receive(queue: Queue<E>) returns (event: E)
      requires Valid() && queue in Queues() && queue.items != []
      modifies queue
      ensures Valid() && event == old(queue.items)[0]
      ensures St() == ReceiveStep(old(St()), queue)
    {
      event := queue.items[0];
      queue.items := queue.items[1..];
    }

    /** The generator's `finally`. */
    method Unsubscribe(queue: Queue<E>, channel: string)
      requires Valid() && channel in channels && queue in channels[channel]
      modifies this`channels
      ensures Valid() && St() == UnsubscribeStep(old(St()), queue, channel)
    {
      channels := channels[channel := channels[channel] - {queue}];
      Left(old(channels), channel, queue);
    }
  }

  // ----- interleavings -----

  datatype Action<Q, E> =
    | Publish(channel: string, event: E)
    | Subscribe(queue: Q, channel: string)
    | Receive(queue: Q, event: E)
    | Unsubscribe(queue: Q, channel: string)

  ghost function Step<Q, E>(h: Hub<Q, E>, a: Action<Q, E>): Hub<Q, E>
    requires Possible(h, a)
  {
    match a
    case Publish(c, e) => PublishStep(h, c, e)
    case Subscribe(q, c) => SubscribeStep(h, q, c)
    case Receive(q, _) => ReceiveStep(h, q)
    case Unsubscribe(q, c) => UnsubscribeStep(h, q, c)
  }

  /** A subscription has a channel name and a new queue; a waiting generator goes on only when
      its queue has an event, and yields the first; only members leave. */
  ghost predicate Possible<Q, E>(h: Hub<Q, E>, a: Action<Q, E>) {
    match a
    case Publish(_, _) => true
    case Subscribe(q, c) => c != "" && q !in h.items
    case Receive(q, e) => q in h.items && h.items[q] != [] && h.items[q][0] == e
    case Unsubscribe(q, c) => q in h.items && q in Members(h, c)
  }

  /** Some interleaving leads to state `h`. */
  ghost predicate Run<Q(!new), E(!new)>(trace: seq<Action<Q, E>>, h: Hub<Q, E>) {
    if trace == [] then h == Hub(map[], map[])
    else
      var a := trace[|trace| - 1];
      exists g :: Run(trace[..|trace| - 1], g) && Possible(g, a) && h == Step(g, a)
  }

  /** The channel a live subscriber listens to. */
  ghost function Listens<Q, E>(trace: seq<Action<Q, E>>, q: Q): Option<string> {
    if trace == [] then None
    else match trace[|trace| - 1]
      case Subscribe(p, c) => if p == q then Some(c) else Listens(trace[..|trace| - 1], q)
      case Unsubscribe(p, _) => if p == q then None else Listens(trace[..|trace| - 1], q)
      case _ => Listens(trace[..|trace| - 1], q)
  }

  /** Events published on the subscriber's channel since it subscribed. */
  ghost function Published<Q, E>(trace: seq<Action<Q, E>>, q: Q): seq<E> {
    if trace == [] then []
    else
      var before := trace[..|trace| - 1];
      match trace[|trace| - 1]
      case Subscribe(p, _) => if p == q then [] else Published(before, q)
      case Publish(c, e) => if Listens(before, q) == Some(c) then Published(before, q) + [e] else Published(before, q)
      case _ => Published(before, q)
  }

  /** Events the subscriber has received since it subscribed. */
  ghost function Received<Q, E>(trace: seq<Action<Q, E>>, q: Q): seq<E> {
    if trace == [] then []
    else
      var before := trace[..|trace| - 1];
      match trace[|trace| - 1]
      case Subscribe(p, _) => if p == q then [] else Received(before, q)
      case Receive(p, e) => if p == q then Received(before, q) + [e] else Received(before, q)
      case _ => Received(before, q)
  }

  /** Membership follows the trace. */
  ghost predicate Consistent<Q(!new), E>(trace: seq<Action<Q, E>>, h: Hub<Q, E>) {
    && (forall q :: q in h.items <==> Listens(trace, q).Some?)
    && (forall q, c :: q in Members(h, c) <==> Listens(trace, q) == Some(c))
    && (forall q :: Listens(trace, q) != Some(""))
  }

  lemma {:induction false} RunIsConsistent<Q(!new), E(!new)>(trace: seq<Action<Q, E>>, h: Hub<Q, E>)
    requires Run(trace, h)
    ensures Consistent(trace, h)
  {
    if trace != [] {
      var a := trace[|trace| - 1];
      var g :| Run(trace[..|trace| - 1], g) && Possible(g, a) && h == Step(g, a);
      RunIsConsistent(trace[..|trace| - 1], g);
      StepIsConsistent(trace, g);
    }
  }

  lemma StepIsConsistent<Q(!new), E(!new)>(trace: seq<Action<Q, E>>, g: Hub<Q, E>)
    requires trace != [] && Possible(g, trace[|trace| - 1]) && Consistent(trace[..|trace| - 1], g)
    ensures Consistent(trace, Step(g, trace[|trace| - 1]))
  {
    var before, a := trace[..|trace| - 1], trace[|trace| - 1];
    var h := Step(g, a);
    forall q ensures Listens(trace, q) == (if (a.Subscribe? || a.Unsubscribe?) && a.queue == q
                                           then (if a.Subscribe? then Some(a.channel) else None)
                                           else Listens(before, q)) {
    }
    if !a.Unsubscribe? {
      assert forall q :: q in h.items <==> q in g.items || (a.Subscribe? && q == a.queue);
    }
    if a.Publish? || a.Receive? {
      assert h.channels == g.channels;
    }
  }

  /** For every interleaving: what a live subscriber has received, followed by what waits in
      its queue, is exactly what was published on its channel since it subscribed. */
  lemma {:induction false} ExactDelivery<Q(!new), E(!new)>(trace: seq<Action<Q, E>>, h: Hub<Q, E>, q: Q)
    requires Run(trace, h) && Listens(trace, q).Some?
    ensures q in h.items && Received(trace, q) + h.items[q] == Published(trace, q)
  {
    var before, a := trace[..|trace| - 1], trace[|trace| - 1];
    var g :| Run(before, g) && Possible(g, a) && h == Step(g, a);
    RunIsConsistent(before, g);
    if Listens(before, q).Some? {
      ExactDelivery(before, g, q);
    }
  }

  /** Nothing is lost, repeated or reordered on the way to a subscriber. */
  lemma ReceivedIsPrefix<Q(!new), E(!new)>(trace: seq<Action<Q, E>>, h: Hub<Q, E>, q: Q)
    requires Run(trace, h) && Listens(trace, q).Some?
    ensures Received(trace, q) <= Published(trace, q) && q in h.items
    ensures h.items[q] == [] ==> Received(trace, q) == Published(trace, q)
  {
    ExactDelivery(trace, h, q);
  }
}
