/** Orders from the engine's thread to the wire: `send` retries its push until it succeeds, the
    sender thread pops, serialises and writes. The queue between them is SpscProtocol's, so every
    interleaving of the two threads' atomic steps is covered. */
module OrderPipeline {
  import opened Options
  import opened Bytes
  import opened Framing
  import opened Oe
  import opened RingQueue
  import Q = QueueProtocol
  import S = SpscProtocol

  datatype Pipeline = Pipeline(
    queue: Q.State<NewOrder>,
    asked: seq<NewOrder>,             // the orders passed to send, in order
    sending: Option<NewOrder>,      // the order a send in progress is still trying to push
    inFlight: Option<NewOrder>,     // popped by the sender thread, not yet written
    written: seq<NewOrder>, wire: seq<byte>)

  datatype Action =
    | Send(order: NewOrder)
    | QueueStep(step: Q.Action<NewOrder>)
    | WriteOrder

  predicate Init(p: Pipeline) {
    && |p.queue.producers| == 1
    && p.asked == [] && p.sending == None && p.inFlight == None && p.written == [] && p.wire == []
  }

  predicate Enabled(p: Pipeline, a: Action) {
    match a
    case Send(_) => p.sending.None?
    case QueueStep(q) =>
      && S.LockFree(p.queue, q)
      && (q.Call? ==> p.sending == Some(q.value))
      && (q.LoadOwnTail? ==> q.popping && p.inFlight.None?)
    case WriteOrder => p.inFlight.Some?
  }

  /** A push that returns true ends the send; one that returns false leaves it to call again. */
  function Step(p: Pipeline, a: Action): Pipeline
    requires Enabled(p, a)
  {
    match a
    case Send(o) => p.(asked := p.asked + [o], sending := Some(o))
    case QueueStep(q) =>
      p.(queue := S.LockFreeStep(p.queue, q),
         sending := if q.Leave? && p.queue.producers[q.p].Published? then None else p.sending,
         inFlight := if q.Release? then Some(p.queue.consumer.value) else p.inFlight)
    case WriteOrder =>
      var o := p.inFlight.value;
      p.(inFlight := None, written := p.written + [o], wire := p.wire + EncodeOrder(o))
  }

  ghost predicate IsRun(states: seq<Pipeline>, actions: seq<Action>) {
    && |states| == |actions| + 1
    && Init(states[0]) && Q.Init(states[0].queue)
    && forall i | 0 <= i < |actions| :: Enabled(states[i], actions[i]) && states[i + 1] == Step(states[i], actions[i])
  }

  predicate CallsMatch(p: Pipeline)
    requires |p.queue.producers| == |p.queue.accepted| == 1
  {
    var me := p.queue.producers[0];
    && !me.Entered? && (!me.Idle? ==> p.sending == Some(me.value))
    && p.asked == p.queue.accepted[0] + AsSeq(p.sending)
  }

  predicate SenderMatches(p: Pipeline) {
    && p.queue.popped == p.written + AsSeq(p.inFlight)
    && (!p.queue.consumer.Resting? ==> p.inFlight.None?)
    && (p.queue.consumer.HaveTail? ==> p.queue.consumer.popping)
    && p.wire == Flatten(EncodeOrders(p.written))
  }

  ghost predicate Inv(p: Pipeline) {
    && S.Good(p.queue) && |p.queue.producers| == 1
    && CallsMatch(p) && SenderMatches(p)
  }

  lemma QueueStepInv(p: Pipeline, a: Action)
    requires Inv(p) && Enabled(p, a) && a.QueueStep?
    ensures Inv(Step(p, a))
  {
    S.StepGood(p.queue, a.step);
    QueueStepCalls(p, a);
    QueueStepSender(p, a);
  }

  lemma QueueStepCalls(p: Pipeline, a: Action)
    requires |p.queue.producers| == |p.queue.accepted| == 1 && CallsMatch(p) && Enabled(p, a) && a.QueueStep?
    ensures |Step(p, a).queue.producers| == |Step(p, a).queue.accepted| == 1 && CallsMatch(Step(p, a))
  {
  }

  lemma QueueStepSender(p: Pipeline, a: Action)
    requires SenderMatches(p) && Enabled(p, a) && a.QueueStep?
    ensures SenderMatches(Step(p, a))
  {
  }

  lemma WriteOrderInv(p: Pipeline, a: Action)
    requires Inv(p) && Enabled(p, a) && a.WriteOrder?
    ensures Inv(Step(p, a))
  {
    var o := p.inFlight.value;
    assert EncodeOrders(p.written + [o]) == EncodeOrders(p.written) + [EncodeOrder(o)];
    FlattenSnoc(EncodeOrders(p.written), EncodeOrder(o));
  }

  lemma StepInv(p: Pipeline, a: Action)
    requires Inv(p) && Enabled(p, a)
    ensures Inv(Step(p, a))
  {
    match a {
      case Send(_) =>
      case QueueStep(_) => QueueStepInv(p, a);
      case WriteOrder => WriteOrderInv(p, a);
    }
  }

  lemma {:induction false} RunInv(states: seq<Pipeline>, actions: seq<Action>, i: nat)
    requires IsRun(states, actions) && i < |states|
    ensures Inv(states[i])
  {
    if i == 0 {
      S.InitGood(states[0].queue);
    } else {
      RunInv(states, actions, i - 1);
      StepInv(states[i - 1], actions[i - 1]);
    }
  }

  /** The order a send in progress still holds; none once it is published. */
  function Waiting(p: Pipeline): seq<NewOrder>
    requires |p.queue.producers| == 1
  {
    if p.queue.producers[0].Published? then [] else AsSeq(p.sending)
  }

  /** At every moment the orders passed to send are, in order: those written, the one in flight,
      those queued, and the one send is still trying to push; and the bytes written parse back,
      frame by frame, to the orders written. */
  lemma NoOrderLost(states: seq<Pipeline>, actions: seq<Action>, i: nat)
    requires IsRun(states, actions) && i < |states|
    ensures AllKept(states[i])
  {
    RunInv(states, actions, i);
    InvKeeps(states[i]);
  }

  predicate AllKept(p: Pipeline) {
    && |p.queue.producers| == 1 && |p.queue.popped| <= |p.queue.pushed|
    && p.asked == p.written + AsSeq(p.inFlight) + Q.Contents(p.queue) + Waiting(p)
    && Rest(p.wire) == [] && |Frames(p.wire)| == |p.written|
    && forall j | 0 <= j < |p.written| :: DecodeOrder(Frames(p.wire)[j]) == OrderOk(p.written[j])
  }

  lemma InvKeeps(p: Pipeline)
    requires Inv(p)
    ensures AllKept(p)
  {
    Q.ProjectAll(p.queue.pushed, 0);
    assert p.queue.popped == Q.Values(p.queue.pushed)[..|p.queue.popped|];
    AskedSplit(p);
    OrdersParseBack(p.written);
  }

  lemma AskedSplit(p: Pipeline)
    requires |p.queue.producers| == |p.queue.accepted| == 1 && CallsMatch(p) && SenderMatches(p)
    requires |p.queue.popped| <= |p.queue.pushed|
    requires p.queue.popped == Q.Values(p.queue.pushed)[..|p.queue.popped|]
    requires Q.Values(p.queue.pushed) == p.queue.accepted[0]
      + (if p.queue.producers[0].Published? then [p.queue.producers[0].value] else [])
    ensures p.asked == p.written + AsSeq(p.inFlight) + Q.Contents(p.queue) + Waiting(p)
  {
    var all := Q.Values(p.queue.pushed);
    assert Q.Contents(p.queue) == all[|p.queue.popped|..];
    assert all == p.queue.popped + Q.Contents(p.queue);
  }

  lemma FirstOrder(wire: seq<byte>, o: NewOrder, rest: seq<NewOrder>)
    ensures wire + Flatten(EncodeOrders([o] + rest)) == wire + EncodeOrder(o) + Flatten(EncodeOrders(rest))
  {
    var fs := EncodeOrders([o] + rest);
    assert fs[1..] == EncodeOrders(rest);
    assert wire + (EncodeOrder(o) + Flatten(fs[1..])) == wire + EncodeOrder(o) + Flatten(fs[1..]);
  }

  class OrderMessageSender {
    const buffer: array<byte>
    var wire: seq<byte>

    constructor ()
      ensures fresh(buffer) && buffer.Length == MAX_ORDER_FRAME && wire == []
    {
      buffer := new byte[MAX_ORDER_FRAME];
      wire := [];
    }

    /** The sender thread's loop on what the queue holds when nobody is pushing. */
    method Run(queue: RingQueue<NewOrder>)
      requires buffer.Length >= MAX_ORDER_FRAME && queue.Valid()
      modifies this, buffer, queue, queue.buffer
      ensures queue.Valid() && queue.Contents() == []
      ensures wire == old(wire) + Flatten(EncodeOrders(old(queue.Contents())))
    {
      ghost var all := wire + Flatten(EncodeOrders(queue.Contents()));
      while true
        invariant queue.Valid()
        invariant wire + Flatten(EncodeOrders(queue.Contents())) == all
        decreases |queue.Contents()|
      {
        ghost var before, left := wire, queue.Contents();
        var message := queue.Pop(o => o);
        if message.None? {
          assert wire + [] == wire;
          return;
        }
        FirstOrder(before, message.value, queue.Contents());
        SendNewOrder(message.value);
      }
    }

    /** Serialise into the sender's buffer and hand those bytes to the connection. */
    method SendNewOrder(order: NewOrder)
      requires buffer.Length >= MAX_ORDER_FRAME
      modifies this, buffer
      ensures wire == old(wire) + EncodeOrder(order)
      ensures OrderLayout(wire[|old(wire)|..], order)
    {
      var bytes := SerialiseNewOrder(buffer, order);
      wire := wire + buffer[..bytes];
      assert wire[|old(wire)|..] == buffer[..bytes];
    }
  }
}
