/** The thread that takes market-data messages off the inbound queue: wait until `empty` says no,
    then `pop`, then handle. Any number of receiving threads push; the queue is QueueProtocol's. */
module Demultiplexer {
  import opened Bytes
  import opened Gcmd
  import opened RingQueue
  import Q = QueueProtocol

  /** Waiting for `empty` to say no; about to pop, or popping; or handling what was popped. */
  datatype Phase = Waiting | Popping | Handling(message: MDMessage)

  /** `missed` counts the pops that came back with nothing. */
  datatype Demux = Demux(queue: Q.State<MDMessage>, phase: Phase, handled: seq<MDMessage>, missed: nat)

  datatype Action = QueueStep(step: Q.Action<MDMessage>) | Handle

  ghost predicate Init(d: Demux) {
    Q.Init(d.queue) && d.phase == Waiting && d.handled == [] && d.missed == 0
  }

  predicate Enabled(d: Demux, a: Action) {
    match a
    case QueueStep(q) =>
      Q.Enabled(d.queue, q) && (q.LoadOwnTail? ==> d.phase == (if q.popping then Popping else Waiting))
    case Handle => d.phase.Handling?
  }

  /** What a step of the queue means to the loop: `empty` and `pop` answer at LoadPublished, and a
      pop with a value returns at Release. */
  function NextPhase(d: Demux, q: Q.Action<MDMessage>): Phase
    requires Q.Enabled(d.queue, q)
  {
    var after := Q.Step(d.queue, q);
    match q
    case LoadPublished(_) =>
      if d.queue.consumer.popping then (if after.consumer.Ready? then Popping else Waiting)
      else if after.sawItem then Popping else Waiting
    case Release => Handling(d.queue.consumer.value)
    case _ => d.phase
  }

  function Step(d: Demux, a: Action): Demux
    requires Enabled(d, a)
  {
    match a
    case QueueStep(q) =>
      var nothing := q.LoadPublished? && d.queue.consumer.popping && !Q.Step(d.queue, q).consumer.Ready?;
      d.(queue := Q.Step(d.queue, q), phase := NextPhase(d, q), missed := if nothing then d.missed + 1 else d.missed)
    case Handle => d.(phase := Waiting, handled := d.handled + [d.phase.message])
  }

  ghost predicate IsRun(states: seq<Demux>, actions: seq<Action>) {
    && |states| == |actions| + 1
    && Init(states[0])
    && forall i | 0 <= i < |actions| :: Enabled(states[i], actions[i]) && states[i + 1] == Step(states[i], actions[i])
  }

  function InHand(d: Demux): seq<MDMessage> {
    if d.phase.Handling? then [d.phase.message] else []
  }

  /** Where the loop and the queue's consumer stand together: the loop pops only what it has seen. */
  predicate InStep(d: Demux) {
    && d.queue.popped == d.handled + InHand(d)
    && d.missed == 0
    && match d.queue.consumer
       case Resting => d.phase.Popping? ==> d.queue.sawItem
       case HaveTail(_, popping) => if popping then d.phase.Popping? && d.queue.sawItem else d.phase.Waiting?
       case Ready(_) => d.phase.Popping?
       case Taken(_, _) => d.phase.Popping?
  }

  /** A pop that follows a "not empty" finds something, however stale the head it loads. */
  lemma PopFinds(s: Q.State<MDMessage>, a: Q.Action<MDMessage>)
    requires Q.Inv(s) && Q.Enabled(s, a) && a.LoadPublished? && s.consumer.popping && s.sawItem
    ensures Q.Step(s, a).consumer.Ready?
  {
    Q.SlotsDiffer(s.T(), a.k, s.N());
  }

  lemma StepInStep(d: Demux, a: Action)
    requires Q.Inv(d.queue) && InStep(d) && Enabled(d, a)
    ensures InStep(Step(d, a))
  {
    if a.QueueStep? && a.step.LoadPublished? && d.queue.consumer.popping {
      PopFinds(d.queue, a.step);
    }
  }

  lemma {:induction false} RunInv(states: seq<Demux>, actions: seq<Action>, i: nat)
    requires IsRun(states, actions) && i < |states|
    ensures Q.Inv(states[i].queue) && InStep(states[i])
  {
    if i == 0 {
      Q.InitInv(states[0].queue);
    } else {
      RunInv(states, actions, i - 1);
      StepInStep(states[i - 1], actions[i - 1]);
      if actions[i - 1].QueueStep? {
        Q.StepInv(states[i - 1].queue, actions[i - 1].step);
      }
    }
  }

  /** At every moment of every interleaving: no pop has come back empty, and what was published is
      what was handled, the message in hand, and the queue's contents, in that order. */
  lemma EveryMessageHandledInOrder(states: seq<Demux>, actions: seq<Action>, i: nat)
    requires IsRun(states, actions) && i < |states|
    ensures var d := states[i];
      && d.missed == 0
      && |d.queue.popped| <= |d.queue.pushed|
      && Q.Values(d.queue.pushed) == d.handled + InHand(d) + Q.Contents(d.queue)
  {
    RunInv(states, actions, i);
    var s := states[i].queue;
    assert Q.Values(s.pushed) == s.popped + Q.Contents(s);
  }

  class MessageDeMultiplexer {
    /** The messages given to the handler, in order. */
    var handled: seq<MDMessage>

    constructor ()
      ensures handled == []
    {
      handled := [];
    }

    /** The loop's work on what the queue holds when no producer is pushing. */
    method Run(queue: RingQueue<MDMessage>)
      requires queue.Valid()
      modifies this, queue, queue.buffer
      ensures queue.Valid() && queue.Contents() == []
      ensures handled == old(handled) + old(queue.Contents())
    {
      ghost var all := handled + queue.Contents();
      var empty := queue.Empty();
      while !empty
        invariant queue.Valid() && handled + queue.Contents() == all
        invariant empty <==> queue.Contents() == []
        decreases |queue.Contents()|
      {
        ghost var before := handled;
        var message := queue.Pop(m => m);
        if message.Some? {
          MoveOver(before, message.value, queue.Contents());
          handled := handled + [message.value];
        }
        empty := queue.Empty();
      }
    }
  }
}
