/** The sender's side always gets done: whatever is outstanding, some step is possible that brings it
    nearer to the wire, so that finitely many write everything passed to send. */
module OrderProgress {
  import opened Options
  import opened Ring
  import opened Oe
  import opened OrderPipeline
  import Q = QueueProtocol
  import S = SpscProtocol

  // ---- What is left to do ----

  function ConsumerWork(c: Q.Consumer<NewOrder>, count: int): int {
    match c
    case Resting => 6 * count
    case HaveTail(_, _) => if count > 0 then 6 * count - 1 else 1
    case Ready(_) => 6 * count - 2
    case Taken(_, _) => 6 * count - 3
  }

  /** A push that saw the ring full has to start again. */
  function ProducerWork(p: Q.Producer<NewOrder>, sending: bool): int {
    if !sending then 0
    else
      match p
      case SawFull(_) => 31
      case Idle => 30
      case Calling(_) => 29
      case Entered(_) => 29
      case HaveHead(_, _) => 28
      case HaveRoom(_, _) => 27
      case Written(_, _) => 26
      case Published(_) => 1
  }

  function Work(p: Pipeline): int
    requires |p.queue.producers| == 1
  {
    ConsumerWork(p.queue.consumer, p.queue.H() - p.queue.T())
    + ProducerWork(p.queue.producers[0], p.sending.Some?)
    + (if p.inFlight.Some? then 2 else 0)
  }

  /** What the two threads can rely on. */
  predicate Usable(s: Q.State<NewOrder>) {
    && |s.producers| == |s.views| == |s.accepted| == 1
    && s.N() >= 2 && s.T() <= s.seen <= s.H() < s.T() + s.N()
    && s.views[0].heads <= s.H() && s.views[0].tails <= s.T()
    && (!s.consumer.Resting? ==> s.consumer.currentTail == Q.Slot(s.T(), s.N()))
    && (s.consumer.Ready? || s.consumer.Taken? ==> s.T() < s.seen)
    && var me := s.producers[0];
      (me.HaveHead? || me.HaveRoom? || me.Written? ==> me.currentHead == Q.Slot(s.H(), s.N()))
  }

  lemma GoodIsUsable(s: Q.State<NewOrder>)
    requires S.Good(s)
    ensures Usable(s)
  {
    var released: Q.View :| S.Matches(s, released) && Q.Inv(S.Locked(s, released));
    var locked := S.Locked(s, released);
    if Q.InSection(s.producers[0]) {
      assert locked.holder == Some(0);
    }
  }

  lemma WorkNonNegative(p: Pipeline)
    requires Inv(p)
    ensures Work(p) >= 0
  {
    GoodIsUsable(p.queue);
  }

  /** Nothing is left to do exactly when everything passed to send has been written. */
  lemma DoneExactlyWhen(p: Pipeline)
    requires Inv(p)
    ensures Work(p) == 0 ==> p.written == p.asked && p.sending.None?
    ensures p.sending.None? && p.queue.consumer.Resting? && p.written == p.asked ==> Work(p) == 0
  {
    GoodIsUsable(p.queue);
    InvKeeps(p);
    var c := Q.Contents(p.queue);
    if Work(p) == 0 {
      assert c == [];
      assert p.written + [] + [] + [] == p.written;
    }
    if p.written == p.asked {
      assert |p.asked| == |p.written| + |AsSeq(p.inFlight)| + |c| + |Waiting(p)|;
    }
  }

  // ---- The next step ----

  function ConsumerStep(p: Pipeline): Action
    requires Usable(p.queue)
  {
    match p.queue.consumer
    case Resting => QueueStep(Q.LoadOwnTail(true))
    case HaveTail(_, _) => QueueStep(Q.LoadPublished(p.queue.H()))
    case Ready(t) => QueueStep(Q.Take(p.queue.slots[t]))
    case Taken(_, _) => QueueStep(Q.Release)
  }

  /** The sender thread: it writes what is in flight, finishes a pop, or starts one. */
  lemma ConsumerProgress(p: Pipeline, a: Action)
    requires Inv(p) && Usable(p.queue) && p.inFlight.None?
    requires !p.queue.consumer.Resting? || p.queue.T() < p.queue.H()
    requires a == ConsumerStep(p)
    ensures Enabled(p, a) && Work(Step(p, a)) < Work(p)
  {
    Q.SlotsDiffer(p.queue.T(), p.queue.H(), p.queue.N());
  }

  function ProducerStep(p: Pipeline): Action
    requires Usable(p.queue) && p.sending.Some?
  {
    match p.queue.producers[0]
    case Idle => QueueStep(Q.Call(0, p.sending.value))
    case Calling(_) => QueueStep(Q.LoadHead(0, p.queue.H()))
    case HaveHead(_, _) => QueueStep(Q.LoadTail(0, p.queue.T()))
    case HaveRoom(_, _) => QueueStep(Q.Write(0))
    case Written(_, _) => QueueStep(Q.Publish(0))
    case _ => QueueStep(Q.Leave(0))
  }

  /** The sending thread: with the queue drained its push goes through. */
  lemma ProducerProgress(p: Pipeline, a: Action)
    requires Inv(p) && Usable(p.queue) && p.sending.Some?
    requires p.queue.consumer.Resting? && p.queue.T() == p.queue.H()
    requires a == ProducerStep(p)
    ensures Enabled(p, a) && Work(Step(p, a)) < Work(p)
  {
    ProducerEnabled(p, a);
    match p.queue.producers[0] {
      case HaveHead(_, _) => FindsRoom(p, a);
      case _ => ProducerMoves(p, a);
    }
  }

  lemma ProducerEnabled(p: Pipeline, a: Action)
    requires Usable(p.queue) && CallsMatch(p) && p.sending.Some? && a == ProducerStep(p)
    ensures Enabled(p, a)
  {
  }

  lemma FindsRoom(p: Pipeline, a: Action)
    requires Usable(p.queue) && p.sending.Some? && p.queue.producers[0].HaveHead?
    requires p.queue.T() == p.queue.H() && a == ProducerStep(p) && Enabled(p, a)
    ensures Work(Step(p, a)) < Work(p)
  {
    Q.SlotsDiffer(p.queue.H() + 1, p.queue.T(), p.queue.N());
    assert Next(p.queue.producers[0].currentHead, p.queue.N()) == Q.Slot(p.queue.H() + 1, p.queue.N());
  }

  lemma ProducerMoves(p: Pipeline, a: Action)
    requires Usable(p.queue) && CallsMatch(p) && p.sending.Some? && !p.queue.producers[0].HaveHead?
    requires p.queue.consumer.Resting? && p.queue.T() == p.queue.H() && a == ProducerStep(p) && Enabled(p, a)
    ensures Work(Step(p, a)) < Work(p)
  {
  }

  lemma NextStep(p: Pipeline) returns (a: Action)
    requires Inv(p) && Work(p) > 0
    ensures !a.Send? && Enabled(p, a) && Work(Step(p, a)) < Work(p)
  {
    GoodIsUsable(p.queue);
    if p.inFlight.Some? {
      a := WriteOrder;
    } else if !p.queue.consumer.Resting? || p.queue.T() < p.queue.H() {
      a := ConsumerStep(p);
      ConsumerProgress(p, a);
    } else {
      a := ProducerStep(p);
      ProducerProgress(p, a);
    }
  }
}
