/** The program never gets stuck: from every reachable state the threads can finish by themselves what
    has been received, down to the last order on the wire. */
module Progress {
  import opened Options
  import opened Ring
  import opened Bytes
  import opened Framing
  import opened Gcmd
  import opened Oe
  import opened TradeFlow
  import opened Slipstream
  import Q = QueueProtocol
  import D = Demultiplexer
  import P = OrderPipeline
  import O = OrderProgress

  // ---- What is left to do ----

  function PhaseWork(phase: D.Phase): int {
    match phase
    case Waiting => 0
    case Popping => -2
    case Handling(_) => 44
  }

  /** A queued message costs the demultiplexer six steps and an order at most thirty. */
  function DemuxWork(d: D.Demux): int {
    var count := d.queue.H() - d.queue.T();
    match d.queue.consumer
    case Resting => 50 * count + PhaseWork(d.phase)
    case HaveTail(_, popping) => if popping then 50 * count - 3 else if count > 0 then 50 * count - 1 else 1
    case Ready(_) => 50 * count - 4
    case Taken(_, _) => 50 * count - 5
  }

  /** A message still to be pushed costs its thread some steps and then the demultiplexer's fifty. */
  function LinkWork(backlog: nat, producer: Q.Producer<MDMessage>): int {
    match producer
    case SawFull(_) => 100 * backlog + 1
    case Idle => 100 * backlog
    case Calling(_) => 100 * backlog - 1
    case Entered(_) => 100 * backlog - 2
    case HaveHead(_, _) => 100 * backlog - 3
    case HaveRoom(_, _) => 100 * backlog - 4
    case Written(_, _) => 100 * backlog - 5
    case Published(_) => 100 * backlog - 60
  }

  function LinksWork(links: seq<Link>, producers: seq<Q.Producer<MDMessage>>): int
    requires |links| == |producers|
  {
    if |links| == 0 then 0
    else
      var n := |links| - 1;
      LinksWork(links[..n], producers[..n]) + LinkWork(|links[n].backlog|, producers[n])
  }

  function Work(s: System): int
    requires |s.links| == |s.demux.queue.producers| && |s.orders.queue.producers| == 1
  {
    O.Work(s.orders) + DemuxWork(s.demux) + LinksWork(s.links, s.demux.queue.producers)
  }

  lemma {:induction false} LinkChanges(links: seq<Link>, ps: seq<Q.Producer<MDMessage>>, r: nat, l: Link,
                                       p: Q.Producer<MDMessage>)
    requires r < |links| == |ps|
    ensures LinksWork(links[r := l], ps[r := p])
         == LinksWork(links, ps) - LinkWork(|links[r].backlog|, ps[r]) + LinkWork(|l.backlog|, p)
  {
    var n := |links| - 1;
    if r < n {
      LinkChanges(links[..n], ps[..n], r, l, p);
      assert links[r := l][..n] == links[..n][r := l] && ps[r := p][..n] == ps[..n][r := p];
    } else {
      assert links[r := l][..n] == links[..n] && ps[r := p][..n] == ps[..n];
    }
  }

  /** A thread that is pushing has something to push. */
  predicate Busy(links: seq<Link>, ps: seq<Q.Producer<MDMessage>>) {
    && |links| == |ps|
    && forall r | 0 <= r < |links| :: !ps[r].Idle? ==> links[r].backlog != []
  }

  lemma {:induction false} LinksWorkNonNegative(links: seq<Link>, ps: seq<Q.Producer<MDMessage>>)
    requires Busy(links, ps)
    ensures LinksWork(links, ps) >= 0
    ensures LinksWork(links, ps) == 0 <==> forall r | 0 <= r < |links| :: links[r].backlog == []
  {
    if |links| > 0 {
      var n := |links| - 1;
      LinksWorkNonNegative(links[..n], ps[..n]);
      assert LinkWork(|links[n].backlog|, ps[n]) >= 0;
      assert LinkWork(|links[n].backlog|, ps[n]) == 0 <==> links[n].backlog == [];
      assert forall r | 0 <= r < n :: links[r] == links[..n][r];
    }
  }

  lemma LinksAreBusy(links: seq<Link>, queue: Q.State<MDMessage>)
    requires LinksInv(links, queue)
    ensures Busy(links, queue.producers)
  {
    forall r | 0 <= r < |links| && !queue.producers[r].Idle? ensures links[r].backlog != [] {
      assert LinkInv(links[r], queue.accepted[r], queue.producers[r]);
    }
  }

  lemma DemuxWorkNonNegative(d: D.Demux)
    requires Q.Inv(d.queue) && D.InStep(d)
    ensures DemuxWork(d) >= 0
    ensures DemuxWork(d) == 0 ==> d.queue.consumer.Resting? && d.phase.Waiting? && d.queue.H() == d.queue.T()
  {
  }

  // ---- The demultiplexing thread ----

  function ConsumerStep(d: D.Demux): Q.Action<MDMessage>
    requires d.queue.consumer.Ready? ==> d.queue.consumer.currentTail < d.queue.N()
  {
    match d.queue.consumer
    case Resting => Q.LoadOwnTail(d.phase.Popping?)
    case HaveTail(_, _) => Q.LoadPublished(d.queue.H())
    case Ready(t) => Q.Take(d.queue.slots[t])
    case Taken(_, _) => Q.Release
  }

  lemma ConsumerProgress(d: D.Demux, q: Q.Action<MDMessage>)
    requires Q.Inv(d.queue) && D.InStep(d) && !d.phase.Handling?
    requires !d.queue.consumer.Resting? || d.queue.T() < d.queue.H()
    requires q == ConsumerStep(d)
    ensures D.Enabled(d, D.QueueStep(q))
    ensures DemuxWork(D.Step(d, D.QueueStep(q))) < DemuxWork(d)
    ensures Q.Step(d.queue, q).producers == d.queue.producers
  {
    Q.SlotsDiffer(d.queue.T(), d.queue.H(), d.queue.N());
  }

  // ---- The receiving threads ----

  function ProducerStep(queue: Q.State<MDMessage>, r: nat, message: MDMessage): Q.Action<MDMessage>
    requires r < |queue.producers|
  {
    match queue.producers[r]
    case Idle => Q.Call(r, message)
    case Calling(_) => Q.Enter(r)
    case Entered(_) => Q.LoadHead(r, queue.H())
    case HaveHead(_, _) => Q.LoadTail(r, queue.T())
    case HaveRoom(_, _) => Q.Write(r)
    case Written(_, _) => Q.Publish(r)
    case Published(_) => Q.Leave(r)
    case SawFull(_) => Q.Leave(r)
  }

  /** Thread `r` holds the lock, or nobody does. */
  predicate MayMove(queue: Q.State<MDMessage>, r: nat) {
    r < |queue.producers| && (queue.holder.None? || queue.holder == Some(r))
  }

  lemma ProducerEnabled(queue: Q.State<MDMessage>, r: nat, message: MDMessage)
    requires Q.Inv(queue) && MayMove(queue, r)
    ensures Q.Enabled(queue, ProducerStep(queue, r, message))
  {
    if Q.InSection(queue.producers[r]) {
      assert queue.holder == Some(r);
    }
  }

  /** Where the producer stands after its step, when the queue is empty. */
  function Onward(p: Q.Producer<MDMessage>, message: MDMessage, head: nat): Q.Producer<MDMessage> {
    match p
    case Idle => Q.Calling(message)
    case Calling(v) => Q.Entered(v)
    case Entered(v) => Q.HaveHead(v, head)
    case HaveHead(v, h) => Q.HaveRoom(v, h)
    case HaveRoom(v, h) => Q.Written(v, h)
    case Written(v, _) => Q.Published(v)
    case Published(_) => Q.Idle
    case SawFull(_) => Q.Idle
  }

  lemma ProducerMoves(queue: Q.State<MDMessage>, r: nat, message: MDMessage)
    requires Q.Inv(queue) && MayMove(queue, r) && queue.H() == queue.T()
    ensures var q, p := ProducerStep(queue, r, message), queue.producers[r];
      && Q.Enabled(queue, q)
      && Q.Step(queue, q).producers == queue.producers[r := Onward(p, message, Q.Slot(queue.H(), queue.N()))]
      && Q.Step(queue, q).consumer == queue.consumer
      && Q.Step(queue, q).T() == queue.T()
      && Q.Step(queue, q).H() == queue.H() + (if p.Written? then 1 else 0)
  {
    ProducerEnabled(queue, r, message);
    if queue.producers[r].HaveHead? {
      assert queue.holder == Some(r);
      FindsRoom(queue, r);
    }
  }

  lemma FindsRoom(queue: Q.State<MDMessage>, r: nat)
    requires Q.Inv(queue) && queue.holder == Some(r) && queue.producers[r].HaveHead? && queue.H() == queue.T()
    ensures Next(queue.producers[r].currentHead, queue.N()) != Q.Slot(queue.T(), queue.N())
  {
    Q.SlotsDiffer(queue.H() + 1, queue.T(), queue.N());
    assert Next(queue.producers[r].currentHead, queue.N()) == Q.Slot(queue.H() + 1, queue.N());
  }

  /** The links after a step of thread `r`. */
  function LinksAfter(links: seq<Link>, r: nat, p: Q.Producer<MDMessage>): seq<Link>
    requires r < |links|
  {
    if p.Published? then links[r := Pushed(links[r])] else links
  }

  lemma LinkLess(links: seq<Link>, ps: seq<Q.Producer<MDMessage>>, r: nat, message: MDMessage, head: nat)
    requires Busy(links, ps) && r < |links| && links[r].backlog != []
    ensures LinksWork(LinksAfter(links, r, ps[r]), ps[r := Onward(ps[r], message, head)])
          + (if ps[r].Written? then 50 else 0) < LinksWork(links, ps)
  {
    var l := if ps[r].Published? then Pushed(links[r]) else links[r];
    LinkChanges(links, ps, r, l, Onward(ps[r], message, head));
    assert links[r := links[r]] == links;
  }

  /** The one to move: who holds the lock, or else anybody with a backlog. */
  lemma Mover(links: seq<Link>, queue: Q.State<MDMessage>) returns (r: nat)
    requires Q.Inv(queue) && LinksInv(links, queue) && LinksWork(links, queue.producers) > 0
    ensures MayMove(queue, r) && links[r].backlog != []
  {
    LinksAreBusy(links, queue);
    LinksWorkNonNegative(links, queue.producers);
    if queue.holder.Some? {
      r := queue.holder.value;
      assert Q.InSection(queue.producers[r]);
    } else {
      r :| 0 <= r < |links| && links[r].backlog != [];
    }
  }

  lemma PushEnabled(s: System, r: nat)
    requires Q.Inv(s.demux.queue) && LinksInv(s.links, s.demux.queue)
    requires MayMove(s.demux.queue, r) && s.links[r].backlog != []
    ensures Enabled(s, Inbound(ProducerStep(s.demux.queue, r, s.links[r].backlog[0])))
  {
    ProducerEnabled(s.demux.queue, r, s.links[r].backlog[0]);
  }

  /** While the demultiplexer rests, a push costs it only the message published. */
  lemma RestingWork(d: D.Demux, after: Q.State<MDMessage>, published: bool)
    requires d.queue.consumer.Resting? && d.phase.Waiting? && d.queue.H() == d.queue.T()
    requires after.consumer == d.queue.consumer && after.T() == d.queue.T()
    requires after.H() == d.queue.H() + (if published then 1 else 0)
    ensures forall d': D.Demux | d'.queue == after && d'.phase == d.phase ::
              DemuxWork(d') == if published then 50 else 0
  {
  }

  lemma PushStep(g: Setting, s: System, r: nat, q: Q.Action<MDMessage>)
    requires r < |s.links| == |s.demux.queue.producers| && Enabled(s, Inbound(q))
    requires s.links[r].backlog != [] && q == ProducerStep(s.demux.queue, r, s.links[r].backlog[0])
    ensures var s' := Step(g, s, Inbound(q));
      && s'.links == LinksAfter(s.links, r, s.demux.queue.producers[r]) && s'.orders == s.orders
      && s'.demux.queue == Q.Step(s.demux.queue, q) && s'.demux.phase == s.demux.phase
  {
  }

  lemma ProducerProgress(g: Setting, s: System) returns (a: Action)
    requires Inv(g, s) && O.Work(s.orders) == 0 && DemuxWork(s.demux) == 0 && Work(s) > 0
    ensures IsOwnStep(a) && Enabled(s, a) && Inv(g, Step(g, s, a)) && Work(Step(g, s, a)) < Work(s)
  {
    DemuxWorkNonNegative(s.demux);
    var r := Mover(s.links, s.demux.queue);
    var q := ProducerStep(s.demux.queue, r, s.links[r].backlog[0]);
    PushEnabled(s, r);
    a := Inbound(q);
    StepInv(g, s, a);
    PushWork(g, s, r, q);
  }

  lemma PushWork(g: Setting, s: System, r: nat, q: Q.Action<MDMessage>)
    requires Q.Inv(s.demux.queue) && LinksInv(s.links, s.demux.queue) && |s.orders.queue.producers| == 1
    requires MayMove(s.demux.queue, r) && s.links[r].backlog != [] && Enabled(s, Inbound(q))
    requires q == ProducerStep(s.demux.queue, r, s.links[r].backlog[0])
    requires s.demux.queue.consumer.Resting? && s.demux.phase.Waiting? && s.demux.queue.H() == s.demux.queue.T()
    ensures |Step(g, s, Inbound(q)).links| == |Step(g, s, Inbound(q)).demux.queue.producers|
    ensures Step(g, s, Inbound(q)).orders == s.orders
    ensures Work(Step(g, s, Inbound(q))) < Work(s)
  {
    var queue := s.demux.queue;
    PushStep(g, s, r, q);
    ProducerMoves(queue, r, s.links[r].backlog[0]);
    RestingWork(s.demux, Q.Step(queue, q), queue.producers[r].Written?);
    LinksAreBusy(s.links, queue);
    LinkLess(s.links, queue.producers, r, s.links[r].backlog[0], Q.Slot(queue.H(), queue.N()));
  }

  // ---- Every thread together ----

  predicate IsOwnStep(a: Action) {
    a.Inbound? || a.Dispatch? || a.Outbound?
  }

  lemma OutboundProgress(g: Setting, s: System) returns (a: Action)
    requires Inv(g, s) && O.Work(s.orders) > 0
    ensures IsOwnStep(a) && Enabled(s, a) && Inv(g, Step(g, s, a)) && Work(Step(g, s, a)) < Work(s)
  {
    var move := O.NextStep(s.orders);
    a := Outbound(move);
    StepInv(g, s, a);
  }

  /** A new order is thirty steps' worth of work. */
  lemma SendWork(p: P.Pipeline, os: seq<NewOrder>)
    requires P.Inv(p) && O.Work(p) == 0 && |os| <= 1
    ensures p.sending.None? && P.Inv(SendAll(p, os)) && O.Work(SendAll(p, os)) <= 30
  {
    O.DoneExactlyWhen(p);
    SendAllInv(p, os);
  }

  lemma DispatchOrders(g: Setting, s: System, a: Action)
    requires P.Inv(s.orders) && O.Work(s.orders) == 0 && a.Dispatch? && Enabled(s, a)
    ensures |Step(g, s, a).orders.queue.producers| == 1 && O.Work(Step(g, s, a).orders) <= 30
  {
    var given := InputFor(s.demux.phase.message, a.now, a.wallNow, a.timestamp);
    if given != [] {
      assert given == [given[0]];
      SentGrows(g, s.inputs, given[0]);
      SendWork(s.orders, OrderFrom(g, s.inputs + given));
    }
  }

  lemma HandledWork(d: D.Demux)
    requires d.queue.consumer.Resting? && d.phase.Handling?
    ensures DemuxWork(D.Step(d, D.Handle)) == DemuxWork(d) - 44
  {
  }

  lemma DispatchProgress(g: Setting, s: System, now: u64) returns (a: Action)
    requires Inv(g, s) && O.Work(s.orders) == 0 && s.demux.phase.Handling?
    ensures IsOwnStep(a) && Enabled(s, a) && Inv(g, Step(g, s, a)) && Work(Step(g, s, a)) < Work(s)
  {
    a := Dispatch(now, now, now);
    O.DoneExactlyWhen(s.orders);
    StepInv(g, s, a);
    DispatchOrders(g, s, a);
    HandledWork(s.demux);
  }

  lemma DemuxProgress(g: Setting, s: System) returns (a: Action)
    requires Inv(g, s) && O.Work(s.orders) == 0 && DemuxWork(s.demux) > 0 && !s.demux.phase.Handling?
    ensures IsOwnStep(a) && Enabled(s, a) && Inv(g, Step(g, s, a)) && Work(Step(g, s, a)) < Work(s)
  {
    O.DoneExactlyWhen(s.orders);
    var q := ConsumerStep(s.demux);
    ConsumerProgress(s.demux, q);
    a := Inbound(q);
    StepInv(g, s, a);
  }

  /** Whatever is left to do, some thread can take a step that leaves less. */
  lemma SomeThreadMoves(g: Setting, s: System, now: u64) returns (a: Action)
    requires Inv(g, s) && Work(s) > 0
    ensures IsOwnStep(a) && Enabled(s, a) && Inv(g, Step(g, s, a)) && Work(Step(g, s, a)) < Work(s)
  {
    O.WorkNonNegative(s.orders);
    DemuxWorkNonNegative(s.demux);
    if O.Work(s.orders) > 0 {
      a := OutboundProgress(g, s);
    } else if s.demux.phase.Handling? {
      a := DispatchProgress(g, s, now);
    } else if DemuxWork(s.demux) > 0 {
      a := DemuxProgress(g, s);
    } else {
      a := ProducerProgress(g, s);
    }
  }

  /** A continuation of a run by steps of the program's own threads alone. */
  ghost predicate Continues(g: Setting, s: System, states: seq<System>, actions: seq<Action>) {
    && |states| == |actions| + 1 && states[0] == s
    && forall i | 0 <= i < |actions| ::
         IsOwnStep(actions[i]) && Enabled(states[i], actions[i]) && states[i + 1] == Step(g, states[i], actions[i])
  }

  lemma ContinuesCons(g: Setting, s: System, a: Action, states: seq<System>, actions: seq<Action>)
    requires IsOwnStep(a) && Enabled(s, a) && Continues(g, Step(g, s, a), states, actions)
    ensures Continues(g, s, [s] + states, [a] + actions)
    ensures ([s] + states)[|[a] + actions|] == states[|actions|]
  {
  }

  /** Each link has taken what it had taken. */
  predicate SameTaken(before: seq<Link>, after: seq<Link>) {
    && |before| == |after|
    && forall r | 0 <= r < |before| :: before[r].chunks == after[r].chunks && before[r].thread == after[r].thread
  }

  lemma SameTakenOn(a: seq<Link>, b: seq<Link>, c: seq<Link>)
    requires SameTaken(a, b) && SameTaken(b, c)
    ensures SameTaken(a, c)
  {
  }

  lemma OwnStepTakesNothing(g: Setting, s: System, a: Action)
    requires IsOwnStep(a) && Enabled(s, a)
    ensures SameTaken(s.links, Step(g, s, a).links)
  {
  }

  lemma WorkNonNegative(g: Setting, s: System)
    requires Inv(g, s)
    ensures Work(s) >= 0
  {
    O.WorkNonNegative(s.orders);
    DemuxWorkNonNegative(s.demux);
    LinksAreBusy(s.links, s.demux.queue);
    LinksWorkNonNegative(s.links, s.demux.queue.producers);
  }

  lemma {:induction false} Finish(g: Setting, s: System, now: u64) returns (states: seq<System>, actions: seq<Action>)
    requires Inv(g, s)
    ensures Continues(g, s, states, actions)
    ensures Inv(g, states[|actions|]) && Work(states[|actions|]) == 0 && SameTaken(s.links, states[|actions|].links)
    decreases Work(s)
  {
    WorkNonNegative(g, s);
    if Work(s) == 0 {
      states, actions := [s], [];
    } else {
      var a := SomeThreadMoves(g, s, now);
      var next := Step(g, s, a);
      WorkNonNegative(g, next);
      OwnStepTakesNothing(g, s, a);
      states, actions := Finish(g, next, now);
      ContinuesCons(g, s, a, states, actions);
      SameTakenOn(s.links, next.links, states[|actions|].links);
      states, actions := [s] + states, [a] + actions;
    }
  }

  /** Nothing is outstanding: all that was decoded has been handled, and every order of the engine's
      log is on the wire. */
  predicate AllOut(g: Setting, s: System) {
    var out := OrdersOf(AfterInputs(g, s.inputs).sys.log);
    && s.demux.handled == Q.Values(s.demux.queue.pushed)
    && (forall r | 0 <= r < |s.links| :: Q.Project(s.demux.queue.pushed, r) == s.links[r].thread.rx.pushed)
    && |Frames(s.orders.wire)| == |out| && Rest(s.orders.wire) == []
    && forall j | 0 <= j < |out| :: DecodeOrder(Frames(s.orders.wire)[j]) == OrderOk(out[j])
  }

  lemma NoWorkAllOut(g: Setting, s: System)
    requires Inv(g, s) && Work(s) == 0
    ensures AllOut(g, s)
  {
    O.WorkNonNegative(s.orders);
    DemuxWorkNonNegative(s.demux);
    LinksAreBusy(s.links, s.demux.queue);
    LinksWorkNonNegative(s.links, s.demux.queue.producers);
    OrdersOut(g, s);
    MessagesOut(s);
  }

  lemma OrdersOut(g: Setting, s: System)
    requires EngineInv(g, s) && O.Work(s.orders) == 0
    ensures var out := OrdersOf(AfterInputs(g, s.inputs).sys.log);
      && |Frames(s.orders.wire)| == |out| && Rest(s.orders.wire) == []
      && forall j | 0 <= j < |out| :: DecodeOrder(Frames(s.orders.wire)[j]) == OrderOk(out[j])
  {
    O.DoneExactlyWhen(s.orders);
    P.InvKeeps(s.orders);
    SentIsLog(g.config, g.window, s.inputs);
  }

  lemma MessagesOut(s: System)
    requires Q.Inv(s.demux.queue) && D.InStep(s.demux) && LinksInv(s.links, s.demux.queue)
    requires s.demux.queue.H() == s.demux.queue.T() && s.demux.phase.Waiting?
    requires forall r | 0 <= r < |s.links| :: s.links[r].backlog == []
    ensures s.demux.handled == Q.Values(s.demux.queue.pushed)
    ensures forall r | 0 <= r < |s.links| :: Q.Project(s.demux.queue.pushed, r) == s.links[r].thread.rx.pushed
  {
    var queue := s.demux.queue;
    assert Q.Values(queue.pushed) == queue.popped;
    assert s.demux.handled + [] == s.demux.handled;
    forall r | 0 <= r < |s.links| ensures Q.Project(queue.pushed, r) == s.links[r].thread.rx.pushed {
      assert LinkInv(s.links[r], queue.accepted[r], queue.producers[r]);
      assert queue.accepted[r] + [] == queue.accepted[r];
    }
  }

  /** From every reachable state, whatever was received: without any further chunk or command, the
      threads have a finite way on after which everything received is handled and all its orders are
      written. */
  lemma EverythingGetsOut(g: Setting, states: seq<System>, actions: seq<Action>, i: nat, now: u64)
    returns (more: seq<System>, steps: seq<Action>)
    requires IsRun(g, states, actions) && i < |states|
    ensures Continues(g, states[i], more, steps)
    ensures SameTaken(states[i].links, more[|steps|].links) && AllOut(g, more[|steps|])
  {
    RunInv(g, states, actions, i);
    more, steps := Finish(g, states[i], now);
    NoWorkAllOut(g, more[|steps|]);
  }
}
