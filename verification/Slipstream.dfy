/** The whole program: receiving threads, the inbound queue, the demultiplexing thread with the
    average and the engine, the outbound queue and the sender thread, in any interleaving. */
module Slipstream {
  import opened Options
  import opened Bytes
  import opened Framing
  import opened Gcmd
  import opened Oe
  import opened Engine
  import E = EngineRuns
  import opened Receiver
  import opened Wire
  import opened TradeFlow
  import opened Vwap
  import Session
  import Q = QueueProtocol
  import D = Demultiplexer
  import P = OrderPipeline

  /** A receiving thread: how it started, the chunks it was given, what it made of them, and the
      messages decoded but not yet pushed. */
  datatype Link = Link(first: Thread, chunks: seq<seq<byte>>, thread: Thread, backlog: seq<MDMessage>)

  /** Started at `now`, with whatever the buffer happens to hold. */
  function NewThread(now: u64, mem: Memory): Thread {
    Thread(Fresh(now), mem)
  }

  /** `inputs` is what the engine and the average have been given so far, which determines both. */
  datatype System = System(links: seq<Link>, demux: D.Demux, inputs: seq<FlowInput>, orders: P.Pipeline)

  datatype Action =
    | Chunk(link: nat, chunk: seq<byte>)                  // a socket delivers
    | Inbound(step: Q.Action<MDMessage>)                  // a step of the inbound queue
    | Dispatch(now: u64, wallNow: u64, timestamp: u64)    // the message in hand is handled
    | Operator(command: Session.Command)                  // an operator's command
    | Outbound(move: P.Action)                            // a step of the sender's side

  datatype Setting = Setting(config: Config, window: u64)

  /** What the engine is given for a message: quotes and trades have handlers, others have none. */
  function InputFor(m: MDMessage, now: u64, wallNow: u64, timestamp: u64): seq<FlowInput> {
    match m
    case QuoteMessage(_) => [QuoteArrives(now)]
    case TradeMessage(t) => [TradeArrives(t, now, wallNow, timestamp)]
    case _ => []
  }

  function AfterInputs(g: Setting, inputs: seq<FlowInput>): Flow {
    FlowRun(g.config, g.window, inputs)
  }

  /** The order the last input gave rise to. */
  function OrderFrom(g: Setting, inputs: seq<FlowInput>): seq<NewOrder>
  {
    if |inputs| == 0 || !inputs[|inputs| - 1].TradeArrives? then []
    else
      var log := AfterInputs(g, inputs).sys.log;
      if |log| == 0 then [] else AsSeq(log[|log| - 1].order)
  }

  function NewLink(now: u64, mem: Memory): Link {
    Link(NewThread(now, mem), [], NewThread(now, mem), [])
  }

  ghost predicate Init(s: System) {
    && D.Init(s.demux) && P.Init(s.orders) && Q.Init(s.orders.queue)
    && |s.links| == |s.demux.queue.producers| && s.inputs == []
    && forall r | 0 <= r < |s.links| ::
         s.links[r] == NewLink(s.links[r].first.rx.lastHeartbeat, s.links[r].first.mem)
  }

  function EmptyQueue<T>(slots: seq<T>, threads: nat): Q.State<T> {
    Q.State(slots, 0, 0, seq(threads, _ => Q.Idle), None, seq(threads, _ => Q.View(0, 0)), Q.View(0, 0),
            Q.Resting, 0, false, [], [], seq(threads, _ => []))
  }

  /** The program as main starts it: two connections, both queues empty. */
  function Start(now: u64, mem: Memory, slots: seq<MDMessage>, orderSlots: seq<NewOrder>): System {
    System([NewLink(now, mem), NewLink(now, mem)],
           D.Demux(EmptyQueue(slots, 2), D.Waiting, [], 0), [],
           P.Pipeline(EmptyQueue(orderSlots, 1), [], None, None, [], []))
  }

  lemma StartIsInit(now: u64, mem: Memory, slots: seq<MDMessage>, orderSlots: seq<NewOrder>)
    requires |slots| >= 2 && |orderSlots| >= 2
    ensures Init(Start(now, mem, slots, orderSlots))
  {
  }

  predicate Enabled(s: System, a: Action) {
    match a
    case Chunk(r, _) => r < |s.links| && s.links[r].backlog == []
    case Inbound(q) =>
      && D.Enabled(s.demux, D.QueueStep(q))
      && (q.Call? || q.Leave? ==> q.p < |s.links|)
      && (q.Call? ==> s.links[q.p].backlog != [] && q.value == s.links[q.p].backlog[0])
      && (q.LoadOwnTail? ==> s.orders.sending.None?)
    case Dispatch(_, _, _) => s.demux.phase.Handling? && s.orders.sending.None?
    case Operator(_) => true
    case Outbound(o) => !o.Send? && P.Enabled(s.orders, o)
  }

  /** A chunk's messages become the backlog; a push that returned true takes one off it; handling a
      message may call send. */
  function Step(g: Setting, s: System, a: Action): System
    requires Enabled(s, a)
  {
    match a
    case Chunk(r, chunk) => s.(links := s.links[r := TakeChunk(s.links[r], chunk)])
    case Inbound(q) =>
      s.(demux := D.Step(s.demux, D.QueueStep(q)),
         links := if q.Leave? && s.demux.queue.producers[q.p].Published? then s.links[q.p := Pushed(s.links[q.p])]
                  else s.links)
    case Dispatch(now, wallNow, timestamp) =>
      var given := InputFor(s.demux.phase.message, now, wallNow, timestamp);
      s.(demux := D.Step(s.demux, D.Handle), inputs := s.inputs + given,
         orders := if given == [] then s.orders else SendAll(s.orders, OrderFrom(g, s.inputs + given)))
    case Operator(command) => s.(inputs := s.inputs + [CommandGiven(command)])
    case Outbound(o) => s.(orders := P.Step(s.orders, o))
  }

  function TakeChunk(l: Link, chunk: seq<byte>): Link {
    var after := Turn(l.thread, chunk);
    var had, has := l.thread.rx.pushed, after.rx.pushed;
    Link(l.first, l.chunks + [chunk], after, if |had| <= |has| then has[|had|..] else [])
  }

  function Pushed(l: Link): Link {
    l.(backlog := if l.backlog == [] then [] else l.backlog[1..])
  }

  /** The call of send, for the order if there is one. */
  function SendAll(p: P.Pipeline, os: seq<NewOrder>): P.Pipeline
    requires p.sending.None?
  {
    if os == [] then p else P.Step(p, P.Send(os[0]))
  }

  ghost predicate IsRun(g: Setting, states: seq<System>, actions: seq<Action>) {
    && |states| == |actions| + 1
    && Init(states[0])
    && forall i | 0 <= i < |actions| ::
         Enabled(states[i], actions[i]) && states[i + 1] == Step(g, states[i], actions[i])
  }

  // ---- The receiving side ----

  /** What a receiving thread decoded is what it has pushed, as far as push told it, and its backlog;
      a push under way is of the front of the backlog. */
  predicate LinkInv(l: Link, accepted: seq<MDMessage>, producer: Q.Producer<MDMessage>) {
    && l.first == NewThread(l.first.rx.lastHeartbeat, l.first.mem)
    && l.thread == TurnAll(l.first, l.chunks)
    && l.thread.rx.pushed == accepted + l.backlog
    && (!producer.Idle? ==> l.backlog != [] && producer.value == l.backlog[0])
  }

  ghost predicate LinksInv(links: seq<Link>, queue: Q.State<MDMessage>) {
    && |links| == |queue.producers| == |queue.accepted|
    && forall r | 0 <= r < |links| :: LinkInv(links[r], queue.accepted[r], queue.producers[r])
  }

  lemma ChunkLink(l: Link, accepted: seq<MDMessage>, producer: Q.Producer<MDMessage>, chunk: seq<byte>)
    requires LinkInv(l, accepted, producer) && l.backlog == []
    ensures LinkInv(TakeChunk(l, chunk), accepted, producer)
  {
    TurnAllSnoc(l.first, l.chunks, chunk);
    TurnPushes(l.thread, chunk);
    assert accepted + [] == accepted;
  }

  lemma TurnAllSnoc(th: Thread, chunks: seq<seq<byte>>, chunk: seq<byte>)
    ensures TurnAll(th, chunks + [chunk]) == Turn(TurnAll(th, chunks), chunk)
  {
    assert (chunks + [chunk])[..|chunks|] == chunks;
  }

  lemma TurnPushes(th: Thread, chunk: seq<byte>)
    ensures th.rx.pushed <= Turn(th, chunk).rx.pushed
  {
  }

  lemma ChunkLinks(links: seq<Link>, queue: Q.State<MDMessage>, r: nat, chunk: seq<byte>)
    requires LinksInv(links, queue) && r < |links| && links[r].backlog == []
    ensures LinksInv(links[r := TakeChunk(links[r], chunk)], queue)
  {
    ChunkLink(links[r], queue.accepted[r], queue.producers[r], chunk);
  }

  /** A step of the queue changes at most one producer, and a return after success moves its value
      from the backlog to the accepted ones. */
  lemma InboundLinks(s: System, q: Q.Action<MDMessage>, links: seq<Link>)
    requires LinksInv(s.links, s.demux.queue) && Enabled(s, Inbound(q))
    requires links == if q.Leave? && s.demux.queue.producers[q.p].Published? then s.links[q.p := Pushed(s.links[q.p])]
                      else s.links
    ensures LinksInv(links, Q.Step(s.demux.queue, q))
  {
    var queue := s.demux.queue;
    if q.Leave? && queue.producers[q.p].Published? {
      PushedLink(s.links[q.p], queue.accepted[q.p], queue.producers[q.p]);
    }
  }

  lemma PushedLink(l: Link, accepted: seq<MDMessage>, producer: Q.Producer<MDMessage>)
    requires LinkInv(l, accepted, producer) && producer.Published?
    ensures LinkInv(Pushed(l), accepted + [producer.value], Q.Idle)
  {
    MoveOver(accepted, l.backlog[0], l.backlog[1..]);
    assert l.backlog == [l.backlog[0]] + l.backlog[1..];
  }

  // ---- The engine's side ----

  /** What the handlers hear of the messages: a quote, or which trade. */
  function Heard(ms: seq<MDMessage>): seq<Option<Trade>> {
    if |ms| == 0 then []
    else
      Heard(ms[..|ms| - 1])
      + match ms[|ms| - 1]
        case QuoteMessage(_) => [None]
        case TradeMessage(t) => [Some(t)]
        case _ => []
  }

  function HeardIn(inputs: seq<FlowInput>): seq<Option<Trade>> {
    if |inputs| == 0 then []
    else
      HeardIn(inputs[..|inputs| - 1])
      + match inputs[|inputs| - 1]
        case QuoteArrives(_) => [None]
        case TradeArrives(t, _, _, _) => [Some(t)]
        case CommandGiven(_) => []
  }

  lemma HeardGrows(ms: seq<MDMessage>, inputs: seq<FlowInput>, m: MDMessage, now: u64, wallNow: u64, timestamp: u64)
    requires Heard(ms) == HeardIn(inputs)
    ensures Heard(ms + [m]) == HeardIn(inputs + InputFor(m, now, wallNow, timestamp))
  {
    assert (ms + [m])[..|ms|] == ms;
    var given := InputFor(m, now, wallNow, timestamp);
    if given == [] {
      assert inputs + given == inputs && Heard(ms) + [] == Heard(ms);
    } else {
      assert (inputs + given)[..|inputs|] == inputs;
    }
  }

  lemma HeardCommand(inputs: seq<FlowInput>, command: Session.Command)
    ensures HeardIn(inputs + [CommandGiven(command)]) == HeardIn(inputs)
  {
    assert (inputs + [CommandGiven(command)])[..|inputs|] == inputs;
    assert HeardIn(inputs) + [] == HeardIn(inputs);
  }

  /** An input adds to what is sent exactly the order it gave rise to. */
  lemma SentGrows(g: Setting, inputs: seq<FlowInput>, i: FlowInput)
    ensures AfterInputs(g, inputs + [i]).sent == AfterInputs(g, inputs).sent + OrderFrom(g, inputs + [i])
    ensures |OrderFrom(g, inputs + [i])| <= 1
  {
    assert (inputs + [i])[..|inputs|] == inputs;
    var f := AfterInputs(g, inputs);
    assert f.sent + [] == f.sent;
  }

  lemma SendAllInv(p: P.Pipeline, os: seq<NewOrder>)
    requires P.Inv(p) && p.sending.None? && |os| <= 1
    ensures P.Inv(SendAll(p, os)) && SendAll(p, os).asked == p.asked + os
  {
    if os != [] {
      P.StepInv(p, P.Send(os[0]));
      assert os == [os[0]];
    }
  }

  // ---- The invariant of the whole ----

  ghost predicate EngineInv(g: Setting, s: System) {
    && P.Inv(s.orders)
    && s.orders.asked == AfterInputs(g, s.inputs).sent
    && Heard(s.demux.handled) == HeardIn(s.inputs)
  }

  ghost predicate Inv(g: Setting, s: System) {
    && Q.Inv(s.demux.queue) && D.InStep(s.demux)
    && LinksInv(s.links, s.demux.queue)
    && EngineInv(g, s)
  }

  lemma InboundInv(g: Setting, s: System, a: Action)
    requires Inv(g, s) && Enabled(s, a) && a.Inbound?
    ensures Inv(g, Step(g, s, a))
  {
    Q.StepInv(s.demux.queue, a.step);
    D.StepInStep(s.demux, D.QueueStep(a.step));
    InboundLinks(s, a.step, Step(g, s, a).links);
  }

  lemma DispatchInv(g: Setting, s: System, a: Action)
    requires Inv(g, s) && Enabled(s, a) && a.Dispatch?
    ensures Inv(g, Step(g, s, a))
  {
    D.StepInStep(s.demux, D.Handle);
    DispatchEngine(g, s, a);
  }

  lemma DispatchEngine(g: Setting, s: System, a: Action)
    requires EngineInv(g, s) && Enabled(s, a) && a.Dispatch?
    ensures EngineInv(g, Step(g, s, a))
  {
    var m := s.demux.phase.message;
    var given := InputFor(m, a.now, a.wallNow, a.timestamp);
    HeardGrows(s.demux.handled, s.inputs, m, a.now, a.wallNow, a.timestamp);
    if given == [] {
      assert s.inputs + given == s.inputs;
    } else {
      assert given == [given[0]];
      SentGrows(g, s.inputs, given[0]);
      SendAllInv(s.orders, OrderFrom(g, s.inputs + given));
    }
  }

  lemma OperatorEngine(g: Setting, s: System, a: Action)
    requires EngineInv(g, s) && Enabled(s, a) && a.Operator?
    ensures EngineInv(g, Step(g, s, a))
  {
    SentGrows(g, s.inputs, CommandGiven(a.command));
    HeardCommand(s.inputs, a.command);
  }

  lemma OutboundEngine(g: Setting, s: System, a: Action)
    requires EngineInv(g, s) && Enabled(s, a) && a.Outbound?
    ensures EngineInv(g, Step(g, s, a))
  {
    P.StepInv(s.orders, a.move);
  }

  lemma StepInv(g: Setting, s: System, a: Action)
    requires Inv(g, s) && Enabled(s, a)
    ensures Inv(g, Step(g, s, a))
  {
    match a {
      case Chunk(r, chunk) => ChunkLinks(s.links, s.demux.queue, r, chunk);
      case Inbound(_) => InboundInv(g, s, a);
      case Dispatch(_, _, _) => DispatchInv(g, s, a);
      case Operator(_) => OperatorEngine(g, s, a);
      case Outbound(_) => OutboundEngine(g, s, a);
    }
  }

  lemma InitLinks(s: System)
    requires Init(s)
    ensures LinksInv(s.links, s.demux.queue)
  {
  }

  lemma InitInv(g: Setting, s: System)
    requires Init(s)
    ensures Inv(g, s)
  {
    InitLinks(s);
    Q.InitInv(s.demux.queue);
    P.RunInv([s.orders], [], 0);
  }

  lemma {:induction false} RunInv(g: Setting, states: seq<System>, actions: seq<Action>, i: nat)
    requires IsRun(g, states, actions) && i < |states|
    ensures Inv(g, states[i])
  {
    if i == 0 {
      InitInv(g, states[0]);
    } else {
      RunInv(g, states, actions, i - 1);
      StepInv(g, states[i - 1], actions[i - 1]);
    }
  }

  // ---- What the whole program does ----

  /** The bytes written parse, frame by frame, to a prefix of the orders the engine's log gives out
      over the inputs so far. */
  predicate WrittenFromEngine(g: Setting, s: System) {
    var out := OrdersOf(AfterInputs(g, s.inputs).sys.log);
    && Rest(s.orders.wire) == []
    && |Frames(s.orders.wire)| <= |out|
    && forall j | 0 <= j < |Frames(s.orders.wire)| :: DecodeOrder(Frames(s.orders.wire)[j]) == OrderOk(out[j])
  }

  predicate Started(l: Link) {
    l.first == NewThread(l.first.rx.lastHeartbeat, l.first.mem)
  }

  /** The bytes a receiving thread has taken. */
  function BytesTaken(l: Link): seq<byte>
    requires Started(l)
  {
    TakenBy(l.first, l.chunks)
  }

  /** Those inputs are the messages handled, which are the first of the published ones; and of those,
      each receiving thread's are the first of what its turns over the chunks gave. Where the bytes
      taken reach no frame shorter than its struct, that is their one-shot decoding. */
  predicate InputsFromBytes(s: System) {
    && HeardIn(s.inputs) == Heard(s.demux.handled)
    && s.demux.handled <= Q.Values(s.demux.queue.pushed)
    && forall r | 0 <= r < |s.links| :: PushedFromBytes(s.links[r], Q.Project(s.demux.queue.pushed, r))
  }

  predicate PushedFromBytes(l: Link, pushed: seq<MDMessage>) {
    && Started(l)
    && pushed <= TurnAll(l.first, l.chunks).rx.pushed
    && (!ReachesShort(Frames(BytesTaken(l))) ==> pushed <= DecodeStream(BytesTaken(l)).messages)
  }

  lemma LinkPushes(l: Link, accepted: seq<MDMessage>, producer: Q.Producer<MDMessage>)
    requires LinkInv(l, accepted, producer)
    ensures accepted + (if producer.Published? then [producer.value] else []) <= l.thread.rx.pushed
  {
    if producer.Published? {
      assert l.backlog == [l.backlog[0]] + l.backlog[1..];
      MoveOver(accepted, l.backlog[0], l.backlog[1..]);
    }
  }

  lemma LinkDecodes(l: Link)
    requires Started(l) && !ReachesShort(Frames(BytesTaken(l)))
    ensures TurnAll(l.first, l.chunks).rx.pushed == DecodeStream(BytesTaken(l)).messages
  {
    OneShotExactlyWhen(l.first, l.chunks);
    var all := DecodeStream(BytesTaken(l)).messages;
    assert [] + all == all;
  }

  lemma LinkFromBytes(l: Link, accepted: seq<MDMessage>, producer: Q.Producer<MDMessage>)
    requires LinkInv(l, accepted, producer)
    ensures PushedFromBytes(l, accepted + (if producer.Published? then [producer.value] else []))
  {
    LinkPushes(l, accepted, producer);
    if !ReachesShort(Frames(BytesTaken(l))) {
      LinkDecodes(l);
    }
  }

  /** Over any interleaving of all threads, whatever the chunks, clocks and commands. */
  lemma OrdersComeFromBytes(g: Setting, states: seq<System>, actions: seq<Action>, i: nat)
    requires IsRun(g, states, actions) && i < |states|
    ensures WrittenFromEngine(g, states[i]) && InputsFromBytes(states[i])
  {
    RunInv(g, states, actions, i);
    var s := states[i];
    WrittenNow(g, s);
    InputsNow(s);
  }

  lemma WrittenNow(g: Setting, s: System)
    requires EngineInv(g, s)
    ensures WrittenFromEngine(g, s)
  {
    P.InvKeeps(s.orders);
    SentIsLog(g.config, g.window, s.inputs);
    assert s.orders.written <= s.orders.asked;
  }

  lemma HandledFirst(d: D.Demux)
    requires Q.Inv(d.queue) && D.InStep(d)
    ensures d.handled <= Q.Values(d.queue.pushed)
    ensures |d.handled| <= |d.queue.pushed| && d.handled == Q.Values(d.queue.pushed[..|d.handled|])
  {
    var queue := d.queue;
    assert Q.Values(queue.pushed) == queue.popped + Q.Contents(queue);
    assert d.handled <= queue.popped;
  }

  lemma InputsNow(s: System)
    requires Q.Inv(s.demux.queue) && D.InStep(s.demux) && LinksInv(s.links, s.demux.queue)
    requires Heard(s.demux.handled) == HeardIn(s.inputs)
    ensures InputsFromBytes(s)
  {
    var queue := s.demux.queue;
    HandledFirst(s.demux);
    forall r | 0 <= r < |s.links| ensures PushedFromBytes(s.links[r], Q.Project(queue.pushed, r)) {
      LinkFromBytes(s.links[r], queue.accepted[r], queue.producers[r]);
    }
  }

  lemma {:induction false} ProjectOfPrefix<T>(pushed: seq<(nat, T)>, n: nat, p: nat)
    requires n <= |pushed|
    ensures Q.Project(pushed[..n], p) <= Q.Project(pushed, p)
  {
    if n == |pushed| {
      assert pushed[..n] == pushed;
    } else {
      var k := |pushed| - 1;
      assert pushed[..k][..n] == pushed[..n];
      ProjectOfPrefix(pushed[..k], n, p);
    }
  }

  /** Every connection's bytes are the beginning of what some client wrote. */
  predicate FromClients(links: seq<Link>, mss: seq<seq<MDMessage>>) {
    && |mss| == |links|
    && forall r | 0 <= r < |links| :: Flatten(links[r].chunks) <= Flatten(EncodeAll(mss[r]))
  }

  lemma ClientLink(l: Link, ms: seq<MDMessage>)
    requires Started(l) && Flatten(l.chunks) <= Flatten(EncodeAll(ms))
    ensures TurnAll(l.first, l.chunks).rx.pushed <= ReceivedAll(ms)
  {
    var now := l.first.rx.lastHeartbeat;
    ThreadIsReceive(ms, l.chunks, now, l.first.mem);
    EndToEnd(ms, l.chunks, now);
    ReceivedPrefix(ms, |ReceiveAll(Fresh(now), l.chunks).pushed|);
  }

  lemma ReceivedPrefix(ms: seq<MDMessage>, k: nat)
    requires k <= |ms|
    ensures ReceivedAll(ms[..k]) <= ReceivedAll(ms)
  {
    MapSplit(AsReceived, ms, k);
  }

  /** For any number of connections: the messages handled are an interleaving of the first ones each
      client sent, up to the HALT/CLOSE exchange. */
  lemma FromAllClients(g: Setting, states: seq<System>, actions: seq<Action>, i: nat, mss: seq<seq<MDMessage>>)
    requires IsRun(g, states, actions) && i < |states| && FromClients(states[i].links, mss)
    ensures WrittenFromEngine(g, states[i])
    ensures HeardIn(states[i].inputs) == Heard(states[i].demux.handled)
    ensures var d := states[i].demux;
      && |d.handled| <= |d.queue.pushed|
      && d.handled == Q.Values(d.queue.pushed[..|d.handled|])
      && forall r | 0 <= r < |mss| :: Q.Project(d.queue.pushed[..|d.handled|], r) <= ReceivedAll(mss[r])
  {
    OrdersComeFromBytes(g, states, actions, i);
    RunInv(g, states, actions, i);
    var s := states[i];
    var pushed, n := s.demux.queue.pushed, |s.demux.handled|;
    HandledFirst(s.demux);
    forall r | 0 <= r < |mss| ensures Q.Project(pushed[..n], r) <= ReceivedAll(mss[r]) {
      assert PushedFromBytes(s.links[r], Q.Project(pushed, r));
      ClientLink(s.links[r], mss[r]);
      ProjectOfPrefix(pushed, n, r);
    }
  }

  // ---- Where the inputs come from ----

  /** What one action hands to the engine: an operator's command, or the quote or trade just handled
      with the clock readings of its handling. */
  function HandedOver(a: Action, message: MDMessage): seq<FlowInput> {
    match a
    case Operator(command) => [CommandGiven(command)]
    case Dispatch(now, wallNow, timestamp) =>
      (match message
       case QuoteMessage(_) => [QuoteArrives(now)]
       case TradeMessage(t) => [TradeArrives(t, now, wallNow, timestamp)]
       case HeartbeatMessage(_) => []
       case SessionMessage(_, _) => [])
    case _ => []
  }

  function InHand(d: D.Demux): MDMessage {
    match d.phase case Handling(m) => m case _ => HeartbeatMessage(0)
  }

  /** All of it, in the order of the actions. */
  function AllHandedOver(states: seq<System>, actions: seq<Action>, n: nat): seq<FlowInput>
    requires n <= |actions| < |states|
  {
    if n == 0 then []
    else AllHandedOver(states, actions, n - 1) + HandedOver(actions[n - 1], InHand(states[n - 1].demux))
  }

  function CommandsIn(inputs: seq<FlowInput>): seq<Session.Command> {
    if |inputs| == 0 then []
    else
      CommandsIn(inputs[..|inputs| - 1])
      + (if inputs[|inputs| - 1].CommandGiven? then [inputs[|inputs| - 1].command] else [])
  }

  function CommandsOf(actions: seq<Action>): seq<Session.Command> {
    if |actions| == 0 then []
    else
      CommandsOf(actions[..|actions| - 1])
      + (if actions[|actions| - 1].Operator? then [actions[|actions| - 1].command] else [])
  }

  /** One action adds to the inputs exactly what it hands over. */
  lemma HandsOver(g: Setting, s: System, a: Action)
    requires Enabled(s, a)
    ensures Step(g, s, a).inputs == s.inputs + HandedOver(a, InHand(s.demux))
  {
    assert s.inputs + [] == s.inputs;
  }

  /** Over every interleaving the inputs are the operator's commands and the messages handled, merged in
      the order of the actions, each with its own clock readings ... */
  lemma {:induction false} InputsAreHandedOver(g: Setting, states: seq<System>, actions: seq<Action>, i: nat)
    requires IsRun(g, states, actions) && i < |states|
    ensures states[i].inputs == AllHandedOver(states, actions, i)
  {
    if i > 0 {
      InputsAreHandedOver(g, states, actions, i - 1);
      HandsOver(g, states[i - 1], actions[i - 1]);
    }
  }

  lemma CommandsJoin(inputs: seq<FlowInput>, more: seq<FlowInput>)
    requires |more| <= 1
    ensures CommandsIn(inputs + more)
         == CommandsIn(inputs) + (if |more| == 1 && more[0].CommandGiven? then [more[0].command] else [])
  {
    if |more| == 1 {
      assert (inputs + more)[..|inputs|] == inputs;
    } else {
      assert inputs + more == inputs;
    }
  }

  /** ... and so the commands among them are exactly those given, in order. */
  lemma {:induction false} CommandsArrive(g: Setting, states: seq<System>, actions: seq<Action>, i: nat)
    requires IsRun(g, states, actions) && i < |states|
    ensures CommandsIn(states[i].inputs) == CommandsOf(actions[..i])
  {
    if i > 0 {
      CommandsArrive(g, states, actions, i - 1);
      var a := actions[i - 1];
      HandsOver(g, states[i - 1], a);
      CommandsStep(states[i - 1].inputs, a, InHand(states[i - 1].demux));
      assert actions[..i][..i - 1] == actions[..i - 1];
    }
  }

  lemma CommandsStep(inputs: seq<FlowInput>, a: Action, message: MDMessage)
    ensures CommandsIn(inputs + HandedOver(a, message))
         == CommandsIn(inputs) + (if a.Operator? then [a.command] else [])
  {
    CommandsJoin(inputs, HandedOver(a, message));
    assert CommandsIn(inputs) + [] == CommandsIn(inputs);
  }

  // ---- HALT and the wire ----

  predicate Halted(g: Setting, s: System) {
    AfterInputs(g, s.inputs).sys.engine.isHalted
  }

  /** An operator's HALT on an open session halts the engine. */
  lemma HaltTakesEffect(g: Setting, s: System)
    requires AfterInputs(g, s.inputs).sys.session.Open?
    ensures var s' := Step(g, s, Operator(Session.HaltCommand));
      Halted(g, s') && AfterInputs(g, s'.inputs).sys.session.Halt?
  {
    EachCommandInFlow(g.config, g.window, s.inputs, Session.HaltCommand);
  }

  /** Nothing but OPEN ends that. */
  lemma OnlyOpenResumes(g: Setting, s: System, a: Action)
    requires Enabled(s, a) && Halted(g, s) && a != Operator(Session.OpenCommand)
    ensures Halted(g, Step(g, s, a))
  {
    HandsOver(g, s, a);
    var given := HandedOver(a, InHand(s.demux));
    if given == [] {
      assert s.inputs + given == s.inputs;
    } else {
      match given[0] {
        case QuoteArrives(now) => EachQuote(g.config, g.window, s.inputs, now);
        case TradeArrives(t, now, w, ts) => EachTrade(g.config, g.window, s.inputs, t, now, w, ts);
        case CommandGiven(command) => EachCommandInFlow(g.config, g.window, s.inputs, command);
      }
    }
  }

  predicate AllRejected(os: seq<NewOrder>) {
    forall o | o in os :: o.status.Rejected?
  }

  /** While halted, an input sends at most a rejection. */
  lemma HaltedSends(g: Setting, inputs: seq<FlowInput>, i: FlowInput)
    requires AfterInputs(g, inputs).sys.engine.isHalted
    ensures var sent, sent' := AfterInputs(g, inputs).sent, AfterInputs(g, inputs + [i]).sent;
      sent <= sent' && AllRejected(sent'[|sent|..])
  {
    match i {
      case QuoteArrives(now) => EachQuote(g.config, g.window, inputs, now);
      case TradeArrives(t, now, w, ts) =>
        EachTrade(g.config, g.window, inputs, t, now, w, ts);
        var e := AfterInputs(g, inputs).sys.engine;
        HaltedRejects(g.config, e, t, IsReady(g.config, e, now), Mean(AfterInputs(g, inputs + [i]).live), ts);
      case CommandGiven(command) => EachCommandInFlow(g.config, g.window, inputs, command);
    }
  }

  /** So no action asks for an accepted order to be sent. */
  lemma HaltedAsksNothing(g: Setting, s: System, a: Action)
    requires Inv(g, s) && Enabled(s, a) && Halted(g, s)
    ensures s.orders.asked <= Step(g, s, a).orders.asked
    ensures AllRejected(Step(g, s, a).orders.asked[|s.orders.asked|..])
  {
    StepInv(g, s, a);
    HandsOver(g, s, a);
    HaltedAsks(g, s, Step(g, s, a), HandedOver(a, InHand(s.demux)));
  }

  lemma HaltedAsks(g: Setting, s: System, s': System, given: seq<FlowInput>)
    requires EngineInv(g, s) && EngineInv(g, s') && s'.inputs == s.inputs + given && |given| <= 1
    requires AfterInputs(g, s.inputs).sys.engine.isHalted
    ensures s.orders.asked <= s'.orders.asked && AllRejected(s'.orders.asked[|s.orders.asked|..])
  {
    HaltedHandsOver(g, s.inputs, given);
  }

  lemma HaltedHandsOver(g: Setting, inputs: seq<FlowInput>, given: seq<FlowInput>)
    requires AfterInputs(g, inputs).sys.engine.isHalted && |given| <= 1
    ensures var sent, sent' := AfterInputs(g, inputs).sent, AfterInputs(g, inputs + given).sent;
      sent <= sent' && AllRejected(sent'[|sent|..])
  {
    if given == [] {
      assert inputs + given == inputs;
    } else {
      assert given == [given[0]];
      HaltedSends(g, inputs, given[0]);
    }
  }

  lemma HaltedRejects(c: Config, s: EngineState, t: Trade, ready: bool, vwap: u64, timestamp: u64)
    requires s.isHalted
    ensures AllRejected(AsSeq(OrderFor(s, t, Decide(c, s, t, ready, vwap), timestamp)))
  {
  }

  /** The orders asked for between two moments of a run. */
  function AskedBetween(states: seq<System>, h: nat, j: nat): seq<NewOrder>
    requires h < |states| && j < |states|
  {
    var before, after := states[h].orders.asked, states[j].orders.asked;
    if |before| <= |after| then after[|before|..] else []
  }

  /** Halted, and since `asked` only rejections were asked for. */
  predicate QuietSince(g: Setting, asked: seq<NewOrder>, s: System) {
    Halted(g, s) && asked <= s.orders.asked && AllRejected(s.orders.asked[|asked|..])
  }

  lemma StaysQuiet(g: Setting, asked: seq<NewOrder>, s: System, a: Action)
    requires Inv(g, s) && Enabled(s, a) && QuietSince(g, asked, s) && a != Operator(Session.OpenCommand)
    ensures QuietSince(g, asked, Step(g, s, a))
  {
    OnlyOpenResumes(g, s, a);
    HaltedAsksNothing(g, s, a);
    RejectedJoin(asked, s.orders.asked, Step(g, s, a).orders.asked);
  }

  lemma BecomesQuiet(g: Setting, s: System)
    requires AfterInputs(g, s.inputs).sys.session.Open?
    ensures QuietSince(g, s.orders.asked, Step(g, s, Operator(Session.HaltCommand)))
  {
    HaltTakesEffect(g, s);
  }

  /** No OPEN from `h` on before `j`. */
  predicate NoOpen(actions: seq<Action>, h: nat, j: nat) {
    j <= |actions| && forall k | h <= k < j :: actions[k] != Operator(Session.OpenCommand)
  }

  lemma QuietLater(g: Setting, asked: seq<NewOrder>, states: seq<System>, actions: seq<Action>, k: nat)
    requires IsRun(g, states, actions) && k < |actions|
    requires QuietSince(g, asked, states[k]) && actions[k] != Operator(Session.OpenCommand)
    ensures QuietSince(g, asked, states[k + 1])
  {
    RunInv(g, states, actions, k);
    StaysQuiet(g, asked, states[k], actions[k]);
  }

  /** Quiet at one moment, and no OPEN then, is quiet at the next. */
  predicate QuietKept(g: Setting, asked: seq<NewOrder>, states: seq<System>, actions: seq<Action>) {
    && |states| == |actions| + 1
    && forall k | 0 <= k < |actions| ::
         QuietSince(g, asked, states[k]) && actions[k] != Operator(Session.OpenCommand)
         ==> QuietSince(g, asked, states[k + 1])
  }

  lemma RunKeepsQuiet(g: Setting, asked: seq<NewOrder>, states: seq<System>, actions: seq<Action>)
    requires IsRun(g, states, actions)
    ensures QuietKept(g, asked, states, actions)
  {
    forall k | 0 <= k < |actions| && QuietSince(g, asked, states[k]) && actions[k] != Operator(Session.OpenCommand)
      ensures QuietSince(g, asked, states[k + 1])
    {
      QuietLater(g, asked, states, actions, k);
    }
  }

  lemma {:induction false} QuietUntil(g: Setting, asked: seq<NewOrder>, states: seq<System>, actions: seq<Action>,
                                      h: nat, j: nat)
    requires QuietKept(g, asked, states, actions)
    requires h <= j < |states| && QuietSince(g, asked, states[h]) && NoOpen(actions, h, j)
    ensures QuietSince(g, asked, states[j])
  {
    if h < j {
      QuietUntil(g, asked, states, actions, h, j - 1);
    }
  }

  /** From a HALT that takes effect until the next OPEN, whatever all the threads do: every order asked
      for, and so every order that reaches the wire for a trade handled in that time, is a rejection. */
  lemma NoAcceptedOrderWhileHalted(g: Setting, states: seq<System>, actions: seq<Action>, h: nat, j: nat)
    requires IsRun(g, states, actions) && h < j < |states|
    requires actions[h] == Operator(Session.HaltCommand) && AfterInputs(g, states[h].inputs).sys.session.Open?
    requires NoOpen(actions, h + 1, j)
    ensures QuietSince(g, states[h].orders.asked, states[j])
  {
    BecomesQuiet(g, states[h]);
    RunKeepsQuiet(g, states[h].orders.asked, states, actions);
    QuietUntil(g, states[h].orders.asked, states, actions, h + 1, j);
  }

  lemma RejectedJoin(a: seq<NewOrder>, b: seq<NewOrder>, c: seq<NewOrder>)
    requires a <= b <= c && AllRejected(b[|a|..]) && AllRejected(c[|b|..])
    ensures a <= c && AllRejected(c[|a|..])
  {
    assert c[|a|..] == b[|a|..] + c[|b|..];
  }

  // ---- The budget on the wire ----

  /** The accepted buys among orders, and among frames that decode to orders. */
  function BoughtBy(os: seq<NewOrder>): nat {
    if |os| == 0 then 0
    else BoughtBy(os[..|os| - 1]) + BuyQuantity(os[|os| - 1])
  }

  function BuyQuantity(o: NewOrder): nat {
    if o.status.Accepted? && o.side.Buy? then o.quantity else 0
  }

  function BoughtOnWire(fs: seq<seq<byte>>): nat {
    if |fs| == 0 then 0
    else
      BoughtOnWire(fs[..|fs| - 1])
      + match DecodeOrder(fs[|fs| - 1]) case OrderOk(o) => BuyQuantity(o) case OrderErr(_) => 0
  }

  lemma {:induction false} BoughtDecoded(fs: seq<seq<byte>>, os: seq<NewOrder>)
    requires |fs| <= |os| && forall j | 0 <= j < |fs| :: DecodeOrder(fs[j]) == OrderOk(os[j])
    ensures BoughtOnWire(fs) == BoughtBy(os[..|fs|])
  {
    if |fs| > 0 {
      var k := |fs| - 1;
      BoughtDecoded(fs[..k], os);
      assert os[..k + 1][..k] == os[..k];
    }
  }

  lemma {:induction false} BoughtPrefix(os: seq<NewOrder>, n: nat)
    requires n <= |os|
    ensures BoughtBy(os[..n]) <= BoughtBy(os)
  {
    if n == |os| {
      assert os[..n] == os;
    } else {
      var k := |os| - 1;
      assert os[..k][..n] == os[..n];
      BoughtPrefix(os[..k], n);
    }
  }

  lemma BoughtByRecord(r: E.Record, k: nat)
    requires E.RecordHonest(r, k)
    ensures |AsSeq(r.order)| <= 1 && BoughtBy(AsSeq(r.order)) == if r.decision.Bought? then r.trade.quantity else 0
  {
    if r.order.Some? {
      var os := AsSeq(r.order);
      assert os[..0] == [] && BoughtBy(os[..0]) == 0;
    }
  }

  lemma BoughtBySnoc(os: seq<NewOrder>, more: seq<NewOrder>)
    requires |more| <= 1
    ensures BoughtBy(os + more) == BoughtBy(os) + BoughtBy(more)
  {
    if |more| == 0 {
      assert os + more == os;
    } else {
      assert (os + more)[..|os|] == os && more[..0] == [];
    }
  }

  lemma {:induction false} BoughtOfLog(c: Config, log: seq<E.Record>)
    requires E.Sound(c, log)
    ensures BoughtBy(OrdersOf(log)) == E.BoughtVolume(log)
  {
    if |log| > 0 {
      var k := |log| - 1;
      E.SoundPrefix(c, log, k);
      BoughtOfLog(c, log[..k]);
      assert E.RecordHonest(log[k], k);
      BoughtByRecord(log[k], k);
      BoughtBySnoc(OrdersOf(log[..k]), AsSeq(log[k].order));
    }
  }

  lemma EngineBudget(g: Setting, inputs: seq<FlowInput>)
    requires E.Volume(AfterInputs(g, inputs).sys.log) < 0x1_0000_0000_0000_0000
    ensures var bought := BoughtBy(OrdersOf(AfterInputs(g, inputs).sys.log));
      bought <= g.config.maxQuantity && bought <= g.config.participationCap
  {
    var ins := EngineInputs(g.config, g.window, inputs);
    FlowIsEngineRun(g.config, g.window, inputs);
    E.RunSound(g.config, ins);
    E.Budget(g.config, ins);
    BoughtOfLog(g.config, E.Run(g.config, ins).log);
  }

  /** Whoever reads the bytes written, at any moment of any interleaving: the accepted buys in them
      together exceed neither the maximum nor the cap, as long as the volume handled fits 64 bits. */
  lemma BudgetOnWire(g: Setting, states: seq<System>, actions: seq<Action>, i: nat)
    requires IsRun(g, states, actions) && i < |states|
    requires E.Volume(AfterInputs(g, states[i].inputs).sys.log) < 0x1_0000_0000_0000_0000
    ensures var bought := BoughtOnWire(Frames(states[i].orders.wire));
      bought <= g.config.maxQuantity && bought <= g.config.participationCap
  {
    OrdersComeFromBytes(g, states, actions, i);
    var fs, out := Frames(states[i].orders.wire), OrdersOf(AfterInputs(g, states[i].inputs).sys.log);
    BoughtDecoded(fs, out);
    BoughtPrefix(out, |fs|);
    EngineBudget(g, states[i].inputs);
  }
}
