/** A trade's whole way: into the average, past the engine, out as an order. */
module TradeFlow {
  import opened Arithmetic
  import opened Options
  import opened Bytes
  import opened Gcmd
  import opened Oe
  import opened Vwap
  import opened VwapTheory
  import opened VwapQuantities
  import opened Engine
  import opened Session
  import opened EngineRuns

  /** The live trades once the service has taken the trade and, if asked, given its average. */
  function LiveFor(s: EngineState, c: Config, live: seq<Trade>, t: Trade, now: u64, wallNow: u64,
                   window: u64): seq<Trade>
    requires ClockSet(s)
  {
    var l := Handle(live, t, OverwriteOldest, window).live;
    if AsksVwap(s, t, IsReady(c, s, now)) then Evict(l, wallNow, window) else l
  }

  class TradeMessageHandler {
    const vwapService: VWAPService
    const executionEngine: ExecutionEngine
    /** The orders passed to the sender, in order. */
    var sent: seq<NewOrder>

    ghost predicate Valid()
      reads this, executionEngine, vwapService, vwapService.trades
    {
      executionEngine.vwapService == vwapService && executionEngine.Valid()
    }

    constructor (vwapService: VWAPService, engine: ExecutionEngine)
      requires engine.vwapService == vwapService && engine.Valid()
      ensures Valid() && this.vwapService == vwapService && executionEngine == engine && sent == []
    {
      this.vwapService, executionEngine, sent := vwapService, engine, [];
    }

    /** Throws on anything but a trade, and only then: the service never throws under its policy. */
    method OnMessage(message: MDMessage, now: u64, wallNow: u64, timestamp: u64)
      returns (thrown: bool, ghost decision: Decision)
      requires Valid()
      modifies this, executionEngine, vwapService, vwapService.trades
      ensures Valid()
      ensures thrown <==> !message.TradeMessage?
      ensures thrown ==>
        unchanged(this) && unchanged(executionEngine) && unchanged(vwapService) && unchanged(vwapService.trades)
      ensures !thrown ==>
        var s, c, t := old(executionEngine.State()), executionEngine.config, message.trade;
        && vwapService.Live()
             == LiveFor(s, c, old(vwapService.Live()), t, now, wallNow, vwapService.rollingWindowSizeMs)
        && decision == Decide(c, s, t, IsReady(c, s, now), Mean(vwapService.Live()))
        && sent == old(sent) + AsSeq(OrderFor(s, t, decision, timestamp))
        && executionEngine.State() == Account(s, t, decision)
    {
      if !message.TradeMessage? {
        return true, NotReady;
      }
      thrown := vwapService.HandleTrade(message.trade, OverwriteOldest);
      if thrown {
        return true, NotReady;
      }
      var newOrder;
      newOrder, decision := executionEngine.HandleTrade(message.trade, now, wallNow, timestamp);
      if newOrder.Some? {
        sent := sent + [newOrder.value];
      }
    }
  }

  // ---- Accepted orders against the market ----

  /** The engine's price test for a buy. */
  predicate CheapEnough(price: i64, vwap: u64, c: Config) {
    ToUnsigned(price) <= UpperBound(c, vwap)
  }

  lemma ScaleDown(vwap: nat, band: nat)
    requires 0 < band <= 10000 && vwap > 0
    ensures 0 <= vwap * (10000 - band) && vwap * (10000 - band) / 10000 < vwap
  {
    MulMono(vwap, 10000 - band, 9999);
    MulMono(vwap, 0, 10000 - band);
  }

  /** With a band of up to 100% and no wrap, whatever is cheap enough is strictly below the average. */
  lemma CheapIsBelowAverage(price: i64, vwap: u64, c: Config)
    requires price > 0 && 0 < c.bandBps <= 10000 && vwap * (10000 - c.bandBps) < 0x1_0000_0000_0000_0000
    requires CheapEnough(price, vwap, c)
    ensures price < vwap
  {
    if vwap > 0 {
      ScaleDown(vwap, c.bandBps);
      Wrap64Sum(vwap * (10000 - c.bandBps), 0);
    }
  }

  /** Exactly when the band setting is sane: for averages that cannot wrap at full scale, the price
      test admits only prices strictly below the average if and only if 0 < bandBps <= 10000. A
      larger band wraps 10000 - bandBps round to a huge factor. */
  lemma BandSaneExactlyWhen(c: Config)
    ensures (forall price: i64, vwap: u64 | price > 0 && vwap * 10000 < 0x1_0000_0000_0000_0000 ::
               CheapEnough(price, vwap, c) ==> price < vwap)
        <==> 0 < c.bandBps <= 10000
  {
    if 0 < c.bandBps <= 10000 {
      forall price: i64, vwap: u64 |
          price > 0 && vwap * 10000 < 0x1_0000_0000_0000_0000 && CheapEnough(price, vwap, c)
        ensures price < vwap
      {
        MulMono(vwap, 10000 - c.bandBps, 10000);
        CheapIsBelowAverage(price, vwap, c);
      }
    } else {
      assert UpperBound(c, 1) >= 1;
      assert CheapEnough(1, 1, c);
    }
  }

  /** Every accepted buy is strictly below some live trade of the window, whatever the state. */
  lemma AcceptedBuyBelowMarket(s: EngineState, c: Config, live: seq<Trade>, t: Trade, ready: bool)
    requires Decide(c, s, t, ready, Mean(live)) == Bought
    requires |live| <= CAPACITY && NonNegativePrices(live) && t.price > 0
    requires 0 < c.bandBps <= 10000 && Mean(live) * (10000 - c.bandBps) < 0x1_0000_0000_0000_0000
    ensures exists m :: m in live && m.quantity > 0 && m.price > t.price
  {
    BuyIsCheapEnough(s, c, t, ready, Mean(live));
    CheapIsBelowAverage(t.price, Mean(live), c);
    MeanIsStraddled(live);
  }

  lemma BuyIsCheapEnough(s: EngineState, c: Config, t: Trade, ready: bool, vwap: u64)
    requires Decide(c, s, t, ready, vwap) == Bought
    ensures CheapEnough(t.price, vwap, c)
  {
  }

  lemma ScaleUp(vwap: nat, band: nat)
    requires vwap * band >= 10000
    ensures vwap * (10000 + band) / 10000 > vwap
  {
    Distribute(10000, band, vwap);
    assert vwap * (10000 + band) == 10000 * vwap + vwap * band;
  }

  /** The engine's price test for a sell. */
  predicate DearEnough(price: i64, vwap: u64, c: Config) {
    ToUnsigned(price) >= LowerBound(c, vwap)
  }

  lemma LowerBoundUnwrapped(vwap: u64, c: Config)
    requires vwap * (10000 + c.bandBps) < 0x1_0000_0000_0000_0000
    ensures LowerBound(c, vwap) == vwap * (10000 + c.bandBps) / 10000 && vwap * 10000 < 0x1_0000_0000_0000_0000
  {
    MulMono(vwap, 10000, 10000 + c.bandBps);
    if vwap > 0 {
      MulMono(10000 + c.bandBps, 1, vwap);
      Wrap64Sum(10000 + c.bandBps, 0);
    }
    Wrap64Sum(vwap * (10000 + c.bandBps), 0);
  }

  lemma DearIsAboveAverage(price: i64, vwap: u64, c: Config)
    requires price >= 0 && DearEnough(price, vwap, c)
    requires vwap * c.bandBps >= 10000 && vwap * (10000 + c.bandBps) < 0x1_0000_0000_0000_0000
    ensures price > vwap
  {
    ScaleUp(vwap, c.bandBps);
    LowerBoundUnwrapped(vwap, c);
  }

  lemma ScaleTooLittle(vwap: nat, band: nat)
    requires vwap * band < 10000
    ensures vwap * (10000 + band) / 10000 == vwap
  {
    Distribute(10000, band, vwap);
    QuotientUnique(vwap * (10000 + band), 10000, vwap);
  }

  /** Exactly when the band asks for anything: where nothing wraps, the price test admits only prices
      strictly above the average if and only if the band is worth at least one unit of price. */
  lemma SellBandExactlyWhen(c: Config, vwap: u64)
    requires vwap * (10000 + c.bandBps) < 0x1_0000_0000_0000_0000
    ensures (forall price: i64 | price >= 0 :: DearEnough(price, vwap, c) ==> price > vwap)
        <==> vwap * c.bandBps >= 10000
  {
    if vwap * c.bandBps >= 10000 {
      forall price: i64 | price >= 0 && DearEnough(price, vwap, c) ensures price > vwap {
        DearIsAboveAverage(price, vwap, c);
      }
    } else {
      ScaleTooLittle(vwap, c.bandBps);
      LowerBoundUnwrapped(vwap, c);
      assert DearEnough(vwap, vwap, c);
    }
  }

  /** Dually for sells: with an average worth a band of at least one unit and no wrap, an accepted
      sell is strictly above some live trade. */
  lemma AcceptedSellAboveMarket(s: EngineState, c: Config, live: seq<Trade>, t: Trade, ready: bool)
    requires Decide(c, s, t, ready, Mean(live)) == Sold
    requires |live| <= CAPACITY && NonNegativePrices(live) && t.price >= 0
    requires Mean(live) * c.bandBps >= 10000 && Mean(live) * (10000 + c.bandBps) < 0x1_0000_0000_0000_0000
    ensures exists m :: m in live && m.quantity > 0 && m.price < t.price
  {
    SellIsDearEnough(s, c, t, ready, Mean(live));
    DearIsAboveAverage(t.price, Mean(live), c);
    MeanIsStraddled(live);
  }

  lemma SellIsDearEnough(s: EngineState, c: Config, t: Trade, ready: bool, vwap: u64)
    requires Decide(c, s, t, ready, vwap) == Sold
    ensures DearEnough(t.price, vwap, c)
  {
  }

  // ---- Whole runs of service and engine together ----

  datatype FlowInput =
    | QuoteArrives(now: u64)
    | TradeArrives(trade: Trade, now: u64, wallNow: u64, timestamp: u64)
    | CommandGiven(command: Command)

  datatype Flow = Flow(sys: Sys, live: seq<Trade>, sent: seq<NewOrder>)

  function AsInput(i: FlowInput, vwap: u64): Input {
    match i
    case QuoteArrives(now) => QuoteIn(now)
    case TradeArrives(t, now, _, ts) => TradeIn(t, now, vwap, ts)
    case CommandGiven(cmd) => CommandIn(cmd)
  }

  function FlowStep(c: Config, window: u64, f: Flow, i: FlowInput): (r: Flow)
    requires ClockSet(f.sys.engine)
    ensures ClockSet(r.sys.engine)
  {
    match i
    case TradeArrives(t, now, wallNow, _) =>
      var live := LiveFor(f.sys.engine, c, f.live, t, now, wallNow, window);
      var step := AsInput(i, Mean(live));
      Flow(Step(c, f.sys, step), live, f.sent + AsSeq(RecordOf(c, f.sys.engine, step).order))
    case _ => f.(sys := Step(c, f.sys, AsInput(i, 0)))
  }

  function FlowRun(c: Config, window: u64, ins: seq<FlowInput>): (r: Flow)
    ensures ClockSet(r.sys.engine)
  {
    if |ins| == 0 then Flow(START, [], [])
    else FlowStep(c, window, FlowRun(c, window, ins[..|ins| - 1]), ins[|ins| - 1])
  }

  // ---- What each input does ----

  lemma FlowSnoc(c: Config, window: u64, ins: seq<FlowInput>, i: FlowInput)
    ensures FlowRun(c, window, ins + [i]) == FlowStep(c, window, FlowRun(c, window, ins), i)
  {
    assert (ins + [i])[..|ins|] == ins;
  }

  /** A quote is counted at its time and touches nothing else. */
  lemma EachQuote(c: Config, window: u64, ins: seq<FlowInput>, now: u64)
    ensures var before := FlowRun(c, window, ins);
      FlowRun(c, window, ins + [QuoteArrives(now)])
        == before.(sys := before.sys.(engine := OnQuote(before.sys.engine, now)))
  {
    FlowSnoc(c, window, ins, QuoteArrives(now));
  }

  /** A trade enters the window, is decided at the engine's time by the average at the service's, and
      its order, if any, is stamped and sent. */
  lemma EachTrade(c: Config, window: u64, ins: seq<FlowInput>, t: Trade, now: u64, wallNow: u64, timestamp: u64)
    ensures var before := FlowRun(c, window, ins);
      var after := FlowRun(c, window, ins + [TradeArrives(t, now, wallNow, timestamp)]);
      var s := before.sys.engine;
      var d := Decide(c, s, t, IsReady(c, s, now), Mean(after.live));
      && after.live == LiveFor(s, c, before.live, t, now, wallNow, window)
      && after.sys.engine == Account(s, t, d)
      && after.sys.session == before.sys.session
      && after.sent == before.sent + AsSeq(OrderFor(s, t, d, timestamp))
  {
    FlowSnoc(c, window, ins, TradeArrives(t, now, wallNow, timestamp));
  }

  /** A command does to the session and the halt flag what it says, and touches nothing else. */
  lemma EachCommandInFlow(c: Config, window: u64, ins: seq<FlowInput>, command: Command)
    ensures var before, after := FlowRun(c, window, ins), FlowRun(c, window, ins + [CommandGiven(command)]);
      var s := before.sys;
      if command.HaltCommand? && s.session.Open? then
        after == before.(sys := s.(session := Halt, engine := s.engine.(isHalted := true)))
      else if command.OpenCommand? && s.session.Halt? then
        after == before.(sys := s.(session := Open, engine := s.engine.(isHalted := false)))
      else if command.CloseCommand? && !s.session.Close? then after == before.(sys := s.(session := Close))
      else after == before
  {
    FlowSnoc(c, window, ins, CommandGiven(command));
  }

  /** The engine's inputs in a flow: each trade with the average the service answers. */
  function EngineInputs(c: Config, window: u64, ins: seq<FlowInput>): seq<Input> {
    if |ins| == 0 then []
    else EngineInputs(c, window, ins[..|ins| - 1])
         + [AsInput(ins[|ins| - 1], Mean(FlowRun(c, window, ins).live))]
  }

  /** The engine looks at the average when it handles the last input, a trade. */
  predicate LastAsks(c: Config, window: u64, ins: seq<FlowInput>) {
    |ins| > 0 &&
    var s, i := FlowRun(c, window, ins[..|ins| - 1]).sys.engine, ins[|ins| - 1];
    i.TradeArrives? && AsksVwap(s, i.trade, IsReady(c, s, i.now))
  }

  /** The service's events for one input. */
  function EventsOf(i: FlowInput, asks: bool): seq<Event> {
    match i
    case TradeArrives(t, _, wallNow, _) => if asks then [TradeEvent(t), QueryEvent(wallNow)] else [TradeEvent(t)]
    case _ => []
  }

  /** The service's events in a flow: each trade, and a query where the engine asks. */
  function ServiceEvents(c: Config, window: u64, ins: seq<FlowInput>): seq<Event> {
    if |ins| == 0 then []
    else ServiceEvents(c, window, ins[..|ins| - 1]) + EventsOf(ins[|ins| - 1], LastAsks(c, window, ins))
  }

  /** The engine's half of a flow is one of the runs EngineRuns is about. */
  lemma {:induction false} FlowIsEngineRun(c: Config, window: u64, ins: seq<FlowInput>)
    ensures FlowRun(c, window, ins).sys == Run(c, EngineInputs(c, window, ins))
  {
    if |ins| > 0 {
      var before, i := ins[..|ins| - 1], ins[|ins| - 1];
      FlowIsEngineRun(c, window, before);
      var eins, e := EngineInputs(c, window, before), AsInput(i, Mean(FlowRun(c, window, ins).live));
      assert (eins + [e])[..|eins|] == eins;
      assert FlowRun(c, window, ins).sys == Step(c, FlowRun(c, window, before).sys, e);
    }
  }

  lemma LiveAfterSnoc(es: seq<Event>, e: Event, window: u64)
    ensures LiveAfter(es + [e], window) == React(LiveAfter(es, window), e, window)
  {
    assert (es + [e])[..|es|] == es;
  }

  lemma LiveGrows(es: seq<Event>, i: FlowInput, asks: bool, window: u64)
    ensures i.TradeArrives? ==>
      var l := Handle(LiveAfter(es, window), i.trade, OverwriteOldest, window).live;
      LiveAfter(es + EventsOf(i, asks), window) == if asks then Evict(l, i.wallNow, window) else l
    ensures !i.TradeArrives? ==> LiveAfter(es + EventsOf(i, asks), window) == LiveAfter(es, window)
  {
    match i {
      case TradeArrives(t, _, wallNow, _) =>
        LiveAfterSnoc(es, TradeEvent(t), window);
        LiveAfterSnoc(es + [TradeEvent(t)], QueryEvent(wallNow), window);
        assert es + [TradeEvent(t), QueryEvent(wallNow)] == es + [TradeEvent(t)] + [QueryEvent(wallNow)];
      case _ =>
        assert es + [] == es;
    }
  }

  /** The service's half of a flow is one of the runs VwapTheory is about. */
  lemma {:induction false} FlowIsServiceRun(c: Config, window: u64, ins: seq<FlowInput>)
    ensures FlowRun(c, window, ins).live == LiveAfter(ServiceEvents(c, window, ins), window)
  {
    if |ins| > 0 {
      var before, i := ins[..|ins| - 1], ins[|ins| - 1];
      FlowIsServiceRun(c, window, before);
      LiveGrows(ServiceEvents(c, window, before), i, LastAsks(c, window, ins), window);
    }
  }

  function TradesArrived(ins: seq<FlowInput>): seq<Trade> {
    if |ins| == 0 then []
    else TradesArrived(ins[..|ins| - 1]) + (if ins[|ins| - 1].TradeArrives? then [ins[|ins| - 1].trade] else [])
  }

  lemma HistoryGrows(es: seq<Event>, i: FlowInput, asks: bool)
    ensures History(es + EventsOf(i, asks)) == History(es) + (if i.TradeArrives? then [i.trade] else [])
  {
    match i {
      case TradeArrives(t, _, wallNow, _) =>
        HistorySnoc(es, TradeEvent(t));
        HistorySnoc(es + [TradeEvent(t)], QueryEvent(wallNow));
        assert es + [TradeEvent(t), QueryEvent(wallNow)] == es + [TradeEvent(t)] + [QueryEvent(wallNow)];
      case _ =>
        assert es + [] == es && History(es) + [] == History(es);
    }
  }

  lemma {:induction false} ServiceHistory(c: Config, window: u64, ins: seq<FlowInput>)
    ensures History(ServiceEvents(c, window, ins)) == TradesArrived(ins)
  {
    if |ins| > 0 {
      var before := ins[..|ins| - 1];
      ServiceHistory(c, window, before);
      HistoryGrows(ServiceEvents(c, window, before), ins[|ins| - 1], LastAsks(c, window, ins));
    }
  }

  lemma HistorySnoc(es: seq<Event>, e: Event)
    ensures History(es + [e]) == (if e.TradeEvent? then History(es) + [e.trade] else History(es))
  {
    assert (es + [e])[..|es|] == es;
    assert History(es) + [] == History(es);
  }

  /** The orders a log gives out. */
  function OrdersOf(log: seq<Record>): seq<NewOrder> {
    if |log| == 0 then [] else OrdersOf(log[..|log| - 1]) + AsSeq(log[|log| - 1].order)
  }

  /** What is passed to the sender is exactly the orders of the log, in order. */
  lemma {:induction false} SentIsLog(c: Config, window: u64, ins: seq<FlowInput>)
    ensures FlowRun(c, window, ins).sent == OrdersOf(FlowRun(c, window, ins).sys.log)
  {
    if |ins| > 0 {
      SentIsLog(c, window, ins[..|ins| - 1]);
      var before, after := FlowRun(c, window, ins[..|ins| - 1]), FlowRun(c, window, ins);
      if ins[|ins| - 1].TradeArrives? {
        assert after.sys.log[..|before.sys.log|] == before.sys.log;
      }
    }
  }

  /** Over every flow of trades with positive prices: when a trade is bought, some trade that
      arrived, has quantity and is still live is priced strictly above it. */
  lemma EveryBuyIsBelowMarket(c: Config, window: u64, ins: seq<FlowInput>)
    requires forall t | t in TradesArrived(ins) :: t.price > 0
    requires |ins| > 0 && ins[|ins| - 1].TradeArrives?
    requires var f := FlowRun(c, window, ins);
      && |f.sys.log| > 0 && f.sys.log[|f.sys.log| - 1].decision == Bought
      && Mean(f.live) * (10000 - c.bandBps) < 0x1_0000_0000_0000_0000
    requires 0 < c.bandBps <= 10000
    ensures exists m :: m in FlowRun(c, window, ins).live && m in TradesArrived(ins)
                        && m.quantity > 0 && m.price > ins[|ins| - 1].trade.price
  {
    var before, i, f := ins[..|ins| - 1], ins[|ins| - 1], FlowRun(c, window, ins);
    LiveArrived(c, window, ins);
    assert i.trade in TradesArrived(ins);
    LastDecision(c, window, ins);
    var s := FlowRun(c, window, before).sys.engine;
    AcceptedBuyBelowMarket(s, c, f.live, i.trade, IsReady(c, s, i.now));
  }

  /** Dually, a trade sold is strictly above some trade that arrived and is still live. */
  lemma EverySellIsAboveMarket(c: Config, window: u64, ins: seq<FlowInput>)
    requires NonNegativePrices(TradesArrived(ins))
    requires |ins| > 0 && ins[|ins| - 1].TradeArrives?
    requires var f := FlowRun(c, window, ins);
      && |f.sys.log| > 0 && f.sys.log[|f.sys.log| - 1].decision == Sold
      && Mean(f.live) * c.bandBps >= 10000 && Mean(f.live) * (10000 + c.bandBps) < 0x1_0000_0000_0000_0000
    ensures exists m :: m in FlowRun(c, window, ins).live && m in TradesArrived(ins)
                        && m.quantity > 0 && m.price < ins[|ins| - 1].trade.price
  {
    var before, i, f := ins[..|ins| - 1], ins[|ins| - 1], FlowRun(c, window, ins);
    LiveArrived(c, window, ins);
    assert i.trade in TradesArrived(ins);
    LastDecision(c, window, ins);
    var s := FlowRun(c, window, before).sys.engine;
    AcceptedSellAboveMarket(s, c, f.live, i.trade, IsReady(c, s, i.now));
  }

  lemma LiveArrived(c: Config, window: u64, ins: seq<FlowInput>)
    ensures |FlowRun(c, window, ins).live| <= CAPACITY
    ensures forall m | m in FlowRun(c, window, ins).live :: m in TradesArrived(ins)
  {
    FlowIsServiceRun(c, window, ins);
    ServiceHistory(c, window, ins);
    LiveIsLatest(ServiceEvents(c, window, ins), window);
  }

  lemma LastDecision(c: Config, window: u64, ins: seq<FlowInput>)
    requires |ins| > 0 && ins[|ins| - 1].TradeArrives?
    ensures var i, f, s := ins[|ins| - 1], FlowRun(c, window, ins), FlowRun(c, window, ins[..|ins| - 1]).sys.engine;
      && |f.sys.log| > 0
      && f.sys.log[|f.sys.log| - 1].decision == Decide(c, s, i.trade, IsReady(c, s, i.now), Mean(f.live))
  {
  }

  // ---- The average decisions are taken against ----

  /** The trades that arrived satisfy the conditions under which the average has a definition: one
      clock over them and the queries, non-negative prices. */
  predicate Orderly(c: Config, window: u64, ins: seq<FlowInput>) {
    && Monotone(ServiceEvents(c, window, ins))
    && NonNegativePrices(TradesArrived(ins))
  }

  /** Over every orderly flow, the average a trade is judged by is the exact average of the trades
      in the window at that moment, the trade itself included, as long as the ring has not been full. */
  lemma JudgedByWindowAverage(c: Config, window: u64, ins: seq<FlowInput>)
    requires Orderly(c, window, ins) && LastAsks(c, window, ins)
    requires NeverFull(ServiceEvents(c, window, ins), window)
    ensures Mean(FlowRun(c, window, ins).live)
         == NaiveVwap(TradesArrived(ins), ins[|ins| - 1].wallNow, window)
  {
    var i := ins[|ins| - 1];
    var es := ServiceEvents(c, window, ins[..|ins| - 1]) + [TradeEvent(i.trade)];
    assert ServiceEvents(c, window, ins) == es + [QueryEvent(i.wallNow)];
    FlowIsServiceRun(c, window, ins);
    ServiceHistory(c, window, ins);
    QueryAnswer(es, i.wallNow, window);
  }

  lemma QueryAnswer(es: seq<Event>, now: u64, window: u64)
    requires var all := es + [QueryEvent(now)];
      Monotone(all) && NonNegativePrices(History(all)) && NeverFull(all, window)
    ensures var all := es + [QueryEvent(now)];
      Mean(LiveAfter(all, window)) == NaiveVwap(History(all), now, window)
  {
    var all := es + [QueryEvent(now)];
    assert all[..|all| - 1] == es;
    NeverFullInit(all, window);
    HistorySnoc(es, QueryEvent(now));
    LiveAfterSnoc(es, QueryEvent(now), window);
    VwapWhileNotFull(es, now, window);
  }

  /** So every trade bought is priced strictly below the exact average of its window. */
  lemma EveryBuyIsBelowWindowAverage(c: Config, window: u64, ins: seq<FlowInput>)
    requires Orderly(c, window, ins) && LastAsks(c, window, ins)
    requires NeverFull(ServiceEvents(c, window, ins), window)
    requires 0 < c.bandBps <= 10000 && ins[|ins| - 1].trade.price > 0
    requires var average := NaiveVwap(TradesArrived(ins), ins[|ins| - 1].wallNow, window);
      average * (10000 - c.bandBps) < 0x1_0000_0000_0000_0000
    ensures var f, i := FlowRun(c, window, ins), ins[|ins| - 1];
      |f.sys.log| > 0 && (f.sys.log[|f.sys.log| - 1].decision == Bought ==>
        i.trade.price < NaiveVwap(TradesArrived(ins), i.wallNow, window))
  {
    JudgedByWindowAverage(c, window, ins);
    LastDecision(c, window, ins);
    var f, i, s := FlowRun(c, window, ins), ins[|ins| - 1], FlowRun(c, window, ins[..|ins| - 1]).sys.engine;
    if f.sys.log[|f.sys.log| - 1].decision == Bought {
      BuyIsCheapEnough(s, c, i.trade, IsReady(c, s, i.now), Mean(f.live));
      CheapIsBelowAverage(i.trade.price, Mean(f.live), c);
    }
  }

  /** And every trade sold is priced strictly above it. */
  lemma EverySellIsAboveWindowAverage(c: Config, window: u64, ins: seq<FlowInput>)
    requires Orderly(c, window, ins) && LastAsks(c, window, ins)
    requires NeverFull(ServiceEvents(c, window, ins), window)
    requires ins[|ins| - 1].trade.price >= 0
    requires var average := NaiveVwap(TradesArrived(ins), ins[|ins| - 1].wallNow, window);
      average * c.bandBps >= 10000 && average * (10000 + c.bandBps) < 0x1_0000_0000_0000_0000
    ensures var f, i := FlowRun(c, window, ins), ins[|ins| - 1];
      |f.sys.log| > 0 && (f.sys.log[|f.sys.log| - 1].decision == Sold ==>
        i.trade.price > NaiveVwap(TradesArrived(ins), i.wallNow, window))
  {
    JudgedByWindowAverage(c, window, ins);
    LastDecision(c, window, ins);
    var f, i, s := FlowRun(c, window, ins), ins[|ins| - 1], FlowRun(c, window, ins[..|ins| - 1]).sys.engine;
    if f.sys.log[|f.sys.log| - 1].decision == Sold {
      SellIsDearEnough(s, c, i.trade, IsReady(c, s, i.now), Mean(f.live));
      DearIsAboveAverage(i.trade.price, Mean(f.live), c);
    }
  }

  // ---- Warm-up over whole flows ----

  function QuotesArrived(ins: seq<FlowInput>): nat {
    if |ins| == 0 then 0 else QuotesArrived(ins[..|ins| - 1]) + (if ins[|ins| - 1].QuoteArrives? then 1 else 0)
  }

  /** When the first quote came (0 if none did). */
  function FirstQuoteTime(ins: seq<FlowInput>): u64 {
    if |ins| == 0 then 0
    else if QuotesArrived(ins[..|ins| - 1]) == 0 && ins[|ins| - 1].QuoteArrives? then ins[|ins| - 1].now
    else FirstQuoteTime(ins[..|ins| - 1])
  }

  function LatestTime(ins: seq<FlowInput>): u64 {
    if |ins| == 0 then 0
    else if ins[|ins| - 1].CommandGiven? then LatestTime(ins[..|ins| - 1])
    else ins[|ins| - 1].now
  }

  predicate SteadyFlow(ins: seq<FlowInput>) {
    |ins| > 0 ==>
      && SteadyFlow(ins[..|ins| - 1])
      && (!ins[|ins| - 1].CommandGiven? ==> LatestTime(ins[..|ins| - 1]) <= ins[|ins| - 1].now)
  }

  lemma {:induction false} SameQuotes(c: Config, window: u64, ins: seq<FlowInput>)
    ensures var eins := EngineInputs(c, window, ins);
      && QuoteCount(eins) == QuotesArrived(ins) && FirstQuote(eins) == FirstQuoteTime(ins)
      && Latest(eins) == LatestTime(ins) && (SteadyClock(eins) <==> SteadyFlow(ins))
  {
    if |ins| > 0 {
      var before := EngineInputs(c, window, ins[..|ins| - 1]);
      SameQuotes(c, window, ins[..|ins| - 1]);
      assert EngineInputs(c, window, ins)[..|before|] == before;
    }
  }

  /** Over every flow on a steady clock: a trade is followed only if ten quotes arrived before it and the
      window's length has gone by since the first of them; and then only while not halted. */
  lemma FollowedOnlyWhenWarm(c: Config, window: u64, ins: seq<FlowInput>, t: Trade, now: u64, vwap: u64)
    requires SteadyFlow(ins) && LatestTime(ins) <= now
    requires var s := FlowRun(c, window, ins).sys.engine; IsAccepted(Decide(c, s, t, IsReady(c, s, now), vwap))
    ensures QuotesArrived(ins) >= 10 && now - FirstQuoteTime(ins) >= c.vwapWindowMs
    ensures !FlowRun(c, window, ins).sys.engine.isHalted
  {
    var s := FlowRun(c, window, ins).sys.engine;
    var eins := EngineInputs(c, window, ins);
    SameQuotes(c, window, ins);
    FlowIsEngineRun(c, window, ins);
    WarmUpInvariant(c, eins);
    ReadyMeansWarm(c, eins, s, now);
    DecisionFacts(c, s, t, IsReady(c, s, now), vwap);
  }
}
