/** The execution engine: warm-up, halt, and what happens to each trade. */
module Engine {
  import opened Options
  import opened Bytes
  import opened Gcmd
  import opened Oe
  import opened Vwap

  const MIN_QUOTES_REQUIRED := 10

  datatype Config = Config(maxQuantity: u64, participationCap: u64, vwapWindowMs: u64, bandBps: u64)

  /** timestampStarted is None until it is assigned: the source leaves it uninitialised. */
  datatype EngineState = EngineState(
    quotesReceived: u32, tradingStarted: bool, isHalted: bool, timestampStarted: Option<u64>,
    tradedQuantity: u64, cumulativeQuantity: u64, nextOrderId: u64)

  const FRESH := EngineState(0, false, false, None, 0, 0, 0)

  /** What became of a trade. */
  datatype Decision = NotReady | Silenced | Bought | Sold | Declined

  predicate IsAccepted(d: Decision) {
    d.Bought? || d.Sold?
  }

  /** The readiness test may look at timestampStarted, so by then it must have been assigned. */
  predicate ClockSet(s: EngineState) {
    s.quotesReceived >= 1 && !s.tradingStarted ==> s.timestampStarted.Some?
  }

  function OnQuote(s: EngineState, now: u64): EngineState {
    var n := (s.quotesReceived + 1) % 0x1_0000_0000;
    s.(quotesReceived := n,
       timestampStarted := if n == 1 && !s.tradingStarted then Some(now) else s.timestampStarted)
  }

  predicate IsReady(c: Config, s: EngineState, now: u64)
    requires ClockSet(s)
  {
    s.tradingStarted ||
    (s.quotesReceived >= MIN_QUOTES_REQUIRED && Wrap64(now - s.timestampStarted.value) >= c.vwapWindowMs)
  }

  function UpperBound(c: Config, vwap: u64): u64 {
    Wrap64(vwap * Wrap64(10000 - c.bandBps)) / 10000
  }

  function LowerBound(c: Config, vwap: u64): u64 {
    Wrap64(vwap * Wrap64(10000 + c.bandBps)) / 10000
  }

  predicate ShouldBuy(c: Config, s: EngineState, t: Trade, vwap: u64) {
    && ToUnsigned(t.price) <= UpperBound(c, vwap)
    && Wrap64(s.cumulativeQuantity + t.quantity) <= c.participationCap
    && Wrap64(s.tradedQuantity + t.quantity) <= c.maxQuantity
  }

  predicate ShouldSell(c: Config, s: EngineState, t: Trade, vwap: u64) {
    ToUnsigned(t.price) >= LowerBound(c, vwap) && s.tradedQuantity >= t.quantity
  }

  /** The average is asked for only when the trade might be followed. */
  predicate AsksVwap(s: EngineState, t: Trade, ready: bool) {
    ready && !s.isHalted && !t.aggressor.AggressorUnknown?
  }

  function Decide(c: Config, s: EngineState, t: Trade, ready: bool, vwap: u64): Decision {
    if !ready then NotReady
    else if s.isHalted then Silenced
    else if t.aggressor.AggressorBuy? && ShouldBuy(c, s, t, vwap) then Bought
    else if t.aggressor.AggressorSell? && ShouldSell(c, s, t, vwap) then Sold
    else Declined
  }

  function OrderFor(s: EngineState, t: Trade, d: Decision, timestamp: u64): Option<NewOrder> {
    if d.Silenced? then None
    else Some(NewOrder(s.nextOrderId, t.symbol, if IsAccepted(d) then Accepted else Rejected, timestamp, t.id,
                       if t.aggressor.AggressorBuy? then Buy else Sell, t.quantity, t.price))
  }

  /** Every trade counts towards the volume and uses up an id; only accepted ones are traded. */
  function Account(s: EngineState, t: Trade, d: Decision): EngineState {
    s.(tradedQuantity := if IsAccepted(d) then Wrap64(s.tradedQuantity + t.quantity) else s.tradedQuantity,
       cumulativeQuantity := Wrap64(s.cumulativeQuantity + t.quantity),
       nextOrderId := Wrap64(s.nextOrderId + 1),
       tradingStarted := s.tradingStarted || !d.NotReady?)
  }

  /** How a trade was dealt with: the decision, its order and the new state. */
  predicate DealtWith(c: Config, s: EngineState, t: Trade, ready: bool, vwap: u64, timestamp: u64,
                      d: Decision, order: Option<NewOrder>, after: EngineState) {
    && d == Decide(c, s, t, ready, vwap)
    && order == OrderFor(s, t, d, timestamp)
    && after == Account(s, t, d)
  }

  /** When the engine is not ready, or halted, the average does not matter. */
  lemma Undecided(c: Config, s: EngineState, t: Trade, ready: bool, vwap: u64, timestamp: u64,
                  rejection: NewOrder, after: EngineState)
    requires Some(rejection) == OrderFor(s, t, Declined, timestamp) && (ready ==> s.isHalted)
    requires after == Account(s, t, if ready then Silenced else NotReady)
    ensures DealtWith(c, s, t, ready, vwap, timestamp, if ready then Silenced else NotReady,
                      if ready then None else Some(rejection), after)
  {
  }

  lemma LatchDecidesNothing(c: Config, s: EngineState, t: Trade, vwap: u64)
    ensures Decide(c, s.(tradingStarted := true), t, true, vwap) == Decide(c, s, t, true, vwap)
  {
    assert ShouldBuy(c, s.(tradingStarted := true), t, vwap) == ShouldBuy(c, s, t, vwap);
    assert ShouldSell(c, s.(tradingStarted := true), t, vwap) == ShouldSell(c, s, t, vwap);
  }

  lemma ReadyIsLatched(c: Config, s: EngineState, t: Trade, vwap: u64)
    ensures !Decide(c, s, t, true, vwap).NotReady?
  {
  }

  /** The test for readiness only latches it, which Account does as well. */
  lemma LatchedFirst(c: Config, s: EngineState, t: Trade, vwap: u64, timestamp: u64,
                     d: Decision, order: Option<NewOrder>, after: EngineState)
    requires DealtWith(c, s.(tradingStarted := true), t, true, vwap, timestamp, d, order, after)
    ensures DealtWith(c, s, t, true, vwap, timestamp, d, order, after)
  {
    LatchDecidesNothing(c, s, t, vwap);
    ReadyIsLatched(c, s, t, vwap);
    assert Account(s.(tradingStarted := true), t, d) == Account(s, t, d);
  }

  class ExecutionEngine {
    const config: Config
    const vwapService: VWAPService
    var quotesReceived: u32
    var tradingStarted: bool
    var isHalted: bool
    var timestampStarted: Option<u64>
    var tradedQuantity: u64
    var cumulativeTradedQuantity: u64
    var clientOrderIdCounter: u64

    ghost function State(): EngineState
      reads this
    {
      EngineState(quotesReceived, tradingStarted, isHalted, timestampStarted,
                  tradedQuantity, cumulativeTradedQuantity, clientOrderIdCounter)
    }

    ghost predicate Valid()
      reads this, vwapService, vwapService.trades
    {
      ClockSet(State()) && vwapService.Valid()
    }

    constructor (config: Config, vwapService: VWAPService)
      requires vwapService.Valid()
      ensures Valid() && State() == FRESH && this.config == config && this.vwapService == vwapService
    {
      this.config, this.vwapService := config, vwapService;
      quotesReceived, tradingStarted, isHalted, timestampStarted := 0, false, false, None;
      tradedQuantity, cumulativeTradedQuantity, clientOrderIdCounter := 0, 0, 0;
    }

    method OnQuoteReceived(now: u64)
      requires Valid()
      modifies this
      ensures Valid() && State() == OnQuote(old(State()), now)
    {
      quotesReceived := (quotesReceived + 1) % 0x1_0000_0000;
      if quotesReceived == 1 && !tradingStarted {
        timestampStarted := Some(now);
      }
    }

    method IsReadyToTrade(now: u64) returns (ready: bool)
      requires Valid()
      modifies this`tradingStarted
      ensures Valid() && ready == IsReady(config, old(State()), now)
      ensures tradingStarted == (old(tradingStarted) || ready)
      ensures old(tradingStarted) ==> ready
      ensures !old(tradingStarted) ==>
        (ready <==> quotesReceived >= 10 && Wrap64(now - timestampStarted.value) >= config.vwapWindowMs)
    {
      if tradingStarted {
        return true;
      }
      ready := quotesReceived >= MIN_QUOTES_REQUIRED;
      if ready {
        ready := Wrap64(now - timestampStarted.value) >= config.vwapWindowMs;
      }
      if ready {
        tradingStarted := true;
      }
    }

    method ShouldBuyNow(trade: Trade, wallNow: u64) returns (yes: bool)
      requires Valid()
      modifies vwapService
      ensures Valid() && vwapService.Live() == Evict(old(vwapService.Live()), wallNow, vwapService.rollingWindowSizeMs)
      ensures yes == ShouldBuy(config, State(), trade, Mean(vwapService.Live()))
    {
      var vwap := vwapService.GetVWAP(wallNow);
      var upperBound := Wrap64(vwap * Wrap64(10000 - config.bandBps)) / 10000;
      var shouldBuy := ToUnsigned(trade.price) <= upperBound;
      var canBuy := Wrap64(cumulativeTradedQuantity + trade.quantity) <= config.participationCap
        && Wrap64(tradedQuantity + trade.quantity) <= config.maxQuantity;
      return shouldBuy && canBuy;
    }

    method ShouldSellNow(trade: Trade, wallNow: u64) returns (yes: bool)
      requires Valid()
      modifies vwapService
      ensures Valid() && vwapService.Live() == Evict(old(vwapService.Live()), wallNow, vwapService.rollingWindowSizeMs)
      ensures yes == ShouldSell(config, State(), trade, Mean(vwapService.Live()))
    {
      var vwap := vwapService.GetVWAP(wallNow);
      var lowerBound := Wrap64(vwap * Wrap64(10000 + config.bandBps)) / 10000;
      return ToUnsigned(trade.price) >= lowerBound && tradedQuantity >= trade.quantity;
    }

    /** The order for a trade, given the clocks' readings: `now` for the warm-up, `wallNow` for the
        average, `timestamp` for the order. */
    method HandleTrade(trade: Trade, now: u64, wallNow: u64, timestamp: u64)
      returns (order: Option<NewOrder>, ghost decision: Decision)
      requires Valid()
      modifies this, vwapService
      ensures Valid()
      ensures var s, live := old(State()), old(vwapService.Live());
        var ready := IsReady(config, s, now);
        && vwapService.Live() == (if AsksVwap(s, trade, ready)
                                  then Evict(live, wallNow, vwapService.rollingWindowSizeMs) else live)
        && DealtWith(config, s, trade, ready, Mean(vwapService.Live()), timestamp, decision, order, State())
      ensures !tradingStarted || isHalted || trade.aggressor.AggressorUnknown? ==>
        vwapService.Live() == old(vwapService.Live())
    {
      ghost var s := State();
      var ready := IsReadyToTrade(now);
      var o;
      if !ready {
        o := HandleReject(trade, timestamp);
        Undecided(config, s, trade, ready, Mean(vwapService.Live()), timestamp, o, State());
        return Some(o), NotReady;
      }
      if isHalted {
        o := HandleReject(trade, timestamp);
        Undecided(config, s, trade, ready, Mean(vwapService.Live()), timestamp, o, State());
        return None, Silenced;
      }
      o, decision := HandleActive(trade, wallNow, timestamp);
      LatchedFirst(config, s, trade, Mean(vwapService.Live()), timestamp, decision, Some(o), State());
      return Some(o), decision;
    }

    /** The branches taken once the engine is ready and not halted. */
    method HandleActive(trade: Trade, wallNow: u64, timestamp: u64)
      returns (order: NewOrder, ghost decision: Decision)
      requires Valid() && tradingStarted && !isHalted
      modifies this, vwapService
      ensures Valid()
      ensures var s, live := old(State()), old(vwapService.Live());
        && vwapService.Live() == (if trade.aggressor.AggressorUnknown? then live
                                  else Evict(live, wallNow, vwapService.rollingWindowSizeMs))
        && DealtWith(config, s, trade, true, Mean(vwapService.Live()), timestamp, decision, Some(order), State())
    {
      if trade.aggressor.AggressorBuy? {
        var should := ShouldBuyNow(trade, wallNow);
        if should {
          order := HandleAccepted(trade, Buy, timestamp);
          return order, Bought;
        }
      } else if trade.aggressor.AggressorSell? {
        var should := ShouldSellNow(trade, wallNow);
        if should {
          order := HandleAccepted(trade, Sell, timestamp);
          return order, Sold;
        }
      }
      order := HandleReject(trade, timestamp);
      return order, Declined;
    }

    /** handleBuy and handleSell, which differ only in the side. */
    method HandleAccepted(trade: Trade, side: OrderSide, timestamp: u64) returns (o: NewOrder)
      modifies this`tradedQuantity, this`cumulativeTradedQuantity, this`clientOrderIdCounter
      ensures tradedQuantity == Wrap64(old(tradedQuantity) + trade.quantity)
      ensures cumulativeTradedQuantity == Wrap64(old(cumulativeTradedQuantity) + trade.quantity)
      ensures clientOrderIdCounter == Wrap64(old(clientOrderIdCounter) + 1)
      ensures o == NewOrder(old(clientOrderIdCounter), trade.symbol, Accepted, timestamp, trade.id, side,
                            trade.quantity, trade.price)
    {
      tradedQuantity := Wrap64(tradedQuantity + trade.quantity);
      cumulativeTradedQuantity := Wrap64(cumulativeTradedQuantity + trade.quantity);
      o := NewOrder(clientOrderIdCounter, trade.symbol, Accepted, timestamp, trade.id, side,
                    trade.quantity, trade.price);
      clientOrderIdCounter := Wrap64(clientOrderIdCounter + 1);
    }

    method HandleReject(trade: Trade, timestamp: u64) returns (o: NewOrder)
      modifies this`cumulativeTradedQuantity, this`clientOrderIdCounter
      ensures cumulativeTradedQuantity == Wrap64(old(cumulativeTradedQuantity) + trade.quantity)
      ensures clientOrderIdCounter == Wrap64(old(clientOrderIdCounter) + 1)
      ensures o == NewOrder(old(clientOrderIdCounter), trade.symbol, Rejected, timestamp, trade.id,
                            if trade.aggressor.AggressorBuy? then Buy else Sell, trade.quantity, trade.price)
    {
      cumulativeTradedQuantity := Wrap64(cumulativeTradedQuantity + trade.quantity);
      var side := if trade.aggressor.AggressorBuy? then Buy else Sell;
      o := NewOrder(clientOrderIdCounter, trade.symbol, Rejected, timestamp, trade.id, side,
                    trade.quantity, trade.price);
      clientOrderIdCounter := Wrap64(clientOrderIdCounter + 1);
    }

    method HaltTrading()
      modifies this`isHalted
      ensures isHalted
    {
      isHalted := true;
    }

    method ResumeTrading()
      modifies this`isHalted
      ensures !isHalted
    {
      isHalted := false;
    }
  }
}
