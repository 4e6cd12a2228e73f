/** Whole runs of the engine under any mix of quotes, trades and operator commands. */
module EngineRuns {
  import opened Arithmetic
  import opened Options
  import opened Bytes
  import opened Gcmd
  import opened Oe
  import opened Engine
  import opened Session

  /** What reaches the engine. `now` is its steady clock; `vwap` is whatever average the service
      answers with (TradeFlow ties it to the live trades). */
  datatype Input =
    | QuoteIn(now: u64)
    | TradeIn(trade: Trade, now: u64, vwap: u64, timestamp: u64)
    | CommandIn(command: Command)

  /** One handled trade: the circumstances, the decision and the order handed to the sender. */
  datatype Record = Record(trade: Trade, ready: bool, halted: bool, timestamp: u64,
                           decision: Decision, order: Option<NewOrder>)

  datatype Sys = Sys(engine: EngineState, session: SessionState, log: seq<Record>)

  const START := Sys(FRESH, Open, [])

  function RecordOf(c: Config, s: EngineState, i: Input): Record
    requires i.TradeIn? && ClockSet(s)
  {
    var ready := IsReady(c, s, i.now);
    var d := Decide(c, s, i.trade, ready, i.vwap);
    Record(i.trade, ready, s.isHalted, i.timestamp, d, OrderFor(s, i.trade, d, i.timestamp))
  }

  function Step(c: Config, sys: Sys, i: Input): (r: Sys)
    requires ClockSet(sys.engine)
    ensures ClockSet(r.engine)
  {
    match i
    case QuoteIn(now) => sys.(engine := OnQuote(sys.engine, now))
    case TradeIn(t, now, vwap, ts) =>
      var rec := RecordOf(c, sys.engine, i);
      sys.(engine := Account(sys.engine, t, rec.decision), log := sys.log + [rec])
    case CommandIn(cmd) =>
      var after := Obey(Control(sys.session, sys.session.Close?, sys.engine.isHalted, []), cmd);
      sys.(engine := sys.engine.(isHalted := after.halted), session := after.state)
  }

  /** The state after a run. Its postcondition is what makes reading timestampStarted safe: at every
      reachable state the readiness test finds it assigned. */
  function Run(c: Config, ins: seq<Input>): (r: Sys)
    ensures ClockSet(r.engine)
  {
    if |ins| == 0 then START else Step(c, Run(c, ins[..|ins| - 1]), ins[|ins| - 1])
  }

  // ---- Conservation ----

  function TradesOf(ins: seq<Input>): seq<Trade> {
    if |ins| == 0 then []
    else TradesOf(ins[..|ins| - 1]) + (if ins[|ins| - 1].TradeIn? then [ins[|ins| - 1].trade] else [])
  }

  function Volume(log: seq<Record>): nat {
    if |log| == 0 then 0 else Volume(log[..|log| - 1]) + log[|log| - 1].trade.quantity
  }

  function AcceptedVolume(log: seq<Record>): nat {
    if |log| == 0 then 0
    else AcceptedVolume(log[..|log| - 1])
         + (if IsAccepted(log[|log| - 1].decision) then log[|log| - 1].trade.quantity else 0)
  }

  function BoughtVolume(log: seq<Record>): nat {
    if |log| == 0 then 0
    else BoughtVolume(log[..|log| - 1]) + (if log[|log| - 1].decision.Bought? then log[|log| - 1].trade.quantity else 0)
  }

  lemma {:induction false} VolumesOrdered(log: seq<Record>, k: nat)
    requires k <= |log|
    ensures BoughtVolume(log) <= AcceptedVolume(log) <= Volume(log)
    ensures Volume(log[..k]) <= Volume(log) && AcceptedVolume(log[..k]) <= AcceptedVolume(log)
  {
    if k == |log| {
      assert log[..k] == log;
    }
    if |log| > 0 {
      var n := |log| - 1;
      VolumesOrdered(log[..n], if k < n then k else n);
      assert k <= n ==> log[..n][..k] == log[..k];
    }
  }

  /** The books agree with the log. */
  predicate BooksMatch(s: EngineState, log: seq<Record>) {
    && s.cumulativeQuantity == Wrap64(Volume(log))
    && s.tradedQuantity == Wrap64(AcceptedVolume(log))
    && s.nextOrderId == Wrap64(|log|)
  }

  /** The k-th handled trade used up id k, and its order, if one went out, says what was decided. */
  predicate RecordHonest(r: Record, k: nat) {
    && (r.decision.NotReady? <==> !r.ready)
    && (r.decision.Silenced? <==> r.ready && r.halted)
    && (r.order.None? <==> r.ready && r.halted)
    && (r.order.Some? ==>
          var o := r.order.value;
          && o.clientOrderId == Wrap64(k)
          && o.timestamp == r.timestamp && o.tradeId == r.trade.id && o.symbol == r.trade.symbol
          && o.quantity == r.trade.quantity && o.limitPrice == r.trade.price
          && (o.status.Accepted? <==> IsAccepted(r.decision))
          && (o.side.Buy? <==> r.trade.aggressor.AggressorBuy?))
    && (r.decision.Bought? ==> r.trade.aggressor.AggressorBuy?)
    && (r.decision.Sold? ==> r.trade.aggressor.AggressorSell?)
  }

  lemma LogStep(log: seq<Record>, r: Record)
    ensures Volume(log + [r]) == Volume(log) + r.trade.quantity
    ensures AcceptedVolume(log + [r]) == AcceptedVolume(log) + (if IsAccepted(r.decision) then r.trade.quantity else 0)
    ensures BoughtVolume(log + [r]) == BoughtVolume(log) + (if r.decision.Bought? then r.trade.quantity else 0)
  {
    assert (log + [r])[..|log|] == log;
  }

  /** Every accepted order passed its limits, as the counters stood just before it. */
  predicate WithinLimits(c: Config, before: seq<Record>, r: Record) {
    var q := r.trade.quantity;
    && (r.decision.Bought? ==>
          && Wrap64(Volume(before) + q) <= c.participationCap
          && Wrap64(AcceptedVolume(before) + q) <= c.maxQuantity)
    && (r.decision.Sold? ==> q <= Wrap64(AcceptedVolume(before)))
  }

  predicate Sound(c: Config, log: seq<Record>) {
    forall k | 0 <= k < |log| :: RecordHonest(log[k], k) && WithinLimits(c, log[..k], log[k])
  }

  lemma SoundSnoc(c: Config, log: seq<Record>, r: Record)
    requires Sound(c, log) && RecordHonest(r, |log|) && WithinLimits(c, log, r)
    ensures Sound(c, log + [r])
  {
    var log' := log + [r];
    forall k | 0 <= k < |log'| ensures RecordHonest(log'[k], k) && WithinLimits(c, log'[..k], log'[k]) {
      if k < |log| {
        assert log'[..k] == log[..k];
      } else {
        assert log'[..k] == log;
      }
    }
  }

  lemma TradeKeepsBooks(s: EngineState, log: seq<Record>, r: Record)
    requires BooksMatch(s, log)
    ensures BooksMatch(Account(s, r.trade, r.decision), log + [r])
  {
    LogStep(log, r);
    Wrap64Sum(Volume(log), r.trade.quantity);
    Wrap64Sum(AcceptedVolume(log), r.trade.quantity);
    Wrap64Sum(|log|, 1);
  }

  /** The limits an accepted order has passed, on the counters themselves. */
  predicate PassedLimits(c: Config, s: EngineState, t: Trade, d: Decision) {
    match d
    case Bought =>
      && t.aggressor.AggressorBuy?
      && Wrap64(s.cumulativeQuantity + t.quantity) <= c.participationCap
      && Wrap64(s.tradedQuantity + t.quantity) <= c.maxQuantity
    case Sold => t.aggressor.AggressorSell? && t.quantity <= s.tradedQuantity
    case _ => true
  }

  lemma DecisionFacts(c: Config, s: EngineState, t: Trade, ready: bool, vwap: u64)
    ensures var d := Decide(c, s, t, ready, vwap);
      && (d.NotReady? <==> !ready)
      && (d.Silenced? <==> ready && s.isHalted)
      && PassedLimits(c, s, t, d)
  {
  }

  lemma NewRecordSound(c: Config, s: EngineState, log: seq<Record>, r: Record)
    requires BooksMatch(s, log)
    requires r.order == OrderFor(s, r.trade, r.decision, r.timestamp)
    requires r.decision.NotReady? <==> !r.ready
    requires r.decision.Silenced? <==> r.ready && r.halted
    requires PassedLimits(c, s, r.trade, r.decision)
    ensures RecordHonest(r, |log|) && WithinLimits(c, log, r)
  {
    Wrap64Sum(Volume(log), r.trade.quantity);
    Wrap64Sum(AcceptedVolume(log), r.trade.quantity);
  }

  lemma {:induction false} RunSound(c: Config, ins: seq<Input>)
    ensures BooksMatch(Run(c, ins).engine, Run(c, ins).log) && Sound(c, Run(c, ins).log)
  {
    if |ins| > 0 {
      RunSound(c, ins[..|ins| - 1]);
      var before, i := Run(c, ins[..|ins| - 1]), ins[|ins| - 1];
      if i.TradeIn? {
        var r := RecordOf(c, before.engine, i);
        TradeKeepsBooks(before.engine, before.log, r);
        DecisionFacts(c, before.engine, i.trade, r.ready, i.vwap);
        NewRecordSound(c, before.engine, before.log, r);
        SoundSnoc(c, before.log, r);
      }
    }
  }

  lemma {:induction false} LogIsTrades(c: Config, ins: seq<Input>)
    ensures |Run(c, ins).log| == |TradesOf(ins)|
    ensures forall k | 0 <= k < |TradesOf(ins)| :: Run(c, ins).log[k].trade == TradesOf(ins)[k]
  {
    if |ins| > 0 {
      LogIsTrades(c, ins[..|ins| - 1]);
    }
  }

  /** Conservation over every run. Cumulative quantity is the sum over all trades handled, traded
      quantity the sum over accepted orders (both as the 64-bit counters hold them), the k-th
      handled trade has id k, and no order goes out exactly for trades handled ready and halted. */
  lemma Conservation(c: Config, ins: seq<Input>)
    ensures var sys := Run(c, ins);
      && BooksMatch(sys.engine, sys.log)
      && |sys.log| == |TradesOf(ins)|
      && forall k | 0 <= k < |sys.log| :: sys.log[k].trade == TradesOf(ins)[k] && RecordHonest(sys.log[k], k)
  {
    RunSound(c, ins);
    LogIsTrades(c, ins);
  }

  /** So the ids that go out strictly increase, as long as the 64-bit counter does not wrap. */
  lemma EmittedIdsIncrease(c: Config, ins: seq<Input>, j: nat, k: nat)
    requires j < k < |Run(c, ins).log| <= 0x1_0000_0000_0000_0000
    requires Run(c, ins).log[j].order.Some? && Run(c, ins).log[k].order.Some?
    ensures Run(c, ins).log[j].order.value.clientOrderId < Run(c, ins).log[k].order.value.clientOrderId
  {
    RunSound(c, ins);
    IdIsPosition(c, Run(c, ins).log, j);
    IdIsPosition(c, Run(c, ins).log, k);
  }

  lemma IdIsPosition(c: Config, log: seq<Record>, k: nat)
    requires Sound(c, log) && k < |log| <= 0x1_0000_0000_0000_0000 && log[k].order.Some?
    ensures log[k].order.value.clientOrderId == k
  {
    assert RecordHonest(log[k], k);
    Wrap64Sum(k, 0);
  }

  // ---- Budget: facts of any sound log whose volume the 64-bit counters can hold ----

  /** Sells accepted since the last accepted buy (or since the start). */
  function SellsSinceBuy(log: seq<Record>): nat {
    if |log| == 0 then 0
    else
      var d := log[|log| - 1].decision;
      if d.Bought? then 0 else SellsSinceBuy(log[..|log| - 1]) + (if d.Sold? then 1 else 0)
  }

  function Pow2(n: nat): nat {
    if n == 0 then 1 else 2 * Pow2(n - 1)
  }

  lemma {:induction false} SoundPrefix(c: Config, log: seq<Record>, k: nat)
    requires Sound(c, log) && k <= |log|
    ensures Sound(c, log[..k])
  {
    forall j | 0 <= j < k ensures RecordHonest(log[..k][j], j) && WithinLimits(c, log[..k][..j], log[..k][j]) {
      assert log[..k][..j] == log[..j] && log[..k][j] == log[j];
    }
  }

  /** One record more. */
  lemma BudgetStep(c: Config, before: seq<Record>, r: Record)
    requires WithinLimits(c, before, r) && Volume(before) + r.trade.quantity < 0x1_0000_0000_0000_0000
    requires BoughtVolume(before) <= AcceptedVolume(before) <= Volume(before)
    ensures r.decision.Bought? ==>
      && AcceptedVolume(before) + r.trade.quantity <= c.maxQuantity
      && Volume(before) + r.trade.quantity <= c.participationCap
    ensures r.decision.Sold? ==> r.trade.quantity <= AcceptedVolume(before)
  {
    Wrap64Sum(Volume(before) + r.trade.quantity, 0);
    Wrap64Sum(AcceptedVolume(before) + r.trade.quantity, 0);
    Wrap64Sum(AcceptedVolume(before), 0);
  }

  lemma {:induction false} SoundBudget(c: Config, log: seq<Record>)
    requires Sound(c, log) && Volume(log) < 0x1_0000_0000_0000_0000
    ensures BoughtVolume(log) <= c.maxQuantity && BoughtVolume(log) <= c.participationCap
    ensures AcceptedVolume(log) <= c.maxQuantity * Pow2(SellsSinceBuy(log))
  {
    if |log| > 0 {
      var k := |log| - 1;
      var before, r := log[..k], log[k];
      assert WithinLimits(c, before, r);
      SoundPrefix(c, log, k);
      SoundBudget(c, before);
      VolumesOrdered(before, k);
      BudgetStep(c, before, r);
      BudgetArithmetic(c, log);
    }
  }

  lemma BudgetArithmetic(c: Config, log: seq<Record>)
    requires |log| > 0
    requires var before, r := log[..|log| - 1], log[|log| - 1];
      && BoughtVolume(before) <= AcceptedVolume(before) <= Volume(before)
      && BoughtVolume(before) <= c.maxQuantity && BoughtVolume(before) <= c.participationCap
      && AcceptedVolume(before) <= c.maxQuantity * Pow2(SellsSinceBuy(before))
      && (r.decision.Bought? ==> AcceptedVolume(before) + r.trade.quantity <= c.maxQuantity
                                 && Volume(before) + r.trade.quantity <= c.participationCap)
      && (r.decision.Sold? ==> r.trade.quantity <= AcceptedVolume(before))
    ensures BoughtVolume(log) <= c.maxQuantity && BoughtVolume(log) <= c.participationCap
    ensures AcceptedVolume(log) <= c.maxQuantity * Pow2(SellsSinceBuy(log))
  {
    var before, r := log[..|log| - 1], log[|log| - 1];
    assert log == before + [r];
    LogStep(before, r);
    DoublingBound(c.maxQuantity, Pow2(SellsSinceBuy(before)), AcceptedVolume(before), r.trade.quantity);
    match r.decision {
      case Bought => assert Pow2(SellsSinceBuy(log)) == 1;
      case Sold => assert Pow2(SellsSinceBuy(log)) == 2 * Pow2(SellsSinceBuy(before));
      case _ => assert SellsSinceBuy(log) == SellsSinceBuy(before);
    }
  }

  lemma DoublingBound(max: nat, p: nat, accepted: nat, q: nat)
    requires accepted <= max * p && q <= 0xFFFF_FFFF
    ensures q <= accepted ==> accepted + q <= max * (2 * p)
    ensures max * 1 == max
  {
    Doubles(max, p);
  }

  lemma Doubles(a: nat, b: nat)
    ensures a * (2 * b) == 2 * (a * b)
  {
  }

  /** Over every run of total volume below 2^64: the accepted buys together never exceed the
      maximum quantity nor the cap, and traded quantity at most doubles with each sell accepted
      since the last buy. */
  lemma Budget(c: Config, ins: seq<Input>)
    requires Volume(Run(c, ins).log) < 0x1_0000_0000_0000_0000
    ensures var sys := Run(c, ins);
      && BoughtVolume(sys.log) <= c.maxQuantity
      && BoughtVolume(sys.log) <= c.participationCap
      && sys.engine.tradedQuantity <= c.maxQuantity * Pow2(SellsSinceBuy(sys.log))
  {
    var log := Run(c, ins).log;
    RunSound(c, ins);
    SoundBudget(c, log);
    VolumesOrdered(log, 0);
    Wrap64Sum(AcceptedVolume(log), 0);
  }

  /** Once the volume handled has passed the cap no buy is accepted again. */
  lemma NoBuyPastCap(c: Config, ins: seq<Input>, j: nat, k: nat)
    requires Volume(Run(c, ins).log) < 0x1_0000_0000_0000_0000
    requires j <= k < |Run(c, ins).log| && Volume(Run(c, ins).log[..j]) > c.participationCap
    ensures !Run(c, ins).log[k].decision.Bought?
  {
    RunSound(c, ins);
    SoundNoBuyPastCap(c, Run(c, ins).log, j, k);
  }

  lemma SoundNoBuyPastCap(c: Config, log: seq<Record>, j: nat, k: nat)
    requires Sound(c, log) && Volume(log) < 0x1_0000_0000_0000_0000
    requires j <= k < |log| && Volume(log[..j]) > c.participationCap
    ensures !log[k].decision.Bought?
  {
    PrefixVolumes(log, j, k);
    assert WithinLimits(c, log[..k], log[k]);
    VolumesOrdered(log[..k], k);
    BudgetStep(c, log[..k], log[k]);
  }

  lemma PrefixVolumes(log: seq<Record>, j: nat, k: nat)
    requires j <= k < |log|
    ensures Volume(log[..j]) <= Volume(log[..k])
    ensures Volume(log[..k]) + log[k].trade.quantity <= Volume(log)
  {
    assert log[..k][..j] == log[..j];
    VolumesOrdered(log[..k], j);
    assert log[..k + 1][..k] == log[..k];
    VolumesOrdered(log, k + 1);
  }

  // ---- Which trades are followed, in terms of the run and without wrapping ----

  /** No 64-bit value wraps when the trade is judged by the average `vwap`. */
  predicate Tame(c: Config, log: seq<Record>, t: Trade, vwap: u64) {
    && Volume(log) + t.quantity < 0x1_0000_0000_0000_0000
    && t.price >= 0 && c.bandBps <= 10000
    && vwap * (10000 + c.bandBps) < 0x1_0000_0000_0000_0000
  }

  lemma QuotientTest(price: nat, x: nat)
    ensures price <= x / 10000 <==> price * 10000 <= x
    ensures price >= x / 10000 <==> x < price * 10000 + 10000
  {
  }

  lemma UnwrappedProduct(vwap: nat, factor: nat, ceiling: nat)
    requires factor <= ceiling && vwap * ceiling < 0x1_0000_0000_0000_0000
    ensures 0 <= vwap * factor && Wrap64(vwap * factor) == vwap * factor
  {
    MulMono(vwap, factor, ceiling);
    MulMono(vwap, 0, factor);
    Wrap64Sum(vwap * factor, 0);
  }

  lemma BoundsTame(c: Config, vwap: u64)
    requires c.bandBps <= 10000 && vwap * (10000 + c.bandBps) < 0x1_0000_0000_0000_0000
    ensures UpperBound(c, vwap) == vwap * (10000 - c.bandBps) / 10000 && 0 <= vwap * (10000 - c.bandBps)
    ensures LowerBound(c, vwap) == vwap * (10000 + c.bandBps) / 10000
  {
    var down, up := 10000 - c.bandBps, 10000 + c.bandBps;
    UnwrappedProduct(vwap, down, up);
    UnwrappedProduct(vwap, up, up);
    assert Wrap64(down) == down && Wrap64(up) == up;
  }

  lemma CountersTame(s: EngineState, log: seq<Record>, t: Trade)
    requires BooksMatch(s, log) && Volume(log) + t.quantity < 0x1_0000_0000_0000_0000
    ensures Wrap64(s.cumulativeQuantity + t.quantity) == Volume(log) + t.quantity
    ensures Wrap64(s.tradedQuantity + t.quantity) == AcceptedVolume(log) + t.quantity
    ensures s.tradedQuantity == AcceptedVolume(log)
  {
    VolumesOrdered(log, 0);
    Wrap64Sum(Volume(log), t.quantity);
    Wrap64Sum(AcceptedVolume(log), t.quantity);
    Wrap64Sum(Volume(log) + t.quantity, 0);
    Wrap64Sum(AcceptedVolume(log) + t.quantity, 0);
  }

  /** The price tests without quotients: at most what the band leaves, and at least what it asks. */
  lemma PriceTests(c: Config, price: i64, vwap: u64)
    requires price >= 0 && c.bandBps <= 10000 && vwap * (10000 + c.bandBps) < 0x1_0000_0000_0000_0000
    ensures ToUnsigned(price) <= UpperBound(c, vwap) <==> price * 10000 <= vwap * (10000 - c.bandBps)
    ensures ToUnsigned(price) >= LowerBound(c, vwap) <==> vwap * (10000 + c.bandBps) < price * 10000 + 10000
  {
    BoundsTame(c, vwap);
    QuotientTest(price, vwap * (10000 - c.bandBps));
    QuotientTest(price, vwap * (10000 + c.bandBps));
  }

  /** The decision, given what its price and limit tests come to. */
  lemma DecisionExactly(c: Config, s: EngineState, t: Trade, ready: bool, vwap: u64,
                        low: bool, high: bool, room: bool, held: bool)
    requires low == (ToUnsigned(t.price) <= UpperBound(c, vwap)) && high == (ToUnsigned(t.price) >= LowerBound(c, vwap))
    requires room == (Wrap64(s.cumulativeQuantity + t.quantity) <= c.participationCap
                      && Wrap64(s.tradedQuantity + t.quantity) <= c.maxQuantity)
    requires held == (s.tradedQuantity >= t.quantity)
    ensures Decide(c, s, t, ready, vwap) == Bought
       <==> ready && !s.isHalted && t.aggressor.AggressorBuy? && low && room
    ensures Decide(c, s, t, ready, vwap) == Sold
       <==> ready && !s.isHalted && t.aggressor.AggressorSell? && high && held
  {
  }

  lemma TameDecision(c: Config, s: EngineState, log: seq<Record>, t: Trade, ready: bool, vwap: u64)
    requires BooksMatch(s, log) && Tame(c, log, t, vwap)
    ensures Decide(c, s, t, ready, vwap) == Bought <==>
      && ready && !s.isHalted && t.aggressor.AggressorBuy?
      && t.price * 10000 <= vwap * (10000 - c.bandBps)
      && Volume(log) + t.quantity <= c.participationCap
      && AcceptedVolume(log) + t.quantity <= c.maxQuantity
    ensures Decide(c, s, t, ready, vwap) == Sold <==>
      && ready && !s.isHalted && t.aggressor.AggressorSell?
      && vwap * (10000 + c.bandBps) < t.price * 10000 + 10000
      && t.quantity <= AcceptedVolume(log)
  {
    CountersTame(s, log, t);
    PriceTests(c, t.price, vwap);
    DecisionExactly(c, s, t, ready, vwap,
      t.price * 10000 <= vwap * (10000 - c.bandBps), vwap * (10000 + c.bandBps) < t.price * 10000 + 10000,
      Volume(log) + t.quantity <= c.participationCap && AcceptedVolume(log) + t.quantity <= c.maxQuantity,
      t.quantity <= AcceptedVolume(log));
  }

  /** A trade is followed as a buy if and only if the engine is ready and not halted, the aggressor
      is a buyer, the price leaves the band below the average, and neither the volume of the whole
      run nor its accepted volume would pass its limit. */
  lemma BoughtExactlyWhen(c: Config, ins: seq<Input>, i: Input)
    requires i.TradeIn? && Tame(c, Run(c, ins).log, i.trade, i.vwap)
    ensures var sys, t := Run(c, ins), i.trade;
      RecordOf(c, sys.engine, i).decision == Bought <==>
        && IsReady(c, sys.engine, i.now) && !sys.engine.isHalted && t.aggressor.AggressorBuy?
        && t.price * 10000 <= i.vwap * (10000 - c.bandBps)
        && Volume(sys.log) + t.quantity <= c.participationCap
        && AcceptedVolume(sys.log) + t.quantity <= c.maxQuantity
  {
    RunSound(c, ins);
    var s := Run(c, ins).engine;
    TameDecision(c, s, Run(c, ins).log, i.trade, IsReady(c, s, i.now), i.vwap);
  }

  /** ... and as a sell if and only if the engine is ready and not halted, the aggressor is a
      seller, the price is no whole unit short of the band above the average, and at least that much
      has been accepted before. */
  lemma SoldExactlyWhen(c: Config, ins: seq<Input>, i: Input)
    requires i.TradeIn? && Tame(c, Run(c, ins).log, i.trade, i.vwap)
    ensures var sys, t := Run(c, ins), i.trade;
      RecordOf(c, sys.engine, i).decision == Sold <==>
        && IsReady(c, sys.engine, i.now) && !sys.engine.isHalted && t.aggressor.AggressorSell?
        && i.vwap * (10000 + c.bandBps) < t.price * 10000 + 10000
        && t.quantity <= AcceptedVolume(sys.log)
  {
    RunSound(c, ins);
    var s := Run(c, ins).engine;
    TameDecision(c, s, Run(c, ins).log, i.trade, IsReady(c, s, i.now), i.vwap);
  }

  // ---- When traded quantity passes the maximum ----

  /** A sell that would be accepted although, with it, traded quantity is past the maximum. */
  predicate SellPasses(c: Config, s: EngineState, t: Trade, ready: bool, vwap: u64) {
    && ready && !s.isHalted && t.aggressor.AggressorSell?
    && ToUnsigned(t.price) >= LowerBound(c, vwap) && t.quantity <= s.tradedQuantity
    && Wrap64(s.tradedQuantity + t.quantity) > c.maxQuantity
  }

  /** From within the maximum, whatever wraps: exactly such a sell leads past it. */
  lemma PassedExactlyBySell(c: Config, s: EngineState, t: Trade, ready: bool, vwap: u64)
    requires s.tradedQuantity <= c.maxQuantity
    ensures Account(s, t, Decide(c, s, t, ready, vwap)).tradedQuantity > c.maxQuantity
       <==> SellPasses(c, s, t, ready, vwap)
  {
    var low, high := ToUnsigned(t.price) <= UpperBound(c, vwap), ToUnsigned(t.price) >= LowerBound(c, vwap);
    DecisionExactly(c, s, t, ready, vwap, low, high,
      Wrap64(s.cumulativeQuantity + t.quantity) <= c.participationCap
        && Wrap64(s.tradedQuantity + t.quantity) <= c.maxQuantity,
      t.quantity <= s.tradedQuantity);
  }

  predicate PassingInput(c: Config, s: EngineState, i: Input)
    requires ClockSet(s)
  {
    i.TradeIn? && SellPasses(c, s, i.trade, IsReady(c, s, i.now), i.vwap)
  }

  lemma StepPasses(c: Config, sys: Sys, i: Input)
    requires ClockSet(sys.engine) && sys.engine.tradedQuantity <= c.maxQuantity
    ensures Step(c, sys, i).engine.tradedQuantity > c.maxQuantity <==> PassingInput(c, sys.engine, i)
  {
    if i.TradeIn? {
      PassedExactlyBySell(c, sys.engine, i.trade, IsReady(c, sys.engine, i.now), i.vwap);
    }
  }

  predicate WithinMaximum(c: Config, ins: seq<Input>) {
    forall k | 0 <= k <= |ins| :: Run(c, ins[..k]).engine.tradedQuantity <= c.maxQuantity
  }

  predicate NoPassingSell(c: Config, ins: seq<Input>) {
    forall k | 0 <= k < |ins| :: !PassingInput(c, Run(c, ins[..k]).engine, ins[k])
  }

  /** Over every run, traded quantity stays within the maximum if and only if no trade handled is a
      sell that passes it. */
  lemma MaximumKeptExactlyWhen(c: Config, ins: seq<Input>)
    ensures WithinMaximum(c, ins) <==> NoPassingSell(c, ins)
  {
    if WithinMaximum(c, ins) {
      forall k | 0 <= k < |ins| ensures !PassingInput(c, Run(c, ins[..k]).engine, ins[k]) {
        RunStep(c, ins, k);
        StepPasses(c, Run(c, ins[..k]), ins[k]);
      }
    }
    if NoPassingSell(c, ins) {
      forall k | 0 <= k <= |ins| ensures Run(c, ins[..k]).engine.tradedQuantity <= c.maxQuantity {
        KeptSoFar(c, ins, k);
      }
    }
  }

  lemma RunStep(c: Config, ins: seq<Input>, k: nat)
    requires k < |ins|
    ensures Run(c, ins[..k + 1]) == Step(c, Run(c, ins[..k]), ins[k])
  {
    assert ins[..k + 1][..k] == ins[..k];
  }

  lemma {:induction false} KeptSoFar(c: Config, ins: seq<Input>, n: nat)
    requires n <= |ins| && NoPassingSell(c, ins)
    ensures Run(c, ins[..n]).engine.tradedQuantity <= c.maxQuantity
  {
    if n > 0 {
      KeptSoFar(c, ins, n - 1);
      RunStep(c, ins, n - 1);
      StepPasses(c, Run(c, ins[..n - 1]), ins[n - 1]);
    }
  }

  /** In terms of the run, where nothing wraps: the next trade takes traded quantity past the maximum
      if and only if it is a seller's, found ready and not halted, priced no whole unit short of the
      band, covered by the accepted volume, and with it more than the maximum. */
  lemma MaximumPassedExactlyWhen(c: Config, ins: seq<Input>, i: Input)
    requires i.TradeIn? && Tame(c, Run(c, ins).log, i.trade, i.vwap)
    requires Run(c, ins).engine.tradedQuantity <= c.maxQuantity
    ensures var sys, t := Run(c, ins), i.trade;
      Run(c, ins + [i]).engine.tradedQuantity > c.maxQuantity <==>
        && IsReady(c, sys.engine, i.now) && !sys.engine.isHalted && t.aggressor.AggressorSell?
        && i.vwap * (10000 + c.bandBps) < t.price * 10000 + 10000
        && t.quantity <= AcceptedVolume(sys.log)
        && AcceptedVolume(sys.log) + t.quantity > c.maxQuantity
  {
    var s := Run(c, ins).engine;
    RunSnoc(c, ins, i);
    RunSound(c, ins);
    StepPasses(c, Run(c, ins), i);
    TamePasses(c, s, Run(c, ins).log, i.trade, IsReady(c, s, i.now), i.vwap);
  }

  lemma TamePasses(c: Config, s: EngineState, log: seq<Record>, t: Trade, ready: bool, vwap: u64)
    requires BooksMatch(s, log) && Tame(c, log, t, vwap)
    ensures SellPasses(c, s, t, ready, vwap) <==>
      && ready && !s.isHalted && t.aggressor.AggressorSell?
      && vwap * (10000 + c.bandBps) < t.price * 10000 + 10000
      && t.quantity <= AcceptedVolume(log)
      && AcceptedVolume(log) + t.quantity > c.maxQuantity
  {
    CountersTame(s, log, t);
    PriceTests(c, t.price, vwap);
  }

  lemma RunSnoc(c: Config, ins: seq<Input>, i: Input)
    ensures Run(c, ins + [i]) == Step(c, Run(c, ins), i)
  {
    assert (ins + [i])[..|ins|] == ins;
  }

  // ---- Warm-up and halt ----

  function QuoteCount(ins: seq<Input>): nat {
    if |ins| == 0 then 0 else QuoteCount(ins[..|ins| - 1]) + (if ins[|ins| - 1].QuoteIn? then 1 else 0)
  }

  /** When the first quote came (0 if none did). */
  function FirstQuote(ins: seq<Input>): u64 {
    if |ins| == 0 then 0
    else if QuoteCount(ins[..|ins| - 1]) == 0 && ins[|ins| - 1].QuoteIn? then ins[|ins| - 1].now
    else FirstQuote(ins[..|ins| - 1])
  }

  /** The latest reading of the steady clock. */
  function Latest(ins: seq<Input>): u64 {
    if |ins| == 0 then 0
    else if ins[|ins| - 1].CommandIn? then Latest(ins[..|ins| - 1])
    else ins[|ins| - 1].now
  }

  predicate SteadyClock(ins: seq<Input>) {
    |ins| > 0 ==>
      && SteadyClock(ins[..|ins| - 1])
      && (!ins[|ins| - 1].CommandIn? ==> Latest(ins[..|ins| - 1]) <= ins[|ins| - 1].now)
  }

  /** Ten quotes in and the window's length gone by since the first of them. */
  predicate Warm(c: Config, ins: seq<Input>, now: u64) {
    QuoteCount(ins) >= 10 && now - FirstQuote(ins) >= c.vwapWindowMs
  }

  /** How the engine's warm-up fields relate to what really happened. Past 2^32 quotes the counter
      wraps and timestampStarted may be moved, but only ever to a later time. */
  predicate WarmUpFields(c: Config, ins: seq<Input>, s: EngineState) {
    && (QuoteCount(ins) >= 1 ==> FirstQuote(ins) <= Latest(ins))
    && s.quotesReceived <= QuoteCount(ins)
    && (s.timestampStarted.Some? ==> QuoteCount(ins) >= 1 && FirstQuote(ins) <= s.timestampStarted.value <= Latest(ins))
    && (s.tradingStarted ==> Warm(c, ins, Latest(ins)))
    && (QuoteCount(ins) < 0x1_0000_0000 ==>
          && s.quotesReceived == QuoteCount(ins)
          && (s.timestampStarted.Some? ==> s.timestampStarted.value == FirstQuote(ins)))
  }

  lemma {:induction false} WarmUpInvariant(c: Config, ins: seq<Input>)
    requires SteadyClock(ins)
    ensures WarmUpFields(c, ins, Run(c, ins).engine)
  {
    if |ins| > 0 {
      var before, i := ins[..|ins| - 1], ins[|ins| - 1];
      WarmUpInvariant(c, before);
      var s := Run(c, before).engine;
      if i.TradeIn? {
        ReadyMeansWarm(c, before, s, i.now);
        DecisionFacts(c, s, i.trade, IsReady(c, s, i.now), i.vwap);
      }
    }
  }

  lemma ReadyMeansWarm(c: Config, ins: seq<Input>, s: EngineState, now: u64)
    requires ClockSet(s) && WarmUpFields(c, ins, s) && Latest(ins) <= now
    ensures IsReady(c, s, now) ==> Warm(c, ins, now)
    ensures QuoteCount(ins) < 0x1_0000_0000 ==> (IsReady(c, s, now) <==> Warm(c, ins, now))
  {
  }

  /** No order is accepted before ten quotes and the window since the first of them, over any run
      on a steady clock; and below 2^32 quotes a trade finds the engine ready exactly from then on. */
  lemma WarmUp(c: Config, ins: seq<Input>)
    requires |ins| > 0 && ins[|ins| - 1].TradeIn? && SteadyClock(ins)
    ensures |Run(c, ins).log| > 0
    ensures var before, i, r := ins[..|ins| - 1], ins[|ins| - 1], Run(c, ins).log[|Run(c, ins).log| - 1];
      && r.trade == i.trade
      && (r.ready ==> Warm(c, before, i.now))
      && (QuoteCount(before) < 0x1_0000_0000 ==> (r.ready <==> Warm(c, before, i.now)))
      && (IsAccepted(r.decision) ==> r.ready && !r.halted)
  {
    var before, i := ins[..|ins| - 1], ins[|ins| - 1];
    WarmUpInvariant(c, before);
    var s := Run(c, before).engine;
    ReadyMeansWarm(c, before, s, i.now);
    DecisionFacts(c, s, i.trade, IsReady(c, s, i.now), i.vwap);
  }

  /** The latch is set by a trade found ready, and by nothing else. */
  lemma LatchedByReadyTrade(c: Config, ins: seq<Input>, i: Input)
    ensures var before, after := Run(c, ins).engine, Run(c, ins + [i]).engine;
      after.tradingStarted <==> before.tradingStarted || (i.TradeIn? && IsReady(c, before, i.now))
  {
    RunSnoc(c, ins, i);
    if i.TradeIn? {
      var s := Run(c, ins).engine;
      DecisionFacts(c, s, i.trade, IsReady(c, s, i.now), i.vwap);
    }
  }

  /** Once ready, always ready. */
  lemma {:induction false} ReadinessLatches(c: Config, ins: seq<Input>, k: nat)
    requires k <= |ins| && Run(c, ins[..k]).engine.tradingStarted
    ensures Run(c, ins).engine.tradingStarted
  {
    if k == |ins| {
      assert ins[..k] == ins;
    } else {
      assert ins[..|ins| - 1][..k] == ins[..k];
      ReadinessLatches(c, ins[..|ins| - 1], k);
    }
  }

  /** What a command does, in every state a run reaches: HALT halts an open session and the engine, OPEN
      reopens a halted one, CLOSE closes it and leaves the engine alone; the rest changes nothing. */
  lemma EachCommand(c: Config, ins: seq<Input>, command: Command)
    ensures var before, after := Run(c, ins), Run(c, ins + [CommandIn(command)]);
      if command.HaltCommand? && before.session.Open? then
        after == before.(session := Halt, engine := before.engine.(isHalted := true))
      else if command.OpenCommand? && before.session.Halt? then
        after == before.(session := Open, engine := before.engine.(isHalted := false))
      else if command.CloseCommand? && !before.session.Close? then after == before.(session := Close)
      else after == before
  {
    RunSnoc(c, ins, CommandIn(command));
  }

  /** The engine is halted whenever the session is, and not while the session is open. */
  lemma {:induction false} HaltFollowsSession(c: Config, ins: seq<Input>)
    ensures var sys := Run(c, ins);
      && (sys.session.Halt? ==> sys.engine.isHalted)
      && (sys.session.Open? ==> !sys.engine.isHalted)
  {
    if |ins| > 0 {
      HaltFollowsSession(c, ins[..|ins| - 1]);
    }
  }

  /** So while the session is halted no trade is followed, and none that finds the engine ready
      even gets a rejection. */
  lemma NothingAcceptedWhileHalted(c: Config, ins: seq<Input>, i: Input)
    requires i.TradeIn? && Run(c, ins).session.Halt?
    ensures var r := RecordOf(c, Run(c, ins).engine, i);
      && !IsAccepted(r.decision)
      && (r.order.None? <==> r.ready)
  {
    HaltFollowsSession(c, ins);
    DecisionFacts(c, Run(c, ins).engine, i.trade, IsReady(c, Run(c, ins).engine, i.now), i.vwap);
  }

  /** CLOSE is final, and freezes the halt flag as it stood. */
  lemma {:induction false} CloseIsFinal(c: Config, ins: seq<Input>, k: nat)
    requires k <= |ins| && Run(c, ins[..k]).session.Close?
    ensures Run(c, ins).session.Close?
    ensures Run(c, ins).engine.isHalted == Run(c, ins[..k]).engine.isHalted
  {
    if k == |ins| {
      assert ins[..k] == ins;
    } else {
      assert ins[..|ins| - 1][..k] == ins[..k];
      CloseIsFinal(c, ins[..|ins| - 1], k);
    }
  }

  /** CLOSE leaves the engine halted, then and for ever, if and only if the session was halted. */
  lemma ClosedHaltedExactlyWhen(c: Config, ins: seq<Input>, later: seq<Input>)
    requires !Run(c, ins).session.Close?
    ensures var sys := Run(c, ins + [CommandIn(CloseCommand)] + later);
      && sys.session.Close?
      && (sys.engine.isHalted <==> Run(c, ins).session.Halt?)
  {
    var closed := ins + [CommandIn(CloseCommand)];
    HaltFollowsSession(c, ins);
    RunSnoc(c, ins, CommandIn(CloseCommand));
    assert (closed + later)[..|closed|] == closed;
    CloseIsFinal(c, closed + later, |closed|);
  }
}
