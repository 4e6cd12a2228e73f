/** Runs that show where the engine's limits stop short of what their names suggest. */
module EngineWitnesses {
  import opened Options
  import opened Bytes
  import opened Gcmd
  import opened Engine
  import opened Session
  import opened EngineRuns

  function Quotes(n: nat): seq<Input> {
    seq(n, _ => QuoteIn(0))
  }

  function Traded(aggressor: Aggressor, quantity: u32): Input {
    TradeIn(Gcmd.Trade(BLANK, 0, quantity, 1, aggressor, 0), 0, 1, 0)
  }

  /** The engine once `n` quotes came in at time 0. */
  function Quoted(n: u32): EngineState {
    EngineState(n, false, false, if n == 0 then None else Some(0), 0, 0, 0)
  }

  lemma QuoteStep(c: Config, n: nat)
    requires n + 1 < 0x1_0000_0000
    ensures EngineRuns.Step(c, Sys(Quoted(n), Open, []), QuoteIn(0)) == Sys(Quoted(n + 1), Open, [])
  {
  }

  lemma {:induction false} AfterQuotes(c: Config, n: nat)
    requires n < 0x1_0000_0000
    ensures Run(c, Quotes(n)) == Sys(Quoted(n), Open, [])
  {
    if n > 0 {
      AfterQuotes(c, n - 1);
      assert Quotes(n) == Quotes(n - 1) + [QuoteIn(0)];
      RunSnoc(c, Quotes(n - 1), QuoteIn(0));
      QuoteStep(c, n - 1);
    }
  }

  const SMALL := Config(5, 100, 0, 0)

  lemma AfterBuy()
    ensures Run(SMALL, Quotes(10) + [Traded(AggressorBuy, 5)]).engine
         == EngineState(10, true, false, Some(0), 5, 5, 1)
  {
    AfterQuotes(SMALL, 10);
    RunSnoc(SMALL, Quotes(10), Traded(AggressorBuy, 5));
  }

  /** Accepted sells raise traded quantity, so it can end up at twice the maximum: the doubling
      bound of Budget is met exactly, and "traded quantity stays within the maximum" is false. */
  lemma TradedQuantityCanExceedMaximum()
    ensures var ins := Quotes(10) + [Traded(AggressorBuy, 5)] + [Traded(AggressorSell, 5)];
      Run(SMALL, ins).engine.tradedQuantity == 2 * SMALL.maxQuantity
  {
    AfterBuy();
    RunSnoc(SMALL, Quotes(10) + [Traded(AggressorBuy, 5)], Traded(AggressorSell, 5));
  }

  /** CLOSE out of an open session does not halt the engine: a trade handled afterwards can still
      be followed. (CloseIsFinal: closed out of HALT, it stays halted.) */
  lemma CloseDoesNotHalt()
    ensures var ins := Quotes(10) + [CommandIn(CloseCommand)];
      && Run(SMALL, ins).session == Close
      && RecordOf(SMALL, Run(SMALL, ins).engine, Traded(AggressorBuy, 5)).decision == Bought
  {
    AfterQuotes(SMALL, 10);
    RunSnoc(SMALL, Quotes(10), CommandIn(CloseCommand));
  }

  function Unknowns(n: nat): seq<Input> {
    seq(n, _ => Traded(AggressorUnknown, 0xFFFF_FFFF))
  }

  /** `n` trades of unknown aggressor after ten quotes: all declined, volume n times the quantity. */
  predicate Declining(sys: Sys, n: nat) {
    && Volume(sys.log) == n * 0xFFFF_FFFF && AcceptedVolume(sys.log) == 0 && |sys.log| == n
    && !sys.engine.isHalted && (forall k | 0 <= k < |sys.log| :: sys.log[k].order.Some?)
    && (sys.engine.tradingStarted || (sys.engine.quotesReceived == 10 && sys.engine.timestampStarted == Some(0)))
  }

  lemma DecliningStep(c: Config, sys: Sys, n: nat)
    requires c.vwapWindowMs == 0 && Declining(sys, n) && ClockSet(sys.engine)
    ensures Declining(EngineRuns.Step(c, sys, Traded(AggressorUnknown, 0xFFFF_FFFF)), n + 1)
  {
    var i := Traded(AggressorUnknown, 0xFFFF_FFFF);
    LogStep(sys.log, RecordOf(c, sys.engine, i));
  }

  lemma {:induction false} AfterUnknowns(c: Config, n: nat)
    requires c.vwapWindowMs == 0
    ensures Declining(Run(c, Quotes(10) + Unknowns(n)), n)
  {
    if n == 0 {
      AfterQuotes(c, 10);
      assert Quotes(10) + Unknowns(0) == Quotes(10);
    } else {
      var before, i := Quotes(10) + Unknowns(n - 1), Traded(AggressorUnknown, 0xFFFF_FFFF);
      AfterUnknowns(c, n - 1);
      assert Quotes(10) + Unknowns(n) == before + [i];
      RunSnoc(c, before, i);
      DecliningStep(c, Run(c, before), n - 1);
    }
  }

  const JUST_PAST := 0x1_0000_0001

  /** One unit past 2^64 the volume counter is back at 0, and a buy is accepted although the volume
      handled is far above the cap. */
  lemma WrappedVolumeDefeatsCap()
    ensures var c, ins := Config(1, 0, 0, 0), Quotes(10) + Unknowns(JUST_PAST);
      && Volume(Run(c, ins).log) + 1 == 0x1_0000_0000_0000_0000
      && RecordOf(c, Run(c, ins).engine, Traded(AggressorBuy, 1)).decision == Bought
  {
    var c := Config(1, 0, 0, 0);
    AfterUnknowns(c, JUST_PAST);
    RunSound(c, Quotes(10) + Unknowns(JUST_PAST));
  }

  /** A trade that is bought, with the volume up to and including it below `bound`. */
  predicate BoughtBelow(bound: nat, c: Config, ins: seq<Input>, i: Input) {
    && i.TradeIn?
    && Volume(Run(c, ins).log) + i.trade.quantity < bound
    && RecordOf(c, Run(c, ins).engine, i).decision == Bought
  }

  lemma BoughtWithinCap(c: Config, ins: seq<Input>, i: Input)
    requires BoughtBelow(0x1_0000_0000_0000_0000, c, ins, i)
    ensures Volume(Run(c, ins).log) + i.trade.quantity <= c.participationCap
  {
    var sys := Run(c, ins);
    RunSound(c, ins);
    CountersTame(sys.engine, sys.log, i.trade);
    DecisionFacts(c, sys.engine, i.trade, IsReady(c, sys.engine, i.now), i.vwap);
  }

  /** Over all settings and runs, buys stay within the cap up to a bound on the volume if and only if
      the bound is at most 2^64. */
  lemma CapHoldsExactlyBelow(bound: nat)
    ensures (forall c: Config, ins: seq<Input>, i: Input | BoughtBelow(bound, c, ins, i) ::
               Volume(Run(c, ins).log) + i.trade.quantity <= c.participationCap)
        <==> bound <= 0x1_0000_0000_0000_0000
  {
    if bound <= 0x1_0000_0000_0000_0000 {
      forall c: Config, ins: seq<Input>, i: Input | BoughtBelow(bound, c, ins, i)
        ensures Volume(Run(c, ins).log) + i.trade.quantity <= c.participationCap
      {
        BoughtWithinCap(c, ins, i);
      }
    } else {
      WrappedVolumeDefeatsCap();
      assert BoughtBelow(bound, Config(1, 0, 0, 0), Quotes(10) + Unknowns(JUST_PAST), Traded(AggressorBuy, 1));
    }
  }

  // ---- How long ids increase ----

  /** Among the first `bound` trades of a run, the j-th and the later k-th both gave an order. */
  predicate EmittedBelow(bound: nat, c: Config, ins: seq<Input>, j: nat, k: nat) {
    var log := Run(c, ins).log;
    j < k < |log| <= bound && log[j].order.Some? && log[k].order.Some?
  }

  const WRAPPING := 0x1_0000_0000_0000_0001

  /** The trade after 2^64 others gets the id of the first. */
  lemma WrappedIdRepeats()
    ensures var c, ins := Config(1, 0, 0, 0), Quotes(10) + Unknowns(WRAPPING);
      && EmittedBelow(WRAPPING, c, ins, 0, WRAPPING - 1)
      && Run(c, ins).log[WRAPPING - 1].order.value.clientOrderId == Run(c, ins).log[0].order.value.clientOrderId
  {
    var c, ins := Config(1, 0, 0, 0), Quotes(10) + Unknowns(WRAPPING);
    AfterUnknowns(c, WRAPPING);
    RunSound(c, ins);
    assert RecordHonest(Run(c, ins).log[0], 0);
    assert RecordHonest(Run(c, ins).log[WRAPPING - 1], WRAPPING - 1);
  }

  /** Over all runs the ids that go out strictly increase up to a number of trades if and only if that
      number is at most 2^64. */
  lemma IdsIncreaseExactlyUpTo(bound: nat)
    ensures (forall c: Config, ins: seq<Input>, j: nat, k: nat | EmittedBelow(bound, c, ins, j, k) ::
               Run(c, ins).log[j].order.value.clientOrderId < Run(c, ins).log[k].order.value.clientOrderId)
        <==> bound <= 0x1_0000_0000_0000_0000
  {
    if bound <= 0x1_0000_0000_0000_0000 {
      forall c: Config, ins: seq<Input>, j: nat, k: nat | EmittedBelow(bound, c, ins, j, k)
        ensures Run(c, ins).log[j].order.value.clientOrderId < Run(c, ins).log[k].order.value.clientOrderId
      {
        EmittedIdsIncrease(c, ins, j, k);
      }
    } else {
      WrappedIdRepeats();
      assert EmittedBelow(bound, Config(1, 0, 0, 0), Quotes(10) + Unknowns(WRAPPING), 0, WRAPPING - 1);
    }
  }

  // ---- How long readiness means warmth ----

  lemma {:induction false} ManyQuotes(n: nat)
    ensures QuoteCount(Quotes(n)) == n && FirstQuote(Quotes(n)) == 0 && Latest(Quotes(n)) == 0
    ensures SteadyClock(Quotes(n))
  {
    if n > 0 {
      ManyQuotes(n - 1);
      assert Quotes(n)[..n - 1] == Quotes(n - 1);
    }
  }

  /** A trade after fewer than `bound` quotes, on a steady clock. */
  predicate TradeBelow(bound: nat, ins: seq<Input>, i: Input) {
    i.TradeIn? && SteadyClock(ins) && Latest(ins) <= i.now && QuoteCount(ins) < bound
  }

  const ALL_COUNTS := 0x1_0000_0000

  /** After 2^32 quotes the counter is back at 0, and a trade finds a warm engine not ready. */
  lemma WrappedCountUnready()
    ensures var c, ins, i := SMALL, Quotes(ALL_COUNTS), Traded(AggressorBuy, 5);
      && TradeBelow(ALL_COUNTS + 1, ins, i)
      && !IsReady(c, Run(c, ins).engine, i.now) && Warm(c, ins, i.now)
  {
    var n := ALL_COUNTS - 1;
    ManyQuotes(ALL_COUNTS);
    AfterQuotes(SMALL, n);
    assert Quotes(ALL_COUNTS) == Quotes(n) + [QuoteIn(0)];
    RunSnoc(SMALL, Quotes(n), QuoteIn(0));
  }

  /** Over all runs on a steady clock, up to a number of quotes, a trade finds the engine ready exactly
      when ten quotes and the window are past, if and only if that number is at most 2^32. */
  lemma ReadyMeansWarmExactlyBelow(bound: nat)
    ensures (forall c: Config, ins: seq<Input>, i: Input | TradeBelow(bound, ins, i) ::
               IsReady(c, Run(c, ins).engine, i.now) <==> Warm(c, ins, i.now))
        <==> bound <= 0x1_0000_0000
  {
    if bound <= 0x1_0000_0000 {
      forall c: Config, ins: seq<Input>, i: Input | TradeBelow(bound, ins, i)
        ensures IsReady(c, Run(c, ins).engine, i.now) <==> Warm(c, ins, i.now)
      {
        WarmUpInvariant(c, ins);
        ReadyMeansWarm(c, ins, Run(c, ins).engine, i.now);
      }
    } else {
      WrappedCountUnready();
      assert TradeBelow(bound, Quotes(ALL_COUNTS), Traded(AggressorBuy, 5));
    }
  }

  // ---- How many quotes it takes ----

  /** With a window of length zero, ten quotes are enough and nine are not. */
  lemma NineAndTen(i: Input)
    requires i.TradeIn? && i.now == 0
    ensures !IsReady(SMALL, Run(SMALL, Quotes(9)).engine, i.now) && TradeBelow(0x1_0000_0000, Quotes(9), i)
    ensures IsReady(SMALL, Run(SMALL, Quotes(10)).engine, i.now) && TradeBelow(0x1_0000_0000, Quotes(10), i)
  {
    AfterQuotes(SMALL, 9);
    AfterQuotes(SMALL, 10);
    ManyQuotes(9);
    ManyQuotes(10);
  }

  /** A trade found ready, on a steady clock, after fewer than 2^32 quotes. */
  predicate FoundReady(c: Config, ins: seq<Input>, i: Input) {
    TradeBelow(0x1_0000_0000, ins, i) && IsReady(c, Run(c, ins).engine, i.now)
  }

  /** Over all settings and runs every such trade comes after at least n quotes if and only if n is at
      most 10. */
  lemma TenQuotesExactly(n: nat)
    ensures (forall c: Config, ins: seq<Input>, i: Input | FoundReady(c, ins, i) :: QuoteCount(ins) >= n) <==> n <= 10
  {
    if n <= 10 {
      forall c: Config, ins: seq<Input>, i: Input | FoundReady(c, ins, i) ensures QuoteCount(ins) >= n {
        WarmUpInvariant(c, ins);
        ReadyMeansWarm(c, ins, Run(c, ins).engine, i.now);
      }
    } else {
      NineAndTen(Traded(AggressorBuy, 5));
      ManyQuotes(10);
      assert FoundReady(SMALL, Quotes(10), Traded(AggressorBuy, 5));
    }
  }
}
