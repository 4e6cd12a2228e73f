/** A joint run of service and engine in which trades are bought and sold: the theorems of
    TradeFlow about trades bought and sold are about something. */
module FlowWitnesses {
  import opened Options
  import opened Bytes
  import opened Gcmd
  import opened Engine
  import opened EngineRuns
  import opened Vwap
  import opened TradeFlow
  import W = EngineWitnesses

  function Quotes(n: nat): seq<FlowInput> {
    seq(n, _ => QuoteArrives(0))
  }

  lemma QuoteStep(c: Config, window: u64, n: nat)
    requires n + 1 < 0x1_0000_0000
    ensures FlowStep(c, window, Flow(Sys(W.Quoted(n), Open, []), [], []), QuoteArrives(0))
         == Flow(Sys(W.Quoted(n + 1), Open, []), [], [])
  {
  }

  lemma {:induction false} AfterQuotes(c: Config, window: u64, n: nat)
    requires n < 0x1_0000_0000
    ensures FlowRun(c, window, Quotes(n)) == Flow(Sys(W.Quoted(n), Open, []), [], [])
  {
    if n > 0 {
      AfterQuotes(c, window, n - 1);
      assert Quotes(n) == Quotes(n - 1) + [QuoteArrives(0)];
      FlowSnoc(c, window, Quotes(n - 1), QuoteArrives(0));
      QuoteStep(c, window, n - 1);
    }
  }

  const HALF := Config(5, 100, 0, 5000)
  const DEAR := Gcmd.Trade(BLANK, 0, 9, 100, AggressorUnknown, 0)
  const CHEAP := Gcmd.Trade(BLANK, 0, 1, 1, AggressorBuy, 1)
  const STARTED := EngineState(10, true, false, Some(0), 0, 9, 1)

  lemma MeanOfBoth()
    ensures SumQ([DEAR]) == 9 && SumQ([DEAR, CHEAP]) == 10 && Mean([DEAR, CHEAP]) == 90
  {
    assert [DEAR, CHEAP][1..] == [CHEAP];
    assert SumQ([CHEAP]) == 1 && SumPQ([CHEAP]) == 1;
    assert SumQ([DEAR]) == 9;
    assert SumPQ([DEAR, CHEAP]) == 901;
  }

  lemma LiveOfBoth(window: u64)
    ensures LiveFor(W.Quoted(10), HALF, [], DEAR, 0, 0, window) == [DEAR]
    ensures LiveFor(STARTED, HALF, [DEAR], CHEAP, 0, 0, window) == [DEAR, CHEAP]
  {
    MeanOfBoth();
    assert [] + [DEAR] == [DEAR] && [DEAR] + [CHEAP] == [DEAR, CHEAP];
  }

  lemma DearDeclined(vwap: u64)
    ensures IsReady(HALF, W.Quoted(10), 0)
    ensures Decide(HALF, W.Quoted(10), DEAR, true, vwap) == Declined
    ensures Account(W.Quoted(10), DEAR, Declined) == STARTED
  {
  }

  lemma CheapBought()
    ensures Decide(HALF, STARTED, CHEAP, true, 90) == Bought
  {
    assert UpperBound(HALF, 90) == 45;
  }

  /** One trade more in a flow, step by step. */
  lemma TradeStep(c: Config, window: u64, f: Flow, t: Trade, live: seq<Trade>, d: Decision)
    requires ClockSet(f.sys.engine) && IsReady(c, f.sys.engine, 0)
    requires live == LiveFor(f.sys.engine, c, f.live, t, 0, 0, window)
    requires d == Decide(c, f.sys.engine, t, true, Mean(live)) && !d.Silenced?
    ensures var f' := FlowStep(c, window, f, TradeArrives(t, 0, 0, 0));
      && f'.sys.engine == Account(f.sys.engine, t, d)
      && f'.live == live && |f'.sent| == |f.sent| + 1
      && |f'.sys.log| == |f.sys.log| + 1 && f'.sys.log[|f.sys.log|].decision == d
  {
  }

  /** A dear trade of unknown aggressor is declined, then a cheap one is bought. */
  lemma BuyingHappens(window: u64)
    ensures var ins := Quotes(10) + [TradeArrives(DEAR, 0, 0, 0)] + [TradeArrives(CHEAP, 0, 0, 0)];
      var f := FlowRun(HALF, window, ins);
      && |f.sys.log| == 2 && f.sys.log[1].decision == Bought
      && f.live == [DEAR, CHEAP] && |f.sent| == 2
      && f.sys.engine == Account(STARTED, CHEAP, Bought)
  {
    var first := Quotes(10) + [TradeArrives(DEAR, 0, 0, 0)];
    AfterQuotes(HALF, window, 10);
    LiveOfBoth(window);
    FlowSnoc(HALF, window, Quotes(10), TradeArrives(DEAR, 0, 0, 0));
    DearDeclined(Mean([DEAR]));
    TradeStep(HALF, window, FlowRun(HALF, window, Quotes(10)), DEAR, [DEAR], Declined);
    FlowSnoc(HALF, window, first, TradeArrives(CHEAP, 0, 0, 0));
    MeanOfBoth();
    CheapBought();
    TradeStep(HALF, window, FlowRun(HALF, window, first), CHEAP, [DEAR, CHEAP], Bought);
  }

  const RICH := Gcmd.Trade(BLANK, 0, 1, 1000, AggressorSell, 2)
  const HOLDING := EngineState(10, true, false, Some(0), 1, 10, 2)

  lemma MeanOfAll()
    ensures SumQ([DEAR, CHEAP, RICH]) == 11 && Mean([DEAR, CHEAP, RICH]) == 172
  {
    assert [DEAR, CHEAP, RICH] == [DEAR, CHEAP] + [RICH];
    SumsOfSnoc([DEAR, CHEAP], RICH);
    assert [DEAR, CHEAP][1..] == [CHEAP] && SumPQ([CHEAP]) == 1 && SumQ([CHEAP]) == 1;
    assert SumPQ([DEAR, CHEAP]) == 901;
  }

  lemma LiveOfAll(window: u64)
    ensures LiveFor(HOLDING, HALF, [DEAR, CHEAP], RICH, 0, 0, window) == [DEAR, CHEAP, RICH]
  {
    MeanOfBoth();
    MeanOfAll();
    assert [DEAR, CHEAP] + [RICH] == [DEAR, CHEAP, RICH];
  }

  lemma RichSold()
    ensures Decide(HALF, HOLDING, RICH, true, 172) == Sold
    ensures Account(STARTED, CHEAP, Bought) == HOLDING
  {
    assert LowerBound(HALF, 172) == 258;
  }

  /** ... and then a rich one is sold. */
  lemma SellingHappens(window: u64)
    ensures var ins := Quotes(10) + [TradeArrives(DEAR, 0, 0, 0)] + [TradeArrives(CHEAP, 0, 0, 0)]
                       + [TradeArrives(RICH, 0, 0, 0)];
      var f := FlowRun(HALF, window, ins);
      && |f.sys.log| == 3 && f.sys.log[2].decision == Sold
      && f.live == [DEAR, CHEAP, RICH] && |f.sent| == 3
  {
    var ins := Quotes(10) + [TradeArrives(DEAR, 0, 0, 0)] + [TradeArrives(CHEAP, 0, 0, 0)];
    BuyingHappens(window);
    FlowSnoc(HALF, window, ins, TradeArrives(RICH, 0, 0, 0));
    RichSold();
    LiveOfAll(window);
    MeanOfAll();
    TradeStep(HALF, window, FlowRun(HALF, window, ins), RICH, [DEAR, CHEAP, RICH], Sold);
  }
}
