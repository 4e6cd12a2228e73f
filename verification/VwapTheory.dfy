/** What the rolling average means: a true mean of the live trades, and which trades of the whole
    history are live. */
module VwapTheory {
  import opened Bytes
  import opened Arithmetic
  import opened Gcmd
  import opened Vwap

  // ---- A true mean ----

  lemma {:induction false} WeightedBounds(ts: seq<Trade>, lo: int, hi: int)
    requires forall t | t in ts && t.quantity > 0 :: lo <= t.price <= hi
    ensures SumQ(ts) * lo <= SumPQ(ts) <= SumQ(ts) * hi
  {
    if |ts| > 0 {
      var t, rest := ts[0], ts[1..];
      WeightedBounds(rest, lo, hi);
      if t.quantity > 0 {
        assert t in ts;
        MulMono(t.quantity, lo, t.price);
        MulMono(t.quantity, t.price, hi);
      }
      Distribute(t.quantity, SumQ(rest), lo);
      Distribute(t.quantity, SumQ(rest), hi);
    }
  }

  /** With non-negative prices the mean lies between any bounds on the prices of the trades that
      have quantity; so neither the 128-bit sum nor the 64-bit result wraps. */
  lemma MeanWithinPrices(ts: seq<Trade>, lo: int, hi: int)
    requires SumQ(ts) > 0 && |ts| <= CAPACITY && 0 <= lo && hi < 0x8000_0000_0000_0000
    requires forall t | t in ts && t.quantity > 0 :: lo <= t.price <= hi
    ensures lo <= Mean(ts) <= hi
    ensures Mean(ts) == SumPQ(ts) / SumQ(ts)
    ensures Wrap128(SumPQ(ts)) == SumPQ(ts)
  {
    WeightedBounds(ts, lo, hi);
    QuotientWithin(SumPQ(ts), SumQ(ts), lo, hi);
    assert Wrap128(SumPQ(ts)) == SumPQ(ts) by {
      SumQBound(ts);
      ProductFits(SumQ(ts), lo, hi);
    }
  }

  /** The 128-bit sum never wraps, whatever the quantities. */
  lemma NotionalFits(ts: seq<Trade>)
    requires |ts| <= CAPACITY && NonNegativePrices(ts)
    ensures Wrap128(SumPQ(ts)) == SumPQ(ts)
  {
    WeightedBounds(ts, 0, 0x7FFF_FFFF_FFFF_FFFF);
    SumQBound(ts);
    ProductFits(SumQ(ts), 0, 0x7FFF_FFFF_FFFF_FFFF);
  }

  lemma ProductFits(n: nat, lo: int, hi: int)
    requires 0 <= lo && hi < 0x8000_0000_0000_0000 && n <= 1024 * 0xFFFF_FFFF
    ensures 0 <= n * lo
    ensures n * hi < 0x1_0000_0000_0000_0000_0000_0000_0000_0000
  {
    MulMono(n, 0, lo);
    MulMono(n, hi, 0x8000_0000_0000_0000);
  }

  /** Some trade with quantity is priced at least at the mean, and some at most at it. */
  lemma MeanIsStraddled(ts: seq<Trade>)
    requires SumQ(ts) > 0 && |ts| <= CAPACITY && NonNegativePrices(ts)
    ensures exists t :: t in ts && t.quantity > 0 && t.price >= Mean(ts)
    ensures exists t :: t in ts && t.quantity > 0 && t.price <= Mean(ts)
  {
    MeanWithinPrices(ts, 0, 0x7FFF_FFFF_FFFF_FFFF);
    if forall t | t in ts && t.quantity > 0 :: t.price < Mean(ts) {
      SomeQuantity(ts);
      MeanWithinPrices(ts, 0, Mean(ts) - 1);
    }
    if forall t | t in ts && t.quantity > 0 :: t.price > Mean(ts) {
      MeanWithinPrices(ts, Mean(ts) + 1, 0x7FFF_FFFF_FFFF_FFFF);
    }
  }

  lemma {:induction false} SomeQuantity(ts: seq<Trade>)
    requires SumQ(ts) > 0
    ensures exists t :: t in ts && t.quantity > 0
  {
    if ts[0].quantity > 0 { assert ts[0] in ts; } else { SomeQuantity(ts[1..]); }
  }

  // ---- Which trades are live ----

  /** What reaches the service, in order: trades, and queries for the average. */
  datatype Event = TradeEvent(trade: Trade) | QueryEvent(now: u64)

  function Time(e: Event): u64 {
    match e case TradeEvent(t) => t.timestamp case QueryEvent(now) => now
  }

  function React(live: seq<Trade>, e: Event, window: u64): seq<Trade> {
    match e
    case TradeEvent(t) => Handle(live, t, OverwriteOldest, window).live
    case QueryEvent(now) => Evict(live, now, window)
  }

  /** The live trades after the events, under the policy the program uses. */
  function LiveAfter(es: seq<Event>, window: u64): seq<Trade> {
    if |es| == 0 then [] else React(LiveAfter(es[..|es| - 1], window), es[|es| - 1], window)
  }

  /** All trades that ever arrived. */
  function History(es: seq<Event>): seq<Trade> {
    if |es| == 0 then []
    else History(es[..|es| - 1]) + (if es[|es| - 1].TradeEvent? then [es[|es| - 1].trade] else [])
  }

  function Last(n: nat, h: seq<Trade>): seq<Trade>
    requires n <= |h|
  {
    h[|h| - n..]
  }

  lemma {:induction false} EvictIsSuffix(live: seq<Trade>, now: u64, window: u64)
    ensures Evict(live, now, window) == Last(|Evict(live, now, window)|, live)
  {
    if 0 < |live| < CAPACITY && SumQ(live) > 0 && Stale(live[0], now, window) {
      EvictIsSuffix(live[1..], now, window);
    }
  }

  /** Whatever the clocks and quantities, the live trades are the latest ones, without gaps, in
      arrival order, and never more than the ring holds. */
  lemma {:induction false} LiveIsLatest(es: seq<Event>, window: u64)
    ensures var live := LiveAfter(es, window);
      |live| <= CAPACITY && |live| <= |History(es)| && live == Last(|live|, History(es))
  {
    if |es| > 0 {
      var before := es[..|es| - 1];
      LiveIsLatest(before, window);
      ReactIsLatest(LiveAfter(before, window), History(before), es[|es| - 1], window);
    }
  }

  lemma SuffixOfSuffix(h: seq<Trade>, a: seq<Trade>, n: nat)
    requires n <= |a| <= |h| && a == Last(|a|, h)
    ensures Last(n, a) == Last(n, h)
  {
  }

  lemma SuffixGrows(h: seq<Trade>, n: nat, t: Trade)
    requires n <= |h|
    ensures Last(n, h) + [t] == Last(n + 1, h + [t])
    ensures n > 0 ==> Last(n, h)[1..] + [t] == Last(n, h + [t])
  {
  }

  lemma ReactIsLatest(live: seq<Trade>, h: seq<Trade>, e: Event, window: u64)
    requires |live| <= CAPACITY && |live| <= |h| && live == Last(|live|, h)
    ensures var live', h' := React(live, e, window), h + (if e.TradeEvent? then [e.trade] else []);
      |live'| <= CAPACITY && |live'| <= |h'| && live' == Last(|live'|, h')
  {
    var l := Evict(live, Time(e), window);
    EvictIsSuffix(live, Time(e), window);
    SuffixOfSuffix(h, live, |l|);
    match e {
      case TradeEvent(t) => AddIsLatest(l, h, t);
      case QueryEvent(_) => assert h + [] == h;
    }
  }

  lemma AddIsLatest(l: seq<Trade>, h: seq<Trade>, t: Trade)
    requires |l| <= CAPACITY && |l| <= |h| && l == Last(|l|, h)
    ensures var added := Add(if |l| < CAPACITY then l else l[1..], t);
      |added| <= CAPACITY && |added| <= |h + [t]| && added == Last(|added|, h + [t])
  {
    SuffixGrows(h, |l|, t);
  }

  /** With positive quantities a full ring stays full, whatever the timestamps: from then on the
      average is over the last 1024 trades, however old. */
  lemma {:induction false} FullStaysFull(es: seq<Event>, k: nat, window: u64)
    requires k <= |es| && AllPositive(History(es))
    requires |LiveAfter(es[..k], window)| == CAPACITY
    ensures |History(es)| >= CAPACITY
    ensures LiveAfter(es, window) == Last(CAPACITY, History(es))
  {
    if k == |es| {
      assert es[..k] == es;
    } else {
      var before := es[..|es| - 1];
      assert before[..k] == es[..k];
      FullStaysFull(before, k, window);
      FullReact(LiveAfter(before, window), es[|es| - 1], window);
    }
    LiveIsLatest(es, window);
  }

  lemma FullReact(live: seq<Trade>, e: Event, window: u64)
    requires |live| == CAPACITY && (e.TradeEvent? ==> e.trade.quantity > 0)
    ensures |React(live, e, window)| == CAPACITY
  {
    if e.TradeEvent? {
      SumsOfSnoc(live[1..], e.trade);
    }
  }

  /** The live trades after events under any policy, from any start. */
  function LiveUnder(live: seq<Trade>, es: seq<Event>, policy: OverflowPolicy, window: u64): seq<Trade> {
    if |es| == 0 then live
    else
      var before := LiveUnder(live, es[..|es| - 1], policy, window);
      match es[|es| - 1]
      case TradeEvent(t) => Handle(before, t, policy, window).live
      case QueryEvent(now) => Evict(before, now, window)
  }

  /** Under the other two policies a full ring never changes again, whatever comes; a new trade is
      dropped, with an exception under Throw only. */
  lemma {:induction false} FullFreezes(live: seq<Trade>, es: seq<Event>, t: Trade, policy: OverflowPolicy, window: u64)
    requires |live| == CAPACITY && policy != OverwriteOldest
    ensures LiveUnder(live, es, policy, window) == live
    ensures Handle(LiveUnder(live, es, policy, window), t, policy, window) == Handled(live, policy.Throw?)
  {
    if |es| > 0 {
      FullFreezes(live, es[..|es| - 1], t, policy, window);
    }
  }

  // ---- The naive definition ----

  /** The trades of `h` no older than the window at `now`. */
  function InWindow(h: seq<Trade>, now: int, window: u64): seq<Trade> {
    if |h| == 0 then []
    else InWindow(h[..|h| - 1], now, window)
         + (if now - h[|h| - 1].timestamp <= window then [h[|h| - 1]] else [])
  }

  predicate Sorted(h: seq<Trade>) {
    forall i, j | 0 <= i <= j < |h| :: h[i].timestamp <= h[j].timestamp
  }

  /** One non-decreasing clock over trades and queries. */
  predicate Monotone(es: seq<Event>) {
    forall i, j | 0 <= i <= j < |es| :: Time(es[i]) <= Time(es[j])
  }

  /** The time of the last event. */
  function Now(es: seq<Event>): u64 {
    if |es| == 0 then 0 else Time(es[|es| - 1])
  }

  lemma {:induction false} HistorySorted(es: seq<Event>)
    requires Monotone(es)
    ensures Sorted(History(es)) && forall t | t in History(es) :: t.timestamp <= Now(es)
  {
    if |es| > 0 {
      var before := es[..|es| - 1];
      HistorySorted(before);
      assert |before| > 0 ==> Now(before) == Time(es[|es| - 2]);
    }
  }

  /** On a sorted history the window is what is left after dropping the stale old end. */
  lemma {:induction false} WindowDropsFirst(h: seq<Trade>, now: int, window: u64)
    requires |h| > 0 && now - h[0].timestamp > window
    ensures InWindow(h, now, window) == InWindow(h[1..], now, window)
  {
    if |h| > 1 {
      WindowDropsFirst(h[..|h| - 1], now, window);
      assert h[..|h| - 1][1..] == h[1..][..|h| - 2];
    }
  }

  lemma {:induction false} WindowKeepsAll(h: seq<Trade>, now: int, window: u64)
    requires forall t | t in h :: now - t.timestamp <= window
    ensures InWindow(h, now, window) == h
  {
    if |h| > 0 {
      WindowKeepsAll(h[..|h| - 1], now, window);
      assert h[|h| - 1] in h;
    }
  }

  /** The window can be taken in two steps: what an earlier time excluded stays excluded. */
  lemma {:induction false} WindowOfWindow(h: seq<Trade>, earlier: int, now: int, window: u64)
    requires earlier <= now
    ensures InWindow(InWindow(h, earlier, window), now, window) == InWindow(h, now, window)
  {
    if |h| > 0 {
      var k := |h| - 1;
      var w := InWindow(h[..k], earlier, window);
      WindowOfWindow(h[..k], earlier, now, window);
      if earlier - h[k].timestamp <= window {
        assert (w + [h[k]])[..|w|] == w;
      } else {
        assert InWindow(h, earlier, window) == w;
        assert InWindow(h, now, window) == InWindow(h[..k], now, window);
      }
    }
  }

  /** A sorted list of trades of positive quantity, none of them from the future. */
  predicate InOrder(live: seq<Trade>, now: int) {
    Sorted(live) && AllPositive(live) && forall t | t in live :: t.timestamp <= now
  }

  lemma FreshFirstKeepsAll(live: seq<Trade>, now: u64, window: u64)
    requires |live| > 0 && Sorted(live) && now - live[0].timestamp <= window
    ensures InWindow(live, now, window) == live
  {
    forall t | t in live ensures now - t.timestamp <= window {
      var i :| 0 <= i < |live| && live[i] == t;
      assert live[0].timestamp <= live[i].timestamp;
    }
    WindowKeepsAll(live, now, window);
  }

  lemma InOrderSuffix(h: seq<Trade>, n: nat, now: int)
    requires InOrder(h, now) && n <= |h|
    ensures InOrder(Last(n, h), now)
  {
    assert forall t | t in Last(n, h) :: t in h;
  }

  /** Below capacity and with positive quantities, eviction takes exactly the window. */
  lemma {:induction false} EvictIsWindow(live: seq<Trade>, now: u64, window: u64)
    requires |live| < CAPACITY && InOrder(live, now)
    ensures Evict(live, now, window) == InWindow(live, now, window)
  {
    if |live| > 0 {
      FirstStale(live, now, window);
      if Stale(live[0], now, window) {
        InOrderSuffix(live, |live| - 1, now);
        EvictIsWindow(live[1..], now, window);
        WindowDropsFirst(live, now, window);
      } else {
        FreshFirstKeepsAll(live, now, window);
      }
    }
  }

  lemma FirstStale(live: seq<Trade>, now: u64, window: u64)
    requires 0 < |live| < CAPACITY && InOrder(live, now)
    ensures Stale(live[0], now, window) <==> now - live[0].timestamp > window
    ensures Evict(live, now, window) == if Stale(live[0], now, window) then Evict(live[1..], now, window) else live
  {
    assert live[0] in live;
    PositiveSum(live);
  }

  /** At some add the window of the history came to hold as many trades as the ring has slots. */
  predicate EverFull(es: seq<Event>, window: u64) {
    |es| > 0 &&
    (EverFull(es[..|es| - 1], window) ||
     (es[|es| - 1].TradeEvent? && |InWindow(History(es), Now(es), window)| >= CAPACITY))
  }

  lemma {:induction false} HistoryInOrder(es: seq<Event>)
    requires Monotone(es) && AllPositive(History(es))
    ensures InOrder(History(es), Now(es))
  {
    HistorySorted(es);
  }

  /** The complete description of the live trades for positive quantities and one clock: until
      the window first holds 1024 trades they are exactly the trades in the window, and from then
      on the last 1024 trades, in the window or not. */
  lemma {:induction false} LiveIsWindowUntilFull(es: seq<Event>, window: u64)
    requires Monotone(es) && AllPositive(History(es))
    ensures EverFull(es, window) ==>
      |History(es)| >= CAPACITY && LiveAfter(es, window) == Last(CAPACITY, History(es))
    ensures !EverFull(es, window) ==>
      |LiveAfter(es, window)| < CAPACITY && LiveAfter(es, window) == InWindow(History(es), Now(es), window)
  {
    if |es| > 0 {
      var before, e := es[..|es| - 1], es[|es| - 1];
      assert AllPositive(History(before)) by {
        assert forall t | t in History(before) :: t in History(es);
      }
      LiveIsWindowUntilFull(before, window);
      LiveIsLatest(es, window);
      if EverFull(before, window) {
        assert e.TradeEvent? ==> e.trade in History(es);
        FullReact(LiveAfter(before, window), e, window);
      } else {
        HistoryInOrder(before);
        LiveIsLatest(before, window);
        WindowStep(History(before), LiveAfter(before, window), Now(before), e, window);
      }
    }
  }

  /** Below capacity, moving the clock on moves the live trades on with the window. */
  lemma EvictFollowsClock(h: seq<Trade>, live: seq<Trade>, earlier: int, now: u64, window: u64)
    requires InOrder(h, earlier) && earlier <= now
    requires |live| < CAPACITY && |live| <= |h| && live == Last(|live|, h) && live == InWindow(h, earlier, window)
    ensures Evict(live, now, window) == InWindow(h, now, window)
  {
    InOrderSuffix(h, |live|, earlier);
    EvictIsWindow(live, now, window);
    WindowOfWindow(h, earlier, now, window);
  }

  /** One event below capacity. */
  lemma WindowStep(h: seq<Trade>, live: seq<Trade>, earlier: int, e: Event, window: u64)
    requires InOrder(h, earlier) && earlier <= Time(e)
    requires |live| < CAPACITY && |live| <= |h| && live == Last(|live|, h) && live == InWindow(h, earlier, window)
    requires e.TradeEvent? ==> e.trade.quantity > 0
    ensures React(live, e, window)
         == InWindow(h + (if e.TradeEvent? then [e.trade] else []), Time(e), window)
  {
    EvictFollowsClock(h, live, earlier, Time(e), window);
    match e {
      case TradeEvent(t) =>
        assert (h + [t])[..|h|] == h;
        SumsOfSnoc(InWindow(h, Time(e), window), t);
      case QueryEvent(_) =>
        assert h + [] == h;
    }
  }

  /** The average the naive way: over all trades in the window at `now`. */
  function NaiveVwap(h: seq<Trade>, now: int, window: u64): int {
    var w := InWindow(h, now, window);
    if SumQ(w) == 0 then 0 else SumPQ(w) / SumQ(w)
  }

  /** Until the window first holds 1024 trades, the service answers every query with the exact
      average of the trades in the window, or 0 when there are none. */
  lemma VwapIsNaive(es: seq<Event>, now: u64, window: u64)
    requires Monotone(es + [QueryEvent(now)]) && AllPositive(History(es)) && NonNegativePrices(History(es))
    requires !EverFull(es, window)
    ensures Mean(Evict(LiveAfter(es, window), now, window)) == NaiveVwap(History(es), now, window)
  {
    var es' := es + [QueryEvent(now)];
    assert es'[..|es|] == es;
    assert History(es') == History(es);
    LiveIsWindowUntilFull(es', window);
    LiveIsLatest(es', window);
    var w := LiveAfter(es', window);
    assert forall t | t in w :: t in History(es);
    if SumQ(w) > 0 {
      MeanWithinPrices(w, 0, 0x7FFF_FFFF_FFFF_FFFF);
    }
  }

  lemma {:induction false} WindowKeepsNone(h: seq<Trade>, now: int, window: u64)
    requires forall t | t in h :: now - t.timestamp > window
    ensures InWindow(h, now, window) == []
  {
    if |h| > 0 {
      WindowKeepsNone(h[..|h| - 1], now, window);
      assert h[|h| - 1] in h;
    }
  }

  /** Once full, the service still averages trades long after the last of them left the window. */
  lemma FullAnswersStale(es: seq<Event>, now: u64, window: u64)
    requires Monotone(es) && AllPositive(History(es)) && (forall t | t in History(es) :: t.price > 0)
    requires EverFull(es, window) && now > Now(es) + window
    ensures Mean(Evict(LiveAfter(es, window), now, window)) >= 1
    ensures NaiveVwap(History(es), now, window) == 0
  {
    var h, live := History(es), LiveAfter(es, window);
    LiveIsWindowUntilFull(es, window);
    assert forall t | t in live :: t in h;
    PositiveSum(live);
    MeanWithinPrices(live, 1, 0x7FFF_FFFF_FFFF_FFFF);
    HistorySorted(es);
    WindowKeepsNone(h, now, window);
  }

  /** Every later query is answered with the exact window average if and only if the window has
      never held 1024 trades at an add. */
  lemma ExactIffNeverFull(es: seq<Event>, window: u64)
    requires Monotone(es) && AllPositive(History(es)) && (forall t | t in History(es) :: t.price > 0)
    requires Now(es) + window + 1 < 0x1_0000_0000_0000_0000
    ensures (forall now: u64 | Now(es) <= now ::
               Mean(Evict(LiveAfter(es, window), now, window)) == NaiveVwap(History(es), now, window))
        <==> !EverFull(es, window)
  {
    if EverFull(es, window) {
      FullAnswersStale(es, Now(es) + window + 1, window);
    } else {
      forall now: u64 | Now(es) <= now
        ensures Mean(Evict(LiveAfter(es, window), now, window)) == NaiveVwap(History(es), now, window)
      {
        MonotoneSnoc(es, QueryEvent(now));
        VwapIsNaive(es, now, window);
      }
    }
  }

  lemma MonotoneSnoc(es: seq<Event>, e: Event)
    requires Monotone(es) && Now(es) <= Time(e)
    ensures Monotone(es + [e])
  {
  }

  // ---- A ring that fills up ----

  const ONE := Gcmd.Trade(BLANK, 0, 1, 1, AggressorUnknown, 0)

  function Ones(n: nat): seq<Event> {
    seq(n, _ => TradeEvent(ONE))
  }

  lemma {:induction false} OnesHistory(n: nat)
    ensures History(Ones(n)) == seq(n, _ => ONE)
  {
    if n > 0 {
      assert Ones(n)[..n - 1] == Ones(n - 1);
      OnesHistory(n - 1);
    }
  }

  lemma {:induction false} OnesNeverFull(n: nat, window: u64)
    requires n < 1024
    ensures !EverFull(Ones(n), window)
  {
    if n > 0 {
      assert Ones(n)[..n - 1] == Ones(n - 1);
      OnesNeverFull(n - 1, window);
      OnesHistory(n);
      assert forall t | t in History(Ones(n)) :: t == ONE;
      WindowKeepsAll(History(Ones(n)), 0, window);
    }
  }

  lemma OnesLive(n: nat, window: u64)
    requires n < 1024
    ensures |LiveAfter(Ones(n), window)| == n
  {
    OnesHistory(n);
    OnesNeverFull(n, window);
    assert forall t | t in History(Ones(n)) :: t == ONE;
    LiveIsWindowUntilFull(Ones(n), window);
    WindowKeepsAll(History(Ones(n)), 0, window);
  }

  /** 1024 trades at one time, and not 1023, fill the ring, whatever the window: the regime of the full
      ring is reached, and a query after the window gets a price where the definition gives 0. */
  lemma FullHappens(window: u64, now: u64)
    requires now > window
    ensures !EverFull(Ones(1023), window) && |LiveAfter(Ones(1023), window)| == 1023
    ensures var es := Ones(1024);
      && Monotone(es) && AllPositive(History(es)) && (forall t | t in History(es) :: t.price > 0)
      && EverFull(es, window) && |LiveAfter(es, window)| == 1024
      && Mean(Evict(LiveAfter(es, window), now, window)) >= 1
      && NaiveVwap(History(es), now, window) == 0
  {
    var es := Ones(1024);
    OnesHistory(1024);
    OnesNeverFull(1023, window);
    OnesLive(1023, window);
    assert forall t | t in History(es) :: t == ONE;
    WindowKeepsAll(History(es), 0, window);
    assert EverFull(es, window);
    LiveIsWindowUntilFull(es, window);
    FullAnswersStale(es, now, window);
  }
}
