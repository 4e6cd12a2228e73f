/** The rolling average for any quantities, zero included: as long as the ring has not been full, what
    it has let go of does not count and what it holds is the window. */
module VwapQuantities {
  import opened Bytes
  import opened Gcmd
  import opened Vwap
  import opened VwapTheory

  /** After none of the events are all slots live. */
  predicate NeverFull(es: seq<Event>, window: u64) {
    forall k | 0 <= k <= |es| :: |LiveAfter(es[..k], window)| < CAPACITY
  }

  /** None of these trades counts: out of the window, or without quantity. */
  predicate NoneCounts(ts: seq<Trade>, now: int, window: u64) {
    forall t | t in ts && t.quantity > 0 :: now - t.timestamp > window
  }

  /** All of these do, or none has quantity. */
  predicate AllCount(ts: seq<Trade>, now: int, window: u64) {
    SumQ(ts) == 0 || now - ts[0].timestamp <= window
  }

  predicate NoneAfter(ts: seq<Trade>, now: int) {
    forall t | t in ts :: t.timestamp <= now
  }

  /** Eviction takes trades that do not count off the old end, until all that are left do. */
  lemma {:induction false} EvictSplits(live: seq<Trade>, now: u64, window: u64) returns (out: seq<Trade>)
    requires |live| < CAPACITY && NoneAfter(live, now)
    ensures live == out + Evict(live, now, window)
    ensures NoneCounts(out, now, window) && AllCount(Evict(live, now, window), now, window)
  {
    if |live| > 0 && SumQ(live) > 0 && Stale(live[0], now, window) {
      assert live[0] in live && NoneAfter(live[1..], now);
      out := EvictSplits(live[1..], now, window);
      out := [live[0]] + out;
    } else {
      out := [];
      if |live| > 0 { assert live[0] in live; }
    }
  }

  lemma {:induction false} InWindowAppend(a: seq<Trade>, b: seq<Trade>, now: int, window: u64)
    ensures InWindow(a + b, now, window) == InWindow(a, now, window) + InWindow(b, now, window)
  {
    if |b| == 0 {
      assert a + b == a;
    } else {
      assert (a + b)[..|a + b| - 1] == a + b[..|b| - 1];
      InWindowAppend(a, b[..|b| - 1], now, window);
    }
  }

  lemma {:induction false} SumsAppend(a: seq<Trade>, b: seq<Trade>)
    ensures SumQ(a + b) == SumQ(a) + SumQ(b) && SumPQ(a + b) == SumPQ(a) + SumPQ(b)
  {
    if |a| == 0 {
      assert a + b == b;
    } else {
      assert (a + b)[1..] == a[1..] + b;
      SumsAppend(a[1..], b);
    }
  }

  lemma {:induction false} NoneInWindow(ts: seq<Trade>, now: int, window: u64)
    requires NoneCounts(ts, now, window)
    ensures SumQ(InWindow(ts, now, window)) == 0 && SumPQ(InWindow(ts, now, window)) == 0
  {
    if |ts| > 0 {
      var k := |ts| - 1;
      var w := InWindow(ts[..k], now, window);
      assert ts[k] in ts && forall t | t in ts[..k] :: t in ts;
      NoneInWindow(ts[..k], now, window);
      if now - ts[k].timestamp <= window {
        SumsOfSnoc(w, ts[k]);
      } else {
        assert w + [] == w;
      }
    }
  }

  lemma {:induction false} NoQuantity(ts: seq<Trade>, now: int, window: u64)
    requires SumQ(ts) == 0
    ensures NoneCounts(ts, now, window)
  {
    if |ts| > 0 {
      NoQuantity(ts[1..], now, window);
      assert ts == [ts[0]] + ts[1..];
    }
  }

  lemma AllInWindow(live: seq<Trade>, now: u64, window: u64)
    requires AllCount(live, now, window) && Sorted(live)
    ensures var w := InWindow(live, now, window); SumQ(w) == SumQ(live) && SumPQ(w) == SumPQ(live)
  {
    if SumQ(live) == 0 {
      NoQuantity(live, now, window);
      NoneInWindow(live, now, window);
      EmptiedSums(live);
    } else {
      FreshFirstKeepsAll(live, now, window);
    }
  }

  /** Trades that do not count, then live ones that do: the window's sums are the live sums. */
  lemma SumsOfWindow(out: seq<Trade>, live: seq<Trade>, now: u64, window: u64)
    requires NoneCounts(out, now, window) && AllCount(live, now, window) && Sorted(live)
    ensures var w := InWindow(out + live, now, window); SumQ(w) == SumQ(live) && SumPQ(w) == SumPQ(live)
  {
    InWindowAppend(out, live, now, window);
    NoneInWindow(out, now, window);
    AllInWindow(live, now, window);
    SumsAppend(InWindow(out, now, window), InWindow(live, now, window));
  }

  /** A ring that fills up without quantity loses only trades that do not count. */
  lemma AddSplits(live: seq<Trade>, t: Trade, now: int, window: u64) returns (out: seq<Trade>)
    ensures live + [t] == out + Add(live, t) && NoneCounts(out, now, window)
  {
    if |live + [t]| == CAPACITY && SumQ(live + [t]) == 0 {
      out := live + [t];
      NoQuantity(out, now, window);
    } else {
      out := [];
    }
  }

  lemma NoneCountsJoin(a: seq<Trade>, b: seq<Trade>, earlier: int, now: int, window: u64)
    requires earlier <= now && NoneCounts(a, earlier, window) && NoneCounts(b, now, window)
    ensures NoneCounts(a + b, now, window)
  {
  }

  /** One event: the ring lets go only of trades that do not count. */
  lemma EventSplits(live: seq<Trade>, e: Event, window: u64) returns (out: seq<Trade>)
    requires |live| < CAPACITY && NoneAfter(live, Time(e))
    ensures live + (if e.TradeEvent? then [e.trade] else []) == out + React(live, e, window)
    ensures NoneCounts(out, Time(e), window)
  {
    var l := Evict(live, Time(e), window);
    out := EvictSplits(live, Time(e), window);
    match e {
      case QueryEvent(_) =>
        assert live + [] == live;
      case TradeEvent(t) =>
        out := TradeSplits(live, out, l, t, Time(e), window);
    }
  }

  lemma TradeSplits(live: seq<Trade>, out: seq<Trade>, l: seq<Trade>, t: Trade, now: int, window: u64)
    returns (all: seq<Trade>)
    requires live == out + l && NoneCounts(out, now, window)
    ensures live + [t] == all + Add(l, t) && NoneCounts(all, now, window)
  {
    var more := AddSplits(l, t, now, window);
    all := out + more;
    NoneCountsJoin(out, more, now, now, window);
    assert out + l + [t] == out + (l + [t]) && out + more + Add(l, t) == out + (more + Add(l, t));
  }

  lemma HistoryLast(es: seq<Event>)
    requires |es| > 0
    ensures var e := es[|es| - 1];
      History(es) == History(es[..|es| - 1]) + (if e.TradeEvent? then [e.trade] else [])
  {
  }

  lemma NoneAfterPart(h: seq<Trade>, out: seq<Trade>, live: seq<Trade>, now: int)
    requires h == out + live && NoneAfter(h, now)
    ensures NoneAfter(live, now)
  {
    assert forall t | t in live :: t in h;
  }

  lemma MonotoneInit(es: seq<Event>)
    requires Monotone(es) && |es| > 0
    ensures Monotone(es[..|es| - 1]) && Now(es[..|es| - 1]) <= Time(es[|es| - 1])
  {
  }

  lemma NeverFullInit(es: seq<Event>, window: u64)
    requires NeverFull(es, window)
    ensures |LiveAfter(es, window)| < CAPACITY
    ensures |es| > 0 ==> NeverFull(es[..|es| - 1], window)
  {
    assert es[..|es|] == es;
    if |es| > 0 {
      var before := es[..|es| - 1];
      forall k | 0 <= k <= |before| ensures |LiveAfter(before[..k], window)| < CAPACITY {
        assert before[..k] == es[..k];
      }
    }
  }

  /** The history is trades that do not count, then the live ones. */
  lemma {:induction false} HistorySplits(es: seq<Event>, window: u64) returns (out: seq<Trade>)
    requires Monotone(es) && NeverFull(es, window)
    ensures History(es) == out + LiveAfter(es, window) && NoneCounts(out, Now(es), window)
  {
    if |es| == 0 {
      out := [];
    } else {
      var before, e := es[..|es| - 1], es[|es| - 1];
      MonotoneInit(es);
      NeverFullInit(es, window);
      NeverFullInit(before, window);
      var gone := HistorySplits(before, window);
      HistorySorted(before);
      var live := LiveAfter(before, window);
      NoneAfterPart(History(before), gone, live, Time(e));
      var more := EventSplits(live, e, window);
      out := gone + more;
      NoneCountsJoin(gone, more, Now(before), Time(e), window);
      HistoryLast(es);
      var added := if e.TradeEvent? then [e.trade] else [];
      assert gone + live + added == gone + (live + added);
      assert gone + more + React(live, e, window) == gone + (more + React(live, e, window));
    }
  }

  lemma MonotonePrefix(es: seq<Event>, e: Event)
    requires Monotone(es + [e])
    ensures Monotone(es) && Now(es) <= Time(e)
  {
    var all := es + [e];
    assert all[..|all| - 1] == es;
    MonotoneInit(all);
  }

  lemma SortedSuffix(out: seq<Trade>, live: seq<Trade>)
    requires Sorted(out + live)
    ensures Sorted(live)
  {
    assert forall i | 0 <= i < |live| :: live[i] == (out + live)[|out| + i];
  }

  /** The live sums are the window's, after the eviction that precedes every answer. */
  lemma LiveSumsAreWindow(es: seq<Event>, now: u64, window: u64)
    requires Monotone(es + [QueryEvent(now)]) && NeverFull(es, window)
    ensures var l, w := Evict(LiveAfter(es, window), now, window), InWindow(History(es), now, window);
      SumQ(l) == SumQ(w) && SumPQ(l) == SumPQ(w)
  {
    MonotonePrefix(es, QueryEvent(now));
    NeverFullInit(es, window);
    HistorySorted(es);
    var gone := HistorySplits(es, window);
    SplitSums(History(es), gone, LiveAfter(es, window), Now(es), now, window);
  }

  lemma SplitSums(h: seq<Trade>, gone: seq<Trade>, live: seq<Trade>, earlier: int, now: u64, window: u64)
    requires h == gone + live && |live| < CAPACITY && Sorted(h) && NoneAfter(h, earlier) && earlier <= now
    requires NoneCounts(gone, earlier, window)
    ensures var l, w := Evict(live, now, window), InWindow(h, now, window);
      SumQ(l) == SumQ(w) && SumPQ(l) == SumPQ(w)
  {
    NoneAfterPart(h, gone, live, now);
    var more := EvictSplits(live, now, window);
    var l := Evict(live, now, window);
    NoneCountsJoin(gone, more, earlier, now, window);
    assert h == gone + more + l;
    SortedSuffix(gone + more, l);
    SumsOfWindow(gone + more, l, now, window);
  }

  lemma LiveFits(es: seq<Event>, now: u64, window: u64)
    requires NonNegativePrices(History(es))
    ensures var l := Evict(LiveAfter(es, window), now, window); |l| <= CAPACITY && NonNegativePrices(l)
  {
    var live, h := LiveAfter(es, window), History(es);
    LiveIsLatest(es, window);
    EvictIsSuffix(live, now, window);
    assert forall t | t in live :: t in h;
  }

  /** Whatever the quantities, as long as the ring has not been full the service answers every query
      with the exact average of the trades in the window, 0 if they have no quantity. */
  lemma VwapWhileNotFull(es: seq<Event>, now: u64, window: u64)
    requires Monotone(es + [QueryEvent(now)]) && NonNegativePrices(History(es)) && NeverFull(es, window)
    ensures Mean(Evict(LiveAfter(es, window), now, window)) == NaiveVwap(History(es), now, window)
  {
    var l := Evict(LiveAfter(es, window), now, window);
    LiveSumsAreWindow(es, now, window);
    LiveFits(es, now, window);
    if SumQ(l) > 0 {
      MeanWithinPrices(l, 0, 0x7FFF_FFFF_FFFF_FFFF);
    }
  }

  /** With positive quantities, a window that never held 1024 trades means a ring never full. */
  lemma {:induction false} NotEverFull(es: seq<Event>, window: u64)
    requires Monotone(es) && AllPositive(History(es)) && !EverFull(es, window)
    ensures NeverFull(es, window)
  {
    LiveIsWindowUntilFull(es, window);
    if |es| == 0 {
      assert es[..0] == es;
    } else {
      var before := es[..|es| - 1];
      MonotoneInit(es);
      HistoryLast(es);
      assert forall t | t in History(before) :: t in History(es);
      NotEverFull(before, window);
      forall k | 0 <= k <= |es| ensures |LiveAfter(es[..k], window)| < CAPACITY {
        if k == |es| {
          assert es[..k] == es;
        } else {
          assert before[..k] == es[..k];
        }
      }
    }
  }
}
