/** The rolling volume-weighted average price: a ring of trades with incrementally kept sums. */
module Vwap {
  import opened Bytes
  import opened Gcmd
  import opened Ring

  const CAPACITY := 1024

  datatype OverflowPolicy = RejectNew | OverwriteOldest | Throw

  // ---- Sums over a list of trades ----

  function Notional(t: Trade): int {
    t.quantity * t.price
  }

  function SumQ(ts: seq<Trade>): nat {
    if |ts| == 0 then 0 else ts[0].quantity + SumQ(ts[1..])
  }

  function SumPQ(ts: seq<Trade>): int {
    if |ts| == 0 then 0 else Notional(ts[0]) + SumPQ(ts[1..])
  }

  lemma {:induction false} SumsOfSnoc(ts: seq<Trade>, t: Trade)
    ensures SumQ(ts + [t]) == SumQ(ts) + t.quantity
    ensures SumPQ(ts + [t]) == SumPQ(ts) + Notional(t)
  {
    if |ts| > 0 {
      assert (ts + [t])[1..] == ts[1..] + [t];
      SumsOfSnoc(ts[1..], t);
    } else {
      assert (ts + [t])[1..] == [];
    }
  }

  /** 1024 slots keep the quantity sum far inside 64 bits. */
  lemma {:induction false} SumQBound(ts: seq<Trade>)
    ensures SumQ(ts) <= |ts| * 0xFFFF_FFFF
  {
    if |ts| > 0 { SumQBound(ts[1..]); }
  }

  predicate AllPositive(ts: seq<Trade>) {
    forall t | t in ts :: t.quantity > 0
  }

  predicate NonNegativePrices(ts: seq<Trade>) {
    forall t | t in ts :: t.price >= 0
  }

  lemma {:induction false} PositiveSum(ts: seq<Trade>)
    requires AllPositive(ts)
    ensures SumQ(ts) == 0 <==> ts == []
  {
    if |ts| > 0 { assert ts[0] in ts; }
  }

  /** What getVWAP computes from the sums, in the source's integer widths. */
  function Mean(ts: seq<Trade>): u64 {
    if SumQ(ts) == 0 then 0 else Wrap64(Wrap128(SumPQ(ts)) / SumQ(ts))
  }

  // ---- The service on lists: the live trades, oldest first ----

  predicate Stale(t: Trade, now: u64, window: u64) {
    Wrap64(now - t.timestamp) > window
  }

  /** Eviction from the old end; nothing happens to a full ring or one without quantity. */
  function Evict(live: seq<Trade>, now: u64, window: u64): (r: seq<Trade>)
    ensures |r| <= |live|
  {
    if 0 < |live| < CAPACITY && SumQ(live) > 0 && Stale(live[0], now, window)
    then Evict(live[1..], now, window)
    else live
  }

  /** Appending; a ring that fills up without any quantity in it reads as empty from then on. */
  function Add(live: seq<Trade>, t: Trade): seq<Trade> {
    var l := live + [t];
    if |l| == CAPACITY && SumQ(l) == 0 then [] else l
  }

  datatype Handled = Handled(live: seq<Trade>, thrown: bool)

  function Handle(live: seq<Trade>, t: Trade, policy: OverflowPolicy, window: u64): Handled {
    var l := Evict(live, t.timestamp, window);
    if |l| < CAPACITY then Handled(Add(l, t), false)
    else
      match policy
      case RejectNew => Handled(l, false)
      case OverwriteOldest => Handled(Add(l[1..], t), false)
      case Throw => Handled(l, true)
  }

  lemma Wrap128Sum(a: int, x: int)
    ensures Wrap128(Wrap128(a) + x) == Wrap128(a + x)
    ensures Wrap128(Wrap128(a) - x) == Wrap128(a - x)
  {
  }

  // ---- The ring the list is kept in ----

  /** How many slots are live; head == tail is read as full exactly when there is quantity. */
  function LiveCount(head: nat, tail: nat, totalQuantity: nat): (n: nat)
    requires head < CAPACITY && tail < CAPACITY
    ensures n <= CAPACITY && head == Wrap(tail + n, CAPACITY)
  {
    if tail < head then head - tail
    else if head < tail then head + CAPACITY - tail
    else if totalQuantity > 0 then CAPACITY
    else 0
  }

  function LiveIn(slots: seq<Trade>, head: nat, tail: nat, totalQuantity: nat): (ts: seq<Trade>)
    requires |slots| == CAPACITY && head < CAPACITY && tail < CAPACITY
    ensures |ts| <= CAPACITY
  {
    Cyclic(slots, tail, LiveCount(head, tail, totalQuantity))
  }

  predicate SumsMatch(ts: seq<Trade>, totalQuantity: nat, totalPricedQuantity: nat) {
    totalQuantity == SumQ(ts) && totalPricedQuantity == Wrap128(SumPQ(ts))
  }

  lemma SumsAfterAdd(ts: seq<Trade>, t: Trade, tq: nat, tpq: nat)
    requires |ts| < CAPACITY && SumsMatch(ts, tq, tpq)
    ensures SumsMatch(ts + [t], Wrap64(tq + t.quantity), Wrap128(tpq + Notional(t)))
  {
    SumsOfSnoc(ts, t);
    SumQBound(ts);
    Wrap128Sum(SumPQ(ts), Notional(t));
  }

  lemma SumsAfterRemove(ts: seq<Trade>, tq: nat, tpq: nat)
    requires 0 < |ts| <= CAPACITY && SumsMatch(ts, tq, tpq)
    ensures SumsMatch(ts[1..], Wrap64(tq - ts[0].quantity), Wrap128(tpq - Notional(ts[0])))
  {
    SumQBound(ts);
    Wrap128Sum(SumPQ(ts), Notional(ts[0]));
  }

  /** Without quantity there is no notional either: reading such a ring as empty changes no sum. */
  lemma {:induction false} EmptiedSums(ts: seq<Trade>)
    ensures SumQ(ts) == 0 ==> SumPQ(ts) == 0
  {
    if |ts| > 0 { EmptiedSums(ts[1..]); }
  }

  lemma RingAfterAdd(slots: seq<Trade>, head: nat, tail: nat, tq: nat, t: Trade, tq': nat)
    requires |slots| == CAPACITY && head < CAPACITY && tail < CAPACITY
    requires |LiveIn(slots, head, tail, tq)| < CAPACITY
    requires tq' == SumQ(LiveIn(slots, head, tail, tq) + [t])
    ensures (head + 1) % CAPACITY < CAPACITY
    ensures LiveIn(slots[head := t], (head + 1) % CAPACITY, tail, tq') == Add(LiveIn(slots, head, tail, tq), t)
  {
    ModIsWrap(head + 1, CAPACITY);
    CyclicPush(slots, tail, LiveCount(head, tail, tq), t);
  }

  lemma RingAfterRemove(slots: seq<Trade>, head: nat, tail: nat, tq: nat, tq': nat)
    requires |slots| == CAPACITY && head < CAPACITY && tail < CAPACITY
    requires LiveIn(slots, head, tail, tq) != []
    requires tq' == SumQ(LiveIn(slots, head, tail, tq)[1..])
    ensures (tail + 1) % CAPACITY < CAPACITY && slots[tail] == LiveIn(slots, head, tail, tq)[0]
    ensures LiveIn(slots, head, (tail + 1) % CAPACITY, tq') == LiveIn(slots, head, tail, tq)[1..]
  {
    var n := LiveCount(head, tail, tq);
    ModIsWrap(tail + 1, CAPACITY);
    CyclicPop(slots, tail, n);
    assert LiveIn(slots, head, tail, tq)[1..] == Cyclic(slots, Wrap(tail + 1, CAPACITY), n - 1);
  }

  lemma RemoveKeepsSums(slots: seq<Trade>, head: nat, tail: nat, tq: nat, tpq: nat)
    requires |slots| == CAPACITY && head < CAPACITY && tail < CAPACITY
    requires var live := LiveIn(slots, head, tail, tq); live != [] && SumsMatch(live, tq, tpq)
    ensures var live, oldest := LiveIn(slots, head, tail, tq), slots[tail];
      var tq', tpq', tail' := Wrap64(tq - oldest.quantity), Wrap128(tpq - Notional(oldest)), (tail + 1) % CAPACITY;
      && tail' < CAPACITY
      && LiveIn(slots, head, tail', tq') == live[1..]
      && SumsMatch(live[1..], tq', tpq')
  {
    var live := LiveIn(slots, head, tail, tq);
    SumsAfterRemove(live, tq, tpq);
    RingAfterRemove(slots, head, tail, tq, SumQ(live[1..]));
  }

  lemma EmptyExactlyWhen(slots: seq<Trade>, head: nat, tail: nat, tq: nat)
    requires |slots| == CAPACITY && head < CAPACITY && tail < CAPACITY
    ensures LiveIn(slots, head, tail, tq) == [] <==> head == tail && tq == 0
  {
  }

  class VWAPService {
    const rollingWindowSizeMs: u64
    const trades: array<Trade>
    var totalPricedQuantity: nat
    var totalQuantity: u64
    var head: nat
    var tail: nat

    ghost predicate Shape()
      reads this
    {
      trades.Length == CAPACITY && head < CAPACITY && tail < CAPACITY
    }

    ghost function Live(): (ts: seq<Trade>)
      requires Shape()
      reads this, trades
      ensures |ts| <= CAPACITY
    {
      LiveIn(trades[..], head, tail, totalQuantity)
    }

    ghost predicate Valid()
      reads this, trades
    {
      Shape() && SumsMatch(Live(), totalQuantity, totalPricedQuantity)
    }

    constructor (window: u64)
      ensures Valid() && fresh(trades) && Live() == [] && rollingWindowSizeMs == window
    {
      rollingWindowSizeMs := window;
      trades := new Trade[CAPACITY];
      totalPricedQuantity, totalQuantity, head, tail := 0, 0, 0, 0;
    }

    method AddTrade(trade: Trade)
      requires Valid() && |Live()| < CAPACITY
      modifies this, trades
      ensures Valid() && Live() == Add(old(Live()), trade)
    {
      ghost var slots, live := trades[..], Live();
      SumsAfterAdd(live, trade, totalQuantity, totalPricedQuantity);
      RingAfterAdd(slots, head, tail, totalQuantity, trade, SumQ(live + [trade]));
      trades[head] := trade;
      assert trades[..] == slots[head := trade];
      head := (head + 1) % CAPACITY;
      totalQuantity := Wrap64(totalQuantity + trade.quantity);
      totalPricedQuantity := Wrap128(totalPricedQuantity + Notional(trade));
      EmptiedSums(live + [trade]);
    }

    method RemoveOldestTrade()
      requires Valid()
      modifies this
      ensures Valid() && Live() == if old(Live()) == [] then [] else old(Live())[1..]
    {
      ghost var slots, live := trades[..], Live();
      EmptyExactlyWhen(slots, head, tail, totalQuantity);
      if head == tail && totalQuantity == 0 {
        return;
      }
      assert live != [];
      RemoveKeepsSums(slots, head, tail, totalQuantity, totalPricedQuantity);
      var oldestTrade := trades[tail];
      Release(Wrap64(totalQuantity - oldestTrade.quantity), Wrap128(totalPricedQuantity - Notional(oldestTrade)),
              (tail + 1) % CAPACITY, live[1..]);
    }

    /** The three assignments that let the oldest slot go. */
    method Release(quantity: u64, pricedQuantity: nat, next: nat, ghost rest: seq<Trade>)
      requires Shape() && next < CAPACITY
      requires LiveIn(trades[..], head, next, quantity) == rest && SumsMatch(rest, quantity, pricedQuantity)
      modifies this`totalQuantity, this`totalPricedQuantity, this`tail
      ensures Valid() && Live() == rest
    {
      totalQuantity := quantity;
      totalPricedQuantity := pricedQuantity;
      tail := next;
    }

    method RemoveOldTrades(now: u64)
      requires Valid()
      modifies this
      ensures Valid() && Live() == Evict(old(Live()), now, rollingWindowSizeMs)
    {
      while head != tail && totalQuantity > 0
        invariant Valid()
        invariant Evict(Live(), now, rollingWindowSizeMs) == Evict(old(Live()), now, rollingWindowSizeMs)
        decreases |Live()|
      {
        assert trades[tail] == Live()[0];
        if Wrap64(now - trades[tail].timestamp) <= rollingWindowSizeMs {
          break;
        }
        RemoveOldestTrade();
      }
    }

    method HandleTrade(trade: Trade, policy: OverflowPolicy) returns (thrown: bool)
      requires Valid()
      modifies this, trades
      ensures Valid()
      ensures Handled(Live(), thrown) == Handle(old(Live()), trade, policy, rollingWindowSizeMs)
      ensures var l := Evict(old(Live()), trade.timestamp, rollingWindowSizeMs);
        && (thrown <==> policy.Throw? && |l| == CAPACITY)
        && (|l| < CAPACITY ==> Live() == Add(l, trade))
        && (|l| == CAPACITY ==> Live() == if policy.OverwriteOldest? then Add(l[1..], trade) else l)
    {
      RemoveOldTrades(trade.timestamp);
      if head == tail && totalQuantity > 0 {
        match policy {
          case RejectNew => return false;
          case OverwriteOldest => RemoveOldestTrade();
          case Throw => return true;
        }
      }
      AddTrade(trade);
      return false;
    }

    method GetVWAP(now: u64) returns (vwap: u64)
      requires Valid()
      modifies this
      ensures Valid() && Live() == Evict(old(Live()), now, rollingWindowSizeMs)
      ensures vwap == Mean(Live())
    {
      RemoveOldTrades(now);
      if totalQuantity == 0 {
        return 0;
      }
      return Wrap64(totalPricedQuantity / totalQuantity);
    }
  }
}
