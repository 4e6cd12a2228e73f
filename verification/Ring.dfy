/** Reading a run of consecutive slots off a ring. */
module Ring {

  /** An index less than two turns round a ring of `n` slots, brought back into it. */
  function Wrap(i: nat, n: nat): nat {
    if i < n then i else i - n
  }

  lemma ModIsWrap(i: nat, n: nat)
    requires n > 0 && i < 2 * n
    ensures i % n == Wrap(i, n)
  {
    if i >= n {
      assert i == n + (i - n);
      assert (i - n) % n == i - n;
      assert i % n == (i - n) % n;
    }
  }

  /** The source's `next`: one slot on, round the end if need be. */
  function Next(index: nat, slotCount: nat): (r: nat)
    requires index < slotCount
    ensures r == Wrap(index + 1, slotCount)
  {
    ModIsWrap(index + 1, slotCount);
    (index + 1) % slotCount
  }

  /** The `count` values that start in slot `from`, going round the end if need be. */
  function Cyclic<T>(buf: seq<T>, from: nat, count: nat): (s: seq<T>)
    requires from < |buf| && count <= |buf|
    ensures |s| == count
  {
    if from + count <= |buf| then buf[from..from + count]
    else buf[from..] + buf[..from + count - |buf|]
  }

  lemma CyclicAt<T>(buf: seq<T>, from: nat, count: nat, i: nat)
    requires from < |buf| && i < count <= |buf|
    ensures Cyclic(buf, from, count)[i] == buf[Wrap(from + i, |buf|)]
  {
  }

  /** Writing the slot behind the run makes it one longer. */
  lemma CyclicPush<T>(buf: seq<T>, from: nat, count: nat, v: T)
    requires from < |buf| && count < |buf|
    ensures var at := Wrap(from + count, |buf|);
      at < |buf| && Cyclic(buf[at := v], from, count + 1) == Cyclic(buf, from, count) + [v]
  {
    var at := Wrap(from + count, |buf|);
    var after, expected := Cyclic(buf[at := v], from, count + 1), Cyclic(buf, from, count) + [v];
    forall i | 0 <= i < count + 1 ensures after[i] == expected[i] {
      CyclicAt(buf[at := v], from, count + 1, i);
      if i < count {
        CyclicAt(buf, from, count, i);
      }
    }
  }

  /** What lies between two indices; equal ones mean nothing does. */
  function Between<T>(buf: seq<T>, tail: nat, head: nat): (s: seq<T>)
    requires tail < |buf| && head < |buf|
    ensures |s| == if tail <= head then head - tail else head + |buf| - tail
  {
    Cyclic(buf, tail, if tail <= head then head - tail else head + |buf| - tail)
  }

  lemma BetweenPush<T>(buf: seq<T>, tail: nat, head: nat, v: T)
    requires tail < |buf| && head < |buf| && Wrap(head + 1, |buf|) != tail
    ensures Between(buf[head := v], tail, Wrap(head + 1, |buf|)) == Between(buf, tail, head) + [v]
  {
    CyclicPush(buf, tail, |Between(buf, tail, head)|, v);
  }

  /** The slot left behind may hold anything. */
  lemma BetweenPop<T>(buf: seq<T>, tail: nat, head: nat, left: T)
    requires tail < |buf| && head < |buf| && head != tail
    ensures Wrap(tail + 1, |buf|) < |buf|
    ensures Between(buf, tail, head) == [buf[tail]] + Between(buf[tail := left], Wrap(tail + 1, |buf|), head)
  {
    CyclicPop(buf, tail, |Between(buf, tail, head)|);
    assert Between(buf[tail := left], Wrap(tail + 1, |buf|), head) == Between(buf, Wrap(tail + 1, |buf|), head);
  }

  /** Dropping the first slot of the run drops its first value. */
  lemma CyclicPop<T>(buf: seq<T>, from: nat, count: nat)
    requires from < |buf| && 0 < count <= |buf|
    ensures var next := Wrap(from + 1, |buf|);
      next < |buf| && Cyclic(buf, from, count) == [buf[from]] + Cyclic(buf, next, count - 1)
  {
    var next := Wrap(from + 1, |buf|);
    var all, rest := Cyclic(buf, from, count), Cyclic(buf, next, count - 1);
    forall i | 0 <= i < count ensures all[i] == ([buf[from]] + rest)[i] {
      CyclicAt(buf, from, count, i);
      if i > 0 {
        CyclicAt(buf, next, count - 1, i - 1);
      }
    }
  }
}
