/** The few facts about products and quotients the proofs need. */
module Arithmetic {

  lemma MulMono(q: nat, a: int, b: int)
    requires a <= b
    ensures q * a <= q * b
  {
    assert q * (b - a) >= 0;
  }

  lemma MulCancel(q: nat, a: int, b: int)
    requires q > 0 && q * a <= q * b
    ensures a <= b
  {
    if a > b {
      MulMono(q, b + 1, a);
      Distribute(b, 1, q);
    }
  }

  lemma Distribute(a: int, b: int, c: int)
    ensures (a + b) * c == a * c + b * c
    ensures c * (a + b) == c * a + c * b
  {
  }

  lemma QuotientBounds(x: int, d: nat)
    requires d > 0
    ensures d * (x / d) <= x < d * (x / d) + d
  {
  }

  /** The quotient is the only number that fits. */
  lemma QuotientUnique(x: int, d: nat, a: int)
    requires d > 0 && d * a <= x < d * a + d
    ensures x / d == a
  {
    var k := x / d;
    QuotientBounds(x, d);
    if k < a { MulMono(d, k + 1, a); Distribute(k, 1, d); }
    if a < k { MulMono(d, a + 1, k); Distribute(a, 1, d); }
  }

  lemma QuotientAtLeast(x: int, d: nat, k: int)
    requires d > 0 && d * k <= x
    ensures k <= x / d
  {
    QuotientBounds(x, d);
    if x / d < k { MulMono(d, x / d + 1, k); Distribute(x / d, 1, d); }
  }

  lemma QuotientWithin(x: int, d: nat, lo: int, hi: int)
    requires d > 0 && d * lo <= x <= d * hi
    ensures lo <= x / d <= hi
  {
    QuotientAtLeast(x, d, lo);
    QuotientBounds(x, d);
    MulCancel(d, x / d, hi);
  }
}
