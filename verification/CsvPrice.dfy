/** The fixed-point price parser: decimal text to units of 1/10000, truncating. */
module CsvPrice {
  import opened Arithmetic
  import opened Bytes

  predicate IsDigit(c: char) {
    '0' <= c <= '9'
  }

  predicate AllDigits(s: string) {
    forall c | c in s :: IsDigit(c)
  }

  function Digit(c: char): int {
    c as int - '0' as int
  }

  /** The number a string of digits denotes. */
  function Val(s: string): int {
    if |s| == 0 then 0 else Val(s[..|s| - 1]) * 10 + Digit(s[|s| - 1])
  }

  function Pow10(n: nat): (r: nat)
    ensures r > 0
  {
    if n == 0 then 1 else 10 * Pow10(n - 1)
  }

  /** What stands before the first point. */
  function IntPart(s: string): string {
    if |s| == 0 then ""
    else
      var before, c := s[..|s| - 1], s[|s| - 1];
      if '.' in before || c == '.' then IntPart(before) else IntPart(before) + [c]
  }

  /** What stands after the first point, further points left out. */
  function FracPart(s: string): string {
    if |s| == 0 then ""
    else
      var before, c := s[..|s| - 1], s[|s| - 1];
      if '.' in before && c != '.' then FracPart(before) + [c] else FracPart(before)
  }

  /** At most four decimals count. */
  function Decimals(s: string): (d: string)
    ensures |d| <= 4
  {
    var f := FracPart(s);
    if |f| <= 4 then f else f[..4]
  }

  /** The price a field denotes, as the 64-bit result holds it. */
  function PriceOf(s: string): u64 {
    Wrap64(Val(IntPart(s) + Decimals(s)) * Pow10(4 - |Decimals(s)|))
  }

  lemma Wrap64Times10(a: int, d: int)
    ensures Wrap64(Wrap64(a) * 10 + d) == Wrap64(a * 10 + d)
  {
  }

  lemma ValSnoc(s: string, c: char)
    ensures Val(s + [c]) == Val(s) * 10 + Digit(c)
  {
    assert (s + [c])[..|s|] == s;
  }

  /** One more character of the field: what counts so far either stays or gains that character. */
  lemma PartsStep(s: string, c: char)
    ensures c == '.' ==> IntPart(s + [c]) == IntPart(s) && FracPart(s + [c]) == FracPart(s)
    ensures c != '.' && '.' !in s ==> IntPart(s + [c]) == IntPart(s) + [c] && FracPart(s + [c]) == FracPart(s)
    ensures c != '.' && '.' in s ==> IntPart(s + [c]) == IntPart(s) && FracPart(s + [c]) == FracPart(s) + [c]
  {
    assert (s + [c])[..|s|] == s;
  }

  lemma {:induction false} NoPointNoFrac(s: string)
    requires '.' !in s
    ensures FracPart(s) == ""
    ensures IntPart(s) == s
  {
    if |s| > 0 {
      NoPointNoFrac(s[..|s| - 1]);
    }
  }

  /** Four decimals seen: the rest of the field cannot change them. */
  lemma {:induction false} DecimalsSettle(s: string, k: nat)
    requires k <= |s| && '.' in s[..k] && |FracPart(s[..k])| >= 4
    ensures IntPart(s) == IntPart(s[..k]) && Decimals(s) == Decimals(s[..k])
    ensures |FracPart(s)| >= 4
  {
    if k == |s| {
      assert s[..k] == s;
    } else {
      var before := s[..|s| - 1];
      assert before[..k] == s[..k];
      DecimalsSettle(before, k);
      assert '.' in before;
      PartsStep(before, s[|s| - 1]);
      assert s == before + [s[|s| - 1]];
    }
  }

  /** The parser's variables after the characters `s`, none of which was cut off. */
  predicate CountsAs(s: string, value: u64, fracDigits: nat, sawPoint: bool) {
    && sawPoint == ('.' in s)
    && fracDigits == |FracPart(s)| <= 4
    && value == Wrap64(Val(IntPart(s) + FracPart(s)))
  }

  lemma PointStep(s: string, value: u64, fracDigits: nat, sawPoint: bool)
    requires CountsAs(s, value, fracDigits, sawPoint)
    ensures CountsAs(s + ['.'], value, fracDigits, true)
  {
    PartsStep(s, '.');
  }

  lemma DigitStep(s: string, c: char, value: u64, fracDigits: nat, sawPoint: bool)
    requires CountsAs(s, value, fracDigits, sawPoint) && c != '.' && !(sawPoint && fracDigits == 4)
    ensures CountsAs(s + [c], Wrap64(value * 10 + Digit(c)), if sawPoint then fracDigits + 1 else fracDigits, sawPoint)
  {
    PartsStep(s, c);
    DigitsGain(s, c);
    ValSnoc(IntPart(s) + FracPart(s), c);
    Wrap64Times10(Val(IntPart(s) + FracPart(s)), Digit(c));
  }

  lemma DigitsGain(s: string, c: char)
    requires c != '.'
    ensures IntPart(s + [c]) + FracPart(s + [c]) == IntPart(s) + FracPart(s) + [c]
  {
    PartsStep(s, c);
    if '.' !in s {
      NoPointNoFrac(s);
      assert IntPart(s) + [c] + "" == IntPart(s) + "" + [c];
    } else {
      assert IntPart(s) + (FracPart(s) + [c]) == IntPart(s) + FracPart(s) + [c];
    }
  }

  method ParsePrice(field: string) returns (value: u64)
    ensures value == PriceOf(field)
  {
    value := 0;
    var fracDigits: nat, sawPoint, i := 0, false, 0;
    while i < |field|
      invariant 0 <= i <= |field|
      invariant CountsAs(field[..i], value, fracDigits, sawPoint)
    {
      var c := field[i];
      assert field[..i + 1] == field[..i] + [c];
      if c == '.' {
        PointStep(field[..i], value, fracDigits, sawPoint);
        sawPoint := true;
      } else {
        if sawPoint && fracDigits == 4 {
          break;
        }
        DigitStep(field[..i], c, value, fracDigits, sawPoint);
        value := Wrap64(value * 10 + Digit(c));
        if sawPoint {
          fracDigits := fracDigits + 1;
        }
      }
      i := i + 1;
    }
    Settled(field, i, value, fracDigits, sawPoint);
    value := PadZeros(value, fracDigits, Val(IntPart(field) + Decimals(field)));
  }

  lemma Settled(s: string, k: nat, value: u64, fracDigits: nat, sawPoint: bool)
    requires k <= |s| && CountsAs(s[..k], value, fracDigits, sawPoint)
    requires k == |s| || (sawPoint && fracDigits == 4)
    ensures fracDigits == |Decimals(s)| && value == Wrap64(Val(IntPart(s) + Decimals(s)))
  {
    if k == |s| {
      assert s[..k] == s;
    } else {
      DecimalsSettle(s, k);
    }
  }

  /** The closing loop: a factor of ten for every decimal that is missing. */
  method PadZeros(start: u64, from: nat, ghost exact: int) returns (value: u64)
    requires from <= 4 && start == Wrap64(exact)
    ensures value == Wrap64(exact * Pow10(4 - from))
  {
    value := start;
    ghost var e := exact;
    for fracDigits := from to 4
      invariant value == Wrap64(e)
      invariant e * Pow10(4 - fracDigits) == exact * Pow10(4 - from)
    {
      Wrap64Times10(e, 0);
      Regroup10(e, Pow10(4 - fracDigits - 1));
      value := Wrap64(value * 10);
      e := e * 10;
    }
  }

  lemma Regroup10(e: int, p: int)
    ensures e * 10 * p == e * (10 * p)
  {
  }

  // ---- What the price means ----

  lemma {:induction false} ValConcat(a: string, b: string)
    ensures Val(a + b) == Val(a) * Pow10(|b|) + Val(b)
  {
    if |b| == 0 {
      assert a + b == a;
    } else {
      var k := |b| - 1;
      assert a + b == a + b[..k] + [b[k]];
      ValConcat(a, b[..k]);
      ValSnoc(a + b[..k], b[k]);
      assert Val(a) * Pow10(k) * 10 == Val(a) * (10 * Pow10(k));
    }
  }

  lemma {:induction false} ValBound(s: string)
    requires AllDigits(s)
    ensures 0 <= Val(s) < Pow10(|s|)
  {
    if |s| > 0 {
      assert s[|s| - 1] in s;
      assert forall c | c in s[..|s| - 1] :: c in s;
      ValBound(s[..|s| - 1]);
    }
  }

  lemma {:induction false} PartsOf(i: string, f: string)
    requires AllDigits(i) && AllDigits(f)
    ensures IntPart(i + "." + f) == i && FracPart(i + "." + f) == f
  {
    var s := i + "." + f;
    if |f| == 0 {
      assert '.' !in i;
      NoPointNoFrac(i);
      PartsStep(i, '.');
      assert s == i + ['.'];
    } else {
      var k := |f| - 1;
      assert f[k] in f;
      assert forall c | c in f[..k] :: c in f;
      PartsOf(i, f[..k]);
      assert s == i + "." + f[..k] + [f[k]];
      assert (i + "." + f[..k])[|i|] == '.';
      PartsStep(i + "." + f[..k], f[k]);
      assert f == f[..k] + [f[k]];
    }
  }

  /** The exact price: ten thousand times the decimal number, rounded down. */
  function Exact(digits: int, decimals: nat): int {
    digits * 10000 / Pow10(decimals)
  }

  lemma {:induction false} Pow10Sum(a: nat, b: nat)
    ensures Pow10(a + b) == Pow10(a) * Pow10(b)
  {
    if a > 0 {
      Pow10Sum(a - 1, b);
      TenTimes(Pow10(a - 1), Pow10(b));
    }
  }

  lemma TenTimes(p: nat, q: nat)
    ensures 10 * (p * q) == 10 * p * q
  {
  }

  lemma Pow10Is10000()
    ensures Pow10(4) == 10000
  {
    assert Pow10(1) == 10 && Pow10(2) == 100 && Pow10(3) == 1000;
  }

  /** Digits beyond the fourth decimal are a remainder that the division drops. */
  lemma DivideOut(a: int, r: int, p: nat, q: nat)
    requires p > 0 && q > 0 && 0 <= r < p
    ensures (a * p + r) * q / (q * p) == a
  {
    var x := (a * p + r) * q;
    Distribute(a * p, r, q);
    assert x == (q * p) * a + q * r;
    MulMono(q, 0, r);
    MulMono(q, r + 1, p);
    Distribute(r, 1, q);
    QuotientUnique(x, q * p, a);
  }

  /** With at most four decimals, padding is multiplication; beyond four, it is truncation. */
  lemma TruncationIsFloor(i: string, f: string)
    requires AllDigits(i) && AllDigits(f)
    ensures var f4 := if |f| <= 4 then f else f[..4];
      Val(i + f4) * Pow10(4 - |f4|) == Exact(Val(i + f), |f|)
  {
    Pow10Is10000();
    if |f| <= 4 {
      Pow10Sum(4 - |f|, |f|);
      var v, p, q := Val(i + f), Pow10(|f|), Pow10(4 - |f|);
      assert v * 10000 == p * (v * q);
      QuotientUnique(v * 10000, p, v * q);
    } else {
      var f4, tail := f[..4], f[4..];
      assert f == f4 + tail && i + f == i + f4 + tail;
      assert forall c | c in tail :: c in f;
      ValConcat(i + f4, tail);
      ValBound(tail);
      Pow10Sum(4, |tail|);
      DivideOut(Val(i + f4), Val(tail), Pow10(|tail|), 10000);
      assert Val(i + f4) * Pow10(0) == Val(i + f4);
    }
  }

  /** For every digit string, with or without decimals, the result is exactly the floor of ten
      thousand times the number, as a 64-bit value. */
  lemma PriceIsFloor(i: string, f: string)
    requires AllDigits(i) && AllDigits(f)
    ensures PriceOf(i + "." + f) == Wrap64(Exact(Val(i + f), |f|))
    ensures PriceOf(i) == Wrap64(Exact(Val(i), 0))
  {
    PartsOf(i, f);
    TruncationIsFloor(i, f);
    assert '.' !in i;
    NoPointNoFrac(i);
    TruncationIsFloor(i, "");
    assert i + "" == i;
  }

  lemma ExactMonotone(a: int, m: nat, b: int, n: nat)
    requires a * Pow10(n) <= b * Pow10(m)
    ensures Exact(a, m) <= Exact(b, n)
  {
    CrossFloor(a, Pow10(m), b, Pow10(n));
  }

  lemma ExactNonNegative(a: nat, m: nat)
    ensures Exact(a, m) >= 0
  {
    QuotientAtLeast(a * 10000, Pow10(m), 0);
  }

  /** Larger numbers never parse to smaller prices, however many decimals either is written with, as
      long as the larger price fits 64 bits. */
  lemma OrderPreserved(i1: string, f1: string, i2: string, f2: string)
    requires AllDigits(i1) && AllDigits(f1) && AllDigits(i2) && AllDigits(f2)
    requires Val(i1 + f1) * Pow10(|f2|) <= Val(i2 + f2) * Pow10(|f1|)
    requires Exact(Val(i2 + f2), |f2|) < 0x1_0000_0000_0000_0000
    ensures PriceOf(i1 + "." + f1) <= PriceOf(i2 + "." + f2)
  {
    PriceIsFloor(i1, f1);
    PriceIsFloor(i2, f2);
    ValBound(i1 + f1);
    ExactNonNegative(Val(i1 + f1), |f1|);
    ExactMonotone(Val(i1 + f1), |f1|, Val(i2 + f2), |f2|);
    KeepsOrder(Exact(Val(i1 + f1), |f1|), Exact(Val(i2 + f2), |f2|));
  }

  lemma KeepsOrder(x: int, y: int)
    requires 0 <= x <= y < 0x1_0000_0000_0000_0000
    ensures Wrap64(x) <= Wrap64(y)
  {
    Wrap64Sum(x, 0);
    Wrap64Sum(y, 0);
  }

  lemma CrossFloor(a: int, p: nat, b: int, q: nat)
    requires p > 0 && q > 0 && a * q <= b * p
    ensures a * 10000 / p <= b * 10000 / q
  {
    var x := a * 10000 / p;
    QuotientBounds(a * 10000, p);
    MulMono(q, p * x, a * 10000);
    assert q * (p * x) == p * (q * x);
    assert q * (a * 10000) == a * q * 10000;
    assert p * (b * 10000) == b * p * 10000;
    MulCancel(p, q * x, b * 10000);
    QuotientAtLeast(b * 10000, q, x);
  }

  /** A trailing zero changes nothing. */
  lemma TrailingZeroIgnored(i: string, f: string)
    requires AllDigits(i) && AllDigits(f)
    ensures PriceOf(i + "." + f + "0") == PriceOf(i + "." + f)
  {
    var zero := ['0'];
    assert i + "." + f + "0" == i + "." + (f + zero);
    PriceIsFloor(i, f + zero);
    PriceIsFloor(i, f);
    assert i + (f + zero) == i + f + zero;
    ValSnoc(i + f, '0');
    SameFraction(Val(i + f), |f|);
  }

  lemma SameFraction(a: int, n: nat)
    ensures Exact(a * 10, n + 1) == Exact(a, n)
  {
    var p := Pow10(n);
    assert a * (10 * p) == a * 10 * p;
    CrossFloor(a, p, a * 10, 10 * p);
    CrossFloor(a * 10, 10 * p, a, p);
  }

  /** The digits, one by one; and any other character counts by its distance from '0'. */
  lemma DigitValues(c: char)
    ensures Digit('0') == 0 && Digit('1') == 1 && Digit('2') == 2 && Digit('3') == 3 && Digit('4') == 4
    ensures Digit('5') == 5 && Digit('6') == 6 && Digit('7') == 7 && Digit('8') == 8 && Digit('9') == 9
    ensures Digit(c) == c as int - 48
    ensures IsDigit(c) <==> 48 <= c as int <= 57
  {
  }

  lemma OneDigit(c: char)
    ensures Val([c]) == Digit(c)
  {
    assert [c] == "" + [c] && Val("") == 0;
    ValSnoc("", c);
  }

  lemma ThreeDigitNumber()
    ensures Val("12") == 12 && Val("125") == 125 && Val("123") == 123
  {
    OneDigit('1');
    assert "12" == ['1'] + ['2'] && "125" == "12" + ['5'] && "123" == "12" + ['3'];
    ValSnoc(['1'], '2');
    ValSnoc("12", '5');
    ValSnoc("12", '3');
  }

  lemma SevenDigitNumber()
    ensures Val("1234567") == 1234567
  {
    ThreeDigitNumber();
    assert "1234" == "123" + ['4'] && "12345" == "1234" + ['5'];
    assert "123456" == "12345" + ['6'] && "1234567" == "123456" + ['7'];
    ValSnoc("123", '4');
    ValSnoc("1234", '5');
    ValSnoc("12345", '6');
    ValSnoc("123456", '7');
  }

  lemma SomeExacts()
    ensures Exact(125, 1) == 125000 && Exact(12, 0) == 120000 && Exact(1234567, 5) == 123456
  {
    assert Pow10(0) == 1 && Pow10(1) == 10;
    Pow10Is10000();
    assert Pow10(5) == 100000;
  }

  /** Three prices: one decimal, none, and one more than counts. */
  lemma SomePrices()
    ensures PriceOf("12" + "." + "5") == 125000
    ensures PriceOf("12") == 120000
    ensures PriceOf("12" + "." + "34567") == 123456
  {
    SomeExacts();
    ThreeDigitNumber();
    SevenDigitNumber();
    assert "12" + "5" == "125" && "12" + "34567" == "1234567";
    PriceIsFloor("12", "5");
    PriceIsFloor("12", "34567");
    Wrap64Sum(125000, 0);
    Wrap64Sum(120000, 0);
    Wrap64Sum(123456, 0);
  }

  lemma {:induction false} PointThenDigits(s: string, f: string)
    requires AllDigits(f) && '.' in s
    ensures IntPart(s + f) == IntPart(s) && FracPart(s + f) == FracPart(s) + f
  {
    if |f| == 0 {
      assert s + f == s && FracPart(s) + f == FracPart(s);
    } else {
      var k := |f| - 1;
      assert f[k] in f && forall c | c in f[..k] :: c in f;
      PointThenDigits(s, f[..k]);
      DigitAfterPoint(s, f[..k], f[k]);
      assert f == f[..k] + [f[k]];
    }
  }

  lemma DigitAfterPoint(s: string, f: string, c: char)
    requires '.' in s && c != '.'
    requires IntPart(s + f) == IntPart(s) && FracPart(s + f) == FracPart(s) + f
    ensures IntPart(s + (f + [c])) == IntPart(s) && FracPart(s + (f + [c])) == FracPart(s) + (f + [c])
  {
    assert s + (f + [c]) == s + f + [c];
    PartsStep(s + f, c);
  }

  /** A second point is as if it were not there. */
  lemma SecondPointIgnored(i: string, f: string, h: string)
    requires AllDigits(i) && AllDigits(f) && AllDigits(h)
    ensures PriceOf(i + "." + f + "." + h) == PriceOf(i + "." + (f + h))
  {
    var s, t := i + "." + f, i + "." + (f + h);
    PartsOf(i, f);
    AfterSecondPoint(s, |i|, h);
    PartsOf(i, f + h);
    SameParts(s + "." + h, t);
  }

  lemma SameParts(s: string, t: string)
    requires IntPart(s) == IntPart(t) && FracPart(s) == FracPart(t)
    ensures PriceOf(s) == PriceOf(t)
  {
    assert Decimals(s) == Decimals(t);
  }

  lemma AfterSecondPoint(s: string, at: nat, h: string)
    requires at < |s| && s[at] == '.' && AllDigits(h)
    ensures IntPart(s + "." + h) == IntPart(s) && FracPart(s + "." + h) == FracPart(s) + h
  {
    PartsStep(s, '.');
    assert s + "." == s + ['.'];
    assert (s + ".")[at] == '.';
    PointThenDigits(s + ".", h);
  }

  // ---- Printing with four decimals ----

  function DigitChar(d: nat): (c: char)
    requires d < 10
    ensures IsDigit(c) && Digit(c) == d
  {
    d as char + '0'
  }

  function Decimal(n: nat): (s: string)
    ensures AllDigits(s)
  {
    (if n < 10 then "" else Decimal(n / 10)) + [DigitChar(n % 10)]
  }

  /** The last `k` digits of `n`. */
  function Digits(n: nat, k: nat): (s: string)
    ensures |s| == k && AllDigits(s)
  {
    if k == 0 then "" else Digits(n / 10, k - 1) + [DigitChar(n % 10)]
  }

  function Print(v: nat): string {
    Decimal(v / 10000) + "." + Digits(v % 10000, 4)
  }

  lemma {:induction false} ValDecimal(n: nat)
    ensures Val(Decimal(n)) == n
  {
    var before := if n < 10 then "" else Decimal(n / 10);
    if n >= 10 { ValDecimal(n / 10); }
    ValSnoc(before, DigitChar(n % 10));
  }

  lemma {:induction false} ValDigits(n: nat, k: nat)
    requires n < Pow10(k)
    ensures Val(Digits(n, k)) == n
  {
    if k > 0 {
      ValDigits(n / 10, k - 1);
      ValSnoc(Digits(n / 10, k - 1), DigitChar(n % 10));
    }
  }

  lemma ValOfPrint(v: nat)
    ensures Val(Decimal(v / 10000) + Digits(v % 10000, 4)) == v
  {
    Pow10Is10000();
    ValDecimal(v / 10000);
    ValDigits(v % 10000, 4);
    ValConcat(Decimal(v / 10000), Digits(v % 10000, 4));
  }

  /** Parsing inverts printing. */
  lemma ParseInvertsPrint(v: u64)
    ensures PriceOf(Print(v)) == v
  {
    PartsOf(Decimal(v / 10000), Digits(v % 10000, 4));
    ValOfPrint(v);
    assert Pow10(0) == 1;
  }
}
