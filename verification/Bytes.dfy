/** Bytes, the machine integers of the wire structs, and little-endian fields. */
module Bytes {

  type byte = x: int | 0 <= x < 0x100
  type u32 = x: int | 0 <= x < 0x1_0000_0000
  type u64 = x: int | 0 <= x < 0x1_0000_0000_0000_0000
  type i64 = x: int | -0x8000_0000_0000_0000 <= x < 0x8000_0000_0000_0000

  /** Result of an unsigned 64-bit operation whose mathematical value is `x`. */
  function Wrap64(x: int): u64 {
    x % 0x1_0000_0000_0000_0000
  }

  /** Wrapping early or late makes no difference, and a value that fits is left alone. */
  lemma Wrap64Sum(a: int, x: int)
    ensures Wrap64(Wrap64(a) + x) == Wrap64(a + x)
    ensures 0 <= a < 0x1_0000_0000_0000_0000 ==> Wrap64(a) == a
  {
  }

  /** Result of an unsigned 128-bit operation whose mathematical value is `x`. */
  function Wrap128(x: int): nat {
    x % 0x1_0000_0000_0000_0000_0000_0000_0000_0000
  }

  /** The widths: each wraps exactly past its largest value, and a negative value counts down from it. */
  lemma Widths()
    ensures Wrap64(0xFFFF_FFFF_FFFF_FFFF) == 0xFFFF_FFFF_FFFF_FFFF && Wrap64(0x1_0000_0000_0000_0000) == 0
    ensures Wrap64(-1) == 0xFFFF_FFFF_FFFF_FFFF
    ensures Wrap128(0xFFFF_FFFF_FFFF_FFFF_FFFF_FFFF_FFFF_FFFF) == 0xFFFF_FFFF_FFFF_FFFF_FFFF_FFFF_FFFF_FFFF
    ensures Wrap128(0x1_0000_0000_0000_0000_0000_0000_0000_0000) == 0
    ensures Wrap128(-1) == 0xFFFF_FFFF_FFFF_FFFF_FFFF_FFFF_FFFF_FFFF
  {
  }

  function Flatten<T>(ss: seq<seq<T>>): (r: seq<T>) {
    if |ss| == 0 then [] else ss[0] + Flatten(ss[1..])
  }

  lemma MoveOver<T>(a: seq<T>, v: T, b: seq<T>)
    ensures a + ([v] + b) == a + [v] + b
  {
  }

  lemma {:induction false} FlattenAppend<T>(a: seq<seq<T>>, b: seq<seq<T>>)
    ensures Flatten(a + b) == Flatten(a) + Flatten(b)
  {
    if |a| == 0 {
      assert a + b == b;
    } else {
      assert (a + b)[1..] == a[1..] + b;
      FlattenAppend(a[1..], b);
    }
  }

  lemma FlattenSplit<T>(ss: seq<seq<T>>, k: nat)
    requires k <= |ss|
    ensures Flatten(ss) == Flatten(ss[..k]) + Flatten(ss[k..])
  {
    assert ss == ss[..k] + ss[k..];
    FlattenAppend(ss[..k], ss[k..]);
  }

  lemma FlattenSnoc<T>(a: seq<seq<T>>, s: seq<T>)
    ensures Flatten(a + [s]) == Flatten(a) + s
  {
    FlattenAppend(a, [s]);
    assert [s][1..] == [];
    assert Flatten([s]) == s;
  }

  function MapAll<A, B>(f: A -> B, s: seq<A>): (r: seq<B>)
    ensures |r| == |s|
  {
    seq(|s|, i requires 0 <= i < |s| => f(s[i]))
  }

  lemma MapAppend<A, B>(f: A -> B, a: seq<A>, b: seq<A>)
    ensures MapAll(f, a + b) == MapAll(f, a) + MapAll(f, b)
  {
  }

  lemma MapSplit<A, B>(f: A -> B, s: seq<A>, k: nat)
    requires k <= |s|
    ensures MapAll(f, s)[..k] == MapAll(f, s[..k])
    ensures MapAll(f, s) == MapAll(f, s[..k]) + MapAll(f, s[k..])
  {
    assert s == s[..k] + s[k..];
    MapAppend(f, s[..k], s[k..]);
  }

  function Pow256(width: nat): nat {
    if width == 0 then 1 else 256 * Pow256(width - 1)
  }

  /** The `width` bytes of `n` in memory order on a little-endian host. */
  function LE(n: nat, width: nat): (s: seq<byte>)
    ensures |s| == width
  {
    if width == 0 then [] else [n % 256] + LE(n / 256, width - 1)
  }

  function FromLE(s: seq<byte>): nat {
    if |s| == 0 then 0 else s[0] + 256 * FromLE(s[1..])
  }

  lemma {:induction false} LERoundTrip(n: nat, width: nat)
    requires n < Pow256(width)
    ensures FromLE(LE(n, width)) == n
  {
    if width > 0 {
      LERoundTrip(n / 256, width - 1);
      assert LE(n, width)[1..] == LE(n / 256, width - 1);
    }
  }

  lemma {:induction false} FromLEInverse(s: seq<byte>)
    ensures FromLE(s) < Pow256(|s|)
    ensures LE(FromLE(s), |s|) == s
  {
    if |s| > 0 {
      FromLEInverse(s[1..]);
      assert s == [s[0]] + s[1..];
    }
  }

  lemma Pow256Values()
    ensures Pow256(2) == 0x1_0000
    ensures Pow256(4) == 0x1_0000_0000
    ensures Pow256(8) == 0x1_0000_0000_0000_0000
  {
    assert Pow256(1) == 256 * Pow256(0);
    assert Pow256(3) == 256 * Pow256(2);
    assert Pow256(5) == 256 * Pow256(4);
    assert Pow256(6) == 256 * Pow256(5);
    assert Pow256(7) == 256 * Pow256(6);
  }

  /** Conversion of a signed 64-bit value to the unsigned type (two's complement). */
  function ToUnsigned(x: i64): u64 {
    if x >= 0 then x else x + 0x1_0000_0000_0000_0000
  }

  function ToSigned(x: u64): i64 {
    if x < 0x8000_0000_0000_0000 then x else x - 0x1_0000_0000_0000_0000
  }

  function Field32(x: u32): (s: seq<byte>) ensures |s| == 4 { LE(x, 4) }
  function Field64(x: u64): (s: seq<byte>) ensures |s| == 8 { LE(x, 8) }
  function FieldI64(x: i64): (s: seq<byte>) ensures |s| == 8 { LE(ToUnsigned(x), 8) }

  // Four bytes and eight bytes always fit (FromLEInverse); the bound only states the type.

  function Read32(s: seq<byte>): u32 {
    var v := FromLE(s);
    if v < 0x1_0000_0000 then v else 0
  }

  function Read64(s: seq<byte>): u64 {
    var v := FromLE(s);
    if v < 0x1_0000_0000_0000_0000 then v else 0
  }

  function ReadI64(s: seq<byte>): i64 {
    ToSigned(Read64(s))
  }

  lemma FieldsRoundTrip(a: u32, b: u64, c: i64)
    ensures Read32(Field32(a)) == a
    ensures Read64(Field64(b)) == b
    ensures ReadI64(FieldI64(c)) == c
  {
    Pow256Values();
    LERoundTrip(a, 4);
    LERoundTrip(b, 8);
    LERoundTrip(ToUnsigned(c), 8);
  }

  lemma Write32AfterRead(s: seq<byte>)
    requires |s| == 4
    ensures Field32(Read32(s)) == s
  {
    Pow256Values();
    FromLEInverse(s);
  }

  lemma Write64AfterRead(s: seq<byte>)
    requires |s| == 8
    ensures Field64(Read64(s)) == s
  {
    Pow256Values();
    FromLEInverse(s);
  }

  lemma WriteI64AfterRead(s: seq<byte>)
    requires |s| == 8
    ensures FieldI64(ReadI64(s)) == s
  {
    Write64AfterRead(s);
    assert ToUnsigned(ToSigned(Read64(s))) == Read64(s);
  }

  /** The memcpy of the serialisers: `src` over `dst[at..]`, nothing else touched. */
  method CopyInto(dst: array<byte>, at: nat, src: seq<byte>)
    requires at + |src| <= dst.Length
    modifies dst
    ensures dst[..] == old(dst[..at]) + src + old(dst[at + |src|..])
  {
    for i := 0 to |src|
      invariant dst[..at] == old(dst[..at])
      invariant dst[at..at + i] == src[..i]
      invariant dst[at + i..] == old(dst[at + i..])
    {
      dst[at + i] := src[i];
      assert dst[at..at + i + 1] == dst[at..at + i] + [src[i]];
    }
    assert dst[..] == dst[..at] + dst[at..at + |src|] + dst[at + |src|..];
  }
}
