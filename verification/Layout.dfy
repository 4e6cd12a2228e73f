/** Numbers at given places of a buffer, least significant byte first. */
module Layout {
  import opened Bytes

  function U32At(f: seq<byte>, at: nat): int
    requires at + 4 <= |f|
  {
    f[at] as int + 0x100 * f[at + 1] as int + 0x1_0000 * f[at + 2] as int + 0x100_0000 * f[at + 3] as int
  }

  function U64At(f: seq<byte>, at: nat): int
    requires at + 8 <= |f|
  {
    U32At(f, at) + 0x1_0000_0000 * U32At(f, at + 4)
  }

  /** What a signed 64-bit field holds, read as unsigned. */
  function TwosComplement(x: i64): int {
    if x < 0 then 0x1_0000_0000_0000_0000 + x else x
  }

  lemma FromLE4(s: seq<byte>)
    requires |s| == 4
    ensures FromLE(s) == U32At(s, 0)
  {
    var a, b, c := s[1..], s[2..], s[3..];
    assert a[1..] == b && b[1..] == c && c[1..] == [];
    assert FromLE(c) == s[3];
    assert FromLE(b) == s[2] + 256 * FromLE(c);
    assert FromLE(a) == s[1] + 256 * FromLE(b);
  }

  lemma FromLETail(s: seq<byte>)
    requires |s| >= 4
    ensures FromLE(s) == FromLE(s[..4]) + 0x1_0000_0000 * FromLE(s[4..])
  {
    FromLE4(s[..4]);
    var a, b, c := s[1..], s[2..], s[3..];
    assert a[1..] == b && b[1..] == c && c[1..] == s[4..];
    assert FromLE(c) == s[3] + 256 * FromLE(s[4..]);
    assert FromLE(b) == s[2] + 256 * FromLE(c);
    assert FromLE(a) == s[1] + 256 * FromLE(b);
  }

  lemma Field32At(f: seq<byte>, at: nat, x: u32)
    requires at + 4 <= |f| && f[at..at + 4] == Field32(x)
    ensures U32At(f, at) == x
  {
    var s := f[at..at + 4];
    FieldsRoundTrip(x, 0, 0);
    FromLE4(s);
    FromLEInverse(s);
    Pow256Values();
  }

  lemma Field64At(f: seq<byte>, at: nat, x: u64)
    requires at + 8 <= |f| && f[at..at + 8] == Field64(x)
    ensures U64At(f, at) == x
  {
    var s := f[at..at + 8];
    FieldsRoundTrip(0, x, 0);
    FromLETail(s);
    FromLE4(s[..4]);
    FromLE4(s[4..]);
    FromLEInverse(s);
    Pow256Values();
  }

  lemma FieldI64At(f: seq<byte>, at: nat, x: i64)
    requires at + 8 <= |f| && f[at..at + 8] == FieldI64(x)
    ensures U64At(f, at) == TwosComplement(x)
  {
    Field64At(f, at, ToUnsigned(x));
  }
}
