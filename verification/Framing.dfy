/** The frame header and the one-shot parse of a byte stream into frames. */
module Framing {
  import opened Bytes

  const HEADER_SIZE := 4

  /** Length of the frame whose header starts `s`: header plus 16-bit bodyLen. */
  function FrameLen(s: seq<byte>): (n: nat)
    requires |s| >= HEADER_SIZE
    ensures n >= HEADER_SIZE
  {
    HEADER_SIZE + s[0] as int + 256 * s[1] as int
  }

  /** `s` starts with a whole frame. */
  predicate HasFrame(s: seq<byte>) {
    |s| >= HEADER_SIZE && FrameLen(s) <= |s|
  }

  /** `f` is one frame, no more and no less. */
  predicate IsFrame(f: seq<byte>) {
    |f| >= HEADER_SIZE && FrameLen(f) == |f|
  }

  predicate AllFrames(fs: seq<seq<byte>>) {
    forall f | f in fs :: IsFrame(f)
  }

  function Frames(s: seq<byte>): (fs: seq<seq<byte>>)
    decreases |s|
  {
    if HasFrame(s) then [s[..FrameLen(s)]] + Frames(s[FrameLen(s)..]) else []
  }

  function Rest(s: seq<byte>): (r: seq<byte>)
    ensures |r| <= |s|
    decreases |s|
  {
    if HasFrame(s) then Rest(s[FrameLen(s)..]) else s
  }

  /** The parse loses nothing, emits only whole frames and stops only when none is left. */
  lemma {:induction false} ParseReassembles(s: seq<byte>)
    ensures Flatten(Frames(s)) + Rest(s) == s
    ensures AllFrames(Frames(s))
    ensures !HasFrame(Rest(s))
    decreases |s|
  {
    if HasFrame(s) {
      var n := FrameLen(s);
      ParseReassembles(s[n..]);
      assert s == s[..n] + s[n..];
      assert Frames(s)[1..] == Frames(s[n..]);
      assert Flatten(Frames(s)) == s[..n] + Flatten(Frames(s[n..]));
    }
  }

  /** ... and it is the only such decomposition: frames are self-delimiting. */
  lemma {:induction false} ParseUnique(fs: seq<seq<byte>>, r: seq<byte>)
    requires AllFrames(fs) && !HasFrame(r)
    ensures Frames(Flatten(fs) + r) == fs
    ensures Rest(Flatten(fs) + r) == r
  {
    if |fs| == 0 {
      assert Flatten(fs) + r == r;
    } else {
      var s, f := Flatten(fs) + r, fs[0];
      assert s == f + (Flatten(fs[1..]) + r);
      assert f in fs && IsFrame(f);
      assert s[0] == f[0] && s[1] == f[1];
      assert s[..|f|] == f && s[|f|..] == Flatten(fs[1..]) + r;
      ParseUnique(fs[1..], r);
    }
  }

  lemma Regroup<T>(a: seq<T>, r: seq<T>, b: seq<T>, c: seq<T>, d: seq<T>)
    requires r + b == c + d
    ensures a + r + b == a + c + d
  {
    assert a + r + b == a + (r + b);
    assert a + c + d == a + (c + d);
  }

  /** Parsing may be interrupted anywhere and resumed on the unparsed rest. */
  lemma ParseAppend(a: seq<byte>, b: seq<byte>)
    ensures Frames(a + b) == Frames(a) + Frames(Rest(a) + b)
    ensures Rest(a + b) == Rest(Rest(a) + b)
  {
    ParseReassembles(a);
    var tail := Rest(a) + b;
    ParseReassembles(tail);
    var fs := Frames(a) + Frames(tail);
    assert a + b == Flatten(fs) + Rest(tail) by {
      FlattenAppend(Frames(a), Frames(tail));
      Regroup(Flatten(Frames(a)), Rest(a), b, Flatten(Frames(tail)), Rest(tail));
    }
    ParseUnique(fs, Rest(tail));
  }

  /** Bytes of a stream of frames leave fewer than one frame unparsed. */
  lemma {:induction false} RestOfPrefix(fs: seq<seq<byte>>, a: seq<byte>, max: nat)
    requires AllFrames(fs) && (forall f | f in fs :: |f| <= max) && max >= HEADER_SIZE
    requires a <= Flatten(fs)
    ensures |Rest(a)| < max
    ensures Frames(a) <= fs
    ensures |Frames(a)| < |fs| ==> Rest(a) <= fs[|Frames(a)|] && |Rest(a)| < |fs[|Frames(a)|]|
    ensures |Frames(a)| == |fs| ==> Rest(a) == []
  {
    if |fs| > 0 {
      var f := fs[0];
      assert f in fs && IsFrame(f);
      assert Flatten(fs) == f + Flatten(fs[1..]);
      if |a| < |f| {
        assert a == f[..|a|];
        assert !HasFrame(a);
      } else {
        var a' := a[|f|..];
        assert a == f + a';
        assert a[..|f|] == f && a[0] == f[0] && a[1] == f[1];
        assert a' <= Flatten(fs[1..]);
        RestOfPrefix(fs[1..], a', max);
        assert Frames(a) == [f] + Frames(a');
      }
    }
  }
}
