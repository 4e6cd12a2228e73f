/** The fixed receive buffer that turns arbitrary chunks back into frames. */
module Reconstruction {
  import opened Options
  import opened Bytes
  import opened Framing

  const BUFFER_SIZE := 2048

  /** What a call hands back: where in the buffer the first frame starts, and how many follow. */
  datatype MessagesReceived = MessagesReceived(start: Option<nat>, count: nat)

  datatype ReceiveResult = Received(batch: MessagesReceived) | BadAlloc

  /** Taking the first frame off a stretch of bytes. */
  lemma FirstFrame(s: seq<byte>)
    ensures !HasFrame(s) ==> Frames(s) == [] && Rest(s) == s
    ensures HasFrame(s) ==>
      var t := s[FrameLen(s)..];
      |Frames(s)| == |Frames(t)| + 1 && Rest(s) == Rest(t) && (!HasFrame(t) ==> Rest(t) == t)
  {
  }

  class MessageReconstructor {
    const buffer: array<byte>
    var size: nat
    var dirtyStart: nat

    ghost predicate Valid()
      reads this
    {
      buffer.Length == BUFFER_SIZE && dirtyStart + size <= BUFFER_SIZE
    }

    /** The bytes received but not yet handed out as part of a frame. */
    ghost function Pending(): seq<byte>
      requires Valid()
      reads this, buffer
    {
      buffer[dirtyStart..dirtyStart + size]
    }

    constructor ()
      ensures Valid() && fresh(buffer) && Pending() == []
    {
      buffer := new byte[BUFFER_SIZE];
      size, dirtyStart := 0, 0;
    }

    /** Byte copy of buffer[from..from+n] to the front, in ascending order; the two ranges may
        overlap, and the order is what makes the result right: no byte is overwritten unread. */
    method MoveToFront(from: nat, n: nat)
      requires from + n <= buffer.Length
      modifies buffer
      ensures buffer[..n] == old(buffer[from..from + n])
      ensures buffer[n..] == old(buffer[n..])
    {
      for i := 0 to n
        invariant forall k | 0 <= k < i :: buffer[k] == old(buffer[from + k])
        invariant forall k | i <= k < buffer.Length :: buffer[k] == old(buffer[k])
      {
        buffer[i] := buffer[from + i];
      }
    }

    method Receive(mem: array<byte>, n: nat) returns (r: ReceiveResult)
      requires Valid() && n <= mem.Length && mem != buffer
      modifies this, buffer
      ensures Valid()
      ensures r.BadAlloc? <==> |old(Pending())| + n > BUFFER_SIZE
      ensures r.BadAlloc? ==> unchanged(this) && unchanged(buffer)
      ensures r.Received? ==>
        var s := old(Pending()) + mem[..n];
        && |s| <= BUFFER_SIZE
        && r.batch.count == |Frames(s)|
        && r.batch.start == (if HasFrame(s) then Some(0) else None)
        && buffer[..] == s + old(buffer[|s|..])
        && Pending() == Rest(s)
        && dirtyStart == |s| - |Rest(s)|
    {
      if size + n > BUFFER_SIZE {
        return BadAlloc;
      }
      ghost var s := Pending() + mem[..n];
      Compact();
      CopyInto(buffer, size, mem[..n]);
      size := size + n;
      assert buffer[..] == s + old(buffer[|s|..]);
      var batch := ScanFront(s);
      return Received(batch);
    }

    method Compact()
      requires Valid()
      modifies this`dirtyStart, buffer
      ensures Valid() && dirtyStart == 0 && buffer[..size] == old(Pending())
      ensures buffer[size..] == old(buffer[size..])
    {
      if dirtyStart != 0 {
        MoveToFront(dirtyStart, size);
        dirtyStart := 0;
      }
    }

    /** The scan of the whole contents `s`, which start at the front of the buffer. */
    method ScanFront(ghost s: seq<byte>) returns (r: MessagesReceived)
      requires Valid() && dirtyStart == 0 && buffer[..size] == s
      modifies this`size, this`dirtyStart
      ensures Valid() && buffer[..] == old(buffer[..])
      ensures r.count == |Frames(s)| && r.start == (if HasFrame(s) then Some(0) else None)
      ensures Pending() == Rest(s) && dirtyStart == |s| - |Rest(s)|
    {
      assert buffer[0..0 + size] == s;
      r := GetMessages(0, size, s);
      ParseReassembles(s);
      assert s[|s| - |Rest(s)|..] == Rest(s);
    }

    /** The recursive scan of `s`, which is buffer[at..at+n]; `size` and `dirtyStart` change on the way
        out. */
    method GetMessages(at: nat, n: nat, ghost s: seq<byte>) returns (r: MessagesReceived)
      requires Valid() && at + n <= BUFFER_SIZE && n <= size && dirtyStart <= at
      requires s == buffer[at..at + n]
      modifies this`size, this`dirtyStart
      ensures r.count == |Frames(s)|
      ensures r.start == (if HasFrame(s) then Some(at) else None)
      ensures size == old(size) - (n - |Rest(s)|)
      ensures dirtyStart == (if HasFrame(s) then at + n - |Rest(s)| else old(dirtyStart))
      decreases n
    {
      FirstFrame(s);
      if n < HEADER_SIZE {
        return MessagesReceived(None, 0);
      }
      var bodyLen := buffer[at] as int + 256 * buffer[at + 1] as int;
      assert HEADER_SIZE + bodyLen == FrameLen(s);
      if bodyLen + HEADER_SIZE > n {
        return MessagesReceived(None, 0);
      }
      var messageSize := HEADER_SIZE + bodyLen;
      var rest := GetMessages(at + messageSize, n - messageSize, s[messageSize..]);
      var consumedOffset := at + messageSize;
      dirtyStart := if dirtyStart > consumedOffset then dirtyStart else consumedOffset;
      size := size - messageSize;
      return MessagesReceived(Some(at), rest.count + 1);
    }
  }

  /** One reconstructor over its life: what it was given, what it emitted, what it still holds. */
  datatype Stream = Stream(accepted: seq<byte>, emitted: seq<seq<byte>>, pending: seq<byte>)

  /** The effect of one Receive; a throwing call changes nothing. */
  function Feed(st: Stream, chunk: seq<byte>): Stream {
    var s := st.pending + chunk;
    if |s| > BUFFER_SIZE then st
    else Stream(st.accepted + chunk, st.emitted + Frames(s), Rest(s))
  }

  function FeedFrom(st: Stream, chunks: seq<seq<byte>>): Stream {
    if |chunks| == 0 then st
    else Feed(FeedFrom(st, chunks[..|chunks| - 1]), chunks[|chunks| - 1])
  }

  function FeedAll(chunks: seq<seq<byte>>): Stream {
    FeedFrom(Stream([], [], []), chunks)
  }

  /** However the bytes were cut, and whichever calls threw, the frames out are the one-shot
      parse of the bytes in, and frames out plus bytes held are exactly the bytes in. */
  lemma {:induction false} ChunkingIndependence(chunks: seq<seq<byte>>)
    ensures var st := FeedAll(chunks);
      && st.emitted == Frames(st.accepted)
      && st.pending == Rest(st.accepted)
      && Flatten(st.emitted) + st.pending == st.accepted
  {
    if |chunks| > 0 {
      var before := FeedAll(chunks[..|chunks| - 1]);
      ChunkingIndependence(chunks[..|chunks| - 1]);
      ParseAppend(before.accepted, chunks[|chunks| - 1]);
    }
    ParseReassembles(FeedAll(chunks).accepted);
  }

  /** Two cuttings of the same bytes that never throw are indistinguishable afterwards. */
  lemma CuttingsAgree(c1: seq<seq<byte>>, c2: seq<seq<byte>>)
    requires FeedAll(c1).accepted == FeedAll(c2).accepted
    ensures FeedAll(c1) == FeedAll(c2)
  {
    ChunkingIndependence(c1);
    ChunkingIndependence(c2);
  }

  /** On a stream of frames of at most `max` bytes, fewer than `max` bytes are ever held, so a
      chunk of at most BUFFER_SIZE - max + 1 bytes is always taken. */
  lemma {:induction false} SmallChunksNeverThrow(fs: seq<seq<byte>>, max: nat, chunks: seq<seq<byte>>)
    requires AllFrames(fs) && (forall f | f in fs :: |f| <= max) && HEADER_SIZE <= max <= BUFFER_SIZE
    requires Flatten(chunks) <= Flatten(fs)
    requires forall c | c in chunks :: |c| <= BUFFER_SIZE - max + 1
    ensures FeedAll(chunks).accepted == Flatten(chunks)
    ensures |FeedAll(chunks).pending| < max
  {
    if |chunks| > 0 {
      var k := |chunks| - 1;
      assert chunks == chunks[..k] + [chunks[k]];
      FlattenSnoc(chunks[..k], chunks[k]);
      SmallChunksNeverThrow(fs, max, chunks[..k]);
      assert chunks[k] in chunks;
    }
    ChunkingIndependence(chunks);
    RestOfPrefix(fs, FeedAll(chunks).accepted, max);
  }

  /** A full-size receive throws behind a single held byte, whatever the bytes. */
  lemma FullReceiveCanThrow(c: seq<byte>, d: seq<byte>)
    requires |c| == 1 && |d| == BUFFER_SIZE
    ensures FeedAll([c, d]) == Stream(c, [], c)
  {
    HeldBytesOverflow(c, d);
  }

  /** An incomplete frame and a chunk that together exceed the buffer. */
  lemma HeldBytesOverflow(c: seq<byte>, d: seq<byte>)
    requires !HasFrame(c) && |c| <= BUFFER_SIZE < |c| + |d|
    ensures FeedAll([c, d]) == Stream(c, [], c)
  {
    assert [c, d][..1] == [c];
    assert [c][..0] == [];
    assert FeedAll([]) == Stream([], [], []);
    assert [] + c == c;
    assert FeedAll([c]) == Feed(FeedAll([]), c);
    assert FeedAll([c, d]) == Feed(FeedAll([c]), d);
  }

  // ---- The largest chunk that is always taken ----

  predicate FramesWithin(fs: seq<seq<byte>>, max: nat) {
    AllFrames(fs) && forall f | f in fs :: |f| <= max
  }

  predicate ChunksWithin(chunks: seq<seq<byte>>, n: nat) {
    forall c | c in chunks :: |c| <= n
  }

  /** Byte by byte. */
  function Singles<T>(s: seq<T>): (r: seq<seq<T>>)
    ensures forall c | c in r :: |c| == 1
  {
    if |s| == 0 then [] else Singles(s[..|s| - 1]) + [[s[|s| - 1]]]
  }

  lemma {:induction false} FlattenSingles<T>(s: seq<T>)
    ensures Flatten(Singles(s)) == s
  {
    if |s| > 0 {
      FlattenSingles(s[..|s| - 1]);
      FlattenSnoc(Singles(s[..|s| - 1]), [s[|s| - 1]]);
      assert s == s[..|s| - 1] + [s[|s| - 1]];
    }
  }

  /** One byte short of its first frame, of `max` bytes, a long enough stream does not survive a
      chunk of BUFFER_SIZE - max + 2 bytes, however small the chunks before. */
  lemma LongerChunkThrows(fs: seq<seq<byte>>, max: nat)
    requires FramesWithin(fs, max) && |fs| > 0 && HEADER_SIZE <= |fs[0]| == max <= BUFFER_SIZE < |Flatten(fs)|
    ensures var w := Flatten(fs);
      var chunks := Singles(w[..max - 1]) + [w[max - 1..BUFFER_SIZE + 1]];
      Flatten(chunks) <= w && FeedAll(chunks).accepted != Flatten(chunks)
  {
    var w := Flatten(fs);
    var c, d := w[..max - 1], w[max - 1..BUFFER_SIZE + 1];
    HeldBytes(fs, max, c);
    TooMuchBehind(c, d);
    assert c + d == w[..BUFFER_SIZE + 1];
  }

  lemma TooMuchBehind(c: seq<byte>, d: seq<byte>)
    requires FeedAll(Singles(c)).accepted == c && FeedAll(Singles(c)).pending == c && |c| + |d| > BUFFER_SIZE
    ensures Flatten(Singles(c) + [d]) == c + d && FeedAll(Singles(c) + [d]).accepted == c
  {
    FeedSnoc(Singles(c), d);
    FlattenSingles(c);
    FlattenSnoc(Singles(c), d);
  }

  lemma FeedSnoc(chunks: seq<seq<byte>>, c: seq<byte>)
    ensures FeedAll(chunks + [c]) == Feed(FeedAll(chunks), c)
  {
    assert (chunks + [c])[..|chunks|] == chunks;
  }

  lemma HeldBytes(fs: seq<seq<byte>>, max: nat, c: seq<byte>)
    requires FramesWithin(fs, max) && |fs| > 0 && HEADER_SIZE <= max <= BUFFER_SIZE
    requires |c| < |fs[0]| && c <= Flatten(fs)
    ensures FeedAll(Singles(c)).accepted == c && FeedAll(Singles(c)).pending == c
  {
    var st := FeedAll(Singles(c));
    assert !HasFrame(c) by {
      CutFirst(fs, |c|);
      assert c == Flatten(fs)[..|c|];
    }
    assert st.accepted == c by {
      FlattenSingles(c);
      SmallChunksNeverThrow(fs, max, Singles(c));
    }
    assert st.pending == Rest(c) by {
      ChunkingIndependence(Singles(c));
    }
  }

  lemma FlattenPair<T>(c: seq<T>, d: seq<T>)
    ensures Flatten([c, d]) == c + d
  {
    assert [c, d] == [c] + [d];
    FlattenSnoc([c], d);
    assert Flatten([c]) == c by { FlattenSnoc([], c); assert [] + [c] == [c] && [] + c == c; }
  }

  lemma CutFirst(fs: seq<seq<byte>>, k: nat)
    requires AllFrames(fs) && |fs| > 0 && k < |fs[0]|
    ensures k <= |Flatten(fs)| && !HasFrame(Flatten(fs)[..k])
  {
    var f := fs[0];
    assert f in fs && Flatten(fs)[..k] == f[..k];
  }

  /** A frame of a given size, and a stream of such frames longer than the buffer. */
  function Zeros(size: nat): (f: seq<byte>)
    requires HEADER_SIZE <= size <= BUFFER_SIZE
    ensures |f| == size
  {
    LE(size - HEADER_SIZE, 2) + seq(size - 2, _ => 0)
  }

  lemma ZerosIsFrame(size: nat)
    requires HEADER_SIZE <= size <= BUFFER_SIZE
    ensures IsFrame(Zeros(size))
  {
    var n := size - HEADER_SIZE;
    assert LE(n, 2) == [n % 256] + LE(n / 256, 1);
    assert LE(n / 256, 1) == [n / 256 % 256] + LE(n / 256 / 256, 0);
  }

  lemma {:induction false} CopiesLength<T>(f: seq<T>, k: nat)
    ensures |Flatten(seq(k, _ => f))| == k * |f|
  {
    if k > 0 {
      CopiesLength(f, k - 1);
      assert seq(k, _ => f) == seq(k - 1, _ => f) + [f];
      FlattenSnoc(seq(k - 1, _ => f), f);
    }
  }

  /** `chunks` of at most `n` bytes carry the beginning of the frames `fs` of at most `max` bytes. */
  predicate Carry(chunks: seq<seq<byte>>, n: nat, fs: seq<seq<byte>>, max: nat) {
    FramesWithin(fs, max) && ChunksWithin(chunks, n) && Flatten(chunks) <= Flatten(fs)
  }

  lemma SomeChunkThrows(max: nat, n: nat) returns (chunks: seq<seq<byte>>, fs: seq<seq<byte>>)
    requires HEADER_SIZE <= max <= BUFFER_SIZE && n > BUFFER_SIZE - max + 1
    ensures Carry(chunks, n, fs, max) && FeedAll(chunks).accepted != Flatten(chunks)
  {
    var f := Zeros(max);
    fs := seq(BUFFER_SIZE, _ => f);
    ZerosIsFrame(max);
    CopiesLength(f, BUFFER_SIZE);
    assert forall g | g in fs :: g == f;
    LongerChunkThrows(fs, max);
    var w := Flatten(fs);
    chunks := Singles(w[..max - 1]) + [w[max - 1..BUFFER_SIZE + 1]];
  }

  /** On streams of frames of at most `max` bytes, chunks of at most `n` bytes are always taken if
      and only if n <= BUFFER_SIZE - max + 1. */
  lemma SafeChunkSize(max: nat, n: nat)
    requires HEADER_SIZE <= max <= BUFFER_SIZE
    ensures (forall chunks: seq<seq<byte>>, fs: seq<seq<byte>> | Carry(chunks, n, fs, max) ::
               FeedAll(chunks).accepted == Flatten(chunks))
        <==> n <= BUFFER_SIZE - max + 1
  {
    if n <= BUFFER_SIZE - max + 1 {
      forall chunks: seq<seq<byte>>, fs: seq<seq<byte>> | Carry(chunks, n, fs, max)
        ensures FeedAll(chunks).accepted == Flatten(chunks)
      {
        SmallChunksNeverThrow(fs, max, chunks);
      }
    } else {
      var chunks, fs := SomeChunkThrows(max, n);
    }
  }

  /** A header announcing a frame larger than the buffer blocks the stream for ever: nothing is
      emitted again and the header stays at the front. */
  lemma {:induction false} OversizedFrameBlocks(st: Stream, chunks: seq<seq<byte>>)
    requires |st.pending| >= HEADER_SIZE && FrameLen(st.pending) > BUFFER_SIZE
    ensures var st' := FeedFrom(st, chunks);
      && st'.emitted == st.emitted
      && |st'.pending| >= HEADER_SIZE && st'.pending[..HEADER_SIZE] == st.pending[..HEADER_SIZE]
  {
    if |chunks| > 0 {
      OversizedFrameBlocks(st, chunks[..|chunks| - 1]);
      var mid := FeedFrom(st, chunks[..|chunks| - 1]);
      var s := mid.pending + chunks[|chunks| - 1];
      assert forall i | 0 <= i < HEADER_SIZE :: mid.pending[i] == st.pending[..HEADER_SIZE][i];
      assert s[0] == st.pending[0] && s[1] == st.pending[1];
      if |s| <= BUFFER_SIZE {
        assert !HasFrame(s);
        assert s[..HEADER_SIZE] == mid.pending[..HEADER_SIZE];
      }
    }
  }
}
