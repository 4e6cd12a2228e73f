/** End to end: messages serialised by a client, cut anywhere, and received. */
module Wire {
  import opened Options
  import opened Bytes
  import opened Framing
  import opened Reconstruction
  import opened Gcmd
  import opened Receiver

  /** The frames a client writes for `ms`. */
  function EncodeAll(ms: seq<MDMessage>): seq<seq<byte>> {
    MapAll(Encode, ms)
  }

  function ReceivedAll(ms: seq<MDMessage>): seq<MDMessage> {
    MapAll(AsReceived, ms)
  }

  lemma EncodeAllFrames(ms: seq<MDMessage>)
    ensures AllFrames(EncodeAll(ms)) && AllWellSized(EncodeAll(ms))
    ensures forall f | f in EncodeAll(ms) :: |f| <= MAX_FRAME_SIZE
  {
    forall f | f in EncodeAll(ms)
      ensures WellSized(f) && |f| <= MAX_FRAME_SIZE
    {
      var i :| 0 <= i < |ms| && f == Encode(ms[i]);
      EncodeIsFrame(ms[i]);
    }
  }

  lemma DecodeFirst(f: seq<byte>, fs: seq<seq<byte>>, m: MDMessage)
    requires Decode(f) == Ok(m)
    ensures DecodeFrames([f] + fs) == Prepend([m], DecodeFrames(fs))
  {
    assert ([f] + fs)[1..] == fs;
  }

  lemma DecodeEncode(m: MDMessage)
    ensures Decode(Encode(m)) == Ok(AsReceived(m))
  {
    RoundTrip(m, []);
    assert Encode(m) + [] == Encode(m);
  }

  lemma EncodeAllFirst(m: MDMessage, ms: seq<MDMessage>)
    ensures EncodeAll([m] + ms) == [Encode(m)] + EncodeAll(ms)
    ensures ReceivedAll([m] + ms) == [AsReceived(m)] + ReceivedAll(ms)
  {
    MapAppend(Encode, [m], ms);
    MapAppend(AsReceived, [m], ms);
  }

  lemma DecodeEncodeFirst(m: MDMessage, ms: seq<MDMessage>)
    requires DecodeFrames(EncodeAll(ms)) == Batch(ReceivedAll(ms), None)
    ensures DecodeFrames([Encode(m)] + EncodeAll(ms)) == Batch([AsReceived(m)] + ReceivedAll(ms), None)
  {
    DecodeEncode(m);
    DecodeFirst(Encode(m), EncodeAll(ms), AsReceived(m));
  }

  lemma {:induction false} DecodeEncodeAll(ms: seq<MDMessage>)
    ensures DecodeFrames(EncodeAll(ms)) == Batch(ReceivedAll(ms), None)
  {
    if |ms| > 0 {
      var m, rest := ms[0], ms[1..];
      DecodeEncodeAll(rest);
      DecodeEncodeFirst(m, rest);
      EncodeAllFirst(m, rest);
      assert ms == [m] + rest;
    }
  }

  lemma EncodeAllSplit(ms: seq<MDMessage>, k: nat)
    requires k <= |ms|
    ensures EncodeAll(ms)[..k] == EncodeAll(ms[..k])
    ensures Flatten(EncodeAll(ms)) == Flatten(EncodeAll(ms[..k])) + Flatten(EncodeAll(ms[k..]))
  {
    MapSplit(Encode, ms, k);
    FlattenAppend(EncodeAll(ms[..k]), EncodeAll(ms[k..]));
  }

  lemma EncodeAllStep(ms: seq<MDMessage>, k: nat)
    requires k < |ms|
    ensures Flatten(EncodeAll(ms[..k + 1])) == Flatten(EncodeAll(ms[..k])) + EncodeAll(ms)[k]
  {
    assert ms[..k + 1] == ms[..k] + [ms[k]];
    MapAppend(Encode, ms[..k], [ms[k]]);
    assert MapAll(Encode, [ms[k]]) == [EncodeAll(ms)[k]];
    FlattenSnoc(EncodeAll(ms[..k]), EncodeAll(ms)[k]);
  }

  /** Of the stream written for `ms`, the bytes `got` complete exactly the first `k` messages. */
  predicate Completes(ms: seq<MDMessage>, got: seq<byte>, k: nat) {
    && k <= |ms|
    && |Flatten(EncodeAll(ms[..k]))| <= |got|
    && (k < |ms| ==> |got| < |Flatten(EncodeAll(ms[..k + 1]))|)
  }

  /** A prefix of the written stream parses into the frames of its complete messages. */
  lemma PrefixParses(ms: seq<MDMessage>, got: seq<byte>)
    requires got <= Flatten(EncodeAll(ms))
    ensures var k := |Frames(got)|;
      && Completes(ms, got, k)
      && Frames(got) == EncodeAll(ms[..k])
      && got == Flatten(EncodeAll(ms[..k])) + Rest(got)
      && |Rest(got)| < MAX_FRAME_SIZE
  {
    var fs, k := EncodeAll(ms), |Frames(got)|;
    assert && |Rest(got)| < MAX_FRAME_SIZE && Frames(got) <= fs
           && (k < |ms| ==> |Rest(got)| < |fs[k]|) by {
      EncodeAllFrames(ms);
      RestOfPrefix(fs, got, MAX_FRAME_SIZE);
    }
    assert got == Flatten(Frames(got)) + Rest(got) by {
      ParseReassembles(got);
    }
    EncodeAllSplit(ms, k);
    assert Frames(got) == fs[..k];
    if k < |ms| {
      EncodeAllStep(ms, k);
    }
  }

  function Fresh(now: u64): Rx {
    Rx(0, [], [], now, Continue)
  }

  /** Whatever the chunks, at every moment the receiver has pushed exactly the messages whose
      frames are complete in the bytes taken, in order, each equal to the original up to the
      HALT/CLOSE swap, and holds exactly the bytes of the incomplete one. Nothing but a chunk
      that does not fit can stop it. */
  lemma EndToEnd(ms: seq<MDMessage>, chunks: seq<seq<byte>>, now: u64)
    requires Flatten(chunks) <= Flatten(EncodeAll(ms))
    ensures var st := ReceiveAll(Fresh(now), chunks);
      && st.taken <= |chunks|
      && var got := Flatten(chunks[..st.taken]);
        && Completes(ms, got, |st.pushed|)
        && st.pushed == ReceivedAll(ms[..|st.pushed|])
        && got == Flatten(EncodeAll(ms[..|st.pushed|])) + st.pending
        && |st.pending| < MAX_FRAME_SIZE
        && st.lastHeartbeat == LatestHeartbeat(now, st.pushed)
        && ((st.outcome == Continue && st.taken == |chunks|) ||
            (st.outcome == Overflow && st.taken < |chunks| && |st.pending| + |chunks[st.taken]| > BUFFER_SIZE))
  {
    var st := ReceiveAll(Fresh(now), chunks);
    ReceiveIsOneShotDecode(Fresh(now), chunks);
    var got := Flatten(chunks[..st.taken]);
    assert Taken(Fresh(now), chunks, st.taken) == got;
    FlattenSplit(chunks, st.taken);
    assert got <= Flatten(EncodeAll(ms));
    PrefixParses(ms, got);
    var k := |Frames(got)|;
    DecodeEncodeAll(ms[..k]);
    assert |ReceivedAll(ms[..k])| == k;
  }

  /** Chunks of at most 2001 bytes always fit, so then every complete message arrives. */
  lemma SmallChunksAllArrive(ms: seq<MDMessage>, chunks: seq<seq<byte>>, now: u64)
    requires Flatten(chunks) <= Flatten(EncodeAll(ms))
    requires forall c | c in chunks :: |c| <= BUFFER_SIZE - MAX_FRAME_SIZE + 1
    ensures var st := ReceiveAll(Fresh(now), chunks);
      && st.outcome == Continue
      && Completes(ms, Flatten(chunks), |st.pushed|)
      && st.pushed == ReceivedAll(ms[..|st.pushed|])
  {
    var st := ReceiveAll(Fresh(now), chunks);
    EndToEnd(ms, chunks, now);
    assert chunks[..|chunks|] == chunks;
  }

  /** Once the whole stream is in, all of it has been pushed and nothing is held. */
  lemma WholeStreamArrives(ms: seq<MDMessage>, chunks: seq<seq<byte>>, now: u64)
    requires Flatten(chunks) == Flatten(EncodeAll(ms))
    requires forall c | c in chunks :: |c| <= BUFFER_SIZE - MAX_FRAME_SIZE + 1
    ensures ReceiveAll(Fresh(now), chunks)
         == Rx(|chunks|, [], ReceivedAll(ms), LatestHeartbeat(now, ReceivedAll(ms)), Continue)
  {
    var st := ReceiveAll(Fresh(now), chunks);
    SmallChunksAllArrive(ms, chunks, now);
    EndToEnd(ms, chunks, now);
    AllComplete(ms, |st.pushed|);
    assert ms[..|ms|] == ms && chunks[..|chunks|] == chunks;
  }

  lemma AllComplete(ms: seq<MDMessage>, k: nat)
    requires Completes(ms, Flatten(EncodeAll(ms)), k)
    ensures k == |ms|
  {
    if k < |ms| {
      EncodeAllSplit(ms, k + 1);
    }
  }

  lemma StreamIsWellSized(ms: seq<MDMessage>, got: seq<byte>)
    requires got <= Flatten(EncodeAll(ms))
    ensures AllWellSized(Frames(got))
  {
    PrefixParses(ms, got);
    EncodeAllFrames(ms[..|Frames(got)|]);
  }

  /** So on such a stream the thread itself, whatever its buffer held, does what EndToEnd is about. */
  lemma ThreadIsReceive(ms: seq<MDMessage>, chunks: seq<seq<byte>>, now: u64, mem: Memory)
    requires Flatten(chunks) <= Flatten(EncodeAll(ms))
    ensures TurnAll(Thread(Fresh(now), mem), chunks).rx == ReceiveAll(Fresh(now), chunks)
  {
    StreamIsWellSized(ms, Flatten(chunks));
    assert [] + Flatten(chunks) == Flatten(chunks);
    WellSizedTurns(Thread(Fresh(now), mem), chunks);
  }

  // ---- The largest chunk that is always taken ----

  lemma HeldBytesStop(c: seq<byte>, d: seq<byte>, now: u64)
    requires !HasFrame(c) && |c| <= BUFFER_SIZE < |c| + |d|
    ensures ReceiveAll(Fresh(now), [c, d]) == Rx(1, c, [], now, Overflow)
  {
    assert [c, d][..1] == [c] && [c][..0] == [];
    assert [] + c == c;
    assert DecodeStream(c) == Batch([], None);
    assert ReceiveAll(Fresh(now), []) == Fresh(now);
    assert ReceiveAll(Fresh(now), [c]) == ReceiveStep(Fresh(now), c);
    assert ReceiveAll(Fresh(now), [c, d]) == ReceiveStep(ReceiveAll(Fresh(now), [c]), d);
  }

  /** Cut one byte before the end of a first message of 48 bytes, every written stream longer than
      the buffer stops the receiver at a second chunk of 2002 bytes. */
  lemma Chunk2002Stops(ms: seq<MDMessage>, now: u64)
    requires |ms| > 0 && |Encode(ms[0])| == MAX_FRAME_SIZE && |Flatten(EncodeAll(ms))| > BUFFER_SIZE
    ensures var w := Flatten(EncodeAll(ms));
      var c, d := w[..MAX_FRAME_SIZE - 1], w[MAX_FRAME_SIZE - 1..BUFFER_SIZE + 1];
      && Flatten([c, d]) <= w && |d| == 2002
      && ReceiveAll(Fresh(now), [c, d]) == Rx(1, c, [], now, Overflow)
  {
    var w := Flatten(EncodeAll(ms));
    var c, d := w[..MAX_FRAME_SIZE - 1], w[MAX_FRAME_SIZE - 1..BUFFER_SIZE + 1];
    EncodeAllFrames(ms);
    CutFirst(EncodeAll(ms), MAX_FRAME_SIZE - 1);
    FlattenPair(c, d);
    assert c + d == w[..BUFFER_SIZE + 1];
    HeldBytesStop(c, d, now);
  }

  const SOME_QUOTE := QuoteMessage(Quote(BLANK, 0, 0, 0, 0, 0))

  /** `chunks` of at most `n` bytes carry the beginning of the stream written for `ms`. */
  predicate Deliver(chunks: seq<seq<byte>>, n: nat, ms: seq<MDMessage>) {
    ChunksWithin(chunks, n) && Flatten(chunks) <= Flatten(EncodeAll(ms))
  }

  lemma SomeChunkStops(n: nat) returns (chunks: seq<seq<byte>>, ms: seq<MDMessage>)
    requires n > 2001
    ensures Deliver(chunks, n, ms) && ReceiveAll(Fresh(0), chunks).outcome != Continue
  {
    ms := seq(43, _ => SOME_QUOTE);
    assert EncodeAll(ms) == seq(43, _ => Encode(SOME_QUOTE));
    CopiesLength(Encode(SOME_QUOTE), 43);
    Chunk2002Stops(ms, 0);
    var w := Flatten(EncodeAll(ms));
    chunks := [w[..MAX_FRAME_SIZE - 1], w[MAX_FRAME_SIZE - 1..BUFFER_SIZE + 1]];
  }

  /** On written streams, chunks of at most `n` bytes never stop the receiver if and only if
      n <= 2001. */
  lemma SafeChunkSizeIs2001(n: nat)
    ensures (forall chunks, ms, now: u64 | Deliver(chunks, n, ms) :: ReceiveAll(Fresh(now), chunks).outcome == Continue)
        <==> n <= 2001
  {
    if n <= 2001 {
      forall chunks, ms, now: u64 | Deliver(chunks, n, ms) ensures ReceiveAll(Fresh(now), chunks).outcome == Continue {
        SmallChunksAllArrive(ms, chunks, now);
      }
    } else {
      var chunks, ms := SomeChunkStops(n);
    }
  }
}
