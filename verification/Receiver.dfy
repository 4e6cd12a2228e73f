/** The receive loop: socket chunks in, decoded messages pushed on the inbound queue. */
module Receiver {
  import opened Options
  import opened Bytes
  import opened Framing
  import opened Reconstruction
  import opened Gcmd

  /** Messages decoded from a batch, and the exception that cut it short, if any. */
  datatype Batch = Batch(messages: seq<MDMessage>, error: Option<DecodeError>)

  /** How the receiving thread stands after a chunk. */
  datatype Outcome = Continue | Overflow | BadMessage(error: DecodeError)

  function AfterBatch(b: Batch): Outcome {
    match b.error
    case None => Continue
    case Some(e) => BadMessage(e)
  }

  /** Where the frame at `ptr` ends. */
  function FrameEnd(mem: seq<byte>, ptr: nat): nat
    requires ptr + HEADER_SIZE <= |mem|
  {
    ptr + HEADER_SIZE + mem[ptr] as int + 256 * mem[ptr + 1] as int
  }

  /** `count` whole frames lie back to back in `mem` from `ptr` on. */
  predicate HoldsFrames(mem: seq<byte>, ptr: nat, count: nat)
    decreases count
  {
    count == 0 ||
    (ptr + HEADER_SIZE <= |mem| && FrameEnd(mem, ptr) <= |mem| && HoldsFrames(mem, FrameEnd(mem, ptr), count - 1))
  }

  /** Decode those frames in order, up to the first that does not decode. */
  function Walk(mem: seq<byte>, ptr: nat, count: nat): Batch
    requires HoldsFrames(mem, ptr, count)
    decreases count
  {
    if count == 0 then Batch([], None)
    else
      match Decode(mem[ptr..])
      case Err(e) => Batch([], Some(e))
      case Ok(m) => Prepend([m], Walk(mem, FrameEnd(mem, ptr), count - 1))
  }

  /** Decode each frame on its own. */
  function DecodeFrames(fs: seq<seq<byte>>): Batch {
    if |fs| == 0 then Batch([], None)
    else
      match Decode(fs[0])
      case Err(e) => Batch([], Some(e))
      case Ok(m) =>
        Prepend([m], DecodeFrames(fs[1..]))
  }

  function Prepend(ms: seq<MDMessage>, b: Batch): Batch {
    Batch(ms + b.messages, b.error)
  }

  lemma PrependAssociates(done: seq<MDMessage>, m: MDMessage, b: Batch)
    ensures Prepend(done, Prepend([m], b)) == Prepend(done + [m], b)
  {
    assert done + ([m] + b.messages) == done + [m] + b.messages;
  }

  predicate AllWellSized(fs: seq<seq<byte>>) {
    forall f | f in fs :: WellSized(f)
  }

  /** The latest heartbeat timestamp seen, starting from `last`. */
  function LatestHeartbeat(last: u64, ms: seq<MDMessage>): u64 {
    if |ms| == 0 then last
    else
      var before := LatestHeartbeat(last, ms[..|ms| - 1]);
      var m := ms[|ms| - 1];
      if m.HeartbeatMessage? && m.heartbeat > before then m.heartbeat else before
  }

  /** It is the maximum of the start value and the heartbeats. */
  lemma {:induction false} LatestHeartbeatIsMax(last: u64, ms: seq<MDMessage>)
    ensures var r := LatestHeartbeat(last, ms);
      && r >= last
      && (forall m | m in ms && m.HeartbeatMessage? :: m.heartbeat <= r)
      && (r == last || HeartbeatMessage(r) in ms)
  {
    if |ms| > 0 {
      var k := |ms| - 1;
      LatestHeartbeatIsMax(last, ms[..k]);
      assert ms == ms[..k] + [ms[k]];
    }
  }

  lemma LatestHeartbeatStep(last: u64, done: seq<MDMessage>, m: MDMessage)
    ensures var before := LatestHeartbeat(last, done);
      LatestHeartbeat(last, done + [m])
        == if m.HeartbeatMessage? && m.heartbeat > before then m.heartbeat else before
  {
    assert (done + [m])[..|done|] == done;
  }

  /** Walking the buffer by header lengths finds the frames ... */
  lemma {:induction false} WalkFindsFrames(fs: seq<seq<byte>>, mem: seq<byte>, ptr: nat)
    requires AllFrames(fs)
    requires ptr <= |mem| && Flatten(fs) <= mem[ptr..]
    ensures HoldsFrames(mem, ptr, |fs|)
  {
    if |fs| > 0 {
      FirstFrame(fs, mem, ptr);
      WalkFindsFrames(fs[1..], mem, ptr + |fs[0]|);
    }
  }

  lemma FirstFrame(fs: seq<seq<byte>>, mem: seq<byte>, ptr: nat)
    requires AllFrames(fs) && |fs| > 0
    requires ptr <= |mem| && Flatten(fs) <= mem[ptr..]
    ensures IsFrame(fs[0])
    ensures ptr + |fs[0]| <= |mem| && FrameEnd(mem, ptr) == ptr + |fs[0]|
    ensures mem[ptr..] == fs[0] + mem[ptr + |fs[0]|..]
    ensures Flatten(fs[1..]) <= mem[ptr + |fs[0]|..]
  {
    var f, view := fs[0], mem[ptr..];
    assert f in fs && f <= view;
    assert view == f + mem[ptr + |f|..];
    assert mem[ptr] == view[0] == f[0] && mem[ptr + 1] == view[1] == f[1];
  }

  /** Decoding the frames in order comes to one that is shorter than its struct. */
  predicate ReachesShort(fs: seq<seq<byte>>) {
    |fs| > 0 && (!WellSized(fs[0]) || (Decode(fs[0]).Ok? && ReachesShort(fs[1..])))
  }

  lemma ShortAlone(f: seq<byte>)
    requires IsFrame(f)
    ensures !WellSized(f) <==> Decode(f) == Err(OutOfBounds)
  {
  }

  lemma {:induction false} ShortIsOutOfBounds(fs: seq<seq<byte>>)
    requires AllFrames(fs)
    ensures ReachesShort(fs) <==> DecodeFrames(fs).error == Some(OutOfBounds)
  {
    if |fs| > 0 {
      assert fs[0] in fs;
      ShortAlone(fs[0]);
      assert forall f | f in fs[1..] :: f in fs;
      ShortIsOutOfBounds(fs[1..]);
    }
  }

  lemma {:induction false} WellSizedNeverShort(fs: seq<seq<byte>>)
    requires AllWellSized(fs)
    ensures !ReachesShort(fs)
  {
    if |fs| > 0 {
      assert fs[0] in fs;
      WellSizedNeverShort(fs[1..]);
    }
  }

  /** ... and, unless it comes to a short one, decodes each of them by itself. */
  lemma {:induction false} WalkDecodesFrames(fs: seq<seq<byte>>, mem: seq<byte>, ptr: nat)
    requires AllFrames(fs) && !ReachesShort(fs)
    requires ptr <= |mem| && Flatten(fs) <= mem[ptr..] && HoldsFrames(mem, ptr, |fs|)
    ensures Walk(mem, ptr, |fs|) == DecodeFrames(fs)
  {
    if |fs| > 0 {
      FirstFrame(fs, mem, ptr);
      DecodeIsLocal(fs[0], mem[ptr + |fs[0]|..]);
      if Decode(fs[0]).Ok? {
        assert forall f | f in fs[1..] :: f in fs;
        WalkDecodesFrames(fs[1..], mem, ptr + |fs[0]|);
      }
    }
  }

  lemma FramesInBuffer(s: seq<byte>, mem: seq<byte>)
    requires s <= mem
    ensures HoldsFrames(mem, 0, |Frames(s)|)
    ensures AllFrames(Frames(s)) && !HasFrame(Rest(s))
    ensures !ReachesShort(Frames(s)) ==> Walk(mem, 0, |Frames(s)|) == DecodeFrames(Frames(s))
  {
    ParseReassembles(s);
    assert Flatten(Frames(s)) <= s <= mem[0..];
    WalkFindsFrames(Frames(s), mem, 0);
    if !ReachesShort(Frames(s)) {
      WalkDecodesFrames(Frames(s), mem, 0);
    }
  }

  /** The one-shot decoding of a stream. */
  function DecodeStream(s: seq<byte>): Batch {
    DecodeFrames(Frames(s))
  }

  /** The receiving thread's state: chunks taken, bytes held, messages pushed, last heartbeat. */
  datatype Rx = Rx(taken: nat, pending: seq<byte>, pushed: seq<MDMessage>, lastHeartbeat: u64, outcome: Outcome)

  function ReceiveStep(st: Rx, chunk: seq<byte>): Rx {
    var s := st.pending + chunk;
    if !st.outcome.Continue? then st
    else if |s| > BUFFER_SIZE then st.(outcome := Overflow)
    else
      Took(st, Rest(s), DecodeStream(s))
  }

  /** A chunk was taken, leaving `rest` held, and `b` is what came of its frames. */
  function Took(st: Rx, rest: seq<byte>, b: Batch): Rx {
    Rx(st.taken + 1, rest, st.pushed + b.messages, LatestHeartbeat(st.lastHeartbeat, b.messages), AfterBatch(b))
  }

  function ReceiveAll(st: Rx, chunks: seq<seq<byte>>): Rx {
    if |chunks| == 0 then st
    else ReceiveStep(ReceiveAll(st, chunks[..|chunks| - 1]), chunks[|chunks| - 1])
  }

  lemma {:induction false} DecodeFramesAppend(a: seq<seq<byte>>, b: seq<seq<byte>>)
    requires DecodeFrames(a).error == None
    ensures DecodeFrames(a + b) == Prepend(DecodeFrames(a).messages, DecodeFrames(b))
  {
    if |a| == 0 {
      assert a + b == b;
      assert [] + DecodeFrames(b).messages == DecodeFrames(b).messages;
    } else {
      assert (a + b)[1..] == a[1..] + b;
      DecodeFramesAppend(a[1..], b);
      PrependJoins(Decode(a[0]).value, DecodeFrames(a[1..]).messages, DecodeFrames(b));
    }
  }

  lemma PrependJoins(m: MDMessage, ms: seq<MDMessage>, b: Batch)
    ensures Prepend([m], Prepend(ms, b)) == Prepend([m] + ms, b)
  {
    assert [m] + (ms + b.messages) == [m] + ms + b.messages;
  }

  lemma {:induction false} LatestHeartbeatAppend(last: u64, a: seq<MDMessage>, b: seq<MDMessage>)
    ensures LatestHeartbeat(last, a + b) == LatestHeartbeat(LatestHeartbeat(last, a), b)
  {
    if |b| == 0 {
      assert a + b == a;
    } else {
      var k := |b| - 1;
      assert a + b == (a + b[..k]) + [b[k]];
      LatestHeartbeatAppend(last, a, b[..k]);
      LatestHeartbeatStep(last, a + b[..k], b[k]);
    }
  }

  /** The bytes taken up to now. */
  function Taken(start: Rx, chunks: seq<seq<byte>>, taken: nat): seq<byte>
    requires taken <= |chunks|
  {
    start.pending + Flatten(chunks[..taken])
  }

  /** `st` is what taking the bytes `s` demands: their frames decoded in one go, the rest held. */
  predicate Explains(start: Rx, s: seq<byte>, st: Rx) {
    var b := DecodeStream(s);
    && st.pending == Rest(s)
    && st.pushed == start.pushed + b.messages
    && st.lastHeartbeat == LatestHeartbeat(start.lastHeartbeat, b.messages)
    && b.error == (if st.outcome.BadMessage? then Some(st.outcome.error) else None)
  }

  lemma DecodeStreamResumes(s: seq<byte>, c: seq<byte>)
    requires DecodeStream(s).error == None
    ensures DecodeStream(s + c) == Prepend(DecodeStream(s).messages, DecodeStream(Rest(s) + c))
  {
    ParseAppend(s, c);
    DecodeFramesAppend(Frames(s), Frames(Rest(s) + c));
  }

  lemma TakenStep(start: Rx, chunks: seq<seq<byte>>, k: nat)
    requires k < |chunks|
    ensures Taken(start, chunks, k + 1) == Taken(start, chunks, k) + chunks[k]
    ensures Taken(start, chunks[..k], k) == Taken(start, chunks, k)
  {
    assert chunks[..k + 1] == chunks[..k] + [chunks[k]];
    FlattenSnoc(chunks[..k], chunks[k]);
    assert chunks[..k][..k] == chunks[..k];
  }

  lemma JoinBatches(pushed: seq<MDMessage>, last: u64, a: seq<MDMessage>, b: Batch)
    ensures pushed + a + b.messages == pushed + Prepend(a, b).messages
    ensures LatestHeartbeat(LatestHeartbeat(last, a), b.messages) == LatestHeartbeat(last, Prepend(a, b).messages)
  {
    LatestHeartbeatAppend(last, a, b.messages);
    assert pushed + a + b.messages == pushed + (a + b.messages);
  }

  lemma ExplainsStep(start: Rx, s: seq<byte>, st: Rx, c: seq<byte>)
    requires st.outcome.Continue? && Explains(start, s, st) && |st.pending + c| <= BUFFER_SIZE
    ensures Explains(start, s + c, ReceiveStep(st, c))
  {
    DecodeStreamResumes(s, c);
    ParseAppend(s, c);
    JoinBatches(start.pushed, start.lastHeartbeat, DecodeStream(s).messages, DecodeStream(st.pending + c));
  }

  /** However the bytes were cut, when each frame is decoded by itself the messages pushed are the
      decoding of the one-shot parse of the bytes taken; and all chunks are taken unless one throws.
      OneShotExactlyWhen says for which bytes that is what the thread does. */
  lemma {:induction false} ReceiveIsOneShotDecode(start: Rx, chunks: seq<seq<byte>>)
    requires start.taken == 0 && start.outcome.Continue? && !HasFrame(start.pending)
    ensures var st := ReceiveAll(start, chunks);
      && st.taken <= |chunks|
      && Explains(start, Taken(start, chunks, st.taken), st)
      && (st.outcome.Continue? ==> st.taken == |chunks|)
      && (st.outcome.Overflow? ==> st.taken < |chunks| && |st.pending| + |chunks[st.taken]| > BUFFER_SIZE)
  {
    if |chunks| == 0 {
      assert Taken(start, chunks, 0) == start.pending;
    } else {
      var k := |chunks| - 1;
      ReceiveIsOneShotDecode(start, chunks[..k]);
      var st := ReceiveAll(start, chunks[..k]);
      assert chunks[..k][..st.taken] == chunks[..st.taken];
      TakenStep(start, chunks, k);
      if st.outcome.Continue? && |st.pending + chunks[k]| <= BUFFER_SIZE {
        ExplainsStep(start, Taken(start, chunks, k), st, chunks[k]);
      }
    }
  }

  type Memory = m: seq<byte> | |m| == BUFFER_SIZE witness seq(BUFFER_SIZE, _ => 0)

  /** The thread with the whole contents of the reconstructor's buffer: a frame shorter than its
      type's struct is decoded together with whatever lies behind it. */
  datatype Thread = Thread(rx: Rx, mem: Memory)

  /** One turn of the loop, whatever the bytes. */
  function Turn(th: Thread, chunk: seq<byte>): Thread {
    var s := th.rx.pending + chunk;
    if !th.rx.outcome.Continue? then th
    else if chunk == [] then th.(rx := th.rx.(taken := th.rx.taken + 1))
    else if |s| > BUFFER_SIZE then th.(rx := th.rx.(outcome := Overflow))
    else
      var mem := s + th.mem[|s|..];
      FramesInBuffer(s, mem);
      Thread(Took(th.rx, Rest(s), Walk(mem, 0, |Frames(s)|)), mem)
  }

  function TurnAll(th: Thread, chunks: seq<seq<byte>>): Thread {
    if |chunks| == 0 then th
    else Turn(TurnAll(th, chunks[..|chunks| - 1]), chunks[|chunks| - 1])
  }

  lemma {:induction false} StoppedTurns(th: Thread, chunks: seq<seq<byte>>, k: nat)
    requires k <= |chunks| && !TurnAll(th, chunks[..k]).rx.outcome.Continue?
    ensures TurnAll(th, chunks) == TurnAll(th, chunks[..k])
  {
    if k == |chunks| {
      assert chunks[..k] == chunks;
    } else {
      var n := |chunks| - 1;
      assert chunks[..n][..k] == chunks[..k];
      StoppedTurns(th, chunks[..n], k);
    }
  }

  lemma TurnIsReceiveStep(th: Thread, chunk: seq<byte>)
    requires !HasFrame(th.rx.pending) && |th.rx.pending| <= BUFFER_SIZE
    requires !ReachesShort(Frames(th.rx.pending + chunk))
    ensures Turn(th, chunk).rx == ReceiveStep(th.rx, chunk)
  {
    var s := th.rx.pending + chunk;
    if chunk == [] {
      assert s == th.rx.pending;
    } else if |s| <= BUFFER_SIZE {
      FramesInBuffer(s, s + th.mem[|s|..]);
    }
  }

  lemma {:induction false} StoppedStaysStopped(start: Rx, chunks: seq<seq<byte>>, k: nat)
    requires k <= |chunks| && !ReceiveAll(start, chunks[..k]).outcome.Continue?
    ensures ReceiveAll(start, chunks) == ReceiveAll(start, chunks[..k])
  {
    if k == |chunks| {
      assert chunks[..k] == chunks;
    } else {
      var n := |chunks| - 1;
      assert chunks[..n][..k] == chunks[..k];
      StoppedStaysStopped(start, chunks[..n], k);
    }
  }

  lemma {:induction false} TurnsCounted(th: Thread, chunks: seq<seq<byte>>)
    requires th.rx.taken == 0 && th.rx.outcome.Continue?
    ensures var st := TurnAll(th, chunks).rx;
      st.taken <= |chunks| && (st.outcome.Continue? ==> st.taken == |chunks|)
  {
    if |chunks| > 0 {
      TurnsCounted(th, chunks[..|chunks| - 1]);
    }
  }

  /** The bytes a thread has taken. */
  function TakenBy(th: Thread, chunks: seq<seq<byte>>): seq<byte>
    requires th.rx.taken == 0 && th.rx.outcome.Continue?
  {
    TurnsCounted(th, chunks);
    Taken(th.rx, chunks, TurnAll(th, chunks).rx.taken)
  }

  lemma ShortStays(s: seq<byte>, c: seq<byte>)
    requires !ReachesShort(Frames(s + c))
    ensures !ReachesShort(Frames(s))
    ensures DecodeStream(s).error == None ==> !ReachesShort(Frames(Rest(s) + c))
  {
    ParseAppend(s, c);
    ShortAppend(Frames(s), Frames(Rest(s) + c));
  }

  lemma {:induction false} ShortAppend(a: seq<seq<byte>>, b: seq<seq<byte>>)
    requires !ReachesShort(a + b)
    ensures !ReachesShort(a) && (DecodeFrames(a).error == None ==> !ReachesShort(b))
  {
    if |a| == 0 {
      assert a + b == b;
    } else {
      assert (a + b)[1..] == a[1..] + b;
      if Decode(a[0]).Ok? {
        ShortAppend(a[1..], b);
      }
    }
  }

  predicate Startable(th: Thread) {
    th.rx.taken == 0 && th.rx.outcome.Continue? && !HasFrame(th.rx.pending) && |th.rx.pending| <= BUFFER_SIZE
  }

  /** The last chunk, if the thread still runs: taken behind what was taken before, or too large. */
  lemma LastTaken(th: Thread, chunks: seq<seq<byte>>)
    requires Startable(th) && |chunks| > 0
    ensures var k := |chunks| - 1;
      var st, s := TurnAll(th, chunks[..k]).rx, TakenBy(th, chunks[..k]);
      TakenBy(th, chunks) ==
        if st.outcome.Continue? && (chunks[k] == [] || |st.pending + chunks[k]| <= BUFFER_SIZE)
        then s + chunks[k] else s
  {
    var k := |chunks| - 1;
    var st := TurnAll(th, chunks[..k]).rx;
    TurnsCounted(th, chunks[..k]);
    TakenStep(th.rx, chunks, k);
    assert chunks[..k][..st.taken] == chunks[..st.taken];
  }

  lemma LastTurn(th: Thread, chunks: seq<seq<byte>>)
    requires Startable(th) && |chunks| > 0
    requires var k := |chunks| - 1;
      TurnAll(th, chunks[..k]).rx == ReceiveAll(th.rx, chunks[..k]) && ReceiveAll(th.rx, chunks[..k]).outcome.Continue?
    requires !ReachesShort(Frames(TakenBy(th, chunks)))
    ensures TurnAll(th, chunks).rx == ReceiveAll(th.rx, chunks)
  {
    var k := |chunks| - 1;
    var before, c := TurnAll(th, chunks[..k]), chunks[k];
    var s := TakenBy(th, chunks[..k]);
    ReceiveIsOneShotDecode(th.rx, chunks[..k]);
    LastTaken(th, chunks);
    ParseReassembles(s);
    HeldFits(th.rx, chunks[..k]);
    if c == [] || |before.rx.pending + c| <= BUFFER_SIZE {
      ShortStays(s, c);
      TurnIsReceiveStep(before, c);
    }
  }

  /** Where no short frame is reached, the whole buffer makes no difference. */
  lemma {:induction false} TurnsAreReceives(th: Thread, chunks: seq<seq<byte>>)
    requires Startable(th) && !ReachesShort(Frames(TakenBy(th, chunks)))
    ensures TurnAll(th, chunks).rx == ReceiveAll(th.rx, chunks)
  {
    if |chunks| > 0 {
      var k := |chunks| - 1;
      ShortBefore(th, chunks);
      TurnsAreReceives(th, chunks[..k]);
      if ReceiveAll(th.rx, chunks[..k]).outcome.Continue? {
        LastTurn(th, chunks);
      }
    }
  }

  lemma ShortBefore(th: Thread, chunks: seq<seq<byte>>)
    requires Startable(th) && |chunks| > 0 && !ReachesShort(Frames(TakenBy(th, chunks)))
    ensures !ReachesShort(Frames(TakenBy(th, chunks[..|chunks| - 1])))
  {
    var s, c := TakenBy(th, chunks[..|chunks| - 1]), chunks[|chunks| - 1];
    LastTaken(th, chunks);
    if TakenBy(th, chunks) == s + c {
      ShortStays(s, c);
    }
  }

  /** In particular on a stream of frames at least as long as their structs. */
  lemma WellSizedTurns(th: Thread, chunks: seq<seq<byte>>)
    requires Startable(th)
    requires AllWellSized(Frames(th.rx.pending + Flatten(chunks)))
    ensures TurnAll(th, chunks).rx == ReceiveAll(th.rx, chunks)
  {
    TurnsCounted(th, chunks);
    var k := TurnAll(th, chunks).rx.taken;
    WholeIsTakenAndRest(th.rx, chunks, k);
    PrefixWellSized(Taken(th.rx, chunks, k), Flatten(chunks[k..]));
    WellSizedNeverShort(Frames(Taken(th.rx, chunks, k)));
    TurnsAreReceives(th, chunks);
  }

  lemma WholeIsTakenAndRest(start: Rx, chunks: seq<seq<byte>>, k: nat)
    requires k <= |chunks|
    ensures start.pending + Flatten(chunks) == Taken(start, chunks, k) + Flatten(chunks[k..])
  {
    FlattenSplit(chunks, k);
  }

  lemma PrefixWellSized(a: seq<byte>, b: seq<byte>)
    requires AllWellSized(Frames(a + b))
    ensures AllWellSized(Frames(a))
  {
    ParseAppend(a, b);
  }

  /** The thread pushes the decoding of the one-shot parse if decoding that comes to no short frame;
      and unless it read past the end of its buffer, only if. */
  lemma OneShotExactlyWhen(th: Thread, chunks: seq<seq<byte>>)
    requires Startable(th)
    ensures var st, s := TurnAll(th, chunks).rx, TakenBy(th, chunks);
      && (!ReachesShort(Frames(s)) ==> Explains(th.rx, s, st))
      && (st.outcome != BadMessage(OutOfBounds) ==> (Explains(th.rx, s, st) <==> !ReachesShort(Frames(s))))
  {
    var s := TakenBy(th, chunks);
    ParseReassembles(s);
    ShortIsOutOfBounds(Frames(s));
    if !ReachesShort(Frames(s)) {
      TurnsAreReceives(th, chunks);
      ReceiveIsOneShotDecode(th.rx, chunks);
    }
  }

  const EMPTY_HEARTBEAT: seq<byte> := [0, 0, 3, 1]

  /** A heartbeat frame without a body: the thread pushes a heartbeat made of the eight bytes that
      happen to lie behind it; by itself the frame does not decode. */
  lemma ShortFrameReadsOn(mem: Memory, now: u64)
    ensures var th := Turn(Thread(Rx(0, [], [], now, Continue), mem), EMPTY_HEARTBEAT);
      && th.rx.pushed == [HeartbeatMessage(Read64(mem[4..12]))] && th.rx.outcome == Continue
    ensures DecodeStream(EMPTY_HEARTBEAT) == Batch([], Some(OutOfBounds))
  {
    var c := EMPTY_HEARTBEAT;
    var after := c + mem[4..];
    assert [] + c == c;
    assert c[..4] == c && c[4..] == [];
    assert Frames(c) == [c] + Frames([]) == [c];
    FramesInBuffer(c, after);
    assert after[0..] == after;
    assert after[4..12] == mem[4..12];
    assert Decode(after) == Ok(HeartbeatMessage(Read64(mem[4..12])));
    assert Walk(after, 4, 0) == Batch([], None);
  }

  lemma {:induction false} HeldFits(start: Rx, chunks: seq<seq<byte>>)
    requires |start.pending| <= BUFFER_SIZE
    ensures |ReceiveAll(start, chunks).pending| <= BUFFER_SIZE
  {
    if |chunks| > 0 {
      HeldFits(start, chunks[..|chunks| - 1]);
    }
  }

  class NetworkMessageReceiver {
    const reconstructor: MessageReconstructor
    const networkBuffer: array<byte>
    var lastHeartbeat: u64
    /** Everything pushed on the inbound queue so far, in order. */
    var pushed: seq<MDMessage>
    /** The number of chunks taken so far. */
    ghost var taken: nat

    ghost predicate Valid()
      reads this, reconstructor, reconstructor.buffer
    {
      && reconstructor.Valid()
      && networkBuffer.Length == BUFFER_SIZE
      && networkBuffer != reconstructor.buffer
      && !HasFrame(reconstructor.Pending())
    }

    /** The model state of the thread. */
    ghost function Snapshot(outcome: Outcome): Rx
      requires Valid()
      reads this, reconstructor, reconstructor.buffer
    {
      Rx(taken, reconstructor.Pending(), pushed, lastHeartbeat, outcome)
    }

    /** ... with the whole receive buffer. */
    ghost function Whole(outcome: Outcome): Thread
      requires Valid()
      reads this, reconstructor, reconstructor.buffer
    {
      Thread(Snapshot(outcome), reconstructor.buffer[..])
    }

    constructor (now: u64)
      ensures Valid() && fresh(reconstructor) && fresh(networkBuffer) && fresh(reconstructor.buffer)
      ensures Snapshot(Continue) == Rx(0, [], [], now, Continue)
    {
      var r := new MessageReconstructor();
      reconstructor := r;
      networkBuffer := new byte[BUFFER_SIZE];
      lastHeartbeat := now;
      pushed := [];
      taken := 0;
    }

    /** One turn of the loop; `chunk` is what the socket delivered. */
    method TryReceive(chunk: seq<byte>) returns (outcome: Outcome)
      requires Valid() && |chunk| <= BUFFER_SIZE
      modifies this, reconstructor, reconstructor.buffer, networkBuffer
      ensures Valid()
      ensures Whole(outcome) == Turn(old(Whole(Continue)), chunk)
    {
      if |chunk| == 0 {
        taken := taken + 1;
        return Continue;
      }
      CopyInto(networkBuffer, 0, chunk);
      ghost var s := reconstructor.Pending() + chunk;
      assert reconstructor.Pending() + networkBuffer[..|chunk|] == s;
      var r := reconstructor.Receive(networkBuffer, |chunk|);
      if r.BadAlloc? {
        return Overflow;
      }
      outcome := HandOver(r.batch.count, old(Whole(Continue)), chunk);
    }

    /** The rest of the turn, once the reconstructor has taken the chunk. */
    method HandOver(count: nat, ghost before: Thread, ghost chunk: seq<byte>) returns (outcome: Outcome)
      requires reconstructor.Valid() && networkBuffer.Length == BUFFER_SIZE && networkBuffer != reconstructor.buffer
      requires before.rx.taken == taken && before.rx.pushed == pushed && before.rx.lastHeartbeat == lastHeartbeat
      requires var s := before.rx.pending + chunk;
        && before.rx.outcome == Continue && chunk != [] && |s| <= BUFFER_SIZE
        && reconstructor.buffer[..] == s + before.mem[|s|..]
        && count == |Frames(s)| && reconstructor.Pending() == Rest(s)
      modifies this
      ensures Valid()
      ensures Whole(outcome) == Turn(before, chunk)
    {
      ghost var s := before.rx.pending + chunk;
      ghost var mem := reconstructor.buffer[..];
      assert HoldsFrames(mem, 0, |Frames(s)|) && !HasFrame(Rest(s)) by {
        FramesInBuffer(s, mem);
      }
      outcome := PushBatch(count);
      taken := taken + 1;
      assert reconstructor.buffer[..] == mem;
      assert Snapshot(outcome) == Took(before.rx, Rest(s), Walk(mem, 0, |Frames(s)|));
    }

    /** The receiving thread: turns of the loop until the chunks run out or one of them throws. */
    method Run(chunks: seq<seq<byte>>) returns (outcome: Outcome)
      requires Valid() && forall c | c in chunks :: |c| <= BUFFER_SIZE
      modifies this, reconstructor, reconstructor.buffer, networkBuffer
      ensures Valid()
      ensures Whole(outcome) == TurnAll(old(Whole(Continue)), chunks)
    {
      ghost var start := Whole(Continue);
      var i := 0;
      outcome := Continue;
      while i < |chunks|
        invariant Valid() && outcome == Continue && 0 <= i <= |chunks|
        invariant Whole(Continue) == TurnAll(start, chunks[..i])
      {
        outcome := TryReceive(chunks[i]);
        assert chunks[..i + 1][..i] == chunks[..i];
        if outcome != Continue {
          StoppedTurns(start, chunks, i + 1);
          return;
        }
        i := i + 1;
      }
      assert chunks[..i] == chunks;
    }

    /** Note a heartbeat, then push the message. */
    method PushOne(message: MDMessage, ghost last: u64, ghost done: seq<MDMessage>)
      requires lastHeartbeat == LatestHeartbeat(last, done)
      modifies this`pushed, this`lastHeartbeat
      ensures pushed == old(pushed) + [message]
      ensures lastHeartbeat == LatestHeartbeat(last, done + [message])
    {
      LatestHeartbeatStep(last, done, message);
      if message.HeartbeatMessage? && message.heartbeat > lastHeartbeat {
        lastHeartbeat := message.heartbeat;
      }
      pushed := pushed + [message];
    }

    /** The loop over the frames handed out. */
    method PushBatch(count: nat) returns (outcome: Outcome)
      requires HoldsFrames(reconstructor.buffer[..], 0, count)
      modifies this`pushed, this`lastHeartbeat
      ensures var b := Walk(reconstructor.buffer[..], 0, count);
        && pushed == old(pushed) + b.messages
        && lastHeartbeat == LatestHeartbeat(old(lastHeartbeat), b.messages)
        && outcome == AfterBatch(b)
    {
      ghost var mem := reconstructor.buffer[..];
      ghost var total := Walk(mem, 0, count);
      ghost var done: seq<MDMessage> := [];
      var ptr: nat, i: nat := 0, 0;
      assert done + total.messages == total.messages;
      while i < count
        invariant i <= count && HoldsFrames(mem, ptr, count - i)
        invariant pushed == old(pushed) + done
        invariant lastHeartbeat == LatestHeartbeat(old(lastHeartbeat), done)
        invariant total == Prepend(done, Walk(mem, ptr, count - i))
      {
        var decoded := Decode(reconstructor.buffer[ptr..]);
        if decoded.Err? {
          assert done + [] == done;
          return BadMessage(decoded.error);
        }
        PrependAssociates(done, decoded.value, Walk(mem, FrameEnd(mem, ptr), count - i - 1));
        PushOne(decoded.value, old(lastHeartbeat), done);
        done := done + [decoded.value];
        ptr := FrameEnd(reconstructor.buffer[..], ptr);
        i := i + 1;
      }
      assert done + [] == done;
      return Continue;
    }
  }
}
