/** Market-data messages and their packed wire format. */
module Gcmd {
  import opened Bytes
  import opened Framing
  import opened Layout

  type Symbol = s: seq<byte> | |s| == 12 witness seq(12, _ => 0)

  const BLANK: Symbol := [0, 0, 0, 0, 0, 0, 0, 0, 0, 0, 0, 0]

  datatype Aggressor = AggressorBuy | AggressorSell | AggressorUnknown

  datatype SessionState = Open | Halt | Close

  datatype Quote = Quote(symbol: Symbol, timestamp: u64,
                         bidQuantity: u32, bidPrice: i64, askQuantity: u32, askPrice: i64)

  datatype Trade = Trade(symbol: Symbol, timestamp: u64, quantity: u32, price: i64,
                         aggressor: Aggressor, id: i64)

  datatype MDMessage =
    | QuoteMessage(quote: Quote)
    | TradeMessage(trade: Trade)
    | HeartbeatMessage(heartbeat: u64)
    | SessionMessage(timestamp: u64, state: SessionState)

  datatype DecodeError = UnknownType | UnknownAggressor | UnknownState | OutOfBounds

  datatype Result<+T> = Ok(value: T) | Err(error: DecodeError)

  const QUOTE := 1
  const TRADE := 2
  const HEARTBEAT := 3
  const SESSION_CONTROL := 4
  const PROTOCOL_VERSION := 1

  /** sizeof the packed body struct of a known message type. */
  function BodySize(msgType: byte): nat
    requires QUOTE <= msgType <= SESSION_CONTROL
  {
    if msgType == QUOTE then 44
    else if msgType == TRADE then 41
    else if msgType == HEARTBEAT then 8
    else 9
  }

  function AggressorToChar(a: Aggressor): byte {
    match a
    case AggressorBuy => 'B' as int
    case AggressorSell => 'S' as int
    case AggressorUnknown => '?' as int
  }

  function AggressorFromChar(c: byte): Result<Aggressor> {
    if c == 'B' as int then Ok(AggressorBuy)
    else if c == 'S' as int then Ok(AggressorSell)
    else if c == '?' as int then Ok(AggressorUnknown)
    else Err(UnknownAggressor)
  }

  function StateToNum(s: SessionState): byte {
    match s
    case Open => 0
    case Close => 1
    case Halt => 2
  }

  function StateFromNum(n: byte): Result<SessionState> {
    if n == 0 then Ok(Open)
    else if n == 1 then Ok(Halt)
    else if n == 2 then Ok(Close)
    else Err(UnknownState)
  }

  // ---- Encoding ----

  function QuoteBody(q: Quote): (b: seq<byte>)
    ensures |b| == BodySize(QUOTE)
  {
    q.symbol + Field64(q.timestamp) + Field32(q.bidQuantity) + FieldI64(q.bidPrice)
    + Field32(q.askQuantity) + FieldI64(q.askPrice)
  }

  function TradeBody(t: Trade): (b: seq<byte>)
    ensures |b| == BodySize(TRADE)
  {
    t.symbol + Field64(t.timestamp) + Field32(t.quantity) + FieldI64(t.price)
    + [AggressorToChar(t.aggressor)] + FieldI64(t.id)
  }

  function TypeOf(m: MDMessage): byte {
    match m
    case QuoteMessage(_) => QUOTE
    case TradeMessage(_) => TRADE
    case HeartbeatMessage(_) => HEARTBEAT
    case SessionMessage(_, _) => SESSION_CONTROL
  }

  function Body(m: MDMessage): (b: seq<byte>)
    ensures |b| == BodySize(TypeOf(m))
  {
    match m
    case QuoteMessage(q) => QuoteBody(q)
    case TradeMessage(t) => TradeBody(t)
    case HeartbeatMessage(ts) => Field64(ts)
    case SessionMessage(ts, s) => Field64(ts) + [StateToNum(s)]
  }

  function Header(bodyLen: nat, msgType: byte): (h: seq<byte>)
    ensures |h| == HEADER_SIZE
  {
    LE(bodyLen, 2) + [msgType, PROTOCOL_VERSION]
  }

  function Encode(m: MDMessage): (f: seq<byte>)
    ensures |f| == HEADER_SIZE + BodySize(TypeOf(m))
  {
    Header(BodySize(TypeOf(m)), TypeOf(m)) + Body(m)
  }

  const MAX_FRAME_SIZE := 48

  lemma EncodeIsFrame(m: MDMessage)
    ensures IsFrame(Encode(m)) && |Encode(m)| <= MAX_FRAME_SIZE
    ensures Encode(m)[2] == TypeOf(m)
    ensures Encode(m)[HEADER_SIZE..] == Body(m)
  {
    var n := BodySize(TypeOf(m));
    assert LE(n, 2) == [n % 256] + LE(n / 256, 1);
    assert LE(n / 256, 1) == [n / 256 % 256] + LE(n / 256 / 256, 0);
    assert Encode(m)[0] == n && Encode(m)[1] == 0;
  }

  // ---- The frames, byte by byte ----

  predicate HeartbeatLayout(f: seq<byte>, timestamp: u64) {
    |f| == 12 && f[0] == 8 && f[1] == 0 && f[2] == 3 && f[3] == 1 && U64At(f, 4) == timestamp
  }

  predicate QuoteLayout(f: seq<byte>, q: Quote) {
    && |f| == 48 && f[0] == 44 && f[1] == 0 && f[2] == 1 && f[3] == 1
    && f[4..16] == q.symbol && U64At(f, 16) == q.timestamp
    && U32At(f, 24) == q.bidQuantity && U64At(f, 28) == TwosComplement(q.bidPrice)
    && U32At(f, 36) == q.askQuantity && U64At(f, 40) == TwosComplement(q.askPrice)
  }

  predicate TradeLayout(f: seq<byte>, t: Trade) {
    && |f| == 45 && f[0] == 41 && f[1] == 0 && f[2] == 2 && f[3] == 1
    && f[4..16] == t.symbol && U64At(f, 16) == t.timestamp
    && U32At(f, 24) == t.quantity && U64At(f, 28) == TwosComplement(t.price)
    && f[36] == (match t.aggressor case AggressorBuy => 66 case AggressorSell => 83 case AggressorUnknown => 63)
    && U64At(f, 37) == TwosComplement(t.id)
  }

  predicate SessionLayout(f: seq<byte>, timestamp: u64, state: SessionState) {
    && |f| == 13 && f[0] == 9 && f[1] == 0 && f[2] == 4 && f[3] == 1
    && U64At(f, 4) == timestamp && f[12] == (match state case Open => 0 case Close => 1 case Halt => 2)
  }

  lemma HeaderBytes(m: MDMessage)
    ensures var f := Encode(m);
      f[0] == BodySize(TypeOf(m)) && f[1] == 0 && f[2] == TypeOf(m) && f[3] == 1 && f[HEADER_SIZE..] == Body(m)
  {
    var n := BodySize(TypeOf(m));
    assert LE(n, 2) == [n % 256] + LE(n / 256, 1);
    assert LE(n / 256, 1) == [n / 256 % 256] + LE(n / 256 / 256, 0);
  }

  lemma FromBody(f: seq<byte>, i: nat, j: nat)
    requires HEADER_SIZE + j <= |f| && i <= j
    ensures f[HEADER_SIZE + i..HEADER_SIZE + j] == f[HEADER_SIZE..][i..j]
  {
  }

  lemma HeartbeatLaidOut(timestamp: u64)
    ensures HeartbeatLayout(Encode(HeartbeatMessage(timestamp)), timestamp)
  {
    HeaderBytes(HeartbeatMessage(timestamp));
    Field64At(Encode(HeartbeatMessage(timestamp)), 4, timestamp);
  }

  lemma QuoteFields(q: Quote)
    ensures var b := QuoteBody(q);
      && b[0..12] == q.symbol && b[12..20] == Field64(q.timestamp) && b[20..24] == Field32(q.bidQuantity)
      && b[24..32] == FieldI64(q.bidPrice) && b[32..36] == Field32(q.askQuantity)
      && b[36..44] == FieldI64(q.askPrice)
  {
  }

  lemma QuoteLaidOut(q: Quote)
    ensures QuoteLayout(Encode(QuoteMessage(q)), q)
  {
    var f := Encode(QuoteMessage(q));
    HeaderBytes(QuoteMessage(q));
    QuoteFields(q);
    FromBody(f, 0, 12);
    FromBody(f, 12, 20);
    FromBody(f, 20, 24);
    FromBody(f, 24, 32);
    FromBody(f, 32, 36);
    FromBody(f, 36, 44);
    Field64At(f, 16, q.timestamp);
    Field32At(f, 24, q.bidQuantity);
    FieldI64At(f, 28, q.bidPrice);
    Field32At(f, 36, q.askQuantity);
    FieldI64At(f, 40, q.askPrice);
  }

  lemma TradeFields(t: Trade)
    ensures var b := TradeBody(t);
      && b[0..12] == t.symbol && b[12..20] == Field64(t.timestamp) && b[20..24] == Field32(t.quantity)
      && b[24..32] == FieldI64(t.price) && b[32] == AggressorToChar(t.aggressor) && b[33..41] == FieldI64(t.id)
  {
  }

  lemma TradeLaidOut(t: Trade)
    ensures TradeLayout(Encode(TradeMessage(t)), t)
  {
    var f := Encode(TradeMessage(t));
    HeaderBytes(TradeMessage(t));
    TradeFields(t);
    FromBody(f, 0, 12);
    FromBody(f, 12, 20);
    FromBody(f, 20, 24);
    FromBody(f, 24, 32);
    FromBody(f, 33, 41);
    Field64At(f, 16, t.timestamp);
    Field32At(f, 24, t.quantity);
    FieldI64At(f, 28, t.price);
    FieldI64At(f, 37, t.id);
  }

  lemma SessionLaidOut(timestamp: u64, state: SessionState)
    ensures SessionLayout(Encode(SessionMessage(timestamp, state)), timestamp, state)
  {
    var f := Encode(SessionMessage(timestamp, state));
    HeaderBytes(SessionMessage(timestamp, state));
    FromBody(f, 0, 8);
    Field64At(f, 4, timestamp);
  }

  // ---- The serialisers: they write the caller's buffer in place ----

  method WriteFrame(buffer: array<byte>, m: MDMessage, body: seq<byte>) returns (n: nat)
    requires buffer.Length >= |Encode(m)| && body == Body(m)
    modifies buffer
    ensures n == |Encode(m)|
    ensures buffer[..] == Encode(m) + old(buffer[n..])
  {
    n := WriteParts(buffer, Header(|body|, TypeOf(m)), body);
  }

  /** The two copies: header, then body. */
  method WriteParts(buffer: array<byte>, header: seq<byte>, body: seq<byte>) returns (n: nat)
    requires buffer.Length >= |header| + |body|
    modifies buffer
    ensures n == |header| + |body|
    ensures buffer[..] == header + body + old(buffer[n..])
  {
    CopyInto(buffer, 0, header);
    ghost var mid := buffer[..];
    CopyInto(buffer, |header|, body);
    n := |header| + |body|;
    assert mid[..|header|] == header && mid[n..] == old(buffer[n..]);
  }

  method SerialiseHeartbeat(buffer: array<byte>, timestamp: u64) returns (n: nat)
    requires buffer.Length >= |Encode(HeartbeatMessage(timestamp))|
    modifies buffer
    ensures n == |Encode(HeartbeatMessage(timestamp))|
    ensures buffer[..] == Encode(HeartbeatMessage(timestamp)) + old(buffer[n..])
    ensures n <= buffer.Length && HeartbeatLayout(buffer[..n], timestamp)
  {
    HeartbeatLaidOut(timestamp);
    n := WriteFrame(buffer, HeartbeatMessage(timestamp), Field64(timestamp));
    assert buffer[..n] == Encode(HeartbeatMessage(timestamp));
  }

  method SerialiseQuote(buffer: array<byte>, q: Quote) returns (n: nat)
    requires buffer.Length >= |Encode(QuoteMessage(q))|
    modifies buffer
    ensures n == |Encode(QuoteMessage(q))|
    ensures buffer[..] == Encode(QuoteMessage(q)) + old(buffer[n..])
    ensures n <= buffer.Length && QuoteLayout(buffer[..n], q)
  {
    QuoteLaidOut(q);
    n := WriteFrame(buffer, QuoteMessage(q), QuoteBody(q));
    assert buffer[..n] == Encode(QuoteMessage(q));
  }

  method SerialiseTrade(buffer: array<byte>, t: Trade) returns (n: nat)
    requires buffer.Length >= |Encode(TradeMessage(t))|
    modifies buffer
    ensures n == |Encode(TradeMessage(t))|
    ensures buffer[..] == Encode(TradeMessage(t)) + old(buffer[n..])
    ensures n <= buffer.Length && TradeLayout(buffer[..n], t)
  {
    TradeLaidOut(t);
    n := WriteFrame(buffer, TradeMessage(t), TradeBody(t));
    assert buffer[..n] == Encode(TradeMessage(t));
  }

  method SerialiseSessionControl(buffer: array<byte>, timestamp: u64, state: SessionState) returns (n: nat)
    requires buffer.Length >= |Encode(SessionMessage(timestamp, state))|
    modifies buffer
    ensures n == |Encode(SessionMessage(timestamp, state))|
    ensures buffer[..] == Encode(SessionMessage(timestamp, state)) + old(buffer[n..])
    ensures n <= buffer.Length && SessionLayout(buffer[..n], timestamp, state)
  {
    SessionLaidOut(timestamp, state);
    n := WriteFrame(buffer, SessionMessage(timestamp, state), Field64(timestamp) + [StateToNum(state)]);
    assert buffer[..n] == Encode(SessionMessage(timestamp, state));
  }

  // ---- Decoding ----

  function ToQuote(b: seq<byte>): Quote
    requires |b| == BodySize(QUOTE)
  {
    Quote(b[..12], Read64(b[12..20]), Read32(b[20..24]), ReadI64(b[24..32]), Read32(b[32..36]), ReadI64(b[36..]))
  }

  function ToTrade(b: seq<byte>): Result<Trade>
    requires |b| == BodySize(TRADE)
  {
    match AggressorFromChar(b[32])
    case Ok(a) => Ok(Trade(b[..12], Read64(b[12..20]), Read32(b[20..24]), ReadI64(b[24..32]), a, ReadI64(b[33..])))
    case Err(e) => Err(e)
  }

  function DecodeBody(msgType: byte, b: seq<byte>): Result<MDMessage>
    requires QUOTE <= msgType <= SESSION_CONTROL && |b| == BodySize(msgType)
  {
    if msgType == QUOTE then Ok(QuoteMessage(ToQuote(b)))
    else if msgType == TRADE then
      match ToTrade(b) { case Ok(t) => Ok(TradeMessage(t)) case Err(e) => Err(e) }
    else if msgType == HEARTBEAT then Ok(HeartbeatMessage(Read64(b)))
    else
      match StateFromNum(b[8]) { case Ok(s) => Ok(SessionMessage(Read64(b[..8]), s)) case Err(e) => Err(e) }
  }

  /** Decode the message at the front of `view`, the bytes from the frame's address to the end of
      the receive buffer. The body struct is read at its own size whatever bodyLen says, so a
      short frame lets the read run on into the bytes behind it. */
  function Decode(view: seq<byte>): Result<MDMessage> {
    if |view| < HEADER_SIZE then Err(OutOfBounds)
    else
    var msgType := view[2];
    if !(QUOTE <= msgType <= SESSION_CONTROL) then Err(UnknownType)
    else if |view| < HEADER_SIZE + BodySize(msgType) then Err(OutOfBounds)
    else DecodeBody(msgType, view[HEADER_SIZE..HEADER_SIZE + BodySize(msgType)])
  }

  /** What does not decode, byte by byte: the type, a trade's aggressor, a session's state. */
  lemma DecodeRejects(view: seq<byte>)
    requires |view| >= 4
    ensures view[2] < 1 || view[2] > 4 ==> Decode(view) == Err(UnknownType)
    ensures view[2] == 2 && |view| >= 45 ==>
      (Decode(view) == Err(UnknownAggressor) <==> view[36] != 66 && view[36] != 83 && view[36] != 63)
    ensures view[2] == 4 && |view| >= 13 ==> (Decode(view) == Err(UnknownState) <==> view[12] > 2)
  {
  }

  /** The frame is long enough for the struct of its type (or its type is unknown). */
  predicate WellSized(f: seq<byte>) {
    IsFrame(f) && (QUOTE <= f[2] <= SESSION_CONTROL ==> |f| >= HEADER_SIZE + BodySize(f[2]))
  }

  /** Decoding a well-sized frame looks at nothing outside it. */
  lemma DecodeIsLocal(f: seq<byte>, tail: seq<byte>)
    requires WellSized(f)
    ensures Decode(f + tail) == Decode(f)
  {
    if QUOTE <= f[2] <= SESSION_CONTROL {
      var n := HEADER_SIZE + BodySize(f[2]);
      assert (f + tail)[HEADER_SIZE..n] == f[HEADER_SIZE..n];
    }
  }

  // ---- Round trips ----

  /** What the receiving side sees: the two session-state tables disagree on 1 and 2. */
  function AsReceived(m: MDMessage): MDMessage {
    match m
    case SessionMessage(ts, Halt) => SessionMessage(ts, Close)
    case SessionMessage(ts, Close) => SessionMessage(ts, Halt)
    case _ => m
  }

  lemma QuoteRoundTrip(q: Quote)
    ensures ToQuote(QuoteBody(q)) == q
  {
    var b := QuoteBody(q);
    assert b[..12] == q.symbol;
    assert b[12..20] == Field64(q.timestamp);
    assert b[20..24] == Field32(q.bidQuantity);
    assert b[24..32] == FieldI64(q.bidPrice);
    assert b[32..36] == Field32(q.askQuantity);
    assert b[36..] == FieldI64(q.askPrice);
    FieldsRoundTrip(q.bidQuantity, q.timestamp, q.bidPrice);
    FieldsRoundTrip(q.askQuantity, q.timestamp, q.askPrice);
  }

  lemma TradeRoundTrip(t: Trade)
    ensures ToTrade(TradeBody(t)) == Ok(t)
  {
    var b := TradeBody(t);
    assert b[..12] == t.symbol;
    assert b[12..20] == Field64(t.timestamp);
    assert b[20..24] == Field32(t.quantity);
    assert b[24..32] == FieldI64(t.price);
    assert b[32] == AggressorToChar(t.aggressor);
    assert b[33..] == FieldI64(t.id);
    FieldsRoundTrip(t.quantity, t.timestamp, t.price);
    FieldsRoundTrip(t.quantity, t.timestamp, t.id);
  }

  /** Decode after encode, whatever bytes follow the frame. */
  lemma RoundTrip(m: MDMessage, tail: seq<byte>)
    ensures Decode(Encode(m) + tail) == Ok(AsReceived(m))
  {
    EncodeIsFrame(m);
    var f := Encode(m);
    assert f[HEADER_SIZE..HEADER_SIZE + BodySize(f[2])] == Body(m);
    match m {
      case QuoteMessage(q) => QuoteRoundTrip(q);
      case TradeMessage(t) => TradeRoundTrip(t);
      case HeartbeatMessage(ts) => FieldsRoundTrip(0, ts, 0);
      case SessionMessage(ts, s) =>
        FieldsRoundTrip(0, ts, 0);
        assert Body(m)[..8] == Field64(ts);
    }
    DecodeIsLocal(f, tail);
  }

  /** A message survives the wire exactly unless it is a HALT or CLOSE session message. */
  lemma RoundTripExactlyWhen(m: MDMessage)
    ensures Decode(Encode(m)) == Ok(m) <==> !(m.SessionMessage? && !m.state.Open?)
  {
    RoundTrip(m, []);
    assert Encode(m) + [] == Encode(m);
  }

  lemma SplitSix(b: seq<byte>, i: nat, j: nat, k: nat, l: nat, m: nat)
    requires i <= j <= k <= l <= m <= |b|
    ensures b == b[..i] + b[i..j] + b[j..k] + b[k..l] + b[l..m] + b[m..]
  {
  }

  lemma QuoteBodyInverse(b: seq<byte>)
    requires |b| == BodySize(QUOTE)
    ensures QuoteBody(ToQuote(b)) == b
  {
    Write64AfterRead(b[12..20]);
    Write32AfterRead(b[20..24]);
    WriteI64AfterRead(b[24..32]);
    Write32AfterRead(b[32..36]);
    WriteI64AfterRead(b[36..]);
    SplitSix(b, 12, 20, 24, 32, 36);
  }

  lemma TradeBodyInverse(b: seq<byte>, t: Trade)
    requires |b| == BodySize(TRADE) && ToTrade(b) == Ok(t)
    ensures TradeBody(t) == b
  {
    Write64AfterRead(b[12..20]);
    Write32AfterRead(b[20..24]);
    WriteI64AfterRead(b[24..32]);
    WriteI64AfterRead(b[33..]);
    assert AggressorToChar(t.aggressor) == b[32];
    SplitSix(b, 12, 20, 24, 32, 33);
    assert b[32..33] == [b[32]];
  }

  lemma BodyInverse(msgType: byte, b: seq<byte>, m: MDMessage)
    requires QUOTE <= msgType <= SESSION_CONTROL && |b| == BodySize(msgType)
    requires DecodeBody(msgType, b) == Ok(m)
    ensures TypeOf(AsReceived(m)) == msgType
    ensures Body(AsReceived(m)) == b
  {
    match m {
      case QuoteMessage(_) => QuoteBodyInverse(b);
      case TradeMessage(t) => TradeBodyInverse(b, t);
      case HeartbeatMessage(_) => Write64AfterRead(b);
      case SessionMessage(_, _) =>
        Write64AfterRead(b[..8]);
        assert b == b[..8] + [b[8]];
    }
  }

  lemma HeaderInverse(f: seq<byte>)
    requires IsFrame(f) && f[3] == PROTOCOL_VERSION
    ensures Header(|f| - HEADER_SIZE, f[2]) == f[..HEADER_SIZE]
  {
    var n := |f| - HEADER_SIZE;
    assert LE(n, 2) == [n % 256] + LE(n / 256, 1);
    assert LE(n / 256, 1) == [n / 256 % 256] + LE(n / 256 / 256, 0);
  }

  /** The codec is onto the canonical frames: re-encoding what was decoded gives back the frame. */
  lemma EncodeAfterDecode(f: seq<byte>, m: MDMessage)
    requires IsFrame(f) && Decode(f) == Ok(m)
    requires |f| == HEADER_SIZE + BodySize(f[2]) && f[3] == PROTOCOL_VERSION
    ensures Encode(AsReceived(m)) == f
  {
    var b := f[HEADER_SIZE..];
    assert b == f[HEADER_SIZE..HEADER_SIZE + BodySize(f[2])];
    BodyInverse(f[2], b, m);
    HeaderInverse(f);
    assert f == f[..HEADER_SIZE] + b;
  }
}
