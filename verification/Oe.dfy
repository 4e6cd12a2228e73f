/** Orders and their packed wire format. */
module Oe {
  import opened Bytes
  import opened Framing
  import opened Gcmd
  import opened Layout

  datatype OrderStatus = Accepted | Rejected

  datatype OrderSide = Buy | Sell

  datatype NewOrder = NewOrder(clientOrderId: u64, symbol: Symbol, status: OrderStatus, timestamp: u64,
                               tradeId: i64, side: OrderSide, quantity: u32, limitPrice: i64)

  datatype OrderError = UnknownStatus | UnknownSide | NotANewOrder

  datatype OrderResult = OrderOk(order: NewOrder) | OrderErr(error: OrderError)

  const NEW_ORDER := 10
  const ORDER_BODY_SIZE := 50
  const MAX_ORDER_FRAME := 54

  function StatusToChar(s: OrderStatus): byte {
    match s case Accepted => 'A' as int case Rejected => 'R' as int
  }

  function SideToChar(s: OrderSide): byte {
    match s case Buy => 'B' as int case Sell => 'S' as int
  }

  function OrderBody(o: NewOrder): (b: seq<byte>)
    ensures |b| == ORDER_BODY_SIZE
  {
    Field64(o.clientOrderId) + o.symbol + [StatusToChar(o.status)] + Field64(o.timestamp)
    + FieldI64(o.tradeId) + [SideToChar(o.side)] + Field32(o.quantity) + FieldI64(o.limitPrice)
  }

  function EncodeOrder(o: NewOrder): (f: seq<byte>)
    ensures |f| == MAX_ORDER_FRAME
  {
    Header(ORDER_BODY_SIZE, NEW_ORDER) + OrderBody(o)
  }

  /** Decode the body fields; an unknown status or side is an exception in that order. */
  function ToNewOrder(b: seq<byte>): OrderResult
    requires |b| == ORDER_BODY_SIZE
  {
    if b[20] != StatusToChar(Accepted) && b[20] != StatusToChar(Rejected) then OrderErr(UnknownStatus)
    else if b[37] != SideToChar(Buy) && b[37] != SideToChar(Sell) then OrderErr(UnknownSide)
    else OrderOk(NewOrder(Read64(b[..8]), b[8..20], if b[20] == StatusToChar(Accepted) then Accepted else Rejected,
                          Read64(b[21..29]), ReadI64(b[29..37]),
                          if b[37] == SideToChar(Buy) then Buy else Sell, Read32(b[38..42]), ReadI64(b[42..])))
  }

  /** Read one whole frame as an order. */
  function DecodeOrder(f: seq<byte>): OrderResult {
    if |f| != MAX_ORDER_FRAME || f[2] != NEW_ORDER then OrderErr(NotANewOrder) else ToNewOrder(f[HEADER_SIZE..])
  }

  lemma EncodeOrderIsFrame(o: NewOrder)
    ensures IsFrame(EncodeOrder(o)) && EncodeOrder(o)[2] == NEW_ORDER
    ensures EncodeOrder(o)[HEADER_SIZE..] == OrderBody(o)
  {
    assert LE(ORDER_BODY_SIZE, 2) == [ORDER_BODY_SIZE % 256] + LE(ORDER_BODY_SIZE / 256, 1);
    assert LE(0, 1) == [0] + LE(0, 0);
    assert EncodeOrder(o)[0] == ORDER_BODY_SIZE && EncodeOrder(o)[1] == 0;
  }

  lemma OrderFields(o: NewOrder)
    ensures var b := OrderBody(o);
      && b[..8] == Field64(o.clientOrderId) && b[8..20] == o.symbol && b[20] == StatusToChar(o.status)
      && b[21..29] == Field64(o.timestamp) && b[29..37] == FieldI64(o.tradeId)
      && b[37] == SideToChar(o.side) && b[38..42] == Field32(o.quantity) && b[42..] == FieldI64(o.limitPrice)
  {
  }

  lemma OrderRoundTrip(o: NewOrder)
    ensures DecodeOrder(EncodeOrder(o)) == OrderOk(o)
  {
    EncodeOrderIsFrame(o);
    OrderFields(o);
    BodyRoundTrip(o, OrderBody(o));
  }

  lemma BodyRoundTrip(o: NewOrder, b: seq<byte>)
    requires |b| == ORDER_BODY_SIZE
    requires b[..8] == Field64(o.clientOrderId) && b[8..20] == o.symbol && b[20] == StatusToChar(o.status)
    requires b[21..29] == Field64(o.timestamp) && b[29..37] == FieldI64(o.tradeId)
    requires b[37] == SideToChar(o.side) && b[38..42] == Field32(o.quantity) && b[42..] == FieldI64(o.limitPrice)
    ensures ToNewOrder(b) == OrderOk(o)
  {
    FieldsRoundTrip(o.quantity, o.clientOrderId, o.tradeId);
    FieldsRoundTrip(o.quantity, o.timestamp, o.limitPrice);
  }

  /** The order frame, byte by byte. */
  predicate OrderLayout(f: seq<byte>, o: NewOrder) {
    && |f| == 54 && f[0] == 50 && f[1] == 0 && f[2] == 10 && f[3] == 1
    && U64At(f, 4) == o.clientOrderId && f[12..24] == o.symbol
    && f[24] == (if o.status.Accepted? then 65 else 82)
    && U64At(f, 25) == o.timestamp && U64At(f, 33) == TwosComplement(o.tradeId)
    && f[41] == (if o.side.Buy? then 66 else 83)
    && U32At(f, 42) == o.quantity && U64At(f, 46) == TwosComplement(o.limitPrice)
  }

  lemma OrderHeader(o: NewOrder)
    ensures var f := EncodeOrder(o);
      f[0] == 50 && f[1] == 0 && f[2] == 10 && f[3] == 1 && f[HEADER_SIZE..] == OrderBody(o)
  {
    EncodeOrderIsFrame(o);
  }

  lemma OrderLaidOut(o: NewOrder)
    ensures OrderLayout(EncodeOrder(o), o)
  {
    var f := EncodeOrder(o);
    OrderHeader(o);
    OrderFields(o);
    FromBody(f, 0, 8);
    FromBody(f, 8, 20);
    FromBody(f, 21, 29);
    FromBody(f, 29, 37);
    FromBody(f, 38, 42);
    FromBody(f, 42, 50);
    Field64At(f, 4, o.clientOrderId);
    Field64At(f, 25, o.timestamp);
    FieldI64At(f, 33, o.tradeId);
    Field32At(f, 42, o.quantity);
    FieldI64At(f, 46, o.limitPrice);
  }

  /** What does not read as an order. */
  lemma DecodeOrderRejects(f: seq<byte>)
    requires |f| == 54 && f[2] == 10
    ensures DecodeOrder(f) == OrderErr(UnknownStatus) <==> f[24] != 65 && f[24] != 82
    ensures DecodeOrder(f) == OrderErr(UnknownSide) <==>
      (f[24] == 65 || f[24] == 82) && f[41] != 66 && f[41] != 83
  {
  }

  method SerialiseNewOrder(buffer: array<byte>, o: NewOrder) returns (n: nat)
    requires buffer.Length >= MAX_ORDER_FRAME
    modifies buffer
    ensures n == MAX_ORDER_FRAME
    ensures buffer[..] == EncodeOrder(o) + old(buffer[n..])
    ensures OrderLayout(buffer[..n], o)
  {
    OrderLaidOut(o);
    n := WriteParts(buffer, Header(ORDER_BODY_SIZE, NEW_ORDER), OrderBody(o));
    assert buffer[..n] == EncodeOrder(o);
  }

  /** The frames of a list of orders. */
  function EncodeOrders(os: seq<NewOrder>): seq<seq<byte>> {
    seq(|os|, i requires 0 <= i < |os| => EncodeOrder(os[i]))
  }

  /** The bytes written for `os` parse back, frame by frame, to `os`. */
  lemma OrdersParseBack(os: seq<NewOrder>)
    ensures var wire := Flatten(EncodeOrders(os));
      && Rest(wire) == []
      && |Frames(wire)| == |os|
      && forall i | 0 <= i < |os| :: DecodeOrder(Frames(wire)[i]) == OrderOk(os[i])
  {
    var fs := EncodeOrders(os);
    forall f | f in fs ensures IsFrame(f) {
      var i :| 0 <= i < |os| && f == EncodeOrder(os[i]);
      EncodeOrderIsFrame(os[i]);
    }
    ParseUnique(fs, []);
    assert Flatten(fs) + [] == Flatten(fs);
    forall i | 0 <= i < |os| ensures DecodeOrder(Frames(Flatten(fs))[i]) == OrderOk(os[i]) {
      OrderRoundTrip(os[i]);
    }
  }
}
