/** Writing a session as CSV lines and reading it back. */
module CsvRoundTrip {
  import opened CsvPrice
  import opened CsvRows

  const DAY := 86_400_000

  function Join(fs: seq<string>): string
    requires |fs| >= 1
  {
    if |fs| == 1 then fs[0] else Join(fs[..|fs| - 1]) + "," + fs[|fs| - 1]
  }

  predicate CommaFree(fs: seq<string>) {
    forall f | f in fs :: ',' !in f
  }

  lemma {:induction false} FieldsOfPlain(f: string)
    requires ',' !in f
    ensures Fields(f) == [f]
  {
    if |f| > 0 {
      var k := |f| - 1;
      FieldsOfPlain(f[..k]);
      assert f == f[..k] + [f[k]];
    }
  }

  lemma {:induction false} FieldsAppend(line: string, f: string)
    requires ',' !in f
    ensures Fields(line + "," + f) == Fields(line) + [f]
  {
    var all := line + "," + f;
    if |f| == 0 {
      assert all[..|all| - 1] == line;
    } else {
      var k := |f| - 1;
      assert all[..|all| - 1] == line + "," + f[..k];
      FieldsAppend(line, f[..k]);
      assert f == f[..k] + [f[k]];
    }
  }

  /** Splitting at the commas undoes joining with them. */
  lemma {:induction false} FieldsOfJoin(fs: seq<string>)
    requires |fs| >= 1 && CommaFree(fs)
    ensures Fields(Join(fs)) == fs
  {
    var k := |fs| - 1;
    assert fs[k] in fs;
    if k == 0 {
      FieldsOfPlain(fs[0]);
    } else {
      JoinLast(fs);
      CommaFreePrefix(fs, k);
      FieldsOfJoin(fs[..k]);
      FieldsAppend(Join(fs[..k]), fs[k]);
      assert fs == fs[..k] + [fs[k]];
    }
  }

  lemma {:induction false} JoinLast(fs: seq<string>)
    requires |fs| > 1
    ensures Join(fs) == Join(fs[..|fs| - 1]) + "," + fs[|fs| - 1]
  {
  }

  lemma CommaFreePrefix(fs: seq<string>, k: nat)
    requires k <= |fs| && CommaFree(fs)
    ensures CommaFree(fs[..k])
  {
    assert forall f | f in fs[..k] :: f in fs;
  }

  // ---- Writing the fields ----

  function TimeOf(ts: nat): string
    requires ts < DAY
  {
    TimeText(Digits(ts / 3_600_000, 2), Digits(ts / 60_000 % 60, 2), Digits(ts / 1000 % 60, 2), Digits(ts % 1000, 3))
  }

  lemma TimeReadsBack(ts: nat)
    requires ts < DAY
    ensures |TimeOf(ts)| == 12 && ParseTimestamp(TimeOf(ts)) == ts
  {
    TimestampExact(ts / 3_600_000, ts / 60_000 % 60, ts / 1000 % 60, ts % 1000);
    assert ts / 1000 / 60 == ts / 60_000 && ts / 60_000 / 60 == ts / 3_600_000;
  }

  lemma {:induction false} AllLeading(s: string)
    requires AllDigits(s)
    ensures LeadingDigits(s) == s
  {
    if |s| > 0 {
      assert s[0] in s;
      assert forall c | c in s[1..] :: c in s;
      AllLeading(s[1..]);
      assert s == [s[0]] + s[1..];
    }
  }

  lemma QuantityReadsBack(n: Bytes.u64)
    ensures ParseUInt(Decimal(n)) == n
  {
    AllLeading(Decimal(n));
    ValDecimal(n);
  }

  lemma DigitsCommaFree(s: string)
    requires AllDigits(s)
    ensures ',' !in s
  {
  }

  lemma PrintCommaFree(v: nat)
    ensures ',' !in Print(v) && Print(v) != ""
  {
    DigitsCommaFree(Decimal(v / 10000));
    DigitsCommaFree(Digits(v % 10000, 4));
  }

  lemma TimeCommaFree(ts: nat)
    requires ts < DAY
    ensures ',' !in TimeOf(ts)
  {
    DigitsCommaFree(Digits(ts / 3_600_000, 2));
    DigitsCommaFree(Digits(ts / 60_000 % 60, 2));
    DigitsCommaFree(Digits(ts / 1000 % 60, 2));
    DigitsCommaFree(Digits(ts % 1000, 3));
  }

  lemma {:induction false} LeadingStops(s: string, rest: string)
    requires AllDigits(s) && (rest == "" || !IsDigit(rest[0]))
    ensures LeadingDigits(s + rest) == s
  {
    if |s| == 0 {
      assert s + rest == rest;
    } else {
      assert s[0] in s && forall c | c in s[1..] :: c in s;
      LeadingStops(s[1..], rest);
      assert (s + rest)[1..] == s[1..] + rest;
    }
  }

  /** What follows the digits does not matter, and a number past 64 bits, or none at all, reads as 0. */
  lemma QuantityEdges(n: nat, rest: string)
    requires rest == "" || !IsDigit(rest[0])
    ensures ParseUInt(Decimal(n) + rest) == if n < 0x1_0000_0000_0000_0000 then n else 0
    ensures ParseUInt(rest) == 0
  {
    LeadingStops(Decimal(n), rest);
    ValDecimal(n);
  }

  /** Rows that end early: missing columns read as the last one there is, ... */
  lemma ShortQuote(time: string, symbol: string, price: string)
    requires |time| >= 12 && |symbol| == 12
    ensures QuoteOf([time, "Q", symbol, price])
         == Row(Quote(ParseTimestamp(time), symbol, PriceOf(price), ParseUInt(price), PriceOf(price), ParseUInt(price)))
  {
    var fs := [time, "Q", symbol, price];
    assert Field(fs, 3) == Field(fs, 4) == Field(fs, 5) == Field(fs, 6) == price;
  }

  lemma ShortTrade(time: string, symbol: string, price: string)
    requires |time| >= 12 && |symbol| == 12 && price != ""
    ensures TradeOf([time, "T", symbol, price])
         == Row(Trade(ParseTimestamp(time), symbol, PriceOf(price), ParseUInt(price)))
  {
    var fs := [time, "T", symbol, price];
    FirstFilledIs(fs, 3, 3);
    assert Field(fs, 4) == price;
  }

  /** ... a trade without any further column reads its symbol again, ... */
  lemma BareTrade(time: string, symbol: string)
    requires |time| >= 12 && |symbol| == 12
    ensures TradeOf([time, "T", symbol, ""])
         == Row(Trade(ParseTimestamp(time), symbol, PriceOf(symbol), ParseUInt(symbol)))
  {
    var fs := [time, "T", symbol, ""];
    assert FirstFilled(fs, 4) == 4;
    assert FirstFilled(fs, 3) == 4;
  }

  /** ... and a symbol that is not twelve characters is refused. */
  lemma BadSymbols(fs: seq<string>)
    requires |fs| >= 3 && |fs[0]| >= 12 && |fs[2]| != 12
    ensures QuoteOf(fs) == BadSymbol && TradeOf(fs) == BadSymbol
  {
  }

  // ---- Writing the rows ----

  predicate Writable(timestamp: nat, symbol: string) {
    timestamp < DAY && ',' !in symbol
  }

  function QuoteFields(q: Quote): seq<string>
    requires Writable(q.timestamp, q.symbol)
  {
    [TimeOf(q.timestamp), "Q", q.symbol, Print(q.bidPrice), Decimal(q.bidQuantity),
     Print(q.askPrice), Decimal(q.askQuantity)]
  }

  /** A trade row leaves `gap` columns empty. */
  function TradeFields(t: Trade, gap: nat): seq<string>
    requires Writable(t.timestamp, t.symbol)
  {
    [TimeOf(t.timestamp), "T", t.symbol] + seq(gap, _ => "") + [Print(t.price), Decimal(t.quantity)]
  }

  lemma QuoteReadsBack(q: Quote)
    requires Writable(q.timestamp, q.symbol)
    ensures var line := Join(QuoteFields(q));
      && Fields(line) == QuoteFields(q) && HasTime(line)
      && QuoteIn(line) == Row(q)
  {
    TimeCommaFree(q.timestamp);
    PrintCommaFree(q.bidPrice);
    PrintCommaFree(q.askPrice);
    DigitsCommaFree(Decimal(q.bidQuantity));
    DigitsCommaFree(Decimal(q.askQuantity));
    FieldsOfJoin(QuoteFields(q));
    TimeReadsBack(q.timestamp);
    ParseInvertsPrint(q.bidPrice);
    ParseInvertsPrint(q.askPrice);
    QuantityReadsBack(q.bidQuantity);
    QuantityReadsBack(q.askQuantity);
  }

  lemma {:induction false} FirstFilledIs(fs: seq<string>, i: nat, j: nat)
    requires i <= j < |fs| && fs[j] != "" && forall k | i <= k < j :: fs[k] == ""
    ensures FirstFilled(fs, i) == j
    decreases j - i
  {
    if i < j {
      FirstFilledIs(fs, i + 1, j);
    }
  }

  /** However many columns are left empty. */
  lemma TradeReadsBack(t: Trade, gap: nat)
    requires Writable(t.timestamp, t.symbol)
    ensures var line := Join(TradeFields(t, gap));
      && Fields(line) == TradeFields(t, gap) && HasTime(line)
      && TradeIn(line) == Row(t)
  {
    TimeCommaFree(t.timestamp);
    PrintCommaFree(t.price);
    DigitsCommaFree(Decimal(t.quantity));
    FieldsOfJoin(TradeFields(t, gap));
    TimeReadsBack(t.timestamp);
    FirstFilledIs(TradeFields(t, gap), 3, 3 + gap);
    ParseInvertsPrint(t.price);
    QuantityReadsBack(t.quantity);
  }

  // ---- Whole files ----

  datatype Entry = QuoteEntry(quote: Quote) | TradeEntry(trade: Trade, gap: nat)

  predicate EntryWritable(e: Entry) {
    match e
    case QuoteEntry(q) => Writable(q.timestamp, q.symbol)
    case TradeEntry(t, _) => Writable(t.timestamp, t.symbol)
  }

  predicate AllWritable(es: seq<Entry>) {
    forall e | e in es :: EntryWritable(e)
  }

  function LineOf(e: Entry): string
    requires EntryWritable(e)
  {
    match e
    case QuoteEntry(q) => Join(QuoteFields(q))
    case TradeEntry(t, gap) => Join(TradeFields(t, gap))
  }

  function Lines(es: seq<Entry>): seq<string>
    requires AllWritable(es)
  {
    if |es| == 0 then [] else [LineOf(es[0])] + Lines(Rest(es))
  }

  function Rest(es: seq<Entry>): (r: seq<Entry>)
    requires |es| > 0
    ensures AllWritable(es) ==> AllWritable(r)
  {
    assert forall e | e in es[1..] :: e in es;
    es[1..]
  }

  function Quotes(es: seq<Entry>): seq<Quote> {
    if |es| == 0 then [] else (if es[0].QuoteEntry? then [es[0].quote] else []) + Quotes(es[1..])
  }

  function Trades(es: seq<Entry>): seq<Trade> {
    if |es| == 0 then [] else (if es[0].TradeEntry? then [es[0].trade] else []) + Trades(es[1..])
  }

  lemma KindOfLine(kind: string, line: string)
    requires |Fields(line)| > 1
    ensures IsRow(kind, line) <==> Fields(line)[1] == kind
  {
  }

  lemma LineKind(e: Entry)
    requires EntryWritable(e)
    ensures IsRow("Q", LineOf(e)) <==> e.QuoteEntry?
    ensures IsRow("T", LineOf(e)) <==> e.TradeEntry?
    ensures HasTime(LineOf(e))
    ensures e.QuoteEntry? ==> QuoteIn(LineOf(e)) == Row(e.quote)
    ensures e.TradeEntry? ==> TradeIn(LineOf(e)) == Row(e.trade)
  {
    match e {
      case QuoteEntry(q) =>
        QuoteReadsBack(q);
        assert QuoteFields(q)[1] == "Q";
      case TradeEntry(t, gap) =>
        TradeReadsBack(t, gap);
        assert TradeFields(t, gap)[1] == "T";
    }
    KindOfLine("Q", LineOf(e));
    KindOfLine("T", LineOf(e));
  }

  /** A written session reads back: the quote reader gets its quotes and the trade reader its
      trades, each complete, exact and in order. */
  lemma {:induction false} SessionReadsBack(es: seq<Entry>)
    requires AllWritable(es)
    ensures Collect(QuoteIn, RowsOf("Q", Lines(es))) == Quotes(es)
    ensures Collect(TradeIn, RowsOf("T", Lines(es))) == Trades(es)
  {
    if |es| > 0 {
      assert es[0] in es;
      SessionReadsBack(Rest(es));
      LineKind(es[0]);
      var line, rest := LineOf(es[0]), Lines(Rest(es));
      assert Lines(es)[1..] == rest;
      if es[0].QuoteEntry? {
        FirstRow("Q", line, rest);
        OtherRow("T", line, rest);
      } else {
        FirstRow("T", line, rest);
        OtherRow("Q", line, rest);
      }
    }
  }

  lemma FirstRow(kind: string, line: string, rest: seq<string>)
    requires IsRow(kind, line) && HasTime(line)
    ensures RowsOf(kind, [line] + rest) == [line] + RowsOf(kind, rest)
    ensures RowsOf(kind, [line] + rest)[1..] == RowsOf(kind, rest)
  {
    assert ([line] + rest)[1..] == rest;
  }

  lemma OtherRow(kind: string, line: string, rest: seq<string>)
    requires !IsRow(kind, line) && HasTime(line)
    ensures RowsOf(kind, [line] + rest) == RowsOf(kind, rest)
  {
    assert ([line] + rest)[1..] == rest;
  }

  lemma {:induction false} LinesReadable(es: seq<Entry>)
    requires AllWritable(es)
    ensures Readable(Lines(es))
  {
    if |es| > 0 {
      assert es[0] in es;
      LineKind(es[0]);
      LinesReadable(Rest(es));
    }
  }

  // ---- Through the parser itself ----

  /** What may stand before the header: comments and blank lines. */
  predicate IsPreamble(lines: seq<string>) {
    forall l | l in lines :: l == "" || l[0] == '#'
  }

  predicate IsHeader(line: string) {
    line != "" && line[0] != '#'
  }

  function File(preamble: seq<string>, header: string, es: seq<Entry>): seq<string>
    requires AllWritable(es)
  {
    preamble + [header] + Lines(es)
  }

  lemma {:induction false} HeaderSkipped(preamble: seq<string>, header: string, rest: seq<string>)
    requires IsPreamble(preamble) && IsHeader(header)
    ensures HeaderEnd(preamble + [header] + rest) == |preamble| + 1
  {
    var all := preamble + [header] + rest;
    if |preamble| > 0 {
      assert preamble[0] in preamble && all[0] == preamble[0];
      assert forall l | l in preamble[1..] :: l in preamble;
      HeaderSkipped(preamble[1..], header, rest);
      assert all[1..] == preamble[1..] + [header] + rest;
    }
  }

  /** Opening a file skips exactly its preamble and header. */
  method Open(preamble: seq<string>, header: string, es: seq<Entry>) returns (parser: CSVParser)
    requires IsPreamble(preamble) && IsHeader(header) && AllWritable(es)
    ensures fresh(parser) && parser.Valid() && parser.Remaining() == Lines(es)
  {
    HeaderSkipped(preamble, header, Lines(es));
    parser := new CSVParser(File(preamble, header, es));
    assert File(preamble, header, es)[|preamble| + 1..] == Lines(es);
  }

  /** The market client's reading of a written file is its quotes. */
  method QuotesOfFile(preamble: seq<string>, header: string, es: seq<Entry>) returns (quotes: seq<Quote>)
    requires IsPreamble(preamble) && IsHeader(header) && AllWritable(es)
    ensures quotes == Quotes(es)
  {
    SessionReadsBack(es);
    var parser := Open(preamble, header, es);
    quotes := ReadAllQuotes(parser);
  }

  /** The order client's reading is its trades. */
  method TradesOfFile(preamble: seq<string>, header: string, es: seq<Entry>) returns (trades: seq<Trade>)
    requires IsPreamble(preamble) && IsHeader(header) && AllWritable(es)
    ensures trades == Trades(es)
  {
    SessionReadsBack(es);
    var parser := Open(preamble, header, es);
    trades := ReadAllTrades(parser);
  }
}
