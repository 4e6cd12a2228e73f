/** Reading the quote rows and the trade rows of a recorded session. */
module CsvRows {
  import opened Bytes
  import opened CsvPrice

  type Symbol = s: string | |s| == 12 witness "            "

  datatype Quote = Quote(timestamp: u32, symbol: Symbol,
                         bidPrice: u64, bidQuantity: u64, askPrice: u64, askQuantity: u64)

  datatype Trade = Trade(timestamp: u32, symbol: Symbol, price: u64, quantity: u64)

  /** A row, or one of the two exceptions: a symbol that is not twelve characters, no more rows; or
      a line whose first field is too short for a time, which the source reads past the end of. */
  datatype Read<+T> = Row(value: T) | BadSymbol | EndOfFile | OutOfBounds

  /** The comma-separated fields of a line. */
  function Fields(line: string): (fs: seq<string>)
    ensures |fs| >= 1
  {
    if |line| == 0 then [""]
    else
      var fs, c := Fields(line[..|line| - 1]), line[|line| - 1];
      if c == ',' then fs + [""] else fs[..|fs| - 1] + [fs[|fs| - 1] + [c]]
  }

  /** The i-th read of a field; past the last one the buffer keeps what it held. */
  function Field(fs: seq<string>, i: nat): string
    requires |fs| >= 1
  {
    if i < |fs| then fs[i] else fs[|fs| - 1]
  }

  /** "HH:MM:SS.mmm" in milliseconds, in 32-bit unsigned arithmetic. */
  function ParseTimestamp(f: string): u32
    requires |f| >= 12
  {
    var hours, minutes := Digit(f[0]) * 10 + Digit(f[1]), Digit(f[3]) * 10 + Digit(f[4]);
    var seconds := Digit(f[6]) * 10 + Digit(f[7]);
    var millis := Digit(f[9]) * 100 + Digit(f[10]) * 10 + Digit(f[11]);
    (((hours * 60 + minutes) * 60 + seconds) * 1000 + millis) % 0x1_0000_0000
  }

  function LeadingDigits(s: string): string {
    if |s| > 0 && IsDigit(s[0]) then [s[0]] + LeadingDigits(s[1..]) else ""
  }

  /** The number a field starts with; 0 if there is none or it does not fit. */
  function ParseUInt(s: string): u64 {
    var v := Val(LeadingDigits(s));
    if 0 <= v < 0x1_0000_0000_0000_0000 then v else 0
  }

  function QuoteOf(fs: seq<string>): Read<Quote>
    requires |fs| >= 1 && |fs[0]| >= 12
  {
    if |Field(fs, 2)| != 12 then BadSymbol
    else Row(Quote(ParseTimestamp(fs[0]), Field(fs, 2), PriceOf(Field(fs, 3)), ParseUInt(Field(fs, 4)),
                   PriceOf(Field(fs, 5)), ParseUInt(Field(fs, 6))))
  }

  /** The first field from `i` on that is not empty, or the number of fields. */
  function FirstFilled(fs: seq<string>, i: nat): (j: nat)
    decreases |fs| - i
  {
    if i < |fs| && fs[i] == "" then FirstFilled(fs, i + 1) else i
  }

  /** A trade skips the empty quote columns; if nothing follows, the buffer still holds the symbol. */
  function TradeOf(fs: seq<string>): Read<Trade>
    requires |fs| >= 1 && |fs[0]| >= 12
  {
    var j := FirstFilled(fs, 3);
    if |Field(fs, 2)| != 12 then BadSymbol
    else if j < |fs| then
      Row(Trade(ParseTimestamp(fs[0]), fs[2], PriceOf(fs[j]), ParseUInt(Field(fs, j + 1))))
    else
      Row(Trade(ParseTimestamp(fs[0]), Field(fs, 2), PriceOf(Field(fs, 2)), ParseUInt(Field(fs, 2))))
  }

  predicate IsRow(kind: string, line: string) {
    line != "" && Field(Fields(line), 1) == kind
  }

  /** parseTimestamp reads twelve characters of every line it is shown, unchecked. */
  predicate HasTime(line: string) {
    |Fields(line)[0]| >= 12
  }

  predicate Readable(lines: seq<string>) {
    forall l | l in lines && l != "" :: HasTime(l)
  }

  /** The rows of one kind, in file order, up to the first line without a time. */
  function RowsOf(kind: string, lines: seq<string>): seq<string> {
    if |lines| == 0 || (lines[0] != "" && !HasTime(lines[0])) then []
    else (if IsRow(kind, lines[0]) then [lines[0]] else []) + RowsOf(kind, lines[1..])
  }

  /** Comments, blank lines and the first other line are the header. */
  function HeaderEnd(lines: seq<string>): (n: nat)
    ensures n <= |lines|
  {
    if |lines| == 0 then 0
    else if lines[0] == "" || lines[0][0] == '#' then 1 + HeaderEnd(lines[1..])
    else 1
  }

  function QuoteIn(line: string): Read<Quote> {
    if HasTime(line) then QuoteOf(Fields(line)) else OutOfBounds
  }

  function TradeIn(line: string): Read<Trade> {
    if HasTime(line) then TradeOf(Fields(line)) else OutOfBounds
  }

  lemma RowsStep(kind: string, lines: seq<string>, pos: nat)
    requires pos < |lines| && (lines[pos] == "" || HasTime(lines[pos]))
    ensures Readable(lines[pos..]) <==> Readable(lines[pos + 1..])
    ensures var rest := RowsOf(kind, lines[pos + 1..]);
      RowsOf(kind, lines[pos..]) == if IsRow(kind, lines[pos]) then [lines[pos]] + rest else rest
  {
    assert lines[pos..] == [lines[pos]] + lines[pos + 1..];
  }

  lemma RowsStop(kind: string, lines: seq<string>, pos: nat)
    requires pos < |lines| && lines[pos] != "" && !HasTime(lines[pos])
    ensures RowsOf(kind, lines[pos..]) == [] && !Readable(lines[pos..])
  {
    assert lines[pos] in lines[pos..];
  }

  class CSVParser {
    const lines: seq<string>
    var pos: nat
    var reachedEnd: bool

    ghost predicate Valid()
      reads this
    {
      pos <= |lines| && (reachedEnd ==> pos == |lines|)
    }

    /** What is left to read. */
    function Remaining(): seq<string>
      requires pos <= |lines|
      reads this
    {
      lines[pos..]
    }

    constructor (lines: seq<string>)
      ensures Valid() && this.lines == lines && pos == HeaderEnd(lines) && !reachedEnd
    {
      this.lines := lines;
      pos, reachedEnd := 0, false;
      new;
      assert lines[0..] == lines;
      while pos < |lines|
        invariant pos <= |lines| && !reachedEnd && this.lines == lines
        invariant HeaderEnd(lines) == pos + HeaderEnd(lines[pos..])
      {
        var line := lines[pos];
        assert lines[pos..][1..] == lines[pos + 1..];
        pos := pos + 1;
        if line != "" && line[0] != '#' {
          return;
        }
      }
    }

    /** The loop both readers share: on to the next row of a kind, or to the end. */
    method NextRow(kind: string) returns (row: Read<string>)
      requires Valid()
      modifies this
      ensures Valid() && !row.BadSymbol? && reachedEnd == row.EndOfFile?
      ensures !row.Row? ==>
        RowsOf(kind, old(Remaining())) == [] && (row.EndOfFile? <==> Readable(old(Remaining())))
      ensures row.Row? ==>
        HasTime(row.value) && RowsOf(kind, old(Remaining())) == [row.value] + RowsOf(kind, Remaining())
    {
      if reachedEnd {
        return EndOfFile;
      }
      while pos < |lines|
        invariant Valid() && !reachedEnd
        invariant RowsOf(kind, old(Remaining())) == RowsOf(kind, Remaining())
        invariant Readable(old(Remaining())) <==> Readable(Remaining())
      {
        var line := lines[pos];
        if line != "" && |Fields(line)[0]| < 12 {
          RowsStop(kind, lines, pos);
          return OutOfBounds;
        }
        RowsStep(kind, lines, pos);
        pos := pos + 1;
        if line == "" {
          continue;
        }
        if Field(Fields(line), 1) == kind {
          return Row(line);
        }
      }
      reachedEnd := true;
      return EndOfFile;
    }

    method ReadQuote() returns (r: Read<Quote>)
      requires Valid()
      modifies this
      ensures Valid() && reachedEnd == r.EndOfFile?
      ensures var rows := RowsOf("Q", old(Remaining()));
        if rows == [] then r == (if Readable(old(Remaining())) then EndOfFile else OutOfBounds)
        else r == QuoteIn(rows[0]) && RowsOf("Q", Remaining()) == rows[1..]
    {
      var row := NextRow("Q");
      match row {
        case Row(line) => return QuoteOf(Fields(line));
        case EndOfFile => return EndOfFile;
        case OutOfBounds => return OutOfBounds;
      }
    }

    method ReadTrade() returns (r: Read<Trade>)
      requires Valid()
      modifies this
      ensures Valid() && reachedEnd == r.EndOfFile?
      ensures var rows := RowsOf("T", old(Remaining()));
        if rows == [] then r == (if Readable(old(Remaining())) then EndOfFile else OutOfBounds)
        else r == TradeIn(rows[0]) && RowsOf("T", Remaining()) == rows[1..]
    {
      var row := NextRow("T");
      match row {
        case Row(line) => return TradeOf(Fields(line));
        case EndOfFile => return EndOfFile;
        case OutOfBounds => return OutOfBounds;
      }
    }
  }

  /** The values of some rows, up to the first that gives none. */
  function Collect<T>(read: string -> Read<T>, rows: seq<string>): seq<T> {
    if |rows| == 0 then []
    else
      match read(rows[0])
      case Row(v) => [v] + Collect(read, rows[1..])
      case _ => []
  }

  lemma CollectStep<T>(read: string -> Read<T>, got: seq<T>, rows: seq<string>)
    requires |rows| > 0
    ensures read(rows[0]).Row? ==> got + Collect(read, rows) == got + [read(rows[0]).value] + Collect(read, rows[1..])
    ensures !read(rows[0]).Row? ==> got + Collect(read, rows) == got
  {
    if read(rows[0]).Row? {
      MoveOver(got, read(rows[0]).value, Collect(read, rows[1..]));
    } else {
      assert Collect(read, rows) == [];
    }
  }

  /** The market client's loop: read until an exception. It gets exactly the file's Q rows, in
      order, up to the end, the first bad symbol or the first line without a time. */
  method ReadAllQuotes(parser: CSVParser) returns (quotes: seq<Quote>)
    requires parser.Valid()
    modifies parser
    ensures quotes == Collect(QuoteIn, RowsOf("Q", old(parser.Remaining())))
  {
    ghost var all := RowsOf("Q", parser.Remaining());
    ghost var left := all;
    quotes := [];
    while true
      invariant parser.Valid() && left == RowsOf("Q", parser.Remaining())
      invariant Collect(QuoteIn, all) == quotes + Collect(QuoteIn, left)
      decreases |left|
    {
      var r := parser.ReadQuote();
      if left != [] {
        CollectStep(QuoteIn, quotes, left);
      }
      if !r.Row? {
        return;
      }
      quotes, left := quotes + [r.value], left[1..];
    }
  }

  /** The order client's loop, likewise. */
  method ReadAllTrades(parser: CSVParser) returns (trades: seq<Trade>)
    requires parser.Valid()
    modifies parser
    ensures trades == Collect(TradeIn, RowsOf("T", old(parser.Remaining())))
  {
    ghost var all := RowsOf("T", parser.Remaining());
    ghost var left := all;
    trades := [];
    while true
      invariant parser.Valid() && left == RowsOf("T", parser.Remaining())
      invariant Collect(TradeIn, all) == trades + Collect(TradeIn, left)
      decreases |left|
    {
      var r := parser.ReadTrade();
      if left != [] {
        CollectStep(TradeIn, trades, left);
      }
      if !r.Row? {
        return;
      }
      trades, left := trades + [r.value], left[1..];
    }
  }

  function TimeText(h: string, m: string, s: string, ms: string): string {
    h + ":" + m + ":" + s + "." + ms
  }

  /** A well-formed time is the milliseconds since midnight, without wrapping. */
  lemma TimestampExact(h: nat, m: nat, s: nat, ms: nat)
    requires h < 100 && m < 60 && s < 60 && ms < 1000
    ensures var f := TimeText(Digits(h, 2), Digits(m, 2), Digits(s, 2), Digits(ms, 3));
      |f| == 12 && ParseTimestamp(f) == ((h * 60 + m) * 60 + s) * 1000 + ms
  {
    TwoDigits(h);
    TwoDigits(m);
    TwoDigits(s);
    ThreeDigits(ms);
    TimeFields(Digits(h, 2), Digits(m, 2), Digits(s, 2), Digits(ms, 3), h, m, s, ms);
  }

  lemma TimeFields(hs: string, mins: string, ss: string, mss: string, h: nat, m: nat, s: nat, ms: nat)
    requires |hs| == |mins| == |ss| == 2 && |mss| == 3
    requires Digit(hs[0]) * 10 + Digit(hs[1]) == h < 100
    requires Digit(mins[0]) * 10 + Digit(mins[1]) == m < 60
    requires Digit(ss[0]) * 10 + Digit(ss[1]) == s < 60
    requires Digit(mss[0]) * 100 + Digit(mss[1]) * 10 + Digit(mss[2]) == ms < 1000
    ensures var f := TimeText(hs, mins, ss, mss);
      |f| == 12 && ParseTimestamp(f) == ((h * 60 + m) * 60 + s) * 1000 + ms
  {
  }

  lemma TwoDigits(n: nat)
    requires n < 100
    ensures Digit(Digits(n, 2)[0]) * 10 + Digit(Digits(n, 2)[1]) == n
  {
    assert Digits(n, 2) == Digits(n / 10, 1) + [DigitChar(n % 10)];
    assert Digits(n / 10, 1) == Digits(n / 10 / 10, 0) + [DigitChar(n / 10 % 10)];
  }

  lemma ThreeDigits(n: nat)
    requires n < 1000
    ensures Digit(Digits(n, 3)[0]) * 100 + Digit(Digits(n, 3)[1]) * 10 + Digit(Digits(n, 3)[2]) == n
  {
    assert Digits(n, 3) == Digits(n / 10, 2) + [DigitChar(n % 10)];
    TwoDigits(n / 10);
  }
}
