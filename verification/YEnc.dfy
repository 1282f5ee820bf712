/**
 The yEnc lines of an article and the article around them (scripts/screenshots/nntp_mock.py,
 `yenc_lines` and `article`): decoding gives the data back, and no line can be taken for the end
 of the article or be changed by a transport that trims blanks.
 */
module YEnc {
  import opened Strings
  import opened Wrappers

  const NUL: Byte := 0x00
  const TAB: Byte := 0x09
  const LF: Byte := 0x0A
  const CR: Byte := 0x0D
  const SPACE: Byte := 0x20
  const DOT: Byte := 0x2E
  const ESCAPE: Byte := 0x3D

  function Shifted(b: Byte): Byte {
    (b + 42) % 256
  }

  predicate NeedsEscape(out: Byte, atEdge: bool, atStart: bool) {
    || out == NUL || out == LF || out == CR || out == ESCAPE
    || ((out == TAB || out == SPACE) && atEdge)
    || (out == DOT && atStart)
  }

  /** What one byte of data adds to a line. */
  function Piece(b: Byte, atEdge: bool, atStart: bool): Bytes {
    var out := Shifted(b);
    if NeedsEscape(out, atEdge, atStart) then [ESCAPE, (out + 64) % 256] else [out]
  }

  /** The finished lines and the one being filled. */
  datatype Fill = Fill(lines: seq<Bytes>, current: Bytes)

  function Filled(fill: Fill, data: Bytes, line: int, n: nat): Fill
    requires n < |data|
  {
    var edge := fill.current == [] || |fill.current| >= line - 1 || n == |data| - 1;
    var current := fill.current + Piece(data[n], edge, fill.current == []);
    if |current| >= line then Fill(fill.lines + [current], []) else Fill(fill.lines, current)
  }

  function FilledTo(data: Bytes, line: int, n: nat): Fill
    requires n <= |data|
  {
    if n == 0 then Fill([], []) else Filled(FilledTo(data, line, n - 1), data, line, n - 1)
  }

  function Lines(data: Bytes, line: int): seq<Bytes> {
    var fill := FilledTo(data, line, |data|);
    if fill.current == [] then fill.lines else fill.lines + [fill.current]
  }

  method YencLines(data: Bytes, line: int) returns (lines: seq<Bytes>)
    ensures lines == Lines(data, line)
  {
    lines := [];
    var current: Bytes := [];
    var last := |data| - 1;
    for index := 0 to |data|
      invariant Fill(lines, current) == FilledTo(data, line, index)
    {
      var out := Shifted(data[index]);
      var atEdge := current == [] || |current| >= line - 1 || index == last;
      if out == NUL || out == LF || out == CR || out == ESCAPE || ((out == TAB || out == SPACE) && atEdge)
         || (out == DOT && current == []) {
        current := current + [ESCAPE, (out + 64) % 256];
      } else {
        current := current + [out];
      }
      if |current| >= line {
        lines := lines + [current];
        current := [];
      }
    }
    if current != [] {
      lines := lines + [current];
    }
  }

  // ---- reading it back ----

  /** Undoes the escape and the shift. */
  function Decoded(s: Bytes): Bytes {
    if s == [] then []
    else if s[0] == ESCAPE then if |s| == 1 then [] else [(s[1] as int - 64 - 42) % 256] + Decoded(s[2..])
    else [(s[0] as int - 42) % 256] + Decoded(s[1..])
  }

  /** No escape without the byte it escapes. */
  predicate Whole(s: Bytes) {
    s == [] || if s[0] == ESCAPE then |s| > 1 && Whole(s[2..]) else Whole(s[1..])
  }

  function Flat(lines: seq<Bytes>): Bytes {
    if lines == [] then [] else Flat(lines[..|lines| - 1]) + lines[|lines| - 1]
  }

  lemma {:induction false} WholeAppend(a: Bytes, b: Bytes)
    requires Whole(a)
    ensures Decoded(a + b) == Decoded(a) + Decoded(b) && (Whole(a + b) <==> Whole(b))
  {
    if a == [] {
      assert a + b == b;
    } else {
      var k := if a[0] == ESCAPE then 2 else 1;
      assert (a + b)[k..] == a[k..] + b;
      WholeAppend(a[k..], b);
    }
  }

  lemma {:induction false} PieceDecodes(b: Byte, atEdge: bool, atStart: bool)
    ensures var p := Piece(b, atEdge, atStart); Whole(p) && Decoded(p) == [b]
  {
    var p := Piece(b, atEdge, atStart);
    assert p[1..] == [] || p[2..] == [];
  }

  /** Bytes no transport touches: no NUL, CR or LF. */
  predicate Clean(s: Bytes) {
    forall i :: 0 <= i < |s| ==> s[i] != NUL && s[i] != CR && s[i] != LF
  }

  predicate IsBlank(b: Byte) {
    b == TAB || b == SPACE
  }

  /** A line that begins like a line of an article may: no dot, no blank. */
  predicate GoodStart(s: Bytes) {
    s != [] ==> s[0] != DOT && !IsBlank(s[0])
  }

  predicate GoodEnd(s: Bytes) {
    s != [] ==> !IsBlank(s[|s| - 1])
  }

  predicate GoodLine(s: Bytes) {
    s != [] && Whole(s) && Clean(s) && GoodStart(s) && GoodEnd(s)
  }

  /** What the loop keeps of the lines; the one being filled may end in a blank while data comes. */
  ghost predicate LinesSoFar(fill: Fill, line: int, over: bool) {
    && (forall i :: 0 <= i < |fill.lines| ==> GoodLine(fill.lines[i]) && line <= |fill.lines[i]| <= line + 1)
    && |fill.current| < line
    && Whole(fill.current) && Clean(fill.current) && GoodStart(fill.current)
    && (over ==> GoodEnd(fill.current))
  }

  /** And of the data. */
  ghost predicate DataSoFar(fill: Fill, data: Bytes) {
    Whole(Flat(fill.lines)) && Whole(fill.current) && Decoded(Flat(fill.lines)) + Decoded(fill.current) == data
  }

  lemma {:induction false} PieceIsGood(b: Byte, atEdge: bool, atStart: bool)
    ensures var p := Piece(b, atEdge, atStart);
            && 1 <= |p| <= 2 && Clean(p) && (atEdge ==> GoodEnd(p)) && (|p| == 2 ==> GoodEnd(p))
            && (atStart && atEdge ==> GoodStart(p))
  {
  }

  lemma {:induction false} FlatAppend(lines: seq<Bytes>, l: Bytes)
    ensures Flat(lines + [l]) == Flat(lines) + l
  {
    assert (lines + [l])[..|lines|] == lines;
  }

  lemma {:induction false} LinesStep(fill: Fill, data: Bytes, line: int, n: nat)
    requires line >= 1 && n < |data| && LinesSoFar(fill, line, false)
    ensures LinesSoFar(Filled(fill, data, line, n), line, n + 1 == |data|)
  {
    var edge := fill.current == [] || |fill.current| >= line - 1 || n == |data| - 1;
    var p := Piece(data[n], edge, fill.current == []);
    var current := fill.current + p;
    PieceIsGood(data[n], edge, fill.current == []);
    PieceDecodes(data[n], edge, fill.current == []);
    WholeAppend(fill.current, p);
    assert GoodStart(current) && Clean(current) && Whole(current);
    assert current[|current| - 1] == p[|p| - 1];
  }

  lemma {:induction false} DecodesOn(flat: Bytes, current: Bytes, p: Bytes, data: Bytes, b: Byte)
    requires Whole(flat) && Whole(current) && Whole(p) && Decoded(p) == [b]
    requires Decoded(flat) + Decoded(current) == data
    ensures Whole(current + p) && Decoded(flat) + Decoded(current + p) == data + [b]
    ensures Whole(flat + (current + p)) && Decoded(flat + (current + p)) == data + [b]
  {
    WholeAppend(current, p);
    WholeAppend(flat, current + p);
    assert Decoded(flat) + (Decoded(current) + [b]) == data + [b];
  }

  /** Finishing a line changes nothing. */
  lemma {:induction false} LineFinished(lines: seq<Bytes>, current: Bytes, data: Bytes)
    requires DataSoFar(Fill(lines, current), data)
    ensures DataSoFar(Fill(lines + [current], []), data)
  {
    FlatAppend(lines, current);
    WholeAppend(Flat(lines), current);
  }

  lemma {:induction false} DataStep(fill: Fill, data: Bytes, line: int, n: nat)
    requires n < |data| && DataSoFar(fill, data[..n])
    ensures DataSoFar(Filled(fill, data, line, n), data[..n + 1])
  {
    var edge := fill.current == [] || |fill.current| >= line - 1 || n == |data| - 1;
    var p := Piece(data[n], edge, fill.current == []);
    PieceDecodes(data[n], edge, fill.current == []);
    assert data[..n + 1] == data[..n] + [data[n]];
    DecodesOn(Flat(fill.lines), fill.current, p, data[..n], data[n]);
    LineFinished(fill.lines, fill.current + p, data[..n + 1]);
  }

  lemma {:induction false} FilledLines(data: Bytes, line: int, n: nat)
    requires line >= 1 && n <= |data|
    ensures LinesSoFar(FilledTo(data, line, n), line, n == |data|)
  {
    if n > 0 {
      FilledLines(data, line, n - 1);
      LinesStep(FilledTo(data, line, n - 1), data, line, n - 1);
    }
  }

  lemma {:induction false} FilledData(data: Bytes, line: int, n: nat)
    requires n <= |data|
    ensures DataSoFar(FilledTo(data, line, n), data[..n])
  {
    if n == 0 {
      assert data[..0] == [];
    } else {
      FilledData(data, line, n - 1);
      DataStep(FilledTo(data, line, n - 1), data, line, n - 1);
    }
  }

  /** Every byte sequence comes back, whatever the line length. */
  lemma {:induction false} RoundTrip(data: Bytes, line: int)
    requires line >= 1
    ensures Decoded(Flat(Lines(data, line))) == data
  {
    FilledData(data, line, |data|);
    var fill := FilledTo(data, line, |data|);
    FlatAppend(fill.lines, fill.current);
    WholeAppend(Flat(fill.lines), fill.current);
    assert data[..|data|] == data;
  }

  /** Every line stands alone: no escape is cut in two, nothing in it means something to the
      transport, and every line but the last is full. */
  lemma {:induction false} LinesAreGood(data: Bytes, line: int)
    requires line >= 1
    ensures var lines := Lines(data, line);
            && (forall i :: 0 <= i < |lines| ==> GoodLine(lines[i]) && |lines[i]| <= line + 1)
            && (forall i :: 0 <= i < |lines| - 1 ==> |lines[i]| >= line)
  {
    FilledLines(data, line, |data|);
  }

  // ---- the article ----

  /** Padded with zeros to eight digits. */
  function Padded(s: string): (r: string)
    requires forall c <- s :: c in DIGITS
    ensures forall c <- r :: c in DIGITS
    decreases 8 - |s|
  {
    if |s| >= 8 then s else Padded("0" + s)
  }

  const FILES := 3
  const PARTS := 600
  const LINE := 128

  /** Text a line of the article may hold: no control characters. */
  ghost predicate Printable(s: string) {
    forall c <- s :: ' ' <= c <= '~'
  }

  lemma {:induction false} DigitsArePrintable(s: string)
    requires forall c <- s :: c in DIGITS
    ensures Printable(s)
  {
    forall c <- s ensures ' ' <= c <= '~' {
      var i :| 0 <= i < |DIGITS| && DIGITS[i] == c;
      assert forall j :: 0 <= j < |DIGITS| ==> ' ' <= DIGITS[j] <= '~';
    }
  }

  function FileName(number: nat): string {
    "blender-production-files.part" + Decimal(number) + ".rar"
  }

  function BeginLine(number: nat, part: nat, size: nat): string {
    "=ybegin part=" + Decimal(part) + " total=" + Decimal(PARTS) + " line=" + Decimal(LINE)
    + " size=" + Decimal(PARTS * size) + " name=" + FileName(number)
  }

  function PartLine(part: nat, size: nat): string
    requires part >= 1
  {
    RangeLine(Begin(part, size), size)
  }

  /** The offset of a part's first byte in its file, counted from one. */
  function Begin(part: nat, size: nat): (r: nat)
    requires part >= 1
    ensures r >= 1
  {
    assert (part - 1) * size >= 0;
    (part - 1) * size + 1
  }

  function RangeLine(begin: nat, size: nat): string
    requires begin >= 1
  {
    "=ypart begin=" + Decimal(begin) + " end=" + Decimal(begin + size - 1)
  }

  function EndLine(part: nat, size: nat, crc: nat): string {
    "=yend size=" + Decimal(size) + " part=" + Decimal(part) + " pcrc32=" + Padded(Number(crc, 16))
  }

  function ByteOf(c: char): Byte {
    if c as int < 256 then c as int else 63
  }

  function Line(s: string): (r: Bytes)
    ensures |r| == |s|
  {
    seq(|s|, i requires 0 <= i < |s| => ByteOf(s[i]))
  }

  /** The lines of the article of one part, its terminator last. */
  function ArticleLines(data: Bytes, number: nat, part: nat, crc: nat): seq<Bytes>
    requires part >= 1
  {
    [Line(BeginLine(number, part, |data|)), Line(PartLine(part, |data|))]
    + Lines(data, LINE)
    + [Line(EndLine(part, |data|, crc)), [DOT]]
  }

  /** Each line with its line end. */
  function Sent(lines: seq<Bytes>): Bytes {
    if lines == [] then [] else lines[0] + [CR, LF] + Sent(lines[1..])
  }

  /** The body of an article, None for a part that does not exist. */
  function Article(data: Bytes, number: nat, part: nat, crc: nat): Option<Bytes> {
    if 1 <= number <= FILES && 1 <= part <= PARTS then Some(Sent(ArticleLines(data, number, part, crc))) else None
  }

  /** What a reader sees: the lines up to each line end. */
  function Received(s: Bytes): seq<Bytes>
    decreases |s|
  {
    var i := FirstLineEnd(s);
    if i + 1 >= |s| then [] else [s[..i]] + Received(s[i + 2..])
  }

  function FirstLineEnd(s: Bytes): (i: nat)
    ensures i <= |s|
  {
    if |s| < 2 then |s|
    else if s[0] == CR && s[1] == LF then 0
    else 1 + FirstLineEnd(s[1..])
  }

  lemma {:induction false} FirstLineEndIs(l: Bytes, rest: Bytes)
    requires CR !in l
    ensures FirstLineEnd(l + [CR, LF] + rest) == |l|
  {
    var s := l + [CR, LF] + rest;
    if l != [] {
      FirstLineEndIs(l[1..], rest);
      assert s[1..] == l[1..] + [CR, LF] + rest;
      assert s[0] == l[0];
    }
  }

  /** Lines without a carriage return come back as they were sent. */
  lemma {:induction false} SentIsReceived(lines: seq<Bytes>)
    requires forall i :: 0 <= i < |lines| ==> CR !in lines[i]
    ensures Received(Sent(lines)) == lines
  {
    if lines != [] {
      var s := Sent(lines);
      FirstLineEndIs(lines[0], Sent(lines[1..]));
      assert s[..|lines[0]|] == lines[0];
      assert s[|lines[0]| + 2..] == Sent(lines[1..]);
      SentIsReceived(lines[1..]);
    }
  }

  lemma {:induction false} HeaderLineIsGood(s: string)
    requires Printable(s) && |s| > 1 && s[0] == '='
    ensures CR !in Line(s) && Line(s)[0] == ESCAPE && Line(s) != [DOT]
  {
    assert forall i :: 0 <= i < |s| ==> s[i] in s;
  }

  lemma {:induction false} FieldIsPrintable(s: string, caption: string, n: nat)
    requires Printable(s) && Printable(caption)
    ensures Printable(s + caption + Decimal(n))
  {
    DigitsArePrintable(Decimal(n));
  }

  lemma {:induction false} BeginLiterals()
    ensures Printable("=ybegin part=") && Printable(" total=") && Printable(" line=") && Printable(" size=")
    ensures Printable(" name=")
  {
  }

  lemma {:induction false} NameLiterals()
    ensures Printable("blender-production-files.part") && Printable(".rar")
  {
  }

  lemma {:induction false} EndLiterals()
    ensures Printable("=ypart begin=") && Printable(" end=")
    ensures Printable("=yend size=") && Printable(" part=") && Printable(" pcrc32=")
  {
  }

  lemma {:induction false} PrintableAppend(a: string, b: string)
    requires Printable(a) && Printable(b)
    ensures Printable(a + b)
  {
  }

  lemma {:induction false} BeginLineIsPrintable(number: nat, part: nat, size: nat)
    ensures Printable(BeginLine(number, part, size))
  {
    BeginLiterals();
    NameLiterals();
    DigitsArePrintable(Decimal(part));
    DigitsArePrintable(Decimal(number));
    var a := "=ybegin part=" + Decimal(part);
    var b := a + " total=" + Decimal(PARTS);
    var c := b + " line=" + Decimal(LINE);
    var d := c + " size=" + Decimal(PARTS * size);
    PrintableAppend("=ybegin part=", Decimal(part));
    FieldIsPrintable(a, " total=", PARTS);
    FieldIsPrintable(b, " line=", LINE);
    FieldIsPrintable(c, " size=", PARTS * size);
    FieldIsPrintable(d + " name=", "blender-production-files.part", number);
    PrintableAppend(d + " name=" + "blender-production-files.part" + Decimal(number), ".rar");
    assert BeginLine(number, part, size)
        == d + " name=" + "blender-production-files.part" + Decimal(number) + ".rar";
  }

  lemma {:induction false} RangeLineIsPrintable(begin: nat, size: nat)
    requires begin >= 1
    ensures Printable(RangeLine(begin, size))
  {
    EndLiterals();
    DigitsArePrintable(Decimal(begin));
    PrintableAppend("=ypart begin=", Decimal(begin));
    FieldIsPrintable("=ypart begin=" + Decimal(begin), " end=", begin + size - 1);
  }

  lemma {:induction false} EndLineIsPrintable(part: nat, size: nat, crc: nat)
    ensures Printable(EndLine(part, size, crc))
  {
    EndLiterals();
    var a := "=yend size=" + Decimal(size);
    var b := a + " part=" + Decimal(part);
    DigitsArePrintable(Decimal(size));
    PrintableAppend("=yend size=", Decimal(size));
    FieldIsPrintable(a, " part=", part);
    DigitsArePrintable(Padded(Number(crc, 16)));
    PrintableAppend(b, " pcrc32=");
    PrintableAppend(b + " pcrc32=", Padded(Number(crc, 16)));
  }

  /** A line nobody can take for the end of an article, or for two lines. */
  predicate Plain(l: Bytes) {
    l != [] && l[0] != DOT && CR !in l
  }

  lemma {:induction false} HeaderIsPlain(s: string)
    requires Printable(s) && |s| > 1 && s[0] == '='
    ensures Plain(Line(s))
  {
    HeaderLineIsGood(s);
  }

  lemma {:induction false} HeadersArePlain(number: nat, part: nat, size: nat, begin: nat, crc: nat)
    requires begin >= 1
    ensures Plain(Line(BeginLine(number, part, size))) && Plain(Line(RangeLine(begin, size)))
    ensures Plain(Line(EndLine(part, size, crc)))
  {
    BeginLineIsPrintable(number, part, size);
    RangeLineIsPrintable(begin, size);
    EndLineIsPrintable(part, size, crc);
    assert BeginLine(number, part, size)[0] == '=' && RangeLine(begin, size)[0] == '=';
    assert EndLine(part, size, crc)[0] == '=';
    HeaderIsPlain(BeginLine(number, part, size));
    HeaderIsPlain(RangeLine(begin, size));
    HeaderIsPlain(EndLine(part, size, crc));
  }

  lemma {:induction false} FramedIsRead(a: Bytes, b: Bytes, body: seq<Bytes>, c: Bytes)
    requires Plain(a) && Plain(b) && Plain(c) && forall i :: 0 <= i < |body| ==> Plain(body[i])
    ensures var lines := [a, b] + body + [c, [DOT]];
            && Received(Sent(lines)) == lines && lines[2..|lines| - 2] == body
            && lines[|lines| - 1] == [DOT] && forall i :: 0 <= i < |lines| - 1 ==> Plain(lines[i])
  {
    SentIsReceived([a, b] + body + [c, [DOT]]);
  }

  /** A reader of an article gets its lines, the data among them, and the only line that is a
      single dot, or begins with one, is the last. */
  lemma {:induction false} ArticleIsRead(data: Bytes, number: nat, part: nat, crc: nat)
    requires Article(data, number, part, crc).Some?
    ensures var lines := Received(Article(data, number, part, crc).value);
            && lines == ArticleLines(data, number, part, crc)
            && lines[|lines| - 1] == [DOT]
            && (forall i :: 0 <= i < |lines| - 1 ==> Plain(lines[i]))
            && Decoded(Flat(lines[2..|lines| - 2])) == data
  {
    HeadersArePlain(number, part, |data|, Begin(part, |data|), crc);
    LinesAreGood(data, LINE);
    var body := Lines(data, LINE);
    forall i | 0 <= i < |body| ensures Plain(body[i]) {
      assert GoodLine(body[i]);
    }
    var a, b := Line(BeginLine(number, part, |data|)), Line(PartLine(part, |data|));
    var c := Line(EndLine(part, |data|, crc));
    FramedIsRead(a, b, body, c);
    RoundTrip(data, LINE);
    assert ArticleLines(data, number, part, crc) == [a, b] + body + [c, [DOT]];
  }
}
