/**
 Three places read a request's Content-Length: the receiver (first literal occurrence), the protocol
 detector (last line whose name is a prefix) and the request parser (first slot whose key is an
 extension).  On a printed request with one such header they read the same number.
 */
module Agreement {
  import opened CStrings
  import opened Framing
  import opened Lines
  import opened HttpRequest
  import opened RoundTrip
  import Protocol

  // ---------- the first literal occurrence, line by line ----------

  /** A needle without CR and LF lies inside one line. */
  lemma NotInLine(text: string, p: nat, line: string, needle: string, j: nat)
    requires At(text, line, p) && At(text, CRLF, p + |line|) && p <= j < p + |line| + 2
    requires Find(line, needle) == -1
    requires needle != "" && Free(needle, '\r') && Free(needle, '\n')
    ensures !At(text, needle, j)
  {
    if At(text, needle, j) {
      AtCrlf(text, p + |line|);
      if j + |needle| <= p + |line| {
        NotEarlier(line, needle, 0, j - p);
        AtWithin(text, p, line, needle, j - p);
      } else if j <= p + |line| {
        AtChar(text, needle, j, p + |line| - j);
      } else {
        AtChar(text, needle, j, 0);
      }
    }
  }

  lemma AtWithin(text: string, p: nat, line: string, needle: string, a: nat)
    requires At(text, line, p) && a + |needle| <= |line|
    ensures At(text, needle, p + a) <==> At(line, needle, a)
  {
    var middle, b := line[a..a + |needle|], a + |needle|;
    assert line == line[..a] + middle + line[b..];
    Split3(text, line[..a], middle, line[b..], p);
  }

  lemma SkipLine(text: string, p: nat, line: string, next: nat, needle: string)
    requires At(text, line, p) && At(text, CRLF, p + |line|) && next == p + |line| + 2 && Find(line, needle) == -1
    requires needle != "" && Free(needle, '\r') && Free(needle, '\n')
    ensures FindFrom(text, needle, p) == FindFrom(text, needle, next)
  {
    forall j | p <= j < next
      ensures !At(text, needle, j)
    {
      NotInLine(text, p, line, needle, j);
    }
    SkipTo(text, needle, p, next);
  }

  predicate NotInFirst(lines: seq<string>, needle: string, c: nat)
    requires c <= |lines|
  {
    c == 0 || (Find(lines[0], needle) == -1 && NotInFirst(lines[1..], needle, c - 1))
  }

  lemma {:induction false} NotInFirstIf(lines: seq<string>, needle: string, c: nat)
    requires c <= |lines| && forall i :: 0 <= i < c ==> Find(lines[i], needle) == -1
    ensures NotInFirst(lines, needle, c)
    decreases c
  {
    if c > 0 { NotInFirstIf(lines[1..], needle, c - 1); }
  }

  /** The first occurrence of the needle from p on is at the start of the target line. */
  ghost predicate TargetFound(text: string, p: nat, needle: string, target: string) {
    var r := FindFrom(text, needle, p);
    r != -1 && At(text, target, r) && At(text, CRLF, r + |target|)
  }

  lemma FoundInFirst(text: string, p: nat, lines: seq<string>, needle: string)
    requires lines != [] && BlockAt(text, p, lines) && At(lines[0], needle, 0)
    ensures TargetFound(text, p, needle, lines[0])
  {
    AtWithin(text, p, lines[0], needle, 0);
    FindFromIs(text, needle, p, p);
  }

  lemma NotFoundInFirst(text: string, p: nat, lines: seq<string>, needle: string) returns (next: nat)
    requires lines != [] && BlockAt(text, p, lines) && Find(lines[0], needle) == -1
    requires needle != "" && Free(needle, '\r') && Free(needle, '\n')
    ensures next == p + |lines[0]| + 2 && BlockAt(text, next, lines[1..])
    ensures FindFrom(text, needle, p) == FindFrom(text, needle, next)
  {
    var line: string;
    line, next := BlockNext(text, p, lines);
    SkipLine(text, p, line, next, needle);
  }

  lemma {:induction false} FindInBlock(text: string, p: nat, lines: seq<string>, needle: string, c: nat, target: string)
    requires c < |lines| && lines[c] == target && BlockAt(text, p, lines)
    requires needle != "" && Free(needle, '\r') && Free(needle, '\n')
    requires NotInFirst(lines, needle, c) && At(target, needle, 0)
    ensures TargetFound(text, p, needle, target)
    decreases c
  {
    if c == 0 {
      FoundInFirst(text, p, lines, needle);
    } else {
      var next := NotFoundInFirst(text, p, lines, needle);
      FindInBlock(text, next, lines[1..], needle, c - 1, target);
      TargetMoves(text, p, next, needle, target);
    }
  }

  lemma TargetMoves(text: string, p: nat, q: nat, needle: string, target: string)
    requires FindFrom(text, needle, p) == FindFrom(text, needle, q) && TargetFound(text, q, needle, target)
    ensures TargetFound(text, p, needle, target)
  {
  }

  // ---------- the messages ----------

  /** Before the header at c the field name is neither spelled out nor the start of a key. */
  ghost predicate Unannounced(line: RequestLine, headers: seq<Header>, c: nat)
    requires c <= |headers|
  {
    && Find(LineText(line), CONTENT_LENGTH) == -1
    && (forall j :: 0 <= j < c ==> Find(HeaderText(headers[j]), CONTENT_LENGTH) == -1)
    && (forall j :: 0 <= j < c ==> !IsNamed(headers[j], LENGTH_NAME))
  }

  /** After it no key is a prefix that the detector takes for the field name. */
  ghost predicate Unrepeated(headers: seq<Header>, c: nat) {
    forall j :: c < j < |headers| ==> Protocol.NameOf(headers[j].key) != Protocol.ContentLength
  }

  /** One Content-Length header, at c, saying an `int`, and nothing that a reader takes for another one. */
  ghost predicate OneLength(line: RequestLine, headers: seq<Header>, c: nat, n: nat) {
    && PrintableLine(line) && PrintableHeaders(headers)
    && c < |headers| && headers[c] == Header("Content-Length", Decimal(n)) && n <= INT_MAX
    && Unannounced(line, headers, c) && Unrepeated(headers, c)
  }

  // ---------- first reader: the receiver ----------

  lemma ReceiverReads(m: Message, c: nat, n: nat)
    requires OneLength(m.line, m.headers, c, n)
    ensures HeaderEnd(Print(m)) == |HeadOf(m)| && Print(m)[..|HeadOf(m)|] == HeadOf(m)
    ensures ContentLength(HeadOf(m)) == n
  {
    LinesOfMessage(m);
    BlankLineAfterBlock(TextLines(m.line, m.headers), m.body);
    assert Print(m) == HeadOf(m) + m.body;
    CutAtNul(m);
    CStrOfClean(HeadOf(m));
    LengthInHead(m, c, n);
  }

  lemma LengthInHead(m: Message, c: nat, n: nat)
    requires OneLength(m.line, m.headers, c, n) && AllLines(TextLines(m.line, m.headers))
    ensures var i := Find(HeadOf(m), CONTENT_LENGTH);
            i != -1 && NumberAt(HeadOf(m), i + |CONTENT_LENGTH|) == n
  {
    var head, lines := HeadOf(m), TextLines(m.line, m.headers);
    BlockItself(head, lines);
    LengthLineAt(m.line, m.headers, c, n);
    LengthInLines(head, lines, 1 + c, n);
  }

  lemma LengthLineAt(line: RequestLine, headers: seq<Header>, c: nat, n: nat)
    requires OneLength(line, headers, c, n)
    ensures NotInFirst(TextLines(line, headers), CONTENT_LENGTH, 1 + c)
    ensures TextLines(line, headers)[1 + c] == HeaderText(Header("Content-Length", Decimal(n)))
  {
    NoEarlierLiteral(line, headers, c);
    HeaderLineAt(line, headers, c);
  }

  lemma LengthInLines(head: string, lines: seq<string>, c: nat, n: nat)
    requires BlockAt(head, 0, lines) && c < |lines| && NotInFirst(lines, CONTENT_LENGTH, c)
    requires lines[c] == HeaderText(Header("Content-Length", Decimal(n)))
    ensures var i := Find(head, CONTENT_LENGTH);
            i != -1 && NumberAt(head, i + |CONTENT_LENGTH|) == n
  {
    var target := lines[c];
    LengthLine(n);
    FieldNameOnOneLine();
    FindInBlock(head, 0, lines, CONTENT_LENGTH, c, target);
    NumberOnLine(head, Find(head, CONTENT_LENGTH), target, n);
  }

  lemma FieldNameOnOneLine()
    ensures |CONTENT_LENGTH| > 2 && Free(CONTENT_LENGTH, '\r') && Free(CONTENT_LENGTH, '\n')
  {
  }

  lemma AtSelf(text: string)
    ensures At(text, text, 0)
  {
    assert text[0..|text|] == text;
  }

  lemma NoEarlierLiteral(line: RequestLine, headers: seq<Header>, c: nat)
    requires c < |headers| && Unannounced(line, headers, c)
    ensures NotInFirst(TextLines(line, headers), CONTENT_LENGTH, 1 + c)
  {
    var lines := TextLines(line, headers);
    forall i: nat | 0 <= i < 1 + c
      ensures Find(lines[i], CONTENT_LENGTH) == -1
    {
      if i > 0 { HeaderLineAt(line, headers, i - 1); }
    }
    NotInFirstIf(lines, CONTENT_LENGTH, 1 + c);
  }

  lemma LengthLine(n: nat)
    ensures var line := HeaderText(Header("Content-Length", Decimal(n)));
            line == CONTENT_LENGTH + " " + Decimal(n) && At(line, CONTENT_LENGTH, 0)
  {
    var line := HeaderText(Header("Content-Length", Decimal(n)));
    assert line == CONTENT_LENGTH + " " + Decimal(n);
    AtMiddle("", CONTENT_LENGTH, " " + Decimal(n));
    assert "" + CONTENT_LENGTH + (" " + Decimal(n)) == line;
  }

  lemma NumberOnLine(text: string, r: nat, line: string, n: nat)
    requires line == HeaderText(Header("Content-Length", Decimal(n)))
    requires At(text, line, r) && At(text, CRLF, r + |line|)
    ensures NumberAt(text, r + |CONTENT_LENGTH|) == n
  {
    var d, i := Decimal(n), r + |CONTENT_LENGTH|;
    LengthLine(n);
    Split3(text, CONTENT_LENGTH, " ", d, r);
    AtChar(text, " ", i, 0);
    AtSlice(text, d, i + 1);
    AtCrlf(text, i + 1 + |d|);
    NumberAtIs(text, i, i + 1, n);
  }

  // ---------- second reader: the protocol detector ----------

  /** How the detector reads a printed header: the name, and a value that is one word as it is. */
  lemma DetectorField(h: Header)
    requires PrintableHeader(h)
    ensures var field := Protocol.ReadField(HeaderText(h));
            field.Field? && field.name == h.key && (IsWord(h.value) ==> field.value == h.value)
  {
    var text, n := HeaderText(h), |h.key|;
    HeaderLayout(h);
    KeyOf(text, h.key);
    AtChar(text, ": ", n, 1);
    if IsWord(h.value) {
      AtChar(text, h.value, n + 2, 0);
      assert Protocol.BlanksEnd(text, n + 1) == n + 2;
      assert text[n + 2..] == h.value;
    }
  }

  lemma DecimalAtoi(n: nat)
    ensures Protocol.Atoi(Decimal(n)) == n
  {
    var s := Decimal(n);
    DecimalValue(n);
    assert IsDigit(s[0]);
    SpaceEndIs(s, 0, 0);
    DigitEndIs(s, 0, |s|);
  }

  function Pow10(k: nat): nat { if k == 0 then 1 else 10 * Pow10(k - 1) }

  lemma {:induction false} DecimalLength(n: nat, k: nat)
    requires n < Pow10(k) && 0 < k
    ensures |Decimal(n)| <= k
  {
    if n >= 10 { DecimalLength(n / 10, k - 1); }
  }

  lemma DecimalShort(n: nat)
    requires n <= INT_MAX
    ensures Take(Decimal(n), 31) == Decimal(n)
  {
    assert Pow10(5) == 100_000;
    assert Pow10(10) == 100_000 * 100_000;
    DecimalLength(n, 10);
  }

  lemma LengthFieldRead(n: nat)
    requires n <= INT_MAX
    ensures Protocol.LengthOn(HeaderText(Header("Content-Length", Decimal(n)))) == Some(n)
  {
    DecimalShort(n);
    DecimalAtoi(n);
    NameOfLength();
    LengthPrintable(n);
    DetectorField(Header("Content-Length", Decimal(n)));
  }

  lemma LengthPrintable(n: nat)
    ensures PrintableHeader(Header("Content-Length", Decimal(n))) && IsWord(Decimal(n))
  {
  }

  lemma NameOfLength()
    ensures Protocol.NameOf("Content-Length") == Protocol.ContentLength
  {
    Protocol.NamesTaken("Content-Length");
    assert "Content-Length"[..14] == "Content-Length";
  }

  lemma SilentHeader(h: Header)
    requires PrintableHeader(h) && Protocol.NameOf(h.key) != Protocol.ContentLength
    ensures Protocol.LengthOn(HeaderText(h)) == None
  {
    DetectorField(h);
  }

  lemma LaterLineSilent(text: string, headers: seq<Header>, c: nat, j: nat)
    requires PrintableHeaders(headers) && Unrepeated(headers, c) && c < j < |headers|
    requires text == HeaderText(headers[j])
    ensures Protocol.LengthOn(text) == None
  {
    SilentHeader(headers[j]);
  }

  lemma LaterLinesSilent(line: RequestLine, headers: seq<Header>, c: nat)
    requires PrintableHeaders(headers) && Unrepeated(headers, c)
    ensures var lines := TextLines(line, headers);
            forall i :: 1 + c < i < |lines| ==> Protocol.LengthOn(lines[i]) == None
  {
    var lines := TextLines(line, headers);
    forall i: nat | 1 + c < i < |lines|
      ensures Protocol.LengthOn(lines[i]) == None
    {
      HeaderLineAt(line, headers, i - 1);
      LaterLineSilent(lines[i], headers, c, i - 1);
    }
  }

  lemma LengthLineSets(m: Message, c: nat, n: nat)
    requires OneLength(m.line, m.headers, c, n)
    ensures Protocol.LengthOn(TextLines(m.line, m.headers)[1 + c]) == Some(n)
  {
    HeaderLineAt(m.line, m.headers, c);
    LengthFieldRead(n);
  }

  lemma HeaderLineAt(line: RequestLine, headers: seq<Header>, j: nat)
    requires j < |headers|
    ensures TextLines(line, headers)[1 + j] == HeaderText(headers[j])
  {
  }

  /** Like the parser, the detector is given the C string. */
  lemma DetectorReads(m: Message, c: nat, n: nat, info: Protocol.Info)
    requires OneLength(m.line, m.headers, c, n)
    ensures Protocol.Effects(info, LinesToBlank(CStr(Print(m)), 0)).contentLength == n
  {
    LinesOfMessage(m);
    CutAtNul(m);
    PrintedParts(TextLines(m.line, m.headers), CStr(m.body));
    LengthLineSets(m, c, n);
    LaterLinesSilent(m.line, m.headers, c);
    Protocol.LastLengthWins(info, TextLines(m.line, m.headers), 1 + c);
  }

  // ---------- third reader: the request parser ----------

  /** What the parser makes of the C string of a request with a body of n bytes, which may hold a '\0'. */
  ghost predicate ParsedAs(p: Parsed, m: Message, n: nat)
    requires |m.headers| <= MAX_HEADERS
  {
    && p.line == m.line && p.headers == Padded(GotBack(m.headers))
    && if Free(m.body, '\0') then p.ret == 0 && p.body == Some(m.body) && p.bodyLength == n
       else p.body == None && p.ret == if CStr(m.body) == "" then 0 else -1
  }

  /** The body is accepted if and only if it holds no '\0'; otherwise it is dropped or refused. */
  lemma ParserReads(m: Message, c: nat, n: nat)
    requires OneLength(m.line, m.headers, c, n) && |m.body| == n && n > 0
    ensures ParsedAs(Parse(CStr(Print(m))), m, n)
    ensures Parse(CStr(Print(m))).body == Some(m.body) <==> Free(m.body, '\0')
  {
    ParsePrinted(m);
    LengthSlot(m.headers, c, n);
    DecimalSaysLength(n);
    CutIsShorter(m.body);
  }

  lemma LengthSlot(headers: seq<Header>, c: nat, n: nat)
    requires c < |headers| && headers[c] == Header("Content-Length", Decimal(n))
    requires forall j :: 0 <= j < c ==> !IsNamed(headers[j], LENGTH_NAME)
    ensures FirstSlot(GotBack(headers), LENGTH_NAME, 0) == c && GotBack(headers)[c] == headers[c]
  {
    var got := GotBack(headers);
    LengthPrintable(n);
    FirstWordIsAll(Decimal(n));
    assert got[c] == headers[c];
    NamedAlike(headers[c]);
    forall j | 0 <= j < c
      ensures !IsNamed(got[j], LENGTH_NAME)
    {
      assert !IsNamed(headers[j], LENGTH_NAME);
      NamedAlike(headers[j]);
    }
  }

  /** What is read back is named as the header was, or not at all. */
  lemma NamedAlike(h: Header)
    ensures h.key == "Content-Length" ==> IsNamed(h, LENGTH_NAME)
    ensures !IsNamed(h, LENGTH_NAME) ==> !IsNamed(ReadBack(h), LENGTH_NAME)
  {
  }

  lemma CutIsShorter(body: string)
    ensures if Free(body, '\0') then CStr(body) == body else |CStr(body)| < |body|
  {
    if Free(body, '\0') {
      CStrOfClean(body);
    } else {
      var k :| 0 <= k < |body| && body[k] == '\0';
      assert StrLen(body) <= k;
    }
  }

  // ---------- all three ----------

  /** The first two give the length of the body; the third does if and only if the body holds no '\0'. */
  lemma ReadersAgree(m: Message, c: nat, n: nat)
    requires OneLength(m.line, m.headers, c, n) && |m.body| == n && 0 < n
    ensures HeaderEnd(Print(m)) == |HeadOf(m)| && Print(m)[..|HeadOf(m)|] == HeadOf(m)
    ensures ContentLength(HeadOf(m)) == n
    ensures Protocol.Effects(Protocol.Info(Protocol.Http, -1), LinesToBlank(CStr(Print(m)), 0)).contentLength == n
    ensures var p := Parse(CStr(Print(m))); p.ret == 0 && p.bodyLength == n <==> Free(m.body, '\0')
  {
    ReceiverReads(m, c, n);
    DetectorReads(m, c, n, Protocol.Info(Protocol.Http, -1));
    ParserReads(m, c, n);
    NoLengthWithoutBody(CStr(Print(m)));
  }

  lemma NoLengthWithoutBody(text: string)
    ensures Parse(text).body == None ==> Parse(text).bodyLength == 0
  {
  }
}
