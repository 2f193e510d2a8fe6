/**
 Printing a request and parsing it again.  The printer is the usual one: three words, one `key: value`
 line per header, a blank line, the body.
 */
module RoundTrip {
  import opened CStrings
  import opened Framing
  import opened Lines
  import opened HttpRequest

  datatype Message = Message(line: RequestLine, headers: seq<Header>, body: string)

  function LineText(line: RequestLine): string { line.verb + " " + line.path + " " + line.version }

  function HeaderText(h: Header): string { h.key + ": " + h.value }

  function TextLines(line: RequestLine, headers: seq<Header>): seq<string> {
    [LineText(line)] + seq(|headers|, j requires 0 <= j < |headers| => HeaderText(headers[j]))
  }

  function Print(m: Message): string { Block(TextLines(m.line, m.headers)) + CRLF + m.body }

  function HeadOf(m: Message): string { Block(TextLines(m.line, m.headers)) + CRLF }

  predicate IsWord(s: string) { s != "" && SpaceFree(s) }

  predicate IsToken(s: string) { IsWord(s) && Free(s, '\0') }

  predicate PrintableLine(line: RequestLine) { IsToken(line.verb) && IsToken(line.path) && IsToken(line.version) }

  /** A key is not empty and has no colon; the value is any text on its line, also none.  Both are C strings. */
  predicate PrintableHeader(h: Header) { PrintableKey(h.key) && Free(h.value, '\r') && Free(h.value, '\0') }

  predicate PrintableKey(key: string) { key != "" && Free(key, ':') && Free(key, '\r') && Free(key, '\0') }

  predicate PrintableHeaders(headers: seq<Header>) {
    |headers| <= 20 && forall j :: 0 <= j < |headers| ==> PrintableHeader(headers[j])
  }

  predicate Printable(m: Message) { PrintableLine(m.line) && PrintableHeaders(m.headers) }

  // ---------- one line ----------

  lemma WordHasNoSpace(s: string, i: nat)
    requires i <= |s|
    ensures forall k :: i <= k < WordEnd(s, i) ==> !IsSpace(s[k])
    decreases |s| - i
  {
    if i < |s| && !IsSpace(s[i]) { WordHasNoSpace(s, i + 1); }
  }

  lemma HeaderLayout(h: Header)
    ensures var text, n := HeaderText(h), |h.key|;
            At(text, h.key, 0) && At(text, ": ", n) && At(text, h.value, n + 2) && |text| == n + 2 + |h.value|
  {
    var text := HeaderText(h);
    assert text[0..|text|] == text;
    AtSplit(text, h.key + ": ", h.value, 0);
    AtSplit(text, h.key, ": ", 0);
  }

  function FirstWord(s: string): string {
    var a := SpaceEnd(s, 0);
    s[a..WordEnd(s, a)]
  }

  /** What the scan stores of a header line: the first word of the value, and nothing if there is none. */
  function ReadBack(h: Header): Header {
    if FirstWord(h.value) == "" then NO_HEADER else Header(h.key, FirstWord(h.value))
  }

  function GotBack(headers: seq<Header>): (got: seq<Header>)
    ensures |got| == |headers|
  {
    seq(|headers|, j requires 0 <= j < |headers| => ReadBack(headers[j]))
  }

  /** White space and words of s, read where s stands in a longer text. */
  lemma {:induction false} SpaceEndMoves(s: string, text: string, d: nat, i: nat)
    requires i <= |s| && |text| == d + |s| && forall k :: 0 <= k < |s| ==> text[d + k] == s[k]
    ensures SpaceEnd(text, d + i) == d + SpaceEnd(s, i)
    decreases |s| - i
  {
    if i < |s| && IsSpace(s[i]) {
      assert text[d + i] == s[i];
      SpaceEndMoves(s, text, d, i + 1);
    } else if i < |s| {
      assert text[d + i] == s[i];
    }
  }

  lemma {:induction false} WordEndMoves(s: string, text: string, d: nat, i: nat)
    requires i <= |s| && |text| == d + |s| && forall k :: 0 <= k < |s| ==> text[d + k] == s[k]
    ensures WordEnd(text, d + i) == d + WordEnd(s, i)
    decreases |s| - i
  {
    if i < |s| && !IsSpace(s[i]) {
      assert text[d + i] == s[i];
      WordEndMoves(s, text, d, i + 1);
    } else if i < |s| {
      assert text[d + i] == s[i];
    }
  }

  /** How the scan reads a printed header, and when what it stores fits its two buffers. */
  lemma HeaderReads(h: Header)
    requires PrintableKey(h.key)
    ensures ReadHeader(HeaderText(h)) == ReadBack(h)
    ensures FitsHeaderLine(HeaderText(h)) <==> |h.key| < 256 && |FirstWord(h.value)| < 256
  {
    HeaderPlaces(h);
  }

  /** Where the key ends in a printed header, and where the first word is. */
  lemma HeaderPlaces(h: Header)
    requires PrintableKey(h.key)
    ensures var text := HeaderText(h);
            && Find(text, ":") == |h.key| && text[..|h.key|] == h.key
            && var a := SpaceEnd(text, |h.key| + 1);
               text[a..WordEnd(text, a)] == FirstWord(h.value) && WordEnd(text, a) - a == |FirstWord(h.value)|
  {
    var text, d := HeaderText(h), |h.key| + 2;
    HeaderLayout(h);
    KeyOf(text, h.key);
    AtChar(text, ": ", |h.key|, 1);
    ValueAt(text, h.value, d);
    OneSpace(text, d - 1);
  }

  lemma OneSpace(text: string, i: nat)
    requires i < |text| && text[i] == ' '
    ensures SpaceEnd(text, i) == SpaceEnd(text, i + 1)
  {
  }

  lemma ValueAt(text: string, value: string, d: nat)
    requires |text| == d + |value| && At(text, value, d)
    ensures var a := SpaceEnd(text, d);
            text[a..WordEnd(text, a)] == FirstWord(value) && WordEnd(text, a) - a == |FirstWord(value)|
  {
    forall k | 0 <= k < |value|
      ensures text[d + k] == value[k]
    {
      AtChar(text, value, d, k);
    }
    SpaceEndMoves(value, text, d, 0);
    WordEndMoves(value, text, d, SpaceEnd(value, 0));
  }

  /** A header is read back exactly when its value is a single word; otherwise it is cut or dropped. */
  lemma HeaderReadBackIff(h: Header)
    requires PrintableKey(h.key)
    ensures ReadHeader(HeaderText(h)) == h <==> IsWord(h.value)
  {
    HeaderReads(h);
    FirstWordIsAll(h.value);
  }

  lemma FirstWordIsAll(s: string)
    ensures IsWord(s) <==> FirstWord(s) == s != ""
  {
    if IsWord(s) {
      SpaceEndIs(s, 0, 0);
      WordEndIs(s, 0, |s|);
    } else if FirstWord(s) == s != "" {
      WordHasNoSpace(s, 0);
    }
  }

  lemma KeyOf(text: string, key: string)
    requires PrintableKey(key) && At(text, key, 0) && At(text, ": ", |key|)
    ensures Find(text, ":") == |key| && text[..|key|] == key
  {
    forall k | 0 <= k < |key|
      ensures text[k] != ':'
    {
      AtChar(text, key, 0, k);
    }
    AtChar(text, ": ", |key|, 0);
    FindChar(text, ':', |key|);
  }

  lemma LineLayout(line: RequestLine)
    ensures var text, b, d := LineText(line), |line.verb|, |line.verb| + 1 + |line.path|;
            && At(text, line.verb, 0) && At(text, " ", b) && At(text, line.path, b + 1)
            && At(text, " ", d) && At(text, line.version, d + 1) && |text| == d + 1 + |line.version|
  {
    var text, v, p := LineText(line), line.verb, line.path;
    assert text[0..|text|] == text;
    AtSplit(text, v + " " + p + " ", line.version, 0);
    AtSplit(text, v + " " + p, " ", 0);
    AtSplit(text, v + " ", p, 0);
    AtSplit(text, v, " ", 0);
  }

  lemma RequestLineReadBack(line: RequestLine)
    requires IsWord(line.verb) && IsWord(line.path) && IsWord(line.version)
    ensures ReadRequestLine(LineText(line)) == line
    ensures FitsRequestLine(LineText(line)) <==> |line.verb| < 16 && |line.path| < 256 && |line.version| < 16
  {
    LineLayout(line);
    ThreeWords(LineText(line), line.verb, line.path, line.version);
  }

  lemma ThreeWords(text: string, verb: string, path: string, version: string)
    requires IsWord(verb) && IsWord(path) && IsWord(version)
    requires At(text, verb, 0) && At(text, " ", |verb|) && At(text, path, |verb| + 1)
    requires At(text, " ", |verb| + 1 + |path|) && At(text, version, |verb| + 2 + |path|)
    requires |text| == |verb| + 2 + |path| + |version|
    ensures ReadRequestLine(text) == RequestLine(verb, path, version)
    ensures FitsRequestLine(text) <==> |verb| < 16 && |path| < 256 && |version| < 16
  {
    var b, d := |verb|, |verb| + 1 + |path|;
    AtChar(text, " ", b, 0);
    AtChar(text, " ", d, 0);
    WordIs(text, 0, 0, verb);
    WordIs(text, b, b + 1, path);
    WordIs(text, d, d + 1, version);
  }

  /** A word at a, after white space from i on, is what the scan from i takes. */
  lemma WordIs(text: string, i: nat, a: nat, word: string)
    requires i <= a && At(text, word, a) && IsWord(word)
    requires forall k :: i <= k < a ==> IsSpace(text[k])
    requires a + |word| < |text| ==> IsSpace(text[a + |word|])
    ensures SpaceEnd(text, i) == a && WordEnd(text, a) == a + |word| && text[a..a + |word|] == word
  {
    forall k | a <= k < a + |word|
      ensures !IsSpace(text[k])
    {
      AtChar(text, word, a, k - a);
    }
    SpaceEndIs(text, i, a);
    WordEndIs(text, a, a + |word|);
  }

  // ---------- the whole request ----------

  lemma TextLinesAreLines(line: RequestLine, headers: seq<Header>)
    requires PrintableLine(line)
    requires forall j :: 0 <= j < |headers| ==> PrintableKey(headers[j].key) && Free(headers[j].value, '\r')
    ensures AllLines(TextLines(line, headers))
  {
    var lines := TextLines(line, headers);
    forall i | 0 <= i < |lines|
      ensures IsLine(lines[i])
    {
      if i > 0 { assert lines[i] == HeaderText(headers[i - 1]); }
    }
  }

  /** Splitting a printed request: its lines and its body. */
  lemma PrintedParts(lines: seq<string>, body: string)
    requires lines != [] && AllLines(lines)
    ensures var text := Block(lines) + CRLF + body;
            && Find(text, HEADER_END) != -1 && LinesOf(text) == lines && BodyOf(text) == body
            && LinesToBlank(text, 0) == lines
  {
    var text := Block(lines) + CRLF + body;
    BlankLineAfterBlock(lines, body);
    BlockInText(lines, body);
    BlockSizeIs(lines);
    LinesBeforeBlank(text, 0, lines, |Block(lines)| - 2);
    LinesToBlankOfBlock(text, 0, lines);
    assert text[|Block(lines)| + 2..] == body;
  }

  function Padded(headers: seq<Header>): (t: seq<Header>)
    requires |headers| <= MAX_HEADERS
    ensures |t| == MAX_HEADERS
  {
    headers + seq(MAX_HEADERS - |headers|, _ => NO_HEADER)
  }

  lemma LinesOfMessage(m: Message)
    requires Printable(m)
    ensures AllLines(TextLines(m.line, m.headers))
  {
    forall j | 0 <= j < |m.headers|
      ensures PrintableKey(m.headers[j].key) && Free(m.headers[j].value, '\r')
    {
      assert PrintableHeader(m.headers[j]);
    }
    TextLinesAreLines(m.line, m.headers);
  }

  /** The printed header is a C string, so only a '\0' in the body cuts the text: the body is cut there. */
  lemma CutAtNul(m: Message)
    requires Printable(m)
    ensures Free(HeadOf(m), '\0') && CStr(Print(m)) == Print(m.(body := CStr(m.body)))
  {
    var lines := TextLines(m.line, m.headers);
    forall i | 0 <= i < |lines|
      ensures Free(lines[i], '\0')
    {
      if i > 0 { assert lines[i] == HeaderText(m.headers[i - 1]) && PrintableHeader(m.headers[i - 1]); }
    }
    BlockFree(lines, '\0');
    FreeConcat(Block(lines), CRLF, '\0');
    CStrOfConcat(HeadOf(m), m.body);
  }

  /**
   The parser is given the C string.  Of every header it gives back what the scan stores; what it sees of the
   body is what comes before the first '\0', and comes back when the first Content-Length slot says that length.
   That slot alone decides between success and failure.
   */
  lemma ParsePrinted(m: Message)
    requires Printable(m)
    ensures var p, got, body := Parse(CStr(Print(m))), GotBack(m.headers), CStr(m.body);
            var j := FirstSlot(got, LENGTH_NAME, 0);
            && p.line == m.line && p.headers == Padded(got)
            && (body == "" || j == |got| ==> p.ret == 0 && p.body == None)
            && (body != "" && j < |got| ==>
                  if SaysLength(got[j].value, |body|) then p.ret == 0 && p.body == Some(body) && p.bodyLength == |body|
                  else p.ret == -1 && p.body == None)
  {
    CutAtNul(m);
    LinesOfMessage(m);
    PrintedParts(TextLines(m.line, m.headers), CStr(m.body));
    RequestLineReadBack(m.line);
    PrintedTable(m);
    PaddedSlot(GotBack(m.headers));
  }

  /** All headers come back as they were exactly when every value is a single word. */
  lemma GotBackIff(headers: seq<Header>)
    requires PrintableHeaders(headers)
    ensures GotBack(headers) == headers <==> forall j :: 0 <= j < |headers| ==> IsWord(headers[j].value)
  {
    forall j | 0 <= j < |headers|
      ensures GotBack(headers)[j] == headers[j] <==> IsWord(headers[j].value)
    {
      assert PrintableHeader(headers[j]);
      FirstWordIsAll(headers[j].value);
    }
  }

  /** What the scans store of the fields has at most the size of the parser's fixed-size arrays. */
  predicate FieldsFit(m: Message) {
    && |m.line.verb| < 16 && |m.line.path| < 256 && |m.line.version| < 16
    && forall j :: 0 <= j < |m.headers| ==> |m.headers[j].key| < 256 && |FirstWord(m.headers[j].value)| < 256
  }

  lemma PrintedFits(m: Message)
    requires Printable(m)
    ensures Fits(CStr(Print(m))) <==> FieldsFit(m)
  {
    var lines := TextLines(m.line, m.headers);
    CutAtNul(m);
    LinesOfMessage(m);
    PrintedParts(lines, CStr(m.body));
    RequestLineReadBack(m.line);
    HeadersFit(m);
  }

  lemma HeadersFit(m: Message)
    requires Printable(m)
    ensures var lines := TextLines(m.line, m.headers);
            (forall i :: 1 <= i < |lines| ==> FitsHeaderLine(lines[i]))
            == forall j :: 0 <= j < |m.headers| ==> |m.headers[j].key| < 256 && |FirstWord(m.headers[j].value)| < 256
  {
    var lines := TextLines(m.line, m.headers);
    forall j | 0 <= j < |m.headers|
      ensures FitsHeaderLine(lines[1 + j]) <==> |m.headers[j].key| < 256 && |FirstWord(m.headers[j].value)| < 256
    {
      assert lines[1 + j] == HeaderText(m.headers[j]) && PrintableHeader(m.headers[j]);
      HeaderReads(m.headers[j]);
    }
    forall i | 1 <= i < |lines|
      ensures FitsHeaderLine(lines[i]) <==> FitsHeaderLine(lines[1 + (i - 1)])
    {
    }
  }

  lemma PrintedTable(m: Message)
    requires Printable(m)
    ensures Table(TextLines(m.line, m.headers)) == Padded(GotBack(m.headers))
  {
    var lines, got := TextLines(m.line, m.headers), GotBack(m.headers);
    forall j | 0 <= j < MAX_HEADERS
      ensures Slot(lines, j) == Padded(got)[j]
    {
      if j < |m.headers| {
        assert lines[1 + j] == HeaderText(m.headers[j]) && PrintableHeader(m.headers[j]);
        HeaderReads(m.headers[j]);
      }
    }
  }

  /** Empty slots are never found by name. */
  lemma PaddedSlot(headers: seq<Header>)
    requires |headers| <= MAX_HEADERS
    ensures var j := FirstSlot(headers, LENGTH_NAME, 0);
            FirstSlot(Padded(headers), LENGTH_NAME, 0) == if j < |headers| then j else MAX_HEADERS
    ensures forall j :: 0 <= j < |headers| ==> Padded(headers)[j] == headers[j]
  {
    var r, j := FirstSlot(Padded(headers), LENGTH_NAME, 0), FirstSlot(headers, LENGTH_NAME, 0);
    assert forall k :: |headers| <= k < MAX_HEADERS ==> Padded(headers)[k] == NO_HEADER;
    assert !IsNamed(NO_HEADER, LENGTH_NAME);
    if j < |headers| { assert IsNamed(Padded(headers)[j], LENGTH_NAME); }
    if r < |headers| { assert IsNamed(headers[r], LENGTH_NAME); }
  }

  // ---------- keep-alive ----------

  /** A printed header that the scan stores under a key that starts with connection, in any case. */
  predicate IsConnection(h: Header) { FirstWord(h.value) != "" && StartsWith(h.key, "connection") }

  /** The first such header says keep-alive. */
  ghost predicate SaysKeepAlive(headers: seq<Header>) {
    exists c :: FirstConnection(headers, c) && StartsWith(FirstWord(headers[c].value), "keep-alive")
  }

  predicate FirstConnection(headers: seq<Header>, c: int) {
    0 <= c < |headers| && IsConnection(headers[c]) && forall i :: 0 <= i < c ==> !IsConnection(headers[i])
  }

  /** A parsed request is kept alive exactly if the first Connection header that was printed says so. */
  lemma KeepsAliveIff(headers: seq<Header>)
    requires PrintableHeaders(headers)
    ensures KeepsAlive(Padded(GotBack(headers))) <==> SaysKeepAlive(headers)
  {
    var slots := Padded(GotBack(headers));
    forall i | 0 <= i < MAX_HEADERS
      ensures StartsWith(slots[i].key, "connection") == (i < |headers| && IsConnection(headers[i]))
      ensures i < |headers| && IsConnection(headers[i]) ==> slots[i].value == FirstWord(headers[i].value)
    {
      assert slots[i] == if i < |headers| then ReadBack(headers[i]) else NO_HEADER;
    }
    KeepsAliveMeans(slots);
    var f := FirstSlot(slots, "Connection", 0);
    if exists c :: FirstConnection(headers, c) {
      var c :| FirstConnection(headers, c);
      assert KeepsAlive(slots) == StartsWith(FirstWord(headers[c].value), "keep-alive");
    } else {
      NoFirst(headers);
    }
  }

  lemma {:induction false} NoFirst(headers: seq<Header>)
    requires !exists c :: FirstConnection(headers, c)
    ensures forall i :: 0 <= i < |headers| ==> !IsConnection(headers[i])
  {
    var i := 0;
    while i < |headers|
      invariant 0 <= i <= |headers| && forall k :: 0 <= k < i ==> !IsConnection(headers[k])
    {
      assert !FirstConnection(headers, i);
      i := i + 1;
    }
  }

  lemma ByFirst(headers: seq<Header>, c: nat)
    requires FirstConnection(headers, c)
    ensures SaysKeepAlive(headers) == StartsWith(FirstWord(headers[c].value), "keep-alive")
  {
  }

  lemma OneWord(value: string)
    requires IsWord(value)
    ensures FirstWord(value) == value
  {
    FirstWordIsAll(value);
  }

  /** The usual words: both spellings of keep-alive, and close, which has fewer letters. */
  lemma UsualWords(headers: seq<Header>, c: nat)
    requires FirstConnection(headers, c)
    ensures headers[c].value in {"keep-alive", "Keep-Alive"} ==> SaysKeepAlive(headers)
    ensures headers[c].value in {"close", "Close"} ==> !SaysKeepAlive(headers)
  {
    ByFirst(headers, c);
    OneWord("keep-alive");
    OneWord("Keep-Alive");
    OneWord("close");
    OneWord("Close");
  }
}
