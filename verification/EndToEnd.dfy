/**
 From the wire to the parsed request: printed requests with a Content-Length or a chunked body, cut by the
 kernel in any way, are received as exactly their text, and that text parses back.
 */
module EndToEnd {
  import opened CStrings
  import opened Framing
  import opened Lines
  import opened HttpRequest
  import opened RoundTrip
  import opened Receive
  import opened Agreement
  import Chunked
  import Kernel
  import Segmentation

  // ---------- Content-Length ----------

  /** A method that the receiver expects a body after. */
  predicate ExpectsBody(verb: string) {
    !CaseEq(verb, "GET") && !CaseEq(verb, "HEAD") && !CaseEq(verb, "DELETE") && !CaseEq(verb, "OPTIONS")
  }

  /**
   End to end: however a POST-like request is cut on the way, exactly its bytes are received; parsing their
   C string gives back the request, with its body if and only if that holds no '\0'.
   */
  lemma EndToEnd(m: Message, c: nat, n: nat, schedule: nat -> Arrival, k: nat)
    requires OneLength(m.line, m.headers, c, n) && |m.body| == n && 0 < n
    requires ExpectsBody(m.line.verb) && |Print(m)| <= LIMIT + 1
    requires forall i :: k <= i ==> schedule(i).Bytes?
    ensures Outcome(Print(m), schedule, k, 0) == Accepted(|Print(m)|)
    ensures ParsedAs(Parse(CStr(Print(m))), m, n)
    ensures Parse(CStr(Print(m))).body == Some(m.body) <==> Free(m.body, '\0')
  {
    CompleteAtTheEnd(m, c, n);
    Segmentation.ExactRequest(Print(m), schedule, k);
    ParserReads(m, c, n);
  }

  /** A request of more than 10 MiB that is accepted all the same: a POST that announces its 12,000,000 bytes. */
  lemma LimitPassed() returns (m: Message, schedule: nat -> Arrival)
    ensures |Print(m)| > LIMIT && Outcome(Print(m), schedule, 0, 0).Accepted?
  {
    var n := 12_000_000;
    var line, h := RequestLine("POST", "/", "HTTP/1.1"), Header("Content-Length", Decimal(n));
    m := Message(line, [h], seq(n, _ => 'x'));
    OneLengthAlone(line, n);
    CompleteAtTheEnd(m, 0, n);
    DecimalLength(n, 8);
    PrintedLength(m);
    Segmentation.AcceptableIff(Print(m), 0);
    schedule :| Outcome(Print(m), schedule, 0, 0).Accepted?;
  }

  lemma OneLengthAlone(line: RequestLine, n: nat)
    requires line == RequestLine("POST", "/", "HTTP/1.1") && n <= INT_MAX
    ensures OneLength(line, [Header("Content-Length", Decimal(n))], 0, n) && ExpectsBody(line.verb)
  {
    var text := LineText(line);
    assert text == "POST / HTTP/1.1";
    if Find(text, CONTENT_LENGTH) != -1 {
      Found(text, CONTENT_LENGTH, 0);
      AtChar(text, CONTENT_LENGTH, Find(text, CONTENT_LENGTH), 0);
      assert false;
    }
    LengthPrintable(n);
  }

  lemma PrintedLength(m: Message)
    requires m.line == RequestLine("POST", "/", "HTTP/1.1") && |m.headers| == 1
    ensures |Print(m)| == 15 + 2 + |HeaderText(m.headers[0])| + 2 + 2 + |m.body|
  {
    var lines := TextLines(m.line, m.headers);
    assert |lines| == 2 && |lines[0]| == 15 && lines[1] == HeaderText(m.headers[0]);
    BlockUnfolds(lines);
    BlockUnfolds(lines[1..]);
    EmptyBlock(lines[1..][1..]);
  }

  lemma CompleteAtTheEnd(m: Message, c: nat, n: nat)
    requires OneLength(m.line, m.headers, c, n) && |m.body| == n && 0 < n
    requires ExpectsBody(m.line.verb)
    ensures LeastLength(Print(m)) == Some(|Print(m)|)
  {
    ReceiverReads(m, c, n);
    BodilessIff(m);
    HeadStandsAlone(m);
    WithBody(HeadOf(m), m.body);
    assert Print(m) == HeadOf(m) + m.body;
  }

  lemma HeadStandsAlone(m: Message)
    requires Printable(m)
    ensures HeaderEnd(HeadOf(m)) == |HeadOf(m)|
  {
    LinesOfMessage(m);
    BlankLineAfterBlock(TextLines(m.line, m.headers), "");
    assert HeadOf(m) + "" == HeadOf(m);
  }

  /** The receiver sees the method that was printed. */
  lemma BodilessIff(m: Message)
    requires Printable(m)
    ensures IsBodiless(HeadOf(m)) <==> !ExpectsBody(m.line.verb)
  {
    var head, verb := HeadOf(m), m.line.verb;
    CutAtNul(m);
    CStrOfClean(head);
    LineLayout(m.line);
    var text := LineText(m.line);
    assert head == text + (CRLF + Block(TextLines(m.line, m.headers)[1..]) + CRLF);
    assert forall k :: 0 <= k < |text| ==> head[k] == text[k];
    VerbInHead(head, text, verb);
    BodilessByWord(head, verb);
  }

  lemma VerbInHead(head: string, text: string, verb: string)
    requires |text| <= |head| && forall k :: 0 <= k < |text| ==> head[k] == text[k]
    requires IsWord(verb) && At(text, verb, 0) && At(text, " ", |verb|)
    ensures Find(head, " ") == |verb| && head[..|verb|] == verb
  {
    forall k | 0 <= k < |verb|
      ensures head[k] == verb[k] && head[k] != ' '
    {
      AtChar(text, verb, 0, k);
      assert !IsSpace(verb[k]);
    }
    AtChar(text, " ", |verb|, 0);
    FindChar(head, ' ', |verb|);
  }

  lemma BodilessByWord(head: string, verb: string)
    requires CStr(head) == head && Find(head, " ") == |verb| && head[..|verb|] == verb
    ensures IsBodiless(head) <==> !ExpectsBody(verb)
  {
    FirstWordAt(head, "GET");
    FirstWordAt(head, "HEAD");
    FirstWordAt(head, "DELETE");
    FirstWordAt(head, "OPTIONS");
  }

  /** The same through the two procedures themselves, as the connection loop calls them. */
  method ReceiveAndParse(m: Message, c: nat, n: nat, kernel: Kernel.Descriptors, wire: Wire, request: Request)
    returns (ret: int)
    requires OneLength(m.line, m.headers, c, n) && |m.body| == n && 0 < n
    requires FieldsFit(m) && ExpectsBody(m.line.verb) && |Print(m)| <= LIMIT + 1
    requires wire.conn in kernel.open && wire.delivered == 0 && wire.stream == Print(m)
    requires forall i :: wire.recvs <= i ==> wire.schedule(i).Bytes?
    requires request.Blank()
    modifies wire, request, request.h
    ensures request.line == m.line && request.h[..] == Padded(GotBack(m.headers))
    ensures Free(m.body, '\0') ==> ret == 0 && request.body == Some(m.body) && request.bodyLength == n
    ensures !Free(m.body, '\0') ==> request.body == None && ret == if m.body[0] == '\0' then 0 else -1
  {
    ghost var text := Print(m);
    EndToEnd(m, c, n, wire.schedule, wire.recvs);
    PrintedFits(m);
    assert wire.stream[0..] == text;
    var req, verdict, _ := RecvRequest(kernel, wire);
    assert text[..|text|] == text;
    TextOf(req, text);
    ret := ParseHttpRequest(CStr(req[..]), request);
  }

  /** A printed request is parsed and looked at for keep-alive: its first Connection header decides. */
  method ParseAndDecide(m: Message, request: Request) returns (ret: int)
    requires Printable(m) && FieldsFit(m) && request.Blank()
    modifies request, request.h
    ensures ret == if SaysKeepAlive(m.headers) then 0 else -1
  {
    PrintedFits(m);
    CutAtNul(m);
    ParsePrinted(m);
    KeepsAliveIff(m.headers);
    var _ := ParseHttpRequest(CStr(Print(m)), request);
    ret := ShouldCloseConnection(request);
  }

  lemma TextOf(req: array<char>, text: string)
    requires Holds(req, text)
    ensures CStr(req[..]) == CStr(text) && Free(CStr(text), '\0')
  {
    assert req[..] == text + ['\0'] + req[|text| + 1..];
    CStrStops(text, req[|text| + 1..]);
  }

  // ---------- chunked ----------

  /** `Transfer-Encoding: chunked` at c, not spelled out before, and no Content-Length spelled out at all. */
  ghost predicate OneChunked(line: RequestLine, headers: seq<Header>, c: nat) {
    && PrintableLine(line) && PrintableHeaders(headers)
    && c < |headers| && headers[c] == Header("Transfer-Encoding", "chunked")
    && NotInFirst(TextLines(line, headers), TRANSFER_ENCODING, 1 + c)
    && NotInFirst(TextLines(line, headers), CONTENT_LENGTH, |TextLines(line, headers)|)
  }

  lemma {:induction false} NotInBlock(text: string, p: nat, lines: seq<string>, needle: string)
    requires BlockAt(text, p, lines) && |text| == p + BlockSize(lines) + 2
    requires |needle| > 2 && Free(needle, '\r') && Free(needle, '\n')
    requires NotInFirst(lines, needle, |lines|)
    ensures FindFrom(text, needle, p) == -1
    decreases lines
  {
    if lines != [] {
      var next := NotFoundInFirst(text, p, lines, needle);
      NotInBlock(text, next, lines[1..], needle);
    }
  }

  lemma CodingLine(line: string, value: string)
    requires line == HeaderText(Header("Transfer-Encoding", value))
    ensures At(line, TRANSFER_ENCODING, 0) && |line| == |TRANSFER_ENCODING| + 1 + |value|
    ensures At(line, " ", |TRANSFER_ENCODING|) && At(line, value, |TRANSFER_ENCODING| + 1)
  {
    assert line == TRANSFER_ENCODING + " " + value;
    AtSelf(line);
    Split3(line, TRANSFER_ENCODING, " ", value, 0);
  }

  lemma CodingOnLine(text: string, r: nat, line: string, value: string)
    requires line == HeaderText(Header("Transfer-Encoding", value))
    requires At(text, line, r)
    ensures var i := r + |TRANSFER_ENCODING|;
            At(text, " ", i) && At(text, value, i + 1) && |line| == |TRANSFER_ENCODING| + 1 + |value|
  {
    CodingLine(line, value);
    AtWithin(text, r, line, " ", |TRANSFER_ENCODING|);
    AtWithin(text, r, line, value, |TRANSFER_ENCODING| + 1);
  }

  /** A word that ends its line is compared with the name of the chunked coding. */
  lemma WordIsChunked(text: string, j: nat, value: string)
    requires At(text, value, j) && At(text, CRLF, j + |value|)
    ensures NCaseEq(text[j..], CHUNKED, |CHUNKED|) == StartsWith(value, "chunked")
  {
    StartsWithIs(text[j..], CHUNKED, "chunked");
    forall k | 0 <= k < |value|
      ensures text[j..][k] == value[k]
    {
      AtChar(text, value, j, k);
    }
    AtChar(text, CRLF, j + |value|, 0);
    assert text[j..][|value|] == '\r';
  }

  lemma CodingRead(text: string, i: nat, value: string)
    requires At(text, " ", i) && At(text, value, i + 1) && At(text, CRLF, i + 1 + |value|) && IsWord(value)
    ensures NCaseEq(text[SpaceEnd(text, i)..], CHUNKED, |CHUNKED|) == StartsWith(value, "chunked")
  {
    AtChar(text, " ", i, 0);
    AtChar(text, value, i + 1, 0);
    SpaceEndIs(text, i, i + 1);
    WordIsChunked(text, i + 1, value);
  }

  lemma CodingPlace(head: string, lines: seq<string>, c: nat, value: string) returns (i: nat)
    requires BlockAt(head, 0, lines) && c < |lines| && NotInFirst(lines, TRANSFER_ENCODING, c)
    requires lines[c] == HeaderText(Header("Transfer-Encoding", value))
    ensures Find(head, TRANSFER_ENCODING) != -1 && i == Find(head, TRANSFER_ENCODING) + |TRANSFER_ENCODING|
    ensures At(head, " ", i) && At(head, value, i + 1) && At(head, CRLF, i + 1 + |value|)
  {
    CodingLine(lines[c], value);
    FindInBlock(head, 0, lines, TRANSFER_ENCODING, c, lines[c]);
    CodingOnLine(head, Find(head, TRANSFER_ENCODING), lines[c], value);
    i := Find(head, TRANSFER_ENCODING) + |TRANSFER_ENCODING|;
  }

  lemma HeaderSaysCoding(head: string, lines: seq<string>, c: nat, value: string)
    requires BlockAt(head, 0, lines) && c < |lines| && NotInFirst(lines, TRANSFER_ENCODING, c) && IsWord(value)
    requires lines[c] == HeaderText(Header("Transfer-Encoding", value)) && Free(head, '\0')
    ensures IsChunked(head) == StartsWith(value, "chunked")
  {
    CStrOfClean(head);
    var i := CodingPlace(head, lines, c, value);
    CodingRead(head, i, value);
  }

  /** The first Transfer-Encoding header decides: chunked exactly if its value starts so, in any case. */
  lemma CodingDecides(m: Message, c: nat)
    requires Printable(m) && c < |m.headers| && NotInFirst(TextLines(m.line, m.headers), TRANSFER_ENCODING, 1 + c)
    requires m.headers[c].key == "Transfer-Encoding" && IsWord(m.headers[c].value)
    ensures IsChunked(HeadOf(m)) <==> StartsWith(m.headers[c].value, "chunked")
  {
    var lines := TextLines(m.line, m.headers);
    LinesOfMessage(m);
    CutAtNul(m);
    BlockItself(HeadOf(m), lines);
    assert lines[1 + c] == HeaderText(Header("Transfer-Encoding", m.headers[c].value));
    HeaderSaysCoding(HeadOf(m), lines, 1 + c, m.headers[c].value);
  }

  /** Other codings are not chunked, nor is a word that chunked only starts or ends with. */
  lemma OtherCodings(value: string)
    ensures value in {"gzip", "identity", "chunk", "x-chunked"} ==> !StartsWith(value, "chunked")
    ensures value in {"chunked", "Chunked"} ==> StartsWith(value, "chunked")
  {
    assert "chunked"[0] == 'c' && "identity"[0] == 'i' && "x-chunked"[0] == 'x';
  }

  /** A POST-like request that spells out neither field is complete with the first byte of its body. */
  lemma OneByteIsEnough(m: Message)
    requires Printable(m) && ExpectsBody(m.line.verb)
    requires NotInFirst(TextLines(m.line, m.headers), TRANSFER_ENCODING, |TextLines(m.line, m.headers)|)
    requires NotInFirst(TextLines(m.line, m.headers), CONTENT_LENGTH, |TextLines(m.line, m.headers)|)
    ensures LeastLength(Print(m)) == if m.body == "" then None else Some(|HeadOf(m)| + 1)
  {
    var lines, head := TextLines(m.line, m.headers), HeadOf(m);
    LinesOfMessage(m);
    CutAtNul(m);
    CStrOfClean(head);
    BlockItself(head, lines);
    FieldNameOnOneLine();
    NotInBlock(head, 0, lines, CONTENT_LENGTH);
    NotInBlock(head, 0, lines, TRANSFER_ENCODING);
    BodilessIff(m);
    HeadStandsAlone(m);
    WithBody(head, m.body);
    assert Print(m) == head + m.body;
  }

  /** A header with nothing behind it is a whole request for these methods and for no others. */
  lemma BodilessMethods(m: Message)
    requires Printable(m) && m.body == ""
    ensures m.line.verb in {"GET", "HEAD", "DELETE", "OPTIONS", "get"} ==> Complete(Print(m))
    ensures m.line.verb in {"POST", "PUT", "PATCH", "GETS"} ==> !Complete(Print(m))
  {
    BodilessIff(m);
    HeadStandsAlone(m);
    HeaderAloneCompleteIff(HeadOf(m));
    assert Print(m) == HeadOf(m);
    VerbsExpecting(m.line.verb);
  }

  lemma VerbsExpecting(verb: string)
    ensures verb in {"GET", "HEAD", "DELETE", "OPTIONS", "get"} ==> !ExpectsBody(verb)
    ensures verb in {"POST", "PUT", "PATCH", "GETS"} ==> ExpectsBody(verb)
  {
    if verb == "POST" || verb == "GETS" { assert LowerChar(verb[0]) != LowerChar("HEAD"[0]); }
  }

  lemma HeadersSayChunked(head: string, lines: seq<string>, c: nat)
    requires BlockAt(head, 0, lines) && |head| == BlockSize(lines) + 2 && c < |lines| && Free(head, '\0')
    requires NotInFirst(lines, TRANSFER_ENCODING, c) && NotInFirst(lines, CONTENT_LENGTH, |lines|)
    requires lines[c] == HeaderText(Header("Transfer-Encoding", "chunked"))
    ensures ContentLength(head) == -1 && IsChunked(head)
  {
    CStrOfClean(head);
    FieldNameOnOneLine();
    NotInBlock(head, 0, lines, CONTENT_LENGTH);
    HeaderSaysCoding(head, lines, c, "chunked");
  }

  lemma HeadIsChunked(m: Message, c: nat)
    requires OneChunked(m.line, m.headers, c) && ExpectsBody(m.line.verb)
    ensures Chunked.ChunkedHeader(HeadOf(m))
  {
    HeadStandsAlone(m);
    BodilessIff(m);
    LinesOfMessage(m);
    CutAtNul(m);
    HeaderLineAt(m.line, m.headers, c);
    BlockItself(HeadOf(m), TextLines(m.line, m.headers));
    HeadersSayChunked(HeadOf(m), TextLines(m.line, m.headers), 1 + c);
  }

  /** A chunked request with CR-free chunks is received as exactly its text, however it is cut. */
  lemma ChunkedEndToEnd(m: Message, c: nat, chunks: seq<Chunked.Chunk>, schedule: nat -> Arrival, k: nat)
    requires OneChunked(m.line, m.headers, c) && ExpectsBody(m.line.verb)
    requires forall chunk :: chunk in chunks ==> Chunked.WellFormed(chunk) && Free(chunk.data, '\r')
    requires m.body == Chunked.Encode(chunks) && |Print(m)| <= LIMIT + 1
    requires forall i :: k <= i ==> schedule(i).Bytes?
    ensures Outcome(Print(m), schedule, k, 0) == Accepted(|Print(m)|)
  {
    HeadIsChunked(m, c);
    Chunked.ChunkedRequestReceived(HeadOf(m), chunks, schedule, k);
    assert Print(m) == HeadOf(m) + m.body;
  }
}
