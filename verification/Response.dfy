/**
 The three response-header printers of protocol/http/http.c, and reading a printed response back with
 the receiver's own helpers.
 */
module Response {
  import opened CStrings
  import opened Framing
  import opened Lines
  import opened HttpRequest
  import opened RoundTrip
  import opened Agreement

  /** "%d" */
  function IntText(i: int): string { if i < 0 then "-" + Decimal(-i) else Decimal(i) }

  /** The header lines that all three printers share; the status line and the type carry free text. */
  function HeaderLines(status: int, message: string, contentType: string, length: nat, connection: string)
    : seq<string>
  {
    [ "HTTP/1.1 " + IntText(status) + " " + message,
      "Server: minhServer",
      "Content-Type: " + contentType,
      HeaderText(Header("Content-Length", Decimal(length))),
      "Connection: " + connection ]
  }

  function HeaderBlock(status: int, message: string, contentType: string, length: nat, connection: string): string {
    Block(HeaderLines(status, message, contentType, length, connection)) + CRLF
  }

  function ConnectionWord(keepAlive: bool): string { if keepAlive then "keep-alive" else "close" }

  /** `sendErrorResponse`: the body is the message itself. */
  function ErrorHeader(status: int, message: string): string {
    HeaderBlock(status, message, "text/plain", |message|, "close")
  }

  /** `sendStaticFile` */
  function StaticFileHeader(contentType: string, length: nat, keepAlive: bool): string {
    HeaderBlock(200, "OK", contentType, length, ConnectionWord(keepAlive))
  }

  /** `sendHttpResponse` */
  function ResponseHeader(status: int, message: string, contentType: string, length: nat, keepAlive: bool): string {
    HeaderBlock(status, message, contentType, length, ConnectionWord(keepAlive))
  }

  // ---------- lines without the literal ----------

  /** A C string that stays on its line and does not spell the field name. */
  predicate Plain(s: string) {
    Free(s, '\r') && Free(s, '\n') && Free(s, '\0') && Find(s, CONTENT_LENGTH) == -1
  }

  lemma NoLiteralAfter(prefix: string, s: string)
    requires forall j :: 0 <= j < |prefix| ==> !At(prefix + s, CONTENT_LENGTH, j)
    requires Find(s, CONTENT_LENGTH) == -1
    ensures Find(prefix + s, CONTENT_LENGTH) == -1
  {
    FindShifts(prefix, s, CONTENT_LENGTH);
  }

  lemma NoLiteralAfterFree(prefix: string, s: string)
    requires Free(prefix, 'C') && Find(s, CONTENT_LENGTH) == -1
    ensures Find(prefix + s, CONTENT_LENGTH) == -1
  {
    forall j | 0 <= j < |prefix|
      ensures !At(prefix + s, CONTENT_LENGTH, j)
    {
      if At(prefix + s, CONTENT_LENGTH, j) {
        AtChar(prefix + s, CONTENT_LENGTH, j, 0);
        assert false;
      }
    }
    NoLiteralAfter(prefix, s);
  }

  lemma NoLiteralInType(contentType: string)
    requires Plain(contentType)
    ensures Find("Content-Type: " + contentType, CONTENT_LENGTH) == -1
  {
    var prefix, rest := "Content-", "Type: " + contentType;
    NoLiteralAfterFree("Type: ", contentType);
    var line := prefix + rest;
    assert line == "Content-Type: " + contentType;
    assert line[8] == 'T';
    forall j | 0 <= j < |prefix|
      ensures !At(line, CONTENT_LENGTH, j)
    {
      if At(line, CONTENT_LENGTH, j) {
        AtChar(line, CONTENT_LENGTH, j, 0);
        AtChar(line, CONTENT_LENGTH, j, 8);
        assert false;
      }
    }
    NoLiteralAfter(prefix, rest);
  }

  lemma NumbersFree(i: int, c: char)
    requires !IsDigit(c) && c != '-'
    ensures Free(IntText(i), c)
  {
  }

  lemma StatusPrefix(status: int)
    ensures var prefix := "HTTP/1.1 " + IntText(status) + " ";
            Free(prefix, 'C') && Free(prefix, '\r') && Free(prefix, '\0')
  {
    NumbersFree(status, 'C');
    NumbersFree(status, '\r');
    NumbersFree(status, '\0');
  }

  // ---------- reading back ----------

  /** A line that comes before the length and does not spell its name. */
  predicate Before(line: string) { IsLine(line) && Find(line, CONTENT_LENGTH) == -1 }

  lemma StatusLine(status: int, message: string)
    requires Plain(message)
    ensures Before("HTTP/1.1 " + IntText(status) + " " + message)
  {
    StatusPrefix(status);
    NoLiteralAfterFree("HTTP/1.1 " + IntText(status) + " ", message);
    FreeConcat("HTTP/1.1 " + IntText(status) + " ", message, '\r');
  }

  lemma TypeLine(contentType: string)
    requires Plain(contentType)
    ensures Before("Content-Type: " + contentType)
  {
    NoLiteralInType(contentType);
    FreeConcat("Content-Type: ", contentType, '\r');
  }

  lemma ServerLine()
    ensures Before("Server: minhServer")
  {
    var line := "Server: minhServer";
    assert Free(line, 'C') && Free(line, '\r') && |line| == 18;
    FindNoC(line);
  }

  lemma LengthLineIsLine(length: nat)
    ensures IsLine(HeaderText(Header("Content-Length", Decimal(length))))
  {
    LengthLine(length);
    FreeConcat(CONTENT_LENGTH + " ", Decimal(length), '\r');
  }

  lemma ConnectionLine(connection: string)
    requires Free(connection, '\r')
    ensures IsLine("Connection: " + connection)
  {
    FreeConcat("Connection: ", connection, '\r');
  }

  lemma HeaderLinesAre(status: int, message: string, contentType: string, length: nat, connection: string)
    requires Plain(message) && Plain(contentType) && Free(connection, '\r')
    ensures var lines := HeaderLines(status, message, contentType, length, connection);
            AllLines(lines) && forall i :: 0 <= i < 3 ==> Find(lines[i], CONTENT_LENGTH) == -1
  {
    StatusLine(status, message);
    ServerLine();
    TypeLine(contentType);
    LengthLineIsLine(length);
    ConnectionLine(connection);
    Five("HTTP/1.1 " + IntText(status) + " " + message, "Server: minhServer", "Content-Type: " + contentType,
         HeaderText(Header("Content-Length", Decimal(length))), "Connection: " + connection);
  }

  lemma Five(a: string, b: string, c: string, d: string, e: string)
    requires Before(a) && Before(b) && Before(c) && IsLine(d) && IsLine(e)
    ensures AllLines([a, b, c, d, e]) && forall i :: 0 <= i < 3 ==> Find([a, b, c, d, e][i], CONTENT_LENGTH) == -1
  {
  }

  lemma FindNoC(s: string)
    requires Free(s, 'C')
    ensures Find(s, CONTENT_LENGTH) == -1
  {
    assert s + "" == s;
    NoLiteralAfterFree(s, "");
  }

  /** With any body appended: the blank line is found at the end of the header, and the length in it. */
  predicate ReadsBack(header: string, body: string, length: nat) {
    HeaderEnd(header + body) == |header| && ContentLength((header + body)[..|header|]) == length
  }

  lemma HeaderReadsBack(status: int, message: string, contentType: string, length: nat, connection: string,
                        body: string)
    requires Plain(message) && Plain(contentType) && Free(connection, '\r') && Free(connection, '\0')
    ensures ReadsBack(HeaderBlock(status, message, contentType, length, connection), body, length)
  {
    var lines := HeaderLines(status, message, contentType, length, connection);
    var header := Block(lines) + CRLF;
    HeaderLinesAre(status, message, contentType, length, connection);
    BlankLineAfterBlock(lines, body);
    assert (header + body)[..|header|] == header;
    HeaderIsText(status, message, contentType, length, connection);
    CStrOfClean(header);
    NotInFirstIf(lines, CONTENT_LENGTH, 3);
    BlockItself(header, lines);
    LengthInLines(header, lines, 3, length);
  }

  lemma HeaderIsText(status: int, message: string, contentType: string, length: nat, connection: string)
    requires Plain(message) && Plain(contentType) && Free(connection, '\0')
    ensures Free(HeaderBlock(status, message, contentType, length, connection), '\0')
  {
    var lines := HeaderLines(status, message, contentType, length, connection);
    StatusPrefix(status);
    assert forall i :: 0 <= i < |lines| ==> Free(lines[i], '\0');
    BlockFree(lines, '\0');
  }

  lemma ResponseReadsBack(status: int, message: string, contentType: string, length: nat, keepAlive: bool, body: string)
    requires Plain(message) && Plain(contentType)
    ensures ReadsBack(ResponseHeader(status, message, contentType, length, keepAlive), body, length)
  {
    HeaderReadsBack(status, message, contentType, length, ConnectionWord(keepAlive), body);
  }

  lemma StaticFileReadsBack(contentType: string, length: nat, keepAlive: bool, body: string)
    requires Plain(contentType)
    ensures ReadsBack(StaticFileHeader(contentType, length, keepAlive), body, length)
  {
    FindNoC("OK");
    HeaderReadsBack(200, "OK", contentType, length, ConnectionWord(keepAlive), body);
  }

  lemma ErrorReadsBack(status: int, message: string)
    requires Plain(message)
    ensures ReadsBack(ErrorHeader(status, message), message, |message|)
  {
    FindNoC("text/plain");
    HeaderReadsBack(status, message, "text/plain", |message|, "close", message);
  }

  lemma LinesOfHeader(status: int, message: string, contentType: string, length: nat, connection: string, body: string)
    requires Plain(message) && Plain(contentType) && Free(connection, '\r')
    ensures LinesToBlank(HeaderBlock(status, message, contentType, length, connection) + body, 0)
         == HeaderLines(status, message, contentType, length, connection)
  {
    var lines := HeaderLines(status, message, contentType, length, connection);
    HeaderLinesAre(status, message, contentType, length, connection);
    PrintedParts(lines, body);
  }

  lemma ConnectionReads(connection: string)
    requires IsWord(connection)
    ensures ReadHeader("Connection: " + connection) == Header("Connection", connection)
  {
    HeaderReadBackIff(Header("Connection", connection));
    assert "Connection: " + connection == HeaderText(Header("Connection", connection));
  }

  lemma LengthReads(length: nat)
    ensures var h := Header("Content-Length", Decimal(length)); ReadHeader(HeaderText(h)) == h
  {
    HeaderReadBackIff(Header("Content-Length", Decimal(length)));
  }

  /** What a client reads off the lines of a response: the status, the length, whether the connection stays open. */
  predicate Says(lines: seq<string>, status: nat, length: nat, keepAlive: bool) {
    && |lines| == 5 && |lines[0]| > 9 && lines[0][..9] == "HTTP/1.1 " && NumberAt(lines[0], 9) == status
    && ReadHeader(lines[3]) == Header("Content-Length", Decimal(length))
    && ReadHeader(lines[4]) == Header("Connection", if keepAlive then "keep-alive" else "close")
  }

  lemma FiveSay(first: string, server: string, type_: string, length: string, connection: string,
                status: nat, n: nat, keepAlive: bool)
    requires |first| > 9 && first[..9] == "HTTP/1.1 " && NumberAt(first, 9) == status
    requires ReadHeader(length) == Header("Content-Length", Decimal(n))
    requires ReadHeader(connection) == Header("Connection", if keepAlive then "keep-alive" else "close")
    ensures Says([first, server, type_, length, connection], status, n, keepAlive) == true
  {
  }

  lemma HeaderSays(status: nat, message: string, contentType: string, length: nat, keepAlive: bool)
    ensures Says(HeaderLines(status, message, contentType, length, ConnectionWord(keepAlive)),
                 status, length, keepAlive) == true
  {
    StatusReads(status, message);
    LengthReads(length);
    ConnectionReads(ConnectionWord(keepAlive));
    FiveSay("HTTP/1.1 " + IntText(status) + " " + message, "Server: minhServer", "Content-Type: " + contentType,
            HeaderText(Header("Content-Length", Decimal(length))), "Connection: " + ConnectionWord(keepAlive),
            status, length, keepAlive);
  }

  lemma ResponseSays(status: nat, message: string, contentType: string, length: nat, keepAlive: bool, body: string)
    requires Plain(message) && Plain(contentType)
    ensures Says(LinesToBlank(ResponseHeader(status, message, contentType, length, keepAlive) + body, 0),
                 status, length, keepAlive) == true
  {
    LinesOfHeader(status, message, contentType, length, ConnectionWord(keepAlive), body);
    HeaderSays(status, message, contentType, length, keepAlive);
  }

  /** The same for a file, and for an error, after which the connection is closed. */
  lemma StaticFileSays(contentType: string, length: nat, keepAlive: bool, body: string)
    requires Plain(contentType)
    ensures Says(LinesToBlank(StaticFileHeader(contentType, length, keepAlive) + body, 0),
                 200, length, keepAlive) == true
  {
    FindNoC("OK");
    ResponseSays(200, "OK", contentType, length, keepAlive, body);
  }

  lemma ErrorSays(status: nat, message: string)
    requires Plain(message)
    ensures Says(LinesToBlank(ErrorHeader(status, message) + message, 0), status, |message|, false) == true
  {
    TextPlain();
    ErrorIsResponse(status, message, "text/plain");
    ResponseSays(status, message, "text/plain", |message|, false, message);
  }

  lemma TextPlain()
    ensures Plain("text/plain")
  {
    FindNoC("text/plain");
  }

  lemma ErrorIsResponse(status: int, message: string, contentType: string)
    requires contentType == "text/plain"
    ensures ErrorHeader(status, message) == ResponseHeader(status, message, contentType, |message|, false)
  {
  }

  lemma StatusReads(status: nat, message: string)
    ensures var line := "HTTP/1.1 " + IntText(status) + " " + message;
            |line| > 9 && line[..9] == "HTTP/1.1 " && NumberAt(line, 9) == status
  {
    var line, d := "HTTP/1.1 " + IntText(status) + " " + message, Decimal(status);
    assert line[9..9 + |d|] == d && line[9 + |d|] == ' ';
    NumberAtIs(line, 9, 9, status);
  }

  /** While a printed length is read, the accumulator never exceeds it: up to INT_MAX no `int` overflows. */
  lemma ReadingStaysInRange(text: string, i: nat, length: nat, k: nat)
    requires i <= |text| && NumberAt(text, i) == length <= INT_MAX
    requires SpaceEnd(text, i) <= k <= DigitEnd(text, SpaceEnd(text, i))
    ensures 0 <= Value(text, SpaceEnd(text, i), k) <= length <= INT_MAX
  {
    DigitsUpTo(text, SpaceEnd(text, i));
    ValueMonotone(text, SpaceEnd(text, i), k, DigitEnd(text, SpaceEnd(text, i)));
  }

  lemma DigitsUpTo(text: string, a: nat)
    requires a <= |text|
    ensures forall j :: a <= j < DigitEnd(text, a) ==> IsDigit(text[j])
    decreases |text| - a
  {
    if a < |text| && IsDigit(text[a]) { DigitsUpTo(text, a + 1); }
  }
}
