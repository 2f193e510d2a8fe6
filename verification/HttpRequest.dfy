/**
 `parseHttpRequest` and `shouldCloseConnection` of protocol/http/http.c.  The parser fills a zeroed
 request structure in place; here it is proved against `Parse`, and `Parse` against a printer.
 */
module HttpRequest {
  import opened CStrings
  import opened Framing
  import opened Lines

  const MAX_HEADERS := 20

  datatype Header = Header(key: string, value: string)
  const NO_HEADER := Header("", "")

  datatype RequestLine = RequestLine(verb: string, path: string, version: string)
  const NO_LINE := RequestLine("", "", "")

  // ---------- what the two sscanf formats read ----------

  /** "%s %s %s": three words, or nothing. */
  function ReadRequestLine(line: string): RequestLine {
    var a := SpaceEnd(line, 0);
    var b := WordEnd(line, a);
    var c := SpaceEnd(line, b);
    var d := WordEnd(line, c);
    var e := SpaceEnd(line, d);
    var f := WordEnd(line, e);
    if a < b && c < d && e < f then RequestLine(line[a..b], line[c..d], line[e..f]) else NO_LINE
  }

  /** "%[^:]: %s": a non-empty key up to the first colon and the first word after it, or nothing. */
  function ReadHeader(line: string): Header {
    var colon := Find(line, ":");
    if colon <= 0 then NO_HEADER
    else
      var a := SpaceEnd(line, colon + 1);
      var b := WordEnd(line, a);
      if a < b then Header(line[..colon], line[a..b]) else NO_HEADER
  }

  // ---------- strtol ----------

  const LONG_MAX: int := 0x7fff_ffff_ffff_ffff
  const TWO_TO_64: int := 0x1_0000_0000_0000_0000

  function Clamp(v: int): int {
    if v > LONG_MAX then LONG_MAX else if v < -LONG_MAX - 1 then -LONG_MAX - 1 else v
  }

  /** `strtol(s, &end, 10)`: the value and how much was read; nothing is read without a digit. */
  function ReadLong(s: string): (int, nat) {
    var a := SpaceEnd(s, 0);
    var signed := a < |s| && (s[a] == '-' || s[a] == '+');
    var d := if signed then a + 1 else a;
    var e := DigitEnd(s, d);
    if d == e then (0, 0)
    else if signed && s[a] == '-' then (Clamp(-Value(s, d, e)), e)
    else (Clamp(Value(s, d, e)), e)
  }

  /** The whole value is a number and, as an `unsigned long`, it is n. */
  predicate SaysLength(value: string, n: nat) {
    ReadLong(value).1 == |value| && ReadLong(value).0 % TWO_TO_64 == n
  }

  lemma DecimalSaysLength(n: nat)
    requires n <= LONG_MAX
    ensures SaysLength(Decimal(n), n)
  {
    var s := Decimal(n);
    DecimalValue(n);
    assert IsDigit(s[0]);
    SpaceEndIs(s, 0, 0);
    DigitEndIs(s, 0, |s|);
  }

  /** Digits say the number they spell and no other; a value that does not end with a digit says no length. */
  lemma LengthSaid(value: string, n: nat)
    requires value != ""
    ensures AllDigits(value) && Value(value, 0, |value|) <= LONG_MAX ==>
      (SaysLength(value, n) <==> Value(value, 0, |value|) == n)
    ensures !IsDigit(value[|value| - 1]) ==> !SaysLength(value, n)
  {
    if AllDigits(value) {
      SpaceEndIs(value, 0, 0);
      DigitEndIs(value, 0, |value|);
      ValueMonotone(value, 0, 0, |value|);
    }
    var a := SpaceEnd(value, 0);
    var d := if a < |value| && (value[a] == '-' || value[a] == '+') then a + 1 else a;
    LastRead(value, d);
  }

  lemma LastRead(s: string, i: nat)
    requires i <= |s|
    ensures i < DigitEnd(s, i) ==> IsDigit(s[DigitEnd(s, i) - 1])
    decreases |s| - i
  {
    if i < |s| && IsDigit(s[i]) { LastRead(s, i + 1); }
  }

  // ---------- the whole parse ----------

  datatype Parsed = Parsed(ret: int, line: RequestLine, headers: seq<Header>, body: Option<string>, bodyLength: nat)

  /** `strncasecmp(h.key, name, strlen(name)) == 0`: the key starts with the name, in any case. */
  predicate IsNamed(h: Header, name: string) { NCaseEq(h.key, name, |name|) }

  /** Index of the first slot at or after j with that name, |headers| if there is none. */
  function FirstSlot(headers: seq<Header>, name: string, j: nat): (r: nat)
    requires j <= |headers|
    ensures j <= r <= |headers|
    ensures r < |headers| ==> IsNamed(headers[r], name)
    ensures forall i :: j <= i < r ==> !IsNamed(headers[i], name)
    decreases |headers| - j
  {
    if j == |headers| || IsNamed(headers[j], name) then j else FirstSlot(headers, name, j + 1)
  }

  const LENGTH_NAME: string := "Content-Length"

  function Slot(lines: seq<string>, j: nat): Header {
    if 1 + j < |lines| then ReadHeader(lines[1 + j]) else NO_HEADER
  }

  /** The 20 header slots: one per line after the first, empty where a line did not scan or is missing. */
  function Table(lines: seq<string>): (t: seq<Header>)
    ensures |t| == MAX_HEADERS
  {
    seq(MAX_HEADERS, j requires 0 <= j => Slot(lines, j))
  }

  function LinesOf(request: string): seq<string>
    requires Find(request, HEADER_END) != -1
  {
    LinesBefore(request, 0, Find(request, HEADER_END))
  }

  function BodyOf(request: string): string
    requires Find(request, HEADER_END) != -1
  {
    request[Find(request, HEADER_END) + 4..]
  }

  function FirstLine(lines: seq<string>): RequestLine {
    if lines == [] then NO_LINE else ReadRequestLine(lines[0])
  }

  /** What the lines alone leave in the structure. */
  function Stored(lines: seq<string>): Parsed { Parsed(0, FirstLine(lines), Table(lines), None, 0) }

  function Parse(request: string): Parsed {
    if Find(request, HEADER_END) == -1 then Parsed(-1, NO_LINE, Table([]), None, 0)
    else
      var lines, body := LinesOf(request), BodyOf(request);
      var line, headers := FirstLine(lines), Table(lines);
      var j := FirstSlot(headers, LENGTH_NAME, 0);
      if body == "" || j == MAX_HEADERS then Parsed(0, line, headers, None, 0)
      else if SaysLength(headers[j].value, |body|) then Parsed(0, line, headers, Some(body), |body|)
      else Parsed(-1, line, headers, None, 0)
  }

  /** The words that "%s %s %s" stores fit its three buffers, whether or not all three are there. */
  predicate FitsRequestLine(line: string) {
    var a := SpaceEnd(line, 0);
    var b := WordEnd(line, a);
    var c := SpaceEnd(line, b);
    var d := WordEnd(line, c);
    var e := SpaceEnd(line, d);
    var f := WordEnd(line, e);
    b - a < 16 && d - c < 256 && f - e < 16
  }

  /** So do the key that "%[^:]: %s" stores, up to the first colon or the end of the line, and its word. */
  predicate FitsHeaderLine(line: string) {
    var colon := Find(line, ":");
    if colon == -1 then |line| < 256
    else
      var a := SpaceEnd(line, colon + 1);
      colon < 256 && (0 < colon ==> WordEnd(line, a) - a < 256)
  }

  /** What the fixed-size arrays of the source hold; beyond this its behaviour is undefined. */
  predicate Fits(request: string) {
    Find(request, HEADER_END) != -1 ==>
      var lines := LinesOf(request);
      && |lines| <= 1 + MAX_HEADERS
      && (lines != [] ==> FitsRequestLine(lines[0]))
      && forall i :: 1 <= i < |lines| ==> FitsHeaderLine(lines[i])
  }

  // ---------- the structure and the parser ----------

  class Request {
    var line: RequestLine
    const h: array<Header>
    var body: Option<string>
    var bodyLength: nat

    /** The zeroed structure that the connection loop starts from. */
    constructor ()
      ensures Blank() && fresh(h) && h.Length == 20
    {
      line, body, bodyLength := NO_LINE, None, 0;
      h := new Header[MAX_HEADERS](_ => NO_HEADER);
    }

    predicate Blank()
      reads this, h
    {
      Holds(Stored([]))
    }

    predicate Holds(p: Parsed)
      reads this, h
    {
      line == p.line && h.Length == MAX_HEADERS && h[..] == p.headers && body == p.body && bodyLength == p.bodyLength
    }
  }

  /** One line: the first is the request line, every later one fills the next slot or leaves it empty. */
  method StoreLine(parseLine: string, i: nat, k: nat, req: Request, ghost done: seq<string>)
    requires |done| <= MAX_HEADERS && i == |done| + 1 && k == if done == [] then 0 else |done| - 1
    requires req.Holds(Stored(done))
    modifies req, req.h
    ensures req.Holds(Stored(done + [parseLine]))
  {
    TableGrows(done, parseLine);
    if i == 1 {
      req.line := ReadRequestLine(parseLine);
    } else {
      req.h[k] := ReadHeader(parseLine);
    }
  }

  /** Step 1: the lines before the blank line, one slot per line after the first. */
  method ParseLines(request: string, headerEnd: nat, req: Request)
    requires headerEnd <= |request| && |LinesBefore(request, 0, headerEnd)| <= 1 + MAX_HEADERS
    requires req.Blank()
    modifies req, req.h
    ensures req.Holds(Stored(LinesBefore(request, 0, headerEnd)))
  {
    ghost var done: seq<string>, rest := [], LinesBefore(request, 0, headerEnd);
    ghost var lines := rest;
    assert lines == done + rest;
    var newLine: nat, i, k := 0, 1, 0;
    while newLine < headerEnd
      invariant newLine <= |request| && rest == LinesBefore(request, newLine, headerEnd)
      invariant lines == done + rest && |lines| <= 1 + MAX_HEADERS
      invariant i == |done| + 1 && k == if |done| == 0 then 0 else |done| - 1
      invariant req.Holds(Stored(done))
      decreases |request| - newLine
    {
      var temp := FindFrom(request, CRLF, newLine);
      if temp == -1 {
        break;
      }
      var parseLine := request[newLine..temp];
      OneFurther(done, rest);
      StoreLine(parseLine, i, k, req, done);
      i, k := i + 1, if i == 1 then k else k + 1;
      done, rest := done + [rest[0]], rest[1..];
      newLine := temp + 2;
    }
    assert rest == [];
  }

  /** Step 2: the body, checked against the first Content-Length slot. */
  method ParseBody(body: string, req: Request, ghost before: Parsed) returns (ret: int)
    requires req.Holds(before) && before.body == None && before.bodyLength == 0 && |before.headers| == MAX_HEADERS
    modifies req
    ensures var j := FirstSlot(before.headers, LENGTH_NAME, 0);
            if body == "" || j == MAX_HEADERS then ret == 0 && req.Holds(before)
            else if SaysLength(before.headers[j].value, |body|) then
              ret == 0 && req.Holds(before.(body := Some(body), bodyLength := |body|))
            else ret == -1 && req.Holds(before)
  {
    if body == "" {
      return 0;
    }
    var j := 0;
    while j < MAX_HEADERS
      invariant 0 <= j <= MAX_HEADERS
      invariant FirstSlot(before.headers, LENGTH_NAME, 0) == FirstSlot(before.headers, LENGTH_NAME, j)
      invariant req.Holds(before)
    {
      var h := req.h[j];
      assert h == before.headers[j];
      if IsNamed(h, LENGTH_NAME) {
        var (number, end) := ReadLong(h.value);
        if end != |h.value| || number % TWO_TO_64 != |body| {
          return -1;
        }
        req.bodyLength, req.body := |body|, Some(body);
        return 0;
      }
      j := j + 1;
    }
    return 0;
  }

  method ParseHttpRequest(request: string, req: Request) returns (ret: int)
    requires Free(request, '\0') && Fits(request)
    requires req.Blank()
    modifies req, req.h
    ensures ret == Parse(request).ret && req.Holds(Parse(request))
  {
    var headerEnd := Find(request, HEADER_END);
    if headerEnd == -1 {
      return -1;
    }
    ParseLines(request, headerEnd, req);
    ghost var lines := LinesOf(request);
    ret := ParseBody(request[headerEnd + 4..], req, Stored(lines));
  }

  lemma TableGrows(done: seq<string>, line: string)
    ensures Table([]) == Table([line])
    ensures done != [] && |done| <= MAX_HEADERS ==>
      Table(done + [line]) == Table(done)[|done| - 1 := ReadHeader(line)]
  {
  }

  // ---------- keep-alive ----------

  /** The first Connection header says keep-alive. */
  predicate KeepsAlive(headers: seq<Header>) {
    var j := FirstSlot(headers, "Connection", 0);
    j < |headers| && NCaseEq(headers[j].value, "keep-alive", 10)
  }

  /** The first slot with a key that starts with connection, in any case, decides; without one it is close. */
  lemma KeepsAliveMeans(headers: seq<Header>)
    ensures (forall i :: 0 <= i < |headers| ==> !StartsWith(headers[i].key, "connection")) ==> !KeepsAlive(headers)
    ensures forall j ::
      0 <= j < |headers| && StartsWith(headers[j].key, "connection")
      && (forall i :: 0 <= i < j ==> !StartsWith(headers[i].key, "connection")) ==>
        KeepsAlive(headers) == StartsWith(headers[j].value, "keep-alive")
  {
    forall i | 0 <= i < |headers|
      ensures IsNamed(headers[i], "Connection") == StartsWith(headers[i].key, "connection")
    {
      StartsWithIs(headers[i].key, "Connection", "connection");
    }
    var f := FirstSlot(headers, "Connection", 0);
    if f < |headers| { StartsWithIs(headers[f].value, "keep-alive", "keep-alive"); }
  }

  method ShouldCloseConnection(req: Request) returns (ret: int)
    requires req.h.Length == MAX_HEADERS
    ensures ret == if KeepsAlive(req.h[..]) then 0 else -1
    ensures (forall i :: 0 <= i < MAX_HEADERS ==> !StartsWith(req.h[i].key, "connection")) ==> ret == -1
    ensures forall j ::
      0 <= j < MAX_HEADERS && StartsWith(req.h[j].key, "connection")
      && (forall i :: 0 <= i < j ==> !StartsWith(req.h[i].key, "connection")) ==>
        ret == if StartsWith(req.h[j].value, "keep-alive") then 0 else -1
  {
    KeepsAliveMeans(req.h[..]);
    ghost var headers := req.h[..];
    var j := 0;
    while j < MAX_HEADERS
      invariant 0 <= j <= MAX_HEADERS
      invariant FirstSlot(headers, "Connection", 0) == FirstSlot(headers, "Connection", j)
    {
      var h := req.h[j];
      assert h == headers[j];
      if IsNamed(h, "Connection") {
        if NCaseEq(h.value, "close", 5) {
          CloseIsNotKeepAlive(h.value);
          return -1;
        } else if NCaseEq(h.value, "keep-alive", 10) {
          return 0;
        }
        break;
      }
      j := j + 1;
    }
    return -1;
  }

  lemma CloseIsNotKeepAlive(value: string)
    requires NCaseEq(value, "close", 5)
    ensures !NCaseEq(value, "keep-alive", 10)
  {
    assert Take(value, 5)[0] == value[0];
  }
}
