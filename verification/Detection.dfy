/**
 What `detectProtocol` finds in a text, in terms of the words of its first line and of the headers that were
 printed: which texts have a request line, which printed requests are taken for a WebSocket handshake.
 */
module Detection {
  import opened CStrings
  import opened Framing
  import opened Lines
  import opened HttpRequest
  import opened RoundTrip
  import opened Protocol

  // ---------- the words of the first line ----------

  /** White space stands between i and j, and neither of them is white space. */
  predicate Parted(line: string, i: int, p: int, j: int) {
    0 <= i < p < j < |line| && !IsSpace(line[i]) && IsSpace(line[p]) && !IsSpace(line[j])
  }

  ghost predicate TwoWords(line: string) { exists i, p, j :: Parted(line, i, p, j) }

  ghost predicate ThreeWords(line: string) {
    exists i, p, j, q, k :: Parted(line, i, p, j) && Parted(line, j, q, k)
  }

  /** The first word starts at a and has more than 15 characters. */
  predicate LongFirstFrom(line: string, a: int) {
    && 0 <= a && a + 15 < |line| && (forall x :: 0 <= x < a ==> IsSpace(line[x]))
    && forall x :: a <= x <= a + 15 ==> !IsSpace(line[x])
  }

  ghost predicate LongFirstWord(line: string) { exists a :: LongFirstFrom(line, a) }

  lemma SpaceEndAt(s: string, i: nat)
    requires i <= |s|
    ensures forall k :: i <= k < SpaceEnd(s, i) ==> IsSpace(s[k])
    ensures SpaceEnd(s, i) < |s| ==> !IsSpace(s[SpaceEnd(s, i)])
    ensures forall k :: i <= k < |s| && !IsSpace(s[k]) ==> SpaceEnd(s, i) <= k
    decreases |s| - i
  {
    if i < |s| && IsSpace(s[i]) { SpaceEndAt(s, i + 1); }
  }

  lemma WordEndAt(s: string, i: nat)
    requires i <= |s|
    ensures forall k :: i <= k < WordEnd(s, i) ==> !IsSpace(s[k])
    ensures WordEnd(s, i) < |s| ==> IsSpace(s[WordEnd(s, i)])
    ensures forall k :: i <= k < |s| && IsSpace(s[k]) ==> WordEnd(s, i) <= k
    decreases |s| - i
  {
    if i < |s| && !IsSpace(s[i]) { WordEndAt(s, i + 1); }
  }

  /** A line with three words scans, however long they are. */
  lemma ThreeWordsScan(line: string, i: int, p: int, j: int, q: int, k: int)
    requires Parted(line, i, p, j) && Parted(line, j, q, k)
    ensures ScansAsRequestLine(line)
  {
    var a := SpaceEnd(line, 0);
    SpaceEndAt(line, 0);
    WordEndAt(line, a);
    var b := BoundedWordEnd(line, a, 15);
    SpaceEndAt(line, b);
    var c := SpaceEnd(line, b);
    WordEndAt(line, c);
    SpaceEndAt(line, BoundedWordEnd(line, c, 1023));
  }

  /** So does one with two words whose first is cut after 15 characters. */
  lemma CutWordScans(line: string)
    requires LongFirstWord(line) && TwoWords(line)
    ensures ScansAsRequestLine(line)
  {
    var a :| LongFirstFrom(line, a);
    SpaceEndIs(line, 0, a);
    WordEndAt(line, a);
    var c := a + 15;
    assert BoundedWordEnd(line, a, 15) == c && SpaceEnd(line, c) == c;
    WordEndAt(line, c);
    SpaceEndAt(line, BoundedWordEnd(line, c, 1023));
  }

  /** What ends a run of white space, and what ends a word. */
  lemma Stops(s: string, i: nat)
    requires i <= |s|
    ensures SpaceEnd(s, i) < |s| ==> !IsSpace(s[SpaceEnd(s, i)])
    ensures WordEnd(s, i) < |s| ==> IsSpace(s[WordEnd(s, i)])
  {
    SpaceEndAt(s, i);
    WordEndAt(s, i);
  }

  lemma ShortFirstWord(line: string, a: nat, b: nat)
    requires a == SpaceEnd(line, 0) && b == WordEnd(line, a) && a < b
    requires var c := SpaceEnd(line, b); var d := WordEnd(line, c); c < d && SpaceEnd(line, d) < |line|
    ensures ThreeWords(line)
  {
    var c := SpaceEnd(line, b);
    var d := WordEnd(line, c);
    Stops(line, 0);
    Stops(line, a);
    Stops(line, b);
    Stops(line, c);
    Stops(line, d);
    assert Parted(line, a, b, c) && Parted(line, c, d, SpaceEnd(line, d));
  }

  lemma LongFirst(line: string, a: nat)
    requires a == SpaceEnd(line, 0) && WordEnd(line, a) - a > 15
    requires SpaceEnd(line, WordEnd(line, a)) < |line|
    ensures LongFirstWord(line) && TwoWords(line)
  {
    var w := WordEnd(line, a);
    Stops(line, w);
    Stops(line, a);
    SpaceEndAt(line, 0);
    WordEndAt(line, a);
    assert LongFirstFrom(line, a) && Parted(line, a, w, SpaceEnd(line, w));
  }

  /** Inside a word, the same word goes on. */
  lemma {:induction false} WordGoesOn(s: string, i: nat, k: nat)
    requires i <= |s| && i <= k <= WordEnd(s, i)
    ensures WordEnd(s, k) == WordEnd(s, i) && (k < WordEnd(s, i) ==> SpaceEnd(s, k) == k)
    decreases k - i
  {
    if i < k {
      WordGoesOn(s, i + 1, k);
    }
  }

  lemma WordsOfScanned(line: string)
    requires |line| < 1024 && ScansAsRequestLine(line)
    ensures ThreeWords(line) || (LongFirstWord(line) && TwoWords(line))
  {
    var a := SpaceEnd(line, 0);
    var w := WordEnd(line, a);
    if w - a <= 15 {
      ShortFirstWord(line, a, w);
    } else {
      WordGoesOn(line, a, a + 15);
      LongFirst(line, a);
    }
  }

  /** Of the lines that fit the buffer, exactly what "%15s %1023s %15s" reads three words from. */
  lemma ScansIff(line: string)
    requires |line| < 1024
    ensures ScansAsRequestLine(line) <==> ThreeWords(line) || (LongFirstWord(line) && TwoWords(line))
  {
    if ThreeWords(line) {
      var i, p, j, q, k :| Parted(line, i, p, j) && Parted(line, j, q, k);
      ThreeWordsScan(line, i, p, j, q, k);
    } else if LongFirstWord(line) && TwoWords(line) {
      CutWordScans(line);
    } else if ScansAsRequestLine(line) {
      WordsOfScanned(line);
    }
  }

  // ---------- all inputs ----------

  ghost predicate HasRequestLine(data: string) {
    var e := Find(data, CRLF);
    0 <= e < 1024 && (ThreeWords(data[..e]) || (LongFirstWord(data[..e]) && TwoWords(data[..e])))
  }

  /** Over all inputs: what is taken for a WebSocket handshake. */
  lemma DetectedWebSocketIff(data: string)
    ensures Detect(data).kind == WebSocket
       <==> !IsOther(data) && HasRequestLine(data) && AnyUpgrades(LinesToBlank(data, 0))
  {
    WebSocketIff(Info(Http, -1), LinesToBlank(data, 0));
    if 0 <= Find(data, CRLF) < 1024 { ScansIff(data[..Find(data, CRLF)]); }
  }

  /** Over all inputs: what is taken for HTTP, also without a request line or a blank line. */
  lemma DetectedHttpIff(data: string)
    ensures Detect(data).kind == Http
       <==> !IsOther(data) && !(HasRequestLine(data) && AnyUpgrades(LinesToBlank(data, 0)))
  {
    WebSocketIff(Info(Http, -1), LinesToBlank(data, 0));
    if 0 <= Find(data, CRLF) < 1024 { ScansIff(data[..Find(data, CRLF)]); }
  }

  /** A control character other than white space and escape. */
  predicate IsControl(data: string, i: int) {
    0 <= i < |data| && data[i] != 27 as char && (data[i] < 9 as char || 13 as char < data[i] < 32 as char)
  }

  /**
   The connection loop passes C strings.  None of them is taken for MQTT, whose packets hold a zero byte; a TLS
   ClientHello is recognised by two bytes; what else has a control character at its start is unknown.
   */
  lemma BinaryDetected(data: string)
    requires Free(data, '\0')
    ensures Detect(data).kind != Mqtt
    ensures Detect(data).kind == Tls <==> |data| > 5 && data[0] == 22 as char && data[5] == 1 as char
    ensures Detect(data).kind == Unknown
       <==> data == "" || (Detect(data).kind != Tls && exists i :: 0 <= i < 100 && IsControl(data, i))
  {
    WebSocketIff(Info(Http, -1), LinesToBlank(data, 0));
    assert |data| > 2 ==> data[2] != '\0';
    if !IsText(data, 100) {
      var i :| 0 <= i < |data| && i < 100
               && (data[i] < 9 as char || (13 as char < data[i] < ' ' && data[i] != 27 as char));
      assert IsControl(data, i);
    }
  }

  // ---------- printed requests ----------

  /** s is a prefix of the word, which is written in small letters, in any case. */
  predicate Spells(s: string, word: string) {
    |s| <= |word| && forall i :: 0 <= i < |s| ==> LowerChar(s[i]) == word[i]
  }

  /** The value, after some blanks, is a prefix of websocket. */
  ghost predicate AsksWebSocket(value: string) {
    exists b :: 0 <= b <= |value| && (forall i :: 0 <= i < b ==> value[i] == ' ') && Spells(value[b..], "websocket")
  }

  /** A header that marks a WebSocket handshake. */
  ghost predicate MarksHandshake(h: Header) {
    || (Spells(h.key, "upgrade") && AsksWebSocket(h.value))
    || Spells(h.key, "sec-websocket-key")
    || Spells(h.key, "sec-websocket-version")
  }

  lemma SpellsIs(s: string, word: string, lower: string)
    requires |word| == |lower| && forall i :: 0 <= i < |word| ==> LowerChar(word[i]) == lower[i]
    ensures CasePrefix(s, word) <==> Spells(s, lower)
  {
    if |s| <= |word| { assert forall i :: 0 <= i < |s| ==> word[..|s|][i] == word[i]; }
  }

  lemma {:induction false} BlanksEndMoves(s: string, text: string, d: nat, i: nat)
    requires i <= |s| && |text| == d + |s| && forall k :: 0 <= k < |s| ==> text[d + k] == s[k]
    ensures BlanksEnd(text, d + i) == d + BlanksEnd(s, i)
    decreases |s| - i
  {
    if i < |s| {
      assert text[d + i] == s[i];
      if s[i] == ' ' { BlanksEndMoves(s, text, d, i + 1); }
    }
  }

  lemma BlanksEndAt(s: string, i: nat)
    requires i <= |s|
    ensures forall k :: i <= k < BlanksEnd(s, i) ==> s[k] == ' '
    ensures BlanksEnd(s, i) < |s| ==> s[BlanksEnd(s, i)] != ' '
    decreases |s| - i
  {
    if i < |s| && s[i] == ' ' { BlanksEndAt(s, i + 1); }
  }

  lemma DropBlanks(text: string, value: string, d: nat)
    requires |text| == d + |value| && At(text, value, d)
    ensures text[BlanksEnd(text, d)..] == value[BlanksEnd(value, 0)..]
  {
    forall k | 0 <= k < |value|
      ensures text[d + k] == value[k]
    {
      AtChar(text, value, d, k);
    }
    BlanksEndMoves(value, text, d, 0);
  }

  lemma FieldFrom(text: string, value: string, n: nat)
    requires Find(text, ":") == n && |text| == n + 2 + |value| && text[n + 1] == ' ' && At(text, value, n + 2)
    ensures ReadField(text) == Field(text[..n], value[BlanksEnd(value, 0)..])
  {
    DropBlanks(text, value, n + 2);
    assert BlanksEnd(text, n + 1) == BlanksEnd(text, n + 2);
  }

  /** The field of a printed header: its key, and its value after the blanks it starts with. */
  lemma PrintedField(h: Header)
    requires PrintableKey(h.key)
    ensures ReadField(HeaderText(h)) == Field(h.key, h.value[BlanksEnd(h.value, 0)..])
  {
    var text, n := HeaderText(h), |h.key|;
    HeaderLayout(h);
    KeyOf(text, h.key);
    AtChar(text, ": ", n, 1);
    FieldFrom(text, h.value, n);
  }

  lemma AsksWebSocketIff(value: string)
    ensures CasePrefix(value[BlanksEnd(value, 0)..], "websocket") <==> AsksWebSocket(value)
  {
    var b := BlanksEnd(value, 0);
    BlanksEndAt(value, 0);
    SpellsIs(value[b..], "websocket", "websocket");
    if AsksWebSocket(value) {
      var c :| 0 <= c <= |value| && (forall i :: 0 <= i < c ==> value[i] == ' ') && Spells(value[c..], "websocket");
      if c < |value| { assert value[c..][0] == value[c]; }
      assert b == c;
    }
  }

  lemma PrintedUpgrades(h: Header)
    requires PrintableKey(h.key)
    ensures Upgrades(HeaderText(h)) <==> MarksHandshake(h)
  {
    PrintedField(h);
    AsksWebSocketIff(h.value);
    SpellsIs(h.key, "Upgrade", "upgrade");
    SpellsIs(h.key, "Sec-WebSocket-Key", "sec-websocket-key");
    SpellsIs(h.key, "Sec-WebSocket-Version", "sec-websocket-version");
  }

  lemma FirstColon(text: string, n: nat)
    requires n < |text| && forall k :: 0 <= k <= n ==> text[k] != ':'
    ensures Find(text, ":") == -1 || n < Find(text, ":")
  {
    if Find(text, ":") != -1 {
      Found(text, ":", 0);
      AtChar(text, ":", Find(text, ":"), 0);
    }
  }

  lemma BlankInName(text: string, n: nat)
    requires n < |text| && text[n] == ' ' && forall k :: 0 <= k <= n ==> text[k] != ':'
    ensures !Upgrades(text)
  {
    FirstColon(text, n);
    var colon := Find(text, ":");
    if colon != -1 {
      assert text[..colon][n] == ' ';
      NoBlankPrefix(text[..colon], n, "Upgrade");
      NoBlankPrefix(text[..colon], n, "Sec-WebSocket-Key");
      NoBlankPrefix(text[..colon], n, "Sec-WebSocket-Version");
    }
  }

  /** A request line is not taken for a header: its first colon, if any, stands behind a blank. */
  lemma LineIsNoHeader(line: RequestLine)
    requires PrintableLine(line) && Free(line.verb, ':')
    ensures !Upgrades(LineText(line))
  {
    var text, n := LineText(line), |line.verb|;
    LineLayout(line);
    AtChar(text, " ", n, 0);
    forall k | 0 <= k <= n
      ensures text[k] != ':'
    {
      if k < n { AtChar(text, line.verb, 0, k); }
    }
    BlankInName(text, n);
  }

  lemma NoBlankPrefix(name: string, n: nat, word: string)
    requires n < |name| && name[n] == ' ' && forall i :: 0 <= i < |word| ==> LowerChar(word[i]) != ' '
    ensures !CasePrefix(name, word)
  {
    PrefixChar(name, word, n);
  }

  lemma PrintedLineScans(line: RequestLine)
    requires PrintableLine(line)
    ensures ScansAsRequestLine(LineText(line))
  {
    var text, b, d := LineText(line), |line.verb|, |line.verb| + 1 + |line.path|;
    LineLayout(line);
    AtChar(text, line.verb, 0, 0);
    AtChar(text, " ", b, 0);
    AtChar(text, line.path, b + 1, 0);
    AtChar(text, " ", d, 0);
    AtChar(text, line.version, d + 1, 0);
    ThreeWordsScan(text, 0, b, b + 1, d, d + 1);
  }

  lemma AnyPrintedUpgrades(m: Message)
    requires Printable(m) && Free(m.line.verb, ':')
    ensures AnyUpgrades(TextLines(m.line, m.headers))
       <==> exists j :: 0 <= j < |m.headers| && MarksHandshake(m.headers[j])
  {
    var lines := TextLines(m.line, m.headers);
    LineIsNoHeader(m.line);
    forall j | 0 <= j < |m.headers|
      ensures lines[1 + j] == HeaderText(m.headers[j]) && (Upgrades(lines[1 + j]) <==> MarksHandshake(m.headers[j]))
    {
      assert PrintableHeader(m.headers[j]);
      PrintedUpgrades(m.headers[j]);
    }
    if AnyUpgrades(lines) {
      var i :| 0 <= i < |lines| && Upgrades(lines[i]);
      assert lines[1 + (i - 1)] == lines[i];
    }
  }

  /** The first 100 bytes of a text are printable, blanks or line ends. */
  predicate LooksLikeText(text: string) {
    forall i :: 0 <= i < |text| && i < 100 ==> text[i] >= ' ' || text[i] == '\t' || text[i] == '\r' || text[i] == '\n'
  }

  lemma TextIsText(text: string)
    requires text != "" && LooksLikeText(text)
    ensures !IsOther(text)
  {
    assert text[0] >= ' ' || text[0] == '\t' || text[0] == '\r' || text[0] == '\n';
  }

  /** Where the first line of a printed request ends. */
  lemma FirstLineOf(m: Message)
    requires Printable(m)
    ensures var text, n := CStr(Print(m)), |LineText(m.line)|;
            text != "" && Find(text, CRLF) == n && text[..n] == LineText(m.line)
    ensures LinesToBlank(CStr(Print(m)), 0) == TextLines(m.line, m.headers)
  {
    var lines, text := TextLines(m.line, m.headers), CStr(Print(m));
    CutAtNul(m);
    LinesOfMessage(m);
    PrintedParts(lines, CStr(m.body));
    BlockInText(lines, CStr(m.body));
    NextLine(text, 0, lines[0]);
  }

  /**
   A printed request is taken for a WebSocket handshake exactly if its request line is shorter than 1024 bytes
   and one of its headers marks a handshake; otherwise it is taken for HTTP.
   */
  lemma DetectPrinted(m: Message)
    requires Printable(m) && Free(m.line.verb, ':') && LooksLikeText(CStr(Print(m)))
    ensures Detect(CStr(Print(m))).kind
         == if |m.line.verb| + |m.line.path| + |m.line.version| + 2 < 1024
               && exists j :: 0 <= j < |m.headers| && MarksHandshake(m.headers[j])
            then WebSocket else Http
  {
    var text := CStr(Print(m));
    FirstLineOf(m);
    TextIsText(text);
    PrintedLineScans(m.line);
    AnyPrintedUpgrades(m);
    WebSocketIff(Info(Http, -1), LinesToBlank(text, 0));
  }
}
