/**
 `parseHttpHeaders` of protocol.c and its use in `detectProtocol`: a second walk over the header lines
 that classifies the request as HTTP or as a WebSocket handshake.
 */
module Protocol {
  import opened CStrings
  import opened Framing
  import opened Lines

  datatype Kind = Unknown | Http | WebSocket | Mqtt | Tls

  datatype Info = Info(kind: Kind, contentLength: int)

  // ---------- what one line does ----------

  /** `strncasecmp(a, b, |a|) == 0` for a name or value cut out of the text: a prefix, in any case. */
  predicate CasePrefix(a: string, b: string) { |a| <= |b| && CaseEq(a, b[..|a|]) }

  datatype Field = NoField | Field(name: string, value: string)

  function BlanksEnd(s: string, i: nat): (r: nat)
    requires i <= |s|
    ensures i <= r <= |s|
    decreases |s| - i
  {
    if i < |s| && s[i] == ' ' then BlanksEnd(s, i + 1) else i
  }

  /** Name before the first colon; value after it and after any spaces. */
  function ReadField(line: string): Field {
    var colon := Find(line, ":");
    if colon == -1 then NoField else Field(line[..colon], line[BlanksEnd(line, colon + 1)..])
  }

  function Atoi(s: string): int {
    var a := SpaceEnd(s, 0);
    var signed := a < |s| && (s[a] == '-' || s[a] == '+');
    var d := if signed then a + 1 else a;
    var v := Value(s, d, DigitEnd(s, d));
    if signed && s[a] == '-' then -v else v
  }

  /** The comparisons are made in this order; the first that succeeds decides. */
  datatype Name = Upgrade | Connection | WebSocketKey | WebSocketVersion | ContentLength | Other

  function NameOf(name: string): Name {
    if CasePrefix(name, "Upgrade") then Upgrade
    else if CasePrefix(name, "Connection") then Connection
    else if CasePrefix(name, "Sec-WebSocket-Key") then WebSocketKey
    else if CasePrefix(name, "Sec-WebSocket-Version") then WebSocketVersion
    else if CasePrefix(name, "Content-Length") then ContentLength
    else Other
  }

  /**
   Which prefixes are taken for which name: the empty name for Upgrade, up to three letters of Content-Length
   for Connection, up to fourteen of Sec-WebSocket-Version for Sec-WebSocket-Key.
   */
  lemma NamesTaken(name: string)
    ensures NameOf(name) == Upgrade <==> CasePrefix(name, "Upgrade")
    ensures NameOf(name) == Connection <==> name != "" && CasePrefix(name, "Connection")
    ensures NameOf(name) == WebSocketKey <==> name != "" && CasePrefix(name, "Sec-WebSocket-Key")
    ensures NameOf(name) == WebSocketVersion <==> |name| > 14 && CasePrefix(name, "Sec-WebSocket-Version")
    ensures NameOf(name) == ContentLength <==> |name| > 3 && CasePrefix(name, "Content-Length")
  {
    var key, version := "Sec-WebSocket-Key", "Sec-WebSocket-Version";
    assert key[14] == 'K' && version[14] == 'V' && key[..14] == version[..14];
    CommonPrefix(name, key, version, 14);
    assert "Connection"[3] == 'n' && "Content-Length"[3] == 't' && "Connection"[..3] == "Content-Length"[..3];
    CommonPrefix(name, "Connection", "Content-Length", 3);
    FirstLetters(name, "Upgrade", "Connection");
    FirstLetters(name, "Upgrade", key);
    FirstLetters(name, "Upgrade", version);
    FirstLetters(name, "Upgrade", "Content-Length");
    FirstLetters(name, "Connection", key);
    FirstLetters(name, "Connection", version);
    FirstLetters(name, "Content-Length", key);
    FirstLetters(name, "Content-Length", version);
  }

  /** A prefix of one of two words that part after n letters is a prefix of the other exactly up to there. */
  lemma CommonPrefix(name: string, a: string, b: string, n: nat)
    requires n < |a| && n < |b| && a[..n] == b[..n] && LowerChar(a[n]) != LowerChar(b[n])
    ensures CasePrefix(name, a) || CasePrefix(name, b) ==>
      (CasePrefix(name, a) && CasePrefix(name, b) <==> |name| <= n)
  {
    var k := |name|;
    if k <= n {
      assert a[..k] == a[..n][..k] == b[..k];
    } else {
      PrefixChar(name, a, n);
      PrefixChar(name, b, n);
    }
  }

  lemma PrefixChar(name: string, word: string, n: nat)
    requires n < |name|
    ensures CasePrefix(name, word) ==> LowerChar(name[n]) == LowerChar(word[n])
  {
    if CasePrefix(name, word) { assert word[..|name|][n] == word[n]; }
  }

  lemma FirstLetters(name: string, a: string, b: string)
    requires a != "" && b != "" && LowerChar(a[0]) != LowerChar(b[0])
    ensures CasePrefix(name, a) && CasePrefix(name, b) ==> name == ""
  {
    if name != "" {
      PrefixChar(name, a, 0);
      PrefixChar(name, b, 0);
    }
  }

  predicate SaysWebSocket(value: string) { CasePrefix(value, "websocket") }

  function Apply(info: Info, name: Name, value: string): Info {
    match name
    case Upgrade => if SaysWebSocket(value) then info.(kind := WebSocket) else info
    case WebSocketKey => info.(kind := WebSocket)
    case WebSocketVersion => info.(kind := WebSocket)
    case ContentLength => info.(contentLength := Atoi(Take(value, 31)))
    case _ => info
  }

  function Effect(info: Info, field: Field): Info {
    if field.NoField? then info else Apply(info, NameOf(field.name), field.value)
  }

  /** The lines one after the other. */
  function Effects(info: Info, lines: seq<string>): Info {
    if lines == [] then info
    else Effect(Effects(info, lines[..|lines| - 1]), ReadField(lines[|lines| - 1]))
  }

  // ---------- the pointer loop ----------

  class ProtocolInfo {
    var info: Info

    constructor ()
      ensures info == Info(Unknown, -1)
    {
      info := Info(Unknown, -1);
    }
  }

  /** `data` is the whole request, a C string of the given length. */
  method ParseHttpHeaders(data: string, out: ProtocolInfo)
    modifies out
    ensures out.info == Effects(old(out.info), LinesToBlank(data, 0))
  {
    ghost var lines, done: seq<string>, rest := LinesToBlank(data, 0), [], LinesToBlank(data, 0);
    assert lines == done + rest;
    var ptr: nat := 0;
    while ptr < |data|
      invariant ptr <= |data| && rest == LinesToBlank(data, ptr) && lines == done + rest
      invariant out.info == Effects(old(out.info), done)
      decreases |data| - ptr
    {
      var lineEnd := FindFrom(data, CRLF, ptr);
      if lineEnd == -1 || lineEnd == ptr {
        break;
      }
      OneFurther(done, rest);
      assert (done + [rest[0]])[..|done|] == done;
      ParseField(data, ptr, lineEnd, out);
      done, rest := done + [rest[0]], rest[1..];
      ptr := lineEnd + 2;
    }
    NoLinesAtEnd(data, ptr);
    assert done + rest == done;
  }

  lemma NoLinesAtEnd(data: string, ptr: nat)
    requires ptr <= |data|
    requires ptr == |data| || FindFrom(data, CRLF, ptr) == -1 || FindFrom(data, CRLF, ptr) == ptr
    ensures LinesToBlank(data, ptr) == []
  {
  }

  /** `strncasecmp(text + p, word, n) == 0`: comparing as many characters as the name has asks for a prefix. */
  method IsPrefix(text: string, p: nat, n: nat, word: string) returns (yes: bool)
    requires p + n <= |text|
    ensures yes == CasePrefix(text[p..p + n], word)
  {
    assert text[p..][..n] == text[p..p + n];
    return NCaseEq(text[p..], word, n);
  }

  method ClassifyName(text: string, p: nat, n: nat) returns (name: Name)
    requires p + n <= |text|
    ensures name == NameOf(text[p..p + n])
  {
    var yes := IsPrefix(text, p, n, "Upgrade");
    if yes { return Upgrade; }
    yes := IsPrefix(text, p, n, "Connection");
    if yes { return Connection; }
    yes := IsPrefix(text, p, n, "Sec-WebSocket-Key");
    if yes { return WebSocketKey; }
    yes := IsPrefix(text, p, n, "Sec-WebSocket-Version");
    if yes { return WebSocketVersion; }
    yes := IsPrefix(text, p, n, "Content-Length");
    return if yes then ContentLength else Other;
  }

  /** The body of the loop: one line, between `ptr` and `lineEnd`. */
  method ParseField(data: string, ptr: nat, lineEnd: nat, out: ProtocolInfo)
    requires ptr <= lineEnd <= |data|
    modifies out
    ensures out.info == Effect(old(out.info), ReadField(data[ptr..lineEnd]))
  {
    ghost var line := data[ptr..lineEnd];
    var colon := FindFrom(data, ":", ptr);
    ColonInLine(data, ptr, lineEnd);
    if colon != -1 && colon < lineEnd {
      var nameLen := colon - ptr;
      var valueStart := colon + 1;
      while valueStart < lineEnd && data[valueStart] == ' '
        invariant colon + 1 <= valueStart <= lineEnd
        invariant BlanksEnd(line, valueStart - ptr) == BlanksEnd(line, nameLen + 1)
      {
        valueStart := valueStart + 1;
      }
      FieldSlices(data, ptr, lineEnd, nameLen, valueStart);
      var name := ClassifyName(data, ptr, nameLen);
      Act(name, data, valueStart, lineEnd, out);
    }
  }

  /** The branch that the name selects. */
  method Act(name: Name, data: string, valueStart: nat, lineEnd: nat, out: ProtocolInfo)
    requires valueStart <= lineEnd <= |data|
    modifies out
    ensures out.info == Apply(old(out.info), name, data[valueStart..lineEnd])
  {
    var value := data[valueStart..lineEnd];
    match name {
      case Upgrade =>
        var yes := IsPrefix(data, valueStart, |value|, "websocket");
        if yes { out.info := out.info.(kind := WebSocket); }
      case WebSocketKey =>
        out.info := out.info.(kind := WebSocket);
      case WebSocketVersion =>
        out.info := out.info.(kind := WebSocket);
      case ContentLength =>
        out.info := out.info.(contentLength := Atoi(Take(value, 32 - 1)));
      case _ =>
    }
  }

  lemma FieldSlices(data: string, ptr: nat, lineEnd: nat, nameLen: nat, valueStart: nat)
    requires ptr + nameLen < valueStart <= lineEnd <= |data|
    requires Find(data[ptr..lineEnd], ":") == nameLen
    requires BlanksEnd(data[ptr..lineEnd], nameLen + 1) == valueStart - ptr
    ensures ReadField(data[ptr..lineEnd]) == Field(data[ptr..ptr + nameLen], data[valueStart..lineEnd])
  {
    assert data[ptr..lineEnd][..nameLen] == data[ptr..ptr + nameLen];
    assert data[ptr..lineEnd][valueStart - ptr..] == data[valueStart..lineEnd];
  }

  lemma AtColon(s: string, i: int)
    ensures At(s, ":", i) <==> 0 <= i < |s| && s[i] == ':'
  {
    if 0 <= i < |s| { assert s[i..i + 1] == [s[i]]; }
  }

  lemma ColonInLine(data: string, ptr: nat, lineEnd: nat)
    requires ptr <= lineEnd <= |data|
    ensures var colon, i := FindFrom(data, ":", ptr), Find(data[ptr..lineEnd], ":");
            if colon != -1 && colon < lineEnd then i == colon - ptr else i == -1
  {
    var line, colon := data[ptr..lineEnd], FindFrom(data, ":", ptr);
    forall k | 0 <= k && (colon == -1 || ptr + k < colon || lineEnd <= ptr + k)
      ensures !At(line, ":", k)
    {
      AtColon(line, k);
      AtColon(data, ptr + k);
      if colon == -1 || ptr + k < colon { NotEarlier(data, ":", ptr, ptr + k); }
    }
    if colon != -1 && colon < lineEnd {
      Found(data, ":", ptr);
      AtColon(data, colon);
      AtColon(line, colon - ptr);
      FindIs(line, ":", colon - ptr);
    } else {
      FindNone(line, ":");
    }
  }

  // ---------- the classification ----------

  /** A line that marks a WebSocket handshake. */
  predicate Upgrades(line: string) {
    var field := ReadField(line);
    field.Field? && ((CasePrefix(field.name, "Upgrade") && CasePrefix(field.value, "websocket"))
      || (field.name != "" && CasePrefix(field.name, "Sec-WebSocket-Key"))
      || (field.name != "" && CasePrefix(field.name, "Sec-WebSocket-Version")))
  }

  lemma EffectOnKind(info: Info, line: string)
    ensures Effect(info, ReadField(line)).kind == if Upgrades(line) then WebSocket else info.kind
  {
    var field := ReadField(line);
    if field.Field? {
      NamesTaken(field.name);
      VersionIsKeyOrLonger(field.name);
    }
  }

  lemma VersionIsKeyOrLonger(name: string)
    ensures CasePrefix(name, "Sec-WebSocket-Version") && name != "" ==>
      NameOf(name) == WebSocketVersion || NameOf(name) == WebSocketKey
  {
    NamesTaken(name);
  }

  ghost predicate AnyUpgrades(lines: seq<string>) { exists i :: 0 <= i < |lines| && Upgrades(lines[i]) }

  /** The verdict is WebSocket exactly when some line says so; it never reverts, and nothing else changes it. */
  lemma {:induction false} WebSocketIff(info: Info, lines: seq<string>)
    ensures Effects(info, lines).kind == if AnyUpgrades(lines) then WebSocket else info.kind
  {
    if lines != [] {
      var init, last := lines[..|lines| - 1], lines[|lines| - 1];
      assert lines == init + [last];
      WebSocketIff(info, init);
      EffectOnKind(Effects(info, init), last);
      AnyUpgradesSplits(init, last);
    }
  }

  lemma AnyUpgradesSplits(init: seq<string>, last: string)
    ensures AnyUpgrades(init + [last]) <==> AnyUpgrades(init) || Upgrades(last)
  {
    var lines := init + [last];
    if AnyUpgrades(init) {
      var i :| 0 <= i < |init| && Upgrades(init[i]);
      assert lines[i] == init[i];
    } else if Upgrades(last) {
      assert lines[|init|] == last;
    }
  }

  /** The order of the lines does not matter. */
  lemma OrderIrrelevant(info: Info, lines: seq<string>, shuffled: seq<string>)
    requires multiset(lines) == multiset(shuffled)
    ensures Effects(info, lines).kind == Effects(info, shuffled).kind
  {
    WebSocketIff(info, lines);
    WebSocketIff(info, shuffled);
    SameLines(lines, shuffled);
    SameLines(shuffled, lines);
  }

  lemma SameLines(lines: seq<string>, shuffled: seq<string>)
    requires multiset(lines) == multiset(shuffled)
    ensures AnyUpgrades(lines) ==> AnyUpgrades(shuffled)
  {
    if AnyUpgrades(lines) {
      var i :| 0 <= i < |lines| && Upgrades(lines[i]);
      assert lines[i] in multiset(shuffled);
    }
  }

  // ---------- the length ----------

  /** The number that a line sets, if it is taken for a Content-Length line. */
  function LengthOn(line: string): Option<int> {
    var field := ReadField(line);
    if field.Field? && NameOf(field.name) == ContentLength then Some(Atoi(Take(field.value, 31))) else None
  }

  lemma EffectOnLength(info: Info, line: string)
    ensures Effect(info, ReadField(line)).contentLength
         == if LengthOn(line).Some? then LengthOn(line).value else info.contentLength
  {
  }

  /** The last line that is taken for a Content-Length line wins. */
  lemma {:induction false} LastLengthWins(info: Info, lines: seq<string>, c: nat)
    requires c < |lines| && LengthOn(lines[c]).Some?
    requires forall i :: c < i < |lines| ==> LengthOn(lines[i]) == None
    ensures Effects(info, lines).contentLength == LengthOn(lines[c]).value
    decreases |lines|
  {
    var init, last := lines[..|lines| - 1], lines[|lines| - 1];
    EffectOnLength(Effects(info, init), last);
    if c < |init| {
      assert init[c] == lines[c];
      LastLengthWins(info, init, c);
    }
  }

  // ---------- detectProtocol ----------

  /** The first `limit` bytes hold no control characters other than white space and escape. */
  predicate IsText(data: string, limit: nat) {
    forall i :: 0 <= i < |data| && i < limit ==>
      !(data[i] < 9 as char) && !(13 as char < data[i] < ' ' && data[i] != 27 as char)
  }

  /** An MQTT CONNECT packet. */
  predicate IsMqtt(data: string) {
    |data| >= 8 && data[0] == 0x10 as char && data[2] == 0 as char && data[3] == 4 as char && data[4..8] == "MQTT"
  }

  /** A TLS ClientHello. */
  predicate IsTls(data: string) { |data| > 5 && data[0] == 0x16 as char && data[5] == 1 as char }

  /** "%15s %1023s %15s" reads three words; a word that is too long continues in the next one. */
  predicate ScansAsRequestLine(line: string) {
    var a := SpaceEnd(line, 0);
    var b := BoundedWordEnd(line, a, 15);
    var c := SpaceEnd(line, b);
    var d := BoundedWordEnd(line, c, 1023);
    var e := SpaceEnd(line, d);
    a < b && c < d && e < |line|
  }

  function BoundedWordEnd(s: string, i: nat, width: nat): (r: nat)
    requires i <= |s|
    ensures i <= r <= |s|
  {
    if WordEnd(s, i) - i <= width then WordEnd(s, i) else i + width
  }

  /** The tests in order; only a text with a request line of less than 1024 bytes gets its headers looked at. */
  function Detect(data: string): Info {
    if data == "" then Info(Unknown, -1)
    else if IsMqtt(data) then Info(Mqtt, -1)
    else if IsTls(data) then Info(Tls, -1)
    else if !IsText(data, 100) then Info(Unknown, -1)
    else
      var lineEnd := Find(data, CRLF);
      if lineEnd != -1 && lineEnd < 1024 && ScansAsRequestLine(data[..lineEnd])
      then Effects(Info(Http, -1), LinesToBlank(data, 0))
      else Info(Http, -1)
  }

  method DetectProtocol(data: string) returns (out: ProtocolInfo)
    ensures fresh(out) && out.info == Detect(data)
  {
    out := new ProtocolInfo();
    if data == "" {
      return;
    }
    if IsMqtt(data) {
      out.info := out.info.(kind := Mqtt);
      return;
    }
    if IsTls(data) {
      out.info := out.info.(kind := Tls);
      return;
    }
    if IsText(data, 100) {
      out.info := out.info.(kind := Http);
      var lineEnd := Find(data, CRLF);
      if lineEnd != -1 {
        if lineEnd < 1024 {
          if ScansAsRequestLine(data[..lineEnd]) {
            ParseHttpHeaders(data, out);
          }
        }
      }
    }
  }

  predicate IsOther(data: string) { data == "" || IsMqtt(data) || IsTls(data) || !IsText(data, 100) }
}
