/**
 Several requests on one connection.  The receiver has no memory from one request to the next: what it took
 off the stream past the end of a request is handed over with that request.  Here is exactly when a
 connection that carries a list of requests hands over that list.
 */
module Pipelining {
  import opened CStrings
  import opened Framing
  import opened HttpRequest
  import opened RoundTrip
  import opened Receive
  import opened Agreement
  import Connection
  import Detection
  import Kernel
  import EndToEnd
  import Segmentation

  /** One whole request. */
  ghost predicate IsWhole(text: string) { LeastLength(text) == Some(|text|) && 0 < |text| <= LIMIT + 1 }

  /** ... after which the loop goes on. */
  ghost predicate IsRequest(text: string) { IsWhole(text) && Free(text, '\0') && Connection.Continues(text) }

  function Flatten(texts: seq<string>): string {
    if texts == [] then "" else texts[0] + Flatten(texts[1..])
  }

  // ---------- one request ----------

  /** One of the cuts falls at n. */
  ghost predicate EndsOnCut(schedule: nat -> Arrival, k: nat, t: nat, available: nat, n: nat) {
    exists j: nat :: Segmentation.Total(schedule, k, t, available, j) == Some(n)
  }

  lemma {:induction false} TotalAtLeast(schedule: nat -> Arrival, k: nat, t: nat, available: nat, j: nat)
    ensures var total := Segmentation.Total(schedule, k, t, available, j); total.Some? ==> t <= total.value
    decreases j
  {
    if j > 0 && Next(schedule, k, t, available).Bytes? {
      TotalAtLeast(schedule, k + 1, Cut(t, schedule(k).n, available), available, j - 1);
    }
  }

  /** The cuts from the second one on. */
  lemma EndsOnLaterCut(schedule: nat -> Arrival, k: nat, t: nat, available: nat, n: nat)
    requires t < available && t < n && schedule(k).Bytes?
    ensures EndsOnCut(schedule, k, t, available, n)
       <==> EndsOnCut(schedule, k + 1, Cut(t, schedule(k).n, available), available, n)
  {
    var c := Cut(t, schedule(k).n, available);
    if EndsOnCut(schedule, k, t, available, n) {
      var j: nat :| Segmentation.Total(schedule, k, t, available, j) == Some(n);
      assert Segmentation.Total(schedule, k + 1, c, available, j - 1) == Some(n);
    }
    if EndsOnCut(schedule, k + 1, c, available, n) {
      var j: nat :| Segmentation.Total(schedule, k + 1, c, available, j) == Some(n);
      assert Segmentation.Total(schedule, k, t, available, j + 1) == Some(n);
    }
  }

  lemma NoCutBefore(schedule: nat -> Arrival, k: nat, t: nat, available: nat, n: nat)
    requires n < t
    ensures !EndsOnCut(schedule, k, t, available, n)
  {
    if EndsOnCut(schedule, k, t, available, n) {
      var j: nat :| Segmentation.Total(schedule, k, t, available, j) == Some(n);
      TotalAtLeast(schedule, k, t, available, j);
    }
  }

  lemma CutHere(schedule: nat -> Arrival, k: nat, t: nat, available: nat)
    ensures EndsOnCut(schedule, k, t, available, t)
  {
    assert Segmentation.Total(schedule, k, t, available, 0) == Some(t);
  }

  /** Bytes keep coming: the request is accepted, and with nothing after it exactly if a cut falls at its end. */
  lemma {:induction false} ReplayUpTo(schedule: nat -> Arrival, k: nat, t: nat, available: nat, m: nat)
    requires t < m <= available && m <= LIMIT + 1
    requires forall i :: k <= i ==> schedule(i).Bytes?
    ensures var v := Segmentation.Replay(schedule, k, t, available, Some(m));
            && v.Accepted? && m <= v.len <= available
            && (v.len == m <==> EndsOnCut(schedule, k, t, available, m))
    decreases LIMIT - t
  {
    var c := Cut(t, schedule(k).n, available);
    EndsOnLaterCut(schedule, k, t, available, m);
    if c < m {
      ReplayUpTo(schedule, k + 1, c, available, m);
    } else if c == m {
      CutHere(schedule, k + 1, c, available);
    } else {
      NoCutBefore(schedule, k + 1, c, available, m);
    }
  }

  /** What follows a request does not change where it ends. */
  lemma LeastOfFirst(text: string, rest: string)
    requires LeastLength(text) == Some(|text|)
    ensures LeastLength(text + rest) == Some(|text|)
  {
    var all := text + rest;
    assert text[..|text|] == text && all[..|text|] == text;
    CompleteIffPastLeast(text, |text|);
    CompleteIffPastLeast(all, |text|);
    var v := LeastLength(all).value;
    assert all[..v] == text[..v] && all[..|all|] == all;
    CompleteIffPastLeast(all, v);
    CompleteIffPastLeast(text, v);
  }

  lemma OneRequest(text: string, rest: string, schedule: nat -> Arrival, k: nat)
    requires IsWhole(text) && forall i :: k <= i ==> schedule(i).Bytes?
    ensures var v := Outcome(text + rest, schedule, k, 0);
            && v.Accepted? && |text| <= v.len
            && (v.len == |text| <==> EndsOnCut(schedule, k, 0, |text + rest|, |text|))
  {
    LeastOfFirst(text, rest);
    Segmentation.OutcomeIsReplay(text + rest, schedule, k, 0);
    ReplayUpTo(schedule, k, 0, |text + rest|, |text|);
  }

  // ---------- a session ----------

  ghost predicate Carries(stream: string, schedule: nat -> Arrival, texts: seq<string>) {
    && stream == Flatten(texts) && (forall i :: 0 <= i < |texts| ==> IsRequest(texts[i]))
    && forall i :: schedule(i).Bytes?
  }

  /** The k-th text that was handed over is the k-th request. */
  ghost predicate HandsOver(session: seq<Connection.Exchange>, stream: string, schedule: nat -> Arrival,
                            texts: seq<string>)
    requires |session| <= |texts|
  {
    forall i :: 0 <= i < |session| ==> IsHandedOver(session[i], stream, schedule, texts[i])
  }

  ghost predicate IsHandedOver(x: Connection.Exchange, stream: string, schedule: nat -> Arrival, text: string) {
    x.at.start <= |stream| && Connection.Text(x.at, stream, schedule) == text
  }

  /** While a request was received, one of the cuts fell at its end. */
  ghost predicate CutsAtEnds(session: seq<Connection.Exchange>, stream: string, schedule: nat -> Arrival,
                             texts: seq<string>)
    requires |session| <= |texts|
  {
    forall i :: 0 <= i < |session| ==> CutsAtEnd(session[i], stream, schedule, texts[i])
  }

  ghost predicate CutsAtEnd(x: Connection.Exchange, stream: string, schedule: nat -> Arrival, text: string) {
    x.at.start <= |stream| && EndsOnCut(schedule, x.at.recvs, 0, |stream| - x.at.start, |text|)
  }

  /** No reply closed the connection. */
  ghost predicate NoneCloses(session: seq<Connection.Exchange>) {
    forall i :: 0 <= i < |session| ==> Connection.Leaves(session[i].reply)
  }

  /** The next exchange starts where this is left of the stream, on an open connection. */
  ghost predicate InStep(at: Connection.Point, stream: string, left: string) {
    at.start <= |stream| && stream[at.start..] == left && at.open && at.goesOn
  }

  lemma OneHeard(text: string, rest: string, schedule: nat -> Arrival, k: nat, left: string) returns (v: Verdict)
    requires left == text + rest && IsWhole(text) && forall i :: schedule(i).Bytes?
    ensures v == Outcome(left, schedule, k, 0) && v.Accepted? && |text| <= v.len <= |left|
    ensures (v.len == |text|) == EndsOnCut(schedule, k, 0, |left|, |text|)
  {
    OneRequest(text, rest, schedule, k);
    v := Outcome(left, schedule, k, 0);
  }

  lemma HeardThere(at: Connection.Point, stream: string, schedule: nat -> Arrival, v: Verdict)
    requires at.start <= |stream| && at.open && v == Outcome(stream[at.start..], schedule, at.recvs, 0)
    ensures Connection.Heard(at, stream, schedule) == v
  {
  }

  /** One exchange that starts in step receives the request, and with nothing after it exactly if a cut ends it. */
  lemma ReceivedInStep(at: Connection.Point, stream: string, schedule: nat -> Arrival, text: string, rest: string)
    returns (len: nat, taken: string)
    requires InStep(at, stream, text + rest) && IsWhole(text) && Free(stream, '\0')
    requires forall i :: schedule(i).Bytes?
    ensures |text| <= len <= |text + rest| && Connection.Heard(at, stream, schedule) == Accepted(len)
    ensures at.start <= |stream| && taken == Connection.Text(at, stream, schedule) && taken == (text + rest)[..len]
    ensures (len == |text|) == EndsOnCut(schedule, at.recvs, 0, |stream| - at.start, |text|)
  {
    var v := OneHeard(text, rest, schedule, at.recvs, stream[at.start..]);
    HeardThere(at, stream, schedule, v);
    len := v.len;
    HeardIs(at, stream, schedule, len);
    taken := Connection.Text(at, stream, schedule);
  }

  lemma HeardIs(at: Connection.Point, stream: string, schedule: nat -> Arrival, len: nat)
    requires at.start <= |stream| && Connection.Heard(at, stream, schedule) == Accepted(len) && Free(stream, '\0')
    ensures Connection.Text(at, stream, schedule) == stream[at.start..][..len]
  {
    CStrOfClean(stream[at.start..][..len]);
  }

  /** How much was taken off the stream, and whether that was the request alone. */
  lemma Taken(text: string, rest: string, len: nat)
    requires |text| <= len <= |text + rest|
    ensures (text + rest)[..len] == text + rest[..len - |text|]
    ensures (text + rest)[..len] == text <==> len == |text|
    ensures (text + rest)[|text|..] == rest
  {
    var taken := (text + rest)[..len];
    assert |taken| == len;
    assert taken == text + rest[..len - |text|];
  }

  lemma HandedOverIff(x: Connection.Exchange, stream: string, schedule: nat -> Arrival, text: string, rest: string)
    requires InStep(x.at, stream, text + rest) && IsWhole(text) && Free(stream, '\0')
    requires forall i :: schedule(i).Bytes?
    ensures IsHandedOver(x, stream, schedule, text) == CutsAtEnd(x, stream, schedule, text)
  {
    var len, taken := ReceivedInStep(x.at, stream, schedule, text, rest);
    Taken(text, rest, len);
  }

  lemma EndedByCut(at: Connection.Point, stream: string, schedule: nat -> Arrival, text: string, rest: string)
    requires InStep(at, stream, text + rest) && IsWhole(text) && Free(stream, '\0')
    requires (forall i :: schedule(i).Bytes?) && EndsOnCut(schedule, at.recvs, 0, |stream| - at.start, |text|)
    ensures Connection.Heard(at, stream, schedule) == Accepted(|text|) && Connection.Text(at, stream, schedule) == text
    ensures stream[at.start + |text|..] == rest
  {
    var len, taken := ReceivedInStep(at, stream, schedule, text, rest);
    Taken(text, rest, len);
    DropTwice(stream, at.start, |text|);
  }

  lemma DropTwice(stream: string, a: nat, b: nat)
    requires a + b <= |stream|
    ensures stream[a..][b..] == stream[a + b..]
  {
  }

  lemma NextInStep(x: Connection.Exchange, stream: string, schedule: nat -> Arrival, text: string, rest: string)
    requires x.at.start <= |stream| && x.at.open && Connection.Heard(x.at, stream, schedule) == Accepted(|text|)
    requires Connection.Text(x.at, stream, schedule) == text && stream[x.at.start + |text|..] == rest
    requires Connection.StaysOpen(text, x.reply) == Connection.Continues(text) == true
    ensures InStep(Connection.After(x, stream, schedule), stream, rest) == true
  {
    AfterIs(x, stream, schedule, text, |text|);
  }

  lemma AfterIs(x: Connection.Exchange, stream: string, schedule: nat -> Arrival, text: string, len: nat)
    requires x.at.start <= |stream| && Connection.Text(x.at, stream, schedule) == text
    requires Connection.Heard(x.at, stream, schedule) == Accepted(len)
    ensures var p := Connection.After(x, stream, schedule);
            && p.start == x.at.start + len
            && p.open == (x.at.open && Connection.StaysOpen(text, x.reply)) && p.goesOn == Connection.Continues(text)
  {
  }

  lemma NotClosed(text: string, files: Kernel.Files, reply: Connection.Reply)
    requires Connection.Answers(text, files, reply) == Connection.Continues(text) == true && Connection.Leaves(reply)
    ensures Connection.StaysOpen(text, reply) == true
  {
  }

  /** Without such a cut the request is handed over with a surplus: n more bytes of what follows. */
  lemma Straddled(at: Connection.Point, stream: string, schedule: nat -> Arrival, text: string, rest: string)
    returns (n: nat)
    requires InStep(at, stream, text + rest) && IsWhole(text) && Free(stream, '\0')
    requires (forall i :: schedule(i).Bytes?) && !EndsOnCut(schedule, at.recvs, 0, |stream| - at.start, |text|)
    ensures 0 < n <= |rest| && Connection.Text(at, stream, schedule) == text + rest[..n]
  {
    var len, taken := ReceivedInStep(at, stream, schedule, text, rest);
    n := len - |text|;
    Taken(text, rest, len);
  }

  /**
   On a connection that carries a list of requests, while no reply closes it: every request so far was handed
   over as it was sent if and only if, for every one of them, a cut fell at its end.
   */
  lemma {:induction false} HandsOverIff(session: seq<Connection.Exchange>, stream: string, schedule: nat -> Arrival,
                                        files: Kernel.Files, texts: seq<string>)
    requires Carries(stream, schedule, texts) && |session| <= |texts| && NoneCloses(session)
    requires Connection.Reached(session, stream, schedule, files).Some?
    ensures HandsOver(session, stream, schedule, texts) == CutsAtEnds(session, stream, schedule, texts)
    ensures HandsOver(session, stream, schedule, texts) ==>
      InStep(Connection.Reached(session, stream, schedule, files).value, stream, Flatten(texts[|session|..]))
    decreases |session|
  {
    if session == [] {
      assert stream[0..] == stream && texts[0..] == texts;
    } else {
      var init := session[..|session| - 1];
      LastHandedOver(session, stream, schedule, texts);
      LastCutAtEnd(session, stream, schedule, texts);
      LastExchange(session, stream, schedule, files);
      HandsOverIff(init, stream, schedule, files, texts);
      if HandsOver(init, stream, schedule, texts) {
        LastInStep(session, stream, schedule, files, texts);
      }
    }
  }

  lemma LastInStep(session: seq<Connection.Exchange>, stream: string, schedule: nat -> Arrival, files: Kernel.Files,
                   texts: seq<string>)
    requires Carries(stream, schedule, texts) && 0 < |session| <= |texts|
    requires Connection.Reached(session, stream, schedule, files).Some?
    requires var x := session[|session| - 1];
             Connection.Leaves(x.reply) && InStep(x.at, stream, Flatten(texts[|session| - 1..]))
    ensures var n := |session| - 1;
            && IsHandedOver(session[n], stream, schedule, texts[n]) == CutsAtEnd(session[n], stream, schedule, texts[n])
            && (IsHandedOver(session[n], stream, schedule, texts[n]) ==>
                  var at := Connection.Reached(session, stream, schedule, files).value;
                  InStep(at, stream, Flatten(texts[|session|..])))
  {
    var n := |session| - 1;
    var x, text, rest := session[n], texts[n], Flatten(texts[n + 1..]);
    LastExchange(session, stream, schedule, files);
    FlattenStep(texts, n);
    FlattenFree(texts);
    HandedOverIff(x, stream, schedule, text, rest);
    if CutsAtEnd(x, stream, schedule, text) {
      EndedByCut(x.at, stream, schedule, text, rest);
      NotClosed(text, files, x.reply);
      NextInStep(x, stream, schedule, text, rest);
    }
  }

  lemma FlattenStep(texts: seq<string>, k: nat)
    requires k < |texts|
    ensures Flatten(texts[k..]) == texts[k] + Flatten(texts[k + 1..])
  {
    assert texts[k..][0] == texts[k] && texts[k..][1..] == texts[k + 1..];
  }

  lemma LastExchange(session: seq<Connection.Exchange>, stream: string, schedule: nat -> Arrival, files: Kernel.Files)
    requires session != [] && Connection.Reached(session, stream, schedule, files).Some?
    ensures var x := session[|session| - 1];
            && Connection.Reached(session[..|session| - 1], stream, schedule, files) == Some(x.at)
            && x.at.start <= |stream|
            && Connection.Answers(Connection.Text(x.at, stream, schedule), files, x.reply) == true
            && Connection.Reached(session, stream, schedule, files) == Some(Connection.After(x, stream, schedule))
  {
  }

  lemma LastHandedOver(session: seq<Connection.Exchange>, stream: string, schedule: nat -> Arrival, texts: seq<string>)
    requires session != [] && |session| <= |texts|
    ensures var n := |session| - 1;
            HandsOver(session, stream, schedule, texts)
            == (HandsOver(session[..n], stream, schedule, texts)
                && IsHandedOver(session[n], stream, schedule, texts[n]))
  {
    var init := session[..|session| - 1];
    assert forall i :: 0 <= i < |init| ==> init[i] == session[i];
  }

  lemma LastCutAtEnd(session: seq<Connection.Exchange>, stream: string, schedule: nat -> Arrival, texts: seq<string>)
    requires session != [] && |session| <= |texts|
    ensures var n := |session| - 1;
            CutsAtEnds(session, stream, schedule, texts)
            == (CutsAtEnds(session[..n], stream, schedule, texts) && CutsAtEnd(session[n], stream, schedule, texts[n]))
  {
    var init := session[..|session| - 1];
    assert forall i :: 0 <= i < |init| ==> init[i] == session[i];
  }

  lemma {:induction false} FlattenFree(texts: seq<string>)
    requires forall i :: 0 <= i < |texts| ==> Free(texts[i], '\0')
    ensures Free(Flatten(texts), '\0')
    decreases texts
  {
    if texts != [] {
      FlattenFree(texts[1..]);
      FreeConcat(texts[0], Flatten(texts[1..]), '\0');
    }
  }

  // ---------- printed requests ----------

  /** A printed POST-like request that says keep-alive. */
  lemma PrintedWithBody(m: Message, c: nat, n: nat)
    requires OneLength(m.line, m.headers, c, n) && |m.body| == n && 0 < n && Free(m.body, '\0')
    requires EndToEnd.ExpectsBody(m.line.verb) && |Print(m)| <= LIMIT + 1 && SaysKeepAlive(m.headers)
    ensures IsRequest(Print(m))
  {
    EndToEnd.CompleteAtTheEnd(m, c, n);
    PrintedIsFree(m);
    PrintedContinues(m);
  }

  /** A printed request without a body, with one of the four methods, that says keep-alive. */
  lemma PrintedWithoutBody(m: Message)
    requires Printable(m) && m.body == "" && !EndToEnd.ExpectsBody(m.line.verb)
    requires |Print(m)| <= LIMIT + 1 && SaysKeepAlive(m.headers)
    ensures IsRequest(Print(m))
  {
    EndToEnd.HeadStandsAlone(m);
    EndToEnd.BodilessIff(m);
    WithBody(HeadOf(m), "");
    assert Print(m) == HeadOf(m) + "";
    PrintedIsFree(m);
    PrintedContinues(m);
  }

  lemma PrintedContinues(m: Message)
    requires Printable(m) && Free(m.body, '\0') && SaysKeepAlive(m.headers)
    ensures Connection.Continues(Print(m)) == true
  {
    PrintedIsFree(m);
    ParsePrinted(m);
    KeepsAliveIff(m.headers);
    EndToEnd.HeadStandsAlone(m);
    assert Print(m) == HeadOf(m) + m.body;
  }

  lemma PrintedIsFree(m: Message)
    requires Printable(m) && Free(m.body, '\0')
    ensures Free(Print(m), '\0') && CStr(Print(m)) == Print(m)
  {
    CutAtNul(m);
    assert Print(m) == HeadOf(m) + m.body;
    FreeConcat(HeadOf(m), m.body, '\0');
    CStrOfClean(Print(m));
  }

  /**
   What becomes of the surplus of a request that no cut ended: without a Content-Length header it is dropped,
   with one the request that was complete is refused.
   */
  lemma SurplusIsLost(m: Message, surplus: string)
    requires Printable(m) && Free(m.body, '\0') && surplus != "" && Free(surplus, '\0')
    ensures var p, got := Parse(Print(m) + surplus), GotBack(m.headers);
            var j := FirstSlot(got, LENGTH_NAME, 0);
            && (j == |got| ==> p.ret == 0 && p.body == None)
            && (j < |got| && SaysLength(got[j].value, |m.body|) ==> p.ret == -1)
  {
    var longer := m.(body := m.body + surplus);
    assert Print(m) + surplus == Print(longer);
    FreeConcat(m.body, surplus, '\0');
    PrintedIsFree(longer);
    CStrOfClean(longer.body);
    ParsePrinted(longer);
  }

  // ---------- the end of a session ----------

  /** A printed request that is plain text and asks for no WebSocket. */
  ghost predicate PlainRequest(m: Message) {
    && Printable(m) && Free(m.line.verb, ':') && Detection.LooksLikeText(CStr(Print(m)))
    && forall j :: 0 <= j < |m.headers| ==> !Detection.MarksHandshake(m.headers[j])
  }

  /** After it the loop goes on exactly if its first Connection header says keep-alive. */
  lemma ContinuesIff(m: Message)
    requires PlainRequest(m)
    ensures Connection.IsHttp(CStr(Print(m)))
    ensures Connection.Continues(CStr(Print(m))) <==> SaysKeepAlive(m.headers)
  {
    Detection.DetectPrinted(m);
    Detection.FirstLineOf(m);
    ParsePrinted(m);
    KeepsAliveIff(m.headers);
  }

  /** A WebSocket handshake is only read: no reply, an open connection stays open, and the loop goes on. */
  lemma HandshakeIsOnlyRead(m: Message, files: Kernel.Files, reply: Connection.Reply, j: nat)
    requires Printable(m) && Free(m.line.verb, ':') && Detection.LooksLikeText(CStr(Print(m)))
    requires |m.line.verb| + |m.line.path| + |m.line.version| + 2 < 1024
    requires j < |m.headers| && Detection.MarksHandshake(m.headers[j])
    ensures Connection.Continues(CStr(Print(m))) && Connection.StaysOpen(CStr(Print(m)), reply)
    ensures Connection.Answers(CStr(Print(m)), files, reply) <==> reply == Connection.Nothing
  {
    Detection.DetectPrinted(m);
    Detection.FirstLineOf(m);
  }

  /** Without keep-alive it is the last request of its session, and the connection is closed. */
  lemma CloseEndsSession(session: seq<Connection.Exchange>, stream: string, schedule: nat -> Arrival,
                         files: Kernel.Files, i: nat, m: Message)
    requires Connection.Reached(session, stream, schedule, files).Some? && i < |session|
    requires session[i].at.start <= |stream| && PlainRequest(m) && !SaysKeepAlive(m.headers)
    requires Connection.Text(session[i].at, stream, schedule) == CStr(Print(m))
    ensures i == |session| - 1
    ensures var end := Connection.Reached(session, stream, schedule, files).value; !end.goesOn && !end.open
  {
    ContinuesIff(m);
    LastExchange(session, stream, schedule, files);
    ParsePrinted(m);
    KeepsAliveIff(m.headers);
    if i < |session| - 1 {
      NotLast(session, stream, schedule, files, i);
      assert false;
    }
  }

  /** The exchanges but the last one: where they lead, the last one starts, and the loop went on. */
  lemma AllButLast(session: seq<Connection.Exchange>, stream: string, schedule: nat -> Arrival, files: Kernel.Files)
    requires session != [] && Connection.Reached(session, stream, schedule, files).Some?
    ensures var x := session[|session| - 1];
            Connection.Reached(session[..|session| - 1], stream, schedule, files) == Some(x.at) && x.at.goesOn
  {
  }

  /** After an exchange that is not the last one the loop went on. */
  lemma {:induction false} NotLast(session: seq<Connection.Exchange>, stream: string, schedule: nat -> Arrival,
                                   files: Kernel.Files, i: nat)
    requires Connection.Reached(session, stream, schedule, files).Some? && i + 1 < |session|
    ensures session[i].at.start <= |stream|
    ensures Connection.Continues(Connection.Text(session[i].at, stream, schedule)) == true
    decreases |session|
  {
    var init := session[..|session| - 1];
    AllButLast(session, stream, schedule, files);
    assert init[i] == session[i];
    if i + 1 < |init| {
      NotLast(init, stream, schedule, files, i);
    } else {
      WentOn(init, session[|session| - 1].at, stream, schedule, files);
    }
  }

  lemma WentOn(session: seq<Connection.Exchange>, at: Connection.Point, stream: string, schedule: nat -> Arrival,
               files: Kernel.Files)
    requires session != [] && Connection.Reached(session, stream, schedule, files) == Some(at) && at.goesOn
    ensures var x := session[|session| - 1];
            x.at.start <= |stream| && Connection.Continues(Connection.Text(x.at, stream, schedule)) == true
  {
    LastExchange(session, stream, schedule, files);
  }
}
