/**
 One connection from accept to close: `handleOneClientRequest` of server.c with the handlers of
 protocol/http/http.c.  The socket is closed in many places, some of them one after another; what makes
 that harmless is the order of calls, which is watched here.
 */
module Connection {
  import opened CStrings
  import opened Framing
  import opened HttpRequest
  import opened Receive
  import Kernel
  import Protocol

  // ---------- the discipline ----------

  datatype Watch = Alive | Dead | Bad

  /** One call, seen from the connection `conn`. */
  function Step(w: Watch, call: Kernel.Call, conn: int): Watch {
    match w
    case Bad => Bad
    case Alive =>
      (match call
       case Opened(fd) => if fd == conn then Bad else Alive
       case Closed(fd, hit) => if fd != conn then Alive else if hit then Dead else Bad
       case _ => Alive)
    case Dead =>
      (match call
       case Closed(fd, hit) => if fd == conn && hit then Bad else Dead
       case _ => Bad)
  }

  /** The calls from number `from` on. */
  ghost function Watched(calls: seq<Kernel.Call>, from: nat, conn: int): Watch
    decreases |calls|
  {
    if |calls| <= from then Alive
    else Step(Watched(calls[..|calls| - 1], from, conn), calls[|calls| - 1], conn)
  }

  lemma WatchedNext(calls: seq<Kernel.Call>, call: Kernel.Call, from: nat, conn: int)
    requires from <= |calls|
    ensures Watched(calls + [call], from, conn) == Step(Watched(calls, from, conn), call, conn)
  {
    assert (calls + [call])[..|calls|] == calls;
  }

  ghost predicate IsClose(call: Kernel.Call, conn: int) { call.Closed? && call.fd == conn }

  /**
   What a watch that ends in Dead means: one close of the connection hits it; before that close nothing
   is opened under its number, after it nothing is opened, parsed or sent, and every further close of
   that number hits no descriptor at all.
   */
  lemma {:induction false} DeadMeans(calls: seq<Kernel.Call>, from: nat, conn: int) returns (f: nat)
    requires from <= |calls| && Watched(calls, from, conn) == Dead
    ensures from <= f < |calls| && calls[f] == Kernel.Closed(conn, true)
    ensures forall i :: from <= i < f ==> !IsClose(calls[i], conn) && calls[i] != Kernel.Opened(conn)
    ensures forall i :: f < i < |calls| ==>
      calls[i].Closed? && (calls[i].fd == conn ==> !calls[i].hit)
    decreases |calls|
  {
    var init, last := calls[..|calls| - 1], calls[|calls| - 1];
    if Watched(init, from, conn) == Alive {
      f := |calls| - 1;
      AliveMeans(init, from, conn);
    } else {
      f := DeadMeans(init, from, conn);
    }
  }

  lemma {:induction false} AliveMeans(calls: seq<Kernel.Call>, from: nat, conn: int)
    requires from <= |calls| && Watched(calls, from, conn) == Alive
    ensures forall i :: from <= i < |calls| ==> !IsClose(calls[i], conn) && calls[i] != Kernel.Opened(conn)
    decreases |calls|
  {
    if |calls| > from { AliveMeans(calls[..|calls| - 1], from, conn); }
  }

  // ---------- replies ----------

  /** How a request is answered. */
  datatype Reply =
    | Nothing | BadRequest | NotFound | NotImplemented
    | FileSent(name: string) | HeaderFailed(name: string)

  /** The response headers that are sent: when the header of a file cannot be sent, a 404 is tried instead. */
  function Responses(conn: int, reply: Reply): seq<Kernel.Response> {
    match reply
    case Nothing => []
    case BadRequest => [Kernel.Response(conn, 400)]
    case NotFound => [Kernel.Response(conn, 404)]
    case NotImplemented => [Kernel.Response(conn, 501)]
    case FileSent(_) => [Kernel.Response(conn, 200)]
    case HeaderFailed(_) => [Kernel.Response(conn, 200), Kernel.Response(conn, 404)]
  }

  /** The files that are opened for it. */
  function OpenedFor(reply: Reply): seq<string> {
    if reply.FileSent? || reply.HeaderFailed? then [reply.name] else []
  }

  predicate IsGet(verb: string) { NCaseEq(verb, "GET", 3) }

  /** By the file system and the network, a GET can be answered in three ways; POST and HEAD get no answer. */
  predicate AllowedFor(line: RequestLine, files: Kernel.Files, reply: Reply) {
    if IsGet(line.verb) then FileReply(FileName(files.home, line.path), files, reply)
    else if NCaseEq(line.verb, "POST", 4) || NCaseEq(line.verb, "HEAD", 4) then reply == Nothing
    else reply == NotImplemented
  }

  /** The answer to a request for a file: only that one is opened, and only if it can be read. */
  predicate FileReply(name: string, files: Kernel.Files, reply: Reply) {
    reply == NotFound || (files.readable(name) && (reply == FileSent(name) || reply == HeaderFailed(name)))
  }

  /** The name that is opened for a path: the home directory in front, index.html written over a directory. */
  function FileName(home: string, path: string): string { home + Rewritten(path) }

  const INDEX: string := "index.html"

  /** `memcpy` to the second character of the path, wherever its last slash is. */
  function Rewritten(path: string): string {
    if path != "" && path[|path| - 1] == '/' then
      path[..1] + INDEX + if |path| > 1 + |INDEX| then path[1 + |INDEX|..] else ""
    else path
  }

  /**
   A path without a slash at its end names its own file; any path of up to 11 characters with one names the
   index of the home directory, not of the directory it names; a longer one keeps what is behind the index.
   */
  lemma FileNameIs(home: string, path: string)
    requires path != "" && path[0] == '/'
    ensures path[|path| - 1] != '/' ==> FileName(home, path) == home + path
    ensures path[|path| - 1] == '/' && |path| <= 11 ==> FileName(home, path) == home + "/index.html"
    ensures path == "/documentation/" ==> FileName(home, path) == home + "/index.htmlion/"
  {
    assert path[..1] == "/";
    if path == "/documentation/" { assert path[11..] == "ion/"; }
  }

  /**
   The path of a GET has a slash, and so has the name of a file that can be read a dot; without them the source
   follows a null pointer.
   */
  predicate Servable(line: RequestLine, files: Kernel.Files) { IsGet(line.verb) ==> Located(line.path, files) }

  predicate Located(path: string, files: Kernel.Files) { '/' in path && HasType(FileName(files.home, path), files) }

  predicate HasType(name: string, files: Kernel.Files) { files.readable(name) ==> '.' in name }

  predicate Allowed(p: Parsed, files: Kernel.Files, reply: Reply) {
    if p.ret < 0 then reply == BadRequest else AllowedFor(p.line, files, reply)
  }

  /** The replies that do not close the connection. */
  predicate Leaves(reply: Reply) { reply == Nothing || reply == NotImplemented || reply.FileSent? }

  predicate KeptOpen(p: Parsed, reply: Reply) { p.ret >= 0 && KeepsAlive(p.headers) && Leaves(reply) }

  /** What a reply comes down to: the status codes sent, the files opened, and whether the connection stays open. */
  ghost predicate AnsweredAs(p: Parsed, files: Kernel.Files, conn: int,
                             sent: seq<Kernel.Response>, names: seq<string>, open: bool)
  {
    var name := files.home + Rewritten(p.line.path);
    && (if p.ret < 0 then sent == [Kernel.Response(conn, 400)] && names == []
        else if NCaseEq(p.line.verb, "GET", 3) then
          if files.readable(name) && names != [] then
            names == [name] && (sent == [Kernel.Response(conn, 200)]
                                || sent == [Kernel.Response(conn, 200), Kernel.Response(conn, 404)])
          else sent == [Kernel.Response(conn, 404)] && names == []
        else if NCaseEq(p.line.verb, "POST", 4) || NCaseEq(p.line.verb, "HEAD", 4) then sent == [] && names == []
        else sent == [Kernel.Response(conn, 501)] && names == [])
    && open == (p.ret >= 0 && KeepsAlive(p.headers)
                && (sent == [] || sent == [Kernel.Response(conn, 200)] || sent == [Kernel.Response(conn, 501)]))
  }

  lemma ReplyMeans(p: Parsed, files: Kernel.Files, conn: int, reply: Reply)
    requires Allowed(p, files, reply)
    ensures AnsweredAs(p, files, conn, Responses(conn, reply), OpenedFor(reply), KeptOpen(p, reply))
  {
  }

  // ---------- the handlers ----------

  /** While the connection is handled: the watch says whether it is still open; other descriptors stay. */
  ghost predicate Tracked(kernel: Kernel.Descriptors, from: nat, conn: int, initial: set<int>)
    reads kernel
  {
    && from <= |kernel.calls|
    && Watched(kernel.calls, from, conn) == (if conn in kernel.open then Alive else Dead)
    && initial - {conn} <= kernel.open && conn in initial
  }

  /**
   What handling a request does: the response headers of the reply are sent; the connection may be
   closed; a file is left open exactly when its header could not be sent, on a connection that was
   closed for it; everything else stays as it was.
   */
  twostate predicate Handled(kernel: Kernel.Descriptors, conn: int, leaked: set<int>, reply: Reply)
    reads kernel
  {
    && Left(old(kernel.open), kernel.open, conn, leaked)
    && |leaked| == (if reply.HeaderFailed? then 1 else 0)
    && kernel.sent == old(kernel.sent) + Responses(conn, reply)
    && kernel.fetched == old(kernel.fetched) + OpenedFor(reply)
  }

  /** Only the connection was closed, only `leaked` was opened, and nothing if the connection stays open. */
  predicate Left(before: set<int>, after: set<int>, conn: int, leaked: set<int>) {
    after - {conn} == before - {conn} + leaked && leaked !! before && (conn in after ==> leaked == {})
  }

  lemma LeftClosed(before: set<int>, after: set<int>, conn: int)
    requires after == before - {conn} || after == before
    ensures Left(before, after, conn, {})
  {
  }

  lemma LeftFile(before: set<int>, after: set<int>, conn: int, file: int)
    requires file !in before && conn in before && after == before + {file} - {conn}
    ensures Left(before, after, conn, {file})
  {
  }

  lemma NoFile(fetched: seq<string>)
    ensures fetched + [] == fetched
  {
  }

  method CloseConnection(kernel: Kernel.Descriptors, conn: int, ghost from: nat, ghost initial: set<int>)
    requires Tracked(kernel, from, conn, initial)
    modifies kernel`open, kernel`calls
    ensures Tracked(kernel, from, conn, initial) && kernel.open == old(kernel.open) - {conn}
  {
    WatchedNext(kernel.calls, Kernel.Closed(conn, conn in kernel.open), from, conn);
    kernel.Close(conn);
  }

  /** A response header is sent on a connection that is still open. */
  method SendHeader(kernel: Kernel.Descriptors, conn: int, status: int, ghost from: nat, ghost initial: set<int>)
    returns (ok: bool)
    requires Tracked(kernel, from, conn, initial) && conn in kernel.open
    modifies kernel`calls, kernel`sent
    ensures Tracked(kernel, from, conn, initial) && kernel.sent == old(kernel.sent) + [Kernel.Response(conn, status)]
  {
    WatchedNext(kernel.calls, Kernel.Sent(Kernel.Response(conn, status)), from, conn);
    ok := kernel.Send(conn, status);
  }

  /** An error response, after which the connection is closed. */
  method Refuse(kernel: Kernel.Descriptors, conn: int, status: int, ghost from: nat, ghost initial: set<int>)
    requires Tracked(kernel, from, conn, initial) && conn in kernel.open
    modifies kernel`open, kernel`calls, kernel`sent
    ensures Tracked(kernel, from, conn, initial) && kernel.open == old(kernel.open) - {conn}
    ensures kernel.sent == old(kernel.sent) + [Kernel.Response(conn, status)]
  {
    var _ := SendHeader(kernel, conn, status, from, initial);
    CloseConnection(kernel, conn, from, initial);
  }

  /** A request that is refused: no file was opened for it. */
  method Decline(kernel: Kernel.Descriptors, conn: int, status: int, ghost reply: Reply,
                 ghost from: nat, ghost initial: set<int>)
    requires Tracked(kernel, from, conn, initial) && conn in kernel.open
    requires Responses(conn, reply) == [Kernel.Response(conn, status)] && OpenedFor(reply) == []
    modifies kernel`open, kernel`calls, kernel`sent
    ensures Tracked(kernel, from, conn, initial) && Handled(kernel, conn, {}, reply) && conn !in kernel.open
  {
    Refuse(kernel, conn, status, from, initial);
    NoFile(kernel.fetched);
  }

  method OpenFile(kernel: Kernel.Descriptors, conn: int, name: string, ghost from: nat, ghost initial: set<int>)
    returns (file: int)
    requires Tracked(kernel, from, conn, initial) && conn in kernel.open && kernel.files.readable(name)
    modifies kernel`open, kernel`calls, kernel`fetched
    ensures Tracked(kernel, from, conn, initial) && kernel.fetched == old(kernel.fetched) + [name]
    ensures file !in old(kernel.open) && kernel.open == old(kernel.open) + {file}
  {
    ghost var calls := kernel.calls;
    file := kernel.OpenFile(name);
    WatchedNext(calls, Kernel.Opened(file), from, conn);
  }

  method CloseFile(kernel: Kernel.Descriptors, file: int, conn: int, ghost from: nat, ghost initial: set<int>)
    requires Tracked(kernel, from, conn, initial) && conn in kernel.open && file in kernel.open && file !in initial
    modifies kernel`open, kernel`calls
    ensures Tracked(kernel, from, conn, initial)
    ensures kernel.open == old(kernel.open) - {file}
  {
    WatchedNext(kernel.calls, Kernel.Closed(file, true), from, conn);
    kernel.Close(file);
  }

  /** `sendStaticFile`; a file that cannot be read is answered with 404. */
  method SendStaticFile(kernel: Kernel.Descriptors, conn: int, name: string, ghost from: nat, ghost initial: set<int>)
    returns (ghost leaked: set<int>, ghost reply: Reply)
    requires Tracked(kernel, from, conn, initial) && conn in kernel.open && HasType(name, kernel.files)
    modifies kernel`open, kernel`calls, kernel`sent, kernel`fetched
    ensures Tracked(kernel, from, conn, initial) && Handled(kernel, conn, leaked, reply)
    ensures FileReply(name, kernel.files, reply) && (conn in kernel.open <==> Leaves(reply))
  {
    var free: bool := *;  // opening a file that can be read may still fail
    if !(free && kernel.files.readable(name)) {
      Decline(kernel, conn, 404, NotFound, from, initial);
      return {}, NotFound;
    }
    leaked, reply := SendOpenFile(kernel, conn, name, from, initial);
  }

  /** The file is opened and its header sent, successfully or not. */
  method StartFile(kernel: Kernel.Descriptors, conn: int, name: string, ghost from: nat, ghost initial: set<int>)
    returns (file: int, ok: bool)
    requires Tracked(kernel, from, conn, initial) && conn in kernel.open && kernel.files.readable(name)
    modifies kernel`open, kernel`calls, kernel`sent, kernel`fetched
    ensures Tracked(kernel, from, conn, initial) && kernel.fetched == old(kernel.fetched) + [name]
    ensures file !in old(kernel.open) && kernel.open == old(kernel.open) + {file}
    ensures kernel.sent == old(kernel.sent) + [Kernel.Response(conn, 200)]
  {
    file := OpenFile(kernel, conn, name, from, initial);
    ok := SendHeader(kernel, conn, 200, from, initial);
  }

  /** The rest of it, once the file could be opened: the file is not closed when sending the header fails. */
  method SendOpenFile(kernel: Kernel.Descriptors, conn: int, name: string, ghost from: nat, ghost initial: set<int>)
    returns (ghost leaked: set<int>, ghost reply: Reply)
    requires Tracked(kernel, from, conn, initial) && conn in kernel.open && kernel.files.readable(name)
    modifies kernel`open, kernel`calls, kernel`sent, kernel`fetched
    ensures Tracked(kernel, from, conn, initial) && Handled(kernel, conn, leaked, reply)
    ensures (reply == FileSent(name) && conn in kernel.open) || (reply == HeaderFailed(name) && conn !in kernel.open)
  {
    ghost var open := kernel.open;
    var file, sent := StartFile(kernel, conn, name, from, initial);
    if !sent {
      Refuse(kernel, conn, 404, from, initial);
      LeftFile(open, kernel.open, conn, file);
      return {file}, HeaderFailed(name);
    }
    CloseFile(kernel, file, conn, from, initial);
    LeftClosed(open, kernel.open, conn);
    return {}, FileSent(name);
  }

  /** `handleGetRequest`: it looks for the last slash of the path without asking whether there is one. */
  method HandleGetRequest(kernel: Kernel.Descriptors, conn: int, path: string, ghost from: nat, ghost initial: set<int>)
    returns (ghost leaked: set<int>, ghost reply: Reply)
    requires Tracked(kernel, from, conn, initial) && conn in kernel.open && Located(path, kernel.files)
    modifies kernel`open, kernel`calls, kernel`sent, kernel`fetched
    ensures Tracked(kernel, from, conn, initial) && Handled(kernel, conn, leaked, reply)
    ensures FileReply(FileName(kernel.files.home, path), kernel.files, reply)
    ensures conn in kernel.open <==> Leaves(reply)
  {
    var name := FileName(kernel.files.home, path);
    if !kernel.files.readable(name) {
      Decline(kernel, conn, 404, NotFound, from, initial);
      return {}, NotFound;
    }
    leaked, reply := SendStaticFile(kernel, conn, name, from, initial);
  }

  /** The choice by method. */
  method Dispatch(kernel: Kernel.Descriptors, conn: int, line: RequestLine, ghost from: nat, ghost initial: set<int>)
    returns (ghost leaked: set<int>, ghost reply: Reply)
    requires Tracked(kernel, from, conn, initial) && conn in kernel.open && Servable(line, kernel.files)
    modifies kernel`open, kernel`calls, kernel`sent, kernel`fetched
    ensures Tracked(kernel, from, conn, initial) && Handled(kernel, conn, leaked, reply)
    ensures AllowedFor(line, kernel.files, reply) && (conn in kernel.open <==> Leaves(reply))
  {
    if NCaseEq(line.verb, "GET", 3) {
      leaked, reply := HandleGetRequest(kernel, conn, line.path, from, initial);
    } else if NCaseEq(line.verb, "POST", 4) || NCaseEq(line.verb, "HEAD", 4) {
      NoFile(kernel.fetched);
      return {}, Nothing;  // the handlers of POST and HEAD are empty
    } else {
      var _ := SendHeader(kernel, conn, 501, from, initial);
      NoFile(kernel.fetched);
      return {}, NotImplemented;
    }
  }

  /** Steps 2 and 3, after a successful parse: answer, then close unless the request says keep-alive. */
  method Answer(kernel: Kernel.Descriptors, conn: int, req: Request, ghost from: nat, ghost initial: set<int>)
    returns (ghost leaked: set<int>, ghost reply: Reply)
    requires Tracked(kernel, from, conn, initial) && conn in kernel.open && req.h.Length == MAX_HEADERS
    requires Servable(req.line, kernel.files)
    modifies kernel`open, kernel`calls, kernel`sent, kernel`fetched
    ensures Tracked(kernel, from, conn, initial) && Handled(kernel, conn, leaked, reply)
    ensures AllowedFor(req.line, kernel.files, reply)
    ensures conn in kernel.open <==> Leaves(reply) && KeepsAlive(req.h[..])
  {
    leaked, reply := Dispatch(kernel, conn, req.line, from, initial);
    var close := ShouldCloseConnection(req);
    if close < 0 {
      CloseConnection(kernel, conn, from, initial);
    }
  }

  /** Handing the text to the parser. */
  method ParseReceived(kernel: Kernel.Descriptors, conn: int, req: Request, text: string,
                       ghost from: nat, ghost initial: set<int>)
    returns (ret: int)
    requires Tracked(kernel, from, conn, initial) && conn in kernel.open
    requires Free(text, '\0') && Fits(text) && req.Blank()
    modifies kernel`calls, kernel`parsed, req, req.h
    ensures Tracked(kernel, from, conn, initial)
    ensures kernel.parsed == old(kernel.parsed) + [Kernel.Reading(conn, text)]
    ensures req.Holds(Parse(text)) && ret == Parse(text).ret
  {
    WatchedNext(kernel.calls, Kernel.Parsed(Kernel.Reading(conn, text)), from, conn);
    kernel.NoteParsed(Kernel.Reading(conn, text));
    ret := ParseHttpRequest(text, req);
  }

  /** The text stays within what the parser and the handlers can take. */
  predicate Parsable(text: string, files: Kernel.Files) {
    Fits(text) && (Parse(text).ret >= 0 ==> Servable(Parse(text).line, files))
  }

  /** `handleHttpRequest`: the connection stays open only if the request parses and says keep-alive. */
  method HandleHttpRequest(kernel: Kernel.Descriptors, conn: int, req: Request, text: string,
                           ghost from: nat, ghost initial: set<int>)
    returns (ghost leaked: set<int>, ghost reply: Reply)
    requires Tracked(kernel, from, conn, initial) && conn in kernel.open
    requires Free(text, '\0') && Parsable(text, kernel.files) && req.Blank()
    modifies kernel`open, kernel`calls, kernel`parsed, kernel`sent, kernel`fetched, req, req.h
    ensures Tracked(kernel, from, conn, initial) && Handled(kernel, conn, leaked, reply)
    ensures req.Holds(Parse(text)) && Allowed(Parse(text), kernel.files, reply)
    ensures conn in kernel.open <==> KeptOpen(Parse(text), reply)
    ensures kernel.parsed == old(kernel.parsed) + [Kernel.Reading(conn, text)]
    ensures var sent, names := Responses(conn, reply), OpenedFor(reply);
            && kernel.sent == old(kernel.sent) + sent && kernel.fetched == old(kernel.fetched) + names
            && AnsweredAs(Parse(text), kernel.files, conn, sent, names, conn in kernel.open)
  {
    var ret := ParseReceived(kernel, conn, req, text, from, initial);
    if ret < 0 {
      Decline(kernel, conn, 400, BadRequest, from, initial);
      return {}, BadRequest;
    }
    leaked, reply := Answer(kernel, conn, req, from, initial);
    ReplyMeans(Parse(text), kernel.files, conn, reply);
  }

  // ---------- the keep-alive loop ----------

  /** What `strlen` and the parsers see of a received buffer. */
  lemma ReceivedText(req: array<char>, data: string)
    requires Holds(req, data)
    ensures CStr(req[..]) == CStr(data) && Free(CStr(data), '\0')
  {
    assert req[..] == data + ['\0'] + req[|data| + 1..];
    CStrStops(data, req[|data| + 1..]);
  }

  /** Where the loop stands before a turn, and whether there is one. */
  datatype Point = Point(start: nat, recvs: nat, open: bool, goesOn: bool)

  /** What `recvRequest` finds there; on a closed connection it fails. */
  ghost function Heard(at: Point, stream: string, schedule: nat -> Arrival): (v: Verdict)
    requires at.start <= |stream|
    ensures at.start + v.len <= |stream|
  {
    if at.open then Outcome(stream[at.start..], schedule, at.recvs, 0) else RecvFailed(0)
  }

  ghost function Calls(at: Point, stream: string, schedule: nat -> Arrival): nat
    requires at.start <= |stream|
  {
    if at.open then Recvs(stream[at.start..], schedule, at.recvs, 0) else 1
  }

  /** The text it hands over: a complete request, or what there was when the peer closed; "" if nothing. */
  ghost function Text(at: Point, stream: string, schedule: nat -> Arrival): string
    requires at.start <= |stream|
  {
    var v := Heard(at, stream, schedule);
    if v.Accepted? || v.PeerClosed? then CStr(stream[at.start..][..v.len]) else ""
  }

  predicate IsHttp(text: string) { text != "" && Protocol.Detect(text).kind == Protocol.Http }

  /** What is not HTTP is only read. */
  predicate Answers(text: string, files: Kernel.Files, reply: Reply) {
    if IsHttp(text) then Allowed(Parse(text), files, reply) else reply == Nothing
  }

  predicate StaysOpen(text: string, reply: Reply) { IsHttp(text) ==> KeptOpen(Parse(text), reply) }

  /** A request that does not say keep-alive is the last one. */
  predicate Continues(text: string) { text != "" && (IsHttp(text) ==> KeepsAlive(Parse(text).headers)) }

  /** One turn of the keep-alive loop: where it started, and how what was received there was answered. */
  datatype Exchange = Exchange(at: Point, reply: Reply)

  ghost predicate Sound(x: Exchange, stream: string, schedule: nat -> Arrival, files: Kernel.Files) {
    x.at.start <= |stream| && Answers(Text(x.at, stream, schedule), files, x.reply)
  }

  ghost function After(x: Exchange, stream: string, schedule: nat -> Arrival): Point
    requires x.at.start <= |stream|
  {
    var text := Text(x.at, stream, schedule);
    Point(x.at.start + Heard(x.at, stream, schedule).len, x.at.recvs + Calls(x.at, stream, schedule),
          x.at.open && StaysOpen(text, x.reply), Continues(text))
  }

  /** Where a sound turn leads. */
  ghost function Follow(x: Exchange, stream: string, schedule: nat -> Arrival, files: Kernel.Files): Option<Point> {
    if Sound(x, stream, schedule, files) then Some(After(x, stream, schedule)) else None
  }

  /** Where the turns of a session lead, each starting where the one before it ended; None if they do not fit. */
  ghost function Reached(session: seq<Exchange>, stream: string, schedule: nat -> Arrival, files: Kernel.Files)
    : Option<Point>
  {
    if session == [] then Some(Point(0, 0, true, true))
    else
      var x := session[|session| - 1];
      if Reached(session[..|session| - 1], stream, schedule, files) == Some(x.at) && x.at.goesOn
      then Follow(x, stream, schedule, files) else None
  }

  lemma ReachedNext(session: seq<Exchange>, x: Exchange, stream: string, schedule: nat -> Arrival,
                    files: Kernel.Files)
    requires Reached(session, stream, schedule, files) == Some(x.at) && x.at.goesOn
    ensures Reached(session + [x], stream, schedule, files) == Follow(x, stream, schedule, files)
  {
    assert (session + [x])[..|session|] == session;
  }

  /** What is received there, if it is HTTP, is within what the parser and the handlers can take. */
  ghost predicate Takes(at: Point, stream: string, schedule: nat -> Arrival, files: Kernel.Files)
    requires at.start <= |stream|
  {
    IsHttp(Text(at, stream, schedule)) ==> Parsable(Text(at, stream, schedule), files)
  }

  /** So is everything that any session on this connection receives. */
  ghost predicate WellSized(stream: string, schedule: nat -> Arrival, files: Kernel.Files) {
    forall session :: TakesAfter(session, stream, schedule, files)
  }

  ghost predicate TakesAfter(session: seq<Exchange>, stream: string, schedule: nat -> Arrival, files: Kernel.Files) {
    var at := Reached(session, stream, schedule, files);
    at.Some? && at.value.goesOn && at.value.start <= |stream| ==> Takes(at.value, stream, schedule, files)
  }

  /** Only HTTP is handed to the request parser. */
  function ParsedBy(conn: int, text: string): seq<Kernel.Reading> {
    if IsHttp(text) then [Kernel.Reading(conn, text)] else []
  }

  /** What is handed to the parser in a session. */
  ghost function AllParsed(conn: int, session: seq<Exchange>, stream: string, schedule: nat -> Arrival)
    : seq<Kernel.Reading>
  {
    if session == [] then []
    else
      var x := session[|session| - 1];
      AllParsed(conn, session[..|session| - 1], stream, schedule)
      + if x.at.start <= |stream| then ParsedBy(conn, Text(x.at, stream, schedule)) else []
  }

  lemma ParsedNext(conn: int, session: seq<Exchange>, x: Exchange, stream: string, schedule: nat -> Arrival,
                   earlier: seq<Kernel.Reading>)
    requires x.at.start <= |stream|
    ensures earlier + AllParsed(conn, session, stream, schedule) + ParsedBy(conn, Text(x.at, stream, schedule))
         == earlier + AllParsed(conn, session + [x], stream, schedule)
  {
    assert (session + [x])[..|session|] == session;
  }

  /** The response headers sent in a session. */
  function AllResponses(conn: int, session: seq<Exchange>): seq<Kernel.Response> {
    if session == [] then []
    else AllResponses(conn, session[..|session| - 1]) + Responses(conn, session[|session| - 1].reply)
  }

  lemma ResponsesNext(conn: int, session: seq<Exchange>, x: Exchange, earlier: seq<Kernel.Response>)
    ensures earlier + AllResponses(conn, session) + Responses(conn, x.reply)
         == earlier + AllResponses(conn, session + [x])
  {
    assert (session + [x])[..|session|] == session;
  }

  /** The files opened in a session. */
  function AllOpened(session: seq<Exchange>): seq<string> {
    if session == [] then [] else AllOpened(session[..|session| - 1]) + OpenedFor(session[|session| - 1].reply)
  }

  lemma OpenedNext(session: seq<Exchange>, x: Exchange, earlier: seq<string>)
    ensures earlier + AllOpened(session) + OpenedFor(x.reply) == earlier + AllOpened(session + [x])
  {
    assert (session + [x])[..|session|] == session;
  }

  lemma LastSound(session: seq<Exchange>, stream: string, schedule: nat -> Arrival, files: Kernel.Files)
    requires session != [] && Reached(session, stream, schedule, files).Some?
    ensures Sound(session[|session| - 1], stream, schedule, files) == true
    ensures Reached(session[..|session| - 1], stream, schedule, files).Some?
  {
  }

  lemma {:induction false} EachSound(session: seq<Exchange>, stream: string, schedule: nat -> Arrival,
                                     files: Kernel.Files, i: nat)
    requires Reached(session, stream, schedule, files).Some? && i < |session|
    ensures Sound(session[i], stream, schedule, files) == true
    decreases |session|
  {
    LastSound(session, stream, schedule, files);
    if i < |session| - 1 { EachSound(session[..|session| - 1], stream, schedule, files, i); }
  }

  /**
   Every request of a session is answered as it asks, and the connection then open or closed; what is not HTTP is
   not answered and changes nothing.
   */
  lemma EachAnswered(session: seq<Exchange>, stream: string, schedule: nat -> Arrival, files: Kernel.Files,
                     conn: int, i: nat)
    returns (text: string)
    requires Reached(session, stream, schedule, files).Some? && i < |session|
    ensures session[i].at.start <= |stream| && text == Text(session[i].at, stream, schedule)
    ensures var sent, names := Responses(conn, session[i].reply), OpenedFor(session[i].reply);
            var before, after := session[i].at.open, After(session[i], stream, schedule).open;
            if IsHttp(text) then before && AnsweredAs(Parse(text), files, conn, sent, names, after)
            else sent == [] && names == [] && after == before
  {
    EachSound(session, stream, schedule, files, i);
    text := Text(session[i].at, stream, schedule);
    AnswerMeans(text, files, conn, session[i].reply);
  }

  lemma AnswerMeans(text: string, files: Kernel.Files, conn: int, reply: Reply)
    requires Answers(text, files, reply)
    ensures var sent, names := Responses(conn, reply), OpenedFor(reply);
            if IsHttp(text) then AnsweredAs(Parse(text), files, conn, sent, names, StaysOpen(text, reply))
            else sent == [] && names == [] && StaysOpen(text, reply)
  {
    if IsHttp(text) { ReplyMeans(Parse(text), files, conn, reply); }
  }

  /** Once the connection is closed there is at most one more turn, which reads and answers nothing. */
  lemma {:induction false} ClosedIsLast(session: seq<Exchange>, stream: string, schedule: nat -> Arrival,
                                        files: Kernel.Files, i: nat)
    requires Reached(session, stream, schedule, files).Some? && i < |session| && !session[i].at.open
    ensures i == |session| - 1 && session[i].reply == Nothing
    ensures !Reached(session, stream, schedule, files).value.goesOn
    decreases |session|
  {
    var init := session[..|session| - 1];
    if i < |init| {
      assert init[i] == session[i];
      ClosedIsLast(init, stream, schedule, files, i);
      assert false;
    }
  }

  /** Detection, handling and the decision to go on, for a text that was received. */
  method Respond(kernel: Kernel.Descriptors, conn: int, request: Request, text: string,
                 ghost from: nat, ghost initial: set<int>)
    returns (keepAlive: bool, ghost leaked: set<int>, ghost reply: Reply)
    requires Tracked(kernel, from, conn, initial) && conn in kernel.open
    requires text != "" && Free(text, '\0') && (IsHttp(text) ==> Parsable(text, kernel.files)) && request.Blank()
    modifies kernel`open, kernel`calls, kernel`parsed, kernel`sent, kernel`fetched, request, request.h
    ensures Tracked(kernel, from, conn, initial) && Handled(kernel, conn, leaked, reply)
    ensures Answers(text, kernel.files, reply) && keepAlive == Continues(text)
    ensures conn in kernel.open <==> StaysOpen(text, reply)
    ensures kernel.parsed == old(kernel.parsed) + ParsedBy(conn, text)
  {
    leaked, reply, keepAlive := {}, Nothing, true;
    var info := Protocol.DetectProtocol(text);
    if info.info.kind == Protocol.WebSocket {
      // only logged
    } else if info.info.kind == Protocol.Http {
      leaked, reply := HandleHttpRequest(kernel, conn, request, text, from, initial);
      var close := ShouldCloseConnection(request);
      if close < 0 {
        keepAlive := false;
      }
    }
  }

  lemma TextHandedOver(req: array?<char>, at: Point, stream: string, schedule: nat -> Arrival, text: string)
    requires at.start <= |stream|
    requires var v := Heard(at, stream, schedule);
             && (req != null <==> v.Accepted? || v.PeerClosed?)
             && (req != null ==> Holds(req, stream[at.start..][..v.len]))
    requires text == if req == null then "" else CStr(req[..])
    ensures text == Text(at, stream, schedule) && Free(text, '\0')
    ensures text != "" ==> at.open && Heard(at, stream, schedule).len > 0
  {
    if req != null { ReceivedText(req, stream[at.start..][..Heard(at, stream, schedule).len]); }
  }

  /** `recvRequest`, and the text that it returned. */
  method ReceiveText(kernel: Kernel.Descriptors, wire: Wire) returns (text: string)
    requires wire.Valid()
    modifies wire
    ensures wire.Valid() && Free(text, '\0')
    ensures var at := Point(old(wire.delivered), old(wire.recvs), wire.conn in kernel.open, true);
            && text == Text(at, wire.stream, wire.schedule)
            && wire.delivered == at.start + Heard(at, wire.stream, wire.schedule).len
            && wire.recvs == at.recvs + Calls(at, wire.stream, wire.schedule)
    ensures text != "" ==> wire.conn in kernel.open && old(wire.delivered) < wire.delivered
  {
    ghost var at := Point(wire.delivered, wire.recvs, wire.conn in kernel.open, true);
    var req, _, _ := RecvRequest(kernel, wire);
    text := "";
    if req != null {
      text := CStr(req[..]);
    }
    TextHandedOver(req, at, wire.stream, wire.schedule, text);
  }

  lemma Silence(files: Kernel.Files)
    ensures Answers("", files, Nothing) && StaysOpen("", Nothing) && !Continues("")
  {
  }

  lemma TurnTaken(x: Exchange, stream: string, schedule: nat -> Arrival, files: Kernel.Files, text: string, now: Point)
    requires x.at.start <= |stream| && text == Text(x.at, stream, schedule)
    requires now.start == x.at.start + Heard(x.at, stream, schedule).len
    requires now.recvs == x.at.recvs + Calls(x.at, stream, schedule)
    requires Answers(text, files, x.reply) && now.goesOn == Continues(text)
    requires now.open == (x.at.open && StaysOpen(text, x.reply))
    ensures Follow(x, stream, schedule, files) == Some(now)
  {
    assert After(x, stream, schedule).open == now.open;
    assert After(x, stream, schedule) == now;
  }

  /** The body of the loop after a call of `recvRequest`: nothing is done without a text. */
  method RespondIfAny(kernel: Kernel.Descriptors, conn: int, request: Request, text: string,
                      ghost from: nat, ghost initial: set<int>)
    returns (keepAlive: bool, ghost leaked: set<int>, ghost reply: Reply)
    requires Tracked(kernel, from, conn, initial) && (text != "" ==> conn in kernel.open)
    requires Free(text, '\0') && (IsHttp(text) ==> Parsable(text, kernel.files)) && request.Blank()
    modifies kernel`open, kernel`calls, kernel`parsed, kernel`sent, kernel`fetched, request, request.h
    ensures Tracked(kernel, from, conn, initial) && Handled(kernel, conn, leaked, reply)
    ensures Answers(text, kernel.files, reply) && keepAlive == Continues(text)
    ensures kernel.parsed == old(kernel.parsed) + ParsedBy(conn, text)
    ensures conn in kernel.open <==> conn in old(kernel.open) && StaysOpen(text, reply)
  {
    keepAlive, leaked, reply := false, {}, Nothing;
    if |text| > 0 {
      keepAlive, leaked, reply := Respond(kernel, conn, request, text, from, initial);
    } else {
      LeftClosed(kernel.open, kernel.open, conn);
      Silence(kernel.files);
    }
  }

  /** One turn of the loop. */
  method ServeNext(kernel: Kernel.Descriptors, wire: Wire, ghost from: nat, ghost initial: set<int>)
    returns (keepAlive: bool, ghost x: Exchange, ghost leaked: set<int>)
    requires wire.Valid() && Tracked(kernel, from, wire.conn, initial)
    requires Takes(Point(wire.delivered, wire.recvs, wire.conn in kernel.open, true),
                   wire.stream, wire.schedule, kernel.files)
    modifies kernel`open, kernel`calls, kernel`parsed, kernel`sent, kernel`fetched, wire
    ensures wire.Valid() && Tracked(kernel, from, wire.conn, initial)
    ensures x.at == Point(old(wire.delivered), old(wire.recvs), old(wire.conn in kernel.open), true)
    ensures Follow(x, wire.stream, wire.schedule, kernel.files)
         == Some(Point(wire.delivered, wire.recvs, wire.conn in kernel.open, keepAlive))
    ensures Handled(kernel, wire.conn, leaked, x.reply)
    ensures kernel.parsed
         == old(kernel.parsed) + ParsedBy(wire.conn, Text(x.at, wire.stream, wire.schedule))
    ensures keepAlive ==> wire.delivered > old(wire.delivered)
  {
    var request := new Request();
    ghost var at := Point(wire.delivered, wire.recvs, wire.conn in kernel.open, true);
    ghost var reply: Reply;
    var text := ReceiveText(kernel, wire);
    keepAlive, leaked, reply := RespondIfAny(kernel, wire.conn, request, text, from, initial);
    x := Exchange(at, reply);
    TurnTaken(x, wire.stream, wire.schedule, kernel.files, text,
              Point(wire.delivered, wire.recvs, wire.conn in kernel.open, keepAlive));
  }

  /** Two stretches of handling make one: after a file was left open there is only a turn on a closed connection. */
  lemma LeftTwice(a: set<int>, b: set<int>, c: set<int>, conn: int, leaked: set<int>, more: set<int>)
    requires Left(a, b, conn, leaked) && Left(b, c, conn, more) && conn in a
    requires conn in b || (more == {} && conn !in c)
    ensures Left(a, c, conn, leaked + more) && (leaked == {} || more == {})
  {
  }

  /** In some exchange a file was opened whose header could not be sent. */
  ghost predicate AnyFailed(session: seq<Exchange>) {
    exists i :: 0 <= i < |session| && session[i].reply.HeaderFailed?
  }

  lemma AnyFailedNext(session: seq<Exchange>, x: Exchange)
    ensures AnyFailed(session + [x]) == (AnyFailed(session) || x.reply.HeaderFailed?)
  {
    var longer := session + [x];
    assert longer[|session|] == x && forall i :: 0 <= i < |session| ==> longer[i] == session[i];
  }

  /** What was sent and parsed before. */
  datatype Earlier = Earlier(sent: seq<Kernel.Response>, parsed: seq<Kernel.Reading>, fetched: seq<string>)

  /** Between two turns: the session so far, and what it left behind. */
  ghost predicate Standing(kernel: Kernel.Descriptors, wire: Wire, from: nat, initial: set<int>, leaked: set<int>,
                           session: seq<Exchange>, earlier: Earlier, goesOn: bool)
    reads kernel, wire
  {
    && wire.Valid() && Tracked(kernel, from, wire.conn, initial)
    && Left(initial, kernel.open, wire.conn, leaked) && |leaked| == (if AnyFailed(session) then 1 else 0)
    && Reached(session, wire.stream, wire.schedule, kernel.files)
       == Some(Point(wire.delivered, wire.recvs, wire.conn in kernel.open, goesOn))
    && kernel.sent == earlier.sent + AllResponses(wire.conn, session)
    && kernel.parsed == earlier.parsed + AllParsed(wire.conn, session, wire.stream, wire.schedule)
    && kernel.fetched == earlier.fetched + AllOpened(session)
  }

  method ExtendSession(kernel: Kernel.Descriptors, wire: Wire, ghost from: nat, ghost initial: set<int>,
                       ghost before: set<int>, ghost session: seq<Exchange>, ghost earlier: Earlier)
    returns (keepAlive: bool, ghost leaked: set<int>, ghost longer: seq<Exchange>)
    requires WellSized(wire.stream, wire.schedule, kernel.files)
    requires Standing(kernel, wire, from, initial, before, session, earlier, true)
    modifies kernel`open, kernel`calls, kernel`parsed, kernel`sent, kernel`fetched, wire
    ensures Standing(kernel, wire, from, initial, leaked, longer, earlier, keepAlive)
    ensures keepAlive ==> wire.delivered > old(wire.delivered)
  {
    ghost var open := kernel.open;
    ghost var x: Exchange, more: set<int>;
    assert TakesAfter(session, wire.stream, wire.schedule, kernel.files);
    keepAlive, x, more := ServeNext(kernel, wire, from, initial);
    LeftTwice(initial, open, kernel.open, wire.conn, before, more);
    ReachedNext(session, x, wire.stream, wire.schedule, kernel.files);
    AnyFailedNext(session, x);
    ResponsesNext(wire.conn, session, x, earlier.sent);
    OpenedNext(session, x, earlier.fetched);
    ParsedNext(wire.conn, session, x, wire.stream, wire.schedule, earlier.parsed);
    leaked, longer := before + more, session + [x];
  }

  /** The keep-alive loop. */
  method ServeAll(kernel: Kernel.Descriptors, wire: Wire, ghost from: nat, ghost initial: set<int>)
    returns (ghost leaked: set<int>, ghost session: seq<Exchange>)
    requires WellSized(wire.stream, wire.schedule, kernel.files)
    requires Standing(kernel, wire, from, initial, {}, [], Earlier(kernel.sent, kernel.parsed, kernel.fetched), true)
    modifies kernel`open, kernel`calls, kernel`parsed, kernel`sent, kernel`fetched, wire
    ensures Standing(kernel, wire, from, initial, leaked, session,
                     old(Earlier(kernel.sent, kernel.parsed, kernel.fetched)), false)
  {
    ghost var earlier := Earlier(kernel.sent, kernel.parsed, kernel.fetched);
    leaked, session := {}, [];
    var keepAlive := true;
    while keepAlive
      invariant Standing(kernel, wire, from, initial, leaked, session, earlier, keepAlive)
      decreases keepAlive, |wire.stream| - wire.delivered
    {
      keepAlive, leaked, session := ExtendSession(kernel, wire, from, initial, leaked, session, earlier);
    }
  }

  /**
   Serves the connection until it is done.  The session is followed to its end, what is parsed and what is sent
   are what its exchanges say, and the connection is closed; one file is left open exactly if in some exchange
   the header of a file could not be sent.
   */
  method HandleOneClientRequest(kernel: Kernel.Descriptors, conn: int, stream: string, schedule: nat -> Arrival)
    returns (ghost leaked: set<int>, ghost session: seq<Exchange>, ghost end: Point)
    requires conn in kernel.open && WellSized(stream, schedule, kernel.files)
    modifies kernel`open, kernel`calls, kernel`begun, kernel`parsed, kernel`sent, kernel`fetched
    ensures conn !in kernel.open
    ensures kernel.open == old(kernel.open) - {conn} + leaked && leaked !! old(kernel.open)
    ensures |leaked| == if AnyFailed(session) then 1 else 0
    ensures |old(kernel.calls)| <= |kernel.calls| && Watched(kernel.calls, |old(kernel.calls)|, conn) == Dead
    ensures Reached(session, stream, schedule, kernel.files) == Some(end) && !end.goesOn
    ensures kernel.begun == old(kernel.begun) + [conn]
    ensures kernel.sent == old(kernel.sent) + AllResponses(conn, session)
    ensures kernel.parsed == old(kernel.parsed) + AllParsed(conn, session, stream, schedule)
    ensures kernel.fetched == old(kernel.fetched) + AllOpened(session)
  {
    ghost var from, initial := |kernel.calls|, kernel.open;
    kernel.NoteBegun(conn);
    var wire := new Wire(conn, stream, schedule);
    leaked, session := ServeAll(kernel, wire, from, initial);
    end := Point(wire.delivered, wire.recvs, conn in kernel.open, false);
    CloseConnection(kernel, conn, from, initial);
  }
}
