# A verified model of the minh HTTP server

A Dafny model of the parts of the server that carry state from one step to the next: how a request is
pulled off a socket and found complete, how its text is parsed (three times, by three parsers), how the
select loop keeps its client table in step with the kernel, how one connection is closed, and how the master
process keeps track of its workers.  `dafny verify dfyconfig.toml` checks the whole project.

| file | part of the server |
|---|---|
| `CStrings.dfy` | `strstr`, `strncasecmp`, white space and decimal numbers, as the parsers use them |
| `Framing.dfy` | the scanning helpers of socket.c, the completeness test, the least complete length |
| `Receive.dfy` | `recvRequest`: the doubling buffer and the loop with its remembered values |
| `Segmentation.dfy` | independence of the way the stream is cut |
| `Chunked.dfy` | chunked bodies |
| `Lines.dfy` | header blocks as lines; the walks of the two header parsers |
| `HttpRequest.dfy`, `RoundTrip.dfy` | `parseHttpRequest`, `shouldCloseConnection`; printing and parsing back |
| `Protocol.dfy`, `Detection.dfy` | `parseHttpHeaders`, `detectProtocol`; what is taken for which protocol |
| `Agreement.dfy`, `EndToEnd.dfy` | the three readers of Content-Length; from the wire to the parsed request |
| `Response.dfy` | the response headers and reading them back |
| `Kernel.dfy`, `Connection.dfy` | open descriptors; one connection from accept to close |
| `Pipelining.dfy` | several requests on one connection |
| `SelectTable.dfy`, `EventLoop.dfy` | the client table; one turn of the select loop, and any number of turns |
| `Supervisor.dfy` | the master process with its nested signal handlers |

## How the model is built

* A byte is a `char`; no statement depends on its being below 256.  A C string is a `string` without
  `'\0'`; a buffer read through `str...` functions is cut at its first `'\0'` (`CStr`).  Integers are
  unbounded; where a width matters (`strtol`, `unsigned long`) it is written out.
* A peer is a finite stream of bytes with an arbitrary schedule: the k-th `recv` may offer any positive
  number of bytes, report the end of the stream, EAGAIN (also the receive timeout) or an error.  When the
  stream is used up, `recv` times out.
* The kernel is a set of open descriptors.  `accept` and `fopen` return any positive number not in use;
  `recv` on a closed number fails.  Which files can be read is a parameter, whether `send` succeeds is left open.
  A ghost record of opens, closes, accepted and handled connections, parsed texts, sent headers and fetched files
  is what contracts speak of.
* Choices of the environment are `*` or parameters: every proof covers every outcome.
* In the master process a place where a signal can arrive is a call of `Interrupts`, which runs any number
  of handlers; a handler runs to its end on the same stack and is itself interrupted by whatever is not
  blocked (only its own signal is, because both masks are empty).  Between a test of a slot and the `kill` that
  follows, the slot is read again.  Pids are reused freely, except those of unreaped children.  Children end
  at arbitrary moments, any finite number of them in a run.  The master's main loop is cut off after an
  arbitrary number of turns; `StillRunning` marks such a run.  Every child that the SIGCHLD handler reaps leaves a
  record: how it ended, whether the server was running, its slot, and what was done about it.

## What was found

* The size limit is tested after completeness, so it is not a bound on what is accepted: a request of up to
  16 MiB is, when the `recv` that passes the limit also completes it (`AcceptableIff`, `LimitPassed`), and one of
  up to 10 MiB and one byte is never rejected for its size (`TooLargeIff`).
* The parser sees a C string, so a body with a '\0' is refused, or dropped if it starts with one (`ParserReads`).
* The receiver keeps nothing from one request to the next.  What it took past the end of a request is handed
  over with it and lost (`HandsOverIff`, `SurplusIsLost`).
* Comparing as many characters as the field name has takes prefixes for names, the empty one included
  (`NamesTaken`).
* A request whose method may have a body but that has none waits for one more byte, also with
  `Content-Length: 0` (`HeaderAloneCompleteIff`).
* Looking for the five bytes of the last chunk anywhere in the body is exact if and only if no single chunk,
  with its size line and its CRLFs, contains them (`ScanExactIff`); data without CR never does.
  `MarkerInDataStopsEarly` gives a request that is cut short.
* A header value that is not one word is cut at its first white space, an empty one leaves the slot empty
  (`HeaderReadBackIff`).
* A chunked request is received as a whole, but without a Content-Length header the parser drops its body
  (`ParsePrinted`).  POST and HEAD requests are never answered (`Dispatch`).
* `sendStaticFile` leaves its file open when sending the header fails: at most one descriptor per connection.
* A path that ends in a slash is given the index of the home directory, whatever directory it names; behind a path
  of more than 11 characters the rest of it is kept (`FileNameIs`).  Any method that starts with GET is a GET.
* The protocol detector is given C strings, and an MQTT packet is none, so MQTT is never detected
  (`BinaryDetected`).  A method of more than 15 characters and one more word pass for a request line (`ScansIff`).
* The maximum descriptor never shrinks, because it is recomputed while the leaving slot still holds it.
* A worker that failed keeps its slot when the fork fails, and also when a shutdown request comes between the test of
  its exit status and the one in `restartWorker` (`Forgone`); a later worker with the same pid then has two slots, of
  which only the first is cleared (`FirstSlotsCleared`).
* When a slot is cleared between the test and the `kill` of the final SIGKILL loop, the call addresses the whole
  process group, the master included; such a run does not return (`GroupKilled`).  It happens exactly if a
  recorded call read a cleared slot (`KillAll`).

## Model

| member | source | states |
|---|---|---|
| `CStrings.CaseIgnored` | protocol/http/http.c:40 | comparing without case takes letters for each other that differ only by the distance of a and A |
| `Framing.FindHttpHeaderEnd` | socket.c:343-353 | the index loop returns the position after the first blank line, -1 if there is none |
| `Framing.NamesBodilessMethod` | socket.c:233-254 | the word that is cut out and compared is GET, HEAD, DELETE or OPTIONS exactly when the header block starts with one of them, in any case, and a space; keeping 14 characters loses nothing |
| `Framing.GetContentLength` | socket.c:358-383 | the number after the first literal `Content-Length:` and white space, 0 without digits, -1 without the literal |
| `Framing.IsChunkedTransfer` | socket.c:386-412 | true exactly when the first literal `Transfer-Encoding:` is followed by `chunked` in any case |
| `Framing.IsChunkedBodyComplete` | socket.c:415-433 | the backward scan finds the five bytes exactly when they occur anywhere in the body |
| `Framing.CompleteIffPastLeast` | socket.c:267-297 | whether a prefix of a stream is a complete request is decided by one number, the least complete length |
| `Framing.CompleteMonotone` | socket.c:267-297 | a complete request stays complete whatever follows it |
| `Framing.WithBody` | socket.c:267-297 | after a header block the body alone decides: the least complete length is the header's plus 0, n, the end of the first last-chunk marker, or 1 |
| `Framing.HeaderAloneCompleteIff` | socket.c:287-296 | a header with nothing after it is complete exactly for the four methods without body |
| `Receive.CapacityAfter` | socket.c:201-219 | receiving into the free part keeps the buffer size, filling it doubles the size for the next byte |
| `Receive.CapacityBound` | socket.c:300-304 | within the size limit the buffer has 4096 * 2^k bytes with k at most 12 |
| `Receive.Wire.Recv` | socket.c:216 | `recv` writes only into the free part and takes the next bytes of the stream, as many as offered, as fit and as there are; otherwise nothing changes |
| `Receive.Judge` | socket.c:221-297 | judging with the remembered header end, length and chunked flag gives the from-scratch answer, and what is remembered stays what the helpers give |
| `Receive.ReceiveMore` | socket.c:201-219 | all bytes received so far survive the doubling, and the free part is never overrun |
| `Receive.Turn` | socket.c:200-323 | one turn of the loop refines one step of the reference run, with the remembered values right for the bytes so far |
| `Receive.RecvRequest` | socket.c:181-340 | for every stream and every cutting: the verdict and the number of `recv`s are those of the reference run that tests every cut from scratch; non-null exactly on success or end of stream, holding exactly the bytes taken and a final '\0' |
| `Receive.Terminate` | socket.c:325-337 | the final '\0' is written inside the buffer, which grows by one byte exactly when it is full |
| `Segmentation.AcceptedIffFirstComplete` | socket.c:200-323 | success with len bytes exactly if len is the first cut that is complete and every cut before it is within the limit |
| `Segmentation.OutcomeIsReplay` | socket.c:200-323 | a run depends on the bytes only through the length of the stream and its least complete length |
| `Segmentation.TooLargeIff` | socket.c:267-304 | some cutting of a stream is rejected for its size if and only if more than 10 MiB arrive and the request is not complete one byte past them |
| `Segmentation.AcceptableIff` | socket.c:201-304 | some cutting of a stream is accepted if and only if its least complete length is at most 16 MiB, the size of the largest buffer |
| `Segmentation.AcceptedWithinBuffer` | socket.c:201-304 | however a stream is cut, what is accepted is complete and at most 16 MiB long |
| `Segmentation.ExactRequest` | socket.c:200-323 | a peer that sends one minimal request of at most 10 MiB and one byte in any pieces has exactly that request received |
| `Chunked.ScanExactIff` | socket.c:415-433 | the first marker is the true end of the encoded body exactly when no single chunk with its size line and CRLFs holds the five bytes |
| `Chunked.EncodedExample` | readme.md:80-89 | the encoding of two chunks, spelled out, with sizes in hexadecimal digits of either case |
| `Chunked.CrFreeIsClean` | socket.c:415-433 | chunks without CR never hold the five bytes |
| `Chunked.ChunkedRequestExactIff` | socket.c:278-286 | a chunked request is complete, and at its last byte only exactly when its chunks are clean |
| `Chunked.ChunkedRequestReceived` | socket.c:278-286 | any cutting of a chunked request with CR-free chunks, of at most 10 MiB and one byte, is received as exactly that request |
| `Chunked.MarkerInDataStopsEarly` | socket.c:425-430 | a 5-byte chunk that spells the marker ends the request early |
| `Lines.BlankLineAfterBlock` | protocol/http/http.c:259-262 | in a block of non-empty CR-free lines the first blank line is the one at its end |
| `Lines.LinesBeforeBlank` | protocol/http/http.c:263-306 | the request parser's walk over such a block gives back its lines |
| `Lines.LinesToBlankOfBlock` | protocol.c:79-90 | so does the header parser's walk |
| `Lines.WalksAgree` | protocol.c:79-90 | on every text with a blank line, from any position before it, the two parsers see the same lines if and only if the first of them is not empty |
| `HttpRequest.Request.constructor` | server.c:150 | the structure starts with empty fields |
| `HttpRequest.StoreLine` | protocol/http/http.c:284-300 | the first line sets the request line, line k sets slot k-2, and no other field changes |
| `HttpRequest.ParseLines` | protocol/http/http.c:263-306 | the pointer loop leaves one slot per line before the blank line, empty where a line does not scan |
| `HttpRequest.ParseBody` | protocol/http/http.c:309-343 | the body is stored exactly when the first slot named Content-Length says its length; a contradicting one is an error, none at all is not |
| `HttpRequest.ParseHttpRequest` | protocol/http/http.c:247-348 | filling the structure in place refines the function `Parse`: result, every field and body, whenever what the two scans store fits their buffers |
| `HttpRequest.ShouldCloseConnection` | protocol/http/http.c:36-51 | 0 exactly when the first slot whose key starts with connection, in any case, has a value that starts with keep-alive; -1 for any other value and without such a slot |
| `HttpRequest.DecimalSaysLength` | protocol/http/http.c:317-329 | `strtol` reads a printed length back, all of it, up to LONG_MAX |
| `HttpRequest.LengthSaid` | protocol/http/http.c:317-329 | a value of digits says the number it spells and no other; one that does not end with a digit says no length |
| `RoundTrip.HeaderReadBackIff` | protocol/http/http.c:294-299 | a printed header is read back exactly when its value is a single word |
| `RoundTrip.HeaderReads` | protocol/http/http.c:294-299 | of any printed header the scan stores the key and the first word of the value, or nothing if there is none; it stays in its buffers exactly if these two are below 256 |
| `RoundTrip.RequestLineReadBack` | protocol/http/http.c:285-292 | a printed request line is read back |
| `RoundTrip.CutAtNul` | protocol/http/http.c:250-256 | the C string of a printed request is the printed request with its body cut at the first '\0' |
| `RoundTrip.PrintedFits` | protocol/http/http.c:284-300 | a printed request stays inside the arrays of the parser if and only if its three words, its keys and the first words of its values have their sizes |
| `RoundTrip.ParsePrinted` | protocol/http/http.c:247-348 | parsing the C string of a printed request with any header values gives back the request line and of every header what the scan stores; what comes before the first '\0' of the body is accepted or refused by the first Content-Length slot alone |
| `RoundTrip.GotBackIff` | protocol/http/http.c:294-299 | all headers come back as they were exactly when every value is a single word |
| `RoundTrip.KeepsAliveIff` | protocol/http/http.c:36-51 | a parsed request is kept alive exactly if the first Connection header that was printed, with a value, starts with keep-alive |
| `RoundTrip.UsualWords` | protocol/http/http.c:42-46 | keep-alive and Keep-Alive keep the connection, close and Close do not |
| `Protocol.NamesTaken` | protocol.c:102-129 | which prefixes are taken for which name: the empty name for Upgrade, up to three letters of Content-Length for Connection, up to fourteen of Sec-WebSocket-Version for Sec-WebSocket-Key |
| `Protocol.ClassifyName` | protocol.c:102-129 | the chain of bounded comparisons finds that name |
| `Protocol.ParseField` | protocol.c:91-136 | one line has the effect of its field, read up to the first colon and after the blanks |
| `Protocol.ParseHttpHeaders` | protocol.c:75-139 | the pointer loop terminates and has the effect of the lines before the first empty one, in order |
| `Protocol.WebSocketIff` | protocol.c:100-127 | the verdict is WebSocket exactly when some line marks a handshake; it never reverts |
| `Protocol.OrderIrrelevant` | protocol.c:79-138 | permuting the lines does not change the verdict |
| `Protocol.LastLengthWins` | protocol.c:128-135 | the last line taken for Content-Length gives the length |
| `Detection.DetectedWebSocketIff` | protocol.c:189-232 | over all inputs, exactly what is taken for a WebSocket handshake, by the words of the first line |
| `Detection.DetectedHttpIff` | protocol.c:189-232 | over all inputs, exactly what is taken for HTTP, also without a request line |
| `Detection.ScansIff` | protocol.c:58-60 | a first line that fits the buffer scans exactly if it has three words, or two of which the first has more than 15 characters |
| `Detection.BinaryDetected` | protocol.c:142-211 | of C strings: none is MQTT, TLS is decided by two bytes, unknown are the empty one and those with a control character among the first 100 |
| `Detection.PrintedUpgrades` | protocol.c:91-127 | a printed header marks a handshake exactly if its key is a prefix of Upgrade and its value, after blanks, one of websocket, or its key is a prefix of one of the two Sec-WebSocket names |
| `Detection.DetectPrinted` | protocol.c:189-232 | a printed request is taken for a WebSocket handshake exactly if its request line is shorter than 1024 bytes and some header marks a handshake, and for HTTP otherwise |
| `Agreement.ReceiverReads` | socket.c:358-383 | on a printed request with one Content-Length, whatever the values of its other headers, the receiver finds the header's end and reads that number |
| `Agreement.DetectorReads` | protocol.c:128-135 | the protocol detector, given the C string, reads the same number |
| `Agreement.ParserReads` | protocol/http/http.c:314-343 | the request parser, given the C string, accepts the body with its length if and only if it holds no '\0'; otherwise it drops it ('\0' first) or fails |
| `Agreement.ReadersAgree` | socket.c:358-383 | the receiver and the detector read the length of the body, the parser does if and only if the body holds no '\0' |
| `EndToEnd.CompleteAtTheEnd` | socket.c:267-277 | a printed request with a body is complete at its last byte and at no earlier one |
| `EndToEnd.EndToEnd` | socket.c:181-340 | however a POST-like request with canonical Content-Length is cut, exactly its bytes are received, and parsing their C string gives back the request, with its body if and only if that holds no '\0' |
| `EndToEnd.LimitPassed` | socket.c:298-304 | a request of more than 10 MiB that is accepted: a POST that announces its 12,000,000 bytes |
| `EndToEnd.BodilessIff` | socket.c:233-254 | the receiver expects no body exactly when the printed method is one of the four |
| `EndToEnd.BodilessMethods` | socket.c:233-254 | a printed header alone is a whole request for GET, HEAD, DELETE and OPTIONS, and not for POST, PUT, PATCH or GETS |
| `EndToEnd.OneByteIsEnough` | socket.c:287-296 | a POST-like request that spells neither length nor coding is complete with the first byte of its body |
| `EndToEnd.CodingDecides` | socket.c:386-412 | the first printed Transfer-Encoding decides: chunked exactly if its value starts so in any case, so not for gzip or identity |
| `EndToEnd.OtherCodings` | socket.c:386-412 | gzip, identity, chunk and x-chunked are not chunked, chunked and Chunked are |
| `EndToEnd.ParseAndDecide` | protocol/http/http.c:386-409 | parsing a printed request and asking for keep-alive: the first Connection header decides |
| `EndToEnd.ReceiveAndParse` | server.c:154-164 | the same through `recvRequest` and `parseHttpRequest` one after the other, for every message whose fields have the sizes of the arrays |
| `EndToEnd.HeadIsChunked` | socket.c:386-412 | a printed header with one `Transfer-Encoding: chunked` and no Content-Length makes the receiver go by the last chunk |
| `EndToEnd.ChunkedEndToEnd` | socket.c:278-286 | however a printed chunked request with CR-free chunks is cut, exactly its text is received |
| `Response.ResponseReadsBack` | protocol/http/http.c:352-368 | with any body appended, the receiver's helpers find the end of the printed header and its length in it |
| `Response.StaticFileReadsBack` | protocol/http/http.c:109-122 | the same for the header of a static file |
| `Response.ErrorReadsBack` | protocol/http/http.c:142-158 | the same for an error response, whose body is its message |
| `Response.ResponseSays` | protocol/http/http.c:352-368 | off the printed lines the status, the length and keep-alive or close are read back |
| `Response.StaticFileSays` | protocol/http/http.c:109-122 | the same for a file, with status 200 |
| `Response.ErrorSays` | protocol/http/http.c:142-158 | the same for an error, with close |
| `Response.ReadingStaysInRange` | socket.c:375-380 | reading a number up to INT_MAX never leaves the range of `int` on the way |
| `Connection.SendOpenFile` | protocol/http/http.c:108-138 | the file that was asked for is opened; 200 is sent and the file closed, or 200 and 404 are sent, the connection closed and the file left open |
| `Connection.SendStaticFile` | protocol/http/http.c:73-138 | answered with 200, with 404, or with 200 then 404; closed exactly in the last two cases; nothing but the named file opened, and nothing else closed; always 404 when the file cannot be read |
| `Connection.HandleGetRequest` | protocol/http/http.c:179-209 | the same with the access test, for the name that the home directory and the rewritten path make |
| `Connection.FileNameIs` | protocol/http/http.c:182-197 | the file that a path names: behind the home directory the path itself, or the index of the home directory for a short path with a slash at its end |
| `Connection.Dispatch` | protocol/http/http.c:396-405 | the reply by method: a GET is answered with the file its path names or with 404, always 404 if that cannot be read; POST and HEAD are not answered, an unknown method gets 501 and stays open |
| `Connection.Answer` | protocol/http/http.c:396-409 | open afterwards exactly if the reply leaves it open and the request says keep-alive |
| `Connection.HandleHttpRequest` | protocol/http/http.c:386-413 | 400 exactly when the parse fails, otherwise the status codes by method and readability, and the one file opened is the one the path names; open afterwards exactly if parsed, keep-alive and not closed by the reply |
| `Connection.ReceiveText` | server.c:154-157 | what the loop looks at is the C string of what `recvRequest` finds from here |
| `Connection.Respond` | server.c:156-173 | only HTTP is answered; the loop goes on after anything else and after keep-alive |
| `Connection.ServeNext` | server.c:149-190 | one turn: received from where the last one ended, answered as the text asks, and the next state of stream, connection and loop |
| `Connection.HandleOneClientRequest` | server.c:140-194 | the session is followed turn by turn to its end, exactly its HTTP texts are handed to the parser, exactly its responses are sent and its files opened, the connection is closed and the call order watched; a file is left open, one, exactly if the header of a file could not be sent |
| `Connection.EachAnswered` | server.c:149-190 | every HTTP request of a session is answered with the status codes its method, path and file ask for, opens that file and no other, and leaves the connection open or closed accordingly; what is not HTTP is not answered |
| `Connection.DeadMeans` | server.c:190-194 | the watch means: one close hits the connection, before it nothing is opened under its number, after it nothing is opened, parsed or sent, and every further close hits nothing |
| `Connection.ClosedIsLast` | server.c:155-178 | after a handler closed the connection at most one more turn follows, which answers nothing |
| `Pipelining.OneRequest` | server.c:154-157 | with more bytes behind it a request is accepted all the same, and alone if and only if a cut falls at its end |
| `Pipelining.Straddled` | server.c:154-157 | otherwise the text handed over is the request with a non-empty piece of what follows |
| `Pipelining.HandsOverIff` | server.c:149-190 | on a connection that carries a list of requests, while no reply closes it, the k-th text handed over is the k-th request for every k if and only if a cut falls at the end of each |
| `Pipelining.PrintedWithBody` | server.c:154-171 | printed POST-like requests that say keep-alive can be carried |
| `Pipelining.PrintedWithoutBody` | server.c:154-171 | so can printed requests without a body |
| `Pipelining.ContinuesIff` | server.c:160-171 | after a printed plain request the loop goes on exactly if its first Connection header says keep-alive |
| `Pipelining.CloseEndsSession` | server.c:160-194 | without keep-alive a printed plain request is the last of its session, and the connection is closed |
| `Pipelining.HandshakeIsOnlyRead` | server.c:160-173 | a printed WebSocket handshake gets no reply, leaves the connection open and the loop going |
| `Pipelining.SurplusIsLost` | protocol/http/http.c:309-343 | a surplus is dropped without a Content-Length header, and with one the request that was complete is refused |
| `SelectTable.ServerState.constructor` | socket.c:124-139 | all 1024 slots free, the set holds only the listener, which is the maximum |
| `SelectTable.ServerState.AddClient` | select/select.c:18-67 | below the limit the connection goes to the first free slot and the count, set and maximum follow; the branch for no free slot is unreachable; at the limit it is closed and recorded as refused, and the table stays |
| `SelectTable.ServerState.FirstFree` | select/select.c:25-32 | the first free slot, -1 exactly when there is none |
| `SelectTable.ServerState.Occupy` | select/select.c:44-61 | filling a free slot keeps slots, count, set and maximum consistent |
| `SelectTable.ServerState.RemoveClient` | select/select.c:69-103 | an occupied slot is freed, its descriptor closed and taken out of the set, the count reduced by one, the maximum unchanged; any other index changes nothing |
| `SelectTable.ServerState.RecomputeMax` | select/select.c:90-98 | the recomputed maximum is the old one, because the leaving slot still holds it |
| `SelectTable.ServerState.CheckIdle` | server.c:195-209 | exactly the slots of connections older than 30 seconds are freed, these are dropped and recorded as dropped, and the count falls by their number |
| `SelectTable.CountUpdate` | select/select.c:61 | changing one slot changes the number of occupied slots by what that slot contributes |
| `SelectTable.FullCount` | select/select.c:34-38 | a table without a free slot has as many clients as slots |
| `SelectTable.SweptCount` | server.c:199-208 | the sweep lowers the number of occupied slots by the number of idle ones |
| `SelectTable.SweptOut` | server.c:199-208 | the sweep takes exactly the idle descriptors out of the table, each as often as it was there |
| `EventLoop.Scrub` | server.c:77-85 | the scrub removes exactly the descriptors that are not open: none in a reachable state |
| `EventLoop.ServeOne` | server.c:129-136 | a ready client is handled and its slot freed |
| `EventLoop.ServeReady` | server.c:126-137 | every ready client is handled once, in slot order, and freed; all other slots are unchanged |
| `EventLoop.AcceptOne` | server.c:110-124 | a delivered connection is new and recorded as accepted; it joins the table exactly if that is not full, and is refused otherwise |
| `EventLoop.HandleSelectEvents` | server.c:73-138 | one turn: nothing on failure; the sweep of connections older than 30 seconds when nothing is readable; otherwise exactly the readable members of the set but the listener are handled and leave it, an accepted connection joins it below 1024 clients, and the count changes by accepted minus handled |
| `EventLoop.ServedExactly` | server.c:126-137 | the connections handled are exactly those of the table with a positive descriptor that can be read from, each once |
| `EventLoop.TurnInSets` | server.c:110-137 | on sets: a turn serves what is readable but the listener, and the table loses just that and gains just the newcomer |
| `EventLoop.TurnConserves` | server.c:73-138 | for every descriptor: what a turn takes out of the table is what it handles or drops, what it puts in is what joins |
| `EventLoop.RunSelectServer` | server.c:49-70 | after the given number of turns table and kernel agree, and since the start `accept` has returned each descriptor exactly as often as it is in the table, was handled, was dropped as idle, and was refused at the limit, together |
| `Supervisor.AtMostMaxProcess` | signals.c:14 | at most MAX_PROCESS children are unreaped |
| `Supervisor.EmptyTableNoChildren` | process.c:89-99 | an empty table means that no child is left |
| `Supervisor.LeftoverKilled` | process.c:102-110 | a table that holds only killed pids means that every child was killed |
| `Supervisor.Master.Interrupts` | signals.c:109-133 | any number of nested handlers keeps every child findable and every fork accounted for, revives no slot that is 0, and after a shutdown request adds no child; with SIGCHLD blocked table, children and records stay as they are |
| `Supervisor.Master.ShutdownHandler` | signals.c:68-80 | the flag is cleared and every pid in the table was sent SIGTERM, even if handlers interrupt the loop |
| `Supervisor.Master.RestartWorker` | signals.c:82-106 | one fork exactly if no shutdown was requested before; the slot gets the new pid, or keeps the old one when the fork fails or is forgone |
| `Supervisor.Master.FindWorker` | signals.c:33-34 | the first slot that holds the reaped pid |
| `Supervisor.Master.HandleExit` | signals.c:32-63 | a record is made: the first slot that holds the pid, and what was done there; no other slot and no other child changes |
| `Supervisor.Master.HandleSlot` | signals.c:36-60 | a worker that failed while the server runs costs one fork, unless a shutdown request comes first; any other one leaves its slot 0 |
| `Supervisor.SettledMeans` | signals.c:36-60 | of all records: a nonzero exit or a signal other than SIGTERM and SIGINT, while the server runs, asks for a replacement; every other end clears the slot |
| `Supervisor.LastRecordSays` | signals.c:32-63 | the last record about a slot says what the slot holds, and slots without record are as they were |
| `Supervisor.FirstSlotsCleared` | signals.c:33-61 | when nothing is replaced, the slots cleared are exactly the first ones that hold the pid of a reaped child |
| `Supervisor.Master.SigchldHandler` | signals.c:17-66 | every child that had ended is reaped and has a record, and the records in order make the new table and the forks; a failed worker costs a fork and any other one leaves its slot 0; after a shutdown request nothing is forked and the first slot of every reaped child is 0 |
| `Supervisor.Master.ForkWorker` | process.c:38-43 | the forked pid is findable before it is recorded |
| `Supervisor.Master.EndTurn` | process.c:58-63 | recording it keeps every child findable; a failed fork leaves the slot 0 |
| `Supervisor.Master.ForkReplacement` | signals.c:88-104 | the replacement is findable before it is recorded, although it overwrites a slot |
| `Supervisor.Master.SetSlot` | signals.c:101 | overwriting or clearing the slot of a reaped child loses no other child |
| `Supervisor.Master.SpawnWorkers` | process.c:38-64 | every slot gets its turn and one fork, with signals anywhere in between; the records account for all other forks |
| `Supervisor.Master.AllDead` | process.c:90-99 | the look at the table says exactly whether it is empty, and is counted |
| `Supervisor.Master.Poll` | process.c:86-101 | at most 30 looks are recorded, 30 when time runs out; stopping before means that no child is left |
| `Supervisor.Master.KillAll` | process.c:102-110 | the master survives if and only if none of the recorded calls read a cleared slot, so always when no slot is cleared meanwhile or SIGCHLD is blocked; each call was made for a slot that held a worker when tested; if it survives, every unreaped child has been sent SIGKILL |
| `Supervisor.Master.WaitForAll` | process.c:111-114 | the wait records where it starts and ends with no child left, unless SIGINT or SIGTERM interrupts it; then every pid in the table was sent SIGTERM |
| `Supervisor.RunMultiProcessServer` | process.c:19-116 | by the record of the run: at most 30 looks, no SIGKILL before the 30th; when the final wait starts, every unreaped child has been sent SIGKILL; the run ends with none unless the wait is interrupted, and by its own SIGKILL if and only if a call read a cleared slot; the forks are the four of the start and one per failed worker that was replaced or could not be; in every state in which a signal could arrive at most four children are unreaped, each in a slot or just forked, and a slot that was 0 after its startup turn stays 0 |
| `Supervisor.Drain` | process.c:86-114 | the same of the drain alone, from any state after the main loop |

## Left out

- Receive.Wire.Recv: a schedule of the kernel's choices stands for timing; there is no clock, so the 30 and 5 second timeouts are only outcomes.
- Framing.GetContentLength: does not model overflow of the `int` accumulator by too many digits, which is undefined in C; Response.ReadingStaysInRange covers the numbers the server itself prints.
- Protocol.ParseField: does not model overflow in `atoi`; where the three readers are shown to agree the number is at most INT_MAX.
- HttpRequest.ParseHttpRequest: words, keys, values and colon-free lines that overflow the buffers of the two scans, and more than 20 header lines, are excluded by the `Fits` precondition, because the behaviour of the source is undefined on them; `malloc` succeeds.
- Connection.HandleOneClientRequest: the same exclusion is stated for every text that the loop receives as HTTP, together with a GET whose path has no slash and one that names a readable file without a dot, on which the source follows a null pointer; which file a path names is modelled, its MIME type is not, and the rewritten path is not stored back into the structure.
- Protocol.DetectProtocol: its contract is the function `Detect`, which is what the code does; what that means is stated by the lemmas of `Detection`.
- Pipelining.HandsOverIff: is about streams of whole requests that say keep-alive, with every `recv` delivering some bytes; a timeout or the end of the stream ends the session, which `Connection.HandleOneClientRequest` covers.
- EventLoop.HandleSelectEvents: descriptors are assumed positive and below FD_SETSIZE; connection addresses and ports are not stored.
- Supervisor.Master.SigchldHandler: a SIGCHLD may arrive whether or not a child has ended; that one does arrive after each end is not modelled.
- Supervisor.RunMultiProcessServer: what a worker does with its own copy of the handlers and of the table is not modelled; a worker may end at any time with any status.
- Socket creation, listening, the blocking accept loop of `runServer` and `cleanupSelectServer`: system calls without state that lasts.
- Command-line parsing, process names, logging, the MIME table: plumbing and lookups.
- Trailers and extensions of chunked bodies: the receiver does not recognise them.
- The HTTP version numbers that `parseHttpRequestLine` reads: nothing uses them but a debug print.
- Response bodies: of what is sent only the headers are recorded, and only their printed text is modelled, for any buffer that it fits in.
