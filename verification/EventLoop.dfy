/**
 One turn of the select server (`handleSelectEvents` of server.c), and any number of them.
 */
module EventLoop {
  import opened CStrings
  import opened SelectTable
  import Kernel
  import Connection
  import Receive

  /** What arrives on one connection while it is handled. */
  datatype Traffic = Traffic(stream: string, schedule: nat -> Receive.Arrival)

  ghost predicate Sized(traffic: int -> Traffic, files: Kernel.Files) {
    forall fd :: Connection.WellSized(traffic(fd).stream, traffic(fd).schedule, files)
  }

  /** What a turn meets: whether `select` fails, what can be read from, whether `accept` delivers. */
  datatype Event = Event(failed: bool, readable: set<int>, delivered: bool)

  /** The ready clients in the first k slots, in slot order. */
  ghost function ReadyFds(slots: seq<ClientInfo>, ready: set<int>, k: nat): seq<int>
    requires k <= |slots|
  {
    if k == 0 then []
    else ReadyFds(slots, ready, k - 1) + if IsReady(slots[k - 1], ready) then [slots[k - 1].fd] else []
  }

  predicate IsReady(c: ClientInfo, ready: set<int>) { c.fd > 0 && c.fd in ready }

  /** The slots when the first k have been looked at: the ready ones are free, the others untouched. */
  ghost function Freed(slots: seq<ClientInfo>, ready: set<int>, k: nat): (s: seq<ClientInfo>)
    requires k <= |slots|
    ensures |s| == |slots|
    ensures forall j :: 0 <= j < |slots| ==>
      s[j] == if j < k && IsReady(slots[j], ready) then slots[j].(fd := -1) else slots[j]
  {
    seq(|slots|, j requires 0 <= j < |slots| =>
      if j < k && IsReady(slots[j], ready) then slots[j].(fd := -1) else slots[j])
  }

  /** The scrub of descriptors that are no longer open. */
  method Scrub(s: ServerState)
    modifies s`masterFds
    ensures s.masterFds == set fd | fd in old(s.masterFds) && !(0 <= fd <= s.maxFd && fd !in s.kernel.open)
    ensures old(s.masterFds) <= s.kernel.open ==> s.masterFds == old(s.masterFds)
  {
    var i := 0;
    while i <= s.maxFd
      invariant 0 <= i
      invariant s.masterFds
             == set fd | fd in old(s.masterFds) && !(0 <= fd < i && fd <= s.maxFd && fd !in s.kernel.open)
    {
      if i in s.masterFds {
        var valid := s.kernel.IsOpen(i);
        if !valid {
          s.masterFds := s.masterFds - {i};
        }
      }
      i := i + 1;
    }
  }

  /** Handles the client in one slot; it comes back closed, so the slot is freed. */
  method ServeOne(s: ServerState, i: nat, traffic: int -> Traffic)
    requires s.Valid() && i < MAX_CLIENTS && s.clients[i].fd > 0 && Sized(traffic, s.kernel.files)
    modifies s, s.clients, s.kernel`open, s.kernel`calls, s.kernel`begun, s.kernel`parsed, s.kernel`sent,
      s.kernel`fetched
    ensures s.Valid() && s.maxFd == old(s.maxFd) && s.everAdded == old(s.everAdded) && s.books == old(s.books)
    ensures s.clients[..] == old(s.clients[..])[i := old(s.clients[i]).(fd := -1)]
    ensures s.clientCount == old(s.clientCount) - 1 && s.masterFds == old(s.masterFds) - {old(s.clients[i].fd)}
    ensures s.kernel.open >= old(s.kernel.open) - {old(s.clients[i].fd)}
    ensures s.kernel.begun == old(s.kernel.begun) + [old(s.clients[i].fd)]
  {
    var fd := s.clients[i].fd;
    assert fd == s.clients[..][i].fd && fd in Fds(s.clients[..]);
    var wire := traffic(fd);
    ghost var _, _, _ := Connection.HandleOneClientRequest(s.kernel, fd, wire.stream, wire.schedule);
    var valid := s.kernel.IsOpen(s.clients[i].fd);
    if !valid {
      s.RemoveClient(i);
    }
  }

  /** When the first i slots have been looked at: slots, handled connections and count. */
  ghost predicate ServedUpTo(s: ServerState, before: seq<ClientInfo>, ready: set<int>, i: nat,
                             begun: seq<int>, count: int)
    requires i <= |before|
    reads s, s.clients, s.kernel
  {
    && s.clients[..] == Freed(before, ready, i)
    && s.kernel.begun == begun + ReadyFds(before, ready, i)
    && s.clientCount == count - |ReadyFds(before, ready, i)|
  }

  /** One slot of the table. */
  method ServeSlot(s: ServerState, i: nat, ready: set<int>, traffic: int -> Traffic,
                   ghost before: seq<ClientInfo>, ghost begun: seq<int>, ghost count: int)
    requires s.Valid() && Sized(traffic, s.kernel.files) && i < MAX_CLIENTS == |before|
    requires ServedUpTo(s, before, ready, i, begun, count)
    modifies s, s.clients, s.kernel`open, s.kernel`calls, s.kernel`begun, s.kernel`parsed, s.kernel`sent,
      s.kernel`fetched
    ensures s.Valid() && s.maxFd == old(s.maxFd) && s.everAdded == old(s.everAdded) && s.books == old(s.books)
    ensures ServedUpTo(s, before, ready, i + 1, begun, count)
  {
    var clientFd := s.clients[i].fd;
    assert s.clients[i] == s.clients[..][i] == before[i];
    OneFurther(before, ready, i, begun);
    if clientFd > 0 && clientFd in ready {
      ServeOne(s, i, traffic);
    }
  }

  lemma OneFurther(slots: seq<ClientInfo>, ready: set<int>, i: nat, begun: seq<int>)
    requires i < |slots|
    ensures Freed(slots, ready, i + 1)
         == var s := Freed(slots, ready, i); if IsReady(slots[i], ready) then s[i := slots[i].(fd := -1)] else s
    ensures begun + ReadyFds(slots, ready, i + 1)
         == begun + ReadyFds(slots, ready, i) + if IsReady(slots[i], ready) then [slots[i].fd] else []
    ensures |ReadyFds(slots, ready, i + 1)| == |ReadyFds(slots, ready, i)| + if IsReady(slots[i], ready) then 1 else 0
  {
  }

  /** Part 2 of a turn: every ready client is handled once, in slot order; the others are not touched. */
  method ServeReady(s: ServerState, ready: set<int>, traffic: int -> Traffic)
    requires s.Valid() && Sized(traffic, s.kernel.files)
    modifies s, s.clients, s.kernel`open, s.kernel`calls, s.kernel`begun, s.kernel`parsed, s.kernel`sent,
      s.kernel`fetched
    ensures s.Valid() && s.maxFd == old(s.maxFd) && s.everAdded == old(s.everAdded) && s.books == old(s.books)
    ensures ServedUpTo(s, old(s.clients[..]), ready, MAX_CLIENTS, old(s.kernel.begun), old(s.clientCount))
  {
    ghost var before, begun, count := s.clients[..], s.kernel.begun, s.clientCount;
    assert Freed(before, ready, 0) == before;
    var i := 0;
    while i < MAX_CLIENTS
      invariant 0 <= i <= MAX_CLIENTS && s.Valid() && s.maxFd == old(s.maxFd) && s.everAdded == old(s.everAdded)
      invariant s.books == old(s.books)
      invariant ServedUpTo(s, before, ready, i, begun, count)
    {
      ServeSlot(s, i, ready, traffic, before, begun, count);
      i := i + 1;
    }
  }

  function Newcomer(accepted: Option<int>): seq<int> { if accepted.Some? then [accepted.value] else [] }

  /** With `count` clients in the table, an accepted connection joins it or is refused. */
  function Joining(accepted: Option<int>, count: int): Option<int> { if count < MAX_CLIENTS then accepted else None }

  function Refused(accepted: Option<int>, count: int): seq<int> {
    if count < MAX_CLIENTS then [] else Newcomer(accepted)
  }

  /** Part 1 of a turn: when the listener is ready, `accept` may or may not deliver a connection. */
  method AcceptOne(s: ServerState, now: int, ready: set<int>, delivered: bool) returns (accepted: Option<int>)
    requires s.Valid()
    modifies s, s.clients, s.kernel`open, s.kernel`calls, s.kernel`accepted
    ensures s.Valid() && s.everAdded >= old(s.everAdded) && s.maxFd >= old(s.maxFd)
    ensures accepted.Some? <==> s.listenFd in ready && delivered
    ensures accepted.Some? ==> accepted.value > 0 && accepted.value !in old(s.kernel.open)
    ensures s.kernel.accepted == old(s.kernel.accepted) + Newcomer(accepted)
    ensures s.books == old(s.books).(refused := old(s.books).refused + Refused(accepted, old(s.clientCount)))
    ensures Middle(old(s.clients[..]), s.clients[..], Joining(accepted, old(s.clientCount)), now)
    ensures s.clientCount == old(s.clientCount) + |Newcomer(Joining(accepted, old(s.clientCount)))|
  {
    accepted := None;
    assert s.kernel.accepted + [] == s.kernel.accepted && s.books.refused + [] == s.books.refused;
    if s.listenFd in ready {
      if delivered {
        accepted := AddAccepted(s, now);
      }
    }
  }

  method AddAccepted(s: ServerState, now: int) returns (accepted: Option<int>)
    requires s.Valid()
    modifies s, s.clients, s.kernel`open, s.kernel`calls, s.kernel`accepted
    ensures s.Valid() && s.everAdded >= old(s.everAdded) && s.maxFd >= old(s.maxFd)
    ensures accepted.Some? && accepted.value > 0 && accepted.value !in old(s.kernel.open)
    ensures s.kernel.accepted == old(s.kernel.accepted) + Newcomer(accepted)
    ensures s.books == old(s.books).(refused := old(s.books).refused + Refused(accepted, old(s.clientCount)))
    ensures Middle(old(s.clients[..]), s.clients[..], Joining(accepted, old(s.clientCount)), now)
    ensures s.clientCount == old(s.clientCount) + |Newcomer(Joining(accepted, old(s.clientCount)))|
  {
    var clientFd := s.kernel.Accept();
    accepted := Some(clientFd);
    ghost var before, room := s.clients[..], s.clientCount < MAX_CLIENTS;
    var index := s.AddClient(clientFd, now);
    assert room ==> Added(before, s.clients[..], index, clientFd, now);
    assert old(s.books).refused + [] == old(s.books).refused;
  }

  /** `select` looks at descriptors up to the maximum only. */
  function Readable(fds: set<int>, maxFd: int, readable: set<int>): set<int> {
    set fd | fd in fds && fd <= maxFd && fd in readable
  }

  /** What a turn handles, when `ready` can be read from ... */
  ghost function HandledIn(slots: seq<ClientInfo>, event: Event, ready: set<int>): seq<int> {
    if event.failed || ready == {} then [] else ReadyFds(slots, ready, |slots|)
  }

  /** ... and what it drops. */
  function DroppedIn(slots: seq<ClientInfo>, event: Event, ready: set<int>, now: int): seq<int> {
    if !event.failed && ready == {} then IdleFds(slots, now, |slots|) else []
  }

  /** The slots after a turn; `middle` are the slots after the accept. */
  ghost predicate Turned(before: seq<ClientInfo>, middle: seq<ClientInfo>, after: seq<ClientInfo>, event: Event,
                         ready: set<int>, accepted: Option<int>, now: int)
  {
    && |before| == |middle| && Middle(before, middle, accepted, now)
    && if event.failed then accepted == None && after == before
       else if ready == {} then accepted == None && after == Swept(before, now, |before|)
       else after == Freed(middle, ready, |middle|)
  }

  /** Everything that a turn does, when `ready` can be read from: to slots, count, records and books. */
  ghost predicate Did(s: ServerState, before: seq<ClientInfo>, middle: seq<ClientInfo>, count: int, earlier: Books,
                      acceptedBefore: seq<int>, begunBefore: seq<int>,
                      event: Event, ready: set<int>, accepted: Option<int>, now: int)
    reads s, s.clients, s.kernel
  {
    var handled, dropped := HandledIn(before, event, ready), DroppedIn(before, event, ready, now);
    && Turned(before, middle, s.clients[..], event, ready, Joining(accepted, count), now)
    && s.clientCount == count + |Newcomer(Joining(accepted, count))| - |handled| - |dropped|
    && s.kernel.accepted == acceptedBefore + Newcomer(accepted) && s.kernel.begun == begunBefore + handled
    && s.books == Entered(earlier, dropped, Refused(accepted, count))
  }

  /**
   One turn.  No descriptor that can be read from is missed, because none exceeds the maximum; a connection
   accepted in this turn is not handled in it.
   */
  method HandleSelectEvents(s: ServerState, now: int, event: Event, traffic: int -> Traffic)
    returns (accepted: Option<int>, ghost middle: seq<ClientInfo>)
    requires s.Valid() && Sized(traffic, s.kernel.files)
    modifies s, s.clients, s.kernel
    ensures s.Valid() && s.everAdded >= old(s.everAdded) && s.maxFd >= old(s.maxFd)
    ensures accepted.Some? <==> !event.failed && s.listenFd in event.readable && event.delivered
    ensures accepted.Some? ==> accepted.value > 0 && accepted.value !in old(s.kernel.open)
    ensures Did(s, old(s.clients[..]), middle, old(s.clientCount), old(s.books), old(s.kernel.accepted),
                old(s.kernel.begun), event, old(s.masterFds) * event.readable, accepted, now)
    ensures old(s.kernel.begun) <= s.kernel.begun
    ensures var served, ready := s.kernel.begun[|old(s.kernel.begun)|..], old(s.masterFds) * event.readable;
            if event.failed || ready == {} then served == []
            else (forall fd :: fd in served <==> fd in ready && fd != s.listenFd)
                 && s.masterFds == old(s.masterFds) - (ready - {s.listenFd})
                                   + if accepted.Some? && old(s.clientCount) < 1024 then {accepted.value} else {}
    ensures !event.failed && old(s.masterFds) * event.readable == {} ==>
      forall i :: 0 <= i < MAX_CLIENTS ==>
        var c := old(s.clients[..])[i];
        s.clients[i] == if c.fd > 0 && now - c.connectTime > 30 then c.(fd := -1) else c
  {
    s.books := s.books.(turns := s.books.turns + 1);
    Scrub(s);
    var readFds := Select(s, event.readable);
    assert s.listenFd in event.readable <==> s.listenFd in readFds;
    if !event.failed && readFds != {} {
      accepted, middle := BusyTurn(s, now, readFds, event, traffic, old(s.books));
    } else {
      accepted, middle := None, s.clients[..];
      SweepIfIdle(s, now, readFds, event, old(s.books));
    }
  }

  /** A turn with something to read from, on sets of descriptors. */
  lemma TurnInSets(before: seq<ClientInfo>, middle: seq<ClientInfo>, ready: set<int>, accepted: Option<int>, now: int,
                   listenFd: int)
    requires Middle(before, middle, accepted, now) && |before| == |middle| && Distinct(before)
    requires forall i :: 0 <= i < |before| ==> before[i].fd == -1 || before[i].fd > 0
    requires accepted.Some? ==> accepted.value > 0 && accepted.value !in ready && accepted.value !in Fds(before)
    requires ready <= {listenFd} + Fds(before) && listenFd !in Fds(before)
    ensures forall fd :: fd in ReadyFds(before, ready, |before|) <==> fd in ready && fd != listenFd
    ensures Fds(Freed(middle, ready, |middle|))
         == Fds(before) - ready + if accepted.Some? then {accepted.value} else {}
  {
    ServedExactly(before, ready, |before|);
    FdsFreed(middle, ready);
    if accepted.Some? {
      var index :| Added(before, middle, index, accepted.value, now);
      FdsAdd(before, index, middle[index]);
    }
  }

  lemma FdsFreed(slots: seq<ClientInfo>, ready: set<int>)
    requires forall i :: 0 <= i < |slots| ==> slots[i].fd == -1 || slots[i].fd > 0
    ensures Fds(Freed(slots, ready, |slots|)) == Fds(slots) - ready
  {
    var after := Freed(slots, ready, |slots|);
    forall fd | fd in Fds(slots) - ready
      ensures fd in Fds(after)
    {
      var j :| 0 <= j < |slots| && slots[j].fd >= 0 && slots[j].fd == fd;
      assert after[j] == slots[j];
    }
    forall fd | fd in Fds(after)
      ensures fd in Fds(slots) - ready
    {
      var j :| 0 <= j < |after| && after[j].fd >= 0 && after[j].fd == fd;
      assert after[j] == slots[j];
    }
  }

  /** What `select` reports of the set: nothing is missed by its looking up to the maximum only. */
  method Select(s: ServerState, readable: set<int>) returns (ready: set<int>)
    requires s.Valid()
    ensures ready == s.masterFds * readable
  {
    assert forall fd :: fd in s.masterFds ==> fd <= s.maxFd;
    ready := Readable(s.masterFds, s.maxFd, readable);
  }

  /** A turn that fails or finds nothing to read from. */
  method SweepIfIdle(s: ServerState, now: int, ready: set<int>, event: Event, ghost earlier: Books)
    requires s.Valid() && (event.failed || ready == {}) && s.books == earlier.(turns := earlier.turns + 1)
    modifies s, s.clients, s.kernel`open, s.kernel`calls
    ensures s.Valid() && s.everAdded == old(s.everAdded) && s.maxFd == old(s.maxFd)
    ensures Did(s, old(s.clients[..]), old(s.clients[..]), old(s.clientCount), earlier, s.kernel.accepted,
                s.kernel.begun, event, ready, None, now)
  {
    NothingAdded(s.kernel.accepted, s.kernel.begun, earlier);
    if !event.failed {
      s.CheckIdle(now);
    }
  }

  lemma NothingAdded(accepted: seq<int>, begun: seq<int>, books: Books)
    ensures accepted + [] == accepted && begun + [] == begun
    ensures books.dropped + [] == books.dropped && books.refused + [] == books.refused
  {
  }

  /** A turn with something to read from, and what it does on sets of descriptors. */
  method BusyTurn(s: ServerState, now: int, ready: set<int>, event: Event, traffic: int -> Traffic,
                  ghost earlier: Books)
    returns (accepted: Option<int>, ghost middle: seq<ClientInfo>)
    requires s.Valid() && Sized(traffic, s.kernel.files) && !event.failed && {} < ready <= s.masterFds
    requires s.books == earlier.(turns := earlier.turns + 1)
    modifies s, s.clients, s.kernel
    ensures s.Valid() && s.everAdded >= old(s.everAdded) && s.maxFd >= old(s.maxFd)
    ensures accepted.Some? <==> s.listenFd in ready && event.delivered
    ensures accepted.Some? ==> accepted.value > 0 && accepted.value !in old(s.kernel.open)
    ensures Did(s, old(s.clients[..]), middle, old(s.clientCount), earlier, old(s.kernel.accepted),
                old(s.kernel.begun), event, ready, accepted, now)
    ensures var served := HandledIn(old(s.clients[..]), event, ready);
            && s.kernel.begun == old(s.kernel.begun) + served
            && (forall fd :: fd in served <==> fd in ready && fd != s.listenFd)
            && s.masterFds == old(s.masterFds) - (ready - {s.listenFd})
                              + if accepted.Some? && old(s.clientCount) < 1024 then {accepted.value} else {}
  {
    ghost var before, joined := s.clients[..], s.clientCount < MAX_CLIENTS;
    accepted, middle := AcceptAndServe(s, now, ready, event, traffic, earlier);
    TurnInSets(before, middle, ready, if joined then accepted else None, now, s.listenFd);
  }

  /** Both parts of a turn, with something to read from. */
  method AcceptAndServe(s: ServerState, now: int, ready: set<int>, event: Event, traffic: int -> Traffic,
                        ghost earlier: Books)
    returns (accepted: Option<int>, ghost middle: seq<ClientInfo>)
    requires s.Valid() && Sized(traffic, s.kernel.files) && !event.failed && {} < ready <= s.masterFds
    requires s.books == earlier.(turns := earlier.turns + 1)
    modifies s, s.clients, s.kernel
    ensures s.Valid() && s.everAdded >= old(s.everAdded) && s.maxFd >= old(s.maxFd)
    ensures accepted.Some? <==> s.listenFd in ready && event.delivered
    ensures accepted.Some? ==> accepted.value > 0 && accepted.value !in old(s.kernel.open)
    ensures Did(s, old(s.clients[..]), middle, old(s.clientCount), earlier, old(s.kernel.accepted),
                old(s.kernel.begun), event, ready, accepted, now)
  {
    ghost var before, count := s.clients[..], s.clientCount;
    NothingAdded(s.kernel.accepted, s.kernel.begun, earlier);
    accepted := AcceptOne(s, now, ready, event.delivered);
    middle := s.clients[..];
    NewcomerNotReady(before, middle, Joining(accepted, count), now, ready, MAX_CLIENTS);
    ServeReady(s, ready, traffic);
  }

  /** The books after one more turn. */
  function Entered(books: Books, dropped: seq<int>, refused: seq<int>): Books {
    Books(books.turns + 1, books.dropped + dropped, books.refused + refused)
  }

  /** The slots after the accept: unchanged, or with the new connection in the first free one. */
  ghost predicate Middle(before: seq<ClientInfo>, middle: seq<ClientInfo>, accepted: Option<int>, now: int) {
    if accepted == None then middle == before
    else exists index :: Added(before, middle, index, accepted.value, now)
  }

  lemma {:induction false} NewcomerNotReady(before: seq<ClientInfo>, middle: seq<ClientInfo>, accepted: Option<int>,
                                            now: int, ready: set<int>, k: nat)
    requires Middle(before, middle, accepted, now) && k <= |before| == |middle|
    requires accepted.Some? ==> accepted.value !in ready
    ensures ReadyFds(middle, ready, k) == ReadyFds(before, ready, k)
    decreases k
  {
    if k > 0 { NewcomerNotReady(before, middle, accepted, now, ready, k - 1); }
  }

  lemma {:induction false} FreedOut(slots: seq<ClientInfo>, ready: set<int>, k: nat, fd: int)
    requires k <= |slots|
    ensures Held(Freed(slots, ready, k), fd) + Times(ReadyFds(slots, ready, k), fd) == Held(slots, fd)
    decreases k
  {
    var after := Freed(slots, ready, k);
    if k == 0 {
      assert after == slots;
    } else {
      FreedOut(slots, ready, k - 1, fd);
      var before, fds, taken := Freed(slots, ready, k - 1), ReadyFds(slots, ready, k - 1), IsReady(slots[k - 1], ready);
      TakeOut(before, after, k - 1, taken, fds, fd);
      assert ReadyFds(slots, ready, k) == fds + if taken then [before[k - 1].fd] else [];
    }
  }

  lemma PutIn(before: seq<ClientInfo>, middle: seq<ClientInfo>, accepted: Option<int>, now: int, fd: int)
    requires Middle(before, middle, accepted, now) && (accepted.Some? ==> accepted.value >= 0)
    ensures Held(middle, fd) == Held(before, fd) + Times(Newcomer(accepted), fd)
  {
    if accepted.Some? {
      var index :| Added(before, middle, index, accepted.value, now);
      HeldUpdate(before, index, ClientInfo(accepted.value, now), |before|, fd);
    }
  }

  /** What a turn takes out of the table is what it handles or drops; what it puts in is what it accepts. */
  lemma TurnConserves(before: seq<ClientInfo>, middle: seq<ClientInfo>, after: seq<ClientInfo>, event: Event,
                      ready: set<int>, accepted: Option<int>, now: int, fd: int)
    requires Turned(before, middle, after, event, ready, accepted, now)
    requires accepted.Some? ==> accepted.value >= 0 && accepted.value !in ready
    ensures Held(after, fd)
              + Times(HandledIn(before, event, ready), fd) + Times(DroppedIn(before, event, ready, now), fd)
         == Held(before, fd) + Times(Newcomer(accepted), fd)
  {
    if event.failed {
    } else if ready == {} {
      SweptOut(before, now, |before|, fd);
    } else {
      PutIn(before, middle, accepted, now, fd);
      NewcomerNotReady(before, middle, accepted, now, ready, |before|);
      FreedOut(middle, ready, |middle|, fd);
    }
  }

  /** Each descriptor was accepted as often as it is in the table, was handled, dropped and refused, together. */
  ghost predicate Conserved(accepted: seq<int>, slots: seq<ClientInfo>, handled: seq<int>, books: Books) {
    forall fd :: Times(accepted, fd)
              == Held(slots, fd) + Times(handled, fd) + Times(books.dropped, fd) + Times(books.refused, fd)
  }

  lemma StillConserved(earlier: seq<int>, handled: seq<int>, books: Books, before: seq<ClientInfo>,
                       middle: seq<ClientInfo>, after: seq<ClientInfo>, event: Event, ready: set<int>,
                       accepted: Option<int>, count: int, now: int)
    requires Conserved(earlier, before, handled, books)
    requires Turned(before, middle, after, event, ready, Joining(accepted, count), now)
    requires accepted.Some? ==> accepted.value >= 0 && accepted.value !in ready
    ensures Conserved(earlier + Newcomer(accepted), after, handled + HandledIn(before, event, ready),
                      Entered(books, DroppedIn(before, event, ready, now), Refused(accepted, count)))
  {
    var more, idle := HandledIn(before, event, ready), DroppedIn(before, event, ready, now);
    var joined, refused := Joining(accepted, count), Refused(accepted, count);
    forall fd
      ensures Times(earlier + Newcomer(accepted), fd)
           == Held(after, fd) + Times(handled + more, fd)
              + Times(books.dropped + idle, fd) + Times(books.refused + refused, fd)
    {
      TurnConserves(before, middle, after, event, ready, joined, now, fd);
      TimesConcat(earlier, Newcomer(accepted), fd);
      TimesConcat(handled, more, fd);
      TimesConcat(books.dropped, idle, fd);
      TimesConcat(books.refused, refused, fd);
      assert Times(earlier, fd)
          == Held(before, fd) + Times(handled, fd) + Times(books.dropped, fd) + Times(books.refused, fd);
    }
  }

  /**
   Any number of turns: the table and the kernel agree in every state in between, and every connection that
   `accept` delivered is still in the table, was handled once, was dropped as idle, or was refused at the limit.
   */
  method RunSelectServer(kernel: Kernel.Descriptors, listenFd: int, turns: nat,
                         now: nat -> int, event: nat -> Event, traffic: nat -> int -> Traffic)
    returns (s: ServerState)
    requires listenFd >= 0 && listenFd in kernel.open
    requires forall turn :: Sized(traffic(turn), kernel.files)
    modifies kernel
    ensures s.Valid() && s.kernel == kernel && s.listenFd == listenFd && s.books.turns == turns
    ensures old(kernel.accepted) <= kernel.accepted && old(kernel.begun) <= kernel.begun
    ensures Conserved(kernel.accepted[|old(kernel.accepted)|..], s.clients[..],
                      kernel.begun[|old(kernel.begun)|..], s.books)
  {
    s := new ServerState(kernel, listenFd);
    ghost var accepted: seq<int>, handled: seq<int> := [], [];
    NothingYet(s.clients[..], s.books);
    for turn := 0 to turns
      invariant s.Valid() && s.kernel == kernel && s.listenFd == listenFd && fresh(s) && fresh(s.clients)
      invariant s.books.turns == turn
      invariant kernel.accepted == old(kernel.accepted) + accepted && kernel.begun == old(kernel.begun) + handled
      invariant Conserved(accepted, s.clients[..], handled, s.books)
    {
      accepted, handled := ConservedTurn(s, now(turn), event(turn), traffic(turn), accepted, handled);
    }
    assert kernel.accepted[|old(kernel.accepted)|..] == accepted && kernel.begun[|old(kernel.begun)|..] == handled;
  }

  lemma NothingYet(slots: seq<ClientInfo>, books: Books)
    requires forall i :: 0 <= i < |slots| ==> slots[i].fd < 0
    requires books.dropped == books.refused == []
    ensures Conserved([], slots, [], books)
  {
    forall fd
      ensures Held(slots, fd) == 0
    {
      HeldNowhere(slots, |slots|, fd);
    }
  }

  /** One turn, and what it adds to the connections accepted and handled before. */
  method ConservedTurn(s: ServerState, now: int, event: Event, traffic: int -> Traffic,
                       ghost accepted: seq<int>, ghost handled: seq<int>)
    returns (ghost accepted': seq<int>, ghost handled': seq<int>)
    requires s.Valid() && Sized(traffic, s.kernel.files) && Conserved(accepted, s.clients[..], handled, s.books)
    modifies s, s.clients, s.kernel
    ensures s.Valid() && s.books.turns == old(s.books.turns) + 1
    ensures accepted <= accepted' && s.kernel.accepted == old(s.kernel.accepted) + accepted'[|accepted|..]
    ensures handled <= handled' && s.kernel.begun == old(s.kernel.begun) + handled'[|handled|..]
    ensures Conserved(accepted', s.clients[..], handled', s.books)
  {
    ghost var slots, ready, books, count := s.clients[..], s.masterFds * event.readable, s.books, s.clientCount;
    var newcomer, middle := HandleSelectEvents(s, now, event, traffic);
    StillConserved(accepted, handled, books, slots, middle, s.clients[..], event, ready, newcomer, count, now);
    accepted', handled' := accepted + Newcomer(newcomer), handled + HandledIn(slots, event, ready);
  }

  // ---------- conservation ----------

  predicate InFirst(slots: seq<ClientInfo>, k: nat, fd: int) {
    exists j :: 0 <= j < k && j < |slots| && slots[j].fd == fd
  }

  lemma InFirstStep(slots: seq<ClientInfo>, k: nat, fd: int)
    requires 0 < k <= |slots|
    ensures InFirst(slots, k, fd) <==> InFirst(slots, k - 1, fd) || slots[k - 1].fd == fd
  {
    if InFirst(slots, k - 1, fd) {
      var j :| 0 <= j < k - 1 && slots[j].fd == fd;
      assert 0 <= j < k;
    }
  }

  lemma NotBefore(slots: seq<ClientInfo>, k: nat)
    requires k < |slots| && Distinct(slots)
    ensures slots[k].fd > 0 ==> !InFirst(slots, k, slots[k].fd)
  {
    forall j | 0 <= j < k && slots[k].fd > 0
      ensures slots[j].fd != slots[k].fd
    {
      assert Occupied(slots, k) && (slots[j].fd == slots[k].fd ==> Occupied(slots, j));
    }
  }

  predicate NoRepeats(s: seq<int>) { forall a, b :: 0 <= a < b < |s| ==> s[a] != s[b] }

  lemma {:induction false} ServedIn(slots: seq<ClientInfo>, ready: set<int>, k: nat)
    requires k <= |slots| && Distinct(slots)
    ensures forall fd :: fd in ReadyFds(slots, ready, k) <==> fd > 0 && fd in ready && InFirst(slots, k, fd)
    ensures NoRepeats(ReadyFds(slots, ready, k))
  {
    if k > 0 {
      ServedIn(slots, ready, k - 1);
      NotBefore(slots, k - 1);
      forall fd
        ensures InFirst(slots, k, fd) <==> InFirst(slots, k - 1, fd) || slots[k - 1].fd == fd
      {
        InFirstStep(slots, k, fd);
      }
      var init := ReadyFds(slots, ready, k - 1);
      if IsReady(slots[k - 1], ready) {
        AppendNew(init, slots[k - 1].fd);
      } else {
        assert ReadyFds(slots, ready, k) == init;
      }
    }
  }

  /** Served are exactly the clients with a descriptor that can be read from, each once. */
  lemma ServedExactly(slots: seq<ClientInfo>, ready: set<int>, k: nat)
    requires k <= |slots| && Distinct(slots)
    ensures var served := ReadyFds(slots, ready, k);
            && (forall fd :: fd in served <==>
                  fd > 0 && fd in ready && exists j :: 0 <= j < k && j < |slots| && slots[j].fd == fd)
            && forall a, b :: 0 <= a < b < |served| ==> served[a] != served[b]
  {
    ServedIn(slots, ready, k);
    forall fd
      ensures InFirst(slots, k, fd) <==> exists j :: 0 <= j < k && j < |slots| && slots[j].fd == fd
    {
    }
  }

  lemma AppendNew(s: seq<int>, fd: int)
    requires fd !in s && NoRepeats(s)
    ensures NoRepeats(s + [fd])
  {
    assert forall a :: 0 <= a < |s| ==> s[a] in s;
  }
}
