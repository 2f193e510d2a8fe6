/**
 The client table of select mode: slots, count, descriptor set and maximum, kept in step with each
 other and with the kernel's open descriptors (select/select.c, and the initialisation in socket.c).
 */
module SelectTable {
  import opened CStrings
  import Kernel

  const MAX_CLIENTS := 1024

  datatype ClientInfo = ClientInfo(fd: int, connectTime: int)

  // ---------- slots as a sequence ----------

  predicate Occupied(slots: seq<ClientInfo>, i: int) { 0 <= i < |slots| && slots[i].fd >= 0 }

  /** How many slots are occupied. */
  function Count(slots: seq<ClientInfo>): (c: nat)
    ensures c <= |slots|
  {
    CountIn(slots, |slots|)
  }

  function CountIn(slots: seq<ClientInfo>, n: nat): (c: nat)
    requires n <= |slots|
    ensures c <= n
  {
    if n == 0 then 0 else CountIn(slots, n - 1) + if slots[n - 1].fd >= 0 then 1 else 0
  }

  ghost predicate Distinct(slots: seq<ClientInfo>) {
    forall i, j :: Occupied(slots, i) && Occupied(slots, j) && slots[i].fd == slots[j].fd ==> i == j
  }

  /** The descriptors in the table. */
  ghost function Fds(slots: seq<ClientInfo>): set<int> {
    set i | 0 <= i < |slots| && slots[i].fd >= 0 :: slots[i].fd
  }

  /** How many slots hold a descriptor. */
  function Held(slots: seq<ClientInfo>, fd: int): nat { HeldIn(slots, |slots|, fd) }

  function HeldIn(slots: seq<ClientInfo>, n: nat, fd: int): nat
    requires n <= |slots|
  {
    if n == 0 then 0 else HeldIn(slots, n - 1, fd) + One(slots[n - 1], fd)
  }

  function One(c: ClientInfo, fd: int): nat { if c.fd == fd >= 0 then 1 else 0 }

  lemma {:induction false} HeldUpdate(slots: seq<ClientInfo>, i: nat, c: ClientInfo, n: nat, fd: int)
    requires i < |slots| && n <= |slots|
    ensures HeldIn(slots[i := c], n, fd)
         == HeldIn(slots, n, fd) + if i < n then One(c, fd) - One(slots[i], fd) else 0
    decreases n
  {
    if n > 0 { HeldUpdate(slots, i, c, n - 1, fd); }
  }

  lemma {:induction false} HeldNowhere(slots: seq<ClientInfo>, n: nat, fd: int)
    requires n <= |slots| && forall i :: 0 <= i < |slots| ==> slots[i].fd < 0
    ensures HeldIn(slots, n, fd) == 0
  {
    if n > 0 { HeldNowhere(slots, n - 1, fd); }
  }

  /** Updating one slot changes the count by what that slot contributes. */
  lemma CountUpdate(slots: seq<ClientInfo>, i: nat, c: ClientInfo)
    requires i < |slots|
    ensures Count(slots[i := c])
         == Count(slots) - (if slots[i].fd >= 0 then 1 else 0) + (if c.fd >= 0 then 1 else 0)
  {
    CountInUpdate(slots, i, c, |slots|);
  }

  lemma {:induction false} CountInUpdate(slots: seq<ClientInfo>, i: nat, c: ClientInfo, n: nat)
    requires i < |slots| && n <= |slots|
    ensures CountIn(slots[i := c], n) == CountIn(slots, n)
              + if i < n then (if c.fd >= 0 then 1 else 0) - (if slots[i].fd >= 0 then 1 else 0) else 0
    decreases n
  {
    if n > 0 { CountInUpdate(slots, i, c, n - 1); }
  }

  /** A table whose count is below its size has a free slot. */
  lemma {:induction false} FullCount(slots: seq<ClientInfo>, n: nat)
    requires n <= |slots| && forall i :: 0 <= i < |slots| ==> slots[i].fd >= 0
    ensures CountIn(slots, n) == n
  {
    if n > 0 { FullCount(slots, n - 1); }
  }

  lemma {:induction false} EmptyCount(slots: seq<ClientInfo>, n: nat)
    requires n <= |slots| && forall i :: 0 <= i < |slots| ==> slots[i].fd < 0
    ensures CountIn(slots, n) == 0
  {
    if n > 0 { EmptyCount(slots, n - 1); }
  }

  lemma FdsAdd(slots: seq<ClientInfo>, i: nat, c: ClientInfo)
    requires i < |slots| && slots[i].fd < 0 && c.fd >= 0
    ensures Fds(slots[i := c]) == Fds(slots) + {c.fd}
    ensures Distinct(slots) && c.fd !in Fds(slots) ==> Distinct(slots[i := c])
  {
    var after := slots[i := c];
    forall fd | fd in Fds(slots)
      ensures fd in Fds(after)
    {
      var j :| 0 <= j < |slots| && slots[j].fd >= 0 && slots[j].fd == fd;
      assert after[j] == slots[j];
    }
    assert after[i] == c;
  }

  lemma FdsRemove(slots: seq<ClientInfo>, i: nat, c: ClientInfo)
    requires Occupied(slots, i) && Distinct(slots) && c.fd < 0
    ensures Fds(slots[i := c]) == Fds(slots) - {slots[i].fd}
    ensures Distinct(slots[i := c])
  {
    var after := slots[i := c];
    forall fd | fd in Fds(slots) - {slots[i].fd}
      ensures fd in Fds(after)
    {
      var j :| 0 <= j < |slots| && slots[j].fd >= 0 && slots[j].fd == fd;
      assert after[j] == slots[j];
    }
    forall fd | fd in Fds(after)
      ensures fd in Fds(slots) && fd != slots[i].fd
    {
      var j :| 0 <= j < |after| && after[j].fd >= 0 && after[j].fd == fd;
      assert slots[j] == after[j] && Occupied(slots, j) && Occupied(slots, i);
    }
  }

  // ---------- the server state ----------

  /** What happened so far: turns of the loop, connections dropped as idle, connections refused at the limit. */
  datatype Books = Books(turns: nat, dropped: seq<int>, refused: seq<int>)

  class ServerState {
    const kernel: Kernel.Descriptors
    const listenFd: int
    const clients: array<ClientInfo>
    var clientCount: int
    var maxFd: int
    var masterFds: set<int>
    ghost var everAdded: set<int>
    ghost var books: Books

    /** Slots, count, set and maximum agree with each other. */
    ghost predicate Consistent()
      reads this, clients
    {
      && clients.Length == MAX_CLIENTS && listenFd >= 0
      && (forall i :: 0 <= i < MAX_CLIENTS ==> clients[i].fd == -1 || clients[i].fd > 0)
      && clientCount == Count(clients[..])
      && Distinct(clients[..]) && listenFd !in Fds(clients[..])
      && masterFds == {listenFd} + Fds(clients[..])
      && Fds(clients[..]) <= everAdded
      && maxFd in {listenFd} + everAdded && listenFd <= maxFd
      && forall fd :: fd in everAdded ==> fd <= maxFd
    }

    /** ... and with the kernel: the listener and every client in the table are open. */
    ghost predicate Valid()
      reads this, clients, kernel
    {
      Consistent() && masterFds <= kernel.open
    }

    /** From `initSocket`, with the listening socket just opened. */
    constructor (kernel: Kernel.Descriptors, listenFd: int)
      requires listenFd >= 0 && listenFd in kernel.open
      ensures Valid() && this.kernel == kernel && this.listenFd == listenFd
      ensures clientCount == 0 && masterFds == {listenFd} && maxFd == listenFd && everAdded == {}
      ensures books == Books(0, [], [])
      ensures fresh(clients) && clients.Length == 1024 && forall i :: 0 <= i < MAX_CLIENTS ==> clients[i].fd == -1
    {
      this.kernel, this.listenFd := kernel, listenFd;
      clientCount, maxFd, masterFds, everAdded, books := 0, listenFd, {listenFd}, {}, Books(0, [], []);
      clients := new ClientInfo[MAX_CLIENTS](_ => ClientInfo(0, 0));
      new;
      var i := 0;
      while i < MAX_CLIENTS
        invariant 0 <= i <= MAX_CLIENTS
        invariant forall j :: 0 <= j < i ==> clients[j].fd == -1
        modifies clients
      {
        clients[i] := clients[i].(fd := -1);
        i := i + 1;
      }
      EmptyCount(clients[..], MAX_CLIENTS);
      assert Fds(clients[..]) == {};
    }

    /** `addClientToSelect`: an accepted connection goes to the first free slot, or is closed. */
    method AddClient(clientFd: int, now: int) returns (index: int)
      requires Consistent() && clientFd > 0 && clientFd !in masterFds
      modifies this, clients, kernel`open, kernel`calls
      ensures Consistent() && everAdded >= old(everAdded)
      ensures old(clientCount) < MAX_CLIENTS ==>
        && 0 <= index < 1024 && old(clients[..])[index].fd < 0
        && (forall j :: 0 <= j < index ==> old(clients[..])[j].fd >= 0)
        && clients[..] == old(clients[..])[index := ClientInfo(clientFd, now)]
        && clientCount == old(clientCount) + 1 && masterFds == old(masterFds) + {clientFd}
        && everAdded == old(everAdded) + {clientFd} && books == old(books)
        && kernel.open == old(kernel.open) && kernel.calls == old(kernel.calls)
      ensures old(clientCount) >= MAX_CLIENTS ==>
        && index == -1 && clients[..] == old(clients[..]) && clientCount == old(clientCount)
        && masterFds == old(masterFds) && maxFd == old(maxFd) && everAdded == old(everAdded)
        && books == old(books).(refused := old(books).refused + [clientFd])
        && kernel.open == old(kernel.open) - {clientFd}
    {
      if clientCount >= MAX_CLIENTS {
        kernel.Close(clientFd);
        books := books.(refused := books.refused + [clientFd]);
        return -1;
      }
      index := FirstFree();
      if index < 0 {
        FullCount(clients[..], MAX_CLIENTS);
        assert false;  // no free slot: cannot happen
      }
      Occupy(index, clientFd, now);
    }

    /** Fills a free slot. */
    method Occupy(index: nat, clientFd: int, now: int)
      requires Consistent() && clientFd > 0 && clientFd !in masterFds
      requires index < MAX_CLIENTS && clients[index].fd < 0
      modifies this, clients
      ensures Consistent() && clients[..] == old(clients[..])[index := ClientInfo(clientFd, now)]
      ensures clientCount == old(clientCount) + 1 && masterFds == old(masterFds) + {clientFd}
      ensures everAdded == old(everAdded) + {clientFd} && books == old(books)
    {
      ghost var before := clients[..];
      clients[index] := ClientInfo(clientFd, now);
      masterFds := masterFds + {clientFd};
      if clientFd > maxFd {
        maxFd := clientFd;
      }
      clientCount := clientCount + 1;
      everAdded := everAdded + {clientFd};
      assert clients[..] == before[index := ClientInfo(clientFd, now)];
      CountUpdate(before, index, ClientInfo(clientFd, now));
      FdsAdd(before, index, ClientInfo(clientFd, now));
    }

    /** The search for a free slot. */
    method FirstFree() returns (index: int)
      requires clients.Length == MAX_CLIENTS
      ensures -1 <= index < MAX_CLIENTS
      ensures index >= 0 ==> clients[index].fd < 0
      ensures forall j :: 0 <= j < (if index < 0 then MAX_CLIENTS else index) ==> clients[j].fd >= 0
    {
      var i := 0;
      while i < MAX_CLIENTS
        invariant 0 <= i <= MAX_CLIENTS
        invariant forall j :: 0 <= j < i ==> clients[j].fd >= 0
      {
        if clients[i].fd < 0 {
          return i;
        }
        i := i + 1;
      }
      return -1;
    }

    /** `removeClientFromSelect`: an index out of range or a free slot is ignored. */
    method RemoveClient(index: int)
      requires Consistent()
      modifies this, clients, kernel`open, kernel`calls
      ensures Consistent() && maxFd == old(maxFd) && everAdded == old(everAdded) && books == old(books)
      ensures !Occupied(old(clients[..]), index) ==>
        && clients[..] == old(clients[..]) && clientCount == old(clientCount) && masterFds == old(masterFds)
        && kernel.open == old(kernel.open) && kernel.calls == old(kernel.calls)
      ensures Occupied(old(clients[..]), index) ==>
        && clients[..] == old(clients[..])[index := old(clients[index]).(fd := -1)]
        && clientCount == old(clientCount) - 1 && masterFds == old(masterFds) - {old(clients[index].fd)}
        && kernel.open == old(kernel.open) - {old(clients[index].fd)}
    {
      if index < 0 || index >= MAX_CLIENTS {
        return;
      }
      var fd := clients[index].fd;
      if fd < 0 {
        return;
      }
      ghost var before := clients[..];
      assert fd in Fds(before);
      masterFds := masterFds - {fd};
      kernel.Close(fd);
      if fd == maxFd {
        forall i | 0 <= i < MAX_CLIENTS
          ensures clients[i].fd <= maxFd
        {
          assert clients[i].fd >= 0 ==> clients[..][i].fd in Fds(before);
        }
        RecomputeMax();
      }
      clients[index] := clients[index].(fd := -1);
      clientCount := clientCount - 1;
      assert clients[..] == before[index := before[index].(fd := -1)];
      CountUpdate(before, index, before[index].(fd := -1));
      FdsRemove(before, index, before[index].(fd := -1));
    }

    /**
     The loop over the slots when the largest descriptor leaves.  The leaving slot still holds that
     descriptor, so the maximum never shrinks.
     */
    method RecomputeMax()
      requires clients.Length == MAX_CLIENTS && listenFd <= maxFd
      requires forall i :: 0 <= i < MAX_CLIENTS ==> clients[i].fd <= maxFd
      requires exists i :: 0 <= i < MAX_CLIENTS && clients[i].fd == maxFd
      modifies this`maxFd
      ensures maxFd == old(maxFd)
    {
      ghost var top := maxFd;
      ghost var leaving :| 0 <= leaving < MAX_CLIENTS && clients[leaving].fd == top;
      maxFd := listenFd;
      var i := 0;
      while i < MAX_CLIENTS
        invariant 0 <= i <= MAX_CLIENTS && maxFd <= top
        invariant leaving < i ==> maxFd == top
      {
        if clients[i].fd > maxFd {
          maxFd := clients[i].fd;
        }
        i := i + 1;
      }
    }

    /** When the first i slots have been looked at: slots, set, books and open descriptors. */
    ghost predicate SweptUpTo(before: seq<ClientInfo>, now: int, i: nat, fds: set<int>, earlier: Books, open: set<int>)
      requires i <= |before|
      reads this, clients, kernel
    {
      && clients[..] == Swept(before, now, i) && masterFds <= fds
      && books == earlier.(dropped := earlier.dropped + IdleFds(before, now, i))
      && kernel.open == open - (fds - masterFds)
    }

    /** `checkIdleConnections`: every connection older than 30 seconds is dropped, nothing else changes. */
    method CheckIdle(now: int)
      requires Valid()
      modifies this, clients, kernel`open, kernel`calls
      ensures Valid() && maxFd == old(maxFd) && everAdded == old(everAdded)
      ensures SweptUpTo(old(clients[..]), now, MAX_CLIENTS, old(masterFds), old(books), old(kernel.open))
      ensures clientCount == old(clientCount) - |IdleFds(old(clients[..]), now, MAX_CLIENTS)|
      ensures forall i :: 0 <= i < MAX_CLIENTS ==>
        var c := old(clients[..])[i];
        clients[i] == if c.fd > 0 && now - c.connectTime > 30 then c.(fd := -1) else c
    {
      ghost var before, earlier, fds, open := clients[..], books, masterFds, kernel.open;
      assert Swept(before, now, 0) == before && earlier.dropped + [] == earlier.dropped;
      var i := 0;
      while i < MAX_CLIENTS
        invariant 0 <= i <= MAX_CLIENTS && Valid()
        invariant maxFd == old(maxFd) && everAdded == old(everAdded)
        invariant SweptUpTo(before, now, i, fds, earlier, open)
      {
        CheckSlot(i, now, before, fds, earlier, open);
        i := i + 1;
      }
      SweptCount(before, now, MAX_CLIENTS);
    }

    /** One slot of it. */
    method CheckSlot(i: nat, now: int, ghost before: seq<ClientInfo>, ghost fds: set<int>, ghost earlier: Books,
                     ghost open: set<int>)
      requires Valid() && i < MAX_CLIENTS == |before| && SweptUpTo(before, now, i, fds, earlier, open)
      modifies this, clients, kernel`open, kernel`calls
      ensures Valid() && maxFd == old(maxFd) && everAdded == old(everAdded)
      ensures SweptUpTo(before, now, i + 1, fds, earlier, open)
    {
      var client := clients[i];
      assert client == clients[..][i] == before[i];
      SweptFurther(before, now, i, earlier.dropped);
      if client.fd > 0 {
        if now - client.connectTime > 30 {
          assert Occupied(clients[..], i);
          RemoveClient(i);
          books := books.(dropped := books.dropped + [client.fd]);
        }
      }
    }
  }

  lemma SweptFurther(slots: seq<ClientInfo>, now: int, i: nat, dropped: seq<int>)
    requires i < |slots|
    ensures Swept(slots, now, i + 1)
         == var s := Swept(slots, now, i); if Idle(slots[i], now) then s[i := slots[i].(fd := -1)] else s
    ensures dropped + IdleFds(slots, now, i + 1)
         == if Idle(slots[i], now) then dropped + IdleFds(slots, now, i) + [slots[i].fd]
            else dropped + IdleFds(slots, now, i)
  {
  }

  /** What adding a client does to the slots. */
  predicate Added(before: seq<ClientInfo>, after: seq<ClientInfo>, index: int, fd: int, now: int) {
    && 0 <= index < |before| && before[index].fd < 0
    && (forall j :: 0 <= j < index ==> before[j].fd >= 0)
    && after == before[index := ClientInfo(fd, now)]
  }

  predicate Idle(c: ClientInfo, now: int) { c.fd > 0 && now - c.connectTime > 30 }

  /** The first k slots after an idle sweep. */
  ghost function Swept(slots: seq<ClientInfo>, now: int, k: nat): (s: seq<ClientInfo>)
    requires k <= |slots|
    ensures |s| == |slots|
    ensures forall j :: 0 <= j < |slots| ==>
      s[j] == if j < k && Idle(slots[j], now) then slots[j].(fd := -1) else slots[j]
  {
    seq(|slots|, j requires 0 <= j < |slots| =>
      if j < k && Idle(slots[j], now) then slots[j].(fd := -1) else slots[j])
  }

  /** The descriptors that it drops from the first k slots. */
  function IdleFds(slots: seq<ClientInfo>, now: int, k: nat): seq<int>
    requires k <= |slots|
  {
    if k == 0 then []
    else IdleFds(slots, now, k - 1) + if Idle(slots[k - 1], now) then [slots[k - 1].fd] else []
  }

  /** A sweep takes exactly these out of the table. */
  lemma {:induction false} SweptOut(slots: seq<ClientInfo>, now: int, k: nat, fd: int)
    requires k <= |slots|
    ensures Held(Swept(slots, now, k), fd) + Times(IdleFds(slots, now, k), fd) == Held(slots, fd)
    decreases k
  {
    var after := Swept(slots, now, k);
    if k == 0 {
      assert after == slots;
    } else {
      SweptOut(slots, now, k - 1, fd);
      var before, fds, idle := Swept(slots, now, k - 1), IdleFds(slots, now, k - 1), Idle(slots[k - 1], now);
      TakeOut(before, after, k - 1, idle, fds, fd);
      assert IdleFds(slots, now, k) == fds + if idle then [before[k - 1].fd] else [];
    }
  }

  /** Freeing a slot takes its descriptor out of the table and adds it to a list. */
  lemma TakeOut(before: seq<ClientInfo>, after: seq<ClientInfo>, i: nat, taken: bool, fds: seq<int>, fd: int)
    requires i < |before| == |after| && (taken ==> before[i].fd >= 0)
    requires forall j :: 0 <= j < |before| ==> after[j] == if j == i && taken then before[j].(fd := -1) else before[j]
    ensures var more := if taken then [before[i].fd] else [];
            Held(after, fd) + Times(fds + more, fd) == Held(before, fd) + Times(fds, fd)
  {
    assert after == before[i := after[i]];
    HeldUpdate(before, i, after[i], |before|, fd);
    if taken {
      TimesConcat(fds, [before[i].fd], fd);
    } else {
      assert fds + [] == fds;
    }
  }

  /** How often a list has a descriptor. */
  function Times(fds: seq<int>, fd: int): nat {
    if fds == [] then 0 else Times(fds[..|fds| - 1], fd) + if fds[|fds| - 1] == fd then 1 else 0
  }

  lemma {:induction false} TimesConcat(a: seq<int>, b: seq<int>, fd: int)
    ensures Times(a + b, fd) == Times(a, fd) + Times(b, fd)
    decreases |b|
  {
    if b == [] {
      assert a + b == a;
    } else {
      assert (a + b)[..|a + b| - 1] == a + b[..|b| - 1];
      TimesConcat(a, b[..|b| - 1], fd);
    }
  }

  lemma {:induction false} SweptCount(slots: seq<ClientInfo>, now: int, k: nat)
    requires k <= |slots|
    ensures Count(Swept(slots, now, k)) == Count(slots) - |IdleFds(slots, now, k)|
    decreases k
  {
    var after := Swept(slots, now, k);
    if k == 0 {
      assert after == slots;
    } else {
      SweptCount(slots, now, k - 1);
      var before := Swept(slots, now, k - 1);
      assert after == before[k - 1 := after[k - 1]];
      CountUpdate(before, k - 1, after[k - 1]);
    }
  }
}
