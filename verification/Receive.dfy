/**
 `recvRequest` of socket.c: a byte stream, cut by the kernel in any way, is pulled through a doubling
 buffer until the request is complete.
 */
module Receive {
  import opened CStrings
  import opened Framing
  import Kernel

  const INITIAL_SIZE := 4096
  const LIMIT := 10 * 1024 * 1024

  type positive = n: int | 0 < n witness 1

  /** What one `recv` finds: up to n bytes, end of stream, EAGAIN (also the receive timeout), an error. */
  datatype Arrival = Bytes(n: positive) | Closed | Again | Failed

  /** How a call of `recvRequest` ends, and how many bytes it took off the stream. */
  datatype Verdict =
    | Accepted(len: nat)
    | PeerClosed(len: nat)
    | TimedOut(len: nat)
    | RecvFailed(len: nat)
    | TooLarge(len: nat)

  // ---------- the buffer ----------

  /** The size of the buffer that the byte after the first `t` bytes is received into. */
  function Capacity(t: nat): (c: nat)
    ensures t < c && (c == INITIAL_SIZE || c <= 2 * t)
  {
    DoubledUntil(INITIAL_SIZE, t)
  }

  function DoubledUntil(size: nat, t: nat): (c: nat)
    requires size > 0
    ensures t < c && (c == size || c <= 2 * t)
    decreases t + 1 - size
  {
    if t < size then size else DoubledUntil(2 * size, t)
  }

  /** Receiving into the free part keeps the size; filling the buffer doubles it for the next byte. */
  lemma CapacityAfter(t: nat, t': nat)
    requires t <= t' <= Capacity(t)
    ensures Capacity(t') == if t' < Capacity(t) then Capacity(t) else 2 * Capacity(t)
  {
    DoubledUntilAfter(INITIAL_SIZE, t, t');
  }

  lemma DoubledUntilAfter(size: nat, t: nat, t': nat)
    requires size > 0 && t <= t' <= DoubledUntil(size, t)
    ensures DoubledUntil(size, t') == var c := DoubledUntil(size, t); if t' < c then c else 2 * c
    decreases t + 1 - size
  {
    if t >= size { DoubledUntilAfter(2 * size, t, t'); }
  }

  function Pow2(k: nat): (p: nat)
    ensures p > 0
  {
    if k == 0 then 1 else 2 * Pow2(k - 1)
  }

  /** Within the size limit the buffer has 4096 * 2^k bytes with k at most 12, so at most 16 MiB. */
  lemma {:induction false} CapacityBound(t: nat) returns (k: nat)
    requires t <= LIMIT
    ensures k <= 12 && Capacity(t) == 4096 * Pow2(k)
    ensures t < Capacity(t) <= 16_777_216
  {
    var size := INITIAL_SIZE;
    k := 0;
    while size <= t
      invariant size == INITIAL_SIZE * Pow2(k)
      invariant DoubledUntil(size, t) == Capacity(t)
      invariant size > 0 && (k == 0 || size <= 2 * t)
      decreases t + 1 - size
    {
      size, k := 2 * size, k + 1;
    }
    Pow2AtMost(k);
  }

  lemma Pow2AtMost(k: nat)
    requires INITIAL_SIZE * Pow2(k) <= 2 * LIMIT
    ensures k <= 12 && INITIAL_SIZE * Pow2(k) <= 16 * 1024 * 1024
  {
    assert Pow2(4) == 16 && Pow2(8) == 256 && Pow2(12) == 4096;
    if k >= 13 { Pow2Monotone(13, k); } else { Pow2Monotone(k, 12); }
  }

  lemma Pow2Monotone(j: nat, k: nat)
    requires j <= k
    ensures Pow2(j) <= Pow2(k)
  {
    if j < k { Pow2Monotone(j, k - 1); }
  }

  // ---------- the reference run ----------

  /** What the next `recv` finds when `t` of the `available` bytes have been taken. */
  function Next(schedule: nat -> Arrival, k: nat, t: nat, available: nat): Arrival {
    if schedule(k).Bytes? && t >= available then Again else schedule(k)
  }

  function Min(a: int, b: int): int { if a <= b then a else b }

  /** The total after a `recv` that offers n bytes: bounded by the free space and by the stream. */
  function Cut(t: nat, n: positive, available: nat): (c: nat)
    requires t < available
    ensures t < c <= available && c <= Capacity(t)
  {
    t + Min(n, Min(Capacity(t) - t, available - t))
  }

  /**
   The loop with nothing cached: after every `recv`, test the bytes so far from scratch.
   `data` is what is left of the stream, k numbers the next `recv`.
   */
  function Outcome(data: string, schedule: nat -> Arrival, k: nat, t: nat): (v: Verdict)
    requires t <= LIMIT && t <= |data|
    ensures t <= v.len <= |data|
    decreases LIMIT - t
  {
    match Next(schedule, k, t, |data|)
    case Closed => PeerClosed(t)
    case Again => TimedOut(t)
    case Failed => RecvFailed(t)
    case Bytes(n) =>
      var c := Cut(t, n, |data|);
      if Complete(data[..c]) then Accepted(c)
      else if c > LIMIT then TooLarge(c)
      else Outcome(data, schedule, k + 1, c)
  }

  /** The number of `recv`s that run makes: at most one more than the limit has bytes. */
  function Recvs(data: string, schedule: nat -> Arrival, k: nat, t: nat): (n: nat)
    requires t <= LIMIT && t <= |data|
    ensures 0 < n && t + n <= LIMIT + 1
    decreases LIMIT - t
  {
    if Next(schedule, k, t, |data|).Bytes? then
      var c := Cut(t, schedule(k).n, |data|);
      if Complete(data[..c]) || c > LIMIT then 1 else 1 + Recvs(data, schedule, k + 1, c)
    else 1
  }

  // ---------- the peer ----------

  /** One connected socket: everything the peer ever sends, and how the kernel hands it over. */
  class Wire {
    const conn: int
    const stream: string
    const schedule: nat -> Arrival
    var delivered: nat
    var recvs: nat

    constructor (conn: int, stream: string, schedule: nat -> Arrival)
      ensures this.conn == conn && this.stream == stream && this.schedule == schedule
      ensures delivered == 0 && recvs == 0
    {
      this.conn, this.stream, this.schedule := conn, stream, schedule;
      delivered, recvs := 0, 0;
    }

    predicate Valid()
      reads this
    {
      delivered <= |stream|
    }

    function Pending(): string
      requires Valid()
      reads this
    {
      stream[delivered..]
    }

    /** `recv(conn, buf + off, room, 0)`; a descriptor that is not open is an error (EBADF). */
    method Recv(kernel: Kernel.Descriptors, buf: array<char>, off: nat, room: nat, ghost held: string)
      returns (arrival: Arrival, size: nat)
      requires Valid() && 0 < room && off + room <= buf.Length && buf[..off] == held
      modifies this, buf
      ensures Valid() && recvs == old(recvs) + 1
      ensures conn in kernel.open ==> arrival == Next(schedule, old(recvs), old(delivered), |stream|)
      ensures conn !in kernel.open ==> arrival == Failed
      ensures arrival.Bytes? ==> size == Min(arrival.n, Min(room, |stream| - old(delivered))) && 0 < size
      ensures !arrival.Bytes? ==> size == 0
      ensures delivered == old(delivered) + size
      ensures buf[..off + size] == held + stream[old(delivered)..][..size]
      ensures size == 0 ==> buf[..] == old(buf[..])
    {
      arrival := if conn in kernel.open then Next(schedule, recvs, delivered, |stream|) else Failed;
      recvs := recvs + 1;
      size := 0;
      if arrival.Bytes? {
        size := Min(arrival.n, Min(room, |stream| - delivered));
        forall i | 0 <= i < size {
          buf[off + i] := stream[delivered + i];
        }
        assert buf[..off] == held;
        assert buf[..off + size] == held + stream[old(delivered)..][..size];
        delivered := delivered + size;
      } else {
        assert stream[delivered..][..size] == [];
      }
    }
  }

  /** `realloc` to a larger size: the old bytes are kept. */
  method Grow(old_: array<char>, size: nat) returns (grown: array<char>)
    requires old_.Length <= size
    ensures fresh(grown) && grown.Length == size
    ensures grown[..old_.Length] == old_[..]
  {
    grown := new char[size](_ => '\0');
    forall i | 0 <= i < old_.Length {
      grown[i] := old_[i];
    }
  }

  // ---------- recvRequest ----------

  /** What the loop remembers between two `recv`s, besides the buffer and the total. */
  datatype Memo = Memo(headerEnd: int, contentLength: int, chunked: bool)

  /** What is remembered is exactly what the helpers give on the bytes so far. */
  ghost predicate Right(memo: Memo, bytes: string) {
    && memo.headerEnd == HeaderEnd(bytes)
    && (memo.headerEnd != -1 ==>
          && memo.contentLength == ContentLength(bytes[..memo.headerEnd])
          && memo.chunked == IsChunked(bytes[..memo.headerEnd])
          && !IsBodiless(bytes[..memo.headerEnd]))
  }

  /** It stays right as bytes arrive, once the header block is known. */
  lemma RightExtends(memo: Memo, bytes: string, t: nat)
    requires t <= |bytes| && memo.headerEnd != -1 && Right(memo, bytes[..t])
    ensures Right(memo, bytes)
  {
    HeaderEndOfPrefix(bytes, t);
    assert bytes[..t][..memo.headerEnd] == bytes[..memo.headerEnd];
  }

  /** Steps 1 and 2 after a successful `recv`: the bytes so far are judged with the remembered values. */
  method Judge(bytes: string, ghost before: nat, memo: Memo) returns (complete: bool, memo': Memo)
    requires before <= |bytes| && Right(memo, bytes[..before])
    ensures complete == Complete(bytes)
    ensures !complete ==> Right(memo', bytes)
  {
    memo' := memo;
    if memo.headerEnd == -1 {
      var h := FindHttpHeaderEnd(bytes);
      memo' := memo'.(headerEnd := h);
      if h != -1 {
        var bodiless := NamesBodilessMethod(bytes[..h]);
        if bodiless {
          return true, memo';
        }
        var n := GetContentLength(bytes[..h]);
        var c := IsChunkedTransfer(bytes[..h]);
        memo' := Memo(h, n, c);
      }
    } else {
      RightExtends(memo, bytes, before);
    }
    complete := false;
    if memo'.headerEnd != -1 {
      if memo'.contentLength > 0 {
        complete := |bytes| - memo'.headerEnd >= memo'.contentLength;
      } else if memo'.chunked {
        complete := IsChunkedBodyComplete(bytes[memo'.headerEnd..]);
      } else {
        complete := |bytes| > memo'.headerEnd;
      }
    }
  }

  lemma Received(stream: string, from: nat, before: nat, got: nat)
    requires from + before + got <= |stream|
    ensures stream[from..][..before + got] == stream[from..][..before] + stream[from + before..][..got]
    ensures stream[from..][..before + got][..before] == stream[from..][..before]
  {
  }

  /** One turn of the reference run. */
  lemma OutcomeStep(data: string, schedule: nat -> Arrival, k: nat, t: nat, total: nat)
    requires t <= LIMIT && t < |data| && schedule(k).Bytes? && total == Cut(t, schedule(k).n, |data|)
    ensures Complete(data[..total]) ==> Outcome(data, schedule, k, t) == Accepted(total)
    ensures !Complete(data[..total]) && total > LIMIT ==> Outcome(data, schedule, k, t) == TooLarge(total)
    ensures Complete(data[..total]) || total > LIMIT ==> Recvs(data, schedule, k, t) == 1
    ensures !Complete(data[..total]) && total <= LIMIT ==>
      && Outcome(data, schedule, k, t) == Outcome(data, schedule, k + 1, total)
      && Recvs(data, schedule, k, t) == 1 + Recvs(data, schedule, k + 1, total)
  {
  }

  lemma OutcomeEnds(data: string, schedule: nat -> Arrival, k: nat, t: nat)
    requires t <= LIMIT && t <= |data|
    ensures !Next(schedule, k, t, |data|).Bytes? ==> Recvs(data, schedule, k, t) == 1
    ensures Next(schedule, k, t, |data|) == Closed ==> Outcome(data, schedule, k, t) == PeerClosed(t)
    ensures Next(schedule, k, t, |data|) == Again ==> Outcome(data, schedule, k, t) == TimedOut(t)
    ensures Next(schedule, k, t, |data|) == Failed ==> Outcome(data, schedule, k, t) == RecvFailed(t)
  {
  }

  /** The terminated bytes that a non-null result holds. */
  ghost predicate Holds(req: array<char>, data: string)
    reads req
  {
    |data| < req.Length && req[..|data|] == data && req[|data|] == '\0'
  }

  /** The top of the loop: make room, then receive into the free part of the buffer. */
  method ReceiveMore(kernel: Kernel.Descriptors, wire: Wire, full: array<char>, total: nat, ghost before: nat,
                     ghost from: nat, ghost data: string)
    returns (req: array<char>, arrival: Arrival, total': nat)
    requires wire.Valid() && from + total == wire.delivered && data == wire.stream[from..]
    requires before <= total <= full.Length == Capacity(before) && full[..total] == data[..total]
    modifies wire, full
    ensures wire.Valid() && from + total' == wire.delivered && wire.recvs == old(wire.recvs) + 1
    ensures fresh(req) || req == full
    ensures total' <= req.Length == Capacity(total) && req[..total'] == data[..total']
    ensures wire.conn in kernel.open ==> arrival == Next(wire.schedule, old(wire.recvs), total, |data|)
    ensures wire.conn !in kernel.open ==> arrival == Failed
    ensures arrival.Bytes? ==> total < |data| && total' == Cut(total, arrival.n, |data|)
    ensures !arrival.Bytes? ==> total' == total
    ensures total' == 0 && full.Length > 0 && old(full[0]) == '\0' ==> req[0] == '\0'
  {
    CapacityAfter(before, total);
    req := full;
    if total == req.Length {
      req := Grow(req, req.Length * 2);
      assert full[..] == full[..total];
    }
    var got: nat;
    arrival, got := wire.Recv(kernel, req, total, req.Length - total, data[..total]);
    total' := total + got;
    Received(wire.stream, from, total, got);
  }

  /** One turn of the loop; `verdict` is None when it goes on. */
  method Turn(kernel: Kernel.Descriptors, wire: Wire, full: array<char>, total: nat, memo: Memo, ghost before: nat,
              ghost from: nat, ghost data: string)
    returns (req: array<char>, total': nat, memo': Memo, verdict: Option<Verdict>)
    requires wire.Valid() && from + total == wire.delivered && data == wire.stream[from..]
    requires before <= total <= full.Length == Capacity(before) && full[..total] == data[..total]
    requires total <= LIMIT && Right(memo, data[..total])
    modifies wire, full
    ensures wire.Valid() && from + total' == wire.delivered && wire.recvs == old(wire.recvs) + 1
    ensures fresh(req) || req == full
    ensures total' <= req.Length == Capacity(total) && req[..total'] == data[..total']
    ensures total' == 0 && full.Length > 0 && old(full[0]) == '\0' ==> req[0] == '\0'
    ensures wire.conn !in kernel.open ==> total' == total && verdict == Some(RecvFailed(total))
    ensures verdict == None ==>
      && total < total' <= LIMIT && Right(memo', data[..total'])
      && Outcome(data, wire.schedule, old(wire.recvs), total) == Outcome(data, wire.schedule, wire.recvs, total')
      && Recvs(data, wire.schedule, old(wire.recvs), total) == 1 + Recvs(data, wire.schedule, wire.recvs, total')
    ensures verdict.Some? ==> verdict.value.len == total'
    ensures verdict.Some? && wire.conn in kernel.open ==>
      && verdict.value == Outcome(data, wire.schedule, old(wire.recvs), total)
      && Recvs(data, wire.schedule, old(wire.recvs), total) == 1
  {
    var arrival: Arrival;
    req, arrival, total' := ReceiveMore(kernel, wire, full, total, before, from, data);
    memo', verdict := memo, None;
    if arrival.Bytes? {
      OutcomeStep(data, wire.schedule, old(wire.recvs), total, total');
      assert data[..total'][..total] == data[..total];
      var complete: bool;
      complete, memo' := Judge(req[..total'], total, memo);
      if complete {
        verdict := Some(Accepted(total'));
      } else if total' > LIMIT {
        verdict := Some(TooLarge(total'));
      }
    } else {
      OutcomeEnds(data, wire.schedule, old(wire.recvs), total);
      verdict := Some(
        match arrival case Closed => PeerClosed(total) case Again => TimedOut(total) case _ => RecvFailed(total));
    }
  }

  method RecvRequest(kernel: Kernel.Descriptors, wire: Wire)
    returns (req: array?<char>, verdict: Verdict, ghost before: nat)
    requires wire.Valid()
    modifies wire
    ensures wire.Valid()
    ensures wire.conn in kernel.open ==>
      && verdict == Outcome(old(wire.Pending()), wire.schedule, old(wire.recvs), 0)
      && wire.recvs == old(wire.recvs) + Recvs(old(wire.Pending()), wire.schedule, old(wire.recvs), 0)
    ensures wire.conn !in kernel.open ==> verdict == RecvFailed(0) && wire.recvs == old(wire.recvs) + 1
    ensures wire.delivered == old(wire.delivered) + verdict.len
    ensures req != null <==> verdict.Accepted? || verdict.PeerClosed?
    ensures req != null ==> fresh(req) && Holds(req, old(wire.Pending())[..verdict.len])
    ensures before <= LIMIT && verdict.len <= Capacity(before)
    ensures req != null ==>
      req.Length == if verdict.len < Capacity(before) then Capacity(before) else Capacity(before) + 1
  {
    ghost var from, data, k0 := wire.delivered, wire.Pending(), wire.recvs;
    ghost var expected, end := Outcome(data, wire.schedule, k0, 0), k0 + Recvs(data, wire.schedule, k0, 0);
    var buffer := new char[INITIAL_SIZE](_ => '\0');
    var total, memo := 0, Memo(-1, -1, false);
    var ending: Option<Verdict> := None;
    before := 0;
    while ending == None
      invariant wire.Valid() && wire.delivered == from + total
      invariant fresh(buffer) && before <= LIMIT && before <= total <= buffer.Length == Capacity(before)
      invariant buffer[..total] == data[..total] && (total == 0 ==> buffer[0] == '\0')
      invariant ending == None ==> total <= LIMIT && Right(memo, data[..total])
      invariant ending == None && wire.conn in kernel.open ==>
        && Outcome(data, wire.schedule, wire.recvs, total) == expected
        && wire.recvs + Recvs(data, wire.schedule, wire.recvs, total) == end
      invariant ending.Some? ==> ending.value.len == total
      invariant ending.Some? && wire.conn in kernel.open ==> ending.value == expected && wire.recvs == end
      invariant wire.conn !in kernel.open ==>
        total == 0 && if ending == None then wire.recvs == k0 else wire.recvs == k0 + 1 && ending.value == RecvFailed(0)
      decreases ending == None, LIMIT - total
    {
      var total': nat;
      ghost var last := before;
      before := total;
      buffer, total', memo, ending := Turn(kernel, wire, buffer, total, memo, last, from, data);
      total := total';
    }
    verdict := ending.value;
    req := null;
    if verdict.Accepted? || verdict.PeerClosed? {
      req := Terminate(buffer, total, data[..total]);
    }
  }

  /** Puts a '\0' after the received bytes; a full buffer first gets one more byte. */
  method Terminate(req: array<char>, total: nat, ghost bytes: string) returns (terminated: array<char>)
    requires total == |bytes| <= req.Length && req[..total] == bytes
    requires total == 0 ==> 0 < req.Length && req[0] == '\0'
    modifies req
    ensures Holds(terminated, bytes) && (terminated == req || fresh(terminated))
    ensures terminated.Length == if total < req.Length then req.Length else req.Length + 1
  {
    terminated := req;
    if total > 0 {
      if total == req.Length {
        terminated := Grow(req, total + 1);
      }
      terminated[total] := '\0';
    }
    assert terminated[..total] == bytes;
  }
}
