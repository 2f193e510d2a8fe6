/**
 How the kernel cuts a stream cannot change what is received: the run of `recvRequest` depends on the
 bytes only through the least complete length.
 */
module Segmentation {
  import opened CStrings
  import opened Framing
  import opened Receive

  // ---------- stopping at the first complete cut ----------

  /** The total after j successful `recv`s, starting from t; None if one of them delivers nothing. */
  function Total(schedule: nat -> Arrival, k: nat, t: nat, available: nat, j: nat): Option<nat>
    decreases j
  {
    if j == 0 then Some(t)
    else if Next(schedule, k, t, available).Bytes? then
      Total(schedule, k + 1, Cut(t, schedule(k).n, available), available, j - 1)
    else None
  }

  /** The first j totals go on: not complete, not over the limit; the j-th is complete. */
  ghost predicate FirstComplete(data: string, schedule: nat -> Arrival, k: nat, t: nat, j: nat, len: nat) {
    && Total(schedule, k, t, |data|, j) == Some(len) && len <= |data| && Complete(data[..len])
    && forall i: nat :: 0 < i < j ==> GoesOn(data, schedule, k, t, i)
  }

  ghost predicate GoesOn(data: string, schedule: nat -> Arrival, k: nat, t: nat, i: nat) {
    var total := Total(schedule, k, t, |data|, i);
    total.Some? && total.value <= LIMIT && total.value <= |data| && !Complete(data[..total.value])
  }

  /** Success comes exactly at the first cut at which the from-scratch test holds. */
  lemma {:induction false} AcceptedIffFirstComplete(data: string, schedule: nat -> Arrival, k: nat, t: nat, len: nat)
    requires t <= LIMIT && t <= |data|
    ensures Outcome(data, schedule, k, t) == Accepted(len)
       <==> exists j: nat :: 0 < j && FirstComplete(data, schedule, k, t, j, len)
    decreases LIMIT - t
  {
    if Next(schedule, k, t, |data|).Bytes? {
      var c := Cut(t, schedule(k).n, |data|);
      if exists j: nat :: 0 < j && FirstComplete(data, schedule, k, t, j, len) {
        var j: nat :| 0 < j && FirstComplete(data, schedule, k, t, j, len);
        FirstCompleteStarts(data, schedule, k, t, j, len);
        if j > 1 {
          AcceptedIffFirstComplete(data, schedule, k + 1, c, len);
          FirstCompleteShifts(data, schedule, k, t, j - 1, len);
        }
      } else if Complete(data[..c]) {
        OneCut(schedule, k, t, |data|);
        assert FirstComplete(data, schedule, k, t, 1, c);
      } else if c <= LIMIT {
        AcceptedIffFirstComplete(data, schedule, k + 1, c, len);
        if Outcome(data, schedule, k + 1, c) == Accepted(len) {
          var j: nat :| 0 < j && FirstComplete(data, schedule, k + 1, c, j, len);
          FirstCompleteShifts(data, schedule, k, t, j, len);
          assert false;
        }
      }
    } else if exists j: nat :: 0 < j && FirstComplete(data, schedule, k, t, j, len) {
      assert false;
    }
  }

  lemma FirstCompleteStarts(data: string, schedule: nat -> Arrival, k: nat, t: nat, j: nat, len: nat)
    requires 0 < j && t <= |data| && Next(schedule, k, t, |data|).Bytes?
    requires FirstComplete(data, schedule, k, t, j, len)
    ensures var c := Cut(t, schedule(k).n, |data|);
            if j == 1 then len == c && Complete(data[..c]) else c <= LIMIT && !Complete(data[..c])
  {
    OneCut(schedule, k, t, |data|);
    if j != 1 {
      assert GoesOn(data, schedule, k, t, 1);
    }
  }

  lemma OneCut(schedule: nat -> Arrival, k: nat, t: nat, available: nat)
    requires Next(schedule, k, t, available).Bytes?
    ensures Total(schedule, k, t, available, 1) == Some(Cut(t, schedule(k).n, available))
    ensures forall j: nat {:trigger Total(schedule, k, t, available, j + 1)} ::
      Total(schedule, k, t, available, j + 1)
      == Total(schedule, k + 1, Cut(t, schedule(k).n, available), available, j)
  {
    var c := Cut(t, schedule(k).n, available);
    assert Total(schedule, k + 1, c, available, 0) == Some(c);
  }

  lemma FirstCompleteShifts(data: string, schedule: nat -> Arrival, k: nat, t: nat, j: nat, len: nat)
    requires 0 < j && t <= |data| && Next(schedule, k, t, |data|).Bytes?
    requires var c := Cut(t, schedule(k).n, |data|); c <= LIMIT && !Complete(data[..c])
    ensures FirstComplete(data, schedule, k + 1, Cut(t, schedule(k).n, |data|), j, len)
       <==> FirstComplete(data, schedule, k, t, j + 1, len)
  {
    var c, next := Cut(t, schedule(k).n, |data|), k + 1;
    OneCut(schedule, k, t, |data|);
    if FirstComplete(data, schedule, next, c, j, len) {
      forall i: nat | 0 < i < j + 1
        ensures GoesOn(data, schedule, k, t, i)
      {
        assert i == 1 || GoesOn(data, schedule, next, c, i - 1);
        assert Total(schedule, k, t, |data|, (i - 1) + 1) == Total(schedule, next, c, |data|, i - 1);
      }
    }
    if FirstComplete(data, schedule, k, t, j + 1, len) {
      forall i: nat | 0 < i < j
        ensures GoesOn(data, schedule, next, c, i)
      {
        assert GoesOn(data, schedule, k, t, i + 1);
      }
    }
  }

  // ---------- only the least complete length matters ----------

  /** The run with the bytes forgotten: sizes, and the least complete length m if there is one. */
  function Replay(schedule: nat -> Arrival, k: nat, t: nat, available: nat, m: Option<nat>): Verdict
    requires t <= LIMIT
    decreases LIMIT - t
  {
    match Next(schedule, k, t, available)
    case Closed => PeerClosed(t)
    case Again => TimedOut(t)
    case Failed => RecvFailed(t)
    case Bytes(n) =>
      var c := Cut(t, n, available);
      if m.Some? && m.value <= c then Accepted(c)
      else if c > LIMIT then TooLarge(c)
      else Replay(schedule, k + 1, c, available, m)
  }

  /** Two streams of one length and one least complete length are received alike, however they are cut. */
  lemma {:induction false} OutcomeIsReplay(data: string, schedule: nat -> Arrival, k: nat, t: nat)
    requires t <= LIMIT && t <= |data|
    ensures Outcome(data, schedule, k, t) == Replay(schedule, k, t, |data|, LeastLength(data))
    decreases LIMIT - t
  {
    if Next(schedule, k, t, |data|).Bytes? {
      var c := Cut(t, schedule(k).n, |data|);
      CompleteIffPastLeast(data, c);
      if !Complete(data[..c]) && c <= LIMIT {
        OutcomeIsReplay(data, schedule, k + 1, c);
      }
    }
  }

  // ---------- the size limit ----------

  const MAX_BUFFER := 16 * 1024 * 1024

  /**
   Completeness is tested before the size, so the limit is not a bound on what is accepted.  Some cutting of a
   stream is turned away for its size exactly when more than the limit arrives and the request is not complete
   one byte past it.
   */
  lemma TooLargeIff(data: string, k: nat)
    ensures (exists schedule :: Outcome(data, schedule, k, 0).TooLarge?)
       <==> |data| > 10_485_760 && (LeastLength(data).Some? ==> LeastLength(data).value > 10_485_761)
  {
    if exists schedule :: Outcome(data, schedule, k, 0).TooLarge? {
      var schedule :| Outcome(data, schedule, k, 0).TooLarge?;
      TooLargeOnlyIf(data, schedule, k);
    }
    if |data| > LIMIT && (LeastLength(data).Some? ==> LeastLength(data).value > LIMIT + 1) {
      var _ := TooLargeOnce(data, k);
    }
  }

  lemma TooLargeOnlyIf(data: string, schedule: nat -> Arrival, k: nat)
    requires Outcome(data, schedule, k, 0).TooLarge?
    ensures |data| > LIMIT && (LeastLength(data).Some? ==> LeastLength(data).value > LIMIT + 1)
  {
    OutcomeIsReplay(data, schedule, k, 0);
    TooLargeMeans(schedule, k, 0, |data|, LeastLength(data));
  }

  lemma TooLargeOnce(data: string, k: nat) returns (single: nat -> Arrival)
    requires |data| > LIMIT && (LeastLength(data).Some? ==> LeastLength(data).value > LIMIT + 1)
    ensures Outcome(data, single, k, 0).TooLarge?
  {
    single := (_: nat) => Bytes(1);
    OutcomeIsReplay(data, single, k, 0);
    ByteByByte(single, k, 0, |data|, LeastLength(data));
  }

  lemma {:induction false} TooLargeMeans(schedule: nat -> Arrival, k: nat, t: nat, available: nat, m: Option<nat>)
    requires t <= LIMIT && Replay(schedule, k, t, available, m).TooLarge?
    ensures available > LIMIT && (m.Some? ==> m.value > LIMIT + 1)
    decreases LIMIT - t
  {
    var c := Cut(t, schedule(k).n, available);
    if c <= LIMIT && !(m.Some? && m.value <= c) { TooLargeMeans(schedule, k + 1, c, available, m); }
  }

  lemma {:induction false} ByteByByte(single: nat -> Arrival, k: nat, t: nat, available: nat, m: Option<nat>)
    requires t <= LIMIT < available && (m.Some? ==> m.value > LIMIT + 1)
    requires forall i :: single(i) == Bytes(1)
    ensures Replay(single, k, t, available, m) == TooLarge(LIMIT + 1)
    decreases LIMIT - t
  {
    if t < LIMIT { ByteByByte(single, k + 1, t + 1, available, m); }
  }

  /** What is accepted instead: some cutting of a stream is, exactly when its least length fits the largest buffer. */
  lemma AcceptableIff(data: string, k: nat)
    ensures (exists schedule :: Outcome(data, schedule, k, 0).Accepted?)
       <==> LeastLength(data).Some? && LeastLength(data).value <= 16_777_216
  {
    if exists schedule :: Outcome(data, schedule, k, 0).Accepted? {
      var schedule :| Outcome(data, schedule, k, 0).Accepted?;
      AcceptedWithinBuffer(data, schedule, k);
    }
    if LeastLength(data).Some? && LeastLength(data).value <= MAX_BUFFER {
      var greedy := (_: nat) => Bytes(MAX_BUFFER);
      OutcomeIsReplay(data, greedy, k, 0);
      if LeastLength(data).value > 0 { Greedy(greedy, k, 0, 0, |data|, LeastLength(data).value); }
      LeastLengthPositive(data);
    }
  }

  lemma LeastLengthPositive(data: string)
    ensures LeastLength(data).Some? ==> LeastLength(data).value > 0
  {
  }

  /** However a stream is cut, nothing longer than the largest buffer is ever accepted. */
  lemma AcceptedWithinBuffer(data: string, schedule: nat -> Arrival, k: nat)
    ensures var v := Outcome(data, schedule, k, 0);
            v.Accepted? ==> LeastLength(data).Some? && LeastLength(data).value <= v.len <= MAX_BUFFER
  {
    OutcomeIsReplay(data, schedule, k, 0);
    AcceptedMeans(schedule, k, 0, |data|, LeastLength(data));
  }

  lemma {:induction false} AcceptedMeans(schedule: nat -> Arrival, k: nat, t: nat, available: nat, m: Option<nat>)
    requires t <= LIMIT
    ensures var v := Replay(schedule, k, t, available, m);
            v.Accepted? ==> m.Some? && m.value <= v.len <= MAX_BUFFER
    decreases LIMIT - t
  {
    if Next(schedule, k, t, available).Bytes? {
      var c := Cut(t, schedule(k).n, available);
      var _ := CapacityBound(t);
      if c <= LIMIT && !(m.Some? && m.value <= c) { AcceptedMeans(schedule, k + 1, c, available, m); }
    }
  }

  /** Filling the buffer every time: the cuts are 4096 * 2^j. */
  lemma {:induction false} Greedy(greedy: nat -> Arrival, k: nat, j: nat, t: nat, available: nat, m: nat)
    requires t < m <= available && m <= MAX_BUFFER
    requires t == 0 || (j > 0 && t == INITIAL_SIZE * Pow2(j - 1))
    requires t == 0 ==> j == 0
    requires t <= LIMIT && forall i :: greedy(i) == Bytes(MAX_BUFFER)
    ensures Replay(greedy, k, t, available, Some(m)).Accepted?
    decreases LIMIT - t
  {
    if t > 0 { DoubledToPow(0, j - 1); }
    assert Capacity(t) == INITIAL_SIZE * Pow2(j);
    var _ := CapacityBound(t);
    var c := Cut(t, MAX_BUFFER, available);
    assert c == Min(Capacity(t), available);
    if c < m {
      BelowMax(j);
      Greedy(greedy, k + 1, j + 1, c, available, m);
    }
  }

  lemma BelowMax(j: nat)
    requires INITIAL_SIZE * Pow2(j) < MAX_BUFFER
    ensures INITIAL_SIZE * Pow2(j) <= LIMIT
  {
    assert Pow2(4) == 16 && Pow2(8) == 256 && Pow2(12) == 4096 && Pow2(11) == 2048;
    if j >= 12 { Pow2Monotone(12, j); } else { Pow2Monotone(j, 11); }
  }

  lemma {:induction false} DoubledToPow(i: nat, j: nat)
    requires i <= j + 1
    ensures DoubledUntil(INITIAL_SIZE * Pow2(i), INITIAL_SIZE * Pow2(j)) == INITIAL_SIZE * Pow2(j + 1)
    decreases j + 1 - i
  {
    if i <= j {
      Pow2Monotone(i, j);
      assert 2 * (INITIAL_SIZE * Pow2(i)) == INITIAL_SIZE * Pow2(i + 1);
      DoubledToPow(i + 1, j);
    }
  }

  /** A peer that sends exactly one request, in any pieces, has exactly that request received. */
  lemma ExactRequest(data: string, schedule: nat -> Arrival, k: nat)
    requires LeastLength(data) == Some(|data|) && 0 < |data| <= LIMIT + 1
    requires forall i :: k <= i ==> schedule(i).Bytes?
    ensures Outcome(data, schedule, k, 0) == Accepted(|data|)
  {
    OutcomeIsReplay(data, schedule, k, 0);
    ReplayExact(schedule, k, 0, |data|);
  }

  lemma {:induction false} ReplayExact(schedule: nat -> Arrival, k: nat, t: nat, m: nat)
    requires t < m <= LIMIT + 1
    requires forall i :: k <= i ==> schedule(i).Bytes?
    ensures Replay(schedule, k, t, m, Some(m)) == Accepted(m)
    decreases LIMIT - t
  {
    var c := Cut(t, schedule(k).n, m);
    if c < m { ReplayExact(schedule, k + 1, c, m); }
  }
}
