/**
 The master process (process.c and signals.c): it forks workers, records them, reaps and respawns them in
 a signal handler, and drains them on shutdown.  A signal can arrive between any two steps; a handler
 then runs to its end on the same stack, itself interrupted by the signals that are not blocked.  So a
 place where signals can arrive is a call of `Interrupts`, which runs any number of handlers.
 */
module Supervisor {
  import opened CStrings
  import Kernel

  const MAX_PROCESS := 4
  const DRAIN_SECONDS := 30
  const SIGINT := 2
  const SIGTERM := 15

  // ---------- states ----------

  /**
   The globals of the program, the unreaped children of the kernel, and where the program is between a
   `fork` and the recording of its result: `pending` for the spawn loop (at slot `started`), `respawn`
   for the handler (at slot `hot`); 0 when there is nothing to record.
   */
  datatype State = State(slots: seq<int>, running: bool, children: set<int>,
                         started: nat, pending: int, hot: int, respawn: int)

  /** The pid that slot k holds, or is about to. */
  function Holder(s: State, k: nat): int
    requires k < |s.slots|
  {
    if s.pending != 0 && k == s.started then s.pending
    else if s.respawn != 0 && k == s.hot then s.respawn
    else s.slots[k]
  }

  /** Every unreaped child's pid is in some slot, or was just forked and is about to be recorded in one. */
  ghost predicate Findable(s: State)
    requires |s.slots| == MAX_PROCESS
  {
    forall p :: p in s.children ==> p > 0 && Held(s, p)
  }

  ghost predicate Held(s: State, p: int)
    requires |s.slots| == MAX_PROCESS
  {
    exists k :: 0 <= k < MAX_PROCESS && Holder(s, k) == p
  }

  ghost predicate Inv(s: State) {
    && |s.slots| == MAX_PROCESS && s.started <= MAX_PROCESS
    && (forall k :: 0 <= k < MAX_PROCESS ==> s.slots[k] >= 0 && (k >= s.started ==> s.slots[k] == 0))
    && (s.pending != 0 ==> s.pending > 0 && s.started < MAX_PROCESS)
    && (s.respawn != 0 ==> s.respawn > 0 && 0 <= s.hot < s.started)
    && Findable(s)
  }

  /** At most MAX_PROCESS children are unreaped. */
  lemma AtMostMaxProcess(s: State)
    requires Inv(s)
    ensures |s.children| <= MAX_PROCESS
  {
    AtMostFour(s.children, Holder(s, 0), Holder(s, 1), Holder(s, 2), Holder(s, 3));
  }

  lemma AtMostFour(children: set<int>, a: int, b: int, c: int, d: int)
    requires forall p :: p in children ==> p == a || p == b || p == c || p == d
    ensures |children| <= 4
  {
    var holders := {a, b, c, d};
    forall p | p in children
      ensures p in holders
    {
    }
    assert children <= holders;
    assert |holders| == |children| + |holders - children|;
  }

  /** With nothing in the table and nothing about to be recorded, no child is left. */
  lemma EmptyTableNoChildren(s: State)
    requires Inv(s) && s.pending == 0 && s.respawn == 0
    requires forall k :: 0 <= k < MAX_PROCESS ==> s.slots[k] == 0
    ensures s.children == {}
  {
    var children := s.children;
    forall p
      ensures p !in children
    {
      if p in children {
        assert false;
      }
    }
  }

  /** Fewer children and the same table: still findable. */
  lemma FindableKept(s: State, t: State)
    requires Inv(s) && t.children <= s.children
    requires t == s.(children := t.children, running := t.running)
    ensures Inv(t)
  {
    forall p | p in t.children
      ensures p > 0 && Held(t, p)
    {
      assert Held(s, p);
      var k :| 0 <= k < MAX_PROCESS && Holder(s, k) == p;
      assert Holder(t, k) == p;
    }
  }

  /** Some member of a set. */
  method Pick<T>(s: set<T>) returns (x: T)
    requires |s| > 0
    ensures x in s
  {
    x :| x in s;
  }

  // ---------- what may happen in between ----------

  /** From s to t by any steps of the program: a slot that is 0 after its startup turn stays 0. */
  ghost predicate Later(s: State, t: State) {
    && |s.slots| == |t.slots| == MAX_PROCESS && s.started <= t.started
    && (t.running ==> s.running)
    && forall k :: 0 <= k < MAX_PROCESS && k < s.started && s.slots[k] == 0 ==> t.slots[k] == 0
  }

  lemma LaterTransitive(s: State, t: State, u: State)
    requires Later(s, t) && Later(t, u)
    ensures Later(s, u)
  {
  }

  /**
   From s to t by handlers alone: what the interrupted code relies on.  After a shutdown request no child
   is added and slots are only cleared.
   */
  ghost predicate Interrupted(s: State, t: State) {
    && |s.slots| == |t.slots| == MAX_PROCESS
    && t.started == s.started && t.pending == s.pending
    && t.respawn == s.respawn && (s.respawn != 0 ==> t.hot == s.hot)
    && (t.running ==> s.running)
    && (forall k :: 0 <= k < MAX_PROCESS && s.slots[k] == 0 ==> t.slots[k] == 0)
    && (!s.running ==> t.children <= s.children && OnlyCleared(s, t))
  }

  ghost predicate OnlyCleared(s: State, t: State) {
    && |s.slots| == |t.slots| == MAX_PROCESS
    && forall k :: 0 <= k < MAX_PROCESS ==> t.slots[k] == s.slots[k] || t.slots[k] == 0
  }

  /** The first n slots are empty or hold pids that were sent SIGTERM. */
  ghost predicate Termed(slots: seq<int>, termed: set<int>, n: nat)
    requires n <= |slots|
  {
    forall k :: 0 <= k < n ==> slots[k] == 0 || slots[k] in termed
  }

  /** The first slot from i on that holds a pid; |slots| if there is none. */
  function FirstSlot(slots: seq<int>, pid: int, i: nat): (f: nat)
    requires i <= |slots|
    ensures i <= f <= |slots| && (f < |slots| ==> slots[f] == pid)
    ensures forall k :: i <= k < f ==> slots[k] != pid
    decreases |slots| - i
  {
    if i == |slots| || slots[i] == pid then i else FirstSlot(slots, pid, i + 1)
  }

  // ---------- the record of reaped children ----------

  /** What became of the slot of a reaped child; `Forgone`: a shutdown request came before the fork. */
  datatype Outcome = NotFound | Cleared | Replaced(pid: int) | ForkFailed | Forgone

  /** A reaped child: how it ended, whether the server was running when that was looked at, its slot. */
  datatype Reaped = Reaped(child: int, exited: bool, status: int, running: bool, slot: nat, outcome: Outcome)

  const NO_RECORD := Reaped(0, true, 0, false, 0, NotFound)

  /** The worker failed: a nonzero exit code, or an unexpected signal. */
  predicate Failed(exited: bool, status: int) {
    if exited then status != 0 else status != SIGTERM && status != SIGINT
  }

  predicate Forked(outcome: Outcome) { outcome.Replaced? || outcome.ForkFailed? }

  /** What the exit status of a child allows. */
  predicate WellSettled(e: Reaped) {
    && e.child > 0 && e.slot <= MAX_PROCESS && (e.slot == MAX_PROCESS <==> e.outcome == NotFound)
    && (e.outcome == Cleared ==> !(Failed(e.exited, e.status) && e.running))
    && (Forked(e.outcome) || e.outcome == Forgone ==> Failed(e.exited, e.status) && e.running)
  }

  ghost predicate AllSettled(reaps: seq<Reaped>, running: bool) {
    forall i :: 0 <= i < |reaps| ==>
      WellSettled(reaps[i]) && (running ==> reaps[i].running && reaps[i].outcome != Forgone)
  }

  /** How many calls of `fork` the records account for. */
  function Restarts(reaps: seq<Reaped>): nat {
    if reaps == [] then 0
    else Restarts(reaps[..|reaps| - 1]) + if Forked(reaps[|reaps| - 1].outcome) then 1 else 0
  }

  lemma RestartsNext(reaps: seq<Reaped>, e: Reaped)
    ensures Restarts(reaps + [e]) == Restarts(reaps) + if Forked(e.outcome) then 1 else 0
  {
    assert (reaps + [e])[..|reaps|] == reaps;
  }

  /** What the signal handlers share with the program: the slots and the unreaped children. */
  datatype Table = Table(slots: seq<int>, children: set<int>)

  function Left(slots: seq<int>, i: nat, outcome: Outcome): seq<int> {
    if i >= |slots| then slots
    else match outcome
      case Cleared => slots[i := 0]
      case Replaced(pid) => slots[i := pid]
      case _ => slots
  }

  function Grown(children: set<int>, outcome: Outcome): set<int> {
    if outcome.Replaced? then children + {outcome.pid} else children
  }

  /** The record names an unreaped child and the first slot that holds it; a replacement has an unused pid. */
  predicate Fits(t: Table, e: Reaped) {
    && e.child in t.children && e.slot == FirstSlot(t.slots, e.child, 0)
    && (e.outcome.Replaced? ==> e.outcome.pid > 0 && e.outcome.pid !in t.children - {e.child})
  }

  function Settle(t: Table, e: Reaped): Table {
    Table(Left(t.slots, e.slot, e.outcome), Grown(t.children - {e.child}, e.outcome))
  }

  /** Where the records lead; None if one of them does not fit. */
  function Replay(t: Table, reaps: seq<Reaped>): Option<Table> {
    if reaps == [] then Some(t)
    else
      var u, e := Replay(t, reaps[..|reaps| - 1]), reaps[|reaps| - 1];
      if u.Some? && Fits(u.value, e) then Some(Settle(u.value, e)) else None
  }

  lemma RestartsTogether(a: seq<Reaped>, b: seq<Reaped>)
    ensures Restarts(a + b) == Restarts(a) + Restarts(b)
  {
    if b != [] {
      assert (a + b)[..|a + b| - 1] == a + b[..|b| - 1];
      RestartsTogether(a, b[..|b| - 1]);
    } else {
      assert a + b == a;
    }
  }

  ghost function Names(reaps: seq<Reaped>): set<int> { set e | e in reaps :: e.child }

  /** No record was made while the server was running. */
  ghost predicate NoneRan(reaps: seq<Reaped>) { forall i :: 0 <= i < |reaps| ==> !reaps[i].running }

  /** One more record in the handler. */
  lemma NextRecord(t: Table, before: seq<Reaped>, more: seq<Reaped>, e: Reaped, u: Table)
    requires Replay(t, more) == Some(u) && Fits(u, e)
    ensures NoneRan(more) && !e.running ==> NoneRan(more + [e])
    ensures Replay(t, more + [e]) == Some(Settle(u, e))
    ensures before + more + [e] == before + (more + [e]) && Names(more + [e]) == Names(more) + {e.child}
  {
    ReplayNext(t, more, e, u);
    var longer := more + [e];
    assert forall x :: x in longer <==> x in more || x == e;
    assert e in longer;
  }

  lemma NewSettled(before: seq<Reaped>, more: seq<Reaped>, running: bool)
    requires AllSettled(before + more, running)
    ensures AllSettled(more, running)
  {
    forall i | 0 <= i < |more|
      ensures WellSettled(more[i]) && (running ==> more[i].running && more[i].outcome != Forgone)
    {
      assert (before + more)[|before| + i] == more[i];
    }
  }

  /** A failed worker is replaced while the server runs, unless the fork fails; any other one is not. */
  lemma SettledMeans(reaps: seq<Reaped>, running: bool)
    requires AllSettled(reaps, running)
    ensures forall e :: e in reaps && e.slot < MAX_PROCESS ==>
      if e.running && (if e.exited then e.status != 0 else e.status != 15 && e.status != 2)
      then e.outcome.Replaced? || e.outcome == ForkFailed || (e.outcome == Forgone && !running)
      else e.outcome == Cleared
  {
  }

  lemma {:induction false} NoRestarts(reaps: seq<Reaped>)
    requires forall i :: 0 <= i < |reaps| ==> WellSettled(reaps[i]) && !reaps[i].running
    ensures Restarts(reaps) == 0
  {
    if reaps != [] { NoRestarts(reaps[..|reaps| - 1]); }
  }

  lemma ReplayNext(t: Table, reaps: seq<Reaped>, e: Reaped, u: Table)
    requires Replay(t, reaps) == Some(u) && Fits(u, e)
    ensures Replay(t, reaps + [e]) == Some(Settle(u, e))
  {
    assert (reaps + [e])[..|reaps|] == reaps;
  }

  /** The last record about a slot says what it holds; a slot that no record is about is as it was. */
  lemma {:induction false} LastRecordSays(t: Table, reaps: seq<Reaped>, u: Table, k: nat)
    requires Replay(t, reaps) == Some(u) && k < |t.slots|
    ensures |u.slots| == |t.slots|
    ensures (forall j :: 0 <= j < |reaps| ==> reaps[j].slot != k) ==> u.slots[k] == t.slots[k]
    ensures forall i ::
      0 <= i < |reaps| && reaps[i].slot == k && (forall j :: i < j < |reaps| ==> reaps[j].slot != k) ==>
      u.slots[k] == match reaps[i].outcome
                    case Cleared => 0
                    case Replaced(pid) => pid
                    case _ => reaps[i].child
    decreases |reaps|
  {
    if reaps != [] {
      var init, e := reaps[..|reaps| - 1], reaps[|reaps| - 1];
      var v := Replay(t, init).value;
      LastRecordSays(t, init, v, k);
      assert forall j :: 0 <= j < |init| ==> reaps[j] == init[j];
    }
  }

  /**
   When no worker is replaced, a slot is cleared exactly if it is the first one that holds its pid and the child
   with that pid was reaped; a later slot with the same pid keeps it.
   */
  lemma {:induction false} FirstSlotsCleared(t: Table, reaps: seq<Reaped>, u: Table)
    requires Replay(t, reaps) == Some(u) && |t.slots| == MAX_PROCESS
    requires forall i :: 0 <= i < |reaps| ==> WellSettled(reaps[i]) && !reaps[i].running
    ensures u.children <= t.children && |u.slots| == |t.slots|
    ensures forall k :: 0 <= k < |t.slots| ==>
      u.slots[k] == if t.slots[k] in t.children - u.children && (forall j :: 0 <= j < k ==> t.slots[j] != t.slots[k])
                    then 0 else t.slots[k]
    decreases |reaps|
  {
    if reaps != [] {
      var init, e := reaps[..|reaps| - 1], reaps[|reaps| - 1];
      var v := Replay(t, init).value;
      FirstSlotsCleared(t, init, v);
    }
  }

  ghost predicate History(moments: seq<State>, now: State) {
    && (forall i :: 0 <= i < |moments| ==> Inv(moments[i]) && Later(moments[i], now))
    && forall i, j :: 0 <= i < j < |moments| ==> Later(moments[i], moments[j])
  }

  lemma HistoryStep(moments: seq<State>, s: State, t: State)
    requires History(moments, s) && Later(s, t)
    ensures History(moments, t)
  {
    forall i | 0 <= i < |moments|
      ensures Later(moments[i], t)
    {
      LaterTransitive(moments[i], s, t);
    }
  }

  lemma HistoryGrows(moments: seq<State>, s: State)
    requires History(moments, s) && Inv(s)
    ensures History(moments + [s], s)
  {
    assert Later(s, s);
    var more := moments + [s];
    forall i | 0 <= i < |more|
      ensures Inv(more[i]) && Later(more[i], s)
    {
      if i < |moments| { assert more[i] == moments[i]; }
    }
    forall i, j | 0 <= i < j < |more|
      ensures Later(more[i], more[j])
    {
      assert more[i] == moments[i];
      if j < |moments| { assert more[j] == moments[j]; }
    }
  }

  /** A call of `kill`: its slot, the pid there when tested and when read again for the call, the looks before it. */
  datatype Kill = Kill(slot: nat, tested: int, read: int, looks: nat)

  /** The start of the final wait: the children unreaped at that moment, and the calls of `kill` until then. */
  datatype Wait = NotYet | Waiting(children: set<int>, kills: seq<Kill>)

  /** What the drain did: looks at the table, calls of `kill` with SIGKILL, the start of the final wait. */
  datatype Log = Log(looks: nat, kills: seq<Kill>, wait: Wait)

  function Looked(log: Log, n: nat): Log { log.(looks := log.looks + n) }

  function Called(log: Log, more: seq<Kill>): Log { log.(kills := log.kills + more) }

  lemma CalledTwice(log: Log, a: seq<Kill>, b: seq<Kill>)
    ensures Called(Called(log, a), b) == Called(log, a + b)
    ensures Called(log, []) == log
  {
    assert log.kills + a + b == log.kills + (a + b);
    assert log.kills + [] == log.kills;
  }

  ghost function Killed(kills: seq<Kill>): set<int> { set e | e in kills && e.read > 0 :: e.read }

  /** The slot held a worker when it was tested, and holds it still or was cleared when it is read for the call. */
  predicate OneSlotKilled(e: Kill, slots: seq<int>, looks: nat) {
    e.looks == looks && e.slot < |slots| && slots[e.slot] == e.tested > 0 && (e.read == e.tested || e.read == 0)
  }

  lemma KilledMore(kills: seq<Kill>, one: seq<Kill>)
    ensures Killed(kills + one) == Killed(kills) + Killed(one)
  {
    forall pid
      ensures pid in Killed(kills + one) <==> pid in Killed(kills) + Killed(one)
    {
      if pid in Killed(kills) {
        var e :| e in kills && e.read == pid && e.read > 0;
        assert e in kills + one;
      }
      if pid in Killed(one) {
        var e :| e in one && e.read == pid && e.read > 0;
        assert e in kills + one;
      }
    }
  }

  /** Pid 0 is not a worker: the call addresses the process group of the caller, the caller included. */
  predicate HitsGroup(e: Kill) { e.read == 0 }

  // ---------- the master ----------

  class Master {
    const workerPids: array<int>
    var running: bool
    var children: set<int>
    var ended: set<int>               // unreaped children that have ended
    var exits: nat                    // how many more children will end by themselves: any number
    ghost var forks: nat              // calls of `fork`
    ghost var reaps: seq<Reaped>      // the children that the handler has reaped and dealt with, in order
    ghost var started: nat
    ghost var pending: int
    ghost var hot: int
    ghost var respawn: int
    ghost var termed: set<int>        // pids that were sent SIGTERM
    ghost var log: Log                // what the drain did so far
    ghost var moments: seq<State>     // the states in which a signal could arrive, so far

    constructor ()
      ensures Valid() && fresh(workerPids)
      ensures Now() == State([0, 0, 0, 0], true, {}, 0, 0, 0, 0)
      ensures moments == [] && termed == {} && log == Log(0, [], NotYet)
      ensures forks == 0 && reaps == []
    {
      workerPids := new int[MAX_PROCESS](_ => 0);
      running, children := true, {};
      started, pending, hot, respawn := 0, 0, 0, 0;
      termed, log, moments := {}, Log(0, [], NotYet), [];
      ended, exits, forks, reaps := {}, *, 0, [];
      new;
      assert workerPids[..] == [0, 0, 0, 0];
    }

    ghost function Now(): State
      reads this, workerPids
    {
      State(workerPids[..], running, children, started, pending, hot, respawn)
    }

    ghost predicate Valid()
      reads this, workerPids
    {
      Inv(Now()) && History(moments, Now()) && ended <= children && AllSettled(reaps, running)
    }

    ghost function Shared(): Table
      reads this, workerPids
    {
      Table(workerPids[..], children)
    }

    /** The calls of `fork` that no record accounts for. */
    ghost function Unbooked(): int
      reads this
    {
      forks - Restarts(reaps)
    }

    /** With SIGCHLD blocked, handlers neither reap nor record; children may end. */
    twostate predicate Undisturbed()
      reads this, workerPids
    {
      && workerPids[..] == old(workerPids[..]) && children == old(children)
      && reaps == old(reaps) && forks == old(forks) && old(ended) <= ended
    }

    /** There are more moments and records, and the records account for every fork in between. */
    twostate predicate Booked()
      reads this
    {
      old(moments) <= moments && old(reaps) <= reaps && Unbooked() == old(Unbooked())
    }

    /** What bounds the number of reaps to come. */
    ghost function Endings(): nat
      reads this
    {
      exits + |ended|
    }

    // ----- steps -----

    /** A slot is cleared or overwritten: its old pid was reaped, and may since have been given out again. */
    method SetSlot(i: nat, pid: int)
      requires Valid() && i < started && workerPids[i] > 0 && (workerPids[i] !in children || workerPids[i] == pid)
      requires if pid == 0 then respawn == 0 else respawn == pid && hot == i
      modifies this`respawn, this`hot, workerPids
      ensures Valid() && workerPids[..] == old(workerPids[..])[i := pid] && respawn == 0
      ensures hot == old(hot)
    {
      ghost var before := Now();
      workerPids[i] := pid;
      respawn := 0;
      forall p | p in children
        ensures p > 0 && Held(Now(), p)
      {
        assert Held(before, p);
        var k :| 0 <= k < MAX_PROCESS && Holder(before, k) == p;
        assert Holder(Now(), k) == p;
      }
      HistoryStep(moments, before, Now());
    }

    /** Any children may end by themselves at any time. */
    method ChildrenEnd()
      requires Valid()
      modifies this`ended, this`exits
      ensures Valid() && Endings() == old(Endings()) && old(ended) <= ended
    {
      var ending: set<int> :| ending <= children - ended && |ending| <= exits;
      assert |ended + ending| == |ended| + |ending|;
      ended, exits := ended + ending, exits - |ending|;
    }

    /** `waitpid` returns some child that has ended: it exited with a status, or a signal killed it. */
    method Reap() returns (child: int, exited: bool, status: int)
      requires Valid() && ended != {}
      modifies this`children, this`ended
      ensures Valid() && child in old(ended) && child > 0 && Endings() < old(Endings())
      ensures children == old(children) - {child} && ended == old(ended) - {child}
    {
      ghost var before := Now();
      assert |ended| > 0;
      child := Pick(ended);
      exited, status := *, *;
      assert Held(before, child);
      children, ended := children - {child}, ended - {child};
      FindableKept(before, Now());
      HistoryStep(moments, before, Now());
    }

    /** The assignment at the start of the shutdown handler. */
    method StopRunning()
      requires Valid()
      modifies this`running
      ensures Valid() && !running
    {
      ghost var before := Now();
      running := false;
      FindableKept(before, Now());
      HistoryStep(moments, before, Now());
    }

    /** `fork` in the spawn loop: the pid is about to be recorded in the next slot; -1 is a failure. */
    method ForkWorker() returns (pid: int)
      requires Valid() && pending == 0 && respawn == 0 && started < MAX_PROCESS
      modifies this`children, this`pending, this`forks
      ensures Valid() && (pid == -1 || pid > 0) && forks == old(forks) + 1
      ensures pid == -1 ==> Now() == old(Now())
      ensures pid > 0 ==> pending == pid && pid !in old(children) && children == old(children) + {pid}
    {
      ghost var before := Now();
      pid := NewPid();
      forks := forks + 1;
      if pid > 0 {
        children := children + {pid};
        pending := pid;
        forall p | p in children
          ensures p > 0 && Held(Now(), p)
        {
          if p == pid {
            assert Holder(Now(), started) == p;
          } else {
            assert Held(before, p);
            var k :| 0 <= k < MAX_PROCESS && Holder(before, k) == p;
            assert Holder(Now(), k) == p;
          }
        }
        HistoryStep(moments, before, Now());
      }
    }

    /** `fork` in the handler, for slot i, whose own child has been reaped. */
    method ForkReplacement(i: nat) returns (pid: int)
      requires Valid() && respawn == 0 && i < started && workerPids[i] > 0 && workerPids[i] !in children
      modifies this`children, this`hot, this`respawn, this`forks
      ensures Valid() && (pid == -1 || pid > 0) && forks == old(forks) + 1
      ensures pid == -1 ==> children == old(children) && respawn == 0
      ensures pid > 0 ==>
        hot == i && respawn == pid && pid !in old(children) && children == old(children) + {pid}
    {
      ghost var before := Now();
      pid := NewPid();
      forks := forks + 1;
      if pid > 0 {
        children := children + {pid};
        hot, respawn := i, pid;
        forall p | p in children
          ensures p > 0 && Held(Now(), p)
        {
          if p == pid {
            assert Holder(Now(), i) == p;
          } else {
            assert Held(before, p);
            var k :| 0 <= k < MAX_PROCESS && Holder(before, k) == p;
            assert Holder(Now(), k) == p;
          }
        }
        HistoryStep(moments, before, Now());
      }
    }

    /** The kernel gives a child a pid that no unreaped child has; numbers are reused. */
    method NewPid() returns (pid: int)
      ensures pid == -1 || (pid > 0 && pid !in children)
    {
      var failed: bool := *;
      if failed {
        pid := -1;
      } else {
        Kernel.UnusedNumber(children);
        pid :| pid > 0 && pid !in children;
      }
    }

    /** The spawn loop's turn at a slot ends: recorded, or skipped after a failed fork. */
    method EndTurn(i: nat, pid: int)
      requires Valid() && respawn == 0 && i == started < MAX_PROCESS && pending == (if pid > 0 then pid else 0)
      modifies this`pending, this`started, workerPids
      ensures Valid() && pending == 0 && started == old(started) + 1
      ensures workerPids[..] == if pid > 0 then old(workerPids[..])[i := pid] else old(workerPids[..])
    {
      ghost var before := Now();
      if pid > 0 {
        workerPids[i] := pid;
      }
      started, pending := started + 1, 0;
      forall p | p in children
        ensures p > 0 && Held(Now(), p)
      {
        assert Held(before, p);
        var k :| 0 <= k < MAX_PROCESS && Holder(before, k) == p;
        assert Holder(Now(), k) == p;
      }
      HistoryStep(moments, before, Now());
    }

    // ----- handlers -----

    /** Signals arrive here: any number of handlers that are not blocked run, one after the other. */
    method Interrupts(chld: bool, int_: bool, term: bool)
      requires Valid() && (respawn != 0 ==> chld)
      modifies this, workerPids
      ensures Valid() && Interrupted(old(Now()), Now()) && log == old(log) && termed >= old(termed)
      ensures (chld ==> Undisturbed()) && Booked() && old(moments) < moments && Endings() <= old(Endings())
      decreases Unblocked(chld, int_, term), 1
    {
      HistoryGrows(moments, Now());
      moments := moments + [Now()];
      ChildrenEnd();
      var n: nat := *;
      while n > 0
        invariant Valid() && Interrupted(old(Now()), Now()) && log == old(log) && termed >= old(termed)
        invariant (chld ==> Undisturbed()) && Booked() && old(moments) < moments && Endings() <= old(Endings())
      {
        OneSignal(chld, int_, term);
        n := n - 1;
      }
    }

    method OneSignal(chld: bool, int_: bool, term: bool)
      requires Valid() && (respawn != 0 ==> chld)
      modifies this, workerPids
      ensures Valid() && Interrupted(old(Now()), Now()) && log == old(log) && termed >= old(termed)
      ensures (chld ==> Undisturbed()) && Booked() && Endings() <= old(Endings())
      decreases Unblocked(chld, int_, term), 0
    {
      var signal: int := *;
      if signal == 0 && !chld {
        var _ := SigchldHandler(int_, term);
      } else if signal == SIGINT && !int_ {
        ShutdownHandler(chld, true, term);
      } else if signal == SIGTERM && !term {
        ShutdownHandler(chld, int_, true);
      }
      ChildrenEnd();
    }

    /** `shutdownHandler`: afterwards every pid in the table has been sent SIGTERM. */
    method ShutdownHandler(chld: bool, int_: bool, term: bool)
      requires Valid() && (respawn != 0 ==> chld)
      modifies this, workerPids
      ensures Valid() && Interrupted(old(Now()), Now()) && log == old(log) && termed >= old(termed)
      ensures (chld ==> Undisturbed()) && Booked() && Endings() <= old(Endings()) && !running
      ensures forall k :: 0 <= k < MAX_PROCESS ==> workerPids[k] == 0 || workerPids[k] in termed
      decreases Unblocked(chld, int_, term), 3
    {
      StopRunning();
      var i := 0;
      while i < MAX_PROCESS
        invariant 0 <= i <= MAX_PROCESS && Valid() && !running
        invariant Interrupted(old(Now()), Now()) && log == old(log) && termed >= old(termed)
        invariant (chld ==> Undisturbed()) && Booked() && Endings() <= old(Endings())
        invariant Termed(workerPids[..], termed, i)
      {
        TerminateWorker(i, chld, int_, term);
        i := i + 1;
      }
    }

    /** The body of its loop: one slot. */
    method TerminateWorker(i: nat, chld: bool, int_: bool, term: bool)
      requires Valid() && (respawn != 0 ==> chld) && !running && i < MAX_PROCESS
      requires Termed(workerPids[..], termed, i)
      modifies this, workerPids
      ensures Valid() && Interrupted(old(Now()), Now()) && log == old(log) && termed >= old(termed)
      ensures (chld ==> Undisturbed()) && Booked() && Endings() <= old(Endings())
      ensures Termed(workerPids[..], termed, i + 1)
      decreases Unblocked(chld, int_, term), 2
    {
      Interrupts(chld, int_, term);
      if workerPids[i] > 0 {
        Interrupts(chld, int_, term);
        // the slot is read again: if it was cleared meanwhile, `kill` addresses the process group
        termed := termed + {workerPids[i]};
      }
    }

    /**
     `restartWorker`, for a slot whose child has been reaped; SIGCHLD is blocked.  It forks once unless a
     shutdown was requested before; the slot keeps the old pid when the fork fails.
     */
    method RestartWorker(i: nat, int_: bool, term: bool) returns (ghost outcome: Outcome)
      requires Valid() && respawn == 0 && i < started && workerPids[i] > 0 && workerPids[i] !in children
      modifies this, workerPids
      ensures Valid() && Interrupted(old(Now()), Now()) && respawn == 0 && Endings() <= old(Endings())
      ensures log == old(log) && termed >= old(termed) && old(moments) <= moments
      ensures reaps == old(reaps) && old(ended) <= ended
      ensures if old(running) then Forked(outcome) && forks == old(forks) + 1
              else outcome == Forgone && forks == old(forks)
      ensures outcome.Replaced? ==> outcome.pid > 0 && outcome.pid !in old(children)
      ensures Shared() == Table(Left(old(workerPids[..]), i, outcome), Grown(old(children), outcome))
      decreases Unblocked(true, int_, term), 3
    {
      outcome := Forgone;
      if workerPids[i] > 0 && running {
        Interrupts(true, int_, term);  // sleep(2)
        outcome := Respawn(i, int_, term);
      }
    }

    /** Its fork. */
    method Respawn(i: nat, int_: bool, term: bool) returns (ghost outcome: Outcome)
      requires Valid() && respawn == 0 && i < started && workerPids[i] > 0 && workerPids[i] !in children
      modifies this, workerPids
      ensures Valid() && respawn == 0 && Endings() <= old(Endings())
      ensures Interrupted(old(Now()).(running := true), Now()) && (running ==> old(running))
      ensures log == old(log) && termed >= old(termed) && old(moments) <= moments
      ensures reaps == old(reaps) && old(ended) <= ended && Forked(outcome) && forks == old(forks) + 1
      ensures outcome.Replaced? ==> outcome.pid > 0 && outcome.pid !in old(children)
      ensures Shared() == Table(Left(old(workerPids[..]), i, outcome), Grown(old(children), outcome))
      decreases Unblocked(true, int_, term), 2
    {
      var pid := ForkReplacement(i);
      outcome := ForkFailed;
      if pid > 0 {
        Interrupts(true, int_, term);
        SetSlot(i, pid);
        outcome := Replaced(pid);
      }
    }

    /**
     `sigchldHandler`: reaps every child that has ended and deals with its slot.  The new records say, in order,
     what was done to table and children.  After a shutdown request the slot of a reaped child is cleared, if it
     is the first one with that pid; before, a worker that failed costs one fork.
     */
    method SigchldHandler(int_: bool, term: bool) returns (ghost more: seq<Reaped>)
      requires Valid() && respawn == 0
      modifies this, workerPids
      ensures Valid() && Interrupted(old(Now()), Now()) && log == old(log) && termed >= old(termed)
      ensures Booked() && Endings() <= old(Endings()) && reaps == old(reaps) + more
      ensures ended == {} && old(ended) <= set e | e in more :: e.child
      ensures Replay(old(Shared()), more) == Some(Shared()) && forks == old(forks) + Restarts(more)
      ensures forall e :: e in more && e.slot < MAX_PROCESS ==>
        if e.running && (if e.exited then e.status != 0 else e.status != 15 && e.status != 2)
        then e.outcome.Replaced? || e.outcome == ForkFailed || (e.outcome == Forgone && !running)
        else e.outcome == Cleared
      ensures !old(running) ==>
        var was, now := old(workerPids[..]), workerPids[..];
        && children <= old(children) && forks == old(forks)
        && forall k :: 0 <= k < MAX_PROCESS ==>
             now[k] == if was[k] in old(children) - children && (forall j :: 0 <= j < k ==> was[j] != was[k])
                       then 0 else was[k]
      decreases Unblocked(true, int_, term), 8
    {
      more := ReapEnded(int_, term);
      RestartsTogether(old(reaps), more);
      NewSettled(old(reaps), more, running);
      SettledMeans(more, running);
      if !old(running) {
        FirstSlotsCleared(old(Shared()), more, Shared());
        NoRestarts(more);
      }
    }

    /** Its loop. */
    method ReapEnded(int_: bool, term: bool) returns (ghost more: seq<Reaped>)
      requires Valid() && respawn == 0
      modifies this, workerPids
      ensures Valid() && Interrupted(old(Now()), Now()) && log == old(log) && termed >= old(termed)
      ensures Booked() && Endings() <= old(Endings()) && reaps == old(reaps) + more
      ensures ended == {} && old(ended) <= Names(more) && Replay(old(Shared()), more) == Some(Shared())
      ensures NoneRan(more) || old(running)
      decreases Unblocked(true, int_, term), 7
    {
      more := [];
      assert reaps + [] == reaps;
      var found := true;
      while found
        invariant Valid() && respawn == 0
        invariant Interrupted(old(Now()), Now()) && log == old(log) && termed >= old(termed)
        invariant Booked() && Endings() <= old(Endings()) && reaps == old(reaps) + more
        invariant old(ended) <= ended + Names(more) && Replay(old(Shared()), more) == Some(Shared())
        invariant NoneRan(more) || old(running)
        invariant !found ==> ended == {}
        decreases found, Endings()
      {
        ghost var t, e := Shared(), NO_RECORD;
        found, e := ReapOne(int_, term);
        if found {
          NextRecord(old(Shared()), old(reaps), more, e, t);
          more := more + [e];
        }
      }
    }

    /** One turn of its loop: a child that has ended is reaped and dealt with, if there is one. */
    method ReapOne(int_: bool, term: bool) returns (found: bool, ghost e: Reaped)
      requires Valid() && respawn == 0
      modifies this, workerPids
      ensures Valid() && respawn == 0 && Interrupted(old(Now()), Now()) && log == old(log) && termed >= old(termed)
      ensures Booked() && Endings() <= old(Endings())
      ensures !found ==> reaps == old(reaps) && Shared() == old(Shared()) && old(ended) == ended == {}
      ensures found ==> Endings() < old(Endings()) && reaps == old(reaps) + [e] && old(ended) <= ended + {e.child}
      ensures found ==> Fits(old(Shared()), e) && Shared() == Settle(old(Shared()), e) && (e.running ==> old(running))
      decreases Unblocked(true, int_, term), 6
    {
      Interrupts(true, int_, term);
      found := ended != {};
      if found {
        var child, exited, status := Reap();
        e := HandleExit(child, exited, status, int_, term);
      } else {
        e := NO_RECORD;  // waitpid returned 0, or -1 with ECHILD
      }
    }

    /** The search for the slot of a reaped child. */
    method FindWorker(child: int, int_: bool, term: bool) returns (i: nat)
      requires Valid() && respawn == 0 && child > 0
      modifies this, workerPids
      ensures Valid() && Interrupted(old(Now()), Now()) && log == old(log) && termed >= old(termed)
      ensures Undisturbed() && Booked() && Endings() <= old(Endings()) && i == FirstSlot(old(workerPids[..]), child, 0)
      decreases Unblocked(true, int_, term), 2
    {
      ghost var f := FirstSlot(workerPids[..], child, 0);
      i := 0;
      while i < MAX_PROCESS
        invariant 0 <= i <= MAX_PROCESS && Valid() && respawn == 0
        invariant Interrupted(old(Now()), Now()) && log == old(log) && termed >= old(termed)
        invariant Undisturbed() && Booked() && Endings() <= old(Endings()) && f == FirstSlot(workerPids[..], child, i)
      {
        Interrupts(true, int_, term);
        if workerPids[i] == child {
          return;
        }
        i := i + 1;
      }
    }

    /** What the exit status of a reaped child asks for; the record says what was done about it. */
    method HandleExit(child: int, exited: bool, status: int, int_: bool, term: bool) returns (ghost e: Reaped)
      requires Valid() && respawn == 0 && child > 0 && child !in children
      modifies this, workerPids
      ensures Valid() && respawn == 0 && Interrupted(old(Now()), Now()) && log == old(log) && termed >= old(termed)
      ensures Booked() && Endings() <= old(Endings()) && old(ended) <= ended && reaps == old(reaps) + [e]
      ensures e == Reaped(child, exited, status, e.running, e.slot, e.outcome) && (e.running ==> old(running))
      ensures e.slot == FirstSlot(old(workerPids[..]), child, 0)
      ensures e.outcome.Replaced? ==> e.outcome.pid > 0 && e.outcome.pid !in old(children)
      ensures Shared() == Table(Left(old(workerPids[..]), e.slot, e.outcome), Grown(old(children), e.outcome))
      decreases Unblocked(true, int_, term), 5
    {
      var i := FindWorker(child, int_, term);
      ghost var wasRunning, outcome := running, NotFound;
      if i < MAX_PROCESS {
        outcome := HandleSlot(i, exited, status, int_, term);
      }
      e := Reaped(child, exited, status, wasRunning, i, outcome);
      RestartsNext(reaps, e);
      reaps := reaps + [e];
    }

    /** Its part after the slot was found: the worker is replaced, or the slot cleared. */
    method HandleSlot(i: nat, exited: bool, status: int, int_: bool, term: bool) returns (ghost outcome: Outcome)
      requires Valid() && respawn == 0 && i < MAX_PROCESS && workerPids[i] > 0 && workerPids[i] !in children
      modifies this, workerPids
      ensures Valid() && respawn == 0 && Interrupted(old(Now()), Now()) && Endings() <= old(Endings())
      ensures log == old(log) && termed >= old(termed) && old(moments) <= moments
      ensures reaps == old(reaps) && old(ended) <= ended && (running ==> outcome != Forgone)
      ensures if old(running) && (if exited then status != 0 else status != SIGTERM && status != SIGINT)
              then Forked(outcome) || outcome == Forgone else outcome == Cleared
      ensures forks == if Forked(outcome) then old(forks) + 1 else old(forks)
      ensures outcome.Replaced? ==> outcome.pid > 0 && outcome.pid !in old(children)
      ensures Shared() == Table(Left(old(workerPids[..]), i, outcome), Grown(old(children), outcome))
      decreases Unblocked(true, int_, term), 4
    {
      var restart := if exited then status != 0 && running else running && status != SIGTERM && status != SIGINT;
      Interrupts(true, int_, term);
      if restart {
        outcome := RestartWorker(i, int_, term);
      } else {
        SetSlot(i, 0);
        outcome := Cleared;
      }
    }

    // ----- the main program: runMutilProcessServer -----

    /** The spawn loop. */
    method SpawnWorkers()
      requires Valid() && started == 0 && pending == 0 && respawn == 0
      modifies this, workerPids
      ensures Valid() && started == MAX_PROCESS && pending == 0 && respawn == 0
      ensures log == old(log) && old(moments) < moments && Unbooked() == old(Unbooked()) + MAX_PROCESS
    {
      var i := 0;
      while i < MAX_PROCESS
        invariant Unbooked() == old(Unbooked()) + i
        invariant 0 <= i == started <= MAX_PROCESS && Valid() && pending == 0 && respawn == 0
        invariant log == old(log) && old(moments) <= moments && (i > 0 ==> old(moments) < moments)
      {
        SpawnOne(i);
        Interrupts(false, false, false);  // usleep
        i := i + 1;
      }
    }

    /** One slot of it: signals can also arrive between the fork and the recording of its result. */
    method SpawnOne(i: nat)
      requires Valid() && i == started < MAX_PROCESS && pending == 0 && respawn == 0
      modifies this, workerPids
      ensures Valid() && started == i + 1 && pending == 0 && respawn == 0
      ensures log == old(log) && old(moments) <= moments && Unbooked() == old(Unbooked()) + 1
    {
      Interrupts(false, false, false);
      var pid := ForkWorker();
      if pid > 0 {
        Interrupts(false, false, false);
      }
      EndTurn(i, pid);
    }

    /** One look at the table, slot by slot: whether it is empty, and then it stays empty. */
    method AllDead() returns (allDead: bool)
      requires Valid() && Draining()
      modifies this, workerPids
      ensures Valid() && Draining() && log == Looked(old(log), 1) && Booked()
      ensures OnlyCleared(old(Now()), Now()) && children <= old(children)
      ensures allDead <==> forall k :: 0 <= k < MAX_PROCESS ==> workerPids[k] == 0
    {
      log := Looked(log, 1);
      var i := 0;
      while i < MAX_PROCESS
        invariant 0 <= i <= MAX_PROCESS && Valid() && Draining()
        invariant log == Looked(old(log), 1) && Booked()
        invariant OnlyCleared(old(Now()), Now()) && children <= old(children)
        invariant forall k :: 0 <= k < i ==> workerPids[k] == 0
      {
        Interrupts(false, false, false);
        if workerPids[i] > 0 {
          return false;
        }
        i := i + 1;
      }
      return true;
    }

    /** After the main loop: shutdown was requested and nothing is about to be recorded. */
    ghost predicate Draining()
      reads this
    {
      !running && started == MAX_PROCESS && pending == 0 && respawn == 0
    }

    /** The polling loop: at most 30 looks, one second apart. */
    method Poll() returns (timeout: int)
      requires Valid() && Draining()
      modifies this, workerPids
      ensures Valid() && Draining() && Booked()
      ensures var looks := log.looks - old(log).looks;
              && 0 <= looks && log == Looked(old(log), looks)
              && if timeout > 0 then children == {} && looks <= DRAIN_SECONDS else looks == DRAIN_SECONDS
    {
      timeout := DRAIN_SECONDS;
      while true
        invariant Valid() && Draining() && Booked()
        invariant 0 <= timeout <= DRAIN_SECONDS && log == Looked(old(log), DRAIN_SECONDS - timeout)
        decreases timeout
      {
        var inTime := timeout > 0;
        timeout := timeout - 1;
        if !inTime {
          break;
        }
        var allDead := AllDead();
        if allDead {
          EmptyTableNoChildren(Now());
          break;
        }
        Interrupts(false, false, false);  // sleep(1)
      }
    }

    /** `kill(worker_pids[i], SIGKILL)`, after a test that found `tested` in the slot. */
    method KillSlot(i: nat, tested: int) returns (hit: bool)
      requires Valid() && i < MAX_PROCESS
      modifies this`log
      ensures Valid() && log == Called(old(log), [Kill(i, tested, workerPids[i], old(log).looks)])
      ensures hit <==> workerPids[i] != 0
    {
      log := Called(log, [Kill(i, tested, workerPids[i], log.looks)]);
      hit := workerPids[i] != 0;
    }

    /**
     The SIGKILL loop.  A slot can be cleared between the test and the call, which then addresses the whole
     process group, the master included.  The master survives exactly if that happened in none of the calls:
     always when no slot is cleared while the loop runs, and so when SIGCHLD is blocked, which the source does
     not do (`chld`).
     */
    method KillAll(chld: bool) returns (survived: bool, ghost more: seq<Kill>)
      requires Valid() && Draining()
      modifies this, workerPids
      ensures Valid() && Draining() && Booked() && log == Called(old(log), more)
      ensures survived <==> forall e :: e in more ==> !HitsGroup(e)
      ensures forall e :: e in more ==> OneSlotKilled(e, old(workerPids[..]), old(log).looks)
      ensures survived ==> children <= Killed(more)
      ensures chld || workerPids[..] == old(workerPids[..]) ==> survived
    {
      more := [];
      survived := true;
      var i := 0;
      while i < MAX_PROCESS && survived
        invariant 0 <= i <= MAX_PROCESS && Valid() && Draining()
        invariant Booked() && log == Called(old(log), more) && OnlyCleared(old(Now()), Now())
        invariant survived <==> forall e :: e in more ==> !HitsGroup(e)
        invariant forall e :: e in more ==> OneSlotKilled(e, old(workerPids[..]), old(log).looks)
        invariant survived ==> forall k :: 0 <= k < i ==> workerPids[k] == 0 || workerPids[k] in Killed(more)
        invariant !survived ==> !chld && workerPids[..] != old(workerPids[..])
      {
        ghost var one: seq<Kill>;
        survived, one := KillOne(i, chld);
        KilledMore(more, one);
        CalledTwice(old(log), more, one);
        more := more + one;
        i := i + 1;
      }
      if survived { LeftoverKilled(Now(), Killed(more)); }
    }

    /** One slot of it. */
    method KillOne(i: nat, chld: bool) returns (hit: bool, ghost one: seq<Kill>)
      requires Valid() && Draining() && i < MAX_PROCESS
      modifies this, workerPids
      ensures Valid() && Draining() && Booked() && OnlyCleared(old(Now()), Now())
      ensures log == Called(old(log), one)
      ensures hit <==> forall e :: e in one ==> !HitsGroup(e)
      ensures forall e :: e in one ==> OneSlotKilled(e, old(workerPids[..]), old(log).looks)
      ensures hit ==> workerPids[i] == 0 || workerPids[i] in Killed(one)
      ensures !hit ==> !chld && old(workerPids[i]) > 0 && workerPids[i] == 0
    {
      Interrupts(chld, false, false);
      hit, one := true, [];
      assert log.kills + [] == log.kills;
      if workerPids[i] > 0 {
        var tested := workerPids[i];
        Interrupts(chld, false, false);
        hit := KillSlot(i, tested);
        one := [Kill(i, tested, workerPids[i], log.looks)];
        assert one[0] in one;
      }
    }

    /** A blocking `waitpid` waits until a child has ended. */
    method SomeChildEnds()
      requires Valid() && children != {}
      modifies this`ended
      ensures Valid() && ended != {}
    {
      if ended == {} {
        assert |children| > 0;
        var child := Pick(children);
        ended := {child};
      }
    }

    /** The final wait.  SIGCHLD restarts `waitpid`; SIGINT and SIGTERM make it fail. */
    method WaitForAll() returns (interrupted: bool)
      requires Valid() && Draining()
      modifies this, workerPids
      ensures Valid() && Draining() && Booked()
      ensures log == old(log).(wait := Waiting(old(children), old(log).kills))
      ensures children <= old(children) && (!interrupted ==> children == {})
      ensures interrupted ==> forall k :: 0 <= k < MAX_PROCESS ==> workerPids[k] == 0 || workerPids[k] in termed
    {
      log := log.(wait := Waiting(children, log.kills));
      var reaped := true;
      interrupted := false;
      while reaped
        invariant Valid() && Draining() && Booked()
        invariant log == old(log).(wait := Waiting(old(children), old(log).kills))
        invariant children <= old(children)
        invariant !reaped ==> if interrupted then Termed(workerPids[..], termed, MAX_PROCESS) else children == {}
        decreases reaped, |children|
      {
        reaped, interrupted := WaitOnce();
      }
    }

    /** One call of `waitpid`: a child, or ECHILD when there is none, or EINTR. */
    method WaitOnce() returns (reaped: bool, interrupted: bool)
      requires Valid() && Draining()
      modifies this, workerPids
      ensures Valid() && Draining() && Booked() && log == old(log) && children <= old(children)
      ensures reaped ==> |children| < |old(children)|
      ensures !reaped ==> if interrupted then Termed(workerPids[..], termed, MAX_PROCESS) else children == {}
    {
      ghost var before := children;
      Interrupts(false, false, false);
      CardinalityLess(children, before);
      if children == {} {
        return false, false;
      }
      interrupted := *;
      if interrupted {
        var byInt: bool := *;
        ShutdownHandler(false, byInt, !byInt);  // SIGINT or SIGTERM, whose own signal is blocked
        return false, true;
      }
      SomeChildEnds();
      var _, _, _ := Reap();
      CardinalityLess(children, before);
      return true, false;
    }
  }

  /** How a run of the master ends; `StillRunning` is a run that has not ended. */
  datatype Ending = StillRunning | GroupKilled | WaitInterrupted | Drained

  /** What the record of a whole run says, by the way it ended. */
  ghost predicate DrainedWell(log: Log, ending: Ending, children: set<int>) {
    && log.looks <= DRAIN_SECONDS && (forall e :: e in log.kills ==> e.looks == DRAIN_SECONDS)
    && (ending == GroupKilled <==> exists e :: e in log.kills && HitsGroup(e))
    && (ending == Drained || ending == WaitInterrupted ==>
          log.wait.Waiting? && log.wait.children <= Killed(log.wait.kills) && children <= log.wait.children)
    && (ending == Drained ==> children == {})
  }

  /** Spawn, idle until shutdown is requested, drain. */
  method RunMultiProcessServer() returns (m: Master, ending: Ending)
    ensures fresh(m) && fresh(m.workerPids) && m.Valid()
    ensures ending == StillRunning <==> m.running
    ensures var log := m.log;
            && log.looks <= 30 && (forall e :: e in log.kills ==> e.looks == 30)
            && (ending == GroupKilled <==> exists e :: e in log.kills && e.read == 0)
            && (ending == Drained || ending == WaitInterrupted ==>
                  && log.wait.Waiting? && m.children <= log.wait.children
                  && log.wait.children <= set e | e in log.wait.kills && e.read > 0 :: e.read)
    ensures ending == Drained ==> m.children == {}
    ensures m.forks == 4 + Restarts(m.reaps)
    ensures forall e :: e in m.reaps && e.slot < MAX_PROCESS ==>
      if e.running && (if e.exited then e.status != 0 else e.status != 15 && e.status != 2)
      then e.outcome.Replaced? || e.outcome == ForkFailed || (e.outcome == Forgone && !m.running)
      else e.outcome == Cleared
    ensures m.moments != [] && forall j :: 0 <= j < |m.moments| ==> Kept(m.moments[j])
    ensures forall i, j :: 0 <= i < j < |m.moments| ==> NotRevived(m.moments[i], m.moments[j])
  {
    m := new Master();
    m.SpawnWorkers();
    var patience: nat := *;
    while m.running
      invariant fresh(m) && fresh(m.workerPids) && m.Valid() && m.moments != []
      invariant m.started == MAX_PROCESS && m.pending == 0 && m.respawn == 0 && m.log == Log(0, [], NotYet)
      invariant m.Unbooked() == MAX_PROCESS
      decreases patience
    {
      if patience == 0 {
        EveryMoment(m.moments, m.Now());
        SettledMeans(m.reaps, true);
        return m, StillRunning;
      }
      patience := patience - 1;
      m.Interrupts(false, false, false);  // sleep(1)
    }
    ending := Drain(m);
    EveryMoment(m.moments, m.Now());
    SettledMeans(m.reaps, false);
  }

  /**
   The drain: poll, kill when time has run out, wait.  When the wait starts, every child that is unreaped has
   been sent SIGKILL, or there is none.
   */
  method Drain(m: Master) returns (ending: Ending)
    requires m.Valid() && m.Draining() && m.log == Log(0, [], NotYet)
    modifies m, m.workerPids
    ensures m.Valid() && m.Booked() && !m.running && ending != StillRunning
    ensures DrainedWell(m.log, ending, m.children)
  {
    var timeout := m.Poll();
    if timeout <= 0 {
      var survived, _ := m.KillAll(false);
      if !survived {
        return GroupKilled;
      }
    }
    var interrupted := m.WaitForAll();
    ending := if interrupted then WaitInterrupted else Drained;
  }

  /** When the table holds only pids that were sent SIGKILL, every child was. */
  lemma LeftoverKilled(s: State, killed: set<int>)
    requires Inv(s) && s.pending == 0 && s.respawn == 0
    requires forall k :: 0 <= k < MAX_PROCESS ==> s.slots[k] == 0 || s.slots[k] in killed
    ensures s.children <= killed
  {
    forall p | p in s.children
      ensures p in killed
    {
      assert Held(s, p);
    }
  }

  lemma CardinalityLess(a: set<int>, b: set<int>)
    requires a <= b
    ensures |a| <= |b| && (a != b ==> |a| < |b|)
  {
    assert b == a + (b - a);
    assert |b| == |a| + |b - a|;
  }

  /** How many of the three signals can still interrupt. */
  function Unblocked(chld: bool, int_: bool, term: bool): nat {
    (if chld then 0 else 1) + (if int_ then 0 else 1) + (if term then 0 else 1)
  }

  // ---------- whole runs ----------

  /** At most four children are unreaped, each in a slot or just forked. */
  ghost predicate Kept(s: State) {
    && |s.slots| == 4 && |s.children| <= 4
    && forall p :: p in s.children ==> p > 0 && (p in s.slots || p == s.pending || p == s.respawn)
  }

  /** A slot that was 0 after its startup turn is 0 later; a shutdown request is not taken back. */
  ghost predicate NotRevived(s: State, t: State) {
    && |s.slots| == |t.slots| == 4 && (t.running ==> s.running)
    && forall k :: 0 <= k < 4 && k < s.started && s.slots[k] == 0 ==> t.slots[k] == 0
  }

  lemma EveryMoment(moments: seq<State>, now: State)
    requires History(moments, now)
    ensures forall j :: 0 <= j < |moments| ==> Kept(moments[j])
    ensures forall i, j :: 0 <= i < j < |moments| ==> NotRevived(moments[i], moments[j])
  {
    forall j | 0 <= j < |moments|
      ensures Kept(moments[j])
    {
      KeptIf(moments[j]);
    }
    forall i, j | 0 <= i < j < |moments|
      ensures NotRevived(moments[i], moments[j])
    {
      assert Later(moments[i], moments[j]);
    }
  }

  lemma KeptIf(s: State)
    requires Inv(s)
    ensures Kept(s)
  {
    AtMostMaxProcess(s);
    forall p | p in s.children
      ensures p > 0 && (p in s.slots || p == s.pending || p == s.respawn)
    {
      assert Held(s, p);
    }
  }
}
