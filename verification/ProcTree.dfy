/**
The process table of proc.c as a state machine.  Each event is one section of code that runs with
ptable.lock held, or one of the two stores fork makes to a slot it owns without the lock.
*/
module ProcTree {
  import opened Options
  import opened Params

  datatype State = UNUSED | EMBRYO | SLEEPING | RUNNABLE | RUNNING | ZOMBIE

  /** Sleep channels: wait sleeps on the address of the process itself; all others are some other address. */
  datatype Chan = NoChan | OfProc(i: nat) | Other(addr: nat)

  /** Where a process is in fork: outside, between allocproc and the parent store, or before the child is published. */
  datatype Pc = Idle | Allocated(np: nat) | Adopted(np: nat)

  datatype Proc = Proc(state: State, pid: nat, parent: Option<nat>, chan: Chan, killed: bool, pc: Pc)

  /** `reaped` lists the pids wait has returned, in order; `aborted` holds those of forks that failed. */
  datatype Table = Table(p: seq<Proc>, nextpid: nat, init: nat, reaped: seq<nat>, aborted: set<nat>)

  datatype Event =
    | Alloc(i: nat) | Abort(i: nat) | Adopt(i: nat) | Publish(i: nat)
    | Exit(i: nat) | Wait(i: nat)
    | Sleep(i: nat, chan: Chan) | Wakeup(chan: Chan) | Kill(pid: nat)
    | Dispatch(i: nat) | Yield(i: nat)

  // ---------- The sections as functions ----------

  predicate IsChild(p: seq<Proc>, c: nat, i: nat) { c < |p| && p[c].parent == Some(i) }

  /** wakeup1. */
  function Woken(p: seq<Proc>, ch: Chan): (r: seq<Proc>)
    ensures |r| == |p|
  {
    seq(|p|, k requires 0 <= k < |p| => if p[k].state == SLEEPING && p[k].chan == ch then p[k].(state := RUNNABLE)
        else p[k])
  }

  /** exit's loop without its wakeups: the children of i become children of init. */
  function Reparented(p: seq<Proc>, i: nat, init: nat): (r: seq<Proc>)
    ensures |r| == |p|
  {
    seq(|p|, k requires 0 <= k < |p| => if p[k].parent == Some(i) then p[k].(parent := Some(init)) else p[k])
  }

  predicate HasZombie(p: seq<Proc>, i: nat) { exists c: nat | c < |p| :: IsChild(p, c, i) && p[c].state == ZOMBIE }

  function ParentChan(q: Proc): (ch: Chan) { if q.parent.Some? then OfProc(q.parent.value) else NoChan }

  /** exit, from acquire to sched. */
  function Exited(t: Table, i: nat): (r: Table)
    requires i < |t.p|
  {
    var p1 := Woken(t.p, ParentChan(t.p[i]));
    var p2 := Reparented(p1, i, t.init);
    var p3 := if HasZombie(p1, i) then Woken(p2, OfProc(t.init)) else p2;
    t.(p := p3[i := p3[i].(state := ZOMBIE)])
  }

  /** The first slot at or after k in some state, or NPROC. */
  function FirstUnused(p: seq<Proc>, k: nat): (np: nat)
    requires k <= |p|
    ensures k <= np <= |p| && (np < |p| ==> p[np].state == UNUSED)
    ensures forall j | k <= j < np :: p[j].state != UNUSED
    decreases |p| - k
  {
    if k == |p| || p[k].state == UNUSED then k else FirstUnused(p, k + 1)
  }

  function FirstZombie(p: seq<Proc>, i: nat, k: nat): (z: nat)
    requires k <= |p|
    ensures k <= z <= |p| && (z < |p| ==> IsChild(p, z, i) && p[z].state == ZOMBIE)
    ensures forall j: nat | k <= j < z :: !(IsChild(p, j, i) && p[j].state == ZOMBIE)
    decreases |p| - k
  {
    if k == |p| || (IsChild(p, k, i) && p[k].state == ZOMBIE) then k else FirstZombie(p, i, k + 1)
  }

  function FirstPid(p: seq<Proc>, pid: nat, k: nat): (z: nat)
    requires k <= |p|
    ensures k <= z <= |p| && (z < |p| ==> p[z].pid == pid)
    ensures forall j | k <= j < z :: p[j].pid != pid
    decreases |p| - k
  {
    if k == |p| || p[k].pid == pid then k else FirstPid(p, pid, k + 1)
  }

  predicate HasKids(p: seq<Proc>, i: nat) { exists c: nat | c < |p| :: IsChild(p, c, i) }

  /** What wait does once it has scanned the table: reap the first zombie child, give up, or sleep. */
  function Waited(t: Table, i: nat): (r: Table)
    requires i < |t.p|
  {
    var z := FirstZombie(t.p, i, 0);
    if z < |t.p| then
      t.(p := t.p[z := t.p[z].(state := UNUSED, pid := 0, parent := None, killed := false)],
         reaped := t.reaped + [t.p[z].pid])
    else if !HasKids(t.p, i) || t.p[i].killed then t
    else t.(p := t.p[i := t.p[i].(state := SLEEPING, chan := OfProc(i))])
  }

  /** What a process can do in a state; RUNNING means it has the CPU. */
  predicate Enabled(t: Table, e: Event) {
    match e
    case Alloc(i) => i < |t.p| && t.p[i].state == RUNNING && t.p[i].pc == Idle
    case Abort(i) => i < |t.p| && t.p[i].state == RUNNING && t.p[i].pc.Allocated? && t.p[i].pc.np < |t.p|
    case Adopt(i) => i < |t.p| && t.p[i].state == RUNNING && t.p[i].pc.Allocated? && t.p[i].pc.np < |t.p|
    case Publish(i) => i < |t.p| && t.p[i].state == RUNNING && t.p[i].pc.Adopted? && t.p[i].pc.np < |t.p|
    case Exit(i) => i < |t.p| && t.p[i].state == RUNNING && t.p[i].pc == Idle && i != t.init
    case Wait(i) => i < |t.p| && t.p[i].state == RUNNING && t.p[i].pc == Idle
    case Sleep(i, chan) => i < |t.p| && t.p[i].state == RUNNING && t.p[i].pc == Idle && chan.Other?
    case Wakeup(chan) => true
    case Kill(pid) => true
    case Dispatch(i) => i < |t.p| && t.p[i].state == RUNNABLE
    case Yield(i) => i < |t.p| && t.p[i].state == RUNNING
  }

  function Set(t: Table, i: nat, q: Proc): (r: Table)
    requires i < |t.p|
  {
    t.(p := t.p[i := q])
  }

  function Next(t: Table, e: Event): (r: Table)
    requires Enabled(t, e)
  {
    match e
    case Alloc(i) =>
      var np := FirstUnused(t.p, 0);
      if np == |t.p| then t
      else
        var p1 := t.p[np := t.p[np].(state := EMBRYO, pid := t.nextpid)];
        t.(p := p1[i := p1[i].(pc := Allocated(np))], nextpid := t.nextpid + 1)
    case Abort(i) =>
      var np := t.p[i].pc.np;
      var p1 := t.p[np := t.p[np].(state := UNUSED)];
      t.(p := p1[i := p1[i].(pc := Idle)], aborted := t.aborted + {t.p[np].pid})
    case Adopt(i) =>
      var np := t.p[i].pc.np;
      var p1 := t.p[np := t.p[np].(parent := Some(i))];
      t.(p := p1[i := p1[i].(pc := Adopted(np))])
    case Publish(i) =>
      var np := t.p[i].pc.np;
      var p1 := t.p[np := t.p[np].(state := RUNNABLE)];
      t.(p := p1[i := p1[i].(pc := Idle)])
    case Exit(i) => Exited(t, i)
    case Wait(i) => Waited(t, i)
    case Sleep(i, chan) => Set(t, i, t.p[i].(state := SLEEPING, chan := chan))
    case Wakeup(chan) => t.(p := Woken(t.p, chan))
    case Kill(pid) =>
      var k := FirstPid(t.p, pid, 0);
      if k == |t.p| then t
      else Set(t, k, t.p[k].(killed := true, state := if t.p[k].state == SLEEPING then RUNNABLE else t.p[k].state))
    case Dispatch(i) => Set(t, i, t.p[i].(state := RUNNING, chan := NoChan))
    case Yield(i) => Set(t, i, t.p[i].(state := RUNNABLE))
  }

  // ---------- The invariant ----------

  predicate Alive(q: Proc) { q.state == SLEEPING || q.state == RUNNABLE || q.state == RUNNING }

  predicate Started(q: Proc) { Alive(q) || q.state == ZOMBIE }

  /** Used slots have distinct pids, all handed out already. */
  ghost predicate PidsUnique(t: Table) {
    && (forall i | 0 <= i < |t.p| && t.p[i].state != UNUSED :: 0 < t.p[i].pid < t.nextpid)
    && (forall i, j | 0 <= i < |t.p| && 0 <= j < |t.p| && i != j && t.p[i].state != UNUSED && t.p[j].state != UNUSED ::
          t.p[i].pid != t.p[j].pid)
  }

  /** A process that has started, but for init, has a parent; a parent is alive and has a smaller pid. */
  ghost predicate ParentOk(t: Table, i: nat)
    requires i < |t.p|
  {
    && (Started(t.p[i]) && i != t.init ==> t.p[i].parent.Some?)
    && (t.p[i].parent.Some? ==>
          var q := t.p[i].parent.value;
          t.p[i].state != UNUSED && q < |t.p| && Alive(t.p[q]) && t.p[q].pid < t.p[i].pid)
  }

  ghost predicate TreeOk(t: Table) {
    && t.init < |t.p| && Alive(t.p[t.init]) && t.p[t.init].pid == 1 && t.p[t.init].parent == None
    && (forall i: nat | i < |t.p| :: ParentOk(t, i))
  }

  /** A forking process owns the embryo it is making. */
  ghost predicate ForkOk(t: Table, i: nat)
    requires i < |t.p|
  {
    !t.p[i].pc.Idle? ==>
      var np := t.p[i].pc.np;
      && Alive(t.p[i]) && t.p[i].state != SLEEPING && np < |t.p| && np != i
      && t.p[np].state == EMBRYO && t.p[np].pc == Idle && t.p[i].pid < t.p[np].pid
      && t.p[np].parent == if t.p[i].pc.Adopted? then Some(i) else None
  }

  /** Two forks never make the same embryo. */
  ghost predicate ForksApart(t: Table, i: nat, j: nat)
    requires i < |t.p| && j < |t.p|
  {
    i != j && !t.p[i].pc.Idle? && !t.p[j].pc.Idle? ==> t.p[i].pc.np != t.p[j].pc.np
  }

  /** An embryo that has a parent is being made by it. */
  ghost predicate EmbryoOk(t: Table, k: nat)
    requires k < |t.p|
  {
    t.p[k].state == EMBRYO && t.p[k].parent.Some? ==>
          t.p[k].parent.value < |t.p| && t.p[t.p[k].parent.value].pc == Adopted(k)
  }

  ghost predicate EmbryosOk(t: Table) {
    && (forall i: nat | i < |t.p| :: ForkOk(t, i))
    && (forall i: nat, j: nat | i < |t.p| && j < |t.p| :: ForksApart(t, i, j))
    && (forall k: nat | k < |t.p| :: EmbryoOk(t, k))
  }

  /** Nobody sleeps in wait while child c is a zombie. */
  ghost predicate WaiterOk(t: Table, i: nat, c: nat)
    requires i < |t.p|
  {
    t.p[i].state == SLEEPING && t.p[i].chan.OfProc? ==>
          t.p[i].chan == OfProc(i) && !(IsChild(t.p, c, i) && t.p[c].state == ZOMBIE)
  }

  ghost predicate WaitersOk(t: Table) { forall i: nat, c: nat | i < |t.p| :: WaiterOk(t, i, c) }

  ghost predicate PidInUse(t: Table, x: nat) { exists i: nat :: i < |t.p| && t.p[i].state != UNUSED && t.p[i].pid == x }

  /** Every pid handed out is in exactly one place: a used slot, the list of reaped ones, or the aborted ones. */
  ghost predicate HistoryOk(t: Table) {
    && (forall x: nat :: 0 < x < t.nextpid <==> PidInUse(t, x) || x in t.reaped || x in t.aborted)
    && (forall x | x in t.reaped :: !PidInUse(t, x) && x !in t.aborted)
    && (forall x | x in t.aborted :: !PidInUse(t, x))
    && (forall j, k | 0 <= j < k < |t.reaped| :: t.reaped[j] != t.reaped[k])
  }

  ghost predicate Inv(t: Table) {
    |t.p| == NPROC && PidsUnique(t) && TreeOk(t) && EmbryosOk(t) && WaitersOk(t) && HistoryOk(t)
  }

  // ---------- Every step keeps it ----------

  /** Which slots are used, and by which pid, is the same. */
  ghost predicate SameUse(p: seq<Proc>, r: seq<Proc>) {
    |r| == |p|
        && forall i | 0 <= i < |p| ::
             (r[i].state == UNUSED <==> p[i].state == UNUSED) && (p[i].state != UNUSED ==> r[i].pid == p[i].pid)
  }

  lemma {:induction false} SameUseHistory(t: Table, r: Table)
    requires HistoryOk(t) && PidsUnique(t) && SameUse(t.p, r.p) && r.nextpid == t.nextpid && r.reaped == t.reaped
             && r.aborted == t.aborted
    ensures HistoryOk(r) && PidsUnique(r)
  {
    forall x: nat ensures PidInUse(r, x) <==> PidInUse(t, x) {
      if PidInUse(t, x) {
        var i: nat :| i < |t.p| && t.p[i].state != UNUSED && t.p[i].pid == x;
        assert r.p[i].pid == x;
      }
      if PidInUse(r, x) {
        var i: nat :| i < |r.p| && r.p[i].state != UNUSED && r.p[i].pid == x;
        assert t.p[i].pid == x;
      }
    }
  }

  /** Nothing but running, runnable, sleeping and killed changed, for processes that are alive. */
  ghost predicate SameShape(t: Table, r: Table) {
    && |r.p| == |t.p| && r.init == t.init && r.nextpid == t.nextpid && r.reaped == t.reaped && r.aborted == t.aborted
    && forall i: nat | i < |t.p| ::
         && r.p[i].pid == t.p[i].pid && r.p[i].parent == t.p[i].parent && r.p[i].pc == t.p[i].pc
         && (r.p[i].state == t.p[i].state
             || (Alive(r.p[i]) && Alive(t.p[i]) && (r.p[i].state == SLEEPING ==> r.p[i].pc == Idle)))
  }

  lemma {:induction false} SameShapeInv(t: Table, r: Table)
    requires Inv(t) && SameShape(t, r)
    requires forall i: nat, c: nat | i < |r.p| && r.p[i].state == SLEEPING && r.p[i] != t.p[i] :: WaiterOk(r, i, c)
    ensures Inv(r)
  {
    hide PidsUnique;
    SameUseHistory(t, r);
    forall i: nat | i < |r.p| ensures ParentOk(r, i) && ForkOk(r, i) && EmbryoOk(r, i) {
      assert ParentOk(t, i) && ForkOk(t, i) && EmbryoOk(t, i);
    }
    forall i: nat, j: nat | i < |r.p| && j < |r.p| ensures ForksApart(r, i, j) {
      assert ForksApart(t, i, j);
    }
    forall i: nat, c: nat | i < |r.p| ensures WaiterOk(r, i, c) {
      assert WaiterOk(t, i, c);
    }
  }

  /** Waking sleepers harms nothing. */
  lemma {:induction false} WakeupInv(t: Table, ch: Chan)
    requires Inv(t)
    ensures Inv(t.(p := Woken(t.p, ch)))
  {
    SameShapeInv(t, t.(p := Woken(t.p, ch)));
  }

  /** Moving one live process between running, runnable and a sleep it may take. */
  lemma {:induction false} MoveInv(t: Table, i: nat, q: Proc)
    requires Inv(t) && i < |t.p| && Alive(t.p[i]) && Alive(q)
    requires q == t.p[i].(state := q.state, chan := q.chan, killed := q.killed)
    requires q.state == SLEEPING ==> q.pc == Idle && (q.chan.Other? || (q.chan == OfProc(i) && !HasZombie(t.p, i)))
    ensures Inv(Set(t, i, q))
  {
    SameShapeInv(t, Set(t, i, q));
  }

  lemma {:induction false} KillInv(t: Table, k: nat)
    requires Inv(t) && k < |t.p|
    ensures Inv(Set(t, k,
                    t.p[k].(killed := true, state := if t.p[k].state == SLEEPING then RUNNABLE else t.p[k].state)))
  {
    var r := Set(t, k, t.p[k].(killed := true, state := if t.p[k].state == SLEEPING then RUNNABLE else t.p[k].state));
    SameShapeInv(t, r);
  }

  lemma {:induction false} AllocInv(t: Table, i: nat)
    requires Inv(t) && Enabled(t, Alloc(i))
    ensures Inv(Next(t, Alloc(i)))
  {
    hide FirstUnused;
    var np, r := FirstUnused(t.p, 0), Next(t, Alloc(i));
    if np < |t.p| {
      assert ParentOk(t, np) && ForkOk(t, np);
      AllocHistory(t, i, np);
      AllocRest(t, i, np);
    }
  }

  lemma {:induction false} AllocRest(t: Table, i: nat, np: nat)
    requires Inv(t) && Enabled(t, Alloc(i)) && np == FirstUnused(t.p, 0) < |t.p| && t.p[np].parent == None
             && t.p[np].pc == Idle
    requires t.p[i].pid < t.nextpid
    ensures var r := Next(t, Alloc(i)); TreeOk(r) && EmbryosOk(r) && WaitersOk(r)
  {
    hide PidsUnique, HistoryOk, FirstUnused;
    var r := Next(t, Alloc(i));
    forall k: nat | k < |r.p| ensures ParentOk(r, k) && ForkOk(r, k) && EmbryoOk(r, k) {
      assert ParentOk(t, k) && ForkOk(t, k) && EmbryoOk(t, k);
      assert ForkOk(t, np);
    }
    forall k: nat, j: nat | k < |r.p| && j < |r.p| ensures ForksApart(r, k, j) {
      assert ForksApart(t, k, j) && ForkOk(t, k) && ForkOk(t, j);
    }
    forall k: nat, c: nat | k < |r.p| ensures WaiterOk(r, k, c) {
      assert WaiterOk(t, k, c);
    }
  }

  lemma {:induction false} AllocHistory(t: Table, i: nat, np: nat)
    requires Inv(t) && Enabled(t, Alloc(i)) && np == FirstUnused(t.p, 0) < |t.p|
    ensures HistoryOk(Next(t, Alloc(i)))
  {
    var r := Next(t, Alloc(i));
    forall x: nat ensures PidInUse(r, x) <==> PidInUse(t, x) || x == t.nextpid {
      if PidInUse(t, x) {
        var k: nat :| k < |t.p| && t.p[k].state != UNUSED && t.p[k].pid == x;
        assert r.p[k].pid == x && r.p[k].state != UNUSED;
      }
      if PidInUse(r, x) {
        var k: nat :| k < |r.p| && r.p[k].state != UNUSED && r.p[k].pid == x;
        assert k != np ==> t.p[k].pid == x && t.p[k].state != UNUSED;
      }
      assert r.p[np].pid == t.nextpid && r.p[np].state != UNUSED;
    }
    forall x | x in t.reaped || x in t.aborted ensures x != t.nextpid {
    }
  }

  /** A slot leaves use: its pid moves to the reaped list or the aborted set. */
  lemma {:induction false} GoneHistory(t: Table, r: Table, z: nat)
    requires HistoryOk(t) && PidsUnique(t) && z < |t.p| == |r.p| && t.p[z].state != UNUSED && r.p[z].state == UNUSED
    requires forall k | 0 <= k < |t.p| && k != z :: r.p[k].state == UNUSED <==> t.p[k].state == UNUSED
    requires forall k | 0 <= k < |t.p| && k != z :: r.p[k].pid == t.p[k].pid
    requires r.nextpid == t.nextpid
    requires || (r.reaped == t.reaped + [t.p[z].pid] && r.aborted == t.aborted)
             || (r.reaped == t.reaped && r.aborted == t.aborted + {t.p[z].pid})
    ensures HistoryOk(r) && PidsUnique(r) && t.p[z].pid !in t.reaped && t.p[z].pid !in t.aborted
  {
    var v := t.p[z].pid;
    assert PidInUse(t, v);
    forall x: nat ensures PidInUse(r, x) <==> PidInUse(t, x) && x != v {
      if PidInUse(t, x) && x != v {
        var k: nat :| k < |t.p| && t.p[k].state != UNUSED && t.p[k].pid == x;
        assert r.p[k].pid == x && r.p[k].state != UNUSED;
      }
      if PidInUse(r, x) {
        var k: nat :| k < |r.p| && r.p[k].state != UNUSED && r.p[k].pid == x;
        assert k != z && t.p[k].pid == x && t.p[k].state != UNUSED;
      }
    }
    forall x: nat ensures 0 < x < r.nextpid <==> PidInUse(r, x) || x in r.reaped || x in r.aborted {
      assert 0 < x < t.nextpid <==> PidInUse(t, x) || x in t.reaped || x in t.aborted;
    }
  }

  lemma {:induction false} AbortInv(t: Table, i: nat)
    requires Inv(t) && Enabled(t, Abort(i))
    ensures Inv(Next(t, Abort(i)))
  {
    hide PidsUnique, HistoryOk;
    var np, r := t.p[i].pc.np, Next(t, Abort(i));
    assert ForkOk(t, i);
    GoneHistory(t, r, np);
    forall k: nat | k < |r.p| ensures ParentOk(r, k) && ForkOk(r, k) && EmbryoOk(r, k) {
      AbortAt(t, i, k);
    }
    forall k: nat, j: nat | k < |r.p| && j < |r.p| ensures ForksApart(r, k, j) {
      assert ForksApart(t, k, j);
    }
    forall k: nat, c: nat | k < |r.p| ensures WaiterOk(r, k, c) {
      assert WaiterOk(t, k, c);
    }
  }

  lemma {:induction false} AbortAt(t: Table, i: nat, k: nat)
    requires Inv(t) && Enabled(t, Abort(i)) && k < |t.p|
    ensures var r := Next(t, Abort(i)); |r.p| == |t.p| && ParentOk(r, k) && ForkOk(r, k) && EmbryoOk(r, k)
  {
    hide PidsUnique, HistoryOk, WaitersOk;
    assert ParentOk(t, k) && ForkOk(t, k) && EmbryoOk(t, k);
    assert ForkOk(t, i) && ForksApart(t, i, k);
  }

  lemma {:induction false} AdoptInv(t: Table, i: nat)
    requires Inv(t) && Enabled(t, Adopt(i))
    ensures Inv(Next(t, Adopt(i)))
  {
    hide PidsUnique, HistoryOk, SameUse, FirstZombie;
    var np, r := t.p[i].pc.np, Next(t, Adopt(i));
    assert ForkOk(t, i) && ParentOk(t, i);
    SameUseHistory(t, r);
    forall k: nat | k < |r.p| ensures ParentOk(r, k) && ForkOk(r, k) && EmbryoOk(r, k) {
      assert ParentOk(t, k) && ForkOk(t, k) && EmbryoOk(t, k);
      assert ForkOk(t, i) && ForksApart(t, i, k);
    }
    forall k: nat, j: nat | k < |r.p| && j < |r.p| ensures ForksApart(r, k, j) {
      assert ForksApart(t, k, j);
    }
    forall k: nat, c: nat | k < |r.p| ensures WaiterOk(r, k, c) {
      assert WaiterOk(t, k, c);
    }
  }

  lemma {:induction false} PublishInv(t: Table, i: nat)
    requires Inv(t) && Enabled(t, Publish(i))
    ensures Inv(Next(t, Publish(i)))
  {
    hide PidsUnique, HistoryOk, SameUse, Reparented;
    var np, r := t.p[i].pc.np, Next(t, Publish(i));
    assert ForkOk(t, i) && ParentOk(t, i);
    SameUseHistory(t, r);
    forall k: nat | k < |r.p| ensures ParentOk(r, k) && ForkOk(r, k) && EmbryoOk(r, k) {
      assert ParentOk(t, k) && ForkOk(t, k) && EmbryoOk(t, k);
      assert ForkOk(t, i) && ForksApart(t, i, k);
    }
    forall k: nat, j: nat | k < |r.p| && j < |r.p| ensures ForksApart(r, k, j) {
      assert ForksApart(t, k, j);
    }
    forall k: nat, c: nat | k < |r.p| ensures WaiterOk(r, k, c) {
      assert WaiterOk(t, k, c);
    }
  }

  lemma {:induction false} WaitInv(t: Table, i: nat)
    requires Inv(t) && Enabled(t, Wait(i))
    ensures Inv(Waited(t, i))
  {
    var z, r := FirstZombie(t.p, i, 0), Waited(t, i);
    if z < |t.p| {
      GoneHistory(t, r, z);
      WaitReapRest(t, i, z);
    } else if HasKids(t.p, i) && !t.p[i].killed {
      MoveInv(t, i, t.p[i].(state := SLEEPING, chan := OfProc(i)));
    }
  }

  lemma {:induction false} WaitReapRest(t: Table, i: nat, z: nat)
    requires Inv(t) && Enabled(t, Wait(i)) && z == FirstZombie(t.p, i, 0) < |t.p|
    ensures var r := Waited(t, i); TreeOk(r) && EmbryosOk(r) && WaitersOk(r)
  {
    hide PidsUnique;
    var r := Waited(t, i);
    assert ForkOk(t, z);
    forall k: nat | k < |r.p| ensures ParentOk(r, k) && ForkOk(r, k) && EmbryoOk(r, k) {
      assert ParentOk(t, k) && ForkOk(t, k) && EmbryoOk(t, k);
    }
    forall k: nat, j: nat | k < |r.p| && j < |r.p| ensures ForksApart(r, k, j) {
      assert ForksApart(t, k, j);
    }
    forall k: nat, c: nat | k < |r.p| ensures WaiterOk(r, k, c) {
      assert WaiterOk(t, k, c);
    }
  }

  lemma {:induction false} ExitInv(t: Table, i: nat)
    requires Inv(t) && Enabled(t, Exit(i))
    ensures Inv(Exited(t, i))
  {
    hide PidsUnique, HistoryOk, EmbryosOk, WaitersOk, Exited;
    assert ParentOk(t, i);
    var r := Exited(t, i);
    ExitShape(t, i, r);
    SameUseHistory(t, r);
    ExitWaiters(t, i);
    ExitRest(t, i, r);
  }

  /** exit changes parents only from i to init, and states only by waking, but for i itself. */
  lemma {:induction false} ExitShape(t: Table, i: nat, r: Table)
    requires i < |t.p| && t.p[i].state == RUNNING && r == Exited(t, i)
    ensures r == t.(p := r.p) && |r.p| == |t.p|
    ensures forall k: nat | k < |r.p| ::
              && r.p[k] == t.p[k].(parent := if t.p[k].parent == Some(i) then Some(t.init)
                                   else t.p[k].parent, state := r.p[k].state)
              && if k == i then r.p[k].state == ZOMBIE
                 else r.p[k].state == t.p[k].state || (Alive(r.p[k]) && Alive(t.p[k]) && r.p[k].state != SLEEPING)
  {
  }

  lemma {:induction false} ExitRest(t: Table, i: nat, r: Table)
    requires Inv(t) && Enabled(t, Exit(i)) && |r.p| == |t.p| && r.init == t.init
    requires forall k: nat | k < |r.p| ::
               && r.p[k] == t.p[k].(parent := if t.p[k].parent == Some(i) then Some(t.init)
                                    else t.p[k].parent, state := r.p[k].state)
               && if k == i then r.p[k].state == ZOMBIE
                  else r.p[k].state == t.p[k].state || (Alive(r.p[k]) && Alive(t.p[k]) && r.p[k].state != SLEEPING)
    ensures TreeOk(r) && EmbryosOk(r)
  {
    forall k: nat | k < |r.p| ensures ParentOk(r, k) && ForkOk(r, k) && EmbryoOk(r, k) {
      assert ParentOk(t, k) && ForkOk(t, k) && EmbryoOk(t, k);
    }
    forall k: nat, j: nat | k < |r.p| && j < |r.p| ensures ForksApart(r, k, j) {
      assert ForksApart(t, k, j);
    }
  }

  lemma {:induction false} ExitWaiters(t: Table, i: nat)
    requires Inv(t) && Enabled(t, Exit(i)) && t.p[i].parent.Some?
    ensures WaitersOk(Exited(t, i))
  {
    hide PidsUnique;
    var q, r := t.p[i].parent.value, Exited(t, i);
    var p1 := Woken(t.p, OfProc(q));
    assert ParentOk(t, i) && q != i;
    forall k: nat, c: nat | k < |r.p| ensures WaiterOk(r, k, c) {
      assert WaiterOk(t, k, c);
      if c < |t.p| && c != i && t.p[c].parent == Some(i) && p1[c].state == ZOMBIE {
        assert IsChild(p1, c, i) && HasZombie(p1, i);
      }
    }
  }

  /** Every event keeps the invariant. */
  lemma {:induction false} StepInv(t: Table, e: Event)
    requires Inv(t) && Enabled(t, e)
    ensures Inv(Next(t, e))
  {
    hide PidsUnique, TreeOk, EmbryosOk, WaitersOk, HistoryOk, Woken, Exited, Waited;
    match e {
      case Alloc(i) => AllocInv(t, i);
      case Abort(i) => AbortInv(t, i);
      case Adopt(i) => AdoptInv(t, i);
      case Publish(i) => PublishInv(t, i);
      case Exit(i) => ExitInv(t, i);
      case Wait(i) => WaitInv(t, i);
      case Sleep(i, chan) => MoveInv(t, i, t.p[i].(state := SLEEPING, chan := chan));
      case Wakeup(chan) => WakeupInv(t, chan);
      case Kill(pid) =>
        var k := FirstPid(t.p, pid, 0);
        if k < |t.p| {
          KillInv(t, k);
        }
      case Dispatch(i) => MoveInv(t, i, t.p[i].(state := RUNNING, chan := NoChan));
      case Yield(i) => MoveInv(t, i, t.p[i].(state := RUNNABLE));
    }
  }


  // ---------- Runs ----------

  /** The table after userinit. */
  ghost predicate Boot(t: Table) {
    && |t.p| == NPROC && t.init < NPROC && t.nextpid == 2 && t.reaped == [] && t.aborted == {}
    && (forall i: nat | i < NPROC ::
          t.p[i] == if i == t.init then Proc(RUNNABLE, 1, None, NoChan, false, Idle)
              else Proc(UNUSED, 0, None, NoChan, false, Idle))
  }

  ghost predicate Run(t: Table, es: seq<Event>)
    decreases |es|
  {
    es == [] || (Enabled(t, es[0]) && Run(Next(t, es[0]), es[1..]))
  }

  ghost function After(t: Table, es: seq<Event>): (r: Table)
    requires Run(t, es)
    decreases |es|
  {
    if es == [] then t else After(Next(t, es[0]), es[1..])
  }

  lemma {:induction false} BootInv(t: Table)
    requires Boot(t)
    ensures Inv(t)
  {
    forall x: nat ensures PidInUse(t, x) <==> x == 1 {
      assert t.p[t.init].pid == 1 && t.p[t.init].state != UNUSED;
    }
  }

  lemma {:induction false} RunInv(t: Table, es: seq<Event>)
    requires Inv(t) && Run(t, es)
    ensures Inv(After(t, es))
    decreases |es|
  {
    if es != [] {
      StepInv(t, es[0]);
      RunInv(Next(t, es[0]), es[1..]);
    }
  }

  /** The ancestors of a process, up to init. */
  ghost function Ancestors(t: Table, i: nat): (c: seq<nat>)
    requires Inv(t) && i < |t.p| && Started(t.p[i])
    decreases t.p[i].pid
  {
    assert ParentOk(t, i);
    if i == t.init then [i] else [i] + Ancestors(t, t.p[i].parent.value)
  }

  lemma {:induction false} AncestorsEndAtInit(t: Table, i: nat)
    requires Inv(t) && i < |t.p| && Started(t.p[i])
    ensures var c := Ancestors(t, i); c != [] && c[0] == i && c[|c| - 1] == t.init
    ensures forall k: nat | 0 < k < |Ancestors(t, i)| :: Ancestors(t, i)[k] < |t.p| && Alive(t.p[Ancestors(t, i)[k]])
    decreases t.p[i].pid
  {
    assert ParentOk(t, i);
    if i != t.init {
      var q := t.p[i].parent.value;
      AncestorsEndAtInit(t, q);
      var c, d := Ancestors(t, i), Ancestors(t, q);
      forall k: nat | 0 < k < |c| ensures c[k] < |t.p| && Alive(t.p[c[k]]) {
        assert c[k] == d[k - 1];
      }
    }
  }

  /** The process tree, over every run from boot. */
  lemma {:induction false} ProcessTree(t: Table, es: seq<Event>, i: nat)
    requires Boot(t) && Run(t, es) && i < NPROC
    ensures var r := After(t, es);
            && |r.p| == NPROC
            && (forall j: nat | j < NPROC && j != i && r.p[i].state != UNUSED && r.p[j].state != UNUSED ::
                  r.p[i].pid != r.p[j].pid)
            && (Started(r.p[i]) && i != r.init ==>
                  r.p[i].parent.Some? && r.p[i].parent.value < NPROC && Alive(r.p[r.p[i].parent.value])
                      && r.p[r.p[i].parent.value].pid < r.p[i].pid)
            && (r.p[i].state == SLEEPING && r.p[i].chan == OfProc(i) ==> !HasZombie(r.p, i))
            && (forall j, k | 0 <= j < k < |r.reaped| :: r.reaped[j] != r.reaped[k])
            && (forall x: nat | x in r.reaped :: !PidInUse(r, x))
  {
    BootInv(t);
    RunInv(t, es);
    var r := After(t, es);
    assert ParentOk(r, i);
    forall c: nat | c < |r.p| && IsChild(r.p, c, i) && r.p[c].state == ZOMBIE
      ensures !(r.p[i].state == SLEEPING && r.p[i].chan == OfProc(i))
    {
      assert WaiterOk(r, i, c);
    }
  }

  // ---------- What the steps do, slot by slot ----------

  /** After wakeup nobody sleeps on the channel; those who did are runnable, and nothing else changed. */
  lemma {:induction false} WakeupStep(t: Table, ch: Chan)
    ensures var r := Next(t, Wakeup(ch));
            && r == t.(p := r.p) && |r.p| == |t.p|
            && (forall k: nat | k < |t.p| :: !(r.p[k].state == SLEEPING && r.p[k].chan == ch))
            && (forall k: nat | k < |t.p| && t.p[k].state == SLEEPING && t.p[k].chan == ch ::
                  r.p[k] == t.p[k].(state := RUNNABLE))
            && (forall k: nat | k < |t.p| && !(t.p[k].state == SLEEPING && t.p[k].chan == ch) :: r.p[k] == t.p[k])
  {
  }

  /** kill marks the first slot with the pid and, if it sleeps, makes it runnable; it changes nothing else. */
  lemma {:induction false} KillStep(t: Table, pid: nat)
    ensures var r := Next(t, Kill(pid));
            && r == t.(p := r.p) && |r.p| == |t.p|
            && (forall k: nat | k < |t.p| ::
                  if t.p[k].pid == pid && (forall j: nat | j < k :: t.p[j].pid != pid) then
                    && r.p[k].killed
                    && r.p[k].state == (if t.p[k].state == SLEEPING then RUNNABLE else t.p[k].state)
                    && r.p[k] == t.p[k].(killed := true, state := r.p[k].state)
                  else r.p[k] == t.p[k])
  {
    var z := FirstPid(t.p, pid, 0);
    forall k: nat | k < |t.p|
      ensures (t.p[k].pid == pid && (forall j: nat | j < k :: t.p[j].pid != pid)) <==> k == z
    {
      if t.p[k].pid == pid && k != z {
        assert z < k;
      }
    }
  }

  /** allocproc claims the first free slot and gives it the next pid, or changes nothing when none is free. */
  lemma {:induction false} AllocStep(t: Table, i: nat)
    requires Enabled(t, Alloc(i))
    ensures var r := Next(t, Alloc(i));
            && |r.p| == |t.p| && r.reaped == t.reaped && r.aborted == t.aborted && r.init == t.init
            && ((forall k: nat | k < |t.p| :: t.p[k].state != UNUSED) ==> r == t)
            && (forall k: nat | k < |t.p| && t.p[k].state == UNUSED
                                && (forall j: nat | j < k :: t.p[j].state != UNUSED) ::
                  && r.nextpid == t.nextpid + 1 && r.p[k] == t.p[k].(state := EMBRYO, pid := t.nextpid)
                  && r.p[i] == t.p[i].(pc := Allocated(k))
                  && (forall j: nat | j < |t.p| && j != k && j != i :: r.p[j] == t.p[j]))
  {
    var z := FirstUnused(t.p, 0);
    forall k: nat | k < |t.p| && t.p[k].state == UNUSED && (forall j: nat | j < k :: t.p[j].state != UNUSED)
      ensures k == z
    {
    }
  }

  /** What a process is after i's exit: an orphan goes to init, and the two wakeups reach the two waiters. */
  lemma {:induction false} ExitStep(t: Table, i: nat)
    requires Inv(t) && Enabled(t, Exit(i))
    ensures t.p[i].parent.Some?
    ensures var r := Next(t, Exit(i));
            && r == t.(p := r.p) && |r.p| == |t.p|
            && r.p[i] == t.p[i].(state := ZOMBIE)
            && (forall k: nat | k < |t.p| && k != i ::
                  && r.p[k].parent == (if t.p[k].parent == Some(i) then Some(t.init) else t.p[k].parent)
                  && r.p[k].pid == t.p[k].pid && r.p[k].chan == t.p[k].chan && r.p[k].killed == t.p[k].killed
                  && r.p[k].pc == t.p[k].pc && (t.p[k].state != SLEEPING ==> r.p[k].state == t.p[k].state)
                  && (t.p[k].state == SLEEPING ==>
                        r.p[k].state ==
                          if || t.p[k].chan == OfProc(t.p[i].parent.value)
                             || (t.p[k].chan == OfProc(t.init)
                                 && exists c: nat | c < |t.p| :: t.p[c].parent == Some(i) && t.p[c].state == ZOMBIE)
                          then RUNNABLE else SLEEPING))
  {
    hide PidsUnique, HistoryOk, WaitersOk, EmbryosOk, HasZombie, Woken, Reparented;
    assert ParentOk(t, i);
    ExitSlots(t, i);
  }

  /** exit's effect on every slot, before the process itself turns zombie. */
  lemma {:induction false} ExitSlots(t: Table, i: nat)
    requires i < |t.p|
    ensures var ch := ParentChan(t.p[i]);
            var p1 := Woken(t.p, ch);
            var p2 := Reparented(p1, i, t.init);
            var p3 := if HasZombie(p1, i) then Woken(p2, OfProc(t.init)) else p2;
            && |p3| == |t.p|
            && var zombie := exists c: nat | c < |t.p| :: t.p[c].parent == Some(i) && t.p[c].state == ZOMBIE;
               forall k: nat | k < |t.p| ::
                 var woken := t.p[k].chan == ch || (t.p[k].chan == OfProc(t.init) && zombie);
                 p3[k] == t.p[k].(parent := if t.p[k].parent == Some(i) then Some(t.init) else t.p[k].parent,
                                  state := if t.p[k].state == SLEEPING && woken then RUNNABLE else t.p[k].state)
  {
    hide HasZombie;
    ZombieKept(t.p, ParentChan(t.p[i]), i);
  }

  /** wakeup leaves the zombies alone. */
  lemma {:induction false} ZombieKept(p: seq<Proc>, ch: Chan, i: nat)
    ensures HasZombie(Woken(p, ch), i) <==> exists c: nat | c < |p| :: p[c].parent == Some(i) && p[c].state == ZOMBIE
  {
    var p1 := Woken(p, ch);
    if HasZombie(p1, i) {
      var c: nat :| c < |p1| && IsChild(p1, c, i) && p1[c].state == ZOMBIE;
      assert p[c].parent == Some(i) && p[c].state == ZOMBIE;
    }
    if c: nat :| c < |p| && p[c].parent == Some(i) && p[c].state == ZOMBIE {
      assert IsChild(p1, c, i) && p1[c].state == ZOMBIE;
    }
  }

  /** wait frees the first zombie child and records its pid; without one it gives up or sleeps on itself. */
  lemma {:induction false} WaitStep(t: Table, i: nat)
    requires Enabled(t, Wait(i))
    ensures var r := Next(t, Wait(i));
            && |r.p| == |t.p| && r.nextpid == t.nextpid && r.init == t.init && r.aborted == t.aborted
            && (forall z: nat | z < |t.p| && t.p[z].parent == Some(i) && t.p[z].state == ZOMBIE
                                  && (forall j: nat | j < z :: !(t.p[j].parent == Some(i) && t.p[j].state == ZOMBIE)) ::
                  && r.p[z] == Proc(UNUSED, 0, None, t.p[z].chan, false, t.p[z].pc)
                  && r.reaped == t.reaped + [t.p[z].pid]
                  && (forall j: nat | j < |t.p| && j != z :: r.p[j] == t.p[j]))
            && ((forall z: nat | z < |t.p| :: !(t.p[z].parent == Some(i) && t.p[z].state == ZOMBIE)) ==>
                  && r.reaped == t.reaped
                  && (forall j: nat | j < |t.p| && j != i :: r.p[j] == t.p[j])
                  && r.p[i] == if t.p[i].killed || (forall c: nat | c < |t.p| :: t.p[c].parent != Some(i)) then t.p[i]
                               else t.p[i].(state := SLEEPING, chan := OfProc(i)))
  {
    var f := FirstZombie(t.p, i, 0);
    forall z: nat | z < |t.p| && t.p[z].parent == Some(i) && t.p[z].state == ZOMBIE
                    && (forall j: nat | j < z :: !(t.p[j].parent == Some(i) && t.p[j].state == ZOMBIE))
      ensures z == f
    {
      assert IsChild(t.p, z, i);
    }
    assert f < |t.p| ==> IsChild(t.p, f, i);
    assert HasKids(t.p, i) <==> !forall c: nat | c < |t.p| :: t.p[c].parent != Some(i) by {
      if c: nat :| c < |t.p| && t.p[c].parent == Some(i) {
        assert IsChild(t.p, c, i);
      }
    }
  }

  /** A fork that succeeds: one new runnable process, in the first free slot, with the next pid and parent i. */
  lemma {:induction false} ForkMakesChild(t: Table, i: nat)
    requires Enabled(t, Alloc(i)) && FirstUnused(t.p, 0) < |t.p|
    ensures var es, k := [Alloc(i), Adopt(i), Publish(i)], FirstUnused(t.p, 0);
            && Run(t, es)
            && var r := After(t, es);
               && r == t.(p := r.p, nextpid := t.nextpid + 1) && |r.p| == |t.p| && k != i
               && r.p[k] == t.p[k].(state := RUNNABLE, pid := t.nextpid, parent := Some(i))
               && (forall j: nat | j < |t.p| && j != k :: r.p[j] == t.p[j])
  {
    hide Run, After;
    ThreeSteps(t, Alloc(i), Adopt(i), Publish(i));
  }

  /** A fork that fails after allocproc gives the slot back; only the pid is used up. */
  lemma {:induction false} ForkFails(t: Table, i: nat)
    requires Enabled(t, Alloc(i)) && FirstUnused(t.p, 0) < |t.p|
    ensures var k, t1 := FirstUnused(t.p, 0), Next(t, Alloc(i));
            && Enabled(t1, Abort(i))
            && var r := Next(t1, Abort(i));
               && r == t.(p := r.p, nextpid := t.nextpid + 1, aborted := t.aborted + {t.nextpid})
               && r.p == t.p[k := t.p[k].(pid := t.nextpid)]
  {
    var k, t1 := FirstUnused(t.p, 0), Next(t, Alloc(i));
    var r := Next(t1, Abort(i));
    assert forall j: nat | j < |t.p| :: r.p[j] == t.p[k := t.p[k].(pid := t.nextpid)][j];
  }

  /** Whether a step puts process i to sleep on channel ch. */
  ghost predicate FallsAsleep(e: Event, i: nat, ch: Chan) {
    e == Sleep(i, ch) || (e == Wait(i) && ch == OfProc(i))
  }

  /** Only i itself can put i to sleep. */
  lemma {:induction false} StaysAwake(t: Table, e: Event, i: nat, ch: Chan)
    requires Enabled(t, e) && i < |t.p| && !FallsAsleep(e, i, ch) && !(t.p[i].state == SLEEPING && t.p[i].chan == ch)
    ensures |Next(t, e).p| == |t.p|
    ensures var q := Next(t, e).p[i]; !(q.state == SLEEPING && q.chan == ch)
  {
  }

  lemma {:induction false} RunStaysAwake(t: Table, es: seq<Event>, i: nat, ch: Chan)
    requires Run(t, es) && i < |t.p| && !(t.p[i].state == SLEEPING && t.p[i].chan == ch)
    requires forall e | e in es :: !FallsAsleep(e, i, ch)
    ensures |After(t, es).p| == |t.p|
    ensures var q := After(t, es).p[i]; !(q.state == SLEEPING && q.chan == ch)
    decreases |es|
  {
    hide Next, Enabled, FallsAsleep;
    if es != [] {
      assert es[0] in es;
      StaysAwake(t, es[0], i, ch);
      RunStaysAwake(Next(t, es[0]), es[1..], i, ch);
    }
  }

  /** No wakeup is lost: after one, i is asleep on the channel only if it went to sleep on it again. */
  lemma {:induction false} WakeupNotLost(t: Table, ch: Chan, es: seq<Event>, i: nat)
    requires i < |t.p| && Run(Next(t, Wakeup(ch)), es)
    ensures var r := After(Next(t, Wakeup(ch)), es);
            |r.p| == |t.p|
                && (r.p[i].state == SLEEPING && r.p[i].chan == ch ==> exists e | e in es :: FallsAsleep(e, i, ch))
  {
    hide Run, After, FallsAsleep;
    WakeupStep(t, ch);
    RunSize(Next(t, Wakeup(ch)), es);
    if forall e | e in es :: !FallsAsleep(e, i, ch) {
      RunStaysAwake(Next(t, Wakeup(ch)), es, i, ch);
    }
  }

  lemma {:induction false} RunSize(t: Table, es: seq<Event>)
    requires Run(t, es)
    ensures |After(t, es).p| == |t.p|
    decreases |es|
  {
    if es != [] {
      RunSize(Next(t, es[0]), es[1..]);
    }
  }

  // ---------- Kill marks on slots that are not in use ----------

  /** No free slot is marked killed, so that no process starts out killed. */
  ghost predicate Unmarked(t: Table) { forall i: nat | i < |t.p| && t.p[i].state == UNUSED :: !t.p[i].killed }

  /**
  The two ways to leave a mark: a kill whose pid matches a free slot, and a fork that fails after
  its embryo was killed.
  */
  ghost predicate Marks(t: Table, e: Event) {
    || (e.Kill? && FirstPid(t.p, e.pid, 0) < |t.p| && t.p[FirstPid(t.p, e.pid, 0)].state == UNUSED)
    || (e.Abort? && e.i < |t.p| && !t.p[e.i].pc.Idle? && t.p[e.i].pc.np < |t.p| && t.p[t.p[e.i].pc.np].killed)
  }

  /** A step keeps the free slots unmarked exactly when it is not one of these. */
  lemma {:induction false} StepUnmarkedIff(t: Table, e: Event)
    requires Inv(t) && Enabled(t, e) && Unmarked(t)
    ensures Unmarked(Next(t, e)) <==> !Marks(t, e)
  {
    hide PidsUnique, HistoryOk, WaitersOk, TreeOk;
    var r := Next(t, e);
    if e.Abort? {
      assert ForkOk(t, e.i);
      assert r.p[t.p[e.i].pc.np].state == UNUSED;
    } else if e.Kill? && FirstPid(t.p, e.pid, 0) < |t.p| {
      assert r.p[FirstPid(t.p, e.pid, 0)].killed;
    }
  }

  ghost predicate AlwaysUnmarked(t: Table, es: seq<Event>)
    requires Run(t, es)
    decreases |es|
  {
    Unmarked(t) && (es == [] || AlwaysUnmarked(Next(t, es[0]), es[1..]))
  }

  ghost predicate NeverMarks(t: Table, es: seq<Event>)
    requires Run(t, es)
    decreases |es|
  {
    es == [] || (!Marks(t, es[0]) && NeverMarks(Next(t, es[0]), es[1..]))
  }

  lemma {:induction false} RunUnmarked(t: Table, es: seq<Event>)
    requires Inv(t) && Unmarked(t) && Run(t, es)
    ensures AlwaysUnmarked(t, es) <==> NeverMarks(t, es)
    decreases |es|
  {
    if es != [] {
      StepInv(t, es[0]);
      StepUnmarkedIff(t, es[0]);
      var r := Next(t, es[0]);
      if Unmarked(r) {
        RunUnmarked(r, es[1..]);
      }
    }
  }

  /**
  Over every run from boot: free slots stay unmarked exactly when no kill hits one and no fork fails
  under a killed embryo.
  */
  lemma {:induction false} KillMarksIff(t: Table, es: seq<Event>)
    requires Boot(t) && Run(t, es)
    ensures AlwaysUnmarked(t, es) <==> NeverMarks(t, es)
  {
    BootInv(t);
    RunUnmarked(t, es);
  }

  /** kill(0) by init, right after boot, succeeds, and the first process init then forks is born killed. */
  lemma {:induction false} KillZero(t: Table)
    requires Boot(t)
    ensures Run(t, [Dispatch(t.init), Kill(0), Alloc(t.init)])
    ensures var r := After(t, [Dispatch(t.init), Kill(0), Alloc(t.init)]);
            exists np: nat | np < |r.p| :: r.p[np].state == EMBRYO && r.p[np].killed
  {
    hide Run, After;
    var np := FirstUnused(t.p, 0);
    var t1 := Next(t, Dispatch(t.init));
    assert FirstPid(t1.p, 0, 0) == np;
    var t2 := Next(t1, Kill(0));
    assert FirstUnused(t2.p, 0) == np;
    var t3 := Next(t2, Alloc(t.init));
    ThreeSteps(t, Dispatch(t.init), Kill(0), Alloc(t.init));
    assert t3.p[np].state == EMBRYO && t3.p[np].killed;
  }

  lemma {:induction false} ThreeSteps(t: Table, a: Event, b: Event, c: Event)
    requires Enabled(t, a) && Enabled(Next(t, a), b) && Enabled(Next(Next(t, a), b), c)
    ensures Run(t, [a, b, c]) && After(t, [a, b, c]) == Next(Next(Next(t, a), b), c)
  {
    hide Next, Enabled;
    var es, t1, t2 := [a, b, c], Next(t, a), Next(Next(t, a), b);
    assert es[1..] == [b, c] && es[1..][1..] == [c] && es[1..][1..][1..] == [];
    assert Run(t2, es[1..][1..]) && After(t2, es[1..][1..]) == Next(t2, c);
    assert Run(t1, es[1..]) && After(t1, es[1..]) == Next(t2, c);
  }

  // ---------- The table in memory ----------

  class ProcTable {
    const init: nat
    var p: seq<Proc>
    var nextpid: nat
    ghost var reaped: seq<nat>
    ghost var aborted: set<nat>

    ghost function T(): (t: Table)
      reads this
    {
      Table(p, nextpid, init, reaped, aborted)
    }

    ghost predicate Valid()
      reads this
    {
      Inv(T())
    }

    /** wakeup1. */
    method Wakeup1(ch: Chan)
      requires |p| == NPROC
      modifies this`p
      ensures p == Woken(old(p), ch) && |p| == NPROC
      ensures forall k | 0 <= k < NPROC :: !(p[k].state == SLEEPING && p[k].chan == ch)
      ensures forall k | 0 <= k < NPROC && old(p)[k].state == SLEEPING && old(p)[k].chan == ch ::
                p[k] == old(p)[k].(state := RUNNABLE)
      ensures forall k | 0 <= k < NPROC && !(old(p)[k].state == SLEEPING && old(p)[k].chan == ch) :: p[k] == old(p)[k]
    {
      var k := 0;
      while k < NPROC
        invariant 0 <= k <= NPROC && |p| == NPROC
        invariant forall j | 0 <= j < NPROC :: p[j] == if j < k then Woken(old(p), ch)[j] else old(p)[j]
      {
        if p[k].state == SLEEPING && p[k].chan == ch {
          p := p[k := p[k].(state := RUNNABLE)];
        }
        k := k + 1;
      }
    }

    /** allocproc's search and claim. */
    method Allocproc(i: nat) returns (r: Option<nat>)
      requires Valid() && Enabled(T(), Alloc(i))
      modifies this`p, this`nextpid
      ensures Valid() && T() == Next(old(T()), Alloc(i))
      ensures r == (if FirstUnused(old(p), 0) == NPROC then None else Some(FirstUnused(old(p), 0)))
    {
      hide Inv;
      StepInv(T(), Alloc(i));
      TableSize(T());
      var np := 0;
      while np < NPROC
        invariant np <= NPROC && FirstUnused(p, np) == FirstUnused(p, 0)
      {
        if p[np].state == UNUSED {
          break;
        }
        np := np + 1;
      }
      if np == NPROC {
        return None;
      }
      p := p[np := p[np].(state := EMBRYO, pid := nextpid)];
      nextpid := nextpid + 1;
      p := p[i := p[i].(pc := Allocated(np))];
      return Some(np);
    }

    /** exit, from acquire to sched; i is curproc. */
    method ExitProc(i: nat)
      requires Valid() && Enabled(T(), Exit(i))
      modifies this`p
      ensures Valid() && T() == Next(old(T()), Exit(i))
    {
      hide Inv;
      StepInv(T(), Exit(i));
      TableSize(T());
      Wakeup1(ParentChan(p[i]));
      ghost var p1 := p;
      PassChildren(i);
      MovedAndWoken(p1, p, i, init);
      p := p[i := p[i].(state := ZOMBIE)];
    }

    /** exit's loop: the children go to init, which is woken for each zombie among them. */
    method PassChildren(i: nat)
      requires |p| == NPROC
      modifies this`p
      ensures |p| == NPROC
      ensures forall j | 0 <= j < NPROC :: p[j] == Passed(old(p)[j], i, init, true, HasZombie(old(p), i))
    {
      ghost var p1, woke := p, false;
      var k := 0;
      while k < NPROC
        invariant 0 <= k <= NPROC && |p| == NPROC
        invariant forall j | 0 <= j < NPROC :: p[j] == Passed(p1[j], i, init, j < k, woke)
        invariant woke <==> exists c: nat | c < k :: IsChild(p1, c, i) && p1[c].state == ZOMBIE
      {
        if p[k].parent == Some(i) {
          p := p[k := p[k].(parent := Some(init))];
          if p[k].state == ZOMBIE {
            assert IsChild(p1, k, i) && p1[k].state == ZOMBIE;
            Wakeup1(OfProc(init));
            woke := true;
          }
        }
        k := k + 1;
      }
      assert woke <==> HasZombie(p1, i);
    }

    /** wait from one acquisition of the lock to its release or to sleep; i is curproc. */
    method WaitOnce(i: nat) returns (pid: Option<nat>, asleep: bool)
      requires Valid() && Enabled(T(), Wait(i))
      modifies this`p, this`reaped
      ensures Valid() && T() == Next(old(T()), Wait(i))
      ensures pid.Some? <==> HasZombie(old(p), i)
      ensures pid.Some? ==> reaped == old(reaped) + [pid.value] && pid.value !in old(reaped)
      ensures asleep <==> !HasZombie(old(p), i) && HasKids(old(p), i) && !old(p[i].killed)
    {
      hide Inv;
      StepInv(T(), Wait(i));
      TableSize(T());
      ghost var t := T();
      var k, havekids := 0, false;
      while k < NPROC
        invariant 0 <= k <= NPROC && FirstZombie(p, i, k) == FirstZombie(p, i, 0) && T() == t
        invariant havekids <==> exists c: nat | c < k :: IsChild(p, c, i)
        invariant forall c: nat | c < k :: !(IsChild(p, c, i) && p[c].state == ZOMBIE)
      {
        if p[k].parent == Some(i) {
          assert IsChild(p, k, i);
          havekids := true;
          if p[k].state == ZOMBIE {
            ReapsOnce(t, i, k);
            pid := Some(p[k].pid);
            reaped := reaped + [p[k].pid];
            p := p[k := p[k].(pid := 0, parent := None, killed := false, state := UNUSED)];
            return pid, false;
          }
        }
        k := k + 1;
      }
      assert havekids <==> HasKids(p, i);
      if !havekids || p[i].killed {
        return None, false;
      }
      p := p[i := p[i].(state := SLEEPING, chan := OfProc(i))];
      return None, true;
    }

    /** kill. */
    method KillPid(pid: nat) returns (ok: bool)
      requires Valid()
      modifies this`p
      ensures Valid() && T() == Next(old(T()), Kill(pid)) && |p| == |old(p)| == NPROC
      ensures ok <==> exists k: nat | k < NPROC :: old(p)[k].pid == pid
      ensures forall k: nat | k < NPROC ::
                if old(p)[k].pid == pid && (forall j: nat | j < k :: old(p)[j].pid != pid) then
                  && p[k].killed && p[k].state == (if old(p)[k].state == SLEEPING then RUNNABLE else old(p)[k].state)
                  && p[k] == old(p)[k].(killed := true, state := p[k].state)
                else p[k] == old(p)[k]
    {
      hide Inv;
      KillStep(T(), pid);
      StepInv(T(), Kill(pid));
      TableSize(T());
      var k := 0;
      while k < NPROC
        invariant 0 <= k <= NPROC && FirstPid(p, pid, k) == FirstPid(p, pid, 0) && T() == old(T())
      {
        if p[k].pid == pid {
          p := p[k := p[k].(killed := true)];
          if p[k].state == SLEEPING {
            p := p[k := p[k].(state := RUNNABLE)];
          }
          assert T() == Next(old(T()), Kill(pid));
          return true;
        }
        k := k + 1;
      }
      return false;
    }
  }

  lemma {:induction false} TableSize(t: Table)
    requires Inv(t)
    ensures |t.p| == NPROC
  {
  }

  /** A process after exit's loop has seen it, with or without a wakeup of init. */
  function Passed(q: Proc, i: nat, init: nat, seen: bool, woke: bool): (r: Proc) {
    var q1 := if seen && q.parent == Some(i) then q.(parent := Some(init)) else q;
    if woke && q1.state == SLEEPING && q1.chan == OfProc(init) then q1.(state := RUNNABLE) else q1
  }

  lemma {:induction false} MovedAndWoken(p: seq<Proc>, p': seq<Proc>, i: nat, init: nat)
    requires |p| == |p'| == NPROC
    requires forall j | 0 <= j < NPROC :: p'[j] == Passed(p[j], i, init, true, HasZombie(p, i))
    ensures var p2 := Reparented(p, i, init); p' == if HasZombie(p, i) then Woken(p2, OfProc(init)) else p2
  {
  }

  /** The pid wait returns was never returned before. */
  lemma {:induction false} ReapsOnce(t: Table, i: nat, z: nat)
    requires Inv(t) && Enabled(t, Wait(i)) && z == FirstZombie(t.p, i, 0) < |t.p|
    ensures t.p[z].pid !in t.reaped
  {
    assert PidInUse(t, t.p[z].pid);
  }
}
