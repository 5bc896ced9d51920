/**
Group commit: the admission test of begin_op and the space it reserves.

Every theorem is about all interleavings of begin_op, log_write, end_op, commit and crash, as runs
of the machine in CrashLog.  The last part settles when log_write's "too big a transaction" panic
can be reached.
*/
module GroupCommit {
  import opened Blocks
  import opened CrashLog
  import opened Params

  /** The event keeps its system call within `budget` distinct logged blocks. */
  predicate Within(s: Sys, e: Event, budget: nat) {
    e.LogWrite? && e.k < |s.ops| ==> |s.ops[e.k].blocks + {e.block}| <= budget
  }

  /** Blocks the running calls may still log: per call, its budget less what it has logged. */
  function Unspent(ops: seq<Op>, budget: nat): (n: int) {
    if ops == [] then 0 else Unspent(ops[..|ops| - 1], budget) + budget - |ops[|ops| - 1].blocks|
  }

  lemma {:induction false} UnspentSnoc(ops: seq<Op>, op: Op, budget: nat)
    ensures Unspent(ops + [op], budget) == Unspent(ops, budget) + budget - |op.blocks|
  {
    assert (ops + [op])[..|ops|] == ops;
  }

  lemma {:induction false} UnspentUpdate(ops: seq<Op>, k: nat, op: Op, budget: nat)
    requires k < |ops|
    ensures Unspent(ops[k := op], budget) == Unspent(ops, budget) + |ops[k].blocks| - |op.blocks|
  {
    var n := |ops| - 1;
    if k < n {
      UnspentUpdate(ops[..n], k, op, budget);
      assert ops[k := op][..n] == ops[..n][k := op];
    } else {
      assert ops[k := op][..n] == ops[..n];
    }
  }

  lemma {:induction false} UnspentRemove(ops: seq<Op>, k: nat, budget: nat)
    requires k < |ops|
    ensures Unspent(ops[..k] + ops[k + 1..], budget) == Unspent(ops, budget) - budget + |ops[k].blocks|
  {
    hide Unspent;
    var n := |ops| - 1;
    var fewer, last := ops[..n], ops[n];
    assert ops == fewer + [last];
    UnspentSnoc(fewer, last, budget);
    if k < n {
      UnspentRemove(fewer, k, budget);
      UnspentSnoc(fewer[..k] + fewer[k + 1..], last, budget);
      assert ops[..k] + ops[k + 1..] == (fewer[..k] + fewer[k + 1..]) + [last];
    } else {
      assert ops[..k] + ops[k + 1..] == fewer;
    }
  }

  lemma {:induction false} UnspentBounds(ops: seq<Op>, budget: nat)
    requires forall k | 0 <= k < |ops| :: |ops[k].blocks| <= budget
    ensures 0 <= Unspent(ops, budget) <= |ops| * budget
    ensures forall k | 0 <= k < |ops| :: budget - |ops[k].blocks| <= Unspent(ops, budget)
  {
    if ops != [] {
      var n := |ops| - 1;
      UnspentBounds(ops[..n], budget);
      assert forall k | 0 <= k < n :: ops[..n][k] == ops[k];
      assert |ops| * budget == n * budget + budget;
    }
  }

  /** Each call's logged blocks are in the transaction and within its budget. */
  ghost predicate OpsOk(s: Sys, budget: nat) {
    forall k | 0 <= k < |s.ops| :: OpOk(s.ops[k], s.lh, budget)
  }

  ghost predicate OpOk(op: Op, lh: seq<nat>, budget: nat) {
    |op.blocks| <= budget && forall b | b in op.blocks :: b in lh
  }

  /** The transaction plus everything still reserved fits in `room` blocks. */
  ghost predicate Reserved(s: Sys, budget: nat, room: nat) {
    OpsOk(s, budget) && (s.phase.Serving? ==> |s.lh| + Unspent(s.ops, budget) <= room)
  }

  ghost predicate RunWithin(g: Geometry, s: Sys, es: seq<Event>, budget: nat)
    requires Run(g, s, es)
    decreases |es|
  {
    es != [] ==> Within(s, es[0], budget) && RunWithin(g, Step(g, s, es[0]), es[1..], budget)
  }

  lemma {:induction false} LogWriteReserved(g: Geometry, s: Sys, e: Event, budget: nat, room: nat)
    requires Sized(g, s) && e.LogWrite? && Requested(g, s, e) && !Panics(g, s, e) && Within(s, e, budget)
    requires Reserved(s, budget, room)
    ensures Reserved(Step(g, s, e), budget, room)
  {
    var old' := s.ops[e.k].blocks;
    var new' := old' + {e.block};
    UnspentUpdate(s.ops, e.k, s.ops[e.k].(blocks := new'), budget);
    if e.block !in s.lh {
      assert e.block !in old';
      assert |new'| == |old'| + 1;
    } else {
      assert old' <= new';
      assert |old'| <= |new'| by { SubsetSize(old', new'); }
    }
  }

  lemma {:induction false} SubsetSize(a: set<nat>, b: set<nat>)
    requires a <= b
    ensures |a| <= |b|
  {
    assert b == a + (b - a);
  }

  lemma {:induction false} BeginReserved(g: Geometry, s: Sys, e: Event, budget: nat, room: nat)
    requires Sized(g, s) && e.Begin? && Requested(g, s, e) && budget <= MAXOPBLOCKS
    requires s.ops == [] ==> s.lh == []
    requires budget <= room && LOGSIZE - 2 * (MAXOPBLOCKS - budget) <= room
    requires OpsOk(s, budget)
    ensures Reserved(Step(g, s, e), budget, room)
  {
    UnspentSnoc(s.ops, Op(e.id, {}), budget);
    UnspentBounds(s.ops, budget);
    ReservationArithmetic(|s.lh|, |s.ops| + 1, budget, room);
  }

  lemma {:induction false} ReservationArithmetic(n: nat, m: nat, budget: nat, room: nat)
    requires n + m * MAXOPBLOCKS <= LOGSIZE && budget <= MAXOPBLOCKS && 1 <= m
    requires budget <= room && LOGSIZE - 2 * (MAXOPBLOCKS - budget) <= room
    ensures m >= 2 ==> n + m * budget <= room
    ensures m * budget == (m - 1) * budget + budget
  {
    if m == 2 {
      assert m * budget == 2 * budget;
    } else if m == 3 {
      assert m * budget == 3 * budget;
    }
  }

  lemma {:induction false} EndReserved(g: Geometry, s: Sys, e: Event, budget: nat, room: nat)
    requires Sized(g, s) && e.End? && Requested(g, s, e) && !Panics(g, s, e) && Reserved(s, budget, room)
    requires s.phase.Serving?
    ensures Reserved(Step(g, s, e), budget, room)
  {
    UnspentRemove(s.ops, e.k, budget);
    var r := s.ops[..e.k] + s.ops[e.k + 1..];
    forall k | 0 <= k < |r| ensures OpOk(r[k], s.lh, budget) {
      assert r[k] == if k < e.k then s.ops[k] else s.ops[k + 1];
    }
  }

  lemma {:induction false} StepReserved(g: Geometry, init: Contents, s: Sys, e: Event, budget: nat, room: nat)
    requires Inv(g, init, s) && Requested(g, s, e) && !Panics(g, s, e) && Within(s, e, budget)
    requires budget <= MAXOPBLOCKS && budget <= room && LOGSIZE - 2 * (MAXOPBLOCKS - budget) <= room
    requires Reserved(s, budget, room)
    ensures Reserved(Step(g, s, e), budget, room)
  {
    match e
    case Begin(_) => BeginReserved(g, s, e, budget, room);
    case LogWrite(_, _, _) => LogWriteReserved(g, s, e, budget, room);
    case End(_) => EndReserved(g, s, e, budget, room);
    case _ =>
  }

  lemma {:induction false} RunReserved(g: Geometry, init: Contents, s: Sys, es: seq<Event>, budget: nat, room: nat)
    requires Inv(g, init, s) && Run(g, s, es) && RunWithin(g, s, es, budget)
    requires budget <= MAXOPBLOCKS && budget <= room && LOGSIZE - 2 * (MAXOPBLOCKS - budget) <= room
    requires Reserved(s, budget, room)
    ensures Reserved(After(g, s, es), budget, room)
    decreases |es|
  {
    if es != [] {
      StepInv(g, init, s, es[0]);
      StepReserved(g, init, s, es[0], budget, room);
      RunReserved(g, init, Step(g, s, es[0]), es[1..], budget, room);
    }
  }

  /**
  Group commit, for every interleaving in which each call logs at most MAXOPBLOCKS distinct blocks:
  a commit runs with no call outstanding, so that nothing can begin, log or end during it and end_op's
  panic is unreachable; logged block numbers are distinct; and the logged blocks plus all unspent
  reservations never exceed LOGSIZE.
  */
  lemma {:induction false} GroupCommitSafety(g: Geometry, init: Contents, s: Sys, es: seq<Event>, e: Event)
    requires Boot(g, init, s) && Run(g, s, es) && RunWithin(g, s, es, MAXOPBLOCKS)
    ensures var r := After(g, s, es);
            && (!r.phase.Serving? ==> |r.ops| == 0 && MustWait(r))
            && (!r.phase.Serving? && Requested(g, r, e) ==> !e.Begin? && !e.LogWrite? && !e.End?)
            && (Requested(g, r, e) && Panics(g, r, e) ==> e.LogWrite?)
            && Distinct(r.lh)
            && (r.phase.Serving? ==> |r.lh| + Unspent(r.ops, MAXOPBLOCKS) <= LOGSIZE)
  {
    BootInv(g, init, s);
    RunInv(g, init, s, es);
    RunReserved(g, init, s, es, MAXOPBLOCKS, LOGSIZE);
  }

  // ---------- When "too big a transaction" is reachable ----------

  /** The largest transaction that calls of this budget can build up. */
  function Peak(budget: nat): (n: nat)
    ensures budget == MAXOPBLOCKS ==> n == LOGSIZE
  {
    MAXOPBLOCKS + 2 * budget
  }

  predicate Fits(g: Geometry, budget: nat) {
    Peak(budget) < LOGSIZE && Peak(budget) < g.size - 1
  }

  /** From s, calls that keep to the budget can run into the panic. */
  ghost predicate CanPanic(g: Geometry, s: Sys, budget: nat) {
    exists es, e :: PanicRun(g, s, budget, es, e)
  }

  ghost predicate PanicRun(g: Geometry, s: Sys, budget: nat, es: seq<Event>, e: Event) {
    && Run(g, s, es) && RunWithin(g, s, es, budget)
    && var r := After(g, s, es); Requested(g, r, e) && Within(r, e, budget) && Panics(g, r, e)
  }

  lemma {:induction false} NoPanic(g: Geometry, init: Contents, s: Sys, budget: nat)
    requires Boot(g, init, s) && 1 <= budget <= MAXOPBLOCKS && Fits(g, budget)
    ensures !CanPanic(g, s, budget)
  {
    forall es: seq<Event>, e: Event | Run(g, s, es) && RunWithin(g, s, es, budget) && Requested(g, After(g, s, es), e)
      ensures !Panics(g, After(g, s, es), e)
    {
      var r := After(g, s, es);
      BootInv(g, init, s);
      RunInv(g, init, s, es);
      RunReserved(g, init, s, es, budget, Peak(budget));
      UnspentBounds(r.ops, budget);
    }
  }

  lemma {:induction false} PanicLater(g: Geometry, s: Sys, budget: nat, e: Event)
    requires Sized(g, s) && Requested(g, s, e) && !Panics(g, s, e) && Within(s, e, budget)
    requires CanPanic(g, Step(g, s, e), budget)
    ensures CanPanic(g, s, budget)
  {
    var es, f :| PanicRun(g, Step(g, s, e), budget, es, f);
    var es' := [e] + es;
    assert es'[1..] == es;
    assert PanicRun(g, s, budget, es', f);
  }

  lemma {:induction false} PanicNow(g: Geometry, s: Sys, budget: nat, e: Event)
    requires Requested(g, s, e) && Within(s, e, budget) && Panics(g, s, e)
    ensures CanPanic(g, s, budget)
  {
    assert PanicRun(g, s, budget, [], e);
  }

  /** A block no call has logged yet: the ones used so far are the first |lh| after the log area. */
  ghost predicate Fresh(g: Geometry, s: Sys) {
    forall i | 0 <= i < |s.lh| :: s.lh[i] < g.start + g.size + |s.lh|
  }

  /** Enough home blocks behind the log area for the longest run below. */
  predicate Roomy(g: Geometry, budget: nat) {
    g.start + g.size + Peak(budget) < g.nblocks
  }

  /** Two running calls with exactly enough budget left to reach the peak. */
  ghost predicate Climbing(g: Geometry, s: Sys, budget: nat) {
    && Fresh(g, s) && OpsOk(s, budget) && s.phase.Serving? && |s.ops| == 2
    && |s.lh| + (budget - |s.ops[0].blocks|) + (budget - |s.ops[1].blocks|) == Peak(budget)
  }

  lemma {:induction false} ClimbOne(g: Geometry, s: Sys, budget: nat, k: nat) returns (e: Event)
    requires Sized(g, s) && Climbing(g, s, budget) && k < 2 && |s.ops[k].blocks| < budget
    requires Roomy(g, budget) && !TooBig(g, s)
    ensures Requested(g, s, e) && !Panics(g, s, e) && Within(s, e, budget)
    ensures Climbing(g, Step(g, s, e), budget) && |Step(g, s, e).lh| == |s.lh| + 1
  {
    var b := g.start + g.size + |s.lh|;
    e := LogWrite(k, b, ZeroBlock());
    var old' := s.ops[k].blocks;
    assert OpOk(s.ops[k], s.lh, budget) && OpOk(s.ops[1 - k], s.lh, budget);
    assert b !in s.lh && |old' + {b}| == |old'| + 1;
    var r := Step(g, s, e);
    assert r.ops[1 - k] == s.ops[1 - k] && OpOk(r.ops[k], r.lh, budget) && OpOk(r.ops[1 - k], r.lh, budget);
  }

  /** Two calls that fill their budgets one after the other end in the panic. */
  lemma {:induction false} TwoCalls(g: Geometry, init: Contents, s: Sys, budget: nat)
    requires Inv(g, init, s) && Roomy(g, budget) && Climbing(g, s, budget)
    requires 1 <= budget <= MAXOPBLOCKS && !Fits(g, budget)
    ensures CanPanic(g, s, budget)
    decreases Peak(budget) - |s.lh|
  {
    var k := if |s.ops[1].blocks| < budget then 1 else 0;
    if TooBig(g, s) {
      assert OpOk(s.ops[k], s.lh, budget);
      var b := if s.ops[k].blocks == {} then g.start + g.size else Some(s.ops[k].blocks);
      assert s.ops[k].blocks + {b} == if s.ops[k].blocks == {} then {b} else s.ops[k].blocks;
      PanicNow(g, s, budget, LogWrite(k, b, ZeroBlock()));
    } else {
      var e := ClimbOne(g, s, budget, k);
      StepInv(g, init, s, e);
      TwoCalls(g, init, Step(g, s, e), budget);
      PanicLater(g, s, budget, e);
    }
  }

  ghost function Some(s: set<nat>): (x: nat)
    requires s != {}
    ensures x in s
  {
    var x :| x in s; x
  }

  /** While one call stays open, short calls that log one block each bring the transaction to ten blocks. */
  lemma {:induction false} ShortCalls(g: Geometry, init: Contents, s: Sys, budget: nat, next: nat)
    requires Inv(g, init, s) && Roomy(g, budget) && Fresh(g, s)
    requires 1 <= budget <= MAXOPBLOCKS && !Fits(g, budget)
    requires s.phase.Serving? && |s.ops| == 1 && s.ops[0].blocks == {} && |s.lh| <= MAXOPBLOCKS
    requires forall id | id in s.started :: id < next
    ensures CanPanic(g, s, budget)
    decreases MAXOPBLOCKS - |s.lh|
  {
    hide Agree, TooBig, PhaseInv, Sized;
    var begin := Begin(next);
    var s1 := Step(g, s, begin);
    StepInv(g, init, s, begin);
    if |s.lh| == MAXOPBLOCKS {
      TwoCalls(g, init, s1, budget);
    } else {
      var b := g.start + g.size + |s.lh|;
      var write := LogWrite(1, b, ZeroBlock());
      assert b !in s1.lh && s1.ops[1].blocks + {b} == {b};
      if TooBig(g, s1) {
        PanicNow(g, s1, budget, write);
      } else {
        var s2 := Step(g, s1, write);
        StepInv(g, init, s1, write);
        var s3 := Step(g, s2, End(1));
        StepInv(g, init, s2, End(1));
        assert s3.ops == [s.ops[0]];
        ShortCalls(g, init, s3, budget, next + 1);
        PanicLater(g, s2, budget, End(1));
        PanicLater(g, s1, budget, write);
      }
    }
    PanicLater(g, s, budget, begin);
  }

  /**
  The exact condition for panic-freedom.  Calls that log at most `budget` distinct blocks each can
  never reach "too big a transaction" if and only if 10 + 2 * budget stays below both LOGSIZE and
  log.size - 1.
  */
  lemma {:induction false} PanicFreeIff(g: Geometry, init: Contents, s: Sys, budget: nat)
    requires Boot(g, init, s) && 1 <= budget <= MAXOPBLOCKS && Roomy(g, budget)
    ensures !CanPanic(g, s, budget) <==> Fits(g, budget)
  {
    if Fits(g, budget) {
      NoPanic(g, init, s, budget);
    } else {
      var begin := Begin(0);
      BootInv(g, init, s);
      StepInv(g, init, s, begin);
      ShortCalls(g, init, Step(g, s, begin), budget, 1);
      PanicLater(g, s, budget, begin);
    }
  }

  /** With the log that mkfs lays out (log.size == LOGSIZE), nine blocks per call are safe and ten are not. */
  lemma {:induction false} MkfsLogBudget(g: Geometry, init: Contents, s: Sys, budget: nat)
    requires Boot(g, init, s) && 1 <= budget <= MAXOPBLOCKS && Roomy(g, budget) && g.size == LOGSIZE
    ensures CanPanic(g, s, budget) <==> budget == MAXOPBLOCKS
  {
    PanicFreeIff(g, init, s, budget);
  }
}
