/**
The three-class scheduler of proc.c and the timer accounting of trap.c, on one CPU.  Time is counted
in timer ticks.  A class is charged one tick of its budget whenever a tick finds one of its processes
running; the scheduler serves the classes in order while they have budget, and refills all budgets
when none that has budget has work.
*/
module Sched {
  import opened Options
  import opened Params

  const SLICE: nat := 5
  const STARVATION_BOUNDRY: nat := 800
  /** sizeof(ptable.proc): 64 slots of 256 bytes, the bound round_robin counts to. */
  const RR_BOUND: nat := 16384

  datatype Queue = RR | SJF | FCFS

  datatype State = UNUSED | SLEEPING | RUNNABLE | RUNNING | ZOMBIE

  datatype Proc = Proc(state: State, queue: Queue, used: int, burst: int, entered: nat, lastRun: nat, confidence: int)

  datatype Budget = Budget(rr: int, sjf: int, fcfs: int)

  function Weight(q: Queue): (w: int) { match q case RR => 30 case SJF => 20 case FCFS => 10 }

  function Of(b: Budget, q: Queue): (n: int) { match q case RR => b.rr case SJF => b.sjf case FCFS => b.fcfs }

  function Full(): (b: Budget) { Budget(30, 20, 10) }

  /** update_remain_times, for n = -1. */
  function Add(b: Budget, q: Queue, n: int): (r: Budget)
    ensures forall k: Queue :: Of(r, k) == if k == q then Of(b, k) + n else Of(b, k)
  {
    match q case RR => b.(rr := b.rr + n) case SJF => b.(sjf := b.sjf + n) case FCFS => b.(fcfs := b.fcfs + n)
  }

  /** `spent` counts the ticks charged to each class since the last refill. */
  datatype Cpu = Cpu(p: seq<Proc>, budget: Budget, cur: Option<nat>, ticks: nat, last: nat, spent: Budget)

  // ---------- Selection ----------

  predicate Ready(p: seq<Proc>, i: nat, q: Queue) { i < |p| && p[i].state == RUNNABLE && p[i].queue == q }

  predicate AnyReady(p: seq<Proc>, q: Queue) { exists i: nat | i < |p| :: Ready(p, i, q) }

  /** Steps from slot `last` to slot i, going round the table. */
  function Distance(last: nat, i: nat): (d: int) { if i >= last then i - last else i - last + NPROC }

  /** The first ready RR slot at or after `last`. */
  ghost predicate IsRoundRobin(p: seq<Proc>, last: nat, i: nat) {
    Ready(p, i, RR) && forall j: nat | Ready(p, j, RR) :: Distance(last, i) <= Distance(last, j)
  }

  lemma {:induction false} ReadyIff(p: seq<Proc>, q: Queue)
    requires |p| == NPROC
    ensures forall j: nat | j < NPROC :: p[j].state == RUNNABLE && p[j].queue == q <==> Ready(p, j, q)
    ensures AnyReady(p, q) <==> exists j: nat | j < NPROC :: p[j].state == RUNNABLE && p[j].queue == q
  {
    if j: nat :| j < NPROC && p[j].state == RUNNABLE && p[j].queue == q {
      assert Ready(p, j, q);
    }
  }

  method RoundRobin(p: seq<Proc>, last: nat) returns (r: Option<nat>)
    requires |p| == NPROC && last < NPROC
    ensures r.None? ==> !AnyReady(p, RR)
    ensures r.Some? ==> IsRoundRobin(p, last, r.value)
    ensures r.None? ==> forall j: nat | j < NPROC :: !(p[j].state == RUNNABLE && p[j].queue == RR)
    ensures r.Some? ==> r.value < NPROC && p[r.value].state == RUNNABLE && p[r.value].queue == RR
    ensures r.Some? ==> forall j: nat |
                            j < NPROC && (if last <= r.value then last <= j < r.value else last <= j || j < r.value) ::
                          !(p[j].state == RUNNABLE && p[j].queue == RR)
  {
    ReadyIff(p, RR);
    var i, count := last, 0;
    while count < RR_BOUND
      invariant 0 <= count <= RR_BOUND && 0 <= i <= NPROC
      invariant count < NPROC ==> (if i >= last then i - last else i - last + NPROC) == count
      invariant forall j: nat | j < NPROC && Distance(last, j) < count :: !Ready(p, j, RR)
    {
      if i >= NPROC {
        i := 0;
      }
      if p[i].state == RUNNABLE && p[i].queue == RR {
        return Some(i);
      }
      i, count := i + 1, count + 1;
    }
    return None;
  }

  /** A slot shortest_job_first may prefer: sure enough of its burst time, or the first one looked at. */
  ghost predicate Eligible(p: seq<Proc>, i: nat, rnd: int) {
    Ready(p, i, SJF) && (p[i].confidence > rnd || forall j: nat | j < i :: !Ready(p, j, SJF))
  }

  /** The eligible slot of least burst time, the earliest of several. */
  ghost predicate IsShortest(p: seq<Proc>, i: nat, rnd: int) {
    Eligible(p, i, rnd)
        && forall j: nat | Eligible(p, j, rnd) :: p[i].burst < p[j].burst || (p[i].burst == p[j].burst && i <= j)
  }

  method ShortestJobFirst(p: seq<Proc>, ticks: nat) returns (r: Option<nat>)
    requires |p| == NPROC
    ensures r.None? ==> !AnyReady(p, SJF)
    ensures r.Some? ==> IsShortest(p, r.value, ticks % 100)
    ensures r.None? ==> forall j: nat | j < NPROC :: !(p[j].state == RUNNABLE && p[j].queue == SJF)
    ensures r.Some? ==> r.value < NPROC && p[r.value].state == RUNNABLE && p[r.value].queue == SJF
    ensures r.Some? ==> forall j: nat | j < NPROC && p[j].state == RUNNABLE && p[j].queue == SJF
                                          && p[j].confidence > ticks % 100 ::
                          p[r.value].burst < p[j].burst || (p[r.value].burst == p[j].burst && r.value <= j)
    ensures r.Some? ==> forall j: nat | j < NPROC && p[j].state == RUNNABLE && p[j].queue == SJF
                                          && (forall k: nat | k < j ::
                                                !(p[k].state == RUNNABLE && p[k].queue == SJF)) ::
                          j == r.value || p[r.value].burst < p[j].burst
    ensures r.Some? && p[r.value].confidence <= ticks % 100 ==>
              forall j: nat | j < r.value :: !(p[j].state == RUNNABLE && p[j].queue == SJF)
  {
    ReadyIff(p, SJF);
    r := None;
    var i := 0;
    while i < NPROC
      invariant i <= NPROC
      invariant r.None? ==> forall j: nat | j < i :: !Ready(p, j, SJF)
      invariant r.Some? ==>
                  && r.value < i && Eligible(p, r.value, ticks % 100)
                  && forall j: nat | j < i && Eligible(p, j, ticks % 100) ::
                       p[r.value].burst < p[j].burst || (p[r.value].burst == p[j].burst && r.value <= j)
    {
      if p[i].state == RUNNABLE && p[i].queue == SJF {
        if r.None? {
          r := Some(i);
        }
        if p[i].burst < p[r.value].burst {
          if p[i].confidence > ticks % 100 {
            r := Some(i);
          }
        }
      }
      i := i + 1;
    }
  }

  /** The ready FCFS slot that entered first, the earliest slot of several. */
  ghost predicate IsFirstCome(p: seq<Proc>, i: nat) {
    Ready(p, i, FCFS)
        && forall j: nat | Ready(p, j, FCFS) :: p[i].entered < p[j].entered || (p[i].entered == p[j].entered && i <= j)
  }

  method FirstComeFirstService(p: seq<Proc>) returns (r: Option<nat>)
    requires |p| == NPROC
    ensures r.None? ==> !AnyReady(p, FCFS)
    ensures r.Some? ==> IsFirstCome(p, r.value)
    ensures r.None? ==> forall j: nat | j < NPROC :: !(p[j].state == RUNNABLE && p[j].queue == FCFS)
    ensures r.Some? ==> r.value < NPROC && p[r.value].state == RUNNABLE && p[r.value].queue == FCFS
    ensures r.Some? ==> forall j: nat | j < NPROC && p[j].state == RUNNABLE && p[j].queue == FCFS ::
                          p[r.value].entered < p[j].entered || (p[r.value].entered == p[j].entered && r.value <= j)
  {
    ReadyIff(p, FCFS);
    r := None;
    var i := 0;
    while i < NPROC
      invariant i <= NPROC
      invariant r.None? ==> forall j: nat | j < i :: !Ready(p, j, FCFS)
      invariant r.Some? ==>
                  && r.value < i && Ready(p, r.value, FCFS)
                  && forall j: nat | j < i && Ready(p, j, FCFS) ::
                       p[r.value].entered < p[j].entered || (p[r.value].entered == p[j].entered && r.value <= j)
    {
      if p[i].state == RUNNABLE && p[i].queue == FCFS {
        if r.None? {
          r := Some(i);
        }
        if p[i].entered < p[r.value].entered {
          r := Some(i);
        }
      }
      i := i + 1;
    }
  }

  // ---------- The invariant ----------

  ghost predicate ProcOk(c: Cpu, i: nat)
    requires i < |c.p|
  {
    && 0 <= c.p[i].used <= SLICE && c.p[i].lastRun <= c.ticks && c.p[i].entered <= c.ticks
    && (c.p[i].state == RUNNING <==> c.cur == Some(i))
  }

  /** A class is never more than a slice in debt, and what it was charged since the refill is on record. */
  ghost predicate BudgetOk(c: Cpu, q: Queue) {
    && -(SLICE as int) <= Of(c.budget, q) <= Weight(q)
    && Of(c.spent, q) + Of(c.budget, q) == Weight(q)
  }

  ghost predicate Inv(c: Cpu) {
    && |c.p| == NPROC && c.last < NPROC
    && (forall i: nat | i < NPROC :: ProcOk(c, i))
    && (forall q: Queue :: BudgetOk(c, q))
    && (c.cur.Some? ==> c.cur.value < NPROC && Of(c.budget, c.p[c.cur.value].queue) + c.p[c.cur.value].used >= 1)
  }

  /** The CPU when scheduling starts: full budgets, and userinit's process in slot 0. */
  function BootState(): (c: Cpu)
    ensures Inv(c)
  {
    var free := Proc(UNUSED, RR, 0, 0, 0, 0, 0);
    var init := Proc(RUNNABLE, RR, 0, 2, 0, 0, 50);
    Cpu(seq(NPROC, i => if i == 0 then init else free), Full(), None, 0, NPROC - 1, Budget(0, 0, 0))
  }

  // ---------- Events ----------

  datatype Event =
    | Tick
    | Pass(next: Option<nat>)
    | Block(zombie: bool)
    | Wake(i: nat)
    | Create(i: nat)
    | Reap(i: nat)
    | ChangeQueue(i: nat, q: Queue)
    | SetBurst(i: nat, burst: int, confidence: int)

  /** Whether a scheduler pass picks process i. */
  ghost predicate Picks(c: Cpu, i: nat) {
    || (c.budget.rr > 0 && IsRoundRobin(c.p, c.last, i))
    || (!(c.budget.rr > 0 && AnyReady(c.p, RR)) && c.budget.sjf > 0 && IsShortest(c.p, i, c.ticks % 100))
    || (!(c.budget.rr > 0 && AnyReady(c.p, RR)) && !(c.budget.sjf > 0 && AnyReady(c.p, SJF)) && c.budget.fcfs > 0
        && IsFirstCome(c.p, i))
  }

  /** No class with budget has anything to run. */
  ghost predicate NothingToPick(c: Cpu) { forall q: Queue | Of(c.budget, q) > 0 :: !AnyReady(c.p, q) }

  ghost predicate Enabled(c: Cpu, e: Event) {
    match e
    case Tick => true
    case Pass(next) => c.cur.None? && (if next.Some? then Picks(c, next.value) else NothingToPick(c))
    case Block(_) => c.cur.Some?
    case Wake(i) => i < |c.p| && c.p[i].state == SLEEPING
    case Create(i) => i < |c.p| && c.p[i].state == UNUSED
    case Reap(i) => i < |c.p| && c.p[i].state == ZOMBIE
    case ChangeQueue(i, _) => i < |c.p| && c.p[i].state != RUNNING
    case SetBurst(i, _, _) => i < |c.p|
  }

  /** aging's decision for one process, at time now. */
  function Aged(x: Proc, now: nat): (y: Proc) {
    if x.state == RUNNABLE && x.queue != RR
       && now > x.lastRun + STARVATION_BOUNDRY && now > x.entered + STARVATION_BOUNDRY then
      x.(queue := if x.queue == SJF then RR else SJF, entered := now)
    else x
  }

  function AgedAll(p: seq<Proc>, now: nat): (r: seq<Proc>)
    ensures |r| == |p|
  {
    seq(|p|, i requires 0 <= i < |p| => Aged(p[i], now))
  }

  /** The timer interrupt: the clock, aging, then the charge to whoever is running. */
  function Ticked(c: Cpu): (r: Cpu)
    requires c.cur.Some? ==> c.cur.value < |c.p|
  {
    var now := c.ticks + 1;
    var p := AgedAll(c.p, now);
    if c.cur.None? then c.(p := p, ticks := now)
    else
      var i := c.cur.value;
      var c1 := c.(budget := Add(c.budget, p[i].queue, -1), spent := Add(c.spent, p[i].queue, 1), ticks := now);
      if p[i].used >= SLICE then c1.(p := p[i := p[i].(used := 0, state := RUNNABLE)], cur := None)
      else c1.(p := p[i := p[i].(used := p[i].used + 1, lastRun := p[i].lastRun + 1)])
  }

  ghost function Next(c: Cpu, e: Event): (r: Cpu)
    requires Inv(c) && Enabled(c, e)
  {
    match e
    case Tick => Ticked(c)
    case Pass(next) =>
      if next.Some? then
        c.(p := c.p[next.value := c.p[next.value].(state := RUNNING)], cur := next,
           last := if c.p[next.value].queue == RR then next.value else c.last)
      else c.(budget := Full(), spent := Budget(0, 0, 0))
    case Block(zombie) => c.(p := c.p[c.cur.value := c.p[c.cur.value].(state := if zombie then ZOMBIE else SLEEPING)],
                             cur := None)
    case Wake(i) => c.(p := c.p[i := c.p[i].(state := RUNNABLE)])
    case Create(i) => c.(p := c.p[i := Proc(RUNNABLE, FCFS, 0, 2, c.ticks, 0, 50)])
    case Reap(i) => c.(p := c.p[i := c.p[i].(state := UNUSED)])
    case ChangeQueue(i, q) => c.(p := c.p[i := c.p[i].(queue := q, entered := c.ticks)])
    case SetBurst(i, burst, confidence) => c.(p := c.p[i := c.p[i].(burst := burst, confidence := confidence)])
  }

  // ---------- Budgets over every run ----------

  lemma {:induction false} TickInv(c: Cpu)
    requires Inv(c)
    ensures Inv(Ticked(c))
  {
    var r := Ticked(c);
    forall i: nat | i < NPROC ensures ProcOk(r, i) {
      assert ProcOk(c, i);
    }
    if c.cur.Some? {
      var i := c.cur.value;
      assert ProcOk(c, i);
      assert AgedAll(c.p, c.ticks + 1)[i] == c.p[i];
    }
    forall q: Queue ensures BudgetOk(r, q) {
      assert BudgetOk(c, q);
    }
  }

  lemma {:induction false} StepInv(c: Cpu, e: Event)
    requires Inv(c) && Enabled(c, e)
    ensures Inv(Next(c, e))
  {
    var r := Next(c, e);
    if e.Tick? {
      TickInv(c);
    } else {
      forall i: nat | i < NPROC ensures ProcOk(r, i) {
        assert ProcOk(c, i);
      }
      forall q: Queue ensures BudgetOk(r, q) {
        assert BudgetOk(c, q);
      }
      if c.cur.Some? {
        assert ProcOk(c, c.cur.value);
      }
      if e.Pass? && e.next.Some? {
        assert ProcOk(c, e.next.value);
      }
    }
  }

  ghost predicate Run(c: Cpu, es: seq<Event>)
    requires Inv(c)
    decreases |es|
  {
    es == [] || (Enabled(c, es[0]) && (StepInv(c, es[0]); Run(Next(c, es[0]), es[1..])))
  }

  ghost function After(c: Cpu, es: seq<Event>): (r: Cpu)
    requires Inv(c) && Run(c, es)
    ensures Inv(r)
    decreases |es|
  {
    if es == [] then c else StepInv(c, es[0]); After(Next(c, es[0]), es[1..])
  }

  /** Over every run from boot: no class is ever charged more than its weight plus one slice between refills. */
  lemma {:induction false} BudgetsHold(es: seq<Event>, q: Queue, i: nat)
    requires Run(BootState(), es) && i < NPROC
    ensures var r := After(BootState(), es);
            && 0 <= Of(r.spent, q) <= Weight(q) + SLICE && -(SLICE as int) <= Of(r.budget, q)
            && 0 <= r.p[i].used <= SLICE && r.p[i].lastRun <= r.ticks
  {
    var r := After(BootState(), es);
    assert BudgetOk(r, q) && ProcOk(r, i);
  }

  // ---------- A dispatch after at most one refill ----------

  /** Of the first n slots, one that is ready and nearest after `last`. */
  lemma {:induction false} SomeRoundRobin(p: seq<Proc>, last: nat, n: nat) returns (i: nat)
    requires exists j: nat | j < n :: Ready(p, j, RR)
    ensures Ready(p, i, RR) && forall j: nat | j < n && Ready(p, j, RR) :: Distance(last, i) <= Distance(last, j)
  {
    if exists j: nat | j < n - 1 :: Ready(p, j, RR) {
      i := SomeRoundRobin(p, last, n - 1);
      if Ready(p, n - 1, RR) && Distance(last, n - 1) < Distance(last, i) {
        i := n - 1;
      }
    } else {
      i := n - 1;
    }
  }

  /** Of the first n slots, the eligible one that shortest_job_first prefers. */
  lemma {:induction false} SomeShortest(p: seq<Proc>, rnd: int, n: nat) returns (i: nat)
    requires exists j: nat | j < n :: Ready(p, j, SJF)
    ensures i < n && Eligible(p, i, rnd)
    ensures forall j: nat | j < n && Eligible(p, j, rnd) ::
              p[i].burst < p[j].burst || (p[i].burst == p[j].burst && i <= j)
  {
    if exists j: nat | j < n - 1 :: Ready(p, j, SJF) {
      i := SomeShortest(p, rnd, n - 1);
      if Eligible(p, n - 1, rnd) && p[n - 1].burst < p[i].burst {
        i := n - 1;
      }
    } else {
      i := n - 1;
    }
  }

  /** Of the first n slots, the ready one that entered first. */
  lemma {:induction false} SomeFirstCome(p: seq<Proc>, n: nat) returns (i: nat)
    requires exists j: nat | j < n :: Ready(p, j, FCFS)
    ensures i < n && Ready(p, i, FCFS)
    ensures forall j: nat | j < n && Ready(p, j, FCFS) ::
              p[i].entered < p[j].entered || (p[i].entered == p[j].entered && i <= j)
  {
    if exists j: nat | j < n - 1 :: Ready(p, j, FCFS) {
      i := SomeFirstCome(p, n - 1);
      if Ready(p, n - 1, FCFS) && p[n - 1].entered < p[i].entered {
        i := n - 1;
      }
    } else {
      i := n - 1;
    }
  }

  lemma {:induction false} PickHasWork(c: Cpu, j: nat)
    requires Picks(c, j)
    ensures !NothingToPick(c)
  {
    var q := if c.p[j].queue == RR then RR else if c.p[j].queue == SJF then SJF else FCFS;
    assert Of(c.budget, q) > 0 && Ready(c.p, j, q) && AnyReady(c.p, q);
  }

  /** Every pass does one thing: it dispatches, or refills exactly when no class with budget has work. */
  lemma {:induction false} PassDispatchesOrRefills(c: Cpu)
    requires Inv(c) && c.cur.None?
    ensures Enabled(c, Pass(None)) <==> !exists j: nat :: Enabled(c, Pass(Some(j)))
  {
    if j: nat :| Enabled(c, Pass(Some(j))) {
      PickHasWork(c, j);
    } else if !NothingToPick(c) {
      var q: Queue :| Of(c.budget, q) > 0 && AnyReady(c.p, q);
      var j;
      if c.budget.rr > 0 && AnyReady(c.p, RR) {
        j := SomeRoundRobin(c.p, c.last, NPROC);
      } else if c.budget.sjf > 0 && AnyReady(c.p, SJF) {
        j := SomeShortest(c.p, c.ticks % 100, NPROC);
      } else {
        j := SomeFirstCome(c.p, NPROC);
      }
      assert Enabled(c, Pass(Some(j)));
    }
  }

  ghost predicate NoDispatch(es: seq<Event>) { forall e | e in es :: !(e.Pass? && e.next.Some?) }

  /** Until something is dispatched nobody runs, so nobody is charged. */
  lemma {:induction false} UnspentUntilDispatch(c: Cpu, es: seq<Event>)
    requires Inv(c) && c.cur.None? && c.budget == Full() && Run(c, es) && NoDispatch(es)
    ensures After(c, es).cur.None? && After(c, es).budget == Full()
    decreases |es|
  {
    if es != [] {
      assert es[0] in es;
      StepInv(c, es[0]);
      UnspentUntilDispatch(Next(c, es[0]), es[1..]);
    }
  }

  ghost function Refilled(c: Cpu): (r: Cpu)
    requires Inv(c) && Enabled(c, Pass(None))
    ensures Inv(r) && r.cur.None? && r.budget == Full()
  {
    StepInv(c, Pass(None));
    Next(c, Pass(None))
  }

  /**
  After a refill, and whatever happens short of a dispatch, as soon as anything is ready the next pass
  dispatches: in every run from boot, for every class.
  */
  lemma {:induction false} OneRefillSuffices(before: seq<Event>, es: seq<Event>, q: Queue)
    requires Run(BootState(), before) && Enabled(After(BootState(), before), Pass(None))
    requires var c := Refilled(After(BootState(), before));
             Run(c, es) && NoDispatch(es) && AnyReady(After(c, es).p, q)
    ensures var r := After(Refilled(After(BootState(), before)), es);
            !Enabled(r, Pass(None)) && exists j: nat :: Enabled(r, Pass(Some(j)))
  {
    var c := Refilled(After(BootState(), before));
    UnspentUntilDispatch(c, es);
    var r := After(c, es);
    assert Of(r.budget, q) > 0;
    PassDispatchesOrRefills(r);
  }

  // ---------- Aging ----------

  function Rank(q: Queue): (n: nat) { match q case RR => 0 case SJF => 1 case FCFS => 2 }

  /** aging never demotes, and moves at most one class up. */
  lemma {:induction false} AgingPromotes(x: Proc, now: nat)
    ensures Rank(Aged(x, now).queue) <= Rank(x.queue) <= Rank(Aged(x, now).queue) + 1
    ensures Aged(x, now) == x.(queue := Aged(x, now).queue, entered := Aged(x, now).entered)
  {
  }

  /**
  A step changes the class of a process only if it is created, moved from outside, or found by a tick
  runnable, below RR, and more than the boundary past both its entry and its last run; such a tick
  always moves it, one class up.
  */
  lemma {:induction false} ClassChange(c: Cpu, e: Event, i: nat)
    requires Inv(c) && Enabled(c, e) && i < NPROC && !(e.Create? && e.i == i) && !(e.ChangeQueue? && e.i == i)
    ensures var x, r := c.p[i], Next(c, e);
            && r.p[i].queue == (if r.p[i].queue == x.queue then x.queue else if x.queue == FCFS then SJF else RR)
            && (r.p[i].queue != x.queue <==>
                  && e.Tick? && x.state == RUNNABLE && x.queue != RR
                  && c.ticks + 1 - x.lastRun > STARVATION_BOUNDRY && c.ticks + 1 - x.entered > STARVATION_BOUNDRY)
            && r.p[i].entered == (if r.p[i].queue == x.queue then x.entered else c.ticks + 1)
            && r.p[i].lastRun >= x.lastRun && r.ticks == c.ticks + (if e.Tick? then 1 else 0)
  {
    assert ProcOk(c, i);
  }

  /** No event of the run creates process i or moves it from outside. */
  ghost predicate Untouched(es: seq<Event>, i: nat) {
    forall e | e in es :: !(e.Create? && e.i == i) && !(e.ChangeQueue? && e.i == i)
  }

  /** Before it is starved a process keeps its class, whatever else happens. */
  lemma {:induction false} KeepsClass(c: Cpu, es: seq<Event>, i: nat)
    requires Inv(c) && Run(c, es) && i < NPROC && Untouched(es, i)
    requires c.ticks + Ticks(es) - c.p[i].entered <= STARVATION_BOUNDRY
             || c.ticks + Ticks(es) - c.p[i].lastRun <= STARVATION_BOUNDRY
    ensures After(c, es).p[i].queue == c.p[i].queue && After(c, es).p[i].entered == c.p[i].entered
    decreases |es|
  {
    hide Inv, Enabled, Next;
    if es != [] {
      assert es[0] in es;
      StepInv(c, es[0]);
      ClassChange(c, es[0], i);
      KeepsClass(Next(c, es[0]), es[1..], i);
    }
  }

  ghost function Stepped(c: Cpu, e: Event): (r: Cpu)
    requires Inv(c) && Enabled(c, e)
    ensures Inv(r)
  {
    StepInv(c, e);
    Next(c, e)
  }

  /**
  In every run from boot: the class a process is created in, or moved to, is its class for at least the
  boundary's number of ticks, whether it runs, waits or sleeps.
  */
  lemma {:induction false} NoEarlyPromotion(before: seq<Event>, e: Event, es: seq<Event>, i: nat)
    requires Run(BootState(), before) && i < NPROC
    requires var c := After(BootState(), before);
             && Enabled(c, e) && (e == Create(i) || (e.ChangeQueue? && e.i == i))
             && Run(Stepped(c, e), es) && Untouched(es, i) && Ticks(es) <= STARVATION_BOUNDRY
    ensures After(Stepped(After(BootState(), before), e), es).p[i].queue == if e.Create? then FCFS else e.q
  {
    hide Run, After, BootState, Untouched;
    KeepsClass(Stepped(After(BootState(), before), e), es, i);
  }

  /** How many ticks a process that stays runnable needs at most to be moved up one class. */
  ghost function Patience(x: Proc, now: nat): (n: int) {
    var m := if x.lastRun > x.entered then x.lastRun else x.entered;
    if m + STARVATION_BOUNDRY + 1 - now > 1 then m + STARVATION_BOUNDRY + 1 - now else 1
  }

  /** How many ticks it needs at most to be in RR. */
  ghost function Deadline(x: Proc, now: nat): (n: int)
    ensures n >= 0
  {
    match x.queue
    case RR => 0
    case SJF => Patience(x, now)
    case FCFS => Patience(x, now) + STARVATION_BOUNDRY + 1
  }

  /** A tick brings a waiting process one tick closer. */
  lemma {:induction false} TickCloser(x: Proc, now: nat)
    requires x.state == RUNNABLE && x.lastRun <= now && x.entered <= now
    ensures var d := Deadline(Aged(x, now + 1), now + 1); d == 0 || d <= Deadline(x, now) - 1
  {
  }

  /** Process i waits all through the run: runnable in every state, and no change of class or bursts from outside. */
  ghost predicate Waits(c: Cpu, es: seq<Event>, i: nat)
    requires Inv(c) && Run(c, es) && i < NPROC
    decreases |es|
  {
    && c.p[i].state == RUNNABLE
    && (es == [] || (
          && !(es[0].ChangeQueue? && es[0].i == i)
          && (StepInv(c, es[0]); Waits(Next(c, es[0]), es[1..], i))))
  }

  ghost function Ticks(es: seq<Event>): (n: nat) {
    if es == [] then 0 else (if es[0].Tick? then 1 else 0) + Ticks(es[1..])
  }

  lemma {:induction false} WaitingCloser(c: Cpu, es: seq<Event>, i: nat)
    requires Inv(c) && Run(c, es) && i < NPROC && Waits(c, es, i)
    ensures var r := After(c, es);
            var d := Deadline(r.p[i], r.ticks); d == 0 || d <= Deadline(c.p[i], c.ticks) - Ticks(es)
    decreases |es|
  {
    if es != [] {
      StepInv(c, es[0]);
      var c1 := Next(c, es[0]);
      WaitingCloser(c1, es[1..], i);
      assert ProcOk(c, i);
      OneStepCloser(c, es[0], i);
      if c1.p[i].queue == RR {
        StaysInRR(c1, es[1..], i);
      }
    }
  }

  lemma {:induction false} OneStepCloser(c: Cpu, e: Event, i: nat)
    requires Inv(c) && Enabled(c, e) && i < NPROC && c.p[i].state == RUNNABLE && Next(c, e).p[i].state == RUNNABLE
    requires !(e.ChangeQueue? && e.i == i)
    ensures var r := Next(c, e);
            var d := Deadline(r.p[i], r.ticks); d == 0 || d <= Deadline(c.p[i], c.ticks) - (if e.Tick? then 1 else 0)
    ensures c.p[i].queue == RR ==> Next(c, e).p[i].queue == RR
  {
    assert ProcOk(c, i);
    if e.Tick? {
      TickCloser(c.p[i], c.ticks);
      assert c.cur != Some(i);
    }
  }

  lemma {:induction false} StaysInRR(c: Cpu, es: seq<Event>, i: nat)
    requires Inv(c) && Run(c, es) && i < NPROC && Waits(c, es, i) && c.p[i].queue == RR
    ensures After(c, es).p[i].queue == RR
    decreases |es|
  {
    if es != [] {
      StepInv(c, es[0]);
      OneStepCloser(c, es[0], i);
      StaysInRR(Next(c, es[0]), es[1..], i);
    }
  }

  /** In every run from boot, a process that waits for 2 * 801 ticks is in RR, whatever else happens. */
  lemma {:induction false} AgingBound(before: seq<Event>, es: seq<Event>, i: nat)
    requires Run(BootState(), before) && i < NPROC
    requires var c := After(BootState(), before); Run(c, es) && Waits(c, es, i)
    requires Ticks(es) >= 2 * (STARVATION_BOUNDRY + 1)
    ensures After(After(BootState(), before), es).p[i].queue == RR
  {
    var c := After(BootState(), before);
    WaitingCloser(c, es, i);
    assert ProcOk(c, i);
  }

  // ---------- The CPU in memory ----------

  class Processor {
    var p: seq<Proc>
    var budget: Budget
    var cur: Option<nat>
    var ticks: nat
    var last: nat
    ghost var spent: Budget

    ghost function C(): (c: Cpu)
      reads this
    {
      Cpu(p, budget, cur, ticks, last, spent)
    }

    ghost predicate Valid()
      reads this
    {
      Inv(C())
    }

    /** Boot: mpinit fills the budgets and userinit makes the first process. */
    constructor ()
      ensures C() == BootState() && Valid()
    {
      p := seq(NPROC, i => if i == 0 then Proc(RUNNABLE, RR, 0, 2, 0, 0, 50) else Proc(UNUSED, RR, 0, 0, 0, 0, 0));
      budget := Budget(3 * 100 / 10, 2 * 100 / 10, 1 * 100 / 10);
      cur, ticks, last, spent := None, 0, NPROC - 1, Budget(0, 0, 0);
    }

    /** One round of scheduler's loop: dispatch a process, or refill the budgets. */
    method SchedulerPass() returns (next: Option<nat>)
      requires Valid() && cur.None?
      modifies this`p, this`budget, this`cur, this`last, this`spent
      ensures Enabled(old(C()), Pass(next)) && C() == Next(old(C()), Pass(next)) && Valid()
      ensures next.Some? ==>
                && next.value < NPROC && old(p)[next.value].state == RUNNABLE && cur == next && budget == old(budget)
                && p == old(p)[next.value := old(p)[next.value].(state := RUNNING)]
                && last == (if old(p)[next.value].queue == RR then next.value else old(last))
                && (match old(p)[next.value].queue case RR => budget.rr > 0 case SJF => budget.sjf > 0
                    case FCFS => budget.fcfs > 0)
      ensures next.Some? && budget.rr > 0 && old(p)[next.value].queue != RR ==>
                forall j: nat | j < NPROC :: !(old(p)[j].state == RUNNABLE && old(p)[j].queue == RR)
      ensures next.Some? && budget.sjf > 0 && old(p)[next.value].queue == FCFS ==>
                forall j: nat | j < NPROC :: !(old(p)[j].state == RUNNABLE && old(p)[j].queue == SJF)
      ensures next.None? ==> p == old(p) && cur.None? && last == old(last) && budget == Budget(30, 20, 10)
      ensures next.None? ==> forall j: nat | j < NPROC && p[j].state == RUNNABLE ::
                               (match p[j].queue case RR => old(budget).rr <= 0 case SJF => old(budget).sjf <= 0
                                case FCFS => old(budget).fcfs <= 0)
    {
      hide AnyReady, Ticked;
      ghost var c := C();
      next := None;
      if budget.rr > 0 {
        next := RoundRobin(p, last);
        if next.Some? {
          StepInv(c, Pass(next));
          last := next.value;
          p := p[next.value := p[next.value].(state := RUNNING)];
          cur := next;
          return;
        }
      }
      if budget.sjf > 0 {
        next := ShortestJobFirst(p, ticks);
        if next.Some? {
          StepInv(c, Pass(next));
          p := p[next.value := p[next.value].(state := RUNNING)];
          cur := next;
          return;
        }
      }
      if budget.fcfs > 0 {
        next := FirstComeFirstService(p);
        if next.Some? {
          StepInv(c, Pass(next));
          p := p[next.value := p[next.value].(state := RUNNING)];
          cur := next;
          return;
        }
      }
      StepInv(c, Pass(next));
      budget := Budget(3 * 100 / 10, 2 * 100 / 10, 1 * 100 / 10);
      spent := Budget(0, 0, 0);
    }

    /** aging, as one atomic step; change_queue sets the class and the time of entry. */
    method Aging()
      requires |p| == NPROC
      modifies this`p
      ensures p == AgedAll(old(p), ticks) && |p| == NPROC
      ensures forall j | 0 <= j < NPROC ::
                && (p[j] != old(p)[j] ==>
                      && old(p)[j].state == RUNNABLE
                      && ticks - old(p)[j].lastRun > STARVATION_BOUNDRY
                         && ticks - old(p)[j].entered > STARVATION_BOUNDRY
                      && ((old(p)[j].queue == SJF && p[j] == old(p)[j].(queue := RR, entered := ticks))
                          || (old(p)[j].queue == FCFS && p[j] == old(p)[j].(queue := SJF, entered := ticks))))
                && (old(p)[j].state == RUNNABLE && old(p)[j].queue != RR
                    && ticks - old(p)[j].lastRun > STARVATION_BOUNDRY
                       && ticks - old(p)[j].entered > STARVATION_BOUNDRY ==>
                      p[j] != old(p)[j])
    {
      var i := 0;
      while i < NPROC
        invariant 0 <= i <= NPROC && |p| == NPROC
        invariant forall j | 0 <= j < NPROC :: p[j] == if j < i then Aged(old(p)[j], ticks) else old(p)[j]
      {
        if p[i].state == RUNNABLE && p[i].queue != RR {
          if ticks - p[i].lastRun > STARVATION_BOUNDRY && ticks - p[i].entered > STARVATION_BOUNDRY {
            if p[i].queue == SJF {
              p := p[i := p[i].(queue := RR, entered := ticks)];
            } else {
              p := p[i := p[i].(queue := SJF, entered := ticks)];
            }
          }
        }
        i := i + 1;
      }
    }

    /** The timer interrupt on the one CPU. */
    method TimerTick()
      requires Valid()
      modifies this`p, this`budget, this`cur, this`ticks, this`spent
      ensures C() == Next(old(C()), Tick) && Valid() && ticks == old(ticks) + 1
      ensures old(cur).None? ==> cur.None? && budget == old(budget) && spent == old(spent)
      ensures old(cur).Some? ==>
                var x := old(p)[old(cur).value];
                && budget == Budget(old(budget).rr - (if x.queue == RR then 1 else 0),
                                    old(budget).sjf - (if x.queue == SJF then 1 else 0),
                                    old(budget).fcfs - (if x.queue == FCFS then 1 else 0))
                && (x.used == 5 ==> cur.None? && p[old(cur).value] == x.(used := 0, state := RUNNABLE))
                && (x.used < 5 ==>
                      cur == old(cur) && p[old(cur).value] == x.(used := x.used + 1, lastRun := x.lastRun + 1))
    {
      TickInv(C());
      ticks := ticks + 1;
      Aging();
      if cur.Some? {
        var i := cur.value;
        assert ProcOk(old(C()), i);
        budget, spent := Add(budget, p[i].queue, -1), Add(spent, p[i].queue, 1);
        if p[i].used >= 50 / 10 {
          p := p[i := p[i].(used := 0, state := RUNNABLE)];
          cur := None;
        } else {
          p := p[i := p[i].(used := p[i].used + 1, lastRun := p[i].lastRun + 1)];
        }
      }
    }
  }
}
