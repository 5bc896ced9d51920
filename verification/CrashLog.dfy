/**
The redo log of log.c as a state machine over single disk writes.

A run is any sequence of events: system calls beginning, logging blocks and ending in any
interleaving, the block writes of commit, crashes at any point (also during recovery), and
the block writes of recovery.  The fields `batches` and `current` record what the run wrote,
so that the theorems can say what must survive.
*/
module CrashLog {
  import opened Blocks
  import opened Params

  type Contents = seq<Block>

  /**
  A disk: the block list in the header block log.start, the blocks log.start+1.. of the log area,
  and the blocks outside the log area, by block number.
  */
  datatype Disk = Disk(head: seq<nat>, log: Contents, home: Contents)

  /** log.start, log.size and the number of blocks of the device. */
  datatype Geometry = Geometry(start: nat, size: nat, nblocks: nat)

  predicate ValidGeometry(g: Geometry) {
    2 <= g.size && g.start + g.size <= g.nblocks <= 0x1_0000_0000
  }

  /** A block outside the log area. */
  predicate Home(g: Geometry, b: nat) {
    b < g.nblocks && !(g.start <= b < g.start + g.size)
  }

  // ---------- Recovery, as one function of the disk ----------

  predicate Distinct(s: seq<nat>) {
    forall i, j | 0 <= i < j < |s| :: s[i] != s[j]
  }

  /** The block list of a transaction that fits the log area. */
  predicate GoodList(g: Geometry, lh: seq<nat>) {
    && |lh| <= LOGSIZE && |lh| <= g.size - 1
    && (forall i | 0 <= i < |lh| :: Home(g, lh[i]))
    && Distinct(lh)
  }

  predicate GoodDisk(g: Geometry, d: Disk) {
    ValidGeometry(g) && |d.log| == g.size - 1 && |d.home| == g.nblocks && GoodList(g, d.head)
  }

  /** The first k rounds of install_trans. */
  function Install(d: Disk, k: nat): (e: Contents)
    requires k <= |d.head| <= |d.log| && Distinct(d.head)
    requires forall i | 0 <= i < |d.head| :: d.head[i] < |d.home|
    ensures |e| == |d.home|
    ensures forall b | 0 <= b < |e| && b !in d.head[..k] :: e[b] == d.home[b]
    ensures forall t | 0 <= t < k :: e[d.head[t]] == d.log[t]
  {
    if k == 0 then d.home
    else
      assert d.head[..k] == d.head[..k - 1] + [d.head[k - 1]];
      Install(d, k - 1)[d.head[k - 1] := d.log[k - 1]]
  }

  /** recover_from_log run to completion on disk d. */
  function Recover(g: Geometry, d: Disk): (e: Disk)
    requires GoodDisk(g, d)
  {
    d.(head := [], home := Install(d, |d.head|))
  }

  // ---------- The machine ----------

  /** An FS system call between begin_op and end_op, with the distinct blocks it has logged. */
  datatype Op = Op(id: nat, blocks: set<nat>)

  datatype Write = Write(op: nat, block: nat, data: Block)

  /** Where the kernel is: serving calls, in commit's write_log or install_trans, or in recovery. */
  datatype Phase = Serving | WritingLog(tail: nat) | Installing(tail: nat) | Recovering(tail: nat)

  /**
  disk survives a crash.  view is what bread returns for each block.  lh is log.lh, and
  |ops| is log.outstanding; log.committing is set exactly in WritingLog and Installing.
  started, batches and current are history: the ids handed out, the transactions whose header
  has been written, and the writes logged since the last commit or crash.
  */
  datatype Sys = Sys(disk: Disk, view: Contents, lh: seq<nat>, ops: seq<Op>, phase: Phase,
                     started: set<nat>, batches: seq<seq<Write>>, current: seq<Write>)

  datatype Event =
    | Begin(id: nat)
    | LogWrite(k: nat, block: nat, data: Block)
    | End(k: nat)
    | CommitIO
    | Crash
    | RecoverIO

  /** begin_op's test for going to sleep instead of starting. */
  predicate MustWait(s: Sys) {
    !s.phase.Serving? || |s.lh| + (|s.ops| + 1) * MAXOPBLOCKS > LOGSIZE
  }

  /** log_write's "too big a transaction" test, which runs before absorption. */
  predicate TooBig(g: Geometry, s: Sys) {
    |s.lh| >= LOGSIZE || |s.lh| >= g.size - 1
  }

  /** log.committing. */
  predicate Committing(s: Sys) { s.phase.WritingLog? || s.phase.Installing? }

  /**
  The event is one a correct caller can ask for, whether or not the log then panics: a call logs and
  ends while it runs.
  */
  predicate Requested(g: Geometry, s: Sys, e: Event) {
    match e
    case Begin(id) => !MustWait(s) && id !in s.started
    case LogWrite(k, b, _) => k < |s.ops| && Home(g, b)
    case End(k) => k < |s.ops|
    case CommitIO => Committing(s)
    case Crash => true
    case RecoverIO => s.phase.Recovering?
  }

  /** log_write's "too big a transaction" and end_op's "log.committing". */
  predicate Panics(g: Geometry, s: Sys, e: Event) {
    (e.LogWrite? && TooBig(g, s)) || (e.End? && Committing(s))
  }

  function Absorb(lh: seq<nat>, b: nat): (r: seq<nat>)
  {
    if b in lh then lh else lh + [b]
  }

  /** What a state must have for the step function to be defined on it. */
  predicate Sized(g: Geometry, s: Sys) {
    && ValidGeometry(g) && |s.view| == g.nblocks
    && GoodList(g, s.lh) && GoodDisk(g, s.disk)
    && (!s.phase.Serving? ==> s.phase.tail <= |s.lh|)
  }

  function Step(g: Geometry, s: Sys, e: Event): (r: Sys)
    requires Sized(g, s) && Requested(g, s, e) && !Panics(g, s, e)
  {
    match e
    case Begin(id) =>
      s.(ops := s.ops + [Op(id, {})], started := s.started + {id})
    case LogWrite(k, b, data) =>
      s.(view := s.view[b := data], lh := Absorb(s.lh, b),
         ops := s.ops[k := s.ops[k].(blocks := s.ops[k].blocks + {b})],
         current := s.current + [Write(s.ops[k].id, b, data)])
    case End(k) =>
      var ops := s.ops[..k] + s.ops[k + 1..];
      s.(ops := ops, phase := if ops == [] && s.lh != [] then WritingLog(0) else Serving)
    case CommitIO =>
      if s.phase.WritingLog? then
        if s.phase.tail < |s.lh| then LogBlock(g, s) else CommitPoint(g, s)
      else
        if s.phase.tail < |s.lh| then InstallBlock(g, s, Installing(s.phase.tail + 1)) else Erase(g, s)
    case Crash =>
      s.(view := s.disk.home, lh := s.disk.head, ops := [], phase := Recovering(0), current := [])
    case RecoverIO =>
      if s.phase.tail < |s.lh| then InstallBlock(g, s, Recovering(s.phase.tail + 1)) else Erase(g, s)
  }

  /** One round of write_log. */
  function LogBlock(g: Geometry, s: Sys): (r: Sys)
    requires Sized(g, s) && s.phase.WritingLog? && s.phase.tail < |s.lh|
  {
    var t := s.phase.tail;
    var d := s.view[s.lh[t]];
    s.(disk := s.disk.(log := s.disk.log[t := d]), phase := WritingLog(t + 1))
  }

  /** write_head with n > 0: the transaction commits when this one block write lands. */
  function CommitPoint(g: Geometry, s: Sys): (r: Sys)
    requires Sized(g, s)
  {
    s.(disk := s.disk.(head := s.lh), phase := Installing(0),
       batches := s.batches + [s.current], current := [])
  }

  /** One round of install_trans. */
  function InstallBlock(g: Geometry, s: Sys, next: Phase): (r: Sys)
    requires Sized(g, s) && !s.phase.Serving? && s.phase.tail < |s.lh|
  {
    var t := s.phase.tail;
    var d := s.disk.log[t];
    s.(disk := s.disk.(home := s.disk.home[s.lh[t] := d]), view := s.view[s.lh[t] := d], phase := next)
  }

  /** write_head with n == 0, ending a commit or a recovery. */
  function Erase(g: Geometry, s: Sys): (r: Sys)
    requires Sized(g, s)
  {
    s.(disk := s.disk.(head := []), lh := [], phase := Serving)
  }

  // ---------- What a run wrote ----------

  function ApplyWrites(d: Contents, ws: seq<Write>): (e: Contents)
    ensures |e| == |d|
  {
    if ws == [] then d
    else
      var e := ApplyWrites(d, ws[..|ws| - 1]);
      var w := ws[|ws| - 1];
      if w.block < |e| then e[w.block := w.data] else e
  }

  function ApplyBatches(d: Contents, bs: seq<seq<Write>>): (e: Contents)
    ensures |e| == |d|
  {
    if bs == [] then d else ApplyWrites(ApplyBatches(d, bs[..|bs| - 1]), bs[|bs| - 1])
  }

  lemma {:induction false} ApplySnoc(d: Contents, ws: seq<Write>, w: Write)
    requires w.block < |d|
    ensures ApplyWrites(d, ws + [w]) == ApplyWrites(d, ws)[w.block := w.data]
  {
    assert (ws + [w])[..|ws|] == ws;
  }

  lemma {:induction false} BatchSnoc(d: Contents, bs: seq<seq<Write>>, ws: seq<Write>)
    ensures ApplyBatches(d, bs + [ws]) == ApplyWrites(ApplyBatches(d, bs), ws)
  {
    assert (bs + [ws])[..|bs|] == bs;
  }

  // ---------- The invariant ----------

  /** The cache holds the last commit plus the pending writes, which touch only logged blocks. */
  ghost predicate Agree(s: Sys, base: Contents)
    requires |s.view| == |base|
  {
    && s.view == ApplyWrites(base, s.current)
    && forall b | 0 <= b < |base| && b !in s.lh :: s.view[b] == base[b]
  }

  /** The first k log blocks hold the contents that want has for their home blocks. */
  ghost predicate Logged(s: Sys, want: Contents, k: nat)
    requires k <= |s.lh| <= |s.disk.log| && forall i | 0 <= i < |s.lh| :: s.lh[i] < |want|
  {
    forall i | 0 <= i < k :: s.disk.log[i] == want[s.lh[i]]
  }

  /** All home blocks are as in want, except that those from s.lh[t] on may not be installed yet. */
  ghost predicate Installed(s: Sys, want: Contents, t: nat)
    requires t <= |s.lh| && |s.disk.home| == |want|
  {
    forall b | 0 <= b < |want| && b !in s.lh[t..] :: s.disk.home[b] == want[b]
  }

  ghost predicate Inv(g: Geometry, init: Contents, s: Sys) {
    && Sized(g, s) && |init| == g.nblocks
    && (s.phase.Serving? && s.ops == [] ==> s.lh == [])
    && (!s.phase.Serving? ==> s.ops == [])
    && var base := ApplyBatches(init, s.batches);
       if s.phase.Recovering? then s.view == s.disk.home && PhaseInv(g, s, base)
       else Agree(s, base) && PhaseInv(g, s, base)
  }

  ghost predicate PhaseInv(g: Geometry, s: Sys, base: Contents)
    requires Sized(g, s) && |base| == g.nblocks
  {
    match s.phase
    case Serving =>
      s.disk.head == [] && s.disk.home == base
    case WritingLog(t) =>
      s.disk.head == [] && s.disk.home == base && Logged(s, s.view, t)
    case Installing(t) =>
      && s.disk.head == s.lh && s.current == []
      && Logged(s, base, |s.lh|) && Installed(s, base, t)
    case Recovering(t) =>
      && s.disk.head == s.lh && s.current == []
      && Logged(s, base, |s.lh|) && Installed(s, base, t)
  }

  // ---------- Every step keeps the invariant ----------

  /** The state mkfs leaves behind: nothing committed in the log, nothing in memory. */
  ghost predicate Boot(g: Geometry, init: Contents, s: Sys) {
    && ValidGeometry(g) && |init| == g.nblocks
    && s.disk.head == [] && s.disk.home == init && |s.disk.log| == g.size - 1
    && s == Sys(s.disk, init, [], [], Serving, {}, [], [])
  }

  lemma {:induction false} BootInv(g: Geometry, init: Contents, s: Sys)
    requires Boot(g, init, s)
    ensures Inv(g, init, s)
  {
  }

  lemma {:induction false} LogWriteInv(g: Geometry, init: Contents, s: Sys, e: Event)
    requires Inv(g, init, s) && e.LogWrite? && Requested(g, s, e) && !Panics(g, s, e)
    ensures Inv(g, init, Step(g, s, e))
  {
    var r := Step(g, s, e);
    var base := ApplyBatches(init, s.batches);
    ApplySnoc(base, s.current, Write(s.ops[e.k].id, e.block, e.data));
  }

  lemma {:induction false} LogBlockInv(g: Geometry, init: Contents, s: Sys)
    requires Inv(g, init, s) && s.phase.WritingLog? && s.phase.tail < |s.lh|
    ensures Inv(g, init, LogBlock(g, s))
  {
  }

  lemma {:induction false} CommitPointInv(g: Geometry, init: Contents, s: Sys)
    requires Inv(g, init, s) && s.phase == WritingLog(|s.lh|)
    ensures Inv(g, init, CommitPoint(g, s))
  {
    BatchSnoc(init, s.batches, s.current);
  }

  lemma {:induction false} InstallBlockInv(g: Geometry, init: Contents, s: Sys, next: Phase)
    requires Inv(g, init, s) && (s.phase.Installing? || s.phase.Recovering?) && s.phase.tail < |s.lh|
    requires next == s.phase.(tail := s.phase.tail + 1)
    ensures Inv(g, init, InstallBlock(g, s, next))
  {
    hide ApplyBatches, Installed;
    InstalledMore(s, InstallBlock(g, s, next), ApplyBatches(init, s.batches), s.phase.tail);
  }

  lemma {:induction false} InstalledMore(s: Sys, r: Sys, want: Contents, t: nat)
    requires t < |s.lh| <= |s.disk.log| && |s.disk.home| == |want| && (forall i | 0 <= i < |s.lh| :: s.lh[i] < |want|)
    requires Installed(s, want, t) && s.disk.log[t] == want[s.lh[t]]
    requires r.lh == s.lh && r.disk.home == s.disk.home[s.lh[t] := s.disk.log[t]]
    ensures Installed(r, want, t + 1)
  {
    assert s.lh[t..] == [s.lh[t]] + s.lh[t + 1..];
  }

  lemma {:induction false} EraseInv(g: Geometry, init: Contents, s: Sys)
    requires Inv(g, init, s) && (s.phase.Installing? || s.phase.Recovering?) && s.phase.tail == |s.lh|
    ensures Inv(g, init, Erase(g, s))
  {
  }

  lemma {:induction false} CrashInv(g: Geometry, init: Contents, s: Sys)
    requires Inv(g, init, s)
    ensures Inv(g, init, Step(g, s, Crash))
  {
    var base := ApplyBatches(init, s.batches);
    var r := Step(g, s, Crash);
    if s.phase.Installing? || s.phase.Recovering? {
      assert r.lh == s.lh;
    } else {
      assert r.lh == [];
    }
  }

  lemma {:induction false} StepInv(g: Geometry, init: Contents, s: Sys, e: Event)
    requires Inv(g, init, s) && Requested(g, s, e) && !Panics(g, s, e)
    ensures Inv(g, init, Step(g, s, e))
  {
    match e
    case Begin(_) =>
    case LogWrite(_, _, _) => LogWriteInv(g, init, s, e);
    case End(k) =>
    case Crash => CrashInv(g, init, s);
    case CommitIO =>
      if s.phase.tail < |s.lh| {
        if s.phase.WritingLog? { LogBlockInv(g, init, s); }
        else { InstallBlockInv(g, init, s, Installing(s.phase.tail + 1)); }
      } else if s.phase.WritingLog? { CommitPointInv(g, init, s); }
      else { EraseInv(g, init, s); }
    case RecoverIO =>
      if s.phase.tail < |s.lh| { InstallBlockInv(g, init, s, Recovering(s.phase.tail + 1)); }
      else { EraseInv(g, init, s); }
  }

  // ---------- Whole runs ----------

  ghost predicate Run(g: Geometry, s: Sys, es: seq<Event>)
    decreases |es|
  {
    es == [] ||
    (Sized(g, s) && Requested(g, s, es[0]) && !Panics(g, s, es[0]) && Run(g, Step(g, s, es[0]), es[1..]))
  }

  ghost function After(g: Geometry, s: Sys, es: seq<Event>): (r: Sys)
    requires Run(g, s, es)
    decreases |es|
  {
    if es == [] then s else After(g, Step(g, s, es[0]), es[1..])
  }

  lemma {:induction false} RunSnoc(g: Geometry, s: Sys, es: seq<Event>, e: Event)
    requires Run(g, s, es)
    requires var r := After(g, s, es); Sized(g, r) && Requested(g, r, e) && !Panics(g, r, e)
    ensures Run(g, s, es + [e]) && After(g, s, es + [e]) == Step(g, After(g, s, es), e)
    decreases |es|
  {
    var fs := es + [e];
    if es == [] {
      assert fs[1..] == [];
    } else {
      RunSnoc(g, Step(g, s, es[0]), es[1..], e);
      assert fs[1..] == es[1..] + [e];
    }
  }

  lemma {:induction false} RunInv(g: Geometry, init: Contents, s: Sys, es: seq<Event>)
    requires Inv(g, init, s) && Run(g, s, es)
    ensures Inv(g, init, After(g, s, es))
    decreases |es|
  {
    if es != [] {
      StepInv(g, init, s, es[0]);
      RunInv(g, init, Step(g, s, es[0]), es[1..]);
    }
  }

  /** Whatever the disk holds at this moment, recovery makes the home blocks the committed ones. */
  lemma {:induction false} RecoveredIsCommitted(g: Geometry, init: Contents, s: Sys)
    requires Inv(g, init, s)
    ensures Recover(g, s.disk).home == ApplyBatches(init, s.batches)
  {
    var base := ApplyBatches(init, s.batches);
    var d := s.disk;
    var e := Install(d, |d.head|);
    forall b | 0 <= b < |base| ensures e[b] == base[b] {
      if b in d.head[..|d.head|] {
        var t :| 0 <= t < |d.head| && d.head[t] == b;
        assert e[d.head[t]] == d.log[t];
      }
    }
  }

  /**
  Crash atomicity over whole runs: after any run, with crashes anywhere in it, recovering the disk
  gives the initial contents changed by exactly the transactions whose header write has landed.
  */
  lemma {:induction false} CrashAtomicity(g: Geometry, init: Contents, s: Sys, es: seq<Event>)
    requires Boot(g, init, s) && Run(g, s, es)
    ensures var r := After(g, s, es);
            && GoodDisk(g, r.disk)
            && Recover(g, r.disk).home == ApplyBatches(init, r.batches)
            && (r.phase.Serving? ==> r.disk.home == ApplyBatches(init, r.batches))
            && (!r.phase.Recovering? ==>
                  r.view == ApplyWrites(ApplyBatches(init, r.batches), r.current))
  {
    BootInv(g, init, s);
    RunInv(g, init, s, es);
    RecoveredIsCommitted(g, init, After(g, s, es));
  }

  /** With no call running and no commit under way, everything readers see is on the disk and survives a crash. */
  lemma {:induction false} QuietIsDurable(g: Geometry, init: Contents, s: Sys, es: seq<Event>)
    requires Boot(g, init, s) && Run(g, s, es) && After(g, s, es).phase.Serving? && After(g, s, es).ops == []
    ensures var r := After(g, s, es); GoodDisk(g, r.disk) && r.disk.home == r.view && Recover(g, r.disk).home == r.view
  {
    BootInv(g, init, s);
    RunInv(g, init, s, es);
    RecoveredIsCommitted(g, init, After(g, s, es));
  }

  /** Only the header write of a commit adds a transaction, and it adds all pending writes at once. */
  lemma {:induction false} CommitIsOneWrite(g: Geometry, init: Contents, s: Sys, e: Event)
    requires Inv(g, init, s) && Requested(g, s, e) && !Panics(g, s, e)
    ensures var r := Step(g, s, e);
            if e == CommitIO && s.phase == WritingLog(|s.lh|)
            then r.batches == s.batches + [s.current] && r.current == [] && s.ops == []
            else r.batches == s.batches
  {
  }

  /** n disk writes of a recovery, and of a commit. */
  function RecoverEvents(n: nat): (es: seq<Event>) { seq(n, _ => RecoverIO) }
  function CommitEvents(n: nat): (es: seq<Event>) { seq(n, _ => CommitIO) }

  /** The machine's recovery steps, run without a further crash, compute Recover. */
  lemma {:induction false} RecoveryCompletes(g: Geometry, init: Contents, s: Sys)
    requires Inv(g, init, s) && s.phase.Recovering?
    ensures var es := RecoverEvents(|s.lh| - s.phase.tail + 1);
            && Run(g, s, es)
            && After(g, s, es).phase.Serving?
            && After(g, s, es).batches == s.batches
            && After(g, s, es).disk.home == Recover(g, s.disk).home
    decreases |s.lh| - s.phase.tail
  {
    hide Recover;
    RecoveredIsCommitted(g, init, s);
    var es := RecoverEvents(|s.lh| - s.phase.tail + 1);
    var r := Step(g, s, RecoverIO);
    StepInv(g, init, s, RecoverIO);
    RecoveredIsCommitted(g, init, r);
    if s.phase.tail < |s.lh| {
      RecoveryCompletes(g, init, r);
      assert es[1..] == RecoverEvents(|r.lh| - r.phase.tail + 1);
    } else {
      assert es[1..] == [];
    }
  }

  // ---------- A system call's writes stay together ----------

  function Ids(ws: seq<Write>): (r: set<nat>) {
    set i | 0 <= i < |ws| :: ws[i].op
  }

  function OpIds(ops: seq<Op>): (r: set<nat>) {
    set k | 0 <= k < |ops| :: ops[k].id
  }

  ghost predicate IdInv(s: Sys) {
    && OpIds(s.ops) <= s.started && Ids(s.current) <= s.started
    && (forall i | 0 <= i < |s.batches| ::
          Ids(s.batches[i]) <= s.started - OpIds(s.ops) - Ids(s.current))
    && (forall i, j | 0 <= i < j < |s.batches| :: Ids(s.batches[i]) !! Ids(s.batches[j]))
  }

  lemma {:induction false} IdsSnoc(ws: seq<Write>, w: Write)
    ensures Ids(ws + [w]) == Ids(ws) + {w.op}
  {
    var vs := ws + [w];
    assert vs[|ws|] == w;
    assert forall i | 0 <= i < |ws| :: vs[i] == ws[i];
  }

  lemma {:induction false} OpIdsChange(g: Geometry, s: Sys, e: Event)
    requires Sized(g, s) && Requested(g, s, e) && !Panics(g, s, e)
    ensures OpIds(Step(g, s, e).ops) <= OpIds(s.ops) + (Step(g, s, e).started - s.started)
    ensures s.started <= Step(g, s, e).started
  {
    var ops := Step(g, s, e).ops;
    forall k | 0 <= k < |ops| ensures ops[k].id in OpIds(s.ops) || (e.Begin? && ops[k].id == e.id) {
      if e.End? {
        assert ops[k] == if k < e.k then s.ops[k] else s.ops[k + 1];
      } else if k < |s.ops| {
        assert ops[k].id == s.ops[k].id;
      }
    }
  }

  lemma {:induction false} StepIdInv(g: Geometry, init: Contents, s: Sys, e: Event)
    requires Inv(g, init, s) && IdInv(s) && Requested(g, s, e) && !Panics(g, s, e)
    ensures IdInv(Step(g, s, e))
  {
    OpIdsChange(g, s, e);
    var r := Step(g, s, e);
    if e.LogWrite? {
      var id := s.ops[e.k].id;
      assert id in OpIds(s.ops);
      IdsSnoc(s.current, Write(id, e.block, e.data));
    } else if e == CommitIO && s.phase == WritingLog(|s.lh|) {
      assert OpIds(s.ops) == {} && Ids(r.current) == {};
    }
  }

  lemma {:induction false} RunIdInv(g: Geometry, init: Contents, s: Sys, es: seq<Event>)
    requires Inv(g, init, s) && IdInv(s) && Run(g, s, es)
    ensures IdInv(After(g, s, es))
    decreases |es|
  {
    if es != [] {
      StepInv(g, init, s, es[0]);
      StepIdInv(g, init, s, es[0]);
      RunIdInv(g, init, Step(g, s, es[0]), es[1..]);
    }
  }

  /**
  No system call is split by a crash: in every run, a call with a write in one committed transaction
  has no write in another, none pending, and is no longer running.
  */
  lemma {:induction false} OneTransactionPerCall(g: Geometry, init: Contents, s: Sys, es: seq<Event>)
    requires Boot(g, init, s) && Run(g, s, es)
    ensures var r := After(g, s, es);
            && (forall i, j | 0 <= i < j < |r.batches| :: Ids(r.batches[i]) !! Ids(r.batches[j]))
            && (forall i | 0 <= i < |r.batches| ::
                  Ids(r.batches[i]) !! Ids(r.current) && Ids(r.batches[i]) !! OpIds(r.ops))
  {
    BootInv(g, init, s);
    RunIdInv(g, init, s, es);
  }
}
