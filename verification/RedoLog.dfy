/**
log.c over the buffer cache: begin_op, log_write, end_op, commit and recovery, with the block
copies going through bread, bwrite and brelse.  The commit and recovery methods are specified by
the exact list of disk writes they make; the lemmas at the end show that those writes are, one by
one, the CommitIO and RecoverIO steps of the machine in CrashLog, so that a crash between any two
of them is a crash of that machine.
*/
module RedoLog {
  import opened Blocks
  import opened Bio
  import opened CrashLog
  import opened Options
  import opened Params

  // ---------- The header block ----------

  predicate GoodHeader(b: Block) {
    Word(b, 0) <= LOGSIZE
  }

  /** The block numbers listed in a header block (struct logheader). */
  function Header(b: Block): (h: seq<nat>)
    requires GoodHeader(b)
  {
    seq(Word(b, 0), i requires 0 <= i < Word(b, 0) => Word(b, 1 + i))
  }

  /** write_head: store n and the first n entries, leaving the other words as they were. */
  function EncodeHeader(b: Block, lh: seq<nat>): (r: Block)
    requires |lh| <= LOGSIZE && forall i | 0 <= i < |lh| :: lh[i] < 0x1_0000_0000
  {
    SetEntries(SetWord(b, 0, |lh|), lh, |lh|)
  }

  function SetEntries(b: Block, lh: seq<nat>, k: nat): (r: Block)
    requires k <= |lh| <= LOGSIZE && forall i | 0 <= i < |lh| :: lh[i] < 0x1_0000_0000
    ensures Word(r, 0) == Word(b, 0)
    ensures forall i | 0 <= i < k :: Word(r, 1 + i) == lh[i]
    ensures forall j | k < j < NWORDS :: Word(r, j) == Word(b, j)
  {
    if k == 0 then b else SetWord(SetEntries(b, lh, k - 1), k, lh[k - 1])
  }

  /** read_head undoes write_head. */
  lemma {:induction false} HeaderRoundTrip(b: Block, lh: seq<nat>)
    requires |lh| <= LOGSIZE && forall i | 0 <= i < |lh| :: lh[i] < 0x1_0000_0000
    ensures GoodHeader(EncodeHeader(b, lh)) && Header(EncodeHeader(b, lh)) == lh
  {
    var r := EncodeHeader(b, lh);
    assert Word(r, 0) == |lh|;
    assert forall i | 0 <= i < |lh| :: Header(r)[i] == Word(r, 1 + i) == lh[i];
  }

  /** The header block, word by word: the count, the block numbers in order, and the rest as it was. */
  lemma {:induction false} HeaderLayout(b: Block, lh: seq<nat>)
    requires |lh| <= LOGSIZE && forall i | 0 <= i < |lh| :: lh[i] < 0x1_0000_0000
    ensures var r := EncodeHeader(b, lh);
            && Word(r, 0) == |lh| && (forall i | 0 <= i < |lh| :: Word(r, 1 + i) == lh[i])
            && (forall j | |lh| < j < NWORDS :: Word(r, j) == Word(b, j))
  {
    hide Word, SetWord;
  }

  /** The field stores of write_head. */
  method FillHeader(b: Block, lh: seq<nat>) returns (hb: Block)
    requires |lh| <= LOGSIZE && forall i | 0 <= i < |lh| :: lh[i] < 0x1_0000_0000
    ensures hb == EncodeHeader(b, lh)
    ensures GoodHeader(hb) && Header(hb) == lh
    ensures Word(hb, 0) == |lh| && (forall i | 0 <= i < |lh| :: Word(hb, 1 + i) == lh[i])
    ensures forall j | |lh| < j < NWORDS :: Word(hb, j) == Word(b, j)
  {
    hide SetWord;
    hb := SetWord(b, 0, |lh|);
    var i := 0;
    while i < |lh|
      invariant 0 <= i <= |lh|
      invariant hb == SetEntries(SetWord(b, 0, |lh|), lh, i)
    {
      hb := SetWord(hb, 1 + i, lh[i]);
      i := i + 1;
    }
    HeaderRoundTrip(b, lh);
    HeaderLayout(b, lh);
  }

  /** The loop of read_head. */
  method ParseHeader(b: Block) returns (lh: seq<nat>)
    requires GoodHeader(b)
    ensures lh == Header(b)
    ensures |lh| == Word(b, 0) && forall i | 0 <= i < |lh| :: lh[i] == Word(b, 1 + i)
  {
    lh := [];
    var i := 0;
    while i < Word(b, 0)
      invariant 0 <= i <= Word(b, 0) && lh == Header(b)[..i]
    {
      lh := lh + [Word(b, 1 + i)];
      i := i + 1;
    }
  }

  // ---------- The lists of disk writes ----------

  /** The cached contents of the logged blocks, in the order of the list. */
  function LoggedContents(lh: seq<nat>, last: seq<Block>): (r: seq<Block>)
    requires forall i | 0 <= i < |lh| :: lh[i] < |last|
    ensures |r| == |lh|
  {
    seq(|lh|, i requires 0 <= i < |lh| => last[lh[i]])
  }

  /** write_log: the t-th log block receives the t-th of the contents in `log`. */
  function LogWrites(start: nat, log: seq<Block>, k: nat): (w: seq<DiskWrite>)
    requires k <= |log|
    ensures |w| == k
  {
    seq(k, i requires 0 <= i < k => DiskWrite(start + 1 + i, log[i]))
  }

  /** install_trans: the t-th logged block receives the contents given for it in `log`. */
  function InstallWrites(lh: seq<nat>, log: seq<Block>, k: nat): (w: seq<DiskWrite>)
    requires k <= |lh| <= |log|
    ensures |w| == k
  {
    seq(k, i requires 0 <= i < k => DiskWrite(lh[i], log[i]))
  }

  /** All disk writes of commit, for a transaction whose blocks have contents `last` in the cache. */
  function CommitWrites(start: nat, lh: seq<nat>, last: seq<Block>): (w: seq<DiskWrite>)
    requires start < |last| && |lh| <= LOGSIZE
    requires forall i | 0 <= i < |lh| :: lh[i] < |last| && lh[i] < 0x1_0000_0000
    ensures |w| == if lh == [] then 0 else 2 * |lh| + 2
  {
    if lh == [] then []
    else
      var head := EncodeHeader(last[start], lh);
      var log := LoggedContents(lh, last);
      LogWrites(start, log, |lh|) + [DiskWrite(start, head)]
      + InstallWrites(lh, log, |lh|) + [DiskWrite(start, EncodeHeader(head, []))]
  }

  /**
  The order of a commit's disk writes: the logged contents into the log area one after the other, the
  header with the whole list, the same contents to their home blocks, and the header with an empty list.
  */
  lemma {:induction false} CommitOrder(start: nat, lh: seq<nat>, last: seq<Block>)
    requires start < |last| && 0 < |lh| <= LOGSIZE
    requires forall i | 0 <= i < |lh| :: lh[i] < |last| && lh[i] < 0x1_0000_0000
    ensures var w, n := CommitWrites(start, lh, last), |lh|;
            && |w| == 2 * n + 2
            && (forall k | 0 <= k < n :: w[k] == DiskWrite(start + 1 + k, last[lh[k]]))
            && w[n].block == start && Word(w[n].data, 0) == n
            && (forall i | 0 <= i < n :: Word(w[n].data, 1 + i) == lh[i])
            && (forall k | 0 <= k < n :: w[n + 1 + k] == DiskWrite(lh[k], last[lh[k]]))
            && w[2 * n + 1].block == start && Word(w[2 * n + 1].data, 0) == 0
            && (forall j | n < j < NWORDS :: Word(w[n].data, j) == Word(last[start], j))
            && (forall j | 0 < j < NWORDS :: Word(w[2 * n + 1].data, j) == Word(w[n].data, j))
  {
    hide Word, EncodeHeader;
    HeaderLayout(last[start], lh);
    HeaderLayout(EncodeHeader(last[start], lh), []);
  }

  /** The order of a recovery's disk writes: the log blocks to their home blocks, then the empty header. */
  lemma {:induction false} RecoverOrder(start: nat, size: nat, d: seq<Block>)
    requires start + size <= |d| && 1 <= size
    requires GoodHeader(d[start]) && |Header(d[start])| <= size - 1
    ensures var w, n := RecoverWrites(start, size, d), Word(d[start], 0);
            && |w| == n + 1 && n + 1 <= size
            && (forall k | 0 <= k < n :: w[k] == DiskWrite(Word(d[start], 1 + k), d[start + 1 + k]))
            && w[n].block == start && Word(w[n].data, 0) == 0
            && (forall j | 0 < j < NWORDS :: Word(w[n].data, j) == Word(d[start], j))
  {
    hide Word, EncodeHeader;
    HeaderLayout(d[start], []);
  }

  function LogBlocks(start: nat, size: nat, d: seq<Block>): (r: seq<Block>)
    requires start + size <= |d| && 1 <= size
    ensures |r| == size - 1
  {
    d[start + 1..start + size]
  }

  /** All disk writes of recover_from_log on a disk with contents d. */
  function RecoverWrites(start: nat, size: nat, d: seq<Block>): (w: seq<DiskWrite>)
    requires start + size <= |d| && 1 <= size
    requires GoodHeader(d[start]) && |Header(d[start])| <= size - 1
  {
    var lh := Header(d[start]);
    InstallWrites(lh, LogBlocks(start, size, d), |lh|) + [DiskWrite(start, EncodeHeader(d[start], []))]
  }

  /** The blocks of a disk after a list of block writes. */
  function Apply(d: seq<Block>, w: seq<DiskWrite>): (e: seq<Block>)
    ensures |e| == |d|
  {
    if w == [] then d
    else
      var e := Apply(d, w[..|w| - 1]);
      var x := w[|w| - 1];
      if x.block < |e| then e[x.block := x.data] else e
  }

  lemma {:induction false} ApplyOne(d: seq<Block>, w: seq<DiskWrite>, x: DiskWrite)
    requires x.block < |d|
    ensures Apply(d, w + [x]) == Apply(d, w)[x.block := x.data]
  {
    assert (w + [x])[..|w|] == w;
  }

  lemma {:induction false} ApplyAppend(d: seq<Block>, v: seq<DiskWrite>, w: seq<DiskWrite>)
    ensures Apply(d, v + w) == Apply(Apply(d, v), w)
    decreases |w|
  {
    if w == [] {
      assert v + w == v;
    } else {
      var n := |w| - 1;
      assert (v + w)[..|v + w| - 1] == v + w[..n];
      ApplyAppend(d, v, w[..n]);
    }
  }

  /** A block no write names keeps its contents. */
  lemma {:induction false} ApplyElsewhere(d: seq<Block>, w: seq<DiskWrite>, b: nat)
    requires b < |d| && forall i | 0 <= i < |w| :: w[i].block != b
    ensures Apply(d, w)[b] == d[b]
    decreases |w|
  {
    if w != [] {
      ApplyElsewhere(d, w[..|w| - 1], b);
    }
  }

  function Elements(s: seq<nat>): (r: set<nat>) {
    set x | x in s
  }

  lemma {:induction false} ElementsSize(s: seq<nat>)
    ensures |Elements(s)| <= |s|
  {
    if s != [] {
      var n := |s| - 1;
      ElementsSize(s[..n]);
      assert s == s[..n] + [s[n]];
      assert Elements(s) == Elements(s[..n]) + {s[n]};
    }
  }

  lemma {:induction false} LogBlockNotPinned(g: Geometry, lh: seq<nat>, b: nat)
    requires GoodList(g, lh) && g.start <= b < g.start + g.size
    ensures b !in Elements(lh)
  {
    forall i | 0 <= i < |lh| ensures lh[i] != b {
      assert Home(g, lh[i]);
    }
  }

  lemma {:induction false} LogRoundFacts(g: Geometry, lh: seq<nat>, t: nat)
    requires GoodList(g, lh) && ValidGeometry(g) && g.size <= LOGSIZE && t < |lh|
    ensures lh[t] in Elements(lh) && |Elements(lh)| < NBUF && Home(g, lh[t])
    ensures g.start + 1 + t !in Elements(lh)
  {
    assert Home(g, lh[t]);
    ElementsSize(lh);
    LogBlockNotPinned(g, lh, g.start + 1 + t);
  }

  lemma {:induction false} ElementsTail(s: seq<nat>, t: nat)
    requires t < |s| && Distinct(s)
    ensures Elements(s[t..]) - {s[t]} == Elements(s[t + 1..]) && s[t] in Elements(s[t..])
  {
    assert s[t..] == [s[t]] + s[t + 1..];
    assert s[t] !in s[t + 1..];
  }

  lemma {:induction false} LogWritesSnoc(start: nat, log: seq<Block>, k: nat)
    requires k < |log|
    ensures LogWrites(start, log, k + 1) == LogWrites(start, log, k) + [DiskWrite(start + 1 + k, log[k])]
  {
  }

  lemma {:induction false} InstallWritesSnoc(lh: seq<nat>, log: seq<Block>, k: nat)
    requires k < |lh| <= |log|
    ensures InstallWrites(lh, log, k + 1) == InstallWrites(lh, log, k) + [DiskWrite(lh[k], log[k])]
  {
  }

  ghost predicate AllHome(g: Geometry, lh: seq<nat>) {
    forall i | 0 <= i < |lh| :: Home(g, lh[i])
  }

  /** write_log changes only blocks of the log area. */
  lemma {:induction false} LogWritesElsewhere(g: Geometry, log: seq<Block>, d: seq<Block>, k: nat, b: nat)
    requires ValidGeometry(g) && k <= |log| <= g.size - 1 && g.nblocks == |d| && (Home(g, b) || b == g.start)
    ensures Apply(d, LogWrites(g.start, log, k))[b] == d[b]
  {
    ApplyElsewhere(d, LogWrites(g.start, log, k), b);
  }

  /** install_trans changes no block of the log area. */
  lemma {:induction false} InstallElsewhere(g: Geometry, lh: seq<nat>, log: seq<Block>, d: seq<Block>, k: nat, b: nat)
    requires ValidGeometry(g) && AllHome(g, lh) && k <= |lh| <= |log| && g.nblocks == |d|
             && g.start <= b < g.start + g.size
    ensures Apply(d, InstallWrites(lh, log, k))[b] == d[b]
  {
    forall i | 0 <= i < k ensures InstallWrites(lh, log, k)[i].block != b {
      assert Home(g, lh[i]);
    }
    ApplyElsewhere(d, InstallWrites(lh, log, k), b);
  }

  /** After write_log, the log area holds the contents of the logged blocks. */
  lemma {:induction false} LogAreaWritten(g: Geometry, log: seq<Block>, d: seq<Block>, k: nat, i: nat)
    requires ValidGeometry(g) && i < k <= |log| <= g.size - 1 && g.nblocks == |d|
    ensures Apply(d, LogWrites(g.start, log, k))[g.start + 1 + i] == log[i]
  {
    LogWritesSnoc(g.start, log, k - 1);
    ApplyOne(d, LogWrites(g.start, log, k - 1), DiskWrite(g.start + k, log[k - 1]));
    if i < k - 1 {
      LogAreaWritten(g, log, d, k - 1, i);
    }
  }

  lemma {:induction false} LogBlocksAt(start: nat, size: nat, d: seq<Block>, i: nat)
    requires start + size <= |d| && i + 1 < size
    ensures LogBlocks(start, size, d)[i] == d[start + 1 + i]
  {
  }

  lemma {:induction false} LoggedInstall(g: Geometry, lh: seq<nat>, log: seq<Block>, d: seq<Block>, head: Block)
    requires ValidGeometry(g) && |lh| == |log| <= g.size - 1 && g.nblocks == |d|
    ensures var mid := Apply(d, LogWrites(g.start, log, |log|) + [DiskWrite(g.start, head)]);
            && mid[g.start] == head
            && InstallWrites(lh, LogBlocks(g.start, g.size, mid), |lh|) == InstallWrites(lh, log, |lh|)
  {
    ApplyOne(d, LogWrites(g.start, log, |log|), DiskWrite(g.start, head));
    var mid := Apply(d, LogWrites(g.start, log, |log|))[g.start := head];
    forall i | 0 <= i < |lh| ensures LogBlocks(g.start, g.size, mid)[i] == log[i] {
      LogAreaWritten(g, log, d, |log|, i);
      LogBlocksAt(g.start, g.size, mid, i);
    }
  }

  /** The first half of commit leaves exactly the header and log blocks that the second half reads. */
  lemma {:induction false} CommitHalves(g: Geometry, from: Snapshot, lh: seq<nat>)
    requires ValidGeometry(g) && GoodList(g, lh) && lh != [] && g.nblocks == |from.last|
    ensures var head := EncodeHeader(from.last[g.start], lh);
            var a := LogWrites(g.start, LoggedContents(lh, from.last), |lh|) + [DiskWrite(g.start, head)];
            var mid := Advance(from, a);
            && mid.last[g.start] == head
            && Advance(from, CommitWrites(g.start, lh, from.last)) ==
                 Advance(mid, InstallWrites(lh, LogBlocks(g.start, g.size, mid.last), |lh|)
                              + [DiskWrite(g.start, EncodeHeader(mid.last[g.start], []))])
  {
    var head := EncodeHeader(from.last[g.start], lh);
    var log := LoggedContents(lh, from.last);
    var a := LogWrites(g.start, log, |lh|) + [DiskWrite(g.start, head)];
    LoggedInstall(g, lh, log, from.last, head);
    var c := InstallWrites(lh, log, |lh|) + [DiskWrite(g.start, EncodeHeader(head, []))];
    assert CommitWrites(g.start, lh, from.last) == a + c;
    AdvanceMore(from, a, c);
  }

  // ---------- Log over the buffer cache ----------

  ghost predicate SameBlock(a: Buf, b: Buf) { a.dev == b.dev && a.blockno == b.blockno }

  /** b is buffer a as bread has just handed it out: shared, or recycled for another block. */
  ghost predicate Grip(a: Buf, b: Buf) {
    && !a.locked && b.locked && b.valid
    && if SameBlock(a, b) then b.refcnt == a.refcnt + 1 && b.dirty == a.dirty
       else Recyclable(a) && b.refcnt == 1 && !b.dirty
  }

  /** What other processes may count on: a buffer in use keeps its block and references, a locked one everything. */
  ghost predicate Calm(a: Buf, c: Buf) {
    && (a.locked ==> c == a) && (c.locked ==> a.locked) && (Recyclable(a) ==> Recyclable(c))
    && (a.refcnt > 0 ==> SameBlock(a, c) && c.refcnt == a.refcnt)
  }

  ghost predicate Undisturbed(buf: seq<Buf>, buf': seq<Buf>) {
    |buf'| == |buf| && forall i | 0 <= i < |buf| :: Calm(buf[i], buf'[i])
  }

  lemma {:induction false} StillUndisturbed(a: seq<Buf>, b: seq<Buf>, c: seq<Buf>)
    requires Undisturbed(a, b) && Undisturbed(b, c)
    ensures Undisturbed(a, c)
  {
    forall i | 0 <= i < |a| ensures Calm(a[i], c[i]) {
      assert Calm(a[i], b[i]) && Calm(b[i], c[i]);
    }
  }

  /** A buffer or two that bget can recycle. */
  ghost predicate Spares(buf: seq<Buf>, two: bool) {
    exists i, j | 0 <= i < |buf| && 0 <= j < |buf| :: Recyclable(buf[i]) && Recyclable(buf[j]) && (two ==> i != j)
  }

  /** Nobody has block n locked. */
  ghost predicate Unheld(buf: seq<Buf>, n: nat) { forall i | 0 <= i < |buf| && Holds(buf[i], n) :: !buf[i].locked }

  /** Nobody has a block of the log area or of the list locked. */
  ghost predicate Open(buf: seq<Buf>, g: Geometry, lh: seq<nat>) {
    forall i | 0 <= i < |buf| && buf[i].locked && buf[i].dev == ROOTDEV ::
          Home(g, buf[i].blockno) && buf[i].blockno !in lh
  }

  lemma {:induction false} StillReady(buf: seq<Buf>, buf': seq<Buf>, g: Geometry, lh: seq<nat>, two: bool)
    requires Undisturbed(buf, buf') && Spares(buf, two) && Open(buf, g, lh)
    ensures Spares(buf', two) && Open(buf', g, lh)
  {
    var i, j :| 0 <= i < |buf| && 0 <= j < |buf| && Recyclable(buf[i]) && Recyclable(buf[j]) && (two ==> i != j);
    assert Calm(buf[i], buf'[i]) && Calm(buf[j], buf'[j]);
    forall k | 0 <= k < |buf'| && buf'[k].locked ensures buf[k] == buf'[k] {
      assert Calm(buf[k], buf'[k]);
    }
  }

  /** While no process holds a buffer, the dirty ones leave one to recycle, and two when none is dirty. */
  lemma {:induction false} IdleIsReady(bc: BufferCache)
    requires bc.Valid() && |Pins(bc.buf)| < NBUF && forall i | 0 <= i < NBUF :: bc.buf[i].refcnt == 0
    ensures Spares(bc.buf, Pins(bc.buf) == {})
  {
    assert bc.buf[..NBUF] == bc.buf;
    if Pins(bc.buf) == {} {
      DirtyIsPinned(bc.buf);
      assert Recyclable(bc.buf[0]) && Recyclable(bc.buf[1]);
    } else if forall i | 0 <= i < NBUF :: bc.buf[i].dirty {
      assert forall i | 0 <= i < NBUF :: BufOk(bc.buf[i], bc.last);
      AllDirty(bc.buf, NBUF);
    } else {
      var i :| 0 <= i < NBUF && !bc.buf[i].dirty;
      assert Recyclable(bc.buf[i]);
    }
  }

  lemma {:induction false} DirtyIsPinned(buf: seq<Buf>)
    ensures forall i | 0 <= i < |buf| && buf[i].dirty :: buf[i].blockno in Pins(buf)
  {
  }

  /** A pinned block is cached. */
  lemma {:induction false} PinnedIsCached(bc: BufferCache, n: nat) returns (i: nat)
    requires bc.Valid() && n in Pins(bc.buf)
    ensures i < NBUF && bc.buf[i].dirty && Holds(bc.buf[i], n)
  {
    i :| 0 <= i < NBUF && bc.buf[i].dirty && bc.buf[i].blockno == n;
    assert BufOk(bc.buf[i], bc.last);
  }

  /** Letting a buffer go again, written or as it was, disturbs nobody. */
  lemma {:induction false} LetGo(a: Buf, b: Buf, c: Buf)
    requires Grip(a, b) && c == b.(locked := false, refcnt := b.refcnt - 1, dirty := c.dirty, data := c.data)
    requires c.dirty ==> b.dirty
    ensures Calm(a, c)
  {
  }

  /** What the disk and the cache hold, and the disk writes made so far. */
  datatype Snapshot = Snapshot(writes: seq<DiskWrite>, disk: seq<Block>, last: seq<Block>)

  function Advance(s: Snapshot, w: seq<DiskWrite>): (r: Snapshot)
    ensures |r.disk| == |s.disk| && |r.last| == |s.last|
  {
    Snapshot(s.writes + w, Apply(s.disk, w), Apply(s.last, w))
  }

  lemma {:induction false} AdvanceMore(from: Snapshot, v: seq<DiskWrite>, w: seq<DiskWrite>)
    ensures Advance(Advance(from, v), w) == Advance(from, v + w)
  {
    ApplyAppend(from.disk, v, w);
    ApplyAppend(from.last, v, w);
    assert (from.writes + v) + w == from.writes + (v + w);
  }

  lemma {:induction false} CommitWritesAre(from: Snapshot, start: nat, lh: seq<nat>)
    requires start < |from.last| && 0 < |lh| <= LOGSIZE
    requires forall i | 0 <= i < |lh| :: lh[i] < |from.last| && lh[i] < 0x1_0000_0000
    ensures var n, all := |lh|, Advance(from, CommitWrites(start, lh, from.last)).writes;
            && |all| == |from.writes| + 2 * n + 2
            && var w := all[|from.writes|..];
               && (forall k | 0 <= k < n :: w[k] == DiskWrite(start + 1 + k, from.last[lh[k]]))
               && w[n].block == start && Word(w[n].data, 0) == n
               && (forall k | 0 <= k < n :: Word(w[n].data, 1 + k) == lh[k])
               && (forall k | 0 <= k < n :: w[n + 1 + k] == DiskWrite(lh[k], from.last[lh[k]]))
               && w[2 * n + 1].block == start && Word(w[2 * n + 1].data, 0) == 0
  {
    hide Word, CommitWrites;
    CommitOrder(start, lh, from.last);
    var w := CommitWrites(start, lh, from.last);
    assert Advance(from, w).writes[|from.writes|..] == w;
  }

  lemma {:induction false} RecoverWritesAre(from: Snapshot, start: nat, size: nat, d: seq<Block>)
    requires start + size <= |d| && 1 <= size
    requires GoodHeader(d[start]) && |Header(d[start])| <= size - 1
    ensures var n, all := Word(d[start], 0), Advance(from, RecoverWrites(start, size, d)).writes;
            && |all| == |from.writes| + n + 1 && n + 1 <= size
            && var w := all[|from.writes|..];
               && (forall k | 0 <= k < n :: w[k] == DiskWrite(Word(d[start], 1 + k), d[start + 1 + k]))
               && w[n].block == start && Word(w[n].data, 0) == 0
  {
    hide Word, RecoverWrites;
    RecoverOrder(start, size, d);
    var w := RecoverWrites(start, size, d);
    assert Advance(from, w).writes[|from.writes|..] == w;
  }

  lemma {:induction false} NoCommit(from: Snapshot, start: nat)
    requires start < |from.last|
    ensures Advance(from, CommitWrites(start, [], from.last)) == from
  {
    AdvanceNone(from);
  }

  /** A commit changes nothing that readers see. */
  lemma {:induction false} CommitUnseen(g: Geometry, lh: seq<nat>, last: seq<Block>)
    requires ValidGeometry(g) && GoodList(g, lh) && |last| == g.nblocks
    ensures forall b: nat | Home(g, b) :: Apply(last, CommitWrites(g.start, lh, last))[b] == last[b]
  {
    hide EncodeHeader;
    if lh != [] {
      CommitIsList(g, lh, last);
      forall b: nat | Home(g, b) ensures Apply(last, CommitWrites(g.start, lh, last))[b] == last[b] {
        CommitKeepsLast(g, lh, last, CommitWrites(g.start, lh, last), b);
      }
    }
  }

  lemma {:induction false} AdvanceNone(from: Snapshot)
    ensures Advance(from, []) == from
  {
    assert from.writes + [] == from.writes;
  }

  /** One more disk write. */
  function Put(s: Snapshot, x: DiskWrite): (r: Snapshot)
    requires x.block < |s.disk| == |s.last|
  {
    Snapshot(s.writes + [x], s.disk[x.block := x.data], s.last[x.block := x.data])
  }

  lemma {:induction false} AdvanceOne(from: Snapshot, w: seq<DiskWrite>, x: DiskWrite)
    requires x.block < |from.disk| == |from.last|
    ensures Put(Advance(from, w), x) == Advance(from, w + [x])
  {
    ApplyOne(from.disk, w, x);
    ApplyOne(from.last, w, x);
    assert (from.writes + w) + [x] == from.writes + (w + [x]);
  }

  lemma {:induction false} LogRoundReads(g: Geometry, from: Snapshot, log: seq<Block>, t: nat, b: nat)
    requires ValidGeometry(g) && t < |log| <= g.size - 1 && |from.last| == g.nblocks && Home(g, b)
    ensures Advance(from, LogWrites(g.start, log, t)).last[b] == from.last[b]
  {
    LogWritesElsewhere(g, log, from.last, t, b);
  }

  lemma {:induction false} LogRoundAdvances(g: Geometry, from: Snapshot, log: seq<Block>, t: nat)
    requires ValidGeometry(g) && t < |log| <= g.size - 1 && |from.disk| == |from.last| == g.nblocks
    ensures Put(Advance(from, LogWrites(g.start, log, t)), DiskWrite(g.start + 1 + t, log[t]))
            == Advance(from, LogWrites(g.start, log, t + 1))
  {
    LogWritesSnoc(g.start, log, t);
    AdvanceOne(from, LogWrites(g.start, log, t), DiskWrite(g.start + 1 + t, log[t]));
  }

  lemma {:induction false} InstallRoundAdvances(g: Geometry, from: Snapshot, lh: seq<nat>, log: seq<Block>, t: nat)
    requires ValidGeometry(g) && AllHome(g, lh) && t < |lh| && |from.disk| == |from.last| == g.nblocks
    requires log == LogBlocks(g.start, g.size, from.last) && |lh| <= g.size - 1
    ensures Advance(from, InstallWrites(lh, log, t)).last[g.start + 1 + t] == log[t]
    ensures Home(g, lh[t])
    ensures Put(Advance(from, InstallWrites(lh, log, t)), DiskWrite(lh[t], log[t]))
            == Advance(from, InstallWrites(lh, log, t + 1))
  {
    InstallElsewhere(g, lh, log, from.last, t, g.start + 1 + t);
    LogBlocksAt(g.start, g.size, from.last, t);
    InstallWritesSnoc(lh, log, t);
    AdvanceOne(from, InstallWrites(lh, log, t), DiskWrite(lh[t], log[t]));
  }

  lemma {:induction false} LogRoundsNone(from: Snapshot, start: nat, lh: seq<nat>)
    requires forall i | 0 <= i < |lh| :: lh[i] < |from.last|
    ensures Advance(from, LogWrites(start, LoggedContents(lh, from.last), 0)) == from
  {
    AdvanceNone(from);
  }

  lemma {:induction false} LogWritesAre(from: Snapshot, start: nat, lh: seq<nat>)
    requires forall i | 0 <= i < |lh| :: lh[i] < |from.last|
    ensures var w, n := Advance(from, LogWrites(start, LoggedContents(lh, from.last), |lh|)).writes, |from.writes|;
            |w| == n + |lh| && forall k | 0 <= k < |lh| :: w[n + k] == DiskWrite(start + 1 + k, from.last[lh[k]])
  {
  }

  lemma {:induction false} InstallWritesAre(from: Snapshot, start: nat, size: nat, lh: seq<nat>)
    requires start + size <= |from.last| && |lh| + 1 <= size
    ensures var w, n := Advance(from, InstallWrites(lh, LogBlocks(start, size, from.last), |lh|)).writes, |from.writes|;
            |w| == n + |lh| && forall k | 0 <= k < |lh| :: w[n + k] == DiskWrite(lh[k], from.last[start + 1 + k])
  {
  }

  /** `sys` is the state of the machine of module CrashLog that the log is in, and `init` the disk it started from. */
  class Log {
    const bc: BufferCache
    const start: nat
    const size: nat
    var lh: seq<nat>
    var outstanding: nat
    var committing: bool
    ghost var init: Contents
    ghost var sys: Sys

    constructor (bc: BufferCache, start: nat, size: nat)
      ensures this.bc == bc && this.start == start && this.size == size
      ensures lh == [] && outstanding == 0 && !committing
    {
      this.bc, this.start, this.size := bc, start, size;
      lh, outstanding, committing := [], 0, false;
      init, sys := [], Sys(Disk([], [], []), [], [], [], Serving, {}, [], []);
    }

    function Geo(): (g: Geometry)
      reads bc
    {
      Geometry(start, size, |bc.disk|)
    }

    /** The pinned buffers are those of the logged blocks. */
    ghost predicate Valid()
      reads this, bc
    {
      && bc.Valid() && ValidGeometry(Geo()) && size <= LOGSIZE
      && GoodList(Geo(), lh)
      && Pins(bc.buf) == Elements(lh)
    }

    /** The log is in machine state `sys`: same disk, list, number of calls and phase, and readers see its view. */
    ghost predicate Tracks()
      reads this, bc
    {
      && Inv(Geo(), init, sys) && Abstracts(Geo(), bc.disk, sys.disk) && sys.lh == lh && |sys.ops| == outstanding
      && (committing <==> Committing(sys)) && !sys.phase.Recovering?
      && |bc.last| == |bc.disk| && forall b: nat | Home(Geo(), b) :: bc.last[b] == sys.view[b]
    }

    ghost function Now(): (r: Snapshot)
      reads bc
    {
      Snapshot(bc.writes, bc.disk, bc.last)
    }

    /** A commit (two: a recovery) can run now: it will find its buffers and wait for nobody. */
    ghost predicate Ready(two: bool)
      reads this, bc
    {
      Spares(bc.buf, two) && Open(bc.buf, Geo(), lh)
    }

    method ReadOne(blockno: nat) returns (x: nat)
      requires bc.Valid() && blockno < |bc.disk| && Unheld(bc.buf, blockno)
      requires Spares(bc.buf, false) || exists i | 0 <= i < NBUF :: Holds(bc.buf[i], blockno)
      modifies bc
      ensures bc.Valid() && x < NBUF && Holding(bc.buf[x], blockno, bc.last) && Grip(old(bc.buf[x]), bc.buf[x])
      ensures bc.buf == old(bc.buf)[x := bc.buf[x]] && Now() == old(Now()) && Pins(bc.buf) == Pins(old(bc.buf))
    {
      var r := bc.Bread(blockno);
      x := r.i;
      assert BufOk(old(bc.buf)[x], old(bc.last));
    }

    /** The two breads that open a round of write_log or install_trans. */
    method ReadPair(logBlock: nat, homeBlock: nat) returns (x: nat, y: nat)
      requires bc.Valid() && logBlock < |bc.disk| && homeBlock < |bc.disk| && logBlock != homeBlock
      requires Unheld(bc.buf, logBlock) && Unheld(bc.buf, homeBlock) && Spares(bc.buf, homeBlock !in Pins(bc.buf))
      modifies bc
      ensures bc.Valid() && x < NBUF && y < NBUF && x != y && bc.buf == old(bc.buf)[x := bc.buf[x]][y := bc.buf[y]]
      ensures Holding(bc.buf[x], logBlock, bc.last) && Grip(old(bc.buf[x]), bc.buf[x])
      ensures Holding(bc.buf[y], homeBlock, bc.last) && Grip(old(bc.buf[y]), bc.buf[y])
      ensures Now() == old(Now()) && Pins(bc.buf) == Pins(old(bc.buf))
    {
      hide Pins;
      ghost var buf0 := bc.buf;
      ghost var c: nat := 0;
      if homeBlock in Pins(buf0) {
        c := PinnedIsCached(bc, homeBlock);
      }
      x := ReadOne(logBlock);
      NextBuffer(buf0, bc.buf, x, c, homeBlock);
      y := ReadOne(homeBlock);
    }

    /** The two brelses that close the round. */
    method ReleasePair(x: nat, y: nat)
      requires bc.Valid() && x < NBUF && y < NBUF && x != y
      requires Holding(bc.buf[x], bc.buf[x].blockno, bc.last) && Holding(bc.buf[y], bc.buf[y].blockno, bc.last)
      modifies bc
      ensures bc.Valid() && Now() == old(Now()) && Pins(bc.buf) == Pins(old(bc.buf))
      ensures bc.buf == old(bc.buf)[x := Freed(old(bc.buf[x]))][y := Freed(old(bc.buf[y]))]
    {
      assert BufOk(bc.buf[x], bc.last) && BufOk(bc.buf[y], bc.last);
      bc.Brelse(x);
      bc.Brelse(y);
    }

    /** One round of write_log (toLog) or of install_trans (!toLog). */
    method CopyBlock(logBlock: nat, homeBlock: nat, toLog: bool)
      requires bc.Valid() && logBlock < |bc.disk| && homeBlock < |bc.disk| && logBlock != homeBlock
      requires Unheld(bc.buf, logBlock) && Unheld(bc.buf, homeBlock) && Spares(bc.buf, homeBlock !in Pins(bc.buf))
      modifies bc
      ensures bc.Valid() && Undisturbed(old(bc.buf), bc.buf)
      ensures Pins(bc.buf) == Pins(old(bc.buf)) - {if toLog then logBlock else homeBlock}
      ensures Now() == Put(old(Now()), if toLog then DiskWrite(logBlock, old(bc.last)[homeBlock])
                                       else DiskWrite(homeBlock, old(bc.last)[logBlock]))
    {
      hide Pins, Spares, Unheld, Grip, Undisturbed, Linked, BufOk, OneBufferPerBlock;
      ghost var buf0 := bc.buf;
      var x, y := ReadPair(logBlock, homeBlock);
      ghost var buf1 := bc.buf;
      var src, dst := if toLog then y else x, if toLog then x else y;
      bc.Modify(dst, bc.buf[src].data);
      bc.Bwrite(dst);
      ReleasePair(src, dst);
      BothLetGo(buf0, buf1, bc.buf, src, dst);
    }

    /** The holder of buffer x gives its block new contents, on the disk too, and releases it. */
    method WriteBack(x: nat, data: Block)
      requires bc.Valid() && x < NBUF && Holding(bc.buf[x], bc.buf[x].blockno, bc.last)
      modifies bc
      ensures bc.Valid() && |bc.disk| == old(|bc.disk|)
      ensures bc.buf == old(bc.buf)[x := Freed(old(bc.buf[x]).(data := data, dirty := false))]
      ensures Now() == Put(old(Now()), DiskWrite(old(bc.buf[x].blockno), data))
      ensures Pins(bc.buf) == Pins(old(bc.buf)) - {old(bc.buf[x].blockno)}
    {
      assert BufOk(bc.buf[x], bc.last);
      bc.Modify(x, data);
      bc.Bwrite(x);
      bc.Brelse(x);
    }

    /** write_head, when a buffer is free and the header block is neither pinned nor held. */
    method WriteHead()
      requires bc.Valid() && Ready(false) && start !in Pins(bc.buf) && ValidGeometry(Geo()) && GoodList(Geo(), lh)
      modifies bc
      ensures bc.Valid() && Undisturbed(old(bc.buf), bc.buf)
      ensures Pins(bc.buf) == Pins(old(bc.buf)) && |bc.disk| == old(|bc.disk|)
      ensures Now() == Put(old(Now()), DiskWrite(start, EncodeHeader(old(bc.last)[start], lh)))
      ensures Word(bc.disk[start], 0) == |lh| && forall i | 0 <= i < |lh| :: Word(bc.disk[start], 1 + i) == lh[i]
      ensures forall b | 0 <= b < |bc.disk| && b != start :: bc.disk[b] == old(bc.disk)[b]
    {
      hide Pins, Spares;
      ghost var buf0 := bc.buf;
      var x := ReadOne(start);
      ghost var b := bc.buf[x];
      var hb := FillHeader(bc.buf[x].data, lh);
      WriteBack(x, hb);
      LetGo(buf0[x], b, bc.buf[x]);
    }

    /** write_log. */
    method WriteLog()
      requires bc.Valid() && Ready(false) && ValidGeometry(Geo()) && size <= LOGSIZE && GoodList(Geo(), lh)
      requires Pins(bc.buf) == Elements(lh)
      modifies bc
      ensures bc.Valid() && Undisturbed(old(bc.buf), bc.buf) && |bc.disk| == old(|bc.disk|)
      ensures Pins(bc.buf) == Elements(lh)
      ensures Now() == Advance(old(Now()), LogWrites(start, LoggedContents(lh, old(bc.last)), |lh|))
      ensures |bc.writes| == |old(bc.writes)| + |lh|
      ensures forall k | 0 <= k < |lh| ::
                bc.writes[|old(bc.writes)| + k] == DiskWrite(start + 1 + k, old(bc.last)[lh[k]])
    {
      hide Pins, Advance, Spares, Open, Undisturbed, LogWrites, Put, Linked, OneBufferPerBlock, BufOk, LoggedContents;
      ghost var from, buf0 := Now(), bc.buf;
      var tail := 0;
      LogRoundsNone(from, start, lh);
      NotDisturbed(buf0);
      while tail < |lh|
        invariant 0 <= tail <= |lh| && bc.Valid() && |bc.disk| == |from.last| && Pins(bc.buf) == Elements(lh)
        invariant Undisturbed(buf0, bc.buf) && Ready(false)
        invariant Now() == Advance(from, LogWrites(start, LoggedContents(lh, from.last), tail))
      {
        ghost var buf1 := bc.buf;
        LogRound(tail, from);
        StillUndisturbed(buf0, buf1, bc.buf);
        tail := tail + 1;
      }
      LogWritesAre(from, start, lh);
    }

    /** One round of write_log. */
    method LogRound(tail: nat, ghost from: Snapshot)
      requires bc.Valid() && Ready(false) && ValidGeometry(Geo()) && size <= LOGSIZE && GoodList(Geo(), lh)
      requires Pins(bc.buf) == Elements(lh) && tail < |lh| && |from.last| == |bc.disk|
      requires Now() == Advance(from, LogWrites(start, LoggedContents(lh, from.last), tail))
      modifies bc
      ensures bc.Valid() && Undisturbed(old(bc.buf), bc.buf) && |bc.disk| == old(|bc.disk|) && Ready(false)
      ensures Pins(bc.buf) == Elements(lh)
      ensures Now() == Advance(from, LogWrites(start, LoggedContents(lh, from.last), tail + 1))
    {
      hide Pins, Advance, Spares, Open, Undisturbed, LogWrites, Put, Linked, OneBufferPerBlock, BufOk;
      ghost var g, buf1, log := Geo(), bc.buf, LoggedContents(lh, from.last);
      LogRoundFacts(g, lh, tail);
      LogRoundReads(g, from, log, tail, lh[tail]);
      LogRoundAdvances(g, from, log, tail);
      RoundOpen(bc.buf, g, lh, tail);
      CopyBlock(start + 1 + tail, lh[tail], true);
      StillReady(buf1, bc.buf, g, lh, false);
    }

    /** The contents of the log blocks, as the cache has them. */
    ghost function LogArea(last: seq<Block>): (r: seq<Block>)
      requires start + size <= |last| && 1 <= size
    {
      LogBlocks(start, size, last)
    }

    /** install_trans, both in a commit (the logged blocks are pinned) and in recovery (nothing is). */
    method InstallTrans(ghost pinned: bool)
      requires bc.Valid() && Ready(!pinned) && ValidGeometry(Geo()) && size <= LOGSIZE && GoodList(Geo(), lh)
      requires Pins(bc.buf) == if pinned then Elements(lh) else {}
      modifies bc
      ensures bc.Valid() && Undisturbed(old(bc.buf), bc.buf) && |bc.disk| == old(|bc.disk|) && Pins(bc.buf) == {}
      ensures Now() == Advance(old(Now()), InstallWrites(lh, LogArea(old(bc.last)), |lh|))
      ensures |bc.writes| == |old(bc.writes)| + |lh|
      ensures forall k | 0 <= k < |lh| ::
                bc.writes[|old(bc.writes)| + k] == DiskWrite(lh[k], old(bc.last)[start + 1 + k])
    {
      hide Advance, Pins, InstallWrites, Spares, Open, Undisturbed, Put, At, LogBlocks, Linked, OneBufferPerBlock;
      ghost var from, g, buf0 := Now(), Geo(), bc.buf;
      ghost var log := LogArea(bc.last);
      var tail := 0;
      assert lh[0..] == lh;
      AdvanceNone(from);
      NotDisturbed(buf0);
      while tail < |lh|
        invariant 0 <= tail <= |lh| && bc.Valid() && Geo() == g && |from.last| == g.nblocks
        invariant Undisturbed(buf0, bc.buf) && Ready(!pinned)
        invariant Pins(bc.buf) == if pinned then Elements(lh[tail..]) else {}
        invariant Now() == Advance(from, InstallWrites(lh, log, tail))
      {
        ghost var buf1 := bc.buf;
        InstallRoundAdvances(g, from, lh, log, tail);
        ElementsTail(lh, tail);
        RoundOpen(bc.buf, g, lh, tail);
        CopyBlock(start + 1 + tail, lh[tail], false);
        StillReady(buf1, bc.buf, g, lh, !pinned);
        StillUndisturbed(buf0, buf1, bc.buf);
        tail := tail + 1;
      }
      InstallWritesAre(from, start, size, lh);
    }

    /** One pass through begin_op's loop, for call `id`: false means the caller sleeps and tries again. */
    method BeginOp(ghost id: nat) returns (admitted: bool)
      requires Valid() && Tracks() && id !in sys.started
      modifies this`outstanding, this`sys
      ensures Valid() && Tracks()
      ensures admitted <==> !committing && |lh| + (old(outstanding) + 1) * MAXOPBLOCKS <= LOGSIZE
      ensures outstanding == if admitted then old(outstanding) + 1 else old(outstanding)
      ensures admitted <==> Requested(Geo(), old(sys), Begin(id))
      ensures sys == if admitted then Step(Geo(), old(sys), Begin(id)) else old(sys)
    {
      if committing || |lh| + (outstanding + 1) * MAXOPBLOCKS > LOGSIZE {
        return false;
      }
      outstanding := outstanding + 1;
      StepInv(Geo(), init, sys, Begin(id));
      sys := Step(Geo(), sys, Begin(id));
      return true;
    }

    /**
    log_write of the locked buffer i by the k-th running call.  The result says whether it panics,
    before any change.
    */
    method LogWrite(i: nat, ghost k: nat) returns (panic: bool)
      requires Valid() && Tracks() && i < NBUF && bc.buf[i].locked && bc.buf[i].valid && bc.buf[i].dev == ROOTDEV
      requires Home(Geo(), bc.buf[i].blockno) && k < |sys.ops|
      modifies this`lh, this`sys, bc
      ensures Valid() && Tracks() && bc.disk == old(bc.disk) && bc.writes == old(bc.writes)
      ensures var e := Event.LogWrite(k, old(bc.buf[i].blockno), old(bc.buf[i].data));
              && Requested(Geo(), old(sys), e) && (panic <==> Panics(Geo(), old(sys), e))
              && sys == if panic then old(sys) else Step(Geo(), old(sys), e)
      ensures panic <==> |old(lh)| >= LOGSIZE || |old(lh)| >= size - 1
      ensures panic ==> lh == old(lh) && Now() == old(Now()) && bc.buf == old(bc.buf)
      ensures !panic ==>
                && lh == (if old(bc.buf[i].blockno) in old(lh) then old(lh) else old(lh) + [old(bc.buf[i].blockno)])
                && bc.buf == old(bc.buf)[i := old(bc.buf[i]).(dirty := true)]
                && bc.last == old(bc.last)[old(bc.buf[i].blockno) := old(bc.buf[i].data)]
    {
      hide Agree, Pins;
      if |lh| >= LOGSIZE || |lh| >= size - 1 || outstanding < 1 {
        return true;
      }
      ghost var n0, d0 := bc.buf[i].blockno, bc.buf[i].data;
      StepInv(Geo(), init, sys, Event.LogWrite(k, n0, d0));
      AddToList(i);
      sys := Step(Geo(), sys, Event.LogWrite(k, n0, d0));
      return false;
    }

    /** log_write past its tests: absorption, and the pin. */
    method AddToList(i: nat)
      requires Valid() && i < NBUF && bc.buf[i].locked && bc.buf[i].valid && bc.buf[i].dev == ROOTDEV
      requires Home(Geo(), bc.buf[i].blockno) && |lh| < LOGSIZE && |lh| < size - 1
      modifies this`lh, bc
      ensures Valid() && bc.disk == old(bc.disk) && bc.writes == old(bc.writes)
      ensures lh == Absorb(old(lh), old(bc.buf[i].blockno))
      ensures bc.buf == old(bc.buf)[i := old(bc.buf[i]).(dirty := true)]
      ensures bc.last == old(bc.last)[old(bc.buf[i].blockno) := old(bc.buf[i].data)]
    {
      var n := bc.buf[i].blockno;
      var k := 0;
      while k < |lh| && lh[k] != n
        invariant 0 <= k <= |lh| && n !in lh[..k]
      {
        k := k + 1;
      }
      bc.Pin(i);
      if k == |lh| {
        assert lh[..k] == lh && forall j | 0 <= j < |lh| :: lh[j] in lh;
        lh := lh + [n];
      }
    }

    /**
    end_op of the k-th running call: the last call out commits.  end_op's panic on log.committing is
    unreachable.  The last clause is crash atomicity of the code itself: stop the disk writes of the
    commit anywhere, recover, and all blocks outside the log area are old, or all are new.
    */
    method EndOp(ghost k: nat)
      requires Valid() && Tracks() && k < |sys.ops| && (outstanding == 1 ==> Ready(false))
      modifies this`lh, this`outstanding, this`committing, this`sys, bc
      ensures Valid() && Tracks() && !committing && outstanding == old(outstanding) - 1
      ensures Undisturbed(old(bc.buf), bc.buf) && |bc.disk| == old(|bc.disk|)
      ensures !old(committing) && !Panics(Geo(), old(sys), End(k))
      ensures old(outstanding) > 1 ==> lh == old(lh) && Now() == old(Now()) && bc.buf == old(bc.buf)
      ensures old(outstanding) > 1 ==> sys == Step(Geo(), old(sys), End(k))
      ensures old(outstanding) == 1 ==>
                lh == [] && Now() == Advance(old(Now()), CommitWrites(start, old(lh), old(bc.last)))
      ensures old(outstanding) == 1 ==> Reaches(Geo(), Step(Geo(), old(sys), End(k)), 2 * |old(lh)| + 2, sys)
      ensures old(outstanding) == 1 ==> AllOrNothing(Geo(), old(bc.disk), old(bc.last), old(lh))
      ensures old(outstanding) == 1 ==> forall b: nat | Home(Geo(), b) :: bc.disk[b] == bc.last[b] == old(bc.last)[b]
    {
      hide Pins, Undisturbed, Advance, Apply, Inv, Abstracts, Spares, Open, AllOrNothing, Reaches, GoodList,
          CommitWrites;
      ghost var s0 := sys;
      EndFacts(Geo(), init, s0, k);
      sys := Step(Geo(), s0, End(k));
      outstanding := outstanding - 1;
      NotDisturbed(bc.buf);
      if outstanding == 0 {
        DoCommit();
      }
    }

    /** end_op's do_commit branch, once the machine is past its End step. */
    method DoCommit()
      requires Valid() && Ready(false) && outstanding == 0 && Inv(Geo(), init, sys)
               && Abstracts(Geo(), bc.disk, sys.disk)
      requires sys.lh == lh && sys.ops == [] && sys.phase == if lh == [] then Serving else WritingLog(0)
      requires |bc.last| == |bc.disk| && forall b: nat | Home(Geo(), b) :: bc.last[b] == sys.view[b]
      modifies this`lh, this`committing, this`sys, bc
      ensures Valid() && Tracks() && !committing && lh == []
      ensures Undisturbed(old(bc.buf), bc.buf) && |bc.disk| == old(|bc.disk|)
      ensures Now() == Advance(old(Now()), CommitWrites(start, old(lh), old(bc.last)))
      ensures Reaches(Geo(), old(sys), 2 * |old(lh)| + 2, sys)
      ensures AllOrNothing(Geo(), old(bc.disk), old(bc.last), old(lh))
      ensures |bc.last| == |bc.disk| && forall b: nat | Home(Geo(), b) :: bc.disk[b] == bc.last[b] == old(bc.last)[b]
    {
      hide Pins, Undisturbed, Advance, Apply, Inv, Abstracts, Spares, Open, AllOrNothing, Reaches, CommitWrites;
      hide Linked, OneBufferPerBlock, BufOk;
      CommitCrashes(Geo(), init, sys, bc.disk, bc.last, lh);
      ghost var r := CommitRun(Geo(), init, sys, bc.disk, bc.last, lh);
      Advanced(Now(), CommitWrites(start, lh, bc.last));
      CommitUnseen(Geo(), lh, bc.last);
      committing := true;
      Commit();
      committing := false;
      sys := r;
      UnpinnedIsOnDisk(bc);
    }

    /** The first half of commit, up to and including the header write. */
    method LogAndCommit()
      requires Valid() && Ready(false)
      modifies bc
      ensures Valid() && Ready(false) && Undisturbed(old(bc.buf), bc.buf) && |bc.disk| == old(|bc.disk|)
      ensures Now() == Advance(old(Now()), LogWrites(start, LoggedContents(lh, old(bc.last)), |lh|)
                                           + [DiskWrite(start, EncodeHeader(old(bc.last)[start], lh))])
    {
      hide Pins, Spares, Open, Undisturbed;
      ghost var from, buf0 := Now(), bc.buf;
      ghost var a := LogWrites(start, LoggedContents(lh, from.last), |lh|);
      LogWritesElsewhere(Geo(), LoggedContents(lh, from.last), from.last, |lh|, start);
      WriteLog();
      ghost var buf1 := bc.buf;
      StillReady(buf0, buf1, Geo(), lh, false);
      LogBlockNotPinned(Geo(), lh, start);
      AdvanceOne(from, a, DiskWrite(start, EncodeHeader(from.last[start], lh)));
      WriteHead();
      StillReady(buf1, bc.buf, Geo(), lh, false);
      StillUndisturbed(buf0, buf1, bc.buf);
    }

    /** The second half of commit, and the whole of recovery after read_head. */
    method InstallAndErase(ghost pinned: bool)
      requires bc.Valid() && Ready(!pinned) && ValidGeometry(Geo()) && size <= LOGSIZE && GoodList(Geo(), lh)
      requires Pins(bc.buf) == if pinned then Elements(lh) else {}
      modifies this`lh, bc
      ensures Valid() && Undisturbed(old(bc.buf), bc.buf) && lh == [] && |bc.disk| == old(|bc.disk|)
      ensures Now() == Advance(old(Now()), InstallWrites(old(lh), LogArea(old(bc.last)), |old(lh)|)
                                           + [DiskWrite(start, EncodeHeader(old(bc.last)[start], []))])
    {
      hide Pins, Undisturbed;
      ghost var from, buf0, lh0 := Now(), bc.buf, lh;
      ghost var c := InstallWrites(lh, LogArea(bc.last), |lh|);
      InstallElsewhere(Geo(), lh, LogArea(bc.last), bc.last, |lh|, start);
      InstallTrans(pinned);
      ghost var buf1 := bc.buf;
      StillReady(buf0, buf1, Geo(), lh0, !pinned);
      lh := [];
      AdvanceOne(from, c, DiskWrite(start, EncodeHeader(from.last[start], [])));
      WriteHead();
      StillUndisturbed(buf0, buf1, bc.buf);
    }

    /** commit: its disk writes, in order. */
    method Commit()
      requires Valid() && Ready(false)
      modifies this`lh, bc
      ensures Valid() && Undisturbed(old(bc.buf), bc.buf) && lh == [] && |bc.disk| == old(|bc.disk|)
      ensures Now() == Advance(old(Now()), CommitWrites(start, old(lh), old(bc.last)))
      ensures old(lh) == [] ==> bc.writes == old(bc.writes)
      ensures var n, w := |old(lh)|, bc.writes[|old(bc.writes)|..];
              n > 0 ==>
                && |w| == 2 * n + 2
                && (forall k | 0 <= k < n :: w[k] == DiskWrite(start + 1 + k, old(bc.last)[old(lh)[k]]))
                && w[n].block == start && Word(w[n].data, 0) == n
                && (forall k | 0 <= k < n :: Word(w[n].data, 1 + k) == old(lh)[k])
                && (forall k | 0 <= k < n :: w[n + 1 + k] == DiskWrite(old(lh)[k], old(bc.last)[old(lh)[k]]))
                && w[2 * n + 1].block == start && Word(w[2 * n + 1].data, 0) == 0
    {
      hide Pins, Undisturbed, CommitWrites, Word, Advance, Spares, Open, Linked, OneBufferPerBlock, BufOk;
      NoCommit(Now(), start);
      NotDisturbed(bc.buf);
      if |lh| > 0 {
        CommitWritesAre(Now(), start, lh);
        CommitBlocks();
      }
    }

    /** commit with something to commit. */
    method CommitBlocks()
      requires Valid() && Ready(false) && lh != []
      modifies this`lh, bc
      ensures Valid() && Undisturbed(old(bc.buf), bc.buf) && lh == [] && |bc.disk| == old(|bc.disk|)
      ensures Now() == Advance(old(Now()), CommitWrites(start, old(lh), old(bc.last)))
    {
      hide Pins, Undisturbed;
      ghost var from, buf0, g := Now(), bc.buf, Geo();
      LogAndCommit();
      ghost var buf1 := bc.buf;
      CommitHalves(g, from, lh);
      InstallAndErase(true);
      StillUndisturbed(buf0, buf1, bc.buf);
    }

    /** read_head followed by recover_from_log, with nothing pinned. */
    method RecoverHead()
      requires bc.Valid() && Pins(bc.buf) == {} && ValidGeometry(Geo()) && size <= LOGSIZE
      requires GoodHeader(bc.last[start]) && GoodList(Geo(), Header(bc.last[start]))
      requires Spares(bc.buf, true) && Open(bc.buf, Geo(), Header(bc.last[start]))
      modifies this`lh, bc
      ensures Valid() && Undisturbed(old(bc.buf), bc.buf) && lh == [] && |bc.disk| == old(|bc.disk|)
      ensures Now() == Advance(old(Now()), RecoverWrites(start, size, old(bc.last)))
    {
      hide Pins, Undisturbed, Linked, At, Advance;
      ghost var buf0 := bc.buf;
      assert Spares(bc.buf, false);
      var x := ReadOne(start);
      ghost var b := bc.buf[x];
      lh := ParseHeader(bc.buf[x].data);
      bc.Brelse(x);
      LetGo(buf0[x], b, bc.buf[x]);
      OneLetGo(buf0, x, bc.buf);
      ghost var buf1 := bc.buf;
      StillReady(buf0, buf1, Geo(), lh, true);
      InstallAndErase(false);
      StillUndisturbed(buf0, buf1, bc.buf);
    }

    /**
    initlog on the disk of a crashed machine state s0: recovery brings the log back to service in a
    state it reaches.
    */
    method RecoverFromLog(ghost init0: Contents, ghost s0: Sys)
      requires bc.Valid() && Pins(bc.buf) == {} && size <= LOGSIZE && outstanding == 0 && !committing
      requires Inv(Geo(), init0, s0) && s0.phase == Recovering(0) && Abstracts(Geo(), bc.disk, s0.disk)
      requires Spares(bc.buf, true) && Open(bc.buf, Geo(), s0.disk.head)
      modifies this`lh, this`init, this`sys, bc
      ensures Valid() && Tracks() && Undisturbed(old(bc.buf), bc.buf) && lh == [] && init == init0
      ensures GoodHeader(old(bc.disk)[start]) && |Header(old(bc.disk)[start])| <= size - 1
      ensures Now() == Advance(old(Now()), RecoverWrites(start, size, old(bc.disk)))
      ensures var d, n, w := old(bc.disk), Word(old(bc.disk)[start], 0), bc.writes[|old(bc.writes)|..];
              && |w| == n + 1 && w[n].block == start && Word(w[n].data, 0) == 0
              && (forall k | 0 <= k < n :: w[k] == DiskWrite(Word(d[start], 1 + k), d[start + 1 + k]))
      ensures Reaches(Geo(), s0, |s0.disk.head| + 1, sys) && sys.batches == s0.batches
      ensures forall b: nat | Home(Geo(), b) :: bc.last[b] == ApplyBatches(init0, s0.batches)[b]
    {
      hide Pins, Undisturbed, Advance, Apply, Spares, Open, Inv, Abstracts, Reaches, RecoverWrites, Word, Header;
      UnpinnedIsOnDisk(bc);
      ghost var r := RecoverRun(Geo(), init0, s0, bc.disk);
      Advanced(Now(), RecoverWrites(start, size, bc.disk));
      RecoverWritesAre(Now(), start, size, bc.disk);
      RecoverHead();
      UnpinnedIsOnDisk(bc);
      init, sys := init0, r;
    }
  }

  /**
  A restart on the disk of a crashed machine state: a new cache, then initlog.  Nobody holds a buffer, so
  recovery finds the two it needs, and the log is then ready to commit.
  */
  method Restart(disk: seq<Block>, start: nat, size: nat, ghost init0: Contents, ghost s0: Sys)
    returns (bc: BufferCache, log: Log)
    requires size <= LOGSIZE && s0.phase == Recovering(0)
    requires var g := Geometry(start, size, |disk|); Inv(g, init0, s0) && Abstracts(g, disk, s0.disk)
    ensures fresh(bc) && fresh(log) && log.bc == bc && log.start == start && log.size == size
    ensures log.Valid() && log.Tracks() && log.Ready(false) && log.lh == [] && log.outstanding == 0 && !log.committing
    ensures log.init == init0 && Reaches(log.Geo(), s0, |s0.disk.head| + 1, log.sys) && log.sys.batches == s0.batches
    ensures forall b: nat | Home(log.Geo(), b) :: bc.last[b] == ApplyBatches(init0, s0.batches)[b]
  {
    hide Inv, Abstracts, Reaches, Undisturbed, Advance, ApplyBatches, RecoverWrites;
    bc := new BufferCache(disk);
    log := new Log(bc, start, size);
    NothingPinned(bc.buf);
    IdleIsReady(bc);
    ghost var buf := bc.buf;
    log.RecoverFromLog(init0, s0);
    StillReady(buf, bc.buf, log.Geo(), log.lh, false);
  }

  lemma {:induction false} NothingPinned(buf: seq<Buf>)
    requires forall i | 0 <= i < |buf| :: !buf[i].dirty
    ensures Pins(buf) == {}
  {
  }

  /** r is n disk writes into the commit or recovery that s is at the start of, without a crash. */
  ghost predicate Reaches(g: Geometry, s: Sys, n: nat, r: Sys) {
    if s.phase.Serving? then r == s
    else
      var es := if s.phase.Recovering? then RecoverEvents(n) else CommitEvents(n);
      Run(g, s, es) && After(g, s, es) == r
  }

  /** Recovery of this disk leaves the wanted contents outside the log area. */
  ghost predicate RecoversTo(g: Geometry, now: seq<Block>, want: seq<Block>) {
    && ValidGeometry(g) && |now| == |want| == g.nblocks
    && GoodHeader(now[g.start]) && |Header(now[g.start])| <= g.size - 1
    && var done := Apply(now, RecoverWrites(g.start, g.size, now)); forall b: nat | Home(g, b) :: done[b] == want[b]
  }

  /** Stopping the disk writes of a commit anywhere and recovering gives the old contents everywhere or the new ones. */
  ghost predicate AllOrNothing(g: Geometry, blocks: seq<Block>, last: seq<Block>, lh: seq<nat>) {
    && ValidGeometry(g) && |last| == g.nblocks && GoodList(g, lh)
    && forall j: nat | j <= |CommitWrites(g.start, lh, last)| ::
         RecoversTo(g, Apply(blocks, CommitWrites(g.start, lh, last)[..j]), if j <= |lh| then blocks else last)
  }

  lemma {:induction false} Advanced(from: Snapshot, ws: seq<DiskWrite>)
    ensures var to := Advance(from, ws); to.disk == Apply(from.disk, ws) && to.last == Apply(from.last, ws)
  {
  }

  /** Without pins the disk is up to date. */
  lemma {:induction false} UnpinnedIsOnDisk(bc: BufferCache)
    requires bc.Valid() && Pins(bc.buf) == {}
    ensures bc.last == bc.disk
  {
  }

  /** A running call means the log is serving: end_op finds no commit under way. */
  lemma {:induction false} EndFacts(g: Geometry, init: Contents, s: Sys, k: nat)
    requires Inv(g, init, s) && k < |s.ops|
    ensures Sized(g, s) && s.phase.Serving? && Requested(g, s, End(k)) && !Panics(g, s, End(k))
    ensures var r := Step(g, s, End(k));
            && Inv(g, init, r) && |r.ops| == |s.ops| - 1 && r.disk == s.disk && r.view == s.view && r.lh == s.lh
            && r.phase == if |s.ops| == 1 && s.lh != [] then WritingLog(0) else Serving
  {
    StepInv(g, init, s, End(k));
  }

  /** The machine state a commit ends in. */
  lemma {:induction false} CommitRun(g: Geometry, init: Contents, s: Sys, blocks: seq<Block>, last: seq<Block>,
                                     lh: seq<nat>)
    returns (r: Sys)
    requires Inv(g, init, s) && s.ops == [] && s.lh == lh && Abstracts(g, blocks, s.disk) && |last| == g.nblocks
    requires s.phase == if lh == [] then Serving else WritingLog(0)
    requires forall b: nat | Home(g, b) :: last[b] == s.view[b]
    ensures Reaches(g, s, 2 * |lh| + 2, r) && Inv(g, init, r) && r.lh == [] && r.ops == [] && r.phase.Serving?
    ensures Abstracts(g, Apply(blocks, CommitWrites(g.start, lh, last)), r.disk)
    ensures forall b: nat | Home(g, b) :: Apply(last, CommitWrites(g.start, lh, last))[b] == r.view[b]
  {
    if lh == [] {
      r := s;
    } else {
      var ws := CommitWrites(g.start, lh, last);
      CommitIsList(g, lh, last);
      var es := CommitCrashPoints(g, init, s, blocks, last, ws, |ws|);
      r := After(g, s, es);
      assert ws[..|ws|] == ws;
      forall b: nat | Home(g, b) ensures Apply(last, ws)[b] == last[b] {
        CommitKeepsLast(g, lh, last, ws, b);
      }
    }
  }

  /** The machine state a recovery ends in. */
  lemma {:induction false} RecoverRun(g: Geometry, init: Contents, s: Sys, blocks: seq<Block>) returns (r: Sys)
    requires Inv(g, init, s) && s.phase == Recovering(0) && Abstracts(g, blocks, s.disk)
    ensures ValidGeometry(g) && |blocks| == g.nblocks && GoodHeader(blocks[g.start])
            && Header(blocks[g.start]) == s.disk.head
    ensures GoodList(g, s.disk.head) && Reaches(g, s, |s.disk.head| + 1, r) && Inv(g, init, r)
    ensures r.lh == [] && r.ops == [] && r.phase.Serving? && r.batches == s.batches
    ensures Abstracts(g, Apply(blocks, RecoverWrites(g.start, g.size, blocks)), r.disk)
    ensures forall b: nat | Home(g, b) ::
              Apply(blocks, RecoverWrites(g.start, g.size, blocks))[b] == r.view[b] == ApplyBatches(init, s.batches)[b]
  {
    RecoverWritesOk(g, blocks, s.disk);
    var ws := RecoverWrites(g.start, g.size, blocks);
    var es := RecoverCrashPoints(g, init, s, blocks, ws, |ws|);
    assert ws[..|ws|] == ws;
    r := After(g, s, es);
  }

  lemma {:induction false} CommitIsList(g: Geometry, lh: seq<nat>, last: seq<Block>)
    requires ValidGeometry(g) && GoodList(g, lh) && lh != [] && |last| == g.nblocks
    ensures CommitList(g, lh, last, CommitWrites(g.start, lh, last))
  {
    forall i | 0 <= i < 2 * |lh| + 2 ensures CommitWriteOk(g, lh, last, i, CommitWrites(g.start, lh, last)[i]) {
      CommitWritesOk(g, lh, last, i);
    }
  }

  /** A commit writes nothing to a home block but what readers already see. */
  lemma {:induction false} CommitKeepsLast(g: Geometry, lh: seq<nat>, last: seq<Block>, ws: seq<DiskWrite>, b: nat)
    requires ValidGeometry(g) && GoodList(g, lh) && |last| == g.nblocks && CommitList(g, lh, last, ws) && Home(g, b)
    ensures Apply(last, ws)[b] == last[b]
  {
    forall i | 0 <= i < |ws| && ws[i].block == b ensures ws[i].data == last[b] {
      assert CommitWriteOk(g, lh, last, i, ws[i]);
    }
    ApplySame(last, ws, b);
  }

  lemma {:induction false} ApplySame(d: seq<Block>, ws: seq<DiskWrite>, b: nat)
    requires b < |d| && forall i | 0 <= i < |ws| && ws[i].block == b :: ws[i].data == d[b]
    ensures Apply(d, ws)[b] == d[b]
    decreases |ws|
  {
    if ws != [] {
      ApplySame(d, ws[..|ws| - 1], b);
    }
  }

  /** Every crash point of a commit, in terms of the code's disk and cache. */
  lemma {:induction false} CommitCrashes(g: Geometry, init: Contents, s: Sys, blocks: seq<Block>, last: seq<Block>,
                                         lh: seq<nat>)
    requires Inv(g, init, s) && s.ops == [] && s.lh == lh && Abstracts(g, blocks, s.disk) && |last| == g.nblocks
    requires s.phase == if lh == [] then Serving else WritingLog(0)
    requires forall b: nat | Home(g, b) :: last[b] == s.view[b]
    ensures AllOrNothing(g, blocks, last, lh)
  {
    var ws := CommitWrites(g.start, lh, last);
    hide Inv, Abstracts, Apply, RecoversTo, CommitWrites;
    forall j: nat | j <= |ws| ensures RecoversTo(g, Apply(blocks, ws[..j]), if j <= |lh| then blocks else last) {
      if lh == [] {
        IdleRecovers(g, init, s, blocks, ws, j);
      } else {
        CommitIsAtomic(g, init, s, blocks, last, j);
      }
    }
  }

  /** Between transactions a crash changes nothing. */
  lemma {:induction false} IdleRecovers(g: Geometry, init: Contents, s: Sys, blocks: seq<Block>, ws: seq<DiskWrite>,
                                        j: nat)
    requires Inv(g, init, s) && s.phase.Serving? && Abstracts(g, blocks, s.disk) && ws == [] && j == 0
    ensures RecoversTo(g, Apply(blocks, ws[..j]), blocks)
  {
    assert ws[..j] == [];
    RecoveryCompletesOnDisk(g, init, s, blocks);
  }

  /** The buffer as its holder leaves it. */
  ghost function Freed(b: Buf): (c: Buf)
    requires b.refcnt > 0
  {
    b.(locked := false, refcnt := b.refcnt - 1)
  }

  lemma {:induction false} NotDisturbed(buf: seq<Buf>)
    ensures Undisturbed(buf, buf)
  {
  }

  lemma {:induction false} OneLetGo(buf: seq<Buf>, x: nat, buf': seq<Buf>)
    requires x < |buf| == |buf'| && buf' == buf[x := buf'[x]] && Calm(buf[x], buf'[x])
    ensures Undisturbed(buf, buf')
  {
  }

  lemma {:induction false} BothLetGo(buf0: seq<Buf>, buf1: seq<Buf>, buf2: seq<Buf>, x: nat, y: nat)
    requires |buf0| == |buf1| == |buf2| && x < |buf0| && y < |buf0| && x != y
    requires Grip(buf0[x], buf1[x]) && Grip(buf0[y], buf1[y]) && buf2[x] == Freed(buf1[x])
    requires buf2[y] == Freed(buf1[y].(dirty := false, data := buf2[y].data))
    requires forall i | 0 <= i < |buf0| && i != x && i != y :: buf2[i] == buf0[i]
    ensures Undisturbed(buf0, buf2)
  {
    LetGo(buf0[x], buf1[x], buf2[x]);
    LetGo(buf0[y], buf1[y], buf2[y]);
  }

  /** With buffer x taken for another block, the pinned block is still cached or a second spare buffer is left. */
  lemma {:induction false} NextBuffer(buf: seq<Buf>, buf': seq<Buf>, x: nat, c: nat, n: nat)
    requires x < |buf| == |buf'| && buf' == buf[x := buf'[x]] && Grip(buf[x], buf'[x]) && !Holds(buf'[x], n)
    requires Spares(buf, n !in Pins(buf)) && Unheld(buf, n)
    requires n in Pins(buf) ==> c < |buf| && buf[c].dirty && Holds(buf[c], n)
    ensures Unheld(buf', n) && (Spares(buf', false) || exists i | 0 <= i < |buf'| :: Holds(buf'[i], n))
  {
    if n in Pins(buf) {
      assert c != x;
      assert Holds(buf'[c], n);
    } else {
      var i, j :| 0 <= i < |buf| && 0 <= j < |buf| && Recyclable(buf[i]) && Recyclable(buf[j]) && i != j;
      var k := if i == x then j else i;
      assert Recyclable(buf'[k]);
    }
  }

  lemma {:induction false} RoundOpen(buf: seq<Buf>, g: Geometry, lh: seq<nat>, t: nat)
    requires Open(buf, g, lh) && t < |lh| <= g.size - 1
    ensures Unheld(buf, g.start + 1 + t) && Unheld(buf, lh[t])
  {
  }

  /** The buffer is locked by its reader and has the block's latest contents. */
  ghost predicate Holding(b: Buf, blockno: nat, last: seq<Block>)
  {
    blockno < |last| && Holds(b, blockno) && b.valid && b.locked && b.refcnt > 0 && b.data == last[blockno]
  }

  // ---------- The disk writes are the steps of the machine ----------

  /** The disk blocks that a disk of the machine stands for. */
  ghost predicate Abstracts(g: Geometry, blocks: seq<Block>, d: Disk) {
    && ValidGeometry(g) && |blocks| == |d.home| == g.nblocks
    && GoodHeader(blocks[g.start]) && Header(blocks[g.start]) == d.head
    && LogBlocks(g.start, g.size, blocks) == d.log
    && forall b: nat | Home(g, b) :: blocks[b] == d.home[b]
  }

  /** w is a disk write that carries out the machine's next commit or recovery step. */
  ghost predicate Realizes(g: Geometry, s: Sys, w: DiskWrite)
    requires Sized(g, s) && !s.phase.Serving?
  {
    var t := s.phase.tail;
    if t < |s.lh| then
      if s.phase.WritingLog? then w == DiskWrite(g.start + 1 + t, s.view[s.lh[t]])
      else w == DiskWrite(s.lh[t], s.disk.log[t])
    else
      w.block == g.start && GoodHeader(w.data) && Header(w.data) == if s.phase.WritingLog? then s.lh else []
  }

  ghost function IoEvent(s: Sys): (e: Event) {
    if s.phase.Recovering? then RecoverIO else CommitIO
  }

  lemma {:induction false} WriteIsStep(g: Geometry, s: Sys, blocks: seq<Block>, w: DiskWrite)
    requires Sized(g, s) && !s.phase.Serving? && Abstracts(g, blocks, s.disk) && Realizes(g, s, w)
    ensures w.block < |blocks| && Abstracts(g, blocks[w.block := w.data], Step(g, s, IoEvent(s)).disk)
  {
    var t := s.phase.tail;
    var r := Step(g, s, IoEvent(s));
    if t < |s.lh| {
      assert Home(g, s.lh[t]);
    }
    var blocks' := blocks[w.block := w.data];
    assert LogBlocks(g.start, g.size, blocks') == r.disk.log;
  }

  /** The phase of a commit of n blocks after k disk writes. */
  function PhaseAt(n: nat, k: nat): (p: Phase) {
    if k <= n then WritingLog(k) else if k <= 2 * n + 1 then Installing(k - n - 1) else Serving
  }

  /** What the k-th disk write of a commit must be. */
  ghost predicate CommitWriteOk(g: Geometry, lh: seq<nat>, last: seq<Block>, k: nat, w: DiskWrite)
    requires forall i | 0 <= i < |lh| :: lh[i] < |last|
  {
    var n := |lh|;
    if k < n then w == DiskWrite(g.start + 1 + k, last[lh[k]])
    else if k == n then w.block == g.start && GoodHeader(w.data) && Header(w.data) == lh
    else if k <= 2 * n then w == DiskWrite(lh[k - n - 1], last[lh[k - n - 1]])
    else w.block == g.start && GoodHeader(w.data) && Header(w.data) == []
  }

  lemma {:induction false} CommitWritesOk(g: Geometry, lh: seq<nat>, last: seq<Block>, k: nat)
    requires ValidGeometry(g) && GoodList(g, lh) && lh != [] && |last| == g.nblocks && k < 2 * |lh| + 2
    ensures CommitWriteOk(g, lh, last, k, CommitWrites(g.start, lh, last)[k])
  {
    hide EncodeHeader;
    var n := |lh|;
    if k == n {
      HeaderRoundTrip(last[g.start], lh);
    } else if k > 2 * n {
      HeaderRoundTrip(EncodeHeader(last[g.start], lh), []);
    }
  }

  /** The k-th write of commit carries out the machine's step k. */
  lemma {:induction false} CommitWriteAt(g: Geometry, init: Contents, r: Sys, lh: seq<nat>, last: seq<Block>, k: nat,
                                         w: DiskWrite)
    requires Inv(g, init, r) && r.lh == lh != [] && r.phase == PhaseAt(|lh|, k)
    requires |last| == g.nblocks && k < 2 * |lh| + 2 && CommitWriteOk(g, lh, last, k, w)
    requires forall b: nat | Home(g, b) :: last[b] == r.view[b]
    ensures Realizes(g, r, w)
  {
    var n := |lh|;
    if k < n {
      assert Home(g, lh[k]);
    } else if n < k <= 2 * n {
      assert Home(g, lh[k - n - 1]);
    }
  }

  /** What the machine's step k of a commit does to everything but the disk. */
  lemma {:induction false} CommitStepAt(g: Geometry, init: Contents, s: Sys, r: Sys, k: nat)
    requires Inv(g, init, r) && r.lh == s.lh != [] && k < 2 * |s.lh| + 2 && r.phase == PhaseAt(|s.lh|, k)
    requires r.view == s.view && (if k <= |s.lh| then r.batches == s.batches && r.current == s.current
                                  else r.batches == s.batches + [s.current])
    ensures var r' := Step(g, r, CommitIO);
            && r'.view == s.view && r'.phase == PhaseAt(|s.lh|, k + 1) && r'.ops == r.ops
            && (k < 2 * |s.lh| + 1 ==> r'.lh == s.lh)
            && if k < |s.lh| then r'.batches == s.batches && r'.current == s.current
               else r'.batches == s.batches + [s.current]
  {
    if |s.lh| < k <= 2 * |s.lh| {
      assert r.view[s.lh[r.phase.tail]] == r.disk.log[r.phase.tail];
    }
  }

  /** The machine state and the disk after the first k writes of a commit. */
  ghost predicate CommitAt(g: Geometry, init: Contents, s: Sys, k: nat, r: Sys, now: seq<Block>) {
    && Inv(g, init, r) && r.view == s.view && r.phase == PhaseAt(|s.lh|, k) && r.ops == s.ops
    && (k < 2 * |s.lh| + 2 ==> r.lh == s.lh)
    && (if k <= |s.lh| then r.batches == s.batches && r.current == s.current
        else r.batches == s.batches + [s.current])
    && Abstracts(g, now, r.disk)
  }

  lemma {:induction false} CommitOneMore(g: Geometry, init: Contents, s: Sys, last: seq<Block>, k: nat, r: Sys,
                                         now: seq<Block>, w: DiskWrite)
    requires s.lh != [] && k < 2 * |s.lh| + 2 && CommitAt(g, init, s, k, r, now)
    requires |last| == g.nblocks && forall b: nat | Home(g, b) :: last[b] == s.view[b]
    requires CommitWriteOk(g, s.lh, last, k, w)
    ensures Requested(g, r, CommitIO) && !Panics(g, r, CommitIO) && Sized(g, r)
    ensures w.block < |now| && CommitAt(g, init, s, k + 1, Step(g, r, CommitIO), now[w.block := w.data])
  {
    CommitWriteAt(g, init, r, s.lh, last, k, w);
    CommitStepAt(g, init, s, r, k);
    WriteIsStep(g, r, now, w);
    StepInv(g, init, r, CommitIO);
  }

  /** A list of disk writes that is, write by write, that of a commit. */
  ghost predicate CommitList(g: Geometry, lh: seq<nat>, last: seq<Block>, ws: seq<DiskWrite>)
    requires forall i | 0 <= i < |lh| :: lh[i] < |last|
  {
    |ws| == 2 * |lh| + 2 && forall k | 0 <= k < |ws| :: CommitWriteOk(g, lh, last, k, ws[k])
  }

  lemma {:induction false} CommitStart(g: Geometry, init: Contents, s: Sys, blocks: seq<Block>, ws: seq<DiskWrite>)
    requires Inv(g, init, s) && s.phase == WritingLog(0) && s.lh != [] && Abstracts(g, blocks, s.disk)
    ensures CommitAt(g, init, s, 0, s, Apply(blocks, ws[..0]))
  {
    assert ws[..0] == [];
  }

  /** Every crash point among the writes of commit leaves the disk of a state that a run of the machine reaches. */
  lemma {:induction false} CommitCrashPoints(g: Geometry, init: Contents, s: Sys, blocks: seq<Block>, last: seq<Block>,
                                             ws: seq<DiskWrite>, k: nat)
      returns (es: seq<Event>)
    requires Inv(g, init, s) && s.phase == WritingLog(0) && s.lh != [] && Abstracts(g, blocks, s.disk)
    requires |last| == g.nblocks && k <= |ws| && CommitList(g, s.lh, last, ws)
    requires forall b: nat | Home(g, b) :: last[b] == s.view[b]
    ensures es == CommitEvents(k) && Run(g, s, es)
    ensures CommitAt(g, init, s, k, After(g, s, es), Apply(blocks, ws[..k]))
  {
    hide Apply, CommitAt, CommitWriteOk, Step, Requested, Panics, Inv;
    es := [];
    if k == 0 {
      CommitStart(g, init, s, blocks, ws);
    } else {
      var fs := CommitCrashPoints(g, init, s, blocks, last, ws, k - 1);
      CommitOneMore(g, init, s, last, k - 1, After(g, s, fs), Apply(blocks, ws[..k - 1]), ws[k - 1]);
      ApplyPrefix(blocks, ws, k);
      RunSnoc(g, s, fs, CommitIO);
      es := fs + [CommitIO];
    }
  }

  lemma {:induction false} ApplyPrefix(d: seq<Block>, ws: seq<DiskWrite>, k: nat)
    requires 0 < k <= |ws| && ws[k - 1].block < |d|
    ensures Apply(d, ws[..k]) == Apply(d, ws[..k - 1])[ws[k - 1].block := ws[k - 1].data]
  {
    assert ws[..k] == ws[..k - 1] + [ws[k - 1]];
    ApplyOne(d, ws[..k - 1], ws[k - 1]);
  }

  /** What the k-th disk write of a recovery must be. */
  ghost predicate RecoverWriteOk(g: Geometry, lh: seq<nat>, log: seq<Block>, k: nat, w: DiskWrite)
    requires |lh| <= |log|
  {
    if k < |lh| then w == DiskWrite(lh[k], log[k])
    else w.block == g.start && GoodHeader(w.data) && Header(w.data) == []
  }

  ghost predicate RecoverList(g: Geometry, lh: seq<nat>, log: seq<Block>, ws: seq<DiskWrite>)
    requires |lh| <= |log|
  {
    |ws| == |lh| + 1 && forall k | 0 <= k < |ws| :: RecoverWriteOk(g, lh, log, k, ws[k])
  }

  lemma {:induction false} RecoverWritesOk(g: Geometry, blocks: seq<Block>, d: Disk)
    requires Abstracts(g, blocks, d) && GoodDisk(g, d)
    ensures RecoverList(g, d.head, d.log, RecoverWrites(g.start, g.size, blocks))
  {
    HeaderRoundTrip(blocks[g.start], []);
  }

  /** The machine state and the disk after the first k writes of a recovery. */
  ghost predicate RecoverAt(g: Geometry, init: Contents, s: Sys, k: nat, r: Sys, now: seq<Block>) {
    && Inv(g, init, r) && r.batches == s.batches && r.disk.log == s.disk.log && r.ops == s.ops && r.current == s.current
    && (if k <= |s.lh| then r.phase == Recovering(k) && r.lh == s.lh else r.phase == Serving)
    && Abstracts(g, now, r.disk)
  }

  lemma {:induction false} RecoverStart(g: Geometry, init: Contents, s: Sys, blocks: seq<Block>, ws: seq<DiskWrite>)
    requires Inv(g, init, s) && s.phase == Recovering(0) && Abstracts(g, blocks, s.disk)
    ensures |s.lh| <= |s.disk.log| && RecoverAt(g, init, s, 0, s, Apply(blocks, ws[..0]))
  {
  }

  lemma {:induction false} RecoverOneMore(g: Geometry, init: Contents, s: Sys, k: nat, r: Sys, now: seq<Block>,
                                          w: DiskWrite)
    requires k <= |s.lh| <= |s.disk.log| && RecoverAt(g, init, s, k, r, now)
             && RecoverWriteOk(g, s.lh, s.disk.log, k, w)
    ensures Requested(g, r, RecoverIO) && !Panics(g, r, RecoverIO) && Sized(g, r)
    ensures w.block < |now| && RecoverAt(g, init, s, k + 1, Step(g, r, RecoverIO), now[w.block := w.data])
  {
    WriteIsStep(g, r, now, w);
    StepInv(g, init, r, RecoverIO);
  }

  /** Every crash point among the writes of recovery leaves the disk of a state that a run of the machine reaches. */
  lemma {:induction false} RecoverCrashPoints(g: Geometry, init: Contents, s: Sys, blocks: seq<Block>,
                                              ws: seq<DiskWrite>, k: nat)
      returns (es: seq<Event>)
    requires Inv(g, init, s) && s.phase == Recovering(0) && Abstracts(g, blocks, s.disk)
    requires k <= |ws| && RecoverList(g, s.lh, s.disk.log, ws)
    ensures es == RecoverEvents(k) && Run(g, s, es)
    ensures RecoverAt(g, init, s, k, After(g, s, es), Apply(blocks, ws[..k]))
  {
    hide Apply, RecoverAt, RecoverWriteOk, Step, Requested, Panics, Inv;
    es := [];
    RecoverStart(g, init, s, blocks, ws);
    if k > 0 {
      var fs := RecoverCrashPoints(g, init, s, blocks, ws, k - 1);
      RecoverOneMore(g, init, s, k - 1, After(g, s, fs), Apply(blocks, ws[..k - 1]), ws[k - 1]);
      ApplyPrefix(blocks, ws, k);
      RunSnoc(g, s, fs, RecoverIO);
      es := fs + [RecoverIO];
    }
  }

  /**
  Recovery of any disk on which the machine can crash, interrupted by a further crash after j of its
  writes and then run to completion, leaves exactly the committed contents outside the log area.
  */
  lemma {:induction false} RecoveryEndsCommitted(g: Geometry, init: Contents, s: Sys, blocks: seq<Block>, j: nat)
    requires Inv(g, init, s) && Abstracts(g, blocks, s.disk) && j <= |s.disk.head| + 1
    ensures GoodHeader(blocks[g.start]) && |RecoverWrites(g.start, g.size, blocks)| == |s.disk.head| + 1
    ensures var again := Apply(blocks, RecoverWrites(g.start, g.size, blocks)[..j]);
            && GoodHeader(again[g.start]) && |Header(again[g.start])| <= g.size - 1
            && var done := Apply(again, RecoverWrites(g.start, g.size, again));
               forall b: nat | Home(g, b) :: done[b] == ApplyBatches(init, s.batches)[b]
  {
    var s1 := Step(g, s, Crash);
    StepInv(g, init, s, Crash);
    RecoverWritesOk(g, blocks, s1.disk);
    var es := RecoverCrashPoints(g, init, s1, blocks, RecoverWrites(g.start, g.size, blocks), j);
    var again := Apply(blocks, RecoverWrites(g.start, g.size, blocks)[..j]);
    RecoveryCompletesOnDisk(g, init, After(g, s1, es), again);
  }

  lemma {:induction false} RecoveryCompletesOnDisk(g: Geometry, init: Contents, s: Sys, blocks: seq<Block>)
    requires Inv(g, init, s) && Abstracts(g, blocks, s.disk)
    ensures RecoversTo(g, blocks, ApplyBatches(init, s.batches))
  {
    RecoverWritesOk(g, blocks, s.disk);
    RecoveryListCompletes(g, init, s, blocks, RecoverWrites(g.start, g.size, blocks));
  }

  lemma {:induction false} RecoveryListCompletes(g: Geometry, init: Contents, s: Sys, blocks: seq<Block>,
                                                 ws: seq<DiskWrite>)
    requires Inv(g, init, s) && Abstracts(g, blocks, s.disk) && RecoverList(g, s.disk.head, s.disk.log, ws)
    ensures forall b: nat | Home(g, b) :: Apply(blocks, ws)[b] == ApplyBatches(init, s.batches)[b]
  {
    var s1 := Step(g, s, Crash);
    StepInv(g, init, s, Crash);
    var es := RecoverCrashPoints(g, init, s1, blocks, ws, |ws|);
    assert ws[..|ws|] == ws;
  }

  lemma {:induction false} RecoversSame(g: Geometry, now: seq<Block>, want: seq<Block>, want': seq<Block>)
    requires RecoversTo(g, now, want) && |want'| == |want| && forall b: nat | Home(g, b) :: want'[b] == want[b]
    ensures RecoversTo(g, now, want')
  {
  }

  /** What is committed after k writes of a commit: nothing new up to the header write, all of it from there on. */
  lemma {:induction false} CommitContents(g: Geometry, init: Contents, s: Sys, blocks: seq<Block>, last: seq<Block>,
                                          k: nat, r: Sys, now: seq<Block>)
    requires Inv(g, init, s) && s.phase == WritingLog(0) && Abstracts(g, blocks, s.disk) && |last| == g.nblocks
    requires forall b: nat | Home(g, b) :: last[b] == s.view[b]
    requires CommitAt(g, init, s, k, r, now)
    ensures Inv(g, init, r) && Abstracts(g, now, r.disk) && |blocks| == g.nblocks == |ApplyBatches(init, r.batches)|
    ensures forall b: nat | Home(g, b) :: (if k <= |s.lh| then blocks else last)[b] == ApplyBatches(init, r.batches)[b]
  {
    BatchSnoc(init, s.batches, s.current);
  }

  /**
  Commit is atomic on the disk: crash after any k of its writes, recover, and the blocks outside the
  log area are all old (k up to the header write) or all new (from the header write on).
  */
  lemma {:induction false} CommitIsAtomic(g: Geometry, init: Contents, s: Sys, blocks: seq<Block>, last: seq<Block>,
                                          k: nat)
    requires Inv(g, init, s) && s.phase == WritingLog(0) && s.lh != [] && Abstracts(g, blocks, s.disk)
    requires |last| == g.nblocks && k <= 2 * |s.lh| + 2
    requires forall b: nat | Home(g, b) :: last[b] == s.view[b]
    ensures RecoversTo(g, Apply(blocks, CommitWrites(g.start, s.lh, last)[..k]), if k <= |s.lh| then blocks else last)
  {
    CommitIsList(g, s.lh, last);
    var ws := CommitWrites(g.start, s.lh, last);
    hide Inv, Abstracts, Apply, RecoversTo, CommitAt, CommitList, CommitWrites;
    var es := CommitCrashPoints(g, init, s, blocks, last, ws, k);
    var r, now := After(g, s, es), Apply(blocks, ws[..k]);
    CommitContents(g, init, s, blocks, last, k, r, now);
    RecoveryCompletesOnDisk(g, init, r, now);
    RecoversSame(g, now, ApplyBatches(init, r.batches), if k <= |s.lh| then blocks else last);
  }
}
