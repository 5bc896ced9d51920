/**
The buffer cache of bio.c over the one-step disk of memide.c.

The buffers form a doubly linked ring through next and prev, with index HEAD for bcache.head.
Ghost fields say what the pointers and flags stand for: `ring` is the list order, most recently
used first; `last` is the latest contents given to bwrite or log_write for each block; `writes`
records the disk writes in order, so that a crash can be placed between any two of them.
*/
module Bio {
  import opened Blocks
  import opened Options
  import opened Params

  const HEAD := 30

  datatype Buf = Buf(valid: bool, dirty: bool, dev: nat, blockno: nat, locked: bool, refcnt: nat, data: Block)

  datatype BreadResult = Full | Busy(i: nat) | Got(i: nat)

  datatype DiskWrite = DiskWrite(block: nat, data: Block)

  // ---------- The ring ----------

  function At(ring: seq<nat>, k: int): (b: nat) {
    if 0 <= k < |ring| then ring[k] else HEAD
  }

  /** next and prev link HEAD and the buffers of `ring`, in that order, into a circle. */
  ghost predicate Linked(next: seq<nat>, prev: seq<nat>, ring: seq<nat>) {
    && |next| == |prev| == NBUF + 1
    && (forall k | 0 <= k < |ring| :: ring[k] < NBUF)
    && (forall j, k | 0 <= j < k < |ring| :: ring[j] != ring[k])
    && next[HEAD] == At(ring, 0) && prev[HEAD] == At(ring, |ring| - 1)
    && (forall k {:trigger LinkAt(next, prev, ring, k)} | 0 <= k < |ring| :: LinkAt(next, prev, ring, k))
  }

  ghost predicate LinkAt(next: seq<nat>, prev: seq<nat>, ring: seq<nat>, k: nat)
    requires k < |ring| && ring[k] < |next| && ring[k] < |prev|
  {
    next[ring[k]] == At(ring, k + 1) && prev[ring[k]] == At(ring, k - 1)
  }

  function Without(ring: seq<nat>, k: nat): (r: seq<nat>)
    requires k < |ring|
  {
    ring[..k] + ring[k + 1..]
  }

  lemma {:induction false} WithoutElements(ring: seq<nat>, k: nat)
    requires k < |ring| && forall i, j | 0 <= i < j < |ring| :: ring[i] != ring[j]
    ensures var r := Without(ring, k);
            && (forall i, j | 0 <= i < j < |r| :: r[i] != r[j])
            && (forall x :: x in r <==> x in ring && x != ring[k])
  {
    var r := Without(ring, k);
    assert ring == ring[..k] + [ring[k]] + ring[k + 1..];
    forall i | 0 <= i < |r| ensures r[i] in ring && r[i] != ring[k] {
      assert r[i] == ring[if i < k then i else i + 1];
    }
    forall i, j | 0 <= i < j < |r| ensures r[i] != r[j] {
      assert ring[if i < k then i else i + 1] != ring[if j < k then j else j + 1];
    }
  }

  lemma {:induction false} PushFront(next: seq<nat>, prev: seq<nat>, ring: seq<nat>, b: nat)
    requires Linked(next, prev, ring) && b < NBUF && b !in ring
    ensures var n1 := next[b := next[HEAD]]; var p1 := prev[b := HEAD];
            Linked(n1[HEAD := b], p1[n1[HEAD] := b], [b] + ring)
  {
    hide LinkAt;
    var n1 := next[b := next[HEAD]];
    var p1 := prev[b := HEAD];
    var n2, p2, r := n1[HEAD := b], p1[n1[HEAD] := b], [b] + ring;
    forall k | 0 <= k < |r| ensures r[k] < NBUF && LinkAt(n2, p2, r, k) {
      PushAt(next, prev, ring, b, n2, p2, r, k);
    }
    forall j, k | 0 <= j < k < |r| ensures r[j] != r[k] {
      assert r[k] == ring[k - 1];
    }
  }

  lemma {:induction false} PushAt(next: seq<nat>, prev: seq<nat>, ring: seq<nat>, b: nat,
                                  next': seq<nat>, prev': seq<nat>, ring': seq<nat>, k: nat)
    requires Linked(next, prev, ring) && b < NBUF && b !in ring && ring' == [b] + ring && k < |ring'|
    requires next' == next[b := At(ring, 0)][HEAD := b] && prev' == prev[b := HEAD][At(ring, 0) := b]
    ensures ring'[k] < NBUF && LinkAt(next', prev', ring', k)
  {
    if k > 0 {
      assert ring'[k] == ring[k - 1] && LinkAt(next, prev, ring, k - 1);
      if k > 1 { assert ring[k - 1] != ring[0]; }
    }
  }

  /** The pointers after the node at position k has been taken out. */
  function NextWithout(next: seq<nat>, ring: seq<nat>, k: nat): (r: seq<nat>)
    requires k < |ring| && At(ring, k - 1) < |next|
  {
    next[At(ring, k - 1) := At(ring, k + 1)]
  }

  function PrevWithout(prev: seq<nat>, ring: seq<nat>, k: nat): (r: seq<nat>)
    requires k < |ring| && At(ring, k + 1) < |prev|
  {
    prev[At(ring, k + 1) := At(ring, k - 1)]
  }

  lemma {:induction false} Unlink(next: seq<nat>, prev: seq<nat>, ring: seq<nat>, k: nat)
    requires Linked(next, prev, ring) && k < |ring|
    ensures prev[ring[k]] == At(ring, k - 1) && next[ring[k]] == At(ring, k + 1)
    ensures Linked(NextWithout(next, ring, k), PrevWithout(prev, ring, k), Without(ring, k))
    ensures forall x :: x in Without(ring, k) <==> x in ring && x != ring[k]
  {
    hide LinkAt, Without, NextWithout, PrevWithout, At;
    WithoutElements(ring, k);
    UnlinkHead(next, prev, ring, k);
    UnlinkSizes(next, prev, ring, k);
    forall j | 0 <= j < |Without(ring, k)|
      ensures Without(ring, k)[j] < NBUF
      ensures LinkAt(NextWithout(next, ring, k), PrevWithout(prev, ring, k), Without(ring, k), j)
    {
      UnlinkAt(next, prev, ring, k, j);
    }
  }

  lemma {:induction false} UnlinkSizes(next: seq<nat>, prev: seq<nat>, ring: seq<nat>, k: nat)
    requires Linked(next, prev, ring) && k < |ring|
    ensures At(ring, k - 1) <= NBUF && At(ring, k + 1) <= NBUF
    ensures |NextWithout(next, ring, k)| == |PrevWithout(prev, ring, k)| == NBUF + 1 && |Without(ring, k)| == |ring| - 1
  {
  }

  lemma {:induction false} UnlinkHead(next: seq<nat>, prev: seq<nat>, ring: seq<nat>, k: nat)
    requires Linked(next, prev, ring) && k < |ring|
    ensures prev[ring[k]] == At(ring, k - 1) && next[ring[k]] == At(ring, k + 1)
    ensures NextWithout(next, ring, k)[HEAD] == At(Without(ring, k), 0)
    ensures PrevWithout(prev, ring, k)[HEAD] == At(Without(ring, k), |ring| - 2)
  {
    assert LinkAt(next, prev, ring, k);
    AtWithout(ring, k, 0);
    AtWithout(ring, k, |ring| - 2);
  }

  lemma {:induction false} AtWithout(ring: seq<nat>, k: nat, j: int)
    requires k < |ring| && -1 <= j
    ensures At(Without(ring, k), j) == At(ring, if j < k then j else j + 1)
  {
  }

  lemma {:induction false} UnlinkAt(next: seq<nat>, prev: seq<nat>, ring: seq<nat>, k: nat, j: nat)
    requires Linked(next, prev, ring) && k < |ring| && j < |Without(ring, k)|
    ensures Without(ring, k)[j] < NBUF
    ensures LinkAt(NextWithout(next, ring, k), PrevWithout(prev, ring, k), Without(ring, k), j)
  {
    var i := if j < k then j else j + 1;
    assert LinkAt(next, prev, ring, i);
    AtWithout(ring, k, j + 1);
    AtWithout(ring, k, j - 1);
    assert k > 0 ==> (ring[i] == ring[k - 1] <==> i == k - 1);
    assert k + 1 < |ring| ==> (ring[i] == ring[k + 1] <==> i == k + 1);
  }

  // ---------- The cache ----------

  predicate Holds(b: Buf, blockno: nat) {
    b.dev == ROOTDEV && b.blockno == blockno
  }

  predicate Recyclable(b: Buf) {
    b.refcnt == 0 && !b.dirty
  }

  /** At most one buffer per block of the disk. */
  ghost predicate OneBufferPerBlock(buf: seq<Buf>) {
    forall i, j | 0 <= i < j < |buf| && buf[i].dev == ROOTDEV :: !Holds(buf[j], buf[i].blockno)
  }

  ghost predicate BufOk(b: Buf, last: seq<Block>) {
    && (b.locked ==> b.refcnt > 0)
    && (b.dirty ==> b.valid && b.dev == ROOTDEV)
    && (b.dev == ROOTDEV ==> b.blockno < |last|)
    && (b.valid && b.dev == ROOTDEV && !b.locked ==> b.data == last[b.blockno])
  }

  /** The blocks pinned in the cache: those with a B_DIRTY buffer. */
  ghost function Pins(buf: seq<Buf>): (p: set<nat>) {
    set i | 0 <= i < |buf| && buf[i].dirty :: buf[i].blockno
  }

  class BufferCache {
    var buf: seq<Buf>
    var next: seq<nat>
    var prev: seq<nat>
    var disk: seq<Block>
    ghost var ring: seq<nat>
    ghost var last: seq<Block>
    ghost var writes: seq<DiskWrite>

    ghost predicate Valid()
      reads this
    {
      && |buf| == NBUF && Linked(next, prev, ring)
      && (forall i | 0 <= i < NBUF :: i in ring)
      && |last| == |disk|
      && OneBufferPerBlock(buf)
      && (forall i | 0 <= i < NBUF :: BufOk(buf[i], last))
      && (forall b | 0 <= b < |disk| && disk[b] != last[b] :: b in Pins(buf))
    }

    /** binit, on zeroed memory, over the disk contents found at boot. */
    constructor (d: seq<Block>)
      ensures Valid() && disk == d && last == d && writes == []
      ensures forall i | 0 <= i < NBUF :: buf[i].dev != ROOTDEV && buf[i].refcnt == 0 && !buf[i].dirty
      ensures |ring| == NBUF && forall k | 0 <= k < NBUF :: ring[k] == NBUF - 1 - k
    {
      buf := seq(NBUF, _ => Buf(false, false, 0, 0, false, 0, ZeroBlock()));
      disk, last, writes := d, d, [];
      next, prev := seq(NBUF + 1, _ => HEAD), seq(NBUF + 1, _ => HEAD);
      ring := [];
      new;
      var b := 0;
      while b < NBUF
        invariant 0 <= b <= NBUF && Linked(next, prev, ring)
        invariant forall i | 0 <= i < NBUF :: i in ring <==> i < b
        invariant |ring| == b && forall k | 0 <= k < b :: ring[k] == b - 1 - k
        invariant buf == seq(NBUF, _ => Buf(false, false, 0, 0, false, 0, ZeroBlock()))
        invariant disk == d && last == d && writes == []
      {
        PushFront(next, prev, ring, b);
        next := next[b := next[HEAD]];
        prev := prev[b := HEAD];
        prev := prev[next[HEAD] := b];
        next := next[HEAD := b];
        ring := [b] + ring;
        b := b + 1;
      }
    }

    /** bget's first loop: is the block already cached? */
    method FindCached(blockno: nat) returns (r: Option<nat>)
      requires Valid()
      ensures r.Some? ==> r.value < NBUF && Holds(buf[r.value], blockno)
      ensures r.None? ==> forall i | 0 <= i < NBUF :: !Holds(buf[i], blockno)
    {
      var b := next[HEAD];
      ghost var k := 0;
      while b != HEAD
        invariant 0 <= k <= |ring| && b == At(ring, k)
        invariant forall j | 0 <= j < k :: !Holds(buf[ring[j]], blockno)
        decreases |ring| - k
      {
        if buf[b].dev == ROOTDEV && buf[b].blockno == blockno {
          return Some(b);
        }
        assert LinkAt(next, prev, ring, k);
        b := next[b];
        k := k + 1;
      }
      forall i | 0 <= i < NBUF ensures !Holds(buf[i], blockno) {
        assert i in ring;
      }
      return None;
    }

    /** bget's second loop: the least recently used buffer that is neither referenced nor dirty. */
    method FindRecyclable() returns (r: Option<nat>)
      requires Valid()
      ensures r.Some? ==> r.value < NBUF && Recyclable(buf[r.value])
      ensures r.Some? ==> exists k | 0 <= k < |ring| ::
                ring[k] == r.value && forall j | k < j < |ring| :: !Recyclable(buf[ring[j]])
      ensures r.None? ==> forall i | 0 <= i < NBUF :: !Recyclable(buf[i])
    {
      var b := prev[HEAD];
      ghost var k := |ring| - 1;
      while b != HEAD
        invariant -1 <= k < |ring| && b == At(ring, k)
        invariant forall j | k < j < |ring| :: !Recyclable(buf[ring[j]])
        decreases k
      {
        if buf[b].refcnt == 0 && !buf[b].dirty {
          return Some(b);
        }
        assert LinkAt(next, prev, ring, k);
        b := prev[b];
        k := k - 1;
      }
      forall i | 0 <= i < NBUF ensures !Recyclable(buf[i]) {
        assert i in ring;
      }
      return None;
    }

    /** What bget leaves in the buffer it returns: one more reference, or a recycled, invalid buffer. */
    static function Referenced(b: Buf, blockno: nat): (r: Buf) {
      if Holds(b, blockno) then b.(refcnt := b.refcnt + 1)
      else b.(dev := ROOTDEV, blockno := blockno, valid := false, dirty := false, refcnt := 1)
    }

    /** bget up to the point where it holds a reference. */
    method Bget(blockno: nat) returns (r: Option<nat>)
      requires Valid() && blockno < |disk|
      modifies this`buf
      ensures Valid() && Pins(buf) == Pins(old(buf))
      ensures r.Some? ==> r.value < NBUF && buf == old(buf)[r.value := Referenced(old(buf[r.value]), blockno)]
      ensures r.Some? && !Holds(old(buf[r.value]), blockno) ==>
                Recyclable(old(buf[r.value])) && forall i | 0 <= i < NBUF :: !Holds(old(buf[i]), blockno)
      ensures r.Some? ==> buf[r.value].dev == ROOTDEV && buf[r.value].blockno == blockno
      ensures r.Some? && Holds(old(buf[r.value]), blockno) ==>
                buf[r.value] == old(buf[r.value]).(refcnt := old(buf[r.value]).refcnt + 1)
      ensures r.Some? && !Holds(old(buf[r.value]), blockno) ==>
                && buf[r.value].refcnt == 1 && !buf[r.value].valid && !buf[r.value].dirty
                && buf[r.value].locked == old(buf[r.value]).locked
                && exists k | 0 <= k < |ring| ::
                     ring[k] == r.value && forall j | k < j < |ring| :: !Recyclable(old(buf)[ring[j]])
      ensures r.None? ==> buf == old(buf)
      ensures r.None? <==> forall i | 0 <= i < NBUF :: !Holds(old(buf[i]), blockno) && !Recyclable(old(buf[i]))
    {
      r := FindCached(blockno);
      if r.None? {
        r := FindRecyclable();
      }
      if r.Some? {
        buf := buf[r.value := Referenced(buf[r.value], blockno)];
        assert BufOk(old(buf)[r.value], last);
        SameFlags(old(buf), r.value, buf[r.value]);
      }
    }

    /** acquiresleep on a buffer that nobody holds; a held one makes the caller sleep until released. */
    method Lock(i: nat)
      requires Valid() && i < NBUF && buf[i].refcnt > 0 && !buf[i].locked
      modifies this`buf
      ensures Valid() && Pins(buf) == Pins(old(buf))
      ensures buf == old(buf)[i := old(buf[i]).(locked := true)]
    {
      buf := buf[i := buf[i].(locked := true)];
      SameFlags(old(buf), i, buf[i]);
    }

    /** iderw of memide.c: write a dirty buffer, read an invalid one. */
    method Iderw(i: nat)
      requires Valid() && i < NBUF && buf[i].locked && !(buf[i].valid && !buf[i].dirty) && buf[i].dev == ROOTDEV
      modifies this
      ensures Valid() && next == old(next) && prev == old(prev) && ring == old(ring)
      ensures Pins(buf) == if old(buf[i].dirty) then Pins(old(buf)) - {buf[i].blockno} else Pins(old(buf))
      ensures var b := old(buf[i]);
              if b.dirty
              then && buf == old(buf)[i := b.(dirty := false)]
                   && disk == old(disk)[b.blockno := b.data] && last == old(last)[b.blockno := b.data]
                   && writes == old(writes) + [DiskWrite(b.blockno, b.data)]
              else && buf == old(buf)[i := b.(valid := true, data := old(disk)[b.blockno])]
                   && disk == old(disk) && last == old(last) && writes == old(writes)
    {
      var b := buf[i];
      assert forall j | 0 <= j < NBUF :: BufOk(buf[j], last);
      if b.dirty {
        buf := buf[i := b.(dirty := false)];
        disk := disk[b.blockno := b.data];
        last := last[b.blockno := b.data];
        writes := writes + [DiskWrite(b.blockno, b.data)];
        UnpinOne(old(buf), i);
      } else {
        buf := buf[i := b.(valid := true, data := disk[b.blockno])];
        SameFlags(old(buf), i, buf[i]);
      }
    }

    /**
    bread: the buffer returned has the last contents written.  Full is bget's panic; Busy is a caller put
    to sleep, with its reference counted, until the holder lets the buffer go.
    */
    method Bread(blockno: nat) returns (r: BreadResult)
      requires Valid() && blockno < |disk|
      modifies this
      ensures Valid() && next == old(next) && prev == old(prev) && ring == old(ring)
      ensures disk == old(disk) && last == old(last) && writes == old(writes) && Pins(buf) == Pins(old(buf))
      ensures r.Full? <==> forall i | 0 <= i < NBUF :: !Holds(old(buf[i]), blockno) && !Recyclable(old(buf[i]))
      ensures r.Full? ==> buf == old(buf)
      ensures r.Busy? <==> exists i | 0 <= i < NBUF :: Holds(old(buf[i]), blockno) && old(buf[i].locked)
      ensures r.Busy? ==> r.i < NBUF && Holds(old(buf[r.i]), blockno) && old(buf[r.i].locked)
                          && buf == old(buf)[r.i := Referenced(old(buf[r.i]), blockno)]
      ensures r.Got? ==>
                && r.i < NBUF && (Holds(old(buf[r.i]), blockno) || Recyclable(old(buf[r.i])))
                && buf == old(buf)[r.i := Filled(Referenced(old(buf[r.i]), blockno), last[blockno])]
                && buf[r.i].dev == ROOTDEV && buf[r.i].blockno == blockno && buf[r.i].data == last[blockno]
                && buf[r.i].valid && buf[r.i].locked
                && buf[r.i].refcnt == (if Holds(old(buf[r.i]), blockno) then old(buf[r.i]).refcnt + 1 else 1)
                && buf[r.i].dirty == (Holds(old(buf[r.i]), blockno) && old(buf[r.i]).dirty)
      ensures r.Got? && !Holds(old(buf[r.i]), blockno) ==>
                exists k | 0 <= k < |ring| ::
                  ring[k] == r.i && forall j | k < j < |ring| :: !Recyclable(old(buf)[ring[j]])
    {
      hide Linked, Pins, At;
      var o := Bget(blockno);
      if o.None? {
        return Full;
      }
      var i := o.value;
      assert BufOk(old(buf)[i], last);
      OnlyCopy(old(buf), i, blockno);
      if buf[i].locked {
        return Busy(i);
      }
      Lock(i);
      if !buf[i].valid {
        CleanIsOnDisk(i);
        Iderw(i);
      }
      return Got(i);
    }

    static function Filled(b: Buf, data: Block): (r: Buf) { b.(valid := true, locked := true, data := data) }

    /** The block of a buffer that is not dirty is up to date on the disk. */
    lemma {:induction false} CleanIsOnDisk(i: nat)
      requires Valid() && i < NBUF && buf[i].dev == ROOTDEV && !buf[i].dirty
      ensures BufOk(buf[i], last) && disk[buf[i].blockno] == last[buf[i].blockno]
    {
      assert BufOk(buf[i], last);
      var n := buf[i].blockno;
      if disk[n] != last[n] {
        assert n in Pins(buf);
        var j :| 0 <= j < NBUF && buf[j].dirty && buf[j].blockno == n;
        assert BufOk(buf[j], last);
        SameBuffer(buf, i, j);
      }
    }

    /** The holder of a locked buffer changes its data. */
    method Modify(i: nat, data: Block)
      requires Valid() && i < NBUF && buf[i].locked && buf[i].valid
      modifies this`buf
      ensures Valid() && Pins(buf) == Pins(old(buf))
      ensures buf == old(buf)[i := old(buf[i]).(data := data)]
    {
      buf := buf[i := buf[i].(data := data)];
      SameFlags(old(buf), i, buf[i]);
    }

    /** bwrite. */
    method Bwrite(i: nat)
      requires Valid() && i < NBUF && buf[i].locked && buf[i].valid && buf[i].dev == ROOTDEV
      modifies this
      ensures Valid() && next == old(next) && prev == old(prev) && ring == old(ring)
      ensures Pins(buf) == Pins(old(buf)) - {buf[i].blockno}
      ensures var b := old(buf[i]);
              && buf == old(buf)[i := b.(dirty := false)]
              && disk == old(disk)[b.blockno := b.data] && last == old(last)[b.blockno := b.data]
              && writes == old(writes) + [DiskWrite(b.blockno, b.data)]
    {
      assert BufOk(buf[i], last);
      PinOne(buf, i);
      buf := buf[i := buf[i].(dirty := true)];
      Iderw(i);
    }

    /** What log_write does to the buffer: pin it with B_DIRTY, making its contents the block's latest. */
    method Pin(i: nat)
      requires Valid() && i < NBUF && buf[i].locked && buf[i].valid && buf[i].dev == ROOTDEV
      modifies this`buf, this`last
      ensures Valid() && Pins(buf) == Pins(old(buf)) + {buf[i].blockno}
      ensures buf == old(buf)[i := old(buf[i]).(dirty := true)]
      ensures last == old(last)[buf[i].blockno := buf[i].data]
    {
      assert BufOk(buf[i], last);
      PinOne(buf, i);
      buf := buf[i := buf[i].(dirty := true)];
      last := last[buf[i].blockno := buf[i].data];
    }

    /** brelse, by a holder that has logged or written its changes: the buffer becomes the most recently used. */
    method Brelse(i: nat)
      requires Valid() && i < NBUF && buf[i].locked && buf[i].valid && buf[i].dev == ROOTDEV
      requires buf[i].data == last[buf[i].blockno]
      modifies this`buf, this`next, this`prev, this`ring
      ensures Valid() && Pins(buf) == Pins(old(buf))
      ensures buf == old(buf)[i := old(buf[i]).(locked := false, refcnt := old(buf[i].refcnt) - 1)]
      ensures if buf[i].refcnt > 0 then ring == old(ring)
              else exists k | 0 <= k < |old(ring)| ::
                     old(ring)[k] == i && ring == [i] + (old(ring)[..k] + old(ring)[k + 1..])
    {
      assert BufOk(buf[i], last);
      buf := buf[i := buf[i].(locked := false, refcnt := buf[i].refcnt - 1)];
      SameFlags(old(buf), i, buf[i]);
      if buf[i].refcnt == 0 {
        MoveToFront(i);
      }
    }

    /** The pointer surgery of brelse: unlink buffer i and put it behind HEAD. */
    method MoveToFront(i: nat)
      requires Linked(next, prev, ring) && i in ring
      modifies this`next, this`prev, this`ring
      ensures Linked(next, prev, ring)
      ensures exists k | 0 <= k < |old(ring)| :: old(ring)[k] == i && ring == [i] + Without(old(ring), k)
      ensures forall x :: x in ring <==> x in old(ring)
    {
      ghost var k :| 0 <= k < |ring| && ring[k] == i;
      Unlink(next, prev, ring, k);
      prev := prev[next[i] := prev[i]];
      next := next[prev[i] := next[i]];
      PushFront(next, prev, Without(ring, k), i);
      next := next[i := next[HEAD]];
      prev := prev[i := HEAD];
      prev := prev[next[HEAD] := i];
      next := next[HEAD := i];
      ring := [i] + Without(ring, k);
    }
  }

  /** The buffer bget chose is the only one that can hold the block. */
  lemma {:induction false} OnlyCopy(buf: seq<Buf>, i: nat, n: nat)
    requires OneBufferPerBlock(buf) && i < |buf|
    requires Holds(buf[i], n) || (Recyclable(buf[i]) && forall j | 0 <= j < |buf| :: !Holds(buf[j], n))
    ensures forall j | 0 <= j < |buf| && Holds(buf[j], n) :: j == i
  {
    forall j: nat | j < |buf| && Holds(buf[j], n) ensures j == i {
      SameBuffer(buf, i, j);
    }
  }

  lemma {:induction false} SameBuffer(buf: seq<Buf>, i: nat, j: nat)
    requires OneBufferPerBlock(buf) && i < |buf| && j < |buf|
    requires buf[i].dev == ROOTDEV && Holds(buf[j], buf[i].blockno)
    ensures i == j
  {
  }

  /** A change to one buffer that keeps its dirty flag keeps the pins. */
  lemma {:induction false} SameFlags(buf: seq<Buf>, b: nat, x: Buf)
    requires b < |buf| && x.dirty == buf[b].dirty && (x.dirty ==> x.blockno == buf[b].blockno)
    ensures Pins(buf[b := x]) == Pins(buf)
  {
    var r := buf[b := x];
    forall n | n in Pins(buf) ensures n in Pins(r) {
      var i :| 0 <= i < |buf| && buf[i].dirty && buf[i].blockno == n;
      assert r[i].dirty && r[i].blockno == n;
    }
  }

  lemma {:induction false} PinOne(buf: seq<Buf>, b: nat)
    requires b < |buf|
    ensures Pins(buf[b := buf[b].(dirty := true)]) == Pins(buf) + {buf[b].blockno}
  {
    var r := buf[b := buf[b].(dirty := true)];
    assert r[b].dirty && r[b].blockno == buf[b].blockno;
    forall n | n in Pins(buf) ensures n in Pins(r) {
      var i :| 0 <= i < |buf| && buf[i].dirty && buf[i].blockno == n;
      assert r[i].dirty && r[i].blockno == n;
    }
  }

  lemma {:induction false} UnpinOne(buf: seq<Buf>, b: nat)
    requires b < |buf| && OneBufferPerBlock(buf) && buf[b].dev == ROOTDEV
    requires forall i | 0 <= i < |buf| && buf[i].dirty :: buf[i].dev == ROOTDEV
    ensures Pins(buf[b := buf[b].(dirty := false)]) == Pins(buf) - {buf[b].blockno}
  {
    var r := buf[b := buf[b].(dirty := false)];
    forall n | n in Pins(buf) && n != buf[b].blockno ensures n in Pins(r) {
      var i :| 0 <= i < |buf| && buf[i].dirty && buf[i].blockno == n;
      assert r[i].dirty && r[i].blockno == n;
    }
    forall i | 0 <= i < |buf| && r[i].dirty ensures r[i].blockno != buf[b].blockno {
      assert i != b && (Holds(buf[i], buf[b].blockno) || r[i].blockno != buf[b].blockno);
    }
  }

  /** Distinct dirty buffers pin distinct blocks. */
  lemma {:induction false} AllDirty(buf: seq<Buf>, k: nat)
    requires k <= |buf| && OneBufferPerBlock(buf)
    requires forall i | 0 <= i < k :: buf[i].dirty && buf[i].dev == ROOTDEV
    ensures |Pins(buf[..k])| == k
  {
    if k > 0 {
      AllDirty(buf, k - 1);
      var n := buf[k - 1].blockno;
      assert buf[..k] == buf[..k - 1] + [buf[k - 1]];
      forall x | x in Pins(buf[..k]) ensures x in Pins(buf[..k - 1]) + {n} {
        var i :| 0 <= i < k && buf[..k][i].dirty && buf[..k][i].blockno == x;
        if i < k - 1 { assert buf[..k - 1][i] == buf[..k][i]; }
      }
      forall x | x in Pins(buf[..k - 1]) ensures x in Pins(buf[..k]) && x != n {
        var i :| 0 <= i < k - 1 && buf[..k - 1][i].dirty && buf[..k - 1][i].blockno == x;
        assert buf[..k][i] == buf[..k - 1][i] == buf[i];
        if x == n { SameBuffer(buf, i, k - 1); }
      }
      assert buf[..k][k - 1].dirty && n in Pins(buf[..k]);
      assert Pins(buf[..k]) == Pins(buf[..k - 1]) + {n} && n !in Pins(buf[..k - 1]);
    }
  }
}
