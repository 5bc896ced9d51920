/**
The K&R allocator of umalloc.c, over addresses counted in header-sized units of 8 bytes.  The free
list is circular through `ptr`; `base` is the empty block that starts it, below the whole heap.
`owner` gives, for every unit ever obtained from sbrk, the header of the block it is in.
*/
module Heap {
  import opened Options

  const UNIT: nat := 8
  const NALLOC: nat := 4096

  /** malloc's nunits, with its 32-bit addition. */
  function Units(nbytes: nat): (n: nat) { (nbytes + UNIT - 1) % 0x1_0000_0000 / UNIT + 1 }

  /** A block of Units(nbytes) units, less its header, holds nbytes bytes exactly when the addition does not wrap. */
  lemma {:induction false} LargeEnoughIff(nbytes: nat)
    requires nbytes < 0x1_0000_0000
    ensures (Units(nbytes) - 1) * UNIT >= nbytes <==> nbytes <= 0x1_0000_0000 - UNIT
  {
    assert nbytes <= 0x1_0000_0000 - UNIT ==> (nbytes + UNIT - 1) % 0x1_0000_0000 == nbytes + UNIT - 1;
    assert nbytes > 0x1_0000_0000 - UNIT ==> (nbytes + UNIT - 1) % 0x1_0000_0000 == nbytes + UNIT - 1 - 0x1_0000_0000;
  }

  /** The last request of all gets a bare header. */
  lemma {:induction false} WrappedRequest()
    ensures Units(0xFFFF_FFFF) == 1
  {
    assert (0xFFFF_FFFF + UNIT - 1) % 0x1_0000_0000 == 6;
  }

  /** morecore's argument to sbrk as the int it becomes. */
  function SbrkArgument(nu: nat): (n: int) {
    var b := (if nu < NALLOC then NALLOC else nu) * UNIT % 0x1_0000_0000;
    if b < 0x8000_0000 then b else b - 0x1_0000_0000
  }

  /** sbrk is asked to grow the process by the block's size exactly when that fits an int. */
  lemma {:induction false} SbrkGrowsIff(nu: nat)
    requires nu <= 0x2000_0000
    ensures SbrkArgument(nu) == (if nu < NALLOC then NALLOC else nu) * UNIT <==> nu < 0x1000_0000
  {
  }

  /** A request of just under 2 GB: sbrk is asked to shrink the process. */
  lemma {:induction false} NegativeRequest()
    ensures Units(0x7FFF_FFF8) == 0x1000_0000 && SbrkArgument(0x1000_0000) == -0x8000_0000
  {
  }

  // ---------- The state and its invariant ----------

  /** free holds the headers on the free list, base among them; live those of the blocks handed out. */
  datatype State = State(ptr: map<nat, nat>, size: map<nat, nat>, free: set<nat>, live: set<nat>, owner: map<nat, nat>)

  function Size(s: State, h: nat): (n: nat) { if h in s.size then s.size[h] else 0 }

  function End(s: State, h: nat): (e: nat) { h + Size(s, h) }

  ghost predicate IsBlock(s: State, h: nat) { h in s.free || h in s.live }

  /** Free blocks never touch, except that those in `weak` may touch the next one. */
  ghost predicate Apart(s: State, weak: set<nat>) {
    forall p, q | p in s.free && q in s.free && p < q :: End(s, p) < q || (p in weak && End(s, p) == q)
  }

  /** p's successor is the next free block up, or base from the last one. */
  ghost predicate LinkAt(s: State, base: nat, p: nat) {
    && p in s.ptr && s.ptr[p] in s.free && (p < s.ptr[p] || s.ptr[p] == base)
    && (forall q | q in s.free && p < q :: p < s.ptr[p] <= q)
  }

  /** The list is circular and in address order with one wrap. */
  ghost predicate Linked(s: State, base: nat) {
    forall p {:trigger LinkAt(s, base, p)} | p in s.free :: LinkAt(s, base, p)
  }

  /** Every unit is in exactly one block, free or live, and blocks hold nothing but such units. */
  ghost predicate Covered(s: State) {
    && (forall u: nat | u in s.owner :: InBlock(s, s.owner[u], u))
    && (forall h: nat, u: nat | InBlock(s, h, u) :: u in s.owner && s.owner[u] == h)
  }

  /** Unit u lies in block h. */
  ghost predicate InBlock(s: State, h: nat, u: nat) { IsBlock(s, h) && h <= u < End(s, h) }

  ghost predicate Ok(base: nat, brk: nat, s: State, weak: set<nat>) {
    && base in s.free && base in s.size && s.size[base] == 0 && s.free !! s.live
    && (forall h | IsBlock(s, h) && h != base :: base < h && Size(s, h) > 0)
    && Apart(s, weak) && Linked(s, base) && Covered(s)
    && (forall u | u in s.owner :: base < u < brk)
  }

  /** Two blocks never overlap. */
  lemma {:induction false} BlocksDisjoint(base: nat, brk: nat, s: State, h: nat, k: nat)
    requires Ok(base, brk, s, {}) && IsBlock(s, h) && IsBlock(s, k) && h != k && h != base && k != base
    ensures End(s, h) <= k || End(s, k) <= h
  {
    assert InBlock(s, h, h) && InBlock(s, k, k);
    assert h < k < End(s, h) ==> InBlock(s, h, k);
    assert k < h < End(s, k) ==> InBlock(s, k, h);
  }

  // ---------- One free list for given live blocks ----------

  /** The same units, and the same blocks handed out. */
  ghost predicate SameLive(s: State, r: State) {
    s.owner.Keys == r.owner.Keys && s.live == r.live && forall k | k in s.live :: Size(s, k) == Size(r, k)
  }

  ghost predicate FreeUnit(s: State, u: nat) { u in s.owner && s.owner[u] in s.free }

  lemma {:induction false} SameFreeUnit(base: nat, brk: nat, s: State, r: State, u: nat)
    requires Ok(base, brk, s, {}) && Ok(base, brk, r, {}) && SameLive(s, r)
    ensures FreeUnit(s, u) <==> FreeUnit(r, u)
  {
    hide Apart, Linked;
    if u in s.owner {
      assert InBlock(s, s.owner[u], u) && InBlock(r, r.owner[u], u);
      if s.owner[u] in s.live {
        assert InBlock(r, s.owner[u], u);
      }
      if r.owner[u] in r.live {
        assert InBlock(s, r.owner[u], u);
      }
    }
  }

  /** A free block starts where a run of free units does. */
  lemma {:induction false} StartsRun(base: nat, brk: nat, s: State, u: nat)
    requires Ok(base, brk, s, {}) && FreeUnit(s, u)
    ensures u in s.free <==> u == 0 || !FreeUnit(s, u - 1)
  {
    hide Linked;
    var h := s.owner[u];
    assert InBlock(s, h, u);
    if u in s.free {
      assert InBlock(s, u, u) && h == u;
      if u > 0 && u - 1 in s.owner {
        var k := s.owner[u - 1];
        assert InBlock(s, k, u - 1);
      }
    } else {
      assert h < u && InBlock(s, h, u - 1);
    }
  }

  /** And ends where the run does. */
  lemma {:induction false} EndsRun(base: nat, brk: nat, s: State, h: nat, u: nat)
    requires Ok(base, brk, s, {}) && h in s.free && h != base && h <= u
    ensures u < End(s, h) ==> FreeUnit(s, u)
    ensures u == End(s, h) ==> !FreeUnit(s, u)
  {
    hide Linked;
    if u < End(s, h) {
      assert InBlock(s, h, u);
    } else if u == End(s, h) && u in s.owner {
      var k := s.owner[u];
      assert InBlock(s, k, u);
      assert k < u ==> InBlock(s, k, u - 1);
      assert IsBlock(s, h) && InBlock(s, h, u - 1);
    }
  }

  lemma {:induction false} SameFree(base: nat, brk: nat, s: State, r: State, h: nat)
    requires Ok(base, brk, s, {}) && Ok(base, brk, r, {}) && SameLive(s, r) && h in s.free
    ensures h in r.free && Size(r, h) == Size(s, h)
  {
    hide Ok, FreeUnit;
    FreeBlock(base, brk, s, h);
    if h == base {
      FreeBlock(base, brk, r, h);
    } else {
      EndsRun(base, brk, s, h, h);
      SameFreeUnit(base, brk, s, r, h);
      if h > 0 {
        SameFreeUnit(base, brk, s, r, h - 1);
      }
      StartsRun(base, brk, s, h);
      StartsRun(base, brk, r, h);
      FreeBlock(base, brk, r, h);
      if Size(s, h) < Size(r, h) {
        SameFreeUnit(base, brk, s, r, End(s, h));
        EndsRun(base, brk, s, h, End(s, h));
        EndsRun(base, brk, r, h, End(s, h));
      } else if Size(r, h) < Size(s, h) {
        SameFreeUnit(base, brk, s, r, End(r, h));
        EndsRun(base, brk, r, h, End(r, h));
        EndsRun(base, brk, s, h, End(r, h));
      }
    }
  }

  lemma {:induction false} FreeBlock(base: nat, brk: nat, s: State, h: nat)
    requires Ok(base, brk, s, {})
    ensures base in s.free && Size(s, base) == 0 && (h in s.free && h != base ==> base < h && Size(s, h) > 0)
  {
    assert h in s.free ==> IsBlock(s, h);
  }

  /**
  The free list is a function of the blocks handed out: two heaps over the same memory with the same
  live blocks have the same free blocks, of the same sizes, linked in the same order.
  */
  lemma {:induction false} OneFreeList(base: nat, brk: nat, s: State, r: State)
    requires Ok(base, brk, s, {}) && Ok(base, brk, r, {}) && SameLive(s, r)
    ensures s.free == r.free
            && forall p | p in s.free :: Size(s, p) == Size(r, p) && p in s.ptr && p in r.ptr && s.ptr[p] == r.ptr[p]
  {
    hide Covered, Apart;
    forall p | p in s.free ensures p in r.free && Size(r, p) == Size(s, p) {
      SameFree(base, brk, s, r, p);
    }
    forall p | p in r.free ensures p in s.free {
      SameFree(base, brk, r, s, p);
    }
    forall p | p in s.free ensures p in s.ptr && p in r.ptr && s.ptr[p] == r.ptr[p] {
      assert LinkAt(s, base, p) && LinkAt(r, base, p);
    }
  }

  // ---------- Insertion and merging ----------

  /** Free block a is the last one below bp. */
  ghost predicate GapAt(s: State, a: nat, bp: nat) {
    a in s.free && a < bp && forall q | q in s.free && a < q :: bp < q
  }

  lemma {:induction false} FindGap(s: State, bp: nat, low: nat) returns (a: nat)
    requires low in s.free && low < bp && bp !in s.free
    ensures GapAt(s, a, bp)
    decreases bp - low
  {
    if exists q :: q in s.free && low < q < bp {
      var q :| q in s.free && low < q < bp;
      a := FindGap(s, bp, q);
    } else {
      a := low;
    }
  }

  /** bp as a free block of its own, after a. */
  function Insert(s: State, a: nat, bp: nat): (r: State)
    requires a in s.ptr
  {
    State(s.ptr[bp := s.ptr[a]][a := bp], s.size, s.free + {bp}, s.live - {bp}, s.owner)
  }

  lemma {:induction false} Inserted(base: nat, brk: nat, s: State, a: nat, bp: nat)
    requires Ok(base, brk, s, {}) && bp in s.live && GapAt(s, a, bp)
    ensures a in s.ptr && Ok(base, brk, Insert(s, a, bp), {a, bp})
  {
    hide Covered, Apart, Linked;
    InsertLinked(base, s, a, bp);
    InsertApart(base, brk, s, a, bp);
    SameBlocks(s, Insert(s, a, bp));
  }

  lemma {:induction false} InsertLinked(base: nat, s: State, a: nat, bp: nat)
    requires Linked(s, base) && base in s.free && bp !in s.free && GapAt(s, a, bp)
    ensures a in s.ptr && Linked(Insert(s, a, bp), base)
  {
    assert LinkAt(s, base, a);
    var r := Insert(s, a, bp);
    forall p | p in r.free ensures LinkAt(r, base, p) {
      if p != bp {
        assert LinkAt(s, base, p);
      }
    }
  }

  lemma {:induction false} InsertApart(base: nat, brk: nat, s: State, a: nat, bp: nat)
    requires Ok(base, brk, s, {}) && bp in s.live && GapAt(s, a, bp) && a in s.ptr
    ensures Apart(Insert(s, a, bp), {a, bp})
  {
    hide Covered, Linked;
    var r := Insert(s, a, bp);
    forall q | q in s.free && q != base ensures End(s, q) <= bp || End(s, bp) <= q {
      BlocksDisjoint(base, brk, s, q, bp);
    }
  }

  /** Moving a block between the two lists leaves every unit where it was. */
  lemma {:induction false} SameBlocks(s: State, r: State)
    requires Covered(s) && r.owner == s.owner && r.size == s.size && forall h :: IsBlock(r, h) <==> IsBlock(s, h)
    ensures Covered(r)
  {
    forall h: nat, u: nat ensures InBlock(r, h, u) <==> InBlock(s, h, u) {
    }
  }

  /** Fewer or smaller free blocks are still apart. */
  lemma {:induction false} FewerApart(s: State, r: State)
    requires Apart(s, {}) && r.free <= s.free && forall p | p in r.free :: Size(r, p) <= Size(s, p)
    ensures Apart(r, {})
  {
  }

  /** a absorbs its successor. */
  function Merge(s: State, a: nat): (r: State)
    requires a in s.ptr && s.ptr[a] in s.ptr
  {
    var c := s.ptr[a];
    State(s.ptr[a := s.ptr[c]], s.size[a := Size(s, a) + Size(s, c)], s.free - {c}, s.live, Renamed(s.owner, c, a))
  }

  function Renamed(owner: map<nat, nat>, c: nat, a: nat): (r: map<nat, nat>)
    ensures r.Keys == owner.Keys
  {
    map u | u in owner :: if owner[u] == c then a else owner[u]
  }

  lemma {:induction false} Merged(base: nat, brk: nat, s: State, a: nat, w: nat, weak: set<nat>)
    requires Ok(base, brk, s, weak) && a in s.free && a != base && w < a && weak <= {w, a}
    requires a in s.ptr && End(s, a) == s.ptr[a]
    ensures s.ptr[a] in s.ptr && Ok(base, brk, Merge(s, a), weak - {a})
  {
    hide Covered, Apart;
    var c := s.ptr[a];
    assert LinkAt(s, base, a) && LinkAt(s, base, c);
    var r := Merge(s, a);
    assert a < c && base < a;
    forall p | p in r.free ensures LinkAt(r, base, p) {
      assert LinkAt(s, base, p);
    }
    MergeApart(s, r, a, c, w, weak);
    MergeCovered(s, r, a, c);
    forall h | IsBlock(r, h) && h != base ensures base < h && Size(r, h) > 0 {
      assert IsBlock(s, h);
    }
  }

  lemma {:induction false} MergeApart(s: State, r: State, a: nat, c: nat, w: nat, weak: set<nat>)
    requires Apart(s, weak) && weak <= {w, a} && a in s.free && c in s.free && w < a < c && End(s, a) == c
    requires r.free == s.free - {c} && r.size == s.size[a := Size(s, a) + Size(s, c)]
    requires forall q | q in s.free && a < q :: c <= q
    ensures Apart(r, weak - {a})
  {
  }

  lemma {:induction false} MergeCovered(s: State, r: State, a: nat, c: nat)
    requires Covered(s) && a in s.free && c in s.free && a < c && End(s, a) == c && s.free !! s.live
    requires r.free == s.free - {c} && r.live == s.live && r.size == s.size[a := Size(s, a) + Size(s, c)]
             && r.owner == Renamed(s.owner, c, a)
    ensures Covered(r)
  {
    forall u: nat | u in r.owner ensures InBlock(r, r.owner[u], u) {
      assert InBlock(s, s.owner[u], u);
    }
    forall h: nat, u: nat | InBlock(r, h, u) ensures u in r.owner && r.owner[u] == h {
      assert InBlock(s, if h == a && c <= u then c else h, u);
    }
  }

  /** A block that does not touch its successor needs no exception. */
  lemma {:induction false} NotTouching(base: nat, brk: nat, s: State, a: nat, weak: set<nat>)
    requires Ok(base, brk, s, weak) && a in s.free && a in s.ptr && End(s, a) != s.ptr[a]
    ensures Ok(base, brk, s, weak - {a})
  {
    assert LinkAt(s, base, a);
  }

  // ---------- Taking a block ----------

  /** The whole of p, the successor of prev, is handed out. */
  function TakeAll(s: State, prev: nat, p: nat): (r: State)
    requires p in s.ptr
  {
    State(s.ptr[prev := s.ptr[p]], s.size, s.free - {p}, s.live + {p}, s.owner)
  }

  lemma {:induction false} TookAll(base: nat, brk: nat, s: State, prev: nat, p: nat)
    requires Ok(base, brk, s, {}) && prev in s.free && p in s.free && p != base && prev in s.ptr && s.ptr[prev] == p
    ensures p in s.ptr && p != prev && Ok(base, brk, TakeAll(s, prev, p), {})
  {
    hide Covered, Apart;
    assert LinkAt(s, base, p) && LinkAt(s, base, prev);
    var r := TakeAll(s, prev, p);
    forall q | q in r.free ensures LinkAt(r, base, q) {
      assert LinkAt(s, base, q);
    }
    SameBlocks(s, r);
    FewerApart(s, r);
  }

  /** The last n units of p are handed out. */
  function TakeTail(s: State, p: nat, n: nat): (r: State)
    requires n <= Size(s, p)
  {
    var q := p + (Size(s, p) - n);
    State(s.ptr, s.size[p := Size(s, p) - n][q := n], s.free, s.live + {q}, Carved(s.owner, p, q))
  }

  function Carved(owner: map<nat, nat>, p: nat, q: nat): (r: map<nat, nat>)
    ensures r.Keys == owner.Keys
  {
    map u | u in owner :: if owner[u] == p && q <= u then q else owner[u]
  }

  lemma {:induction false} TookTail(base: nat, brk: nat, s: State, p: nat, n: nat)
    requires Ok(base, brk, s, {}) && p in s.free && p != base && 0 < n < Size(s, p)
    ensures Ok(base, brk, TakeTail(s, p, n), {}) && !IsBlock(s, p + (Size(s, p) - n))
  {
    hide Covered, Apart, LinkAt;
    var q: nat := p + (Size(s, p) - n);
    var r := TakeTail(s, p, n);
    NotABlock(s, p, q);
    forall h | h in r.free ensures LinkAt(r, base, h) {
      SameLink(s, r, base, h);
    }
    FewerApart(s, r);
    TailCovered(s, r, p, q);
    forall h | IsBlock(r, h) && h != base ensures base < h && Size(r, h) > 0 {
      assert h != q ==> IsBlock(s, h);
    }
  }

  /** The middle of a block is not a header. */
  lemma {:induction false} NotABlock(s: State, p: nat, q: nat)
    requires Covered(s) && IsBlock(s, p) && p < q < End(s, p) && (IsBlock(s, q) ==> Size(s, q) > 0)
    ensures !IsBlock(s, q)
  {
    assert InBlock(s, p, q);
    assert IsBlock(s, q) ==> InBlock(s, q, q);
  }

  lemma {:induction false} TailCovered(s: State, r: State, p: nat, q: nat)
    requires Covered(s) && p in s.free && !IsBlock(s, q) && p < q < End(s, p) && r.owner == Carved(s.owner, p, q)
    requires r.free == s.free && r.live == s.live + {q} && r.size == s.size[p := q - p][q := End(s, p) - q]
    ensures Covered(r)
  {
    forall u: nat | u in r.owner ensures InBlock(r, r.owner[u], u) {
      assert InBlock(s, s.owner[u], u);
    }
    forall h: nat, u: nat | InBlock(r, h, u) ensures u in r.owner && r.owner[u] == h {
      assert InBlock(s, if h == q then p else h, u);
    }
  }

  // ---------- Growing ----------

  /** nu units at addr, all in the block at addr. */
  function Region(addr: nat, nu: nat): (r: map<nat, nat>)
    ensures forall u: nat :: u in r <==> addr <= u < addr + nu
    ensures forall u: nat | u in r :: r[u] == addr
  {
    if nu == 0 then map[] else Region(addr, nu - 1)[addr + (nu - 1) := addr]
  }

  /** sbrk's new region, as a block not yet on the free list. */
  function Grant(s: State, addr: nat, nu: nat): (r: State) {
    State(s.ptr, s.size[addr := nu], s.free, s.live + {addr}, s.owner + Region(addr, nu))
  }

  lemma {:induction false} Granted(base: nat, brk: nat, s: State, addr: nat, nu: nat)
    requires Ok(base, brk, s, {}) && base < brk <= addr && 0 < nu
    ensures Ok(base, addr + nu, Grant(s, addr, nu), {}) && !IsBlock(s, addr)
  {
    hide Covered, Apart, LinkAt;
    var r := Grant(s, addr, nu);
    Below(base, brk, s, addr);
    forall h | h in r.free ensures LinkAt(r, base, h) {
      SameLink(s, r, base, h);
    }
    FewerApart(s, r);
    GrantCovered(s, r, addr, nu);
    forall h | IsBlock(r, h) && h != base ensures base < h && Size(r, h) > 0 {
      assert h != addr ==> IsBlock(s, h);
    }
  }

  lemma {:induction false} Below(base: nat, brk: nat, s: State, addr: nat)
    requires Ok(base, brk, s, {}) && base < brk <= addr
    ensures !IsBlock(s, addr)
  {
    assert IsBlock(s, addr) ==> InBlock(s, addr, addr);
  }

  lemma {:induction false} SameLink(s: State, r: State, base: nat, p: nat)
    requires Linked(s, base) && p in s.free && r.ptr == s.ptr && r.free == s.free
    ensures LinkAt(r, base, p)
  {
    assert LinkAt(s, base, p);
  }

  lemma {:induction false} GrantCovered(s: State, r: State, addr: nat, nu: nat)
    requires Covered(s) && !IsBlock(s, addr) && r.owner == s.owner + Region(addr, nu)
    requires forall u | u in s.owner :: u < addr
    requires r.free == s.free && r.live == s.live + {addr} && r.size == s.size[addr := nu]
    ensures Covered(r)
  {
    forall u: nat | u in r.owner ensures InBlock(r, r.owner[u], u) {
      if u < addr {
        assert InBlock(s, s.owner[u], u);
      }
    }
    forall h: nat, u: nat | InBlock(r, h, u) ensures u in r.owner && r.owner[u] == h {
      if h != addr {
        assert InBlock(s, h, u);
      }
    }
  }

  // ---------- free and malloc ----------

  /** What free makes of block bp, given the free block a before it: on the list, merged with what it touches. */
  function Freed(s: State, a: nat, bp: nat): (r: State)
    requires a in s.ptr && (End(s, bp) == s.ptr[a] ==> s.ptr[a] in s.ptr && s.ptr[a] != a)
  {
    var s1 := Insert(s, a, bp);
    var s2 := if End(s, bp) == s.ptr[a] then Merge(s1, bp) else s1;
    if End(s2, a) == bp then Merge(s2, a) else s2
  }

  lemma {:induction false} FreedOk(base: nat, brk: nat, s: State, a: nat, bp: nat)
    requires Ok(base, brk, s, {}) && bp in s.live && GapAt(s, a, bp)
    ensures a in s.ptr && s.ptr[a] in s.ptr && s.ptr[a] in s.free && base <= a != bp
            && (End(s, bp) == s.ptr[a] ==> s.ptr[a] != a)
    ensures Ok(base, brk, Freed(s, a, bp), {})
    ensures Freed(s, a, bp).live == s.live - {bp} && Freed(s, a, bp).owner.Keys == s.owner.Keys
            && a in Freed(s, a, bp).free
  {
    hide Ok;
    FreedLinks(base, brk, s, a, bp);
    var c := s.ptr[a];
    Inserted(base, brk, s, a, bp);
    var s1 := Insert(s, a, bp);
    var s2 := if End(s, bp) == c then Merge(s1, bp) else s1;
    if End(s, bp) == c {
      Merged(base, brk, s1, bp, a, {a, bp});
    } else {
      NotTouching(base, brk, s1, bp, {a, bp});
    }
    assert {a, bp} - {bp} == {a};
    assert {a} - {a} == {};
    if End(s2, a) == bp {
      Merged(base, brk, s2, a, base, {a});
    } else {
      NotTouching(base, brk, s2, a, {a});
    }
  }

  lemma {:induction false} FreedLinks(base: nat, brk: nat, s: State, a: nat, bp: nat)
    requires Ok(base, brk, s, {}) && bp in s.live && GapAt(s, a, bp)
    ensures a in s.ptr && s.ptr[a] in s.ptr && s.ptr[a] in s.free && bp !in s.free && base < bp && a < bp
    ensures base in s.free && Size(s, base) == 0 && base <= a && (End(s, bp) == s.ptr[a] ==> s.ptr[a] != a)
  {
    assert LinkAt(s, base, a);
    assert LinkAt(s, base, s.ptr[a]);
    assert IsBlock(s, a) && IsBlock(s, bp);
  }

  /** The header fields free leaves, as the code computes them. */
  lemma {:induction false} FreedFields(s: State, a: nat, bp: nat)
    requires a in s.ptr && s.ptr[a] in s.ptr && a in s.size && bp in s.size && s.ptr[a] in s.size && a < bp
             && s.ptr[a] != bp
    requires End(s, bp) == s.ptr[a] ==> s.ptr[a] != a
    ensures var c := s.ptr[a]; var right, left, r := End(s, bp) == c, End(s, a) == bp, Freed(s, a, bp);
            var size1 := if right then s.size[bp := s.size[bp] + s.size[c]] else s.size;
            var ptr1 := if right then s.ptr[bp := s.ptr[c]] else s.ptr[bp := c];
            && r.size == (if left then size1[a := size1[a] + size1[bp]] else size1)
            && r.ptr == (if left then ptr1[a := ptr1[bp]] else ptr1[a := bp])
  {
  }

  /** The freed units are in a free block at least as large. */
  lemma {:induction false} FreedHolds(base: nat, brk: nat, s: State, a: nat, bp: nat)
    requires Ok(base, brk, s, {}) && bp in s.live && GapAt(s, a, bp)
    requires a in s.ptr && s.ptr[a] in s.ptr && (End(s, bp) == s.ptr[a] ==> s.ptr[a] != a)
    ensures exists h :: h in Freed(s, a, bp).free && Size(Freed(s, a, bp), h) >= Size(s, bp)
    ensures forall k | k in s.live && k != bp :: Size(Freed(s, a, bp), k) == Size(s, k)
  {
    hide Covered, Linked, Apart;
    FreedLinks(base, brk, s, a, bp);
    var r := Freed(s, a, bp);
    var h := if End(s, a) == bp then a else bp;
    assert h in r.free && Size(r, h) >= Size(s, bp);
  }

  datatype MallocResult = Block(h: nat) | NoMemory | BadSbrk

  /** No free block has n units. */
  ghost predicate TooSmall(s: State, n: nat) { forall q | q in s.free :: Size(s, q) < n }

  class Allocator {
    const base: nat
    var ptr: map<nat, nat>
    var size: map<nat, nat>
    /** 0 until the first malloc. */
    var freep: nat
    /** The end of the memory obtained so far. */
    var brk: nat
    ghost var free: set<nat>
    ghost var live: set<nat>
    ghost var owner: map<nat, nat>

    ghost function St(): (s: State)
      reads this
    {
      State(ptr, size, free, live, owner)
    }

    ghost predicate Valid()
      reads this
    {
      && 0 < base < brk
      && if freep == 0 then free == {base} && live == {} && owner == map[] && size == map[]
         else freep in free && Ok(base, brk, St(), {})
    }

    constructor (b: nat, top: nat)
      requires 0 < b < top
      ensures Valid() && live == {} && base == b && brk == top
    {
      base, brk, freep := b, top, 0;
      ptr, size := map[], map[];
      free, live, owner := {b}, {}, map[];
    }

    /** free's search for the place of bp. */
    method FindPlace(bp: nat) returns (p: nat)
      requires Valid() && bp in live
      ensures GapAt(St(), p, bp)
    {
      ghost var k := Place(base, brk, St(), bp);
      p := freep;
      LinkOf(base, brk, St(), p);
      while !(bp > p && bp < ptr[p])
        invariant p in free && p in ptr && ptr[p] in free
        invariant p < brk && (p < ptr[p] || ptr[p] == base) && (p < k ==> p < ptr[p] <= k)
        invariant (p > k ==> p > bp) && (ptr[p] > p && p >= k ==> ptr[p] > bp)
        decreases if p > k then 1 else 0, if p > k then brk - p else k - p
      {
        if p >= ptr[p] && (bp > p || bp < ptr[p]) {
          break;
        }
        LinkOf(base, brk, St(), ptr[p]);
        p := ptr[p];
      }
      assert p == k;
    }

    /** free of the block with header bp. */
    method Free(bp: nat)
      requires Valid() && bp in live
      modifies this`ptr, this`size, this`freep, this`free, this`live, this`owner
      ensures Valid() && freep != 0 && live == old(live) - {bp} && owner.Keys == old(owner).Keys
      ensures forall k | k in live :: Size(St(), k) == Size(old(St()), k)
      ensures exists h :: h in free && Size(St(), h) >= Size(old(St()), bp)
      ensures freep in old(free) && freep < bp && forall q | q in old(free) && freep < q :: bp < q
    {
      hide Ok, Freed, Covered;
      var p := FindPlace(bp);
      ghost var s := St();
      FreedOk(base, brk, s, p, bp);
      FreedHolds(base, brk, s, p, bp);
      SizesKnown(base, brk, s, p, bp);
      FreedFields(s, p, bp);
      Join(p, bp);
      freep := p;
      ghost var r := Freed(s, p, bp);
      free, live, owner := r.free, r.live, r.owner;
      assert St() == r;
    }

    /** free's updates: bp goes after p, and takes over or is taken over by a neighbour it touches. */
    method Join(p: nat, bp: nat)
      requires p in ptr && ptr[p] in ptr && p in size && bp in size && ptr[p] in size && p != bp
      requires bp + size[bp] == ptr[p] ==> ptr[p] != p
      modifies this`ptr, this`size
      ensures var c := old(ptr[p]);
              var right, left := bp + old(size[bp]) == c, p + old(size[p]) == bp;
              var size1 := if right then old(size)[bp := old(size[bp]) + old(size[c])] else old(size);
              var ptr1 := if right then old(ptr)[bp := old(ptr[c])] else old(ptr)[bp := c];
              && size == (if left then size1[p := size1[p] + size1[bp]] else size1)
              && ptr == (if left then ptr1[p := ptr1[bp]] else ptr1[p := bp])
    {
      var c := ptr[p];
      if bp + size[bp] == c {
        size := size[bp := size[bp] + size[c]];
        ptr := ptr[bp := ptr[c]];
      } else {
        ptr := ptr[bp := c];
      }
      if p + size[p] == bp {
        size := size[p := size[p] + size[bp]];
        ptr := ptr[p := ptr[bp]];
      } else {
        ptr := ptr[p := bp];
      }
    }

    /** morecore; `sbrk` is what the kernel answers, an address at or above all memory given out before. */
    method Morecore(nu: nat, sbrk: Option<nat>) returns (r: Option<nat>)
      requires Valid() && freep != 0 && 0 < nu && SbrkArgument(nu) > 0 && (sbrk.Some? ==> brk <= sbrk.value)
      modifies this`ptr, this`size, this`freep, this`brk, this`free, this`live, this`owner
      ensures Valid() && freep != 0 && live == old(live) && (r.None? <==> sbrk.None?)
      ensures r.None? ==> St() == old(St()) && freep == old(freep) && brk == old(brk)
      ensures r.Some? ==> r.value == freep && exists h :: h in free && Size(St(), h) >= nu
      ensures r.Some? ==> owner.Keys == (old(owner) + Region(sbrk.value, if nu < NALLOC then NALLOC else nu)).Keys
      ensures forall k | k in live :: Size(St(), k) == Size(old(St()), k)
    {
      hide Ok;
      var n := if nu < NALLOC then NALLOC else nu;
      if sbrk.None? {
        return None;
      }
      var hp := sbrk.value;
      Granted(base, brk, St(), hp, n);
      size := size[hp := n];
      live, owner, brk := live + {hp}, owner + Region(hp, n), hp + n;
      assert St() == Grant(old(St()), hp, n);
      ghost var s := St();
      assert forall k | k in old(live) :: k != hp && Size(s, k) == Size(old(St()), k);
      Free(hp);
      assert live == old(live);
      return Some(freep);
    }

    /** malloc's use of block p, the successor of prev. */
    method Take(prev: nat, p: nat, nunits: nat) returns (h: nat)
      requires Valid() && freep != 0 && prev in free && p in free && prev in ptr && ptr[prev] == p
               && 0 < nunits <= Size(St(), p)
      modifies this`ptr, this`size, this`freep, this`free, this`live, this`owner
      ensures Valid() && freep == prev && freep != 0 && h !in old(live) && live == old(live) + {h}
              && Size(St(), h) == nunits
      ensures owner.Keys == old(owner).Keys && forall k | k in old(live) :: Size(St(), k) == Size(old(St()), k)
      ensures h == End(old(St()), p) - nunits
    {
      hide Covered, Linked, Apart, Carved;
      ghost var s := St();
      LinkOf(base, brk, s, prev);
      if size[p] == nunits {
        TookAll(base, brk, s, prev, p);
        ptr := ptr[prev := ptr[p]];
        free, live := free - {p}, live + {p};
        assert St() == TakeAll(s, prev, p);
        h := p;
      } else {
        TookTail(base, brk, s, p, nunits);
        h := p + (size[p] - nunits);
        size := size[p := size[p] - nunits];
        size := size[h := nunits];
        live, owner := live + {h}, Carved(owner, p, h);
        assert St() == TakeTail(s, p, nunits);
        assert forall k | k in s.live :: IsBlock(s, k) && k != h && k != p;
      }
      freep := prev;
    }

    /**
    malloc.  It asks sbrk at most once, and only when no free block was large enough.  BadSbrk is the
    case of SbrkGrowsIff in which morecore's argument is not the size it means: what sbrk then does to
    the process is outside the heap.
    */
    method Malloc(nbytes: nat, sbrk: Option<nat>) returns (r: MallocResult, ghost grew: bool)
      requires Valid() && nbytes < 0x1_0000_0000 && (sbrk.Some? ==> brk <= sbrk.value)
      modifies this`ptr, this`size, this`freep, this`brk, this`free, this`live, this`owner
      ensures Valid()
      ensures r.Block? ==> r.h !in old(live) && live == old(live) + {r.h} && Size(St(), r.h) == Units(nbytes)
      ensures grew ==> sbrk.Some?
      ensures r.Block? ==>
                owner.Keys == (if grew then (old(owner) + Region(sbrk.value, Request(nbytes))).Keys
                               else old(owner).Keys)
      ensures r.Block? && !grew ==>
                old(freep) != 0 && brk == old(brk) && freep != 0
                && exists p :: p in old(free) && Size(old(St()), p) >= Units(nbytes)
                               && r.h == End(old(St()), p) - Units(nbytes)
                               && freep in old(ptr) && old(ptr)[freep] == p
                               && forall q | q in old(free) && (if old(freep) < p then old(freep) < q < p
                                                                else old(freep) < q || q < p) ::
                                    Size(old(St()), q) < Units(nbytes)
      ensures !r.Block? ==> live == old(live) && owner == old(owner) && free == old(free)
      ensures r.NoMemory? ==> sbrk.None? && Units(nbytes) < 0x1000_0000
      ensures r.BadSbrk? <==> Units(nbytes) >= 0x1000_0000 && TooSmall(old(St()), Units(nbytes))
      ensures !r.Block? || grew ==> TooSmall(old(St()), Units(nbytes))
      ensures forall k | k in old(live) :: Size(St(), k) == Size(old(St()), k)
    {
      hide Ok, Region, SbrkArgument, Scanned, Linked, InBlock, Covered, End, IsBlock;
      SbrkGrowsIff(Units(nbytes));
      var nunits := Units(nbytes);
      if freep == 0 {
        Started(base, brk);
        ptr, size, freep := map[base := base], map[base := 0], base;
      }
      grew := false;
      ScanStart(base, brk, St(), freep, nunits);
      var prevp: nat, p: nat := freep, ptr[freep];
      ghost var wrapped := p <= freep;
      ghost var s0, freep0 := St(), freep;
      while true
        invariant Valid() && freep != 0 && Scanned(base, brk, St(), freep, p, wrapped, nunits)
        invariant prevp in free && prevp in ptr && ptr[prevp] == p && p in free
        invariant live == old(live) && (forall k | k in live :: Size(St(), k) == Size(s0, k))
        invariant grew ==> exists h :: h in free && Size(St(), h) >= nunits
        invariant grew ==> sbrk.Some? && owner.Keys == (old(owner) + Region(sbrk.value, Request(nbytes))).Keys
        invariant grew ==> TooSmall(s0, nunits) && nunits < 0x1000_0000
        invariant !grew ==> St() == s0 && brk == old(brk) && freep == freep0
        decreases !grew, !wrapped, if wrapped then freep - p else brk - p
      {
        ScanNext(base, brk, St(), freep, p, wrapped, nunits);
        if size[p] >= nunits {
          if !grew {
            ScannedMeans(base, brk, s0, freep0, p, wrapped, nunits);
          }
          var h := Take(prevp, p, nunits);
          assert old(freep) == 0 ==> grew;
          return Block(h), grew;
        }
        if p == freep {
          if nunits >= 0x1000_0000 {
            return BadSbrk, false;
          }
          var m := Morecore(nunits, sbrk);
          if m.None? {
            return NoMemory, false;
          }
          grew := true;
          prevp := m.value;
          ScanStart(base, brk, St(), freep, nunits);
          p := ptr[prevp];
          wrapped := p <= freep;
        } else {
          wrapped := wrapped || ptr[p] <= p;
          prevp, p := p, ptr[p];
        }
      }
    }
  }

  /** free undoes malloc: unless the heap had to grow, the free list is what it was. */
  method MallocFree(heap: Allocator, nbytes: nat, sbrk: Option<nat>) returns (r: MallocResult, ghost grew: bool)
    requires heap.Valid() && nbytes < 0x1_0000_0000 && (sbrk.Some? ==> heap.brk <= sbrk.value)
    modifies heap
    ensures heap.Valid() && heap.live == old(heap.live)
    ensures r.Block? && !grew ==>
              && heap.free == old(heap.free)
              && forall p | p in heap.free :: Size(heap.St(), p) == Size(old(heap.St()), p) && p in heap.ptr
                                              && p in old(heap.ptr) && heap.ptr[p] == old(heap.ptr)[p]
  {
    hide Ok;
    r, grew := heap.Malloc(nbytes, sbrk);
    if r.Block? {
      heap.Free(r.h);
      if !grew {
        OneFreeList(heap.base, heap.brk, old(heap.St()), heap.St());
      }
    }
  }

  lemma {:induction false} Place(base: nat, brk: nat, s: State, bp: nat) returns (k: nat)
    requires Ok(base, brk, s, {}) && bp in s.live
    ensures GapAt(s, k, bp) && base <= k
  {
    assert IsBlock(s, bp);
    k := FindGap(s, bp, base);
    assert IsBlock(s, k);
  }

  /** The link of a free block. */
  lemma {:induction false} LinkOf(base: nat, brk: nat, s: State, p: nat)
    requires Ok(base, brk, s, {}) && base < brk && p in s.free
    ensures p in s.ptr && s.ptr[p] in s.free && p < brk && base <= p && base in s.free && p in s.size
            && (p < s.ptr[p] || s.ptr[p] == base)
    ensures forall q | q in s.free && p < q :: p < s.ptr[p] <= q
    ensures forall q | q in s.free :: base <= q
  {
    assert LinkAt(s, base, p);
    assert forall q | q in s.free :: IsBlock(s, q);
    assert IsBlock(s, p) && (p != base ==> InBlock(s, p, p));
  }

  lemma {:induction false} SizesKnown(base: nat, brk: nat, s: State, a: nat, bp: nat)
    requires Ok(base, brk, s, {}) && bp in s.live && a in s.free && a in s.ptr
    ensures bp in s.size && a in s.size && (s.ptr[a] in s.free ==> s.ptr[a] in s.size && s.ptr[a] != bp)
  {
    assert IsBlock(s, bp) && IsBlock(s, a) && (s.ptr[a] in s.free ==> IsBlock(s, s.ptr[a]));
  }

  /** How many units morecore asks for. */
  function Request(nbytes: nat): (n: nat) { if Units(nbytes) < NALLOC then NALLOC else Units(nbytes) }

  /** The empty list of malloc's first call. */
  lemma {:induction false} Started(base: nat, brk: nat)
    ensures Ok(base, brk, State(map[base := base], map[base := 0], {base}, {}, map[]), {})
  {
    var s := State(map[base := base], map[base := 0], {base}, {}, map[]);
    assert LinkAt(s, base, base);
  }

  /** malloc's search stands at p: every free block after freep and before p, going round, is too small. */
  ghost predicate Scanned(base: nat, brk: nat, s: State, freep: nat, p: nat, wrapped: bool, n: nat) {
    && p in s.free && (if wrapped then p <= freep else freep < p < brk)
    && forall q | q in s.free && (if wrapped then freep < q || q < p else freep < q < p) :: Size(s, q) < n
  }

  lemma {:induction false} ScannedMeans(base: nat, brk: nat, s: State, freep: nat, p: nat, wrapped: bool, n: nat)
    requires Scanned(base, brk, s, freep, p, wrapped, n)
    ensures p in s.free
    ensures forall q | q in s.free && (if freep < p then freep < q < p else freep < q || q < p) :: Size(s, q) < n
  {
  }

  lemma {:induction false} ScanStart(base: nat, brk: nat, s: State, freep: nat, n: nat)
    requires Ok(base, brk, s, {}) && base < brk && freep in s.free
    ensures freep in s.ptr && s.ptr[freep] in s.free
            && Scanned(base, brk, s, freep, s.ptr[freep], s.ptr[freep] <= freep, n)
  {
    LinkOf(base, brk, s, freep);
    LinkOf(base, brk, s, s.ptr[freep]);
  }

  /** One step on; and having come round to freep itself, the search has seen every free block. */
  lemma {:induction false} ScanNext(base: nat, brk: nat, s: State, freep: nat, p: nat, wrapped: bool, n: nat)
    requires Ok(base, brk, s, {}) && base < brk && freep in s.free && Scanned(base, brk, s, freep, p, wrapped, n)
    ensures p in s.size && s.size[p] == Size(s, p) && p in s.ptr && s.ptr[p] in s.free && p < brk
    ensures Size(s, p) < n && p == freep ==> forall q | q in s.free :: Size(s, q) < n
    ensures Size(s, p) < n && p != freep ==>
              && Scanned(base, brk, s, freep, s.ptr[p], wrapped || s.ptr[p] <= p, n)
              && (wrapped || s.ptr[p] > p ==> p < s.ptr[p])
    ensures p == freep ==> wrapped
  {
    LinkOf(base, brk, s, p);
    LinkOf(base, brk, s, s.ptr[p]);
  }
}
