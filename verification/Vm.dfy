/**
kalloc.c and vm.c over one physical memory.  Addresses are handled as frame and page numbers; sizes
stay in bytes.  Page v of an address space has directory index v / 1024 and table index v % 1024.
*/
module Vm {
  import opened Blocks
  import opened Frames
  import opened Options

  const NPAGES: nat := 0x100000
  const USERPAGES: nat := 0x80000
  const NFRAMES: nat := 0xE000
  const KERNBASE: nat := 0x8000_0000
  const EXTFRAME: nat := 0x100
  const DEVPAGE: nat := 0xFE000

  /** Where directory d maps page v, and how; all absent entries look alike. */
  function Lookup(page: seq<Page>, d: nat, v: nat): (e: Pte) {
    var e := Translate(page, d, v / NPTE, v % NPTE);
    if Present(e) then e else Unmapped()
  }

  /**
  The translation the processor makes of linear address a: bits 31-22 pick the directory entry, bits
  21-12 the entry in its table, and bits 11-0 are kept.
  */
  function Physical(page: seq<Page>, d: nat, a: nat): (pa: Option<nat>) {
    if d >= |page| || !page[d].Entries? || a >= 0x1_0000_0000 then None
    else
      var pde := page[d].e[a / 0x40_0000];
      if P !in pde.flags || pde.frame >= |page| || !page[pde.frame].Entries? then None
      else
        var pte := page[pde.frame].e[a / 0x1000 % 0x400];
        if P in pte.flags then Some(pte.frame * 0x1000 + a % 0x1000) else None
  }

  /** Lookup, by page numbers, is the processor's translation. */
  lemma {:induction false} LookupIsPhysical(page: seq<Page>, d: nat, a: nat)
    requires a < 0x1_0000_0000
    ensures Present(Lookup(page, d, a / PGSIZE)) <==> Physical(page, d, a).Some?
    ensures Present(Lookup(page, d, a / PGSIZE)) ==>
              Physical(page, d, a) == Some(Lookup(page, d, a / PGSIZE).frame * PGSIZE + a % PGSIZE)
  {
    var v := a / PGSIZE;
    assert v / NPTE == a / 0x40_0000 && v % NPTE == a / 0x1000 % 0x400;
  }

  /** PGROUNDUP, in pages. */
  function PagesUp(sz: nat): (n: nat)
    ensures sz <= n * PGSIZE < sz + PGSIZE
  {
    (sz + PGSIZE - 1) / PGSIZE
  }

  /** Whether the processor lets an access with these flags through: both levels must have them. */
  ghost predicate Permits(page: seq<Page>, d: nat, a: nat, need: set<nat>) {
    && Physical(page, d, a).Some? && need <= EntryOf(page, d, a / 0x40_0000).flags
    && need <= EntryOf(page, EntryOf(page, d, a / 0x40_0000).frame, a / 0x1000 % 0x400).flags
  }

  /** In every address space the flags of Lookup decide alone. */
  lemma {:induction false} LookupPermits(page: seq<Page>, owner: seq<Owner>, d: nat, a: nat, need: set<nat>)
    requires Inv(page, owner) && IsDir(owner, d) && a < 0x1_0000_0000 && need <= {P, W, U}
    ensures Permits(page, d, a, need) <==>
              P in Lookup(page, d, a / PGSIZE).flags && need <= Lookup(page, d, a / PGSIZE).flags
  {
    hide UsersOwned, KernelPrivate;
    LookupIsPhysical(page, d, a);
    var v := a / PGSIZE;
    assert v / NPTE == a / 0x40_0000 && v % NPTE == a / 0x1000 % 0x400;
  }

  // ---------- The free list ----------

  ghost predicate LinkAt(page: seq<Page>, list: seq<nat>, k: nat)
    requires k < |list|
  {
    list[k] < |page| && page[list[k]] == Run(if k + 1 < |list| then Some(list[k + 1]) else None)
  }

  ghost predicate Chain(page: seq<Page>, head: Option<nat>, list: seq<nat>) {
    && head == (if list == [] then None else Some(list[0]))
    && (forall k: nat | k < |list| :: LinkAt(page, list, k))
  }

  /** The free list holds each free frame once, and nothing else. */
  ghost predicate FreeOk(page: seq<Page>, owner: seq<Owner>, head: Option<nat>, list: seq<nat>) {
    && Chain(page, head, list)
    && (forall f: nat | f in list :: f < |owner| && owner[f] == Free)
    && (forall f: nat | f < |owner| && owner[f] == Free :: f in list)
    && (forall j, k | 0 <= j < k < |list| :: list[j] != list[k])
  }

  lemma {:induction false} Popped(page: seq<Page>, owner: seq<Owner>, head: Option<nat>, list: seq<nat>)
    requires FreeOk(page, owner, head, list) && list != [] && |page| == |owner|
    ensures list[0] < |page| && owner[list[0]] == Free && page[list[0]].Run?
    ensures FreeOk(page, owner[list[0] := Held], page[list[0]].next, list[1..])
  {
    var rest, f := list[1..], list[0];
    assert LinkAt(page, list, 0) && f in list;
    forall k: nat | k < |rest| ensures LinkAt(page, rest, k) {
      assert LinkAt(page, list, k + 1);
    }
    forall g: nat | g in rest ensures g != f && g in list {
    }
  }

  lemma {:induction false} Pushed(page: seq<Page>, owner: seq<Owner>, head: Option<nat>, list: seq<nat>, f: nat)
    requires FreeOk(page, owner, head, list) && |page| == |owner| && f < |owner| && owner[f] != Free
    ensures FreeOk(page[f := Run(head)], owner[f := Free], Some(f), [f] + list)
  {
    var page', list' := page[f := Run(head)], [f] + list;
    forall k: nat | k < |list'| ensures LinkAt(page', list', k) {
      if k > 0 {
        assert LinkAt(page, list, k - 1);
      }
    }
  }

  /** Pages that are not free, and frames that stay as free or as taken as they were, do not matter to the list. */
  lemma {:induction false} FreeUntouched(page: seq<Page>, owner: seq<Owner>, head: Option<nat>, list: seq<nat>,
                                         page': seq<Page>, owner': seq<Owner>)
    requires FreeOk(page, owner, head, list) && |page'| == |page| == |owner| == |owner'|
    requires forall f: nat | f < |owner| && owner[f] == Free :: page'[f] == page[f]
    requires forall f: nat | f < |owner| :: owner'[f] == Free <==> owner[f] == Free
    ensures FreeOk(page', owner', head, list)
  {
    forall k: nat | k < |list| ensures LinkAt(page', list, k) {
      assert LinkAt(page, list, k) && list[k] in list;
    }
  }

  // ---------- What an operation on directory d leaves alone ----------

  /** Frames changed hands only from free to page-table pages of d. */
  ghost predicate OnlyTables(owner: seq<Owner>, owner': seq<Owner>, d: nat) {
    |owner'| == |owner|
        && forall f: nat | f < |owner| ::
             owner'[f] == owner[f] || (owner[f] == Free && owner'[f].Table? && owner'[f].d == d)
  }

  /** Frames changed hands only from free to parts of d. */
  ghost predicate GrowsFor(owner: seq<Owner>, owner': seq<Owner>, d: nat) {
    |owner'| == |owner|
        && forall f: nat | f < |owner| :: owner'[f] == owner[f] || (owner[f] == Free && Belongs(f, owner'[f], d))
  }

  /** The bytes of mapped and held frames are the same. */
  ghost predicate SameData(page: seq<Page>, page': seq<Page>, owner: seq<Owner>) {
    |page'| == |page| == |owner|
        && forall f: nat | f < |owner| && (owner[f].User? || owner[f].Held?) :: page'[f] == page[f]
  }

  /** Every translation in every directory is the same. */
  ghost predicate SameSpaces(page: seq<Page>, page': seq<Page>, owner: seq<Owner>) {
    forall c: nat, i: nat, j: nat | IsDir(owner, c) :: Translate(page', c, i, j) == Translate(page, c, i, j)
  }

  class Memory {
    const end: nat
    var freelist: Option<nat>
    var page: seq<Page>
    ghost var owner: seq<Owner>
    ghost var list: seq<nat>

    ghost predicate Valid()
      reads this
    {
      && 0 < end <= NFRAMES && |page| == |owner| == NFRAMES && Inv(page, owner) && FreeOk(page, owner, freelist, list)
      && (forall f: nat | f < NFRAMES :: owner[f] == Kernel <==> f < end)
    }

    /** The state kinit1 and kinit2 leave: every frame from `first` up is free, the kernel keeps the rest. */
    constructor (first: nat)
      requires 0 < first <= NFRAMES
      ensures Valid() && end == first && forall f: nat | f < NFRAMES :: owner[f] == if f < first then Kernel else Free
      ensures |list| == NFRAMES - first
    {
      end := first;
      freelist := None;
      page := seq(NFRAMES, _ => ZeroPage());
      owner := seq(NFRAMES, f => if f < first then Kernel else Held);
      list := [];
      new;
      Freerange(end, NFRAMES);
    }

    /** freerange. */
    method Freerange(lo: nat, hi: nat)
      requires Valid() && lo <= hi <= NFRAMES && forall f: nat | lo <= f < hi :: owner[f] == Held
      modifies this`freelist, this`page, this`owner, this`list
      ensures Valid() && forall f: nat | f < NFRAMES :: owner[f] == if lo <= f < hi then Free else old(owner)[f]
      ensures |list| == |old(list)| + (hi - lo)
    {
      hide Inv, FreeOk, SameSpaces;
      var p := lo;
      while p < hi
        invariant lo <= p <= hi && Valid()
                  && forall f: nat | f < NFRAMES :: owner[f] == if lo <= f < p then Free else old(owner)[f]
        invariant |list| == |old(list)| + (p - lo)
      {
        Kfree(p);
        p := p + 1;
      }
    }

    /** kalloc. */
    method Kalloc() returns (r: Option<nat>)
      requires Valid()
      modifies this`freelist, this`owner, this`list
      ensures Valid() && (r.None? <==> forall f: nat | f < NFRAMES :: old(owner)[f] != Free)
      ensures (r.None? <==> old(list) == []) && (r.None? ==> owner == old(owner) && list == old(list))
      ensures r.Some? ==>
                end <= r.value < NFRAMES && old(owner)[r.value] == Free && owner == old(owner)[r.value := Held]
      ensures r.Some? ==> old(list) == [r.value] + list
    {
      r := freelist;
      if r.Some? {
        Popped(page, owner, freelist, list);
        Recolour(page, owner, page, owner[r.value := Held], r.value);
        freelist := page[r.value].next;
        list := list[1..];
        owner := owner[r.value := Held];
      }
    }

    /** kfree.  The range it insists on is a demand on the caller. */
    method Push(f: nat)
      requires |page| == |owner| == NFRAMES && FreeOk(page, owner, freelist, list) && end <= f < NFRAMES
               && owner[f] != Free
      modifies this`freelist, this`page, this`owner, this`list
      ensures FreeOk(page, owner, freelist, list) && owner == old(owner)[f := Free]
              && page == old(page)[f := Run(old(freelist))]
      ensures list == [f] + old(list)
    {
      Pushed(page, owner, freelist, list, f);
      page := page[f := Run(freelist)];
      freelist := Some(f);
      list := [f] + list;
      owner := owner[f := Free];
    }

    /** kfree of a frame that is mapped nowhere. */
    method Kfree(f: nat)
      requires Valid() && f < NFRAMES && owner[f] == Held
      modifies this`freelist, this`page, this`owner, this`list
      ensures Valid() && owner == old(owner)[f := Free] && page == old(page)[f := page[f]] && list == [f] + old(list)
      ensures SameSpaces(old(page), page, owner)
    {
      Recolour(page, owner, page[f := Run(freelist)], owner[f := Free], f);
      assert forall d: nat :: IsDir(owner[f := Free], d) <==> IsDir(owner, d);
      Push(f);
    }

    /** walkpgdir: the page-table page for page v of d, made on demand. */
    method Walk(d: nat, v: nat, alloc: bool) returns (t: Option<nat>)
      requires Valid() && IsDir(owner, d) && v < NPAGES
      modifies this`freelist, this`page, this`owner, this`list
      ensures Valid() && OnlyTables(old(owner), owner, d) && SameSpaces(old(page), page, owner)
              && SameData(old(page), page, old(owner))
      ensures t.Some? ==> t.value < NFRAMES && page[t.value].Entries?
      ensures t.Some? ==>
                Present(EntryOf(page, d, v / NPTE)) && EntryOf(page, d, v / NPTE).frame == t.value
                    && OwnedAs(owner, t.value, Table(d, v / NPTE))
      ensures t.Some? ==> EntryOf(page, d, v / NPTE).flags == {P, W, U}
      ensures Present(EntryOf(old(page), d, v / NPTE)) ==> t.Some?
      ensures t.None? ==> owner == old(owner) && page == old(page) && !Present(EntryOf(page, d, v / NPTE))
      ensures t.None? && alloc ==> forall f: nat | f < NFRAMES :: owner[f] != Free
      ensures alloc ==> (t.Some? <==> Missing(old(page), d, v) <= |old(list)|)
      ensures t.Some? ==> |list| == |old(list)| - Missing(old(page), d, v)
      ensures Present(EntryOf(old(page), d, v / NPTE)) ==> page == old(page) && owner == old(owner) && list == old(list)
      ensures !alloc ==> page == old(page) && owner == old(owner) && list == old(list)
      ensures forall c: nat, k: nat | IsDir(owner, c) && !(c == d && k == v / NPTE) ::
                EntryOf(page, c, k) == EntryOf(old(page), c, k)
    {
      hide FreeOk, UsersOwned, Present;
      var i := v / NPTE;
      var pde := EntryOf(page, d, i);
      if Present(pde) {
        assert OwnedAs(owner, pde.frame, Table(d, i));
        return Some(pde.frame);
      }
      if !alloc {
        return None;
      }
      t := Kalloc();
      if t.None? {
        return;
      }
      ghost var own1 := owner;
      var f := t.value;
      ghost var page' := page[f := EmptyTable()][d := Entries(page[d].e[i := Pte(f, {P, W, U})])];
      NewTable(page, owner, d, i, f, page');
      FreeUntouched(page, owner, freelist, list, page', owner[f := Table(d, i)]);
      page := page[f := EmptyTable()];
      page := page[d := Entries(page[d].e[i := Pte(f, {P, W, U})])];
      owner := owner[f := Table(d, i)];
      assert forall c: nat :: IsDir(owner, c) <==> IsDir(own1, c);
    }

    /** One round of mappages. */
    method MapOne(d: nat, v: nat, f: nat, perm: set<nat>) returns (r: MapResult)
      requires Valid() && IsDir(owner, d) && v < NPAGES
      requires v < USERPAGES ==> OwnedAs(owner, f, Held) && page[f].Raw?
      requires v >= USERPAGES ==> U !in perm
      modifies this`freelist, this`page, this`owner, this`list
      ensures Valid() && Mapped(old(page), page, old(owner), d, v, if r.Done? then 1 else 0, f, perm)
      ensures OnlyTables(if r.Done? then Taken(old(owner), d, v, f) else old(owner), owner, d)
              && SameData(old(page), page, old(owner))
      ensures r.Remap? <==> Present(Lookup(old(page), d, v))
      ensures r.NoMemory? <==> Missing(old(page), d, v) > |old(list)|
      ensures r.NoMemory? ==> forall f: nat | f < NFRAMES :: owner[f] != Free
      ensures r.Done? ==> |list| == |old(list)| - Missing(old(page), d, v)
      ensures r.Done? ==> TablesFilled(old(page), page, d, v / NPTE, v / NPTE + 1)
      ensures v >= USERPAGES ==> SameUserTables(old(page), page, d)
    {
      hide Inv, FreeOk, SameSpaces, Translate, Lookup, OnlyTables;
      ghost var page0 := page;
      TableOfMapped(page, d, v);
      var t := Walk(d, v, true);
      WalkData(page0, page, old(owner), owner, d, v, f, perm);
      if t.None? {
        return NoMemory;
      }
      PresentAt(page, d, v, t.value);
      WalkLookup(page0, page, owner, d, v);
      if Present(page[t.value].e[v % NPTE]) {
        return Remap;
      }
      var j, e := v % NPTE, Pte(f, perm + {P});
      MapStep(old(page), old(owner), page, owner, freelist, list, d, v, t.value, f, perm,
              page[t.value := Entries(page[t.value].e[j := e])]);
      page := page[t.value := Entries(page[t.value].e[j := e])];
      owner := Taken(owner, d, v, f);
      return Done;
    }

    /** mappages for n pages. */
    method Mappages(d: nat, v: nat, n: nat, f: nat, perm: set<nat>) returns (r: MapResult, ghost done: nat)
      requires Valid() && IsDir(owner, d) && 0 < n && v + n <= NPAGES
      requires v < USERPAGES ==> n == 1 && OwnedAs(owner, f, Held) && page[f].Raw?
      requires v >= USERPAGES ==> U !in perm
      modifies this`freelist, this`page, this`owner, this`list
      ensures Valid() && done <= n && (r.Done? <==> done == n)
      ensures Mapped(old(page), page, old(owner), d, v, done, f, perm)
      ensures OnlyTables(if r.Done? then Taken(old(owner), d, v, f) else old(owner), owner, d)
              && SameData(old(page), page, old(owner))
      ensures r.Remap? <==> Unused(old(page), d, v, n) < n
                            && NoTables(old(page), d, v, Unused(old(page), d, v, n)) <= |old(list)|
      ensures r.NoMemory? <==> NoTables(old(page), d, v, Unused(old(page), d, v, n)) > |old(list)|
      ensures r.Done? ==> |list| == |old(list)| - NoTables(old(page), d, v, n)
      ensures r.Done? ==> TablesFilled(old(page), page, d, v / NPTE, TableEnd(v, n))
      ensures r.NoMemory? ==> forall f: nat | f < NFRAMES :: owner[f] != Free
      ensures v >= USERPAGES ==> SameUserTables(old(page), page, d)
    {
      hide Inv, FreeOk, Translate, Lookup, NoTables, TablesFilled, TableEnd, Filling, Unused, Missing;
      var a, pa := v, f;
      done := 0;
      ghost var n0 := |list|;
      FillingNone(page, d, v, n, n0);
      while true
        invariant done < n && a == v + done && pa == f + done && Valid() && IsDir(owner, d)
        invariant Mapped(old(page), page, old(owner), d, v, done, f, perm)
        invariant OnlyTables(old(owner), owner, d) && SameData(old(page), page, old(owner))
        invariant v < USERPAGES ==> OwnedAs(owner, f, Held) && page[f].Raw?
        invariant v >= USERPAGES ==> SameUserTables(old(page), page, d)
        invariant Filling(old(page), page, d, v, done, n, n0, |list|)
        decreases n - done
      {
        ghost var page1, n1 := page, |list|;
        r := MapOne(d, a, pa, perm);
        FillingNext(old(page), page1, page, d, v, done, n, n0, n1, |list|);
        if !r.Done? {
          return;
        }
        MappedMore(old(page), page1, page, old(owner), d, v, done, f, perm);
        done := done + 1;
        if a == v + n - 1 {
          break;
        }
        a, pa := a + 1, pa + 1;
      }
      FillingAll(old(page), page, d, v, n, n0, |list|);
      return Done, done;
    }

    /** deallocuvm for one present page. */
    method UnmapOne(d: nat, v: nat, t: nat)
      requires Valid() && IsDir(owner, d) && v < USERPAGES && Present(Lookup(page, d, v))
      requires OwnedAs(owner, t, Table(d, v / NPTE)) && EntryOf(page, d, v / NPTE).frame == t
               && Present(EntryOf(page, d, v / NPTE))
      modifies this`freelist, this`page, this`owner, this`list
      ensures Valid() && Cleared(old(page), page, owner, d, v, v + 1) && owner == FreedRange(old(owner), d, v, v + 1)
      ensures forall g: nat | g < NFRAMES && (owner[g].User? || owner[g].Held?) :: page[g] == old(page)[g]
    {
      var i, j := v / NPTE, v % NPTE;
      var f := page[t].e[j].frame;
      assert OwnedAs(owner, f, User(d, i, j));
      ghost var page2 := page[f := Run(freelist)][t := Entries(page[t].e[j := Unmapped()])];
      UnmapUser(page, owner, d, i, j, page2);
      LookupExcept(page, page2, owner, d, v, Unmapped());
      FreedOne(page, owner, d, v, f);
      Push(f);
      FreeUntouched(page, owner, freelist, list, page2, owner);
      page := page[t := Entries(page[t].e[j := Unmapped()])];
      assert forall c: nat :: IsDir(owner, c) <==> IsDir(old(owner), c);
    }

    /** deallocuvm below the kernel. */
    method Deallocuvm(d: nat, oldsz: nat, newsz: nat) returns (r: nat)
      requires Valid() && IsDir(owner, d) && oldsz <= KERNBASE
      modifies this`freelist, this`page, this`owner, this`list
      ensures Valid() && r == (if newsz >= oldsz then oldsz else newsz)
      ensures newsz >= oldsz ==> page == old(page) && owner == old(owner)
      ensures newsz < oldsz ==> Cleared(old(page), page, owner, d, PagesUp(newsz), PagesUp(oldsz))
      ensures newsz < oldsz ==> owner == FreedRange(old(owner), d, PagesUp(newsz), PagesUp(oldsz))
      ensures newsz < oldsz ==>
                forall c: nat, a: nat | IsDir(owner, c) && a < KERNBASE ::
                  UserByte(page, c, a) == if c == d && PagesUp(newsz) * PGSIZE <= a < PagesUp(oldsz) * PGSIZE then 0
                                          else UserByte(old(page), c, a)
      ensures forall g: nat | g < NFRAMES && (owner[g].User? || owner[g].Held?) :: page[g] == old(page)[g]
    {
      hide Inv, FreeOk, Translate, Lookup, UserByte;
      if newsz >= oldsz {
        return oldsz;
      }
      ghost var page0, own0, lo, hi := page, owner, PagesUp(newsz), PagesUp(oldsz);
      var v := PagesUp(newsz);
      FreedNone(own0, d, lo);
      while v * PGSIZE < oldsz
        invariant lo <= v <= USERPAGES && Valid() && IsDir(owner, d)
        invariant Cleared(page0, page, owner, d, lo, v) && owner == FreedRange(own0, d, lo, v)
        invariant forall g: nat | g < NFRAMES && (owner[g].User? || owner[g].Held?) :: page[g] == page0[g]
        invariant forall x: nat | hi <= x < v :: !Present(Lookup(page0, d, x))
        decreases USERPAGES - v
      {
        ghost var page1, own1 := page, owner;
        var t := Walk(d, v, false);
        if t.None? {
          Skipped(page0, page, own0, owner, d, lo, v);
          v := (v / NPTE + 1) * NPTE;
        } else {
          PresentAt(page, d, v, t.value);
          if Present(page[t.value].e[v % NPTE]) {
            UnmapOne(d, v, t.value);
            FreedMore(own0, d, lo, v);
            ClearedMore(page0, page1, page, own1, owner, d, lo, v);
          } else {
            NotMapped(page0, page, own0, owner, d, lo, v);
          }
          v := v + 1;
        }
      }
      SameRange(page0, page, own0, owner, d, lo, hi, v);
      ClearedBytes(page0, page, owner, d, lo, hi);
      return newsz;
    }

    /** freevm. */
    method Freevm(d: nat)
      requires Valid() && IsDir(owner, d)
      modifies this`freelist, this`page, this`owner, this`list
      ensures Valid() && owner == Released(old(owner), d, Free) && SameLookups(old(page), page, owner)
      ensures forall f: nat | f < NFRAMES ::
                owner[f] == if f == d || (old(owner)[f].Table? && old(owner)[f].d == d)
                               || (old(owner)[f].User? && old(owner)[f].d == d) then Free else old(owner)[f]
      ensures forall g: nat | g < NFRAMES && (owner[g].User? || owner[g].Held?) :: page[g] == old(page)[g]
    {
      hide Inv, FreeOk, Translate, FreedRange, Released, EntryOf;
      var sz := Deallocuvm(d, KERNBASE, 0);
      ghost var page1, own1 := page, owner;
      AllUsersFreed(old(page), old(owner), own1, d);
      RetireTables(page, owner, d);
      RetiredIsFree(page, owner, freelist, list, d);
      owner := Released(owner, d, Held);
      var i := 0;
      while i < NPTE
        invariant 0 <= i <= NPTE && Valid() && |own1| == NFRAMES && owner == Freeing(own1, d, i) && page[d] == page1[d]
        invariant SameLookups(page1, page, owner)
        invariant forall g: nat | g < NFRAMES && (owner[g].User? || own1[g].Held?) :: page[g] == page1[g]
      {
        var e := EntryOf(page, d, i);
        FreeingStep(page1, own1, page, d, i);
        if Present(e) {
          Kfree(e.frame);
        }
        i := i + 1;
      }
      FreeingDone(page1, own1, d);
      Kfree(d);
      assert owner == Released(old(owner), d, Free);
      ReleasedMeans(old(owner), d);
    }

    /** setupkvm's start: a zeroed page for the directory. */
    method NewDirectory() returns (r: Option<nat>)
      requires Valid()
      modifies this`freelist, this`page, this`owner, this`list
      ensures Valid() && SameLookups(old(page), page, old(owner)) && SameData(old(page), page, old(owner))
      ensures r.None? <==> forall f: nat | f < NFRAMES :: old(owner)[f] != Free
      ensures (r.None? <==> old(list) == []) && (r.Some? ==> |list| == |old(list)| - 1)
      ensures r.None? ==> owner == old(owner)
      ensures r.Some? ==> OwnedAs(old(owner), r.value, Free) && owner == old(owner)[r.value := Dir]
      ensures r.Some? ==> forall x: nat :: Lookup(page, r.value, x) == Unmapped()
      ensures r.Some? ==> forall k: nat :: !Present(EntryOf(page, r.value, k))
    {
      hide Inv, FreeOk, Translate;
      r := Kalloc();
      if r.Some? {
        var d := r.value;
        DirAdded(page, old(owner), owner, freelist, list, d, page[d := EmptyTable()]);
        page := page[d := EmptyTable()];
        owner := owner[d := Dir];
      }
    }

    /**
    setupkvm, for a kernel whose data segment starts at frame `data`.  It succeeds exactly when
    KERNELFRAMES frames are free.
    */
    method Setupkvm(data: nat) returns (r: Option<nat>)
      requires Valid() && EXTFRAME < data < NFRAMES
      modifies this`freelist, this`page, this`owner, this`list
      ensures Valid() && SameLookups(old(page), page, old(owner)) && SameData(old(page), page, old(owner))
      ensures r.None? ==> owner == old(owner)
      ensures r.Some? ==>
                && OwnedAs(old(owner), r.value, Free) && IsDir(owner, r.value)
                   && OnlyTables(old(owner)[r.value := Dir], owner, r.value)
                && (forall x: nat :: Lookup(page, r.value, x) == KernelEntry(data, x))
                && forall k: nat | k < USERDIRS :: !Present(EntryOf(page, r.value, k))
      ensures r.Some? <==> KERNELFRAMES <= |old(list)|
      ensures r.Some? ==> |list| == |old(list)| - KERNELFRAMES
      ensures r.Some? ==> forall k: nat :: Present(EntryOf(page, r.value, k)) <==> KernelTable(k)
    {
      hide Inv, FreeOk, Translate, Released, Kmap, Typed, NoTables, TablesFilled, KernelTables, Unused, Lookup;
      r := NewDirectory();
      if r.None? {
        return;
      }
      var d := r.value;
      NoKernelTables(page, d, data);
      var k := 0;
      while k < 4
        invariant 0 <= k <= 4 && Valid() && IsDir(owner, d) && OnlyTables(old(owner)[d := Dir], owner, d)
        invariant SameLookups(old(page), page, old(owner)) && SameData(old(page), page, old(owner))
        invariant forall x: nat ::
                    Lookup(page, d, x) == if Region(data, x) < k then KernelEntry(data, x) else Unmapped()
        invariant KernelTables(page, d, data, k) && |list| == |old(list)| - 1 - KernelCount(data, k)
      {
        var m := Kmap(data)[k];
        var n := (m.end + NPAGES - m.start) % NPAGES;
        KmapStep(data, k);
        KmapTables(page, d, data, k, m.virt, n);
        ghost var page1, own1 := page, owner;
        var ok, done := Mappages(d, m.virt, n, m.start, m.perm);
        assert forall c: nat | IsDir(old(owner), c) :: IsDir(own1, c) && c != d;
        if !ok.Done? {
          ReleaseUndoes(old(page), old(owner), owner, d);
          Freevm(d);
          return None;
        }
        assert Mapped(page1, page, own1, d, m.virt, n, m.start, m.perm);
        KmapTablesNext(page1, page, d, data, k, m.virt, n);
        k := k + 1;
      }
      AllKernelTables(page, d, data);
    }

    /** allocuvm.  As in mappages, the pages to be added must not be mapped already. */
    method Allocuvm(d: nat, oldsz: nat, newsz: nat) returns (r: nat)
      requires Valid() && IsDir(owner, d)
      requires newsz < KERNBASE ==> forall x: nat | PagesUp(oldsz) <= x < PagesUp(newsz) :: !Present(Lookup(page, d, x))
      modifies this`freelist, this`page, this`owner, this`list
      ensures Valid() && SameData(old(page), page, old(owner))
      ensures newsz >= KERNBASE ==> r == 0
      ensures newsz < oldsz && newsz < KERNBASE ==> r == oldsz
      ensures newsz >= KERNBASE || newsz < oldsz ==> page == old(page) && owner == old(owner)
      ensures oldsz <= newsz < KERNBASE ==> r == newsz || r == 0
      ensures oldsz <= newsz < KERNBASE && r == newsz ==>
                Grown(old(page), page, old(owner), owner, d, PagesUp(oldsz), PagesUp(newsz))
      ensures oldsz <= newsz < KERNBASE && r == newsz ==>
                && (forall x: nat | PagesUp(oldsz) <= x < PagesUp(newsz) :: Lookup(page, d, x).flags == {P, W, U})
                && (forall c: nat, a: nat | IsDir(old(owner), c) && a < KERNBASE ::
                      UserByte(page, c, a) == if c == d && PagesUp(oldsz) * PGSIZE <= a < PagesUp(newsz) * PGSIZE then 0
                                              else UserByte(old(page), c, a))
      ensures oldsz <= newsz < KERNBASE && r != newsz ==>
                SameLookups(old(page), page, old(owner)) && OnlyTables(old(owner), owner, d)
      ensures oldsz <= newsz < KERNBASE ==>
                (r == newsz <==> FramesFor(old(page), d, PagesUp(oldsz), PagesUp(newsz)) <= |old(list)|)
      ensures oldsz <= newsz < KERNBASE && r == newsz ==>
                && |list| == |old(list)| - FramesFor(old(page), d, PagesUp(oldsz), PagesUp(newsz))
                && TablesFilled(old(page), page, d, PagesUp(oldsz) / NPTE,
                                TableEnd(PagesUp(oldsz), PagesUp(newsz) - PagesUp(oldsz)))
    {
      hide Inv, FreeOk, Lookup, UserByte, FramesFor, TablesFilled, PagesUp, TableEnd, Grown;
      if newsz >= KERNBASE {
        return 0;
      }
      if newsz < oldsz {
        return oldsz;
      }
      ghost var page0, own0 := page, owner;
      var ok := AddPages(d, oldsz, newsz);
      if ok {
        GrownBytes(page0, page, own0, owner, d, PagesUp(oldsz), PagesUp(newsz));
      }
      return if ok then newsz else 0;
    }

    /** allocuvm's loop. */
    method AddPages(d: nat, oldsz: nat, newsz: nat) returns (ok: bool)
      requires Valid() && IsDir(owner, d) && oldsz <= newsz < KERNBASE
      requires forall x: nat | PagesUp(oldsz) <= x < PagesUp(newsz) :: !Present(Lookup(page, d, x))
      modifies this`freelist, this`page, this`owner, this`list
      ensures Valid() && SameData(old(page), page, old(owner)) && (!ok ==> newsz > 0)
      ensures ok ==> Grown(old(page), page, old(owner), owner, d, PagesUp(oldsz), PagesUp(newsz))
      ensures !ok ==> SameLookups(old(page), page, old(owner)) && OnlyTables(old(owner), owner, d)
      ensures ok <==> FramesFor(old(page), d, PagesUp(oldsz), PagesUp(newsz)) <= |old(list)|
      ensures ok ==>
                && |list| == |old(list)| - FramesFor(old(page), d, PagesUp(oldsz), PagesUp(newsz))
                && TablesFilled(old(page), page, d, PagesUp(oldsz) / NPTE,
                                TableEnd(PagesUp(oldsz), PagesUp(newsz) - PagesUp(oldsz)))
    {
      hide Inv, FreeOk, Translate, Lookup, Grown, OnlyTables, SameData, SameLookups, TablesFilled, Missing, Spent;
      hide FramesFor, PagesUp, TableEnd;
      PagesGrow(oldsz, newsz);
      ghost var page0, own0, lo, hi, n0 := page, owner, PagesUp(oldsz), PagesUp(newsz), |list|;
      var v := PagesUp(oldsz);
      PagesBelow(v, newsz);
      GrownNone(page, owner, d, lo);
      SpentNone(page, d, lo, n0);
      while v * PGSIZE < newsz
        invariant lo <= v <= hi && Valid() && IsDir(owner, d) && Grown(page0, page, own0, owner, d, lo, v)
        invariant Spent(page0, page, d, lo, v, n0, |list|) && (v * PGSIZE < newsz <==> v < hi)
      {
        ghost var page1, n1 := page, |list|;
        ok := AddPage(d, v, oldsz, newsz, page0, own0);
        SpentNext(page0, page1, page, d, lo, v, hi, n0, n1, |list|);
        if !ok {
          return;
        }
        v := v + 1;
        PagesBelow(v, newsz);
      }
      GrownData(page0, page, own0, owner, d, lo, v);
      SpentAll(page0, page, d, lo, hi, n0, |list|);
      return true;
    }

    /** One round of allocuvm's loop, with its two ways of backing out. */
    method AddPage(d: nat, v: nat, oldsz: nat, newsz: nat, ghost page0: seq<Page>,
                   ghost own0: seq<Owner>) returns (ok: bool)
      requires Valid() && IsDir(owner, d) && PagesUp(oldsz) <= v < PagesUp(newsz) && oldsz <= newsz < KERNBASE
      requires Inv(page0, own0) && IsDir(own0, d) && Grown(page0, page, own0, owner, d, PagesUp(oldsz), v)
      requires forall x: nat | PagesUp(oldsz) <= x < PagesUp(newsz) :: !Present(Lookup(page0, d, x))
      modifies this`freelist, this`page, this`owner, this`list
      ensures Valid()
      ensures ok ==> IsDir(owner, d) && Grown(page0, page, own0, owner, d, PagesUp(oldsz), v + 1)
      ensures !ok ==> SameLookups(page0, page, own0) && OnlyTables(own0, owner, d) && SameData(page0, page, own0)
      ensures ok <==> 1 + Missing(old(page), d, v) <= |old(list)|
      ensures ok ==> |list| == |old(list)| - 1 - Missing(old(page), d, v)
      ensures ok ==> TablesFilled(old(page), page, d, v / NPTE, v / NPTE + 1)
    {
      hide Inv, FreeOk, Translate, FreedRange, Grown, Mapped, Cleared, Lookup, OnlyTables, SameData, Taken, SameSpaces;
      hide NoTables, TablesFilled, TableEnd, Missing, EntryOf, Unused;
      ghost var lo, hi := PagesUp(oldsz), PagesUp(newsz);
      NextUnmapped(page0, page, own0, owner, d, lo, v);
      ghost var page1, own1 := page, owner;
      var mem := Kalloc();
      if mem.None? {
        var sz := Deallocuvm(d, newsz, oldsz);
        BackedOut(page0, page1, page, own0, own1, owner, d, lo, v, hi);
        return false;
      }
      var f := mem.value;
      HeldWrite(page, owner, freelist, list, f, ZeroPage());
      page := page[f := ZeroPage()];
      ghost var page2 := page;
      OtherFrame(page1, page2, d, f, v);
      OneTable(page2, d, v);
      var mapped, done := Mappages(d, v, 1, f, {W, U});
      ok := mapped.Done?;
      if ok {
        OtherFrameTables(page1, page2, page, d, f, v);
        GrownMore(page0, page1, page2, page, own0, own1, owner, d, lo, v, f);
      } else {
        ghost var page3, own3 := page, owner;
        GrownHeld(page0, page1, page2, page, own0, own1, owner, d, lo, v, f);
        UndoHeld(owner, d, lo, hi, f);
        var sz := Deallocuvm(d, newsz, oldsz);
        ghost var page4 := page;
        Kfree(f);
        ClearedStill(page3, page4, page, FreedRange(own3, d, lo, hi), owner, d, lo, hi);
        BackedOut(page0, page3, page, own0, own3[f := Free], owner, d, lo, v, hi);
      }
    }

    /** copyuvm.  Its two panics, on a page below sz that is not mapped, are a demand on the caller. */
    method Copyuvm(d: nat, sz: nat, data: nat) returns (r: Option<nat>)
      requires Valid() && IsDir(owner, d) && sz <= KERNBASE && EXTFRAME < data < NFRAMES
      requires forall x: nat | x < PagesUp(sz) :: Present(Lookup(page, d, x))
      modifies this`freelist, this`page, this`owner, this`list
      ensures Valid() && SameLookups(old(page), page, old(owner)) && SameData(old(page), page, old(owner))
      ensures r.None? ==> owner == old(owner)
      ensures r.Some? ==>
                OwnedAs(old(owner), r.value, Free)
                    && Copying(old(page), old(owner), page, owner, d, r.value, PagesUp(sz), data)
      ensures r.Some? ==>
                forall a: nat | a < sz ::
                      UserByte(page, r.value, a) == UserByte(page, d, a) == UserByte(old(page), d, a)
      ensures r.Some? <==> KERNELFRAMES + PagesUp(sz) + TableEnd(0, PagesUp(sz)) <= |old(list)|
      ensures r.Some? ==> |list| == |old(list)| - (KERNELFRAMES + PagesUp(sz) + TableEnd(0, PagesUp(sz)))
    {
      hide Inv, FreeOk, Translate, Released, Copying, Lookup, OnlyTables, TablesFilled, TableEnd, Missing, Spent;
      hide UserByte, FramesFor, PagesUp;
      r := Setupkvm(data);
      if r.None? {
        return;
      }
      var c, v := r.value, 0;
      ghost var page0, hi, n0 := page, PagesUp(sz), |list|;
      FreshFrames(page0, c, sz);
      SpentNone(page0, c, 0, n0);
      PagesBelow(v, sz);
      CopyStart(old(page), old(owner), page, owner, d, c, data);
      while v * PGSIZE < sz
        invariant v <= hi && Valid() && IsDir(owner, c) && Copying(old(page), old(owner), page, owner, d, c, v, data)
        invariant Spent(page0, page, c, 0, v, n0, |list|) && (v * PGSIZE < sz <==> v < hi)
      {
        ghost var page1, n1 := page, |list|;
        var ok := CopyPage(d, c, v, data, old(page), old(owner));
        SpentNext(page0, page1, page, c, 0, v, hi, n0, n1, |list|);
        if !ok {
          ReleaseUndoes(old(page), old(owner), owner, c);
          Freevm(c);
          return None;
        }
        v := v + 1;
        PagesBelow(v, sz);
      }
      SpentAll(page0, page, c, 0, hi, n0, |list|);
      CopyDone(old(page), old(owner), page, owner, d, c, sz, data);
    }

    /** One round of copyuvm's loop. */
    method CopyPage(d: nat, c: nat, v: nat, data: nat, ghost page0: seq<Page>,
                    ghost own0: seq<Owner>) returns (ok: bool)
      requires Valid() && IsDir(own0, d) && IsDir(owner, c) && OwnedAs(own0, c, Free) && v < USERPAGES
      requires Copying(page0, own0, page, owner, d, c, v, data) && Present(Lookup(page0, d, v)) && Inv(page0, own0)
      modifies this`freelist, this`page, this`owner, this`list
      ensures Valid() && IsDir(owner, c)
      ensures ok ==> Copying(page0, own0, page, owner, d, c, v + 1, data)
      ensures !ok ==> GrowsFor(own0, owner, c) && SameLookups(page0, page, own0) && SameData(page0, page, own0)
      ensures ok <==> 1 + Missing(old(page), c, v) <= |old(list)|
      ensures ok ==> |list| == |old(list)| - 1 - Missing(old(page), c, v)
      ensures ok ==> TablesFilled(old(page), page, c, v / NPTE, v / NPTE + 1)
    {
      hide Inv, FreeOk, Translate, Released, Copying, OnlyTables, Mapped, SameSpaces, EntryOf, SameData, Taken;
      hide NoTables, TablesFilled, TableEnd, Missing, Unused;
      CopyFacts(page0, own0, page, owner, d, c, v, data);
      var t := Walk(d, v, false);
      var e := page[t.value].e[v % NPTE];
      EntryIs(page, d, v, t.value);
      ghost var page1, own1 := page, owner;
      var mem := Kalloc();
      if mem.None? {
        return false;
      }
      var f := mem.value;
      HeldWrite(page, owner, freelist, list, f, page[e.frame]);
      page := page[f := page[e.frame]];
      ghost var page2 := page;
      OtherFrame(page1, page2, c, f, v);
      OneTable(page2, c, v);
      var mapped, done := Mappages(c, v, 1, f, e.flags);
      ok := mapped.Done?;
      if ok {
        OtherFrameTables(page1, page2, page, c, f, v);
        CopyMore(page0, own0, page1, page2, page, own1, owner, d, c, v, data, f);
      } else {
        CopyFails(page0, own0, page1, page2, page, own1, owner, d, c, v, data, f, e.flags);
        ghost var page3, own3 := page, owner;
        Kfree(f);
        FailsClean(page0, own0, page3, page, own3, owner, c, f);
      }
    }

    /**
    copyout.  NullRead is uva2ka reading an entry through the null pointer walkpgdir returns for a page
    whose page-table page is missing, at whatever address 0 then holds;
        it happens exactly when such a page is the first one in the range
    that user code may not touch.
    */
    method CopyOut(d: nat, va: nat, src: seq<Byte>) returns (r: CopyResult, ghost done: nat)
      requires Valid() && IsDir(owner, d) && va < NPAGES * PGSIZE
      modifies this`page
      ensures Valid() && SameLookups(old(page), page, owner) && done <= |src|
      ensures r.Copied? <==> forall x: nat | InPages(va, |src|, x) :: U in Lookup(page, d, x).flags
      ensures r.Refused? <==> exists x: nat :: FirstBad(page, d, va, |src|, x) && Present(EntryOf(page, d, x / NPTE))
      ensures r.NullRead? <==> exists x: nat :: FirstBad(page, d, va, |src|, x) && !Present(EntryOf(page, d, x / NPTE))
      ensures r.Copied? ==> done == |src|
      ensures forall c: nat, i: nat | IsDir(owner, c) :: EntryOf(page, c, i) == EntryOf(old(page), c, i)
      ensures Stored(old(page), page, owner, d, va, src[..done]) && (va + done <= KERNBASE || done == 0)
    {
      hide Inv, FreeOk, Translate, Lookup, UserByte, EntryOf, Stored;
      done := 0;
      var a, k := va, 0;
      StoredNone(page, owner, d, va, src[..0]);
      while k < |src|
        invariant k <= |src| && a == va + k && done == k && Valid() && SameLookups(old(page), page, owner)
        invariant forall c: nat, i: nat | IsDir(owner, c) :: EntryOf(page, c, i) == EntryOf(old(page), c, i)
        invariant a == va || a % PGSIZE == 0 || k == |src|
        invariant Stored(old(page), page, owner, d, va, src[..k])
        invariant forall x: nat | va / PGSIZE <= x && x * PGSIZE < a && 0 < k :: U in Lookup(page, d, x).flags
        invariant va + k <= KERNBASE || k == 0
      {
        ghost var page1, v := page, a / PGSIZE;
        var n := if PGSIZE - a % PGSIZE > |src| - k then |src| - k else PGSIZE - a % PGSIZE;
        Reached(page, d, va, |src|, a);
        r := CopyPiece(d, a, src[k..k + n]);
        if !r.Copied? {
          OneFirstBad(page, d, va, |src|, v);
          return r, k;
        }
        StoredMore(old(page), page1, page, owner, d, va, src[..k], src[k..k + n], src[..k + n]);
        k, a := k + n, a + n;
        done := k;
      }
      return Copied, k;
    }

    /** One round of copyout: uva2ka, then the memmove within that page. */
    method CopyPiece(d: nat, a: nat, src: seq<Byte>) returns (r: CopyResult)
      requires Valid() && IsDir(owner, d) && a < NPAGES * PGSIZE && a % PGSIZE + |src| <= PGSIZE
      modifies this`page
      ensures Valid() && SameLookups(old(page), page, owner)
      ensures forall c: nat, i: nat | IsDir(owner, c) :: EntryOf(page, c, i) == EntryOf(old(page), c, i)
      ensures r.Copied? <==> U in Lookup(page, d, a / PGSIZE).flags
      ensures r.NullRead? <==> !Present(EntryOf(page, d, a / PGSIZE / NPTE))
      ensures if r.Copied? then Stored(old(page), page, owner, d, a, src) && a / PGSIZE < USERPAGES
              else page == old(page)
    {
      hide Inv, FreeOk, Translate, Lookup, UserByte, EntryOf, Stored, PagePatch;
      var v := a / PGSIZE;
      var pde := EntryOf(page, d, v / NPTE);
      if P !in pde.flags {
        NoEntry(page, d, v);
        return NullRead;
      }
      TableThere(page, owner, d, v);
      var e := page[pde.frame].e[v % NPTE];
      if P !in e.flags || U !in e.flags {
        return Refused;
      }
      UserWritable(page, owner, d, v);
      UserStore(page, owner, freelist, list, d, a, src, PagePatch(page[e.frame].at, a % PGSIZE, src));
      page := page[e.frame := Raw(PagePatch(page[e.frame].at, a % PGSIZE, src))];
      return Copied;
    }
  }

  /** How mappages ends: Remap is its panic on a page already mapped. */
  datatype MapResult = Done | NoMemory | Remap

  /** Whether the page-table page for page v is missing, as a number of frames to allocate. */
  ghost function Missing(page: seq<Page>, d: nat, v: nat): (n: nat) {
    if Present(EntryOf(page, d, v / NPTE)) then 0 else 1
  }

  /** The first directory index past pages v .. v + n. */
  function TableEnd(v: nat, n: nat): (k: nat) { if n == 0 then v / NPTE else (v + n - 1) / NPTE + 1 }

  /** How many of the directory entries lo .. hi are missing. */
  ghost function Absent(page: seq<Page>, d: nat, lo: nat, hi: nat): (n: nat) {
    if hi <= lo then 0 else Absent(page, d, lo, hi - 1) + if Present(EntryOf(page, d, hi - 1)) then 0 else 1
  }

  /** How many page-table pages are missing for pages v .. v + n. */
  ghost function NoTables(page: seq<Page>, d: nat, v: nat, n: nat): (k: nat) {
    Absent(page, d, v / NPTE, TableEnd(v, n))
  }

  /** How many of pages v .. v + n come before the first one that is mapped. */
  ghost function Unused(page: seq<Page>, d: nat, v: nat, n: nat): (k: nat)
    ensures k <= n && (forall x: nat | v <= x < v + k :: !Present(Lookup(page, d, x)))
    ensures k < n ==> Present(Lookup(page, d, v + k))
    decreases n
  {
    if n == 0 || Present(Lookup(page, d, v)) then 0 else 1 + Unused(page, d, v + 1, n - 1)
  }

  /** The page-table pages of entries lo .. hi of d are there; the others only if they were. */
  ghost predicate TablesFilled(page: seq<Page>, page': seq<Page>, d: nat, lo: nat, hi: nat) {
    forall k: nat :: Present(EntryOf(page', d, k)) <==> Present(EntryOf(page, d, k)) || lo <= k < hi
  }

  lemma {:induction false} MapStart(page: seq<Page>, d: nat, v: nat)
    ensures NoTables(page, d, v, 0) == 0 && TablesFilled(page, page, d, v / NPTE, TableEnd(v, 0))
  {
  }

  /** The next page needs what the longer range needs more. */
  lemma {:induction false} TablesNext(page0: seq<Page>, page: seq<Page>, d: nat, v: nat, k: nat, n: nat)
    requires TablesFilled(page0, page, d, v / NPTE, TableEnd(v, k)) && k < n
    ensures NoTables(page0, d, v, k + 1) == NoTables(page0, d, v, k) + Missing(page, d, v + k)
    ensures forall m: nat | k < m <= n :: NoTables(page0, d, v, k + 1) <= NoTables(page0, d, v, m)
  {
    NextTable(v, k);
    assert Present(EntryOf(page, d, (v + k) / NPTE)) <==>
             Present(EntryOf(page0, d, (v + k) / NPTE)) || v / NPTE <= (v + k) / NPTE < TableEnd(v, k);
    forall m: nat | k < m <= n ensures NoTables(page0, d, v, k + 1) <= NoTables(page0, d, v, m) {
      AbsentGrow(page0, d, v / NPTE, TableEnd(v, k + 1), TableEnd(v, m));
    }
  }

  lemma {:induction false} NextTable(v: nat, k: nat)
    ensures v / NPTE <= (v + k) / NPTE && TableEnd(v, k + 1) == (v + k) / NPTE + 1
    ensures TableEnd(v, k) == (v + k) / NPTE || TableEnd(v, k) == (v + k) / NPTE + 1
    ensures v / NPTE <= TableEnd(v, k)
  {
  }

  lemma {:induction false} AbsentGrow(page: seq<Page>, d: nat, lo: nat, mid: nat, hi: nat)
    requires mid <= hi
    ensures Absent(page, d, lo, mid) <= Absent(page, d, lo, hi)
    decreases hi
  {
    if mid < hi {
      AbsentGrow(page, d, lo, mid, hi - 1);
    }
  }

  lemma {:induction false} TablesFilledNext(page0: seq<Page>, page1: seq<Page>, page: seq<Page>, d: nat, v: nat, k: nat)
    requires TablesFilled(page0, page1, d, v / NPTE, TableEnd(v, k))
    requires TablesFilled(page1, page, d, (v + k) / NPTE, (v + k) / NPTE + 1)
    ensures TablesFilled(page0, page, d, v / NPTE, TableEnd(v, k + 1))
  {
    NextTable(v, k);
  }

  /** After k of n pages from v, all of them unmapped before, with n0 frames free at the start and n1 now. */
  ghost predicate Filling(page0: seq<Page>, page: seq<Page>, d: nat, v: nat, k: nat, n: nat, n0: nat, n1: nat) {
    && k <= Unused(page0, d, v, n) && n1 == n0 - NoTables(page0, d, v, k)
    && TablesFilled(page0, page, d, v / NPTE, TableEnd(v, k))
  }

  lemma {:induction false} FillingNone(page: seq<Page>, d: nat, v: nat, n: nat, n0: nat)
    ensures Filling(page, page, d, v, 0, n, n0, n0)
  {
    MapStart(page, d, v);
  }

  /** One round of mappages in terms of the whole range. */
  lemma {:induction false} FillingNext(page0: seq<Page>, page1: seq<Page>, page: seq<Page>, d: nat, v: nat, k: nat,
                                       n: nat, n0: nat, n1: nat, n2: nat)
    requires Filling(page0, page1, d, v, k, n, n0, n1) && k < n
    ensures var q := Unused(page0, d, v, n);
            if Present(Lookup(page0, d, v + k)) then q == k && NoTables(page0, d, v, q) <= n0
            else if Missing(page1, d, v + k) > n1 then NoTables(page0, d, v, q) > n0
            else n2 == n1 - Missing(page1, d, v + k)
                 && TablesFilled(page1, page, d, (v + k) / NPTE, (v + k) / NPTE + 1) ==>
                   Filling(page0, page, d, v, k + 1, n, n0, n2)
  {
    hide TablesFilled, NoTables, Missing, Lookup;
    TablesNext(page0, page1, d, v, k, n);
    if TablesFilled(page1, page, d, (v + k) / NPTE, (v + k) / NPTE + 1) {
      TablesFilledNext(page0, page1, page, d, v, k);
    }
  }

  lemma {:induction false} FillingAll(page0: seq<Page>, page: seq<Page>, d: nat, v: nat, n: nat, n0: nat, n1: nat)
    requires Filling(page0, page, d, v, n, n, n0, n1)
    ensures Unused(page0, d, v, n) == n && NoTables(page0, d, v, n) <= n0 && n1 == n0 - NoTables(page0, d, v, n)
    ensures TablesFilled(page0, page, d, v / NPTE, TableEnd(v, n))
  {
  }

  lemma {:induction false} MappedMore(page0: seq<Page>, page1: seq<Page>, page: seq<Page>, owner: seq<Owner>, d: nat,
                                      v: nat, k: nat, f: nat, perm: set<nat>)
    requires Mapped(page0, page1, owner, d, v, k, f, perm)
    requires forall c: nat, x: nat | IsDir(owner, c) ::
               Lookup(page, c, x) == if c == d && x == v + k then Pte(f + k, perm + {P}) else Lookup(page1, c, x)
    ensures Mapped(page0, page, owner, d, v, k + 1, f, perm)
  {
    hide Lookup;
  }

  /** How many frames pages lo .. hi take: one each, and the missing page-table pages. */
  ghost function FramesFor(page: seq<Page>, d: nat, lo: nat, hi: nat): (n: nat) {
    if hi <= lo then 0 else hi - lo + NoTables(page, d, lo, hi - lo)
  }

  /** Pages lo .. v were added, each with a frame of its own: n0 frames were free then and n1 are now. */
  ghost predicate Spent(page0: seq<Page>, page: seq<Page>, d: nat, lo: nat, v: nat, n0: nat, n1: nat) {
    lo <= v && n1 == n0 - FramesFor(page0, d, lo, v) && TablesFilled(page0, page, d, lo / NPTE, TableEnd(lo, v - lo))
  }

  lemma {:induction false} SpentNone(page: seq<Page>, d: nat, lo: nat, n0: nat)
    ensures Spent(page, page, d, lo, lo, n0, n0)
  {
    MapStart(page, d, lo);
  }

  lemma {:induction false} SpentNext(page0: seq<Page>, page1: seq<Page>, page: seq<Page>, d: nat, lo: nat, v: nat,
                                     hi: nat, n0: nat, n1: nat, n2: nat)
    requires Spent(page0, page1, d, lo, v, n0, n1) && v < hi
    ensures if 1 + Missing(page1, d, v) > n1 then FramesFor(page0, d, lo, hi) > n0
            else n2 == n1 - 1 - Missing(page1, d, v) && TablesFilled(page1, page, d, v / NPTE, v / NPTE + 1) ==>
                   Spent(page0, page, d, lo, v + 1, n0, n2)
  {
    hide TablesFilled, NoTables, Missing;
    MapStart(page0, d, lo);
    TablesNext(page0, page1, d, lo, v - lo, hi - lo);
    if TablesFilled(page1, page, d, v / NPTE, v / NPTE + 1) {
      TablesFilledNext(page0, page1, page, d, lo, v - lo);
    }
  }

  lemma {:induction false} SpentAll(page0: seq<Page>, page: seq<Page>, d: nat, lo: nat, hi: nat, n0: nat, n1: nat)
    requires Spent(page0, page, d, lo, hi, n0, n1)
    ensures FramesFor(page0, d, lo, hi) <= n0 && n1 == n0 - FramesFor(page0, d, lo, hi)
    ensures TablesFilled(page0, page, d, lo / NPTE, TableEnd(lo, hi - lo))
  {
  }

  lemma {:induction false} PagesGrow(oldsz: nat, newsz: nat)
    requires oldsz <= newsz
    ensures PagesUp(oldsz) <= PagesUp(newsz)
  {
  }

  lemma {:induction false} PagesBelow(v: nat, sz: nat)
    ensures v * PGSIZE < sz <==> v < PagesUp(sz)
  {
  }

  lemma {:induction false} OneTable(page: seq<Page>, d: nat, v: nat)
    ensures TableEnd(v, 1) == v / NPTE + 1 && NoTables(page, d, v, 1) == Missing(page, d, v)
            && NoTables(page, d, v, 0) == 0
    ensures !Present(Lookup(page, d, v)) ==> Unused(page, d, v, 1) == 1
  {
    assert Absent(page, d, v / NPTE, v / NPTE) == 0;
  }

  /** Writing another frame moves no directory entry. */
  lemma {:induction false} OtherFrame(page: seq<Page>, page': seq<Page>, d: nat, f: nat, v: nat)
    requires f < |page| == |page'| && page' == page[f := page'[f]] && f != d
    ensures Missing(page', d, v) == Missing(page, d, v)
  {
  }

  lemma {:induction false} OtherFrameTables(page1: seq<Page>, page2: seq<Page>, page: seq<Page>, d: nat, f: nat, v: nat)
    requires f < |page1| == |page2| && page2 == page1[f := page2[f]] && f != d
    requires TablesFilled(page2, page, d, v / NPTE, TableEnd(v, 1))
    ensures TablesFilled(page1, page, d, v / NPTE, v / NPTE + 1)
  {
  }

  lemma {:induction false} AllAbsent(page: seq<Page>, d: nat, n: nat)
    requires n <= USERPAGES && forall k: nat | k < USERDIRS :: !Present(EntryOf(page, d, k))
    ensures forall m: nat | m <= n :: NoTables(page, d, 0, m) == TableEnd(0, m)
  {
    forall m: nat | m <= n ensures NoTables(page, d, 0, m) == TableEnd(0, m) {
      AbsentRange(page, d, 0, 0, TableEnd(0, m));
    }
  }

  /** What the user pages below sz take in an address space that has none. */
  lemma {:induction false} FreshFrames(page: seq<Page>, d: nat, sz: nat)
    requires sz <= KERNBASE && forall k: nat | k < USERDIRS :: !Present(EntryOf(page, d, k))
    ensures PagesUp(sz) <= USERPAGES && FramesFor(page, d, 0, PagesUp(sz)) == PagesUp(sz) + TableEnd(0, PagesUp(sz))
  {
    AllAbsent(page, d, PagesUp(sz));
  }

  /** Entries lo .. mid are there and mid .. hi are not. */
  lemma {:induction false} AbsentRange(page: seq<Page>, d: nat, lo: nat, mid: nat, hi: nat)
    requires lo <= mid <= hi && (forall k: nat | lo <= k < mid :: Present(EntryOf(page, d, k)))
    requires forall k: nat | mid <= k < hi :: !Present(EntryOf(page, d, k))
    ensures Absent(page, d, lo, hi) == hi - mid
    decreases hi
  {
    if lo < hi {
      if mid < hi {
        AbsentRange(page, d, lo, mid, hi - 1);
      } else {
        AbsentRange(page, d, lo, mid - 1, hi - 1);
      }
    }
  }

  /** A mapped page has its page-table page. */
  lemma {:induction false} TableOfMapped(page: seq<Page>, d: nat, v: nat)
    ensures Present(Lookup(page, d, v)) ==> Missing(page, d, v) == 0
  {
  }

  lemma {:induction false} WalkLookup(page0: seq<Page>, page: seq<Page>, owner: seq<Owner>, d: nat, v: nat)
    requires SameSpaces(page0, page, owner) && IsDir(owner, d)
    ensures Lookup(page, d, v) == Lookup(page0, d, v)
  {
    assert Translate(page, d, v / NPTE, v % NPTE) == Translate(page0, d, v / NPTE, v % NPTE);
  }

  /**
  Pages v .. v + n of directory d now map frames f, f + 1, .. with permissions perm; no other
  translation changed.
  */
  ghost predicate Mapped(page: seq<Page>, page': seq<Page>, owner: seq<Owner>, d: nat, v: nat, n: nat, f: nat,
                         perm: set<nat>) {
    forall c: nat, x: nat | IsDir(owner, c) ::
      Lookup(page', c, x) == if c == d && v <= x < v + n then Pte(f + (x - v), perm + {P}) else Lookup(page, c, x)
  }

  /** The page-table pages of the user half are the same. */
  ghost predicate SameUserTables(page: seq<Page>, page': seq<Page>, d: nat) {
    forall k: nat | k < USERDIRS :: EntryOf(page', d, k) == EntryOf(page, d, k)
  }

  /** Mapping a user page takes over its frame. */
  ghost function Taken(owner: seq<Owner>, d: nat, v: nat, f: nat): (r: seq<Owner>)
    ensures |r| == |owner|
  {
    if v < USERPAGES && f < |owner| then owner[f := User(d, v / NPTE, v % NPTE)] else owner
  }

  /** walkpgdir maps nothing. */
  lemma {:induction false} WalkData(page0: seq<Page>, page: seq<Page>, own0: seq<Owner>, owner: seq<Owner>, d: nat,
                                    v: nat, f: nat, perm: set<nat>)
    requires OnlyTables(own0, owner, d) && SameSpaces(page0, page, owner) && SameData(page0, page, own0)
    ensures Mapped(page0, page, own0, d, v, 0, f, perm)
    ensures OwnedAs(own0, f, Held) && page0[f].Raw? ==> OwnedAs(owner, f, Held) && page[f].Raw?
    ensures forall c: nat | IsDir(own0, c) :: IsDir(owner, c)
  {
    forall c: nat | IsDir(own0, c) ensures IsDir(owner, c) {
    }
    forall c: nat, x: nat | IsDir(own0, c) ensures Lookup(page, c, x) == Lookup(page0, c, x) {
      assert Translate(page, c, x / NPTE, x % NPTE) == Translate(page0, c, x / NPTE, x % NPTE);
    }
  }

  /** Storing the entry for page v in the table walkpgdir returned. */
  lemma {:induction false} MapStep(page0: seq<Page>, own0: seq<Owner>, page: seq<Page>, owner: seq<Owner>,
                                   head: Option<nat>, list: seq<nat>, d: nat, v: nat, t: nat, f: nat, perm: set<nat>,
                                   page2: seq<Page>)
    requires Inv(page, owner) && FreeOk(page, owner, head, list) && IsDir(own0, d) && v < NPAGES
             && !Present(Lookup(page0, d, v))
    requires OnlyTables(own0, owner, d) && SameData(page0, page, own0) && Mapped(page0, page, own0, d, v, 0, f, perm)
    requires Present(EntryOf(page, d, v / NPTE)) && EntryOf(page, d, v / NPTE).frame == t
             && OwnedAs(owner, t, Table(d, v / NPTE))
    requires v < USERPAGES ==> OwnedAs(own0, f, Held) && OwnedAs(owner, f, Held) && page[f].Raw?
    requires v >= USERPAGES ==> U !in perm
    requires t < |page| && page[t].Entries? ==> page2 == page[t := Entries(page[t].e[v % NPTE := Pte(f, perm + {P})])]
    ensures t < |page| && page[t].Entries? && Inv(page2, Taken(owner, d, v, f))
            && FreeOk(page2, Taken(owner, d, v, f), head, list)
    ensures Mapped(page0, page2, own0, d, v, 1, f, perm) && OnlyTables(Taken(own0, d, v, f), Taken(owner, d, v, f), d)
            && SameData(page0, page2, own0)
    ensures forall g: nat | g < |owner| :: owner[g] == Kernel <==> Taken(owner, d, v, f)[g] == Kernel
  {
    var i, j, e := v / NPTE, v % NPTE, Pte(f, perm + {P});
    assert IsDir(owner, d) && Lookup(page, d, v) == Lookup(page0, d, v);
    if v < USERPAGES {
      MapUser(page, owner, d, i, j, e, page2);
    } else {
      MapKernel(page, owner, d, i, j, e, page2);
    }
    FreeUntouched(page, owner, head, list, page2, Taken(owner, d, v, f));
    LookupExcept(page, page2, owner, d, v, e);
    assert forall c: nat | IsDir(own0, c) :: IsDir(owner, c);
  }

  lemma {:induction false} LookupExcept(page: seq<Page>, page': seq<Page>, owner: seq<Owner>, d: nat, v: nat, e: Pte)
    requires MapsExcept(page, page', owner, d, v / NPTE, v % NPTE, e) && (Present(e) || e == Unmapped())
    ensures forall c: nat, x: nat | IsDir(owner, c) ::
              Lookup(page', c, x) == if c == d && x == v then e else Lookup(page, c, x)
  {
  }

  // ---------- Unmapping a range ----------

  /** Pages lo .. hi of d are unmapped, and no other translation changed in any directory. */
  ghost predicate Cleared(page: seq<Page>, page': seq<Page>, owner: seq<Owner>, d: nat, lo: nat, hi: nat) {
    forall c: nat, x: nat | IsDir(owner, c) ::
      Lookup(page', c, x) == if c == d && lo <= x < hi then Unmapped() else Lookup(page, c, x)
  }

  ghost predicate InRange(o: Owner, d: nat, lo: nat, hi: nat) {
    o.User? && o.d == d && lo <= o.i * NPTE + o.j < hi
  }

  /** The frames mapped at pages lo .. hi of d become free. */
  ghost function FreedRange(owner: seq<Owner>, d: nat, lo: nat, hi: nat): (r: seq<Owner>)
    ensures |r| == |owner|
  {
    seq(|owner|, f requires 0 <= f < |owner| => if InRange(owner[f], d, lo, hi) then Free else owner[f])
  }

  lemma {:induction false} FreedNone(owner: seq<Owner>, d: nat, lo: nat)
    ensures FreedRange(owner, d, lo, lo) == owner
  {
  }

  lemma {:induction false} FreedMore(owner: seq<Owner>, d: nat, lo: nat, v: nat)
    requires lo <= v
    ensures FreedRange(FreedRange(owner, d, lo, v), d, v, v + 1) == FreedRange(owner, d, lo, v + 1)
  {
  }

  /** The frame of a present page is the only one freed with it. */
  lemma {:induction false} FreedOne(page: seq<Page>, owner: seq<Owner>, d: nat, v: nat, f: nat)
    requires Inv(page, owner) && OwnedAs(owner, f, User(d, v / NPTE, v % NPTE))
    ensures owner[f := Free] == FreedRange(owner, d, v, v + 1)
  {
    assert owner[f].User?;
    forall g | 0 <= g < |owner| ensures InRange(owner[g], d, v, v + 1) <==> g == f {
      if InRange(owner[g], d, v, v + 1) {
        assert owner[g].j < NPTE;
        assert owner[g] == owner[f];
      }
    }
  }

  lemma {:induction false} ClearedMore(page0: seq<Page>, page1: seq<Page>, page2: seq<Page>, own1: seq<Owner>,
                                       own2: seq<Owner>, d: nat, lo: nat, v: nat)
    requires Cleared(page0, page1, own1, d, lo, v) && Cleared(page1, page2, own2, d, v, v + 1) && lo <= v
    requires forall c: nat | IsDir(own2, c) :: IsDir(own1, c)
    ensures Cleared(page0, page2, own2, d, lo, v + 1)
  {
  }

  /** A page in a table that exists is mapped when its entry says so. */
  lemma {:induction false} PresentAt(page: seq<Page>, d: nat, v: nat, t: nat)
    requires Present(EntryOf(page, d, v / NPTE)) && EntryOf(page, d, v / NPTE).frame == t && t < |page|
             && page[t].Entries?
    ensures Present(Lookup(page, d, v)) <==> Present(page[t].e[v % NPTE])
  {
  }

  lemma {:induction false} UserPresent(page: seq<Page>, owner: seq<Owner>, f: nat)
    requires Inv(page, owner) && f < |owner| && owner[f].User?
    ensures var o := owner[f]; var v := o.i * NPTE + o.j;
            v < USERPAGES && v / NPTE == o.i && v % NPTE == o.j && Present(Lookup(page, o.d, v))
                && Lookup(page, o.d, v).frame == f
  {
    var o := owner[f];
    assert Present(Translate(page, o.d, o.i, o.j));
    assert o.j < NPTE;
  }

  /** A page that is not mapped has no frame to free. */
  lemma {:induction false} NotMapped(page0: seq<Page>, page: seq<Page>, own0: seq<Owner>, owner: seq<Owner>, d: nat,
                                     lo: nat, v: nat)
    requires Inv(page, owner) && IsDir(owner, d) && Cleared(page0, page, owner, d, lo, v) && lo <= v
             && !Present(Lookup(page, d, v))
    requires owner == FreedRange(own0, d, lo, v)
    ensures Cleared(page0, page, owner, d, lo, v + 1) && owner == FreedRange(own0, d, lo, v + 1)
    ensures !Present(Lookup(page0, d, v))
  {
    assert Lookup(page, d, v) == Lookup(page0, d, v);
    forall f | 0 <= f < |owner| && owner[f].User? && owner[f].d == d ensures owner[f].i * NPTE + owner[f].j != v {
      UserPresent(page, owner, f);
    }
    forall f | 0 <= f < |own0| ensures InRange(own0[f], d, lo, v + 1) <==> InRange(own0[f], d, lo, v) {
      assert owner[f] == if InRange(own0[f], d, lo, v) then Free else own0[f];
    }
  }

  /** deallocuvm's jump over a missing page-table page does what visiting its pages would. */
  lemma {:induction false} Skipped(page0: seq<Page>, page: seq<Page>, own0: seq<Owner>, owner: seq<Owner>, d: nat,
                                   lo: nat, v: nat)
    requires Inv(page, owner) && IsDir(owner, d) && Cleared(page0, page, owner, d, lo, v) && lo <= v
             && !Present(EntryOf(page, d, v / NPTE))
    requires owner == FreedRange(own0, d, lo, v)
    ensures var w := (v / NPTE + 1) * NPTE; Cleared(page0, page, owner, d, lo, w) && owner == FreedRange(own0, d, lo, w)
    ensures forall x: nat | v <= x < (v / NPTE + 1) * NPTE :: !Present(Lookup(page0, d, x))
  {
    SkipTo(page0, page, own0, owner, d, lo, v, (v / NPTE + 1) * NPTE);
  }

  lemma {:induction false} SkipTo(page0: seq<Page>, page: seq<Page>, own0: seq<Owner>, owner: seq<Owner>, d: nat,
                                  lo: nat, v: nat, w: nat)
    requires Inv(page, owner) && IsDir(owner, d) && Cleared(page0, page, owner, d, lo, v) && lo <= v
             && !Present(EntryOf(page, d, v / NPTE))
    requires owner == FreedRange(own0, d, lo, v) && v <= w <= (v / NPTE + 1) * NPTE
    ensures Cleared(page0, page, owner, d, lo, w) && owner == FreedRange(own0, d, lo, w)
    ensures forall x: nat | v <= x < w :: !Present(Lookup(page0, d, x))
    decreases w
  {
    if v < w {
      SkipTo(page0, page, own0, owner, d, lo, v, w - 1);
      assert (w - 1) / NPTE == v / NPTE;
      NotMapped(page0, page, own0, owner, d, lo, w - 1);
    }
  }

  /** Overshooting the end of the range made no difference. */
  lemma {:induction false} SameRange(page0: seq<Page>, page: seq<Page>, own0: seq<Owner>, owner: seq<Owner>, d: nat,
                                     lo: nat, hi: nat, v: nat)
    requires Inv(page0, own0) && IsDir(own0, d) && Cleared(page0, page, owner, d, lo, v)
             && owner == FreedRange(own0, d, lo, v) && lo <= hi <= v
    requires forall x: nat | hi <= x < v :: !Present(Lookup(page0, d, x))
    ensures Cleared(page0, page, owner, d, lo, hi) && owner == FreedRange(own0, d, lo, hi)
  {
    forall f | 0 <= f < |own0| && InRange(own0[f], d, lo, v) ensures InRange(own0[f], d, lo, hi) {
      UserPresent(page0, own0, f);
    }
  }

  // ---------- freevm ----------

  ghost predicate SameLookups(page: seq<Page>, page': seq<Page>, owner: seq<Owner>) {
    forall c: nat, x: nat | IsDir(owner, c) :: Lookup(page', c, x) == Lookup(page, c, x)
  }

  /** Clearing the whole user half leaves no user frame of d. */
  lemma {:induction false} AllUsersFreed(page: seq<Page>, own0: seq<Owner>, own1: seq<Owner>, d: nat)
    requires Inv(page, own0) && own1 == FreedRange(own0, d, 0, USERPAGES)
    ensures forall f | 0 <= f < |own1| && own1[f].User? :: own1[f].d != d
    ensures forall c: nat :: IsDir(own1, c) <==> IsDir(own0, c)
    ensures Released(own1, d, Free) == Released(own0, d, Free)
  {
    forall f | 0 <= f < |own0| && own0[f].User? && own0[f].d == d ensures InRange(own0[f], d, 0, USERPAGES) {
      UserPresent(page, own0, f);
    }
  }

  /** The owners while freevm frees the page-table pages: those of entries below n are free, the rest held. */
  ghost function Freeing(own1: seq<Owner>, d: nat, n: nat): (r: seq<Owner>)
    ensures |r| == |own1|
  {
    seq(|own1|, f requires 0 <= f < |own1| =>
      if own1[f].Table? && own1[f].d == d && own1[f].i < n then Free else if Belongs(f, own1[f], d) then Held
          else own1[f])
  }

  /** The frames of d: its directory, its tables and its user pages. */
  lemma {:induction false} ReleasedMeans(owner: seq<Owner>, d: nat)
    requires IsDir(owner, d)
    ensures var r := Released(owner, d, Free);
            |r| == |owner| && forall f: nat | f < |owner| ::
              r[f] == if f == d || (owner[f].Table? && owner[f].d == d) || (owner[f].User? && owner[f].d == d) then Free
                      else owner[f]
  {
  }

  lemma {:induction false} RetireTables(page: seq<Page>, owner: seq<Owner>, d: nat)
    requires Inv(page, owner) && IsDir(owner, d) && forall f | 0 <= f < |owner| && owner[f].User? :: owner[f].d != d
    ensures Inv(page, Released(owner, d, Held)) && Released(owner, d, Held) == Freeing(owner, d, 0)
            && |Released(owner, d, Held)| == |owner|
    ensures forall f: nat | f < |owner| :: owner[f] == Kernel <==> Released(owner, d, Held)[f] == Kernel
    ensures Released(owner, d, Held)[d] == Held && page[d].Entries?
  {
    Retire(page, owner, d);
  }

  lemma {:induction false} RetiredIsFree(page: seq<Page>, owner: seq<Owner>, head: Option<nat>, list: seq<nat>, d: nat)
    requires FreeOk(page, owner, head, list) && |page| == |owner|
    ensures FreeOk(page, Released(owner, d, Held), head, list)
  {
    FreeUntouched(page, owner, head, list, page, Released(owner, d, Held));
  }

  /** Entry i names the one page-table page still to be freed at step i. */
  lemma {:induction false} FreeingStep(page1: seq<Page>, own1: seq<Owner>, page: seq<Page>, d: nat, i: nat)
    requires Inv(page1, own1) && IsDir(own1, d) && i < NPTE && |page| == |page1| && page[d] == page1[d]
    ensures var e := EntryOf(page, d, i); var owner := Freeing(own1, d, i);
            if Present(e) then
              e.frame < |own1| && e.frame != d && own1[e.frame] == Table(d, i) && owner[e.frame] == Held
                  && Freeing(own1, d, i + 1) == owner[e.frame := Free]
            else Freeing(own1, d, i + 1) == owner
    ensures d < |own1| && Freeing(own1, d, i)[d] == Held
  {
    var e := EntryOf(page1, d, i);
    assert EntryOf(page, d, i) == e;
    forall f | 0 <= f < |own1| && own1[f].Table? && own1[f].d == d && own1[f].i == i
      ensures Present(e) && f == e.frame
    {
    }
    if Present(e) {
      assert OwnedAs(own1, e.frame, Table(d, i));
    }
  }

  lemma {:induction false} FreeingDone(page1: seq<Page>, own1: seq<Owner>, d: nat)
    requires Inv(page1, own1) && IsDir(own1, d) && forall f | 0 <= f < |own1| && own1[f].User? :: own1[f].d != d
    ensures Freeing(own1, d, NPTE)[d] == Held && Freeing(own1, d, NPTE)[d := Free] == Released(own1, d, Free)
    ensures forall g: nat | g < |own1| && (Released(own1, d, Free)[g].User? || Released(own1, d, Free)[g].Held?) ::
              own1[g] == Released(own1, d, Free)[g]
    ensures forall c: nat | IsDir(Released(own1, d, Free), c) :: IsDir(own1, c) && IsDir(Freeing(own1, d, NPTE), c)
  {
    forall f | 0 <= f < |own1| && own1[f].Table? ensures own1[f].i < NPTE {
    }
  }

  // ---------- setupkvm ----------

  datatype KmapEntry = KmapEntry(virt: nat, start: nat, end: nat, perm: set<nat>)

  /** The kmap table, in pages; an end of 0 is the top of memory. */
  function Kmap(data: nat): (k: seq<KmapEntry>)
    requires EXTFRAME < data < NFRAMES
    ensures |k| == 4
  {
    [KmapEntry(USERPAGES, 0, EXTFRAME, {W}),
     KmapEntry(USERPAGES + EXTFRAME, EXTFRAME, data, {}),
     KmapEntry(USERPAGES + data, data, NFRAMES, {W}),
     KmapEntry(DEVPAGE, DEVPAGE, 0, {W})]
  }

  /** Which line of the layout comment in vm.c a page falls under; 4 for none. */
  function Region(data: nat, x: nat): (k: nat) {
    if USERPAGES <= x < USERPAGES + EXTFRAME then 0
    else if USERPAGES + EXTFRAME <= x < USERPAGES + data then 1
    else if USERPAGES + data <= x < USERPAGES + NFRAMES then 2
    else if DEVPAGE <= x < NPAGES then 3
    else 4
  }

  /**
  The kernel half of every address space: physical memory at KERNBASE with read-only text, devices
  mapped straight.
  */
  function KernelEntry(data: nat, x: nat): (e: Pte) {
    match Region(data, x)
    case 0 => Pte(x - USERPAGES, {W, P})
    case 1 => Pte(x - USERPAGES, {P})
    case 2 => Pte(x - USERPAGES, {W, P})
    case 3 => Pte(x, {W, P})
    case _ => Unmapped()
  }

  lemma {:induction false} KmapStep(data: nat, k: nat)
    requires EXTFRAME < data < NFRAMES && k < 4
    ensures var m := Kmap(data)[k]; var n := (m.end + NPAGES - m.start) % NPAGES;
            && USERPAGES <= m.virt && 0 < n && m.virt + n <= NPAGES && U !in m.perm
            && (forall x: nat :: Region(data, x) == k <==> m.virt <= x < m.virt + n)
            && (forall x: nat | Region(data, x) == k ::
                  KernelEntry(data, x) == Pte(m.start + (x - m.virt), m.perm + {P}))
  {
    var m := Kmap(data)[k];
    var n := (m.end + NPAGES - m.start) % NPAGES;
    assert n == if k == 3 then 0x2000 else m.end - m.start;
  }

  /**
  What the kernel's mappings mean for the processor: physical memory from 0x80000000 on, the devices in
  place, nothing else, nothing for user code, and only the text between 1 MB and `data` write-protected.
  */
  lemma {:induction false} KernelLayout(page: seq<Page>, d: nat, data: nat, a: nat)
    requires EXTFRAME < data < NFRAMES && a < 0x1_0000_0000
             && forall x: nat :: Lookup(page, d, x) == KernelEntry(data, x)
    ensures Physical(page, d, a) ==
            if 0x8000_0000 <= a < 0x8E00_0000 then Some(a - 0x8000_0000) else if 0xFE00_0000 <= a then Some(a) else None
    ensures U !in Lookup(page, d, a / PGSIZE).flags
    ensures W in Lookup(page, d, a / PGSIZE).flags <==>
            (0x8000_0000 <= a < 0x8E00_0000 && !(0x8010_0000 <= a < 0x8000_0000 + data * 0x1000)) || 0xFE00_0000 <= a
  {
    hide Lookup, Physical;
    LookupIsPhysical(page, d, a);
    var x := a / PGSIZE;
    assert x * PGSIZE + a % PGSIZE == a;
    assert Lookup(page, d, x) == KernelEntry(data, x);
  }

  /** The frames of an address space without user pages: the directory and 56 + 8 page-table pages. */
  const KERNELFRAMES: nat := 65

  /** The directory entries the kernel's layout needs. */
  predicate KernelTable(k: nat) { 512 <= k < 568 || 1016 <= k < 1024 }

  /** Where the page-table pages of physical memory end after k lines of kmap. */
  function KernelEnd(data: nat, k: nat): (n: nat) {
    if k == 0 then 512 else if k == 1 then 513 else if k == 2 then TableEnd(USERPAGES, data) else 568
  }

  /** How many page-table pages the first k lines of kmap take. */
  function KernelCount(data: nat, k: nat): (n: int) { KernelEnd(data, k) - 512 + if k < 4 then 0 else 8 }

  ghost predicate KernelTables(page: seq<Page>, d: nat, data: nat, k: nat) {
    forall i: nat :: Present(EntryOf(page, d, i)) <==> 512 <= i < KernelEnd(data, k) || (k == 4 && 1016 <= i < 1024)
  }

  lemma {:induction false} NoKernelTables(page: seq<Page>, d: nat, data: nat)
    requires forall k: nat :: !Present(EntryOf(page, d, k))
    ensures KernelTables(page, d, data, 0) && KernelCount(data, 0) == 0
  {
  }

  lemma {:induction false} AllKernelTables(page: seq<Page>, d: nat, data: nat)
    requires KernelTables(page, d, data, 4)
    ensures (forall k: nat :: Present(EntryOf(page, d, k)) <==> KernelTable(k)) && KernelCount(data, 4) == 64
  {
  }

  /** Where line k of kmap finds page-table pages and where it has to make them. */
  lemma {:induction false} KmapRange(data: nat, k: nat, v: nat, n: nat)
    requires EXTFRAME < data < NFRAMES && k < 4
    requires v == Kmap(data)[k].virt && n == (Kmap(data)[k].end + NPAGES - Kmap(data)[k].start) % NPAGES
    ensures if k < 3 then 512 <= v / NPTE <= KernelEnd(data, k) <= KernelEnd(data, k + 1) == TableEnd(v, n)
            else v / NPTE == 1016 && TableEnd(v, n) == 1024 && KernelEnd(data, k) == KernelEnd(data, k + 1) == 568
    ensures 0 <= KernelCount(data, k) <= KernelCount(data, k + 1) <= 64
  {
    assert n == if k == 3 then 0x2000 else Kmap(data)[k].end - Kmap(data)[k].start;
  }

  lemma {:induction false} KmapTables(page: seq<Page>, d: nat, data: nat, k: nat, v: nat, n: nat)
    requires EXTFRAME < data < NFRAMES && k < 4 && KernelTables(page, d, data, k)
    requires v == Kmap(data)[k].virt && n == (Kmap(data)[k].end + NPAGES - Kmap(data)[k].start) % NPAGES
    requires forall x: nat | v <= x < v + n :: !Present(Lookup(page, d, x))
    ensures Unused(page, d, v, n) == n && NoTables(page, d, v, n) == KernelCount(data, k + 1) - KernelCount(data, k)
    ensures KernelCount(data, k + 1) <= 64
  {
    hide Kmap, Lookup, TableEnd;
    KmapRange(data, k, v, n);
    AbsentRange(page, d, v / NPTE, if k < 3 then KernelEnd(data, k) else v / NPTE, TableEnd(v, n));
  }

  lemma {:induction false} KmapTablesNext(page: seq<Page>, page': seq<Page>, d: nat, data: nat, k: nat, v: nat, n: nat)
    requires EXTFRAME < data < NFRAMES && k < 4 && KernelTables(page, d, data, k)
    requires v == Kmap(data)[k].virt && n == (Kmap(data)[k].end + NPAGES - Kmap(data)[k].start) % NPAGES
    requires TablesFilled(page, page', d, v / NPTE, TableEnd(v, n))
    ensures KernelTables(page', d, data, k + 1)
  {
    hide Kmap, TableEnd;
    KmapRange(data, k, v, n);
  }

  lemma {:induction false} DirAdded(page: seq<Page>, own0: seq<Owner>, owner: seq<Owner>, head: Option<nat>,
                                    list: seq<nat>, d: nat, page': seq<Page>)
    requires Inv(page, owner) && FreeOk(page, owner, head, list) && OwnedAs(own0, d, Free) && owner == own0[d := Held]
    requires d < |page| && page' == page[d := EmptyTable()]
    ensures Inv(page', owner[d := Dir]) && FreeOk(page', owner[d := Dir], head, list)
    ensures SameLookups(page, page', own0)
    ensures forall x: nat :: Lookup(page', d, x) == Unmapped()
  {
    NewDir(page, owner, d, page');
    FreeUntouched(page, owner, head, list, page', owner[d := Dir]);
    forall c: nat, x: nat | IsDir(own0, c) ensures Lookup(page', c, x) == Lookup(page, c, x) {
      assert IsDir(owner, c);
    }
  }

  /** Releasing a directory made since own0 gives back exactly the frames it took. */
  lemma {:induction false} ReleaseUndoes(page0: seq<Page>, own0: seq<Owner>, owner: seq<Owner>, d: nat)
    requires Inv(page0, own0) && OwnedAs(own0, d, Free) && GrowsFor(own0, owner, d)
    ensures Released(owner, d, Free) == own0
  {
    forall f | 0 <= f < |own0| ensures !Belongs(f, own0[f], d) {
      if own0[f].Table? || own0[f].User? {
        assert IsDir(own0, own0[f].d);
      }
    }
  }

  // ---------- allocuvm ----------

  function ZeroPage(): (p: Page) { Raw(seq(PGSIZE, _ => 0)) }

  /** Page x of d is mapped, writable and for user code, on a zeroed frame that was free. */
  ghost predicate FreshAt(page: seq<Page>, own0: seq<Owner>, owner: seq<Owner>, d: nat, x: nat) {
    var e := Lookup(page, d, x);
    && e.flags == {W, U, P} && OwnedAs(own0, e.frame, Free) && OwnedAs(owner, e.frame, User(d, x / NPTE, x % NPTE))
    && e.frame < |page| && page[e.frame] == ZeroPage()
  }

  /**
  Pages lo .. hi of d were added, each on a fresh zeroed frame; nothing else is mapped differently
  or changed hands, but for new tables of d.
  */
  ghost predicate Grown(page: seq<Page>, page': seq<Page>, own0: seq<Owner>, owner: seq<Owner>, d: nat, lo: nat,
                        hi: nat) {
    && SameData(page, page', own0) && |owner| == |own0|
    && (forall c: nat, x: nat | IsDir(own0, c) && !(c == d && lo <= x < hi) ::
          Lookup(page', c, x) == Lookup(page, c, x))
    && (forall x: nat | lo <= x < hi :: FreshAt(page', own0, owner, d, x))
    && (forall f: nat | f < |own0| ::
          || owner[f] == own0[f]
          || (own0[f] == Free && owner[f].Table? && owner[f].d == d)
          || (own0[f] == Free && InRange(owner[f], d, lo, hi)))
  }

  /** In bytes: the added range reads as zeros, and every other user byte of every address space is as it was. */
  lemma {:induction false} GrownBytes(page: seq<Page>, page': seq<Page>, own0: seq<Owner>, owner: seq<Owner>, d: nat,
                                      lo: nat, hi: nat)
    requires Inv(page, own0) && Grown(page, page', own0, owner, d, lo, hi)
    ensures forall x: nat | lo <= x < hi :: Lookup(page', d, x).flags == {P, W, U}
    ensures forall c: nat, a: nat | IsDir(own0, c) && a < KERNBASE ::
              UserByte(page', c, a) == if c == d && lo * PGSIZE <= a < hi * PGSIZE then 0 else UserByte(page, c, a)
  {
    hide Lookup, Inv;
    forall x: nat | lo <= x < hi ensures Lookup(page', d, x).flags == {P, W, U} {
      assert FreshAt(page', own0, owner, d, x);
    }
    forall c: nat, a: nat | IsDir(own0, c) && a < KERNBASE
      ensures UserByte(page', c, a) == if c == d && lo * PGSIZE <= a < hi * PGSIZE then 0 else UserByte(page, c, a)
    {
      var x := a / PGSIZE;
      assert lo * PGSIZE <= a < hi * PGSIZE <==> lo <= x < hi;
      if c == d && lo <= x < hi {
        assert FreshAt(page', own0, owner, d, x);
      } else if Present(Lookup(page, c, x)) {
        PresentIsOwned(page, own0, c, x);
      }
    }
  }

  /** The same for pages taken away, which then read as nothing. */
  lemma {:induction false} ClearedBytes(page: seq<Page>, page': seq<Page>, owner: seq<Owner>, d: nat, lo: nat, hi: nat)
    requires Inv(page', owner) && |page| == |page'| == |owner| && Cleared(page, page', owner, d, lo, hi)
    requires forall g: nat | g < |owner| && owner[g].User? :: page'[g] == page[g]
    ensures forall c: nat, a: nat | IsDir(owner, c) && a < KERNBASE ::
              UserByte(page', c, a) == if c == d && lo * PGSIZE <= a < hi * PGSIZE then 0 else UserByte(page, c, a)
  {
    hide Lookup, Inv;
    forall c: nat, a: nat | IsDir(owner, c) && a < KERNBASE
      ensures UserByte(page', c, a) == if c == d && lo * PGSIZE <= a < hi * PGSIZE then 0 else UserByte(page, c, a)
    {
      var x := a / PGSIZE;
      assert lo * PGSIZE <= a < hi * PGSIZE <==> lo <= x < hi;
      if Present(Lookup(page', c, x)) {
        PresentIsOwned(page', owner, c, x);
      }
    }
  }

  lemma {:induction false} HeldWrite(page: seq<Page>, owner: seq<Owner>, head: Option<nat>, list: seq<nat>, f: nat,
                                     p: Page)
    requires Inv(page, owner) && FreeOk(page, owner, head, list) && OwnedAs(owner, f, Held)
    ensures Inv(page[f := p], owner) && FreeOk(page[f := p], owner, head, list)
            && SameLookups(page, page[f := p], owner)
  {
    Recolour(page, owner, page[f := p], owner, f);
    FreeUntouched(page, owner, head, list, page[f := p], owner);
  }

  lemma {:induction false} GrownMore(page0: seq<Page>, page1: seq<Page>, page2: seq<Page>, page: seq<Page>,
                                     own0: seq<Owner>, own1: seq<Owner>, owner: seq<Owner>, d: nat, lo: nat, v: nat,
                                     f: nat)
    requires Grown(page0, page1, own0, own1, d, lo, v) && lo <= v < USERPAGES && OwnedAs(own1, f, Free)
             && IsDir(own1, d)
    requires |page1| == |page2| == |page| == |own0| && page2 == page1[f := ZeroPage()]
             && SameLookups(page1, page2, own1[f := Held])
    requires Mapped(page2, page, own1[f := Held], d, v, 1, f, {W, U})
    requires OnlyTables(Taken(own1[f := Held], d, v, f), owner, d) && SameData(page2, page, own1[f := Held])
    ensures Grown(page0, page, own0, owner, d, lo, v + 1) && IsDir(owner, d)
  {
    hide Lookup;
    var own2 := own1[f := Held];
    forall c: nat, x: nat | IsDir(own1, c)
      ensures Lookup(page, c, x) == if c == d && x == v then Pte(f, {W, U, P}) else Lookup(page1, c, x)
    {
      assert IsDir(own2, c);
      assert {W, U} + {P} == {W, U, P};
    }
    forall x: nat | lo <= x < v + 1 ensures FreshAt(page, own0, owner, d, x) {
      if x < v {
        assert FreshAt(page1, own0, own1, d, x);
        assert own2[Lookup(page1, d, x).frame].User?;
      } else {
        assert own2[f].Held? && page[f] == page2[f];
      }
    }
    assert (v / NPTE) * NPTE + v % NPTE == v;
    assert forall c: nat | IsDir(own0, c) :: IsDir(own1, c);
    assert forall g: nat | g < |own0| && (own0[g].User? || own0[g].Held?) :: own2[g] == own0[g] && g != f;
  }

  /** Backing out of allocuvm unmaps only pages added since own0, and leaves only page-table pages behind. */
  lemma {:induction false} BackedOut(page0: seq<Page>, page: seq<Page>, page': seq<Page>, own0: seq<Owner>,
                                     owner: seq<Owner>, owner': seq<Owner>, d: nat, lo: nat, v: nat, hi: nat)
    requires Inv(page0, own0) && IsDir(own0, d) && Grown(page0, page, own0, owner, d, lo, v) && lo <= v <= hi
    requires forall x: nat | lo <= x < hi :: !Present(Lookup(page0, d, x))
    requires Cleared(page, page', owner', d, lo, hi) && owner' == FreedRange(owner, d, lo, hi) && |page'| == |page|
    requires forall g: nat | g < |owner'| && (owner'[g].User? || owner'[g].Held?) :: page'[g] == page[g]
    ensures SameLookups(page0, page', own0) && OnlyTables(own0, owner', d) && SameData(page0, page', own0)
  {
    forall f: nat | f < |own0| && own0[f].User? && own0[f].d == d ensures !InRange(own0[f], d, lo, hi) {
      UserPresent(page0, own0, f);
    }
    assert OnlyTables(own0, owner', d);
    forall c: nat, x: nat | IsDir(own0, c) ensures Lookup(page', c, x) == Lookup(page0, c, x) {
      assert IsDir(owner', c);
    }
  }

  lemma {:induction false} GrownNone(page: seq<Page>, owner: seq<Owner>, d: nat, lo: nat)
    requires |page| == |owner|
    ensures Grown(page, page, owner, owner, d, lo, lo)
  {
  }

  lemma {:induction false} GrownData(page0: seq<Page>, page: seq<Page>, own0: seq<Owner>, owner: seq<Owner>, d: nat,
                                     lo: nat, v: nat)
    requires Grown(page0, page, own0, owner, d, lo, v)
    ensures SameData(page0, page, own0)
    ensures lo == v ==> SameLookups(page0, page, own0) && OnlyTables(own0, owner, d)
  {
  }

  lemma {:induction false} NextUnmapped(page0: seq<Page>, page: seq<Page>, own0: seq<Owner>, owner: seq<Owner>, d: nat,
                                        lo: nat, v: nat)
    requires Grown(page0, page, own0, owner, d, lo, v) && IsDir(own0, d)
    ensures Lookup(page, d, v) == Lookup(page0, d, v) && |owner| == |own0|
  {
  }

  lemma {:induction false} ClearedStill(page: seq<Page>, page1: seq<Page>, page2: seq<Page>, own1: seq<Owner>,
                                        own2: seq<Owner>, d: nat, lo: nat, hi: nat)
    requires Cleared(page, page1, own1, d, lo, hi) && SameSpaces(page1, page2, own2)
    requires forall c: nat | IsDir(own2, c) :: IsDir(own1, c)
    ensures Cleared(page, page2, own2, d, lo, hi)
  {
    forall c: nat, x: nat | IsDir(own2, c) ensures Lookup(page2, c, x) == Lookup(page1, c, x) {
      assert Translate(page2, c, x / NPTE, x % NPTE) == Translate(page1, c, x / NPTE, x % NPTE);
    }
  }

  lemma {:induction false} GrownHeld(page0: seq<Page>, page1: seq<Page>, page2: seq<Page>, page: seq<Page>,
                                     own0: seq<Owner>, own1: seq<Owner>, owner: seq<Owner>, d: nat, lo: nat, v: nat,
                                     f: nat)
    requires Grown(page0, page1, own0, own1, d, lo, v) && OwnedAs(own1, f, Free) && IsDir(own1, d)
    requires |page1| == |page2| == |page| == |own0| && page2 == page1[f := ZeroPage()]
             && SameLookups(page1, page2, own1[f := Held])
    requires Mapped(page2, page, own1[f := Held], d, v, 0, f, {W, U}) && SameData(page2, page, own1[f := Held])
    requires OnlyTables(own1[f := Held], owner, d)
    ensures Grown(page0, page, own0, owner[f := Free], d, lo, v) && IsDir(owner, d) && OwnedAs(owner, f, Held)
  {
    hide Lookup;
    var own2 := own1[f := Held];
    forall c: nat, x: nat | IsDir(own1, c) ensures Lookup(page, c, x) == Lookup(page1, c, x) {
      assert IsDir(own2, c);
    }
    var owner' := owner[f := Free];
    forall x: nat | lo <= x < v ensures FreshAt(page, own0, owner', d, x) {
      assert FreshAt(page1, own0, own1, d, x);
      assert own2[Lookup(page1, d, x).frame].User?;
    }
    assert forall c: nat | IsDir(own0, c) :: IsDir(own1, c);
    assert forall g: nat | g < |own0| && (own0[g].User? || own0[g].Held?) :: own2[g] == own0[g] && g != f;
  }

  lemma {:induction false} UndoHeld(owner: seq<Owner>, d: nat, lo: nat, hi: nat, f: nat)
    requires OwnedAs(owner, f, Held)
    ensures FreedRange(owner, d, lo, hi)[f := Free] == FreedRange(owner[f := Free], d, lo, hi)
    ensures FreedRange(owner, d, lo, hi)[f] == Held
    ensures forall c: nat :: IsDir(FreedRange(owner, d, lo, hi), c) <==> IsDir(owner, c)
  {
  }

  // ---------- copyuvm ----------

  /** Page x of c has the flags and bytes of page x of d, on a frame of its own. */
  ghost predicate CopiedAt(page: seq<Page>, owner: seq<Owner>, d: nat, c: nat, x: nat) {
    var e, g := Lookup(page, d, x), Lookup(page, c, x);
    && g.flags == e.flags && Present(e) && OwnedAs(owner, g.frame, User(c, x / NPTE, x % NPTE))
       && OwnedAs(owner, e.frame, User(d, x / NPTE, x % NPTE))
    && e.frame < |page| && g.frame < |page| && page[g.frame] == page[e.frame]
  }

  /**
  Directory c is new since own0 and holds copies of the first v pages of d and the kernel's mappings,
  nothing else; every directory of own0 and all its data are as they were.
  */
  ghost predicate Copying(page0: seq<Page>, own0: seq<Owner>, page: seq<Page>, owner: seq<Owner>, d: nat, c: nat,
                          v: nat, data: nat) {
    && SameLookups(page0, page, own0) && SameData(page0, page, own0) && GrowsFor(own0, owner, c) && IsDir(owner, c)
    && (forall x: nat | x < v :: CopiedAt(page, owner, d, c, x))
    && (forall x: nat | v <= x :: Lookup(page, c, x) == KernelEntry(data, x))
  }

  /** The byte at user address a. */
  function UserByte(page: seq<Page>, d: nat, a: nat): (x: Byte) {
    var e := Lookup(page, d, a / PGSIZE);
    if Present(e) && e.frame < |page| && page[e.frame].Raw? then page[e.frame].at[a % PGSIZE] else 0
  }

  lemma {:induction false} CopyStart(page0: seq<Page>, own0: seq<Owner>, page: seq<Page>, owner: seq<Owner>, d: nat,
                                     c: nat, data: nat)
    requires SameLookups(page0, page, own0) && SameData(page0, page, own0) && OwnedAs(own0, c, Free) && IsDir(owner, c)
    requires OnlyTables(own0[c := Dir], owner, c) && forall x: nat :: Lookup(page, c, x) == KernelEntry(data, x)
    ensures Copying(page0, own0, page, owner, d, c, 0, data)
  {
  }

  lemma {:induction false} CopyFacts(page0: seq<Page>, own0: seq<Owner>, page: seq<Page>, owner: seq<Owner>, d: nat,
                                     c: nat, v: nat, data: nat)
    requires Copying(page0, own0, page, owner, d, c, v, data) && IsDir(own0, d) && v < USERPAGES && Inv(page, owner)
             && Present(Lookup(page0, d, v))
    ensures IsDir(owner, d) && SameLookups(page0, page, own0) && SameData(page0, page, own0) && GrowsFor(own0, owner, c)
    ensures Lookup(page, c, v) == Unmapped() && Lookup(page, d, v) == Lookup(page0, d, v)
    ensures var e := Lookup(page, d, v);
            OwnedAs(owner, e.frame, User(d, v / NPTE, v % NPTE)) && e.frame < |page| && page[e.frame].Raw?
    ensures Present(EntryOf(page, d, v / NPTE))
  {
    var e := Lookup(page, d, v);
    assert e == Lookup(page0, d, v);
    assert Present(Translate(page, d, v / NPTE, v % NPTE));
    assert OwnedAs(owner, e.frame, User(d, v / NPTE, v % NPTE));
    assert owner[e.frame].User?;
  }

  lemma {:induction false} EntryIs(page: seq<Page>, d: nat, v: nat, t: nat)
    requires Present(EntryOf(page, d, v / NPTE)) && EntryOf(page, d, v / NPTE).frame == t && t < |page|
             && page[t].Entries?
    requires Present(Lookup(page, d, v))
    ensures page[t].e[v % NPTE] == Lookup(page, d, v)
  {
  }

  lemma {:induction false} CopyMore(page0: seq<Page>, own0: seq<Owner>, page1: seq<Page>, page2: seq<Page>,
                                    page: seq<Page>, own1: seq<Owner>, owner: seq<Owner>, d: nat, c: nat, v: nat,
                                    data: nat, f: nat)
    requires Copying(page0, own0, page1, own1, d, c, v, data) && IsDir(own0, d) && OwnedAs(own0, c, Free)
             && OwnedAs(own1, f, Free) && v < USERPAGES
    requires Inv(page1, own1) && Present(Lookup(page1, d, v)) && Lookup(page1, d, v).frame < |page1| == |page2|
    requires f < |page1| && page2 == page1[f := page1[Lookup(page1, d, v).frame]]
             && SameLookups(page1, page2, own1[f := Held])
    requires Mapped(page2, page, own1[f := Held], c, v, 1, f, Lookup(page1, d, v).flags)
    requires OnlyTables(Taken(own1[f := Held], c, v, f), owner, c) && SameData(page2, page, own1[f := Held])
    ensures Copying(page0, own0, page, owner, d, c, v + 1, data) && IsDir(owner, c)
  {
    hide Lookup, Inv, KernelEntry;
    var e, own2 := Lookup(page1, d, v), own1[f := Held];
    PresentIsOwned(page1, own1, d, v);
    assert e.flags + {P} == e.flags;
    forall b: nat, x: nat | IsDir(own1, b)
      ensures Lookup(page, b, x) == if b == c && x == v then Pte(f, e.flags) else Lookup(page1, b, x)
    {
      assert IsDir(own2, b);
    }
    forall x: nat | x < v + 1 ensures CopiedAt(page, owner, d, c, x) {
      if x < v {
        assert CopiedAt(page1, own1, d, c, x);
        assert own2[Lookup(page1, d, x).frame].User? && own2[Lookup(page1, c, x).frame].User?;
      } else {
        assert own2[f].Held? && own2[e.frame].User?;
      }
    }
    assert forall b: nat | IsDir(own0, b) :: IsDir(own1, b) && b != c;
    assert forall g: nat | g < |own0| && (own0[g].User? || own0[g].Held?) :: own2[g] == own0[g] && g != f;
  }

  lemma {:induction false} PresentIsOwned(page: seq<Page>, owner: seq<Owner>, d: nat, v: nat)
    requires Inv(page, owner) && IsDir(owner, d) && v < USERPAGES && Present(Lookup(page, d, v))
    ensures OwnedAs(owner, Lookup(page, d, v).frame, User(d, v / NPTE, v % NPTE)) && Lookup(page, d, v).frame < |page|
            && page[Lookup(page, d, v).frame].Raw?
  {
    var e := Lookup(page, d, v);
    assert Present(Translate(page, d, v / NPTE, v % NPTE));
    assert OwnedAs(owner, e.frame, User(d, v / NPTE, v % NPTE));
    assert owner[e.frame].User?;
  }

  lemma {:induction false} CopyFails(page0: seq<Page>, own0: seq<Owner>, page1: seq<Page>, page2: seq<Page>,
                                     page: seq<Page>, own1: seq<Owner>, owner: seq<Owner>, d: nat, c: nat, v: nat,
                                     data: nat, f: nat, perm: set<nat>)
    requires Copying(page0, own0, page1, own1, d, c, v, data) && OwnedAs(own1, f, Free)
    requires f < |page1| == |page2| && page2 == page1[f := page2[f]] && SameLookups(page1, page2, own1[f := Held])
    requires Mapped(page2, page, own1[f := Held], c, v, 0, f, perm)
    requires OnlyTables(own1[f := Held], owner, c) && SameData(page2, page, own1[f := Held])
    ensures OwnedAs(owner, f, Held) && GrowsFor(own0, owner[f := Free], c) && IsDir(owner, c)
    ensures SameLookups(page0, page, own0) && SameData(page0, page, own0) && OwnedAs(own0, f, Free)
  {
    hide Lookup;
    var own2 := own1[f := Held];
    forall b: nat, x: nat | IsDir(own0, b) ensures Lookup(page, b, x) == Lookup(page0, b, x) {
      assert IsDir(own1, b) && IsDir(own2, b);
    }
    assert forall g: nat | g < |own0| && (own0[g].User? || own0[g].Held?) :: own2[g] == own0[g] && g != f;
  }

  lemma {:induction false} FailsClean(page0: seq<Page>, own0: seq<Owner>, page: seq<Page>, page': seq<Page>,
                                      owner: seq<Owner>, owner': seq<Owner>, c: nat, f: nat)
    requires OwnedAs(owner, f, Held) && owner' == owner[f := Free] && GrowsFor(own0, owner', c) && IsDir(owner, c)
             && OwnedAs(own0, f, Free)
    requires SameLookups(page0, page, own0) && SameData(page0, page, own0) && f < |page| == |page'|
             && page' == page[f := page'[f]]
    requires SameSpaces(page, page', owner')
    ensures IsDir(owner', c) && SameLookups(page0, page', own0) && SameData(page0, page', own0)
  {
    forall b: nat, x: nat | IsDir(own0, b) ensures Lookup(page', b, x) == Lookup(page0, b, x) {
      assert IsDir(owner', b);
      assert Translate(page', b, x / NPTE, x % NPTE) == Translate(page, b, x / NPTE, x % NPTE);
    }
  }

  /** At the end of copyuvm the two address spaces agree byte for byte below sz. */
  lemma {:induction false} CopyDone(page0: seq<Page>, own0: seq<Owner>, page: seq<Page>, owner: seq<Owner>, d: nat,
                                    c: nat, sz: nat, data: nat)
    requires Copying(page0, own0, page, owner, d, c, PagesUp(sz), data) && IsDir(own0, d) && Inv(page0, own0)
             && sz <= KERNBASE
    ensures SameLookups(page0, page, own0) && SameData(page0, page, own0)
    ensures forall a: nat | a < sz :: UserByte(page, c, a) == UserByte(page, d, a) == UserByte(page0, d, a)
  {
    forall a: nat | a < sz ensures UserByte(page, c, a) == UserByte(page, d, a) == UserByte(page0, d, a) {
      var x := a / PGSIZE;
      assert x < PagesUp(sz);
      assert CopiedAt(page, owner, d, c, x);
      PresentIsOwned(page0, own0, d, x);
      assert own0[Lookup(page0, d, x).frame].User?;
    }
  }

  // ---------- copyout ----------

  datatype CopyResult = Copied | Refused | NullRead

  /** Page x has a byte of the n bytes at va. */
  predicate InPages(va: nat, n: nat, x: nat) { 0 < n && va / PGSIZE <= x && x * PGSIZE < va + n }

  /** Page x is the first of the range that is not mapped for user code. */
  ghost predicate FirstBad(page: seq<Page>, d: nat, va: nat, n: nat, x: nat) {
    && InPages(va, n, x) && U !in Lookup(page, d, x).flags
    && forall y: nat | InPages(va, n, y) && y < x :: U in Lookup(page, d, y).flags
  }

  /** The page of the next byte is in the range, and those before it are behind. */
  lemma {:induction false} Reached(page: seq<Page>, d: nat, va: nat, n: nat, a: nat)
    requires va <= a < va + n && (a == va || a % PGSIZE == 0)
    ensures InPages(va, n, a / PGSIZE)
    ensures forall y: nat | InPages(va, n, y) && y < a / PGSIZE :: y * PGSIZE < a && va < a
  {
  }

  lemma {:induction false} NoEntry(page: seq<Page>, d: nat, v: nat)
    requires !Present(EntryOf(page, d, v / NPTE))
    ensures Lookup(page, d, v) == Unmapped()
  {
  }

  lemma {:induction false} OneFirstBad(page: seq<Page>, d: nat, va: nat, n: nat, x: nat)
    requires FirstBad(page, d, va, n, x)
    ensures forall y: nat :: FirstBad(page, d, va, n, y) <==> y == x
  {
  }

  /**
  An address space as exec builds it, by setupkvm and allocuvm: copying to any address whose page-table
  page neither of them made reads through a null pointer.
  */
  method NullReads(first: nat, data: nat, sz: nat, va: nat, src: seq<Byte>) returns (r: CopyResult)
    requires 0 < first <= NFRAMES && EXTFRAME < data < NFRAMES && sz < KERNBASE && va < NPAGES * PGSIZE && src != []
    requires KERNELFRAMES + PagesUp(sz) + TableEnd(0, PagesUp(sz)) <= NFRAMES - first
    requires TableEnd(0, PagesUp(sz)) <= va / PGSIZE / NPTE && !KernelTable(va / PGSIZE / NPTE)
    ensures r.NullRead?
  {
    hide Inv, FreeOk, Translate, TableEnd, NoTables, OnlyTables, SameData, FreshAt;
    var m := new Memory(first);
    var o := m.Setupkvm(data);
    var d, x := o.value, va / PGSIZE;
    AllAbsent(m.page, d, PagesUp(sz));
    var sz' := m.Allocuvm(d, 0, sz);
    assert !Present(EntryOf(m.page, d, x / NPTE));
    ghost var done;
    r, done := m.CopyOut(d, va, src);
    assert !Present(EntryOf(m.page, d, x / NPTE));
    NoEntry(m.page, d, x);
    assert FirstBad(m.page, d, va, |src|, x);
  }

  /** The addresses between the kernel's memory and its devices are of this kind, whatever the process's size. */
  lemma {:induction false} KernelGap(sz: nat, va: nat)
    requires sz < KERNBASE && va < NPAGES * PGSIZE
    ensures 0x8E00_0000 <= va < 0xFE00_0000 ==>
              TableEnd(0, PagesUp(sz)) <= va / PGSIZE / NPTE && !KernelTable(va / PGSIZE / NPTE)
    ensures sz == 0 && va < KERNBASE ==>
              TableEnd(0, PagesUp(sz)) <= va / PGSIZE / NPTE && !KernelTable(va / PGSIZE / NPTE)
  {
  }

  /** Where exec puts an argument of len bytes below sp, with 32-bit wrap-around. */
  function ArgumentAt(sp: Word32, len: nat): (a: Word32) { (sp - (len + 1)) % 0x1_0000_0000 / 4 * 4 }

  /** It is in that gap exactly for arguments from about 32 MB longer than the stack's address on. */
  lemma {:induction false} ArgumentInGap(sp: Word32, len: nat)
    requires len + 1 <= sp + 0x1_0000_0000
    ensures 0x8E00_0000 <= ArgumentAt(sp, len) < 0xFE00_0000 && len + 1 > sp <==>
              sp + 0x200_0000 < len + 1 <= sp + 0x7200_0000
    ensures ArgumentAt(0x4000, 0x200_4000) == 0xFDFF_FFFC
  {
    var x := sp - (len + 1);
    if x < 0 {
      assert x % 0x1_0000_0000 == x + 0x1_0000_0000;
    }
  }

  function PagePatch(p: PageBytes, off: nat, src: seq<Byte>): (r: PageBytes)
    requires off + |src| <= PGSIZE
  {
    p[..off] + src + p[off + |src|..]
  }

  lemma {:induction false} TableThere(page: seq<Page>, owner: seq<Owner>, d: nat, v: nat)
    requires Inv(page, owner) && IsDir(owner, d) && Present(EntryOf(page, d, v / NPTE))
    ensures var t := EntryOf(page, d, v / NPTE).frame;
            && t < |page| && page[t].Entries?
            && Lookup(page, d, v) == if Present(page[t].e[v % NPTE]) then page[t].e[v % NPTE] else Unmapped()
  {
    assert OwnedAs(owner, EntryOf(page, d, v / NPTE).frame, Table(d, v / NPTE));
  }

  /** A page user code may touch is in the user half, on a frame of its own. */
  lemma {:induction false} UserWritable(page: seq<Page>, owner: seq<Owner>, d: nat, v: nat)
    requires Inv(page, owner) && IsDir(owner, d) && {P, U} <= Lookup(page, d, v).flags
    ensures v < USERPAGES && OwnedAs(owner, Lookup(page, d, v).frame, User(d, v / NPTE, v % NPTE))
    ensures Lookup(page, d, v).frame < |page| && page[Lookup(page, d, v).frame].Raw?
  {
    assert U in Translate(page, d, v / NPTE, v % NPTE).flags;
    assert v / NPTE < USERDIRS;
    PresentIsOwned(page, owner, d, v);
  }

  /** Address space d has src at address a, and no other user byte of any address space changed. */
  ghost predicate Stored(page: seq<Page>, page': seq<Page>, owner: seq<Owner>, d: nat, a: nat, src: seq<Byte>) {
    forall c: nat, b: nat | IsDir(owner, c) && b < KERNBASE ::
      UserByte(page', c, b) == if c == d && a <= b < a + |src| then src[b - a] else UserByte(page, c, b)
  }

  lemma {:induction false} StoredNone(page: seq<Page>, owner: seq<Owner>, d: nat, a: nat, src: seq<Byte>)
    requires src == []
    ensures Stored(page, page, owner, d, a, src)
  {
  }

  lemma {:induction false} StoredMore(page0: seq<Page>, page1: seq<Page>, page2: seq<Page>, owner: seq<Owner>,
                                      d: nat, a: nat, s: seq<Byte>, t: seq<Byte>, u: seq<Byte>)
    requires Stored(page0, page1, owner, d, a, s) && Stored(page1, page2, owner, d, a + |s|, t) && u == s + t
    ensures Stored(page0, page2, owner, d, a, u)
  {
    hide UserByte;
  }

  /** Storing src at address a, inside one page, changes those bytes of that address space and no others. */
  lemma {:induction false} UserStore(page: seq<Page>, owner: seq<Owner>, head: Option<nat>, list: seq<nat>, d: nat,
                                     a: nat, src: seq<Byte>, q: PageBytes)
    requires Inv(page, owner) && FreeOk(page, owner, head, list) && IsDir(owner, d) && a % PGSIZE + |src| <= PGSIZE
    requires {P, U} <= Lookup(page, d, a / PGSIZE).flags
    requires var f := Lookup(page, d, a / PGSIZE).frame;
             f < |page| && page[f].Raw? && q == PagePatch(page[f].at, a % PGSIZE, src)
    ensures var page' := page[Lookup(page, d, a / PGSIZE).frame := Raw(q)];
            && Inv(page', owner) && FreeOk(page', owner, head, list) && SameLookups(page, page', owner)
            && (forall c: nat, i: nat | IsDir(owner, c) :: EntryOf(page', c, i) == EntryOf(page, c, i))
            && Stored(page, page', owner, d, a, src)
  {
    var f := Lookup(page, d, a / PGSIZE).frame;
    UserWritable(page, owner, d, a / PGSIZE);
    WriteUser(page, owner, f, Raw(q));
    var page' := page[f := Raw(q)];
    FreeUntouched(page, owner, head, list, page', owner);
    forall c: nat, x: nat | IsDir(owner, c) ensures Lookup(page', c, x) == Lookup(page, c, x) {
      assert Translate(page', c, x / NPTE, x % NPTE) == Translate(page, c, x / NPTE, x % NPTE);
    }
    forall c: nat, b: nat | IsDir(owner, c) && b < KERNBASE
      ensures UserByte(page', c, b) == if c == d && a <= b < a + |src| then src[b - a] else UserByte(page, c, b)
    {
      UserStoreByte(page, page', owner, d, a, src, q, c, b);
    }
  }

  lemma {:induction false} UserStoreByte(page: seq<Page>, page': seq<Page>, owner: seq<Owner>, d: nat, a: nat,
                                         src: seq<Byte>, q: PageBytes, c: nat, b: nat)
    requires Inv(page, owner) && IsDir(owner, d) && a % PGSIZE + |src| <= PGSIZE && IsDir(owner, c) && b < KERNBASE
    requires {P, U} <= Lookup(page, d, a / PGSIZE).flags && SameLookups(page, page', owner)
    requires var f := Lookup(page, d, a / PGSIZE).frame;
             f < |page| && page[f].Raw? && q == PagePatch(page[f].at, a % PGSIZE, src) && page' == page[f := Raw(q)]
    ensures UserByte(page', c, b) == if c == d && a <= b < a + |src| then src[b - a] else UserByte(page, c, b)
  {
    hide Inv, Lookup;
    var f, x, y := Lookup(page, d, a / PGSIZE).frame, a / PGSIZE, b / PGSIZE;
    UserWritable(page, owner, d, x);
    if Present(Lookup(page, c, y)) {
      PresentIsOwned(page, owner, c, y);
      SamePage(x, y);
    }
  }

  lemma {:induction false} SamePage(x: nat, y: nat)
    ensures x / NPTE == y / NPTE && x % NPTE == y % NPTE ==> x == y
  {
  }
}
