/**
Physical frames and page tables as data.  A frame holds raw bytes, 1024 page-table entries, or a
link of the free list; `owner` says what each frame is used for.  A virtual page number is written
as the pair (i, j) of its directory and table index; i < 512 is the user half.
*/
module Frames {
  import opened Blocks
  import opened Options

  const PGSIZE := 4096
  const NPTE := 1024
  const USERDIRS := 512

  /** Flag bits by number: present, writable, user. */
  const P: nat := 0
  const W: nat := 1
  const U: nat := 2

  datatype Pte = Pte(frame: nat, flags: set<nat>)

  function Unmapped(): (e: Pte) { Pte(0, {}) }

  predicate Present(e: Pte) { P in e.flags }

  type PageBytes = s: seq<Byte> | |s| == PGSIZE witness seq(PGSIZE, _ => 0)
  type Ptes = s: seq<Pte> | |s| == NPTE witness seq(NPTE, _ => Pte(0, {}))

  /** Run is struct run: a freed page, filled with junk but for the pointer to the next one. */
  datatype Page = Raw(at: PageBytes) | Entries(e: Ptes) | Run(next: Option<nat>)

  /** Held: taken from the free list and not yet mapped anywhere. */
  datatype Owner = Kernel | Free | Held | Dir | Table(d: nat, i: nat) | User(d: nat, i: nat, j: nat)

  function EmptyTable(): (p: Page) { Entries(seq(NPTE, _ => Pte(0, {}))) }

  /** Entry i of the directory or table in frame d. */
  function EntryOf(page: seq<Page>, d: nat, i: nat): (e: Pte) {
    if d < |page| && page[d].Entries? && i < NPTE then page[d].e[i] else Unmapped()
  }

  /** The two-level translation of page (i, j) under directory d. */
  function Translate(page: seq<Page>, d: nat, i: nat, j: nat): (e: Pte) {
    var t := EntryOf(page, d, i);
    if Present(t) then EntryOf(page, t.frame, j) else Unmapped()
  }

  // ---------- One use per frame ----------

  ghost predicate IsDir(owner: seq<Owner>, d: nat) { d < |owner| && owner[d] == Dir }

  ghost predicate OwnedAs(owner: seq<Owner>, f: nat, o: Owner) { f < |owner| && owner[f] == o }

  ghost predicate Typed(page: seq<Page>, owner: seq<Owner>) {
    && |page| == |owner|
    && (forall f | 0 <= f < |owner| && (owner[f].Dir? || owner[f].Table?) :: page[f].Entries?)
    && (forall f | 0 <= f < |owner| && owner[f].User? :: page[f].Raw?)
  }

  /** Directory entries point to page-table pages made for exactly that entry, with all permissions, and back. */
  ghost predicate TablesOwned(page: seq<Page>, owner: seq<Owner>) {
    && (forall d: nat, i: nat | IsDir(owner, d) && Present(EntryOf(page, d, i)) ::
          OwnedAs(owner, EntryOf(page, d, i).frame, Table(d, i)) && EntryOf(page, d, i).flags == {P, W, U})
    && (forall f | 0 <= f < |owner| && owner[f].Table? ::
          IsDir(owner, owner[f].d) && Present(EntryOf(page, owner[f].d, owner[f].i))
              && EntryOf(page, owner[f].d, owner[f].i).frame == f)
  }

  /** Present user entries point to frames mapped at exactly that place, and back. */
  ghost predicate UsersOwned(page: seq<Page>, owner: seq<Owner>) {
    && (forall d: nat, i: nat, j: nat | IsDir(owner, d) && i < USERDIRS && Present(Translate(page, d, i, j)) ::
          OwnedAs(owner, Translate(page, d, i, j).frame, User(d, i, j)))
    && (forall f | 0 <= f < |owner| && owner[f].User? ::
          var o := owner[f];
          IsDir(owner, o.d) && o.i < USERDIRS && Present(Translate(page, o.d, o.i, o.j))
              && Translate(page, o.d, o.i, o.j).frame == f)
  }

  /** No mapping in the kernel half is accessible to user code. */
  ghost predicate KernelPrivate(page: seq<Page>, owner: seq<Owner>) {
    forall d: nat, i: nat, j: nat | IsDir(owner, d) && USERDIRS <= i :: U !in Translate(page, d, i, j).flags
  }

  ghost predicate Inv(page: seq<Page>, owner: seq<Owner>) {
    Typed(page, owner) && TablesOwned(page, owner) && UsersOwned(page, owner) && KernelPrivate(page, owner)
  }

  /** No directory's translation changed, for the directories of `owner`. */
  ghost predicate SameMaps(page: seq<Page>, page': seq<Page>, owner: seq<Owner>) {
    && (forall d: nat, i: nat | IsDir(owner, d) :: EntryOf(page', d, i) == EntryOf(page, d, i))
    && (forall d: nat, i: nat, j: nat | IsDir(owner, d) :: Translate(page', d, i, j) == Translate(page, d, i, j))
  }

  /** Only the translation of (d, i, j) changed, to e. */
  ghost predicate MapsExcept(page: seq<Page>, page': seq<Page>, owner: seq<Owner>, d: nat, i: nat, j: nat, e: Pte) {
    && (forall c: nat, k: nat | IsDir(owner, c) :: EntryOf(page', c, k) == EntryOf(page, c, k))
    && (forall c: nat, k: nat, l: nat | IsDir(owner, c) ::
          Translate(page', c, k, l) == if c == d && k == i && l == j then e else Translate(page, c, k, l))
  }

  /** A frame that no table names can change hands and contents freely. */
  lemma {:induction false} Recolour(page: seq<Page>, owner: seq<Owner>, page': seq<Page>, owner': seq<Owner>, f: nat)
    requires Inv(page, owner) && f < |owner| && (owner[f].Free? || owner[f].Held?)
    requires |page'| == |page| && page' == page[f := page'[f]]
    requires |owner'| == |owner| && owner' == owner[f := owner'[f]] && (owner'[f].Free? || owner'[f].Held?)
    ensures Inv(page', owner') && SameMaps(page, page', owner)
  {
    hide Present, Unmapped;
    forall d: nat, i: nat | IsDir(owner, d) ensures EntryOf(page', d, i) == EntryOf(page, d, i) {
    }
    forall d: nat, i: nat, j: nat | IsDir(owner, d) ensures Translate(page', d, i, j) == Translate(page, d, i, j) {
      if Present(EntryOf(page, d, i)) {
        assert OwnedAs(owner, EntryOf(page, d, i).frame, Table(d, i));
      }
    }
    assert forall d: nat :: IsDir(owner', d) <==> IsDir(owner, d);
    forall g | 0 <= g < |owner'| && owner'[g].Table?
      ensures IsDir(owner', owner'[g].d) && EntryOf(page', owner'[g].d, owner'[g].i).frame == g
    {
      assert owner[g].Table?;
    }
    forall g | 0 <= g < |owner'| && owner'[g].User?
      ensures IsDir(owner', owner'[g].d) && Translate(page', owner'[g].d, owner'[g].i, owner'[g].j).frame == g
    {
      assert owner[g].User?;
    }
  }

  /** setupkvm's first step: a held frame becomes a directory with nothing in it. */
  lemma {:induction false} NewDir(page: seq<Page>, owner: seq<Owner>, f: nat, page': seq<Page>)
    requires Inv(page, owner) && f < |owner| && owner[f].Held? && page' == page[f := EmptyTable()]
    ensures Inv(page', owner[f := Dir]) && SameMaps(page, page', owner)
    ensures forall i: nat, j: nat :: Translate(page', f, i, j) == Unmapped()
  {
    var owner' := owner[f := Dir];
    Recolour(page, owner, page', owner, f);
    assert forall d: nat :: IsDir(owner', d) <==> IsDir(owner, d) || d == f;
    assert forall i: nat :: EntryOf(page', f, i) == Unmapped();
    forall g | 0 <= g < |owner'| && (owner'[g].Table? || owner'[g].User?) ensures owner[g] == owner'[g] {
    }
  }

  /** walkpgdir's allocation: an empty page-table page changes no translation. */
  lemma {:induction false} NewTable(page: seq<Page>, owner: seq<Owner>, d: nat, i: nat, t: nat, page': seq<Page>)
    requires Inv(page, owner) && IsDir(owner, d) && i < NPTE && !Present(EntryOf(page, d, i)) && t < |owner|
             && owner[t].Held?
    requires page[d].Entries? && page' == page[t := EmptyTable()][d := Entries(page[d].e[i := Pte(t, {P, W, U})])]
    ensures Inv(page', owner[t := Table(d, i)])
    ensures forall c: nat, k: nat, j: nat | IsDir(owner, c) :: Translate(page', c, k, j) == Translate(page, c, k, j)
    ensures forall c: nat, k: nat | IsDir(owner, c) ::
              EntryOf(page', c, k) == if c == d && k == i then Pte(t, {P, W, U}) else EntryOf(page, c, k)
  {
    var owner' := owner[t := Table(d, i)];
    forall c: nat, k: nat | IsDir(owner, c)
      ensures EntryOf(page', c, k) == if c == d && k == i then Pte(t, {P, W, U}) else EntryOf(page, c, k)
    {
    }
    forall c: nat, k: nat, j: nat | IsDir(owner, c) ensures Translate(page', c, k, j) == Translate(page, c, k, j) {
      if Present(EntryOf(page, c, k)) {
        assert OwnedAs(owner, EntryOf(page, c, k).frame, Table(c, k));
      }
    }
    assert forall c: nat :: IsDir(owner', c) <==> IsDir(owner, c);
    NewTableOwners(page, owner, d, i, t, page');
  }

  lemma {:induction false} NewTableOwners(page: seq<Page>, owner: seq<Owner>, d: nat, i: nat, t: nat, page': seq<Page>)
    requires Inv(page, owner) && IsDir(owner, d) && i < NPTE && !Present(EntryOf(page, d, i)) && t < |owner|
             && owner[t].Held?
    requires forall c: nat, k: nat | IsDir(owner, c) ::
               EntryOf(page', c, k) == if c == d && k == i then Pte(t, {P, W, U}) else EntryOf(page, c, k)
    requires forall c: nat, k: nat, j: nat | IsDir(owner, c) :: Translate(page', c, k, j) == Translate(page, c, k, j)
    ensures TablesOwned(page', owner[t := Table(d, i)]) && UsersOwned(page', owner[t := Table(d, i)])
  {
    var owner' := owner[t := Table(d, i)];
    assert forall c: nat :: IsDir(owner', c) <==> IsDir(owner, c);
    forall g | 0 <= g < |owner'| && owner'[g].Table?
      ensures Present(EntryOf(page', owner'[g].d, owner'[g].i)) && EntryOf(page', owner'[g].d, owner'[g].i).frame == g
    {
      if g != t {
        assert owner[g].Table?;
      }
    }
    forall c: nat, k: nat | IsDir(owner', c) && Present(EntryOf(page', c, k))
      ensures OwnedAs(owner', EntryOf(page', c, k).frame, Table(c, k))
    {
      if !(c == d && k == i) {
        assert OwnedAs(owner, EntryOf(page, c, k).frame, Table(c, k));
      }
    }
    forall g | 0 <= g < |owner'| && owner'[g].User? ensures owner[g] == owner'[g] {
    }
    forall c: nat, k: nat, j: nat | IsDir(owner', c) && k < USERDIRS && Present(Translate(page', c, k, j))
      ensures OwnedAs(owner', Translate(page', c, k, j).frame, User(c, k, j))
    {
      assert OwnedAs(owner, Translate(page, c, k, j).frame, User(c, k, j));
    }
  }

  /** Writing entry j of the table of (d, i) changes that translation and no other. */
  lemma {:induction false} WriteEntry(page: seq<Page>, owner: seq<Owner>, d: nat, i: nat, j: nat, e: Pte,
                                      page': seq<Page>)
    requires Inv(page, owner) && IsDir(owner, d) && Present(EntryOf(page, d, i)) && j < NPTE
    requires var t := EntryOf(page, d, i).frame;
             t < |page| && page[t].Entries? && page' == page[t := Entries(page[t].e[j := e])]
    ensures Typed(page', owner) && TablesOwned(page', owner) && MapsExcept(page, page', owner, d, i, j, e)
  {
    var t := EntryOf(page, d, i).frame;
    assert owner[t] == Table(d, i);
    forall c: nat, k: nat | IsDir(owner, c) ensures EntryOf(page', c, k) == EntryOf(page, c, k) {
    }
    forall c: nat, k: nat, l: nat | IsDir(owner, c)
      ensures Translate(page', c, k, l) == if c == d && k == i && l == j then e else Translate(page, c, k, l)
    {
      if Present(EntryOf(page, c, k)) {
        assert OwnedAs(owner, EntryOf(page, c, k).frame, Table(c, k));
      }
    }
  }

  /** mappages for one user page: the held frame f becomes the one mapped at (d, i, j). */
  lemma {:induction false} MapUser(page: seq<Page>, owner: seq<Owner>, d: nat, i: nat, j: nat, e: Pte, page': seq<Page>)
    requires Inv(page, owner) && IsDir(owner, d) && i < USERDIRS && j < NPTE && Present(EntryOf(page, d, i))
             && !Present(Translate(page, d, i, j))
    requires Present(e) && e.frame < |owner| && owner[e.frame].Held? && page[e.frame].Raw?
    requires var t := EntryOf(page, d, i).frame;
             t < |page| && page[t].Entries? && page' == page[t := Entries(page[t].e[j := e])]
    ensures Inv(page', owner[e.frame := User(d, i, j)]) && MapsExcept(page, page', owner, d, i, j, e)
  {
    WriteEntry(page, owner, d, i, j, e, page');
    var owner' := owner[e.frame := User(d, i, j)];
    assert forall c: nat :: IsDir(owner', c) <==> IsDir(owner, c);
    forall g | 0 <= g < |owner'| && owner'[g].Table? ensures owner[g] == owner'[g] {
    }
    forall g | 0 <= g < |owner'| && owner'[g].User?
      ensures var o := owner'[g]; Present(Translate(page', o.d, o.i, o.j)) && Translate(page', o.d, o.i, o.j).frame == g
    {
      if g != e.frame {
        assert owner[g].User?;
      }
    }
    forall c: nat, k: nat, l: nat | IsDir(owner', c) && k < USERDIRS && Present(Translate(page', c, k, l))
      ensures OwnedAs(owner', Translate(page', c, k, l).frame, User(c, k, l))
    {
      if !(c == d && k == i && l == j) {
        assert OwnedAs(owner, Translate(page, c, k, l).frame, User(c, k, l));
      }
    }
  }

  /** mappages for one kernel page: no frame changes hands. */
  lemma {:induction false} MapKernel(page: seq<Page>, owner: seq<Owner>, d: nat, i: nat, j: nat, e: Pte,
                                     page': seq<Page>)
    requires Inv(page, owner) && IsDir(owner, d) && USERDIRS <= i && j < NPTE && Present(EntryOf(page, d, i))
             && U !in e.flags
    requires var t := EntryOf(page, d, i).frame;
             t < |page| && page[t].Entries? && page' == page[t := Entries(page[t].e[j := e])]
    ensures Inv(page', owner) && MapsExcept(page, page', owner, d, i, j, e)
  {
    WriteEntry(page, owner, d, i, j, e, page');
  }

  /** deallocuvm for one page: its frame is free again and the entry is empty. */
  lemma {:induction false} UnmapUser(page: seq<Page>, owner: seq<Owner>, d: nat, i: nat, j: nat, page': seq<Page>)
    requires Inv(page, owner) && IsDir(owner, d) && i < USERDIRS && j < NPTE && Present(EntryOf(page, d, i))
             && Present(Translate(page, d, i, j))
    requires var t, f := EntryOf(page, d, i).frame, Translate(page, d, i, j).frame;
             && t < |page| && page[t].Entries? && f < |page| && |page'| == |page|
             && page' == page[f := page'[f]][t := Entries(page[t].e[j := Unmapped()])]
    ensures Inv(page', owner[Translate(page, d, i, j).frame := Free])
            && MapsExcept(page, page', owner, d, i, j, Unmapped())
  {
    var t, f := EntryOf(page, d, i).frame, Translate(page, d, i, j).frame;
    assert owner[t] == Table(d, i) && owner[f] == User(d, i, j);
    var page1, held := page[t := Entries(page[t].e[j := Unmapped()])], owner[f := Held];
    WriteEntry(page, owner, d, i, j, Unmapped(), page1);
    UnmapOwners(page, owner, d, i, j, page1, f);
    assert page' == page1[f := page'[f]];
    Recolour(page1, held, page', held[f := Free], f);
    assert forall c: nat :: IsDir(held, c) <==> IsDir(owner, c);
    assert held[f := Free] == owner[f := Free];
  }

  lemma {:induction false} UnmapOwners(page: seq<Page>, owner: seq<Owner>, d: nat, i: nat, j: nat, page': seq<Page>,
                                       f: nat)
    requires Inv(page, owner) && IsDir(owner, d) && Typed(page', owner) && TablesOwned(page', owner)
    requires MapsExcept(page, page', owner, d, i, j, Unmapped())
    requires f < |owner| && owner[f] == User(d, i, j)
    ensures Inv(page', owner[f := Held])
  {
    var owner' := owner[f := Held];
    assert forall c: nat :: IsDir(owner', c) <==> IsDir(owner, c);
    forall g | 0 <= g < |owner| && owner[g] == User(d, i, j) ensures g == f {
      assert Translate(page, d, i, j).frame == g && owner[f].User?;
    }
    forall g | 0 <= g < |owner'| && (owner'[g].Table? || owner'[g].User?)
      ensures owner[g] == owner'[g] && owner'[g] != User(d, i, j)
    {
    }
    forall c: nat, k: nat | IsDir(owner', c) && Present(EntryOf(page', c, k))
      ensures OwnedAs(owner', EntryOf(page', c, k).frame, Table(c, k))
    {
      assert OwnedAs(owner, EntryOf(page', c, k).frame, Table(c, k));
    }
    forall c: nat, k: nat, l: nat | IsDir(owner', c) && k < USERDIRS && Present(Translate(page', c, k, l))
      ensures OwnedAs(owner', Translate(page', c, k, l).frame, User(c, k, l))
    {
      assert OwnedAs(owner, Translate(page, c, k, l).frame, User(c, k, l));
    }
  }

  /** Storing bytes in a mapped user page moves nothing. */
  lemma {:induction false} WriteUser(page: seq<Page>, owner: seq<Owner>, f: nat, p: Page)
    requires Inv(page, owner) && f < |owner| && owner[f].User? && p.Raw?
    ensures Inv(page[f := p], owner) && SameMaps(page, page[f := p], owner)
  {
    var page' := page[f := p];
    forall d: nat, i: nat, j: nat | IsDir(owner, d)
      ensures EntryOf(page', d, i) == EntryOf(page, d, i) && Translate(page', d, i, j) == Translate(page, d, i, j)
    {
      if Present(EntryOf(page, d, i)) {
        assert OwnedAs(owner, EntryOf(page, d, i).frame, Table(d, i));
      }
    }
    assert forall d: nat, i: nat {:trigger EntryOf(page', d, i)} | IsDir(owner, d) ::
        EntryOf(page', d, i) == EntryOf(page, d, i) && Translate(page', d, i, 0) == Translate(page, d, i, 0);
  }

  // ---------- Giving up a directory ----------

  /** Whether a frame belongs to directory d. */
  ghost predicate Belongs(f: nat, o: Owner, d: nat) {
    (o.Dir? && f == d) || (o.Table? && o.d == d) || (o.User? && o.d == d)
  }

  /** All frames of directory d change owner to o. */
  ghost function Released(owner: seq<Owner>, d: nat, o: Owner): (r: seq<Owner>)
  {
    seq(|owner|, f requires 0 <= f < |owner| => if Belongs(f, owner[f], d) then o else owner[f])
  }

  /** Once its user pages are gone, a directory and its tables can be taken out of use together. */
  lemma {:induction false} Retire(page: seq<Page>, owner: seq<Owner>, d: nat)
    requires Inv(page, owner) && IsDir(owner, d) && forall f | 0 <= f < |owner| && owner[f].User? :: owner[f].d != d
    ensures Inv(page, Released(owner, d, Held))
  {
    var owner' := Released(owner, d, Held);
    assert forall c: nat :: IsDir(owner', c) <==> IsDir(owner, c) && c != d;
    forall c: nat, i: nat | IsDir(owner', c) && Present(EntryOf(page, c, i))
      ensures OwnedAs(owner', EntryOf(page, c, i).frame, Table(c, i))
    {
      assert OwnedAs(owner, EntryOf(page, c, i).frame, Table(c, i));
    }
    forall c: nat, i: nat, j: nat | IsDir(owner', c) && i < USERDIRS && Present(Translate(page, c, i, j))
      ensures OwnedAs(owner', Translate(page, c, i, j).frame, User(c, i, j))
    {
      assert OwnedAs(owner, Translate(page, c, i, j).frame, User(c, i, j));
    }
  }
}
