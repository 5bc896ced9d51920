/**
Link counts and directories: create, link and unlink of sysfile.c over dirlookup, dirlink and ialloc of
fs.c.  A directory is its list of entries, an inum of 0 marking a free one; other inodes have none.
Each operation is one transaction.
*/
module Links {
  import opened Options
  import opened Params

  const ROOTINO: nat := 1
  const T_FREE: nat := 0

  datatype Entry = Entry(inum: nat, name: string)

  datatype Inode = Inode(typ: nat, nlink: int, ents: seq<Entry>)

  // ---------- What is counted ----------

  predicate LinkedDir(m: seq<Inode>, d: nat) { d < |m| && m[d].typ == T_DIR && m[d].nlink > 0 }

  /** Entry k of directory d names inode i, and counts: d is linked and the name is not ".". */
  predicate IsRef(m: seq<Inode>, i: nat, d: nat, k: nat) {
    LinkedDir(m, d) && k < |m[d].ents| && m[d].ents[k].inum == i && m[d].ents[k].name != "."
  }

  ghost function Refs(m: seq<Inode>, i: nat): (r: set<(nat, nat)>) {
    set d: nat, k: nat | d < |m| && k < |m[d].ents| && IsRef(m, i, d, k) :: (d, k)
  }

  ghost predicate CountOk(m: seq<Inode>, i: nat)
    requires i < |m|
  {
    m[i].typ != T_FREE ==> m[i].nlink == |Refs(m, i)|
  }

  ghost predicate Counted(m: seq<Inode>) { forall i: nat | 0 < i < |m| :: CountOk(m, i) }

  // ---------- The shape of directories ----------

  ghost predicate NamesUnique(ents: seq<Entry>) {
    forall j, k | 0 <= j < k < |ents| && ents[j].inum != 0 && ents[k].inum != 0 :: ents[j].name != ents[k].name
  }

  /** Only directories have entries; a directory starts with its two dots, and an unlinked one has nothing else. */
  ghost predicate InodeOk(m: seq<Inode>, d: nat)
    requires d < |m|
  {
    && (m[d].typ == T_FREE ==> m[d].nlink == 0)
    && (m[d].typ != T_DIR ==> m[d].ents == [])
    && (m[d].typ == T_DIR ==>
          && |m[d].ents| >= 2 && m[d].ents[0] == Entry(d, ".") && m[d].ents[1].name == ".." && m[d].ents[1].inum != 0
          && NamesUnique(m[d].ents))
    && (m[d].typ == T_DIR && m[d].nlink <= 0 ==> forall k: nat | 2 <= k < |m[d].ents| :: m[d].ents[k].inum == 0)
  }

  function Parent(m: seq<Inode>, d: nat): (p: nat) { if d < |m| && |m[d].ents| >= 2 then m[d].ents[1].inum else 0 }

  /**
  An entry past the dots of a linked directory names an inode in use, and a directory only if that
  one's ".." names d.
  */
  ghost predicate EntryOk(m: seq<Inode>, d: nat, k: nat) {
    LinkedDir(m, d) && 2 <= k < |m[d].ents| && m[d].ents[k].inum != 0 ==>
      var i := m[d].ents[k].inum;
      i < |m| && m[i].typ != T_FREE
          && (m[i].typ == T_DIR ==> Parent(m, i) == d && i != d && m[i].nlink > 0 && i != ROOTINO)
  }

  /** A directory is named by one entry only. */
  ghost predicate OneName(m: seq<Inode>, d: nat, j: nat, k: nat) {
    LinkedDir(m, d) && 2 <= j < k < |m[d].ents| && m[d].ents[j].inum == m[d].ents[k].inum
        && 0 < m[d].ents[j].inum < |m| ==>
      m[m[d].ents[j].inum].typ != T_DIR
  }

  /** A linked directory other than the root has a name in a linked parent. */
  ghost predicate Named(m: seq<Inode>, d: nat) {
    LinkedDir(m, d) && d != ROOTINO ==> LinkedDir(m, Parent(m, d)) && exists k: nat :: NamedAt(m, d, k)
  }

  predicate NamedAt(m: seq<Inode>, d: nat, k: nat) {
    var p := Parent(m, d);
    p < |m| && 2 <= k < |m[p].ents| && m[p].ents[k].inum == d
  }

  ghost predicate Shaped(m: seq<Inode>) { ShapedBut(m, 0) && Named(m, 0) }

  /** The shape, except that inode x may still lack its name. */
  ghost predicate ShapedBut(m: seq<Inode>, x: nat) {
    && |m| > ROOTINO && LinkedDir(m, ROOTINO) && Parent(m, ROOTINO) == ROOTINO
    && (forall d: nat | 0 < d < |m| :: InodeOk(m, d))
    && m[0].typ == T_FREE && m[0].ents == []
    && (forall d: nat, k: nat :: EntryOk(m, d, k))
    && (forall d: nat, j: nat, k: nat :: OneName(m, d, j, k))
    && (forall d: nat | d != x :: Named(m, d))
  }

  /** The counts, except that x has n links more than it has names. */
  ghost predicate CountedBut(m: seq<Inode>, x: nat, n: int) {
    && (forall i: nat | 0 < i < |m| && i != x :: CountOk(m, i))
    && x < |m| && m[x].typ != T_FREE && m[x].nlink == |Refs(m, x)| + n
  }

  ghost predicate Inv(m: seq<Inode>) { Shaped(m) && Counted(m) }

  // ---------- Counting ----------

  lemma {:induction false} InRefs(m: seq<Inode>, i: nat, d: nat, k: nat)
    ensures (d, k) in Refs(m, i) <==> IsRef(m, i, d, k)
  {
  }

  /** The same references, give or take the pairs in `more` and `less`. */
  lemma {:induction false} RefsChange(m: seq<Inode>, m': seq<Inode>, i: nat, more: set<(nat, nat)>,
                                      less: set<(nat, nat)>)
    requires forall d: nat, k: nat :: IsRef(m', i, d, k) <==> (IsRef(m, i, d, k) && (d, k) !in less) || (d, k) in more
    requires forall x | x in more :: !IsRef(m, i, x.0, x.1)
    requires forall x | x in less :: IsRef(m, i, x.0, x.1)
    requires more !! less
    ensures |Refs(m', i)| == |Refs(m, i)| + |more| - |less|
  {
    forall d: nat, k: nat
      ensures ((d, k) in Refs(m', i) <==> IsRef(m', i, d, k)) && ((d, k) in Refs(m, i) <==> IsRef(m, i, d, k))
    {
      InRefs(m, i, d, k);
      InRefs(m', i, d, k);
    }
    var kept := Refs(m, i) - less;
    assert Refs(m, i) == kept + less && kept !! less;
    assert Refs(m', i) == kept + more && kept !! more;
  }

  /** Nothing free is named. */
  lemma {:induction false} FreeUnnamed(m: seq<Inode>, i: nat, d: nat, k: nat)
    requires Shaped(m) && i < |m| && m[i].typ == T_FREE && i != 0
    ensures !IsRef(m, i, d, k)
  {
    if LinkedDir(m, d) && d != 0 {
      assert InodeOk(m, d) && EntryOk(m, d, k) && Named(m, d);
    }
  }

  // ---------- Adding an entry ----------

  /** dirlink's place for a new entry: the first free one, or the end. */
  function FreeSlot(ents: seq<Entry>, k: nat): (r: nat)
    requires k <= |ents|
    ensures k <= r <= |ents| && (r < |ents| ==> ents[r].inum == 0) && forall j | k <= j < r :: ents[j].inum != 0
    decreases |ents| - k
  {
    if k == |ents| || ents[k].inum == 0 then k else FreeSlot(ents, k + 1)
  }

  function Put(ents: seq<Entry>, k: nat, e: Entry): (r: seq<Entry>)
    requires k <= |ents|
    ensures |ents| <= |r| <= |ents| + 1 && k < |r| && r[k] == e
    ensures forall j | 0 <= j < |ents| && j != k :: r[j] == ents[j]
    ensures k < |ents| ==> |r| == |ents|
  {
    if k < |ents| then ents[k := e] else ents + [e]
  }

  predicate Has(ents: seq<Entry>, name: string) {
    exists k: nat | k < |ents| :: ents[k].inum != 0 && ents[k].name == name
  }

  /** The directory after a new name for inode i. */
  function WithEntry(m: seq<Inode>, dp: nat, name: string, i: nat): (r: seq<Inode>)
    requires dp < |m|
    ensures |r| == |m|
  {
    m[dp := m[dp].(ents := Put(m[dp].ents, FreeSlot(m[dp].ents, 0), Entry(i, name)))]
  }

  /** Entry e was stored at place k of a directory, or added at its end; what was there before was free. */
  ghost predicate Stored(ents: seq<Entry>, ents': seq<Entry>, k: nat, e: Entry) {
    && k <= |ents| && |ents'| == (if k == |ents| then |ents| + 1 else |ents|) && ents'[k] == e
    && (k < |ents| ==> ents[k].inum == 0) && (forall j: nat | j < k :: ents[j].inum != 0)
    && (forall j: nat | j < |ents| && j != k :: ents'[j] == ents[j])
  }

  lemma {:induction false} WithEntryMeans(m: seq<Inode>, dp: nat, name: string, i: nat)
    requires dp < |m|
    ensures var r := WithEntry(m, dp, name, i);
            && (exists k: nat :: Stored(m[dp].ents, r[dp].ents, k, Entry(i, name)))
            && r == m[dp := m[dp].(ents := r[dp].ents)]
  {
    var k := FreeSlot(m[dp].ents, 0);
    assert Stored(m[dp].ents, WithEntry(m, dp, name, i)[dp].ents, k, Entry(i, name));
  }

  /** The entry that completes a link: x gets the name it was counted for. */
  lemma {:induction false} AddEntry(m: seq<Inode>, dp: nat, name: string, x: nat)
    requires ShapedBut(m, x) && CountedBut(m, x, 1) && LinkedDir(m, dp) && !Has(m[dp].ents, name) && 0 < x && 0 < dp
    requires m[x].typ == T_DIR ==> Parent(m, x) == dp && m[x].nlink > 0 && x != ROOTINO && x != dp
    requires m[x].typ == T_DIR ==> forall d: nat, k: nat | k >= 2 :: !IsRef(m, x, d, k)
    ensures Inv(WithEntry(m, dp, name, x))
  {
    var k, m' := FreeSlot(m[dp].ents, 0), WithEntry(m, dp, name, x);
    assert InodeOk(m, dp);
    assert k >= 2;
    assert name != "." by {
      assert m[dp].ents[0].inum != 0;
    }
    AddEntryShape(m, dp, name, x, k);
    forall i: nat | 0 < i < |m'| ensures CountOk(m', i) {
      forall d: nat, j: nat ensures IsRef(m', i, d, j) <==> IsRef(m, i, d, j) || (i == x && d == dp && j == k) {
      }
      RefsChange(m, m', i, if i == x then {(dp, k)} else {}, {});
      assert i != x ==> CountOk(m, i);
    }
  }

  lemma {:induction false} AddEntryShape(m: seq<Inode>, dp: nat, name: string, x: nat, k: nat)
    requires ShapedBut(m, x) && LinkedDir(m, dp) && !Has(m[dp].ents, name) && 0 < x < |m| && 0 < dp
             && m[x].typ != T_FREE
    requires m[x].typ == T_DIR ==> Parent(m, x) == dp && m[x].nlink > 0 && x != ROOTINO && x != dp
    requires m[x].typ == T_DIR ==> forall d: nat, k: nat | k >= 2 :: !IsRef(m, x, d, k)
    requires k == FreeSlot(m[dp].ents, 0) >= 2
    ensures Shaped(WithEntry(m, dp, name, x))
  {
    hide Put, FreeSlot;
    var m' := WithEntry(m, dp, name, x);
    assert forall d: nat :: LinkedDir(m', d) <==> LinkedDir(m, d);
    assert forall d: nat :: Parent(m', d) == Parent(m, d);
    forall d: nat | 0 < d < |m'| ensures InodeOk(m', d) {
      assert InodeOk(m, d);
    }
    forall d: nat, j: nat ensures EntryOk(m', d, j) {
      assert EntryOk(m, d, j);
    }
    forall d: nat, i: nat, j: nat ensures OneName(m', d, i, j) {
      assert OneName(m, d, i, j);
      assert InodeOk(m, dp) && m[dp].ents[0].inum != 0;
      assert m[x].typ == T_DIR && d == dp && 2 <= i < |m[dp].ents| && m[dp].ents[i].inum == x && i != k ==>
               IsRef(m, x, dp, i) || m[dp].ents[i].name == ".";
      assert m[x].typ == T_DIR && d == dp && 2 <= j < |m[dp].ents| && m[dp].ents[j].inum == x && j != k ==>
               IsRef(m, x, dp, j) || m[dp].ents[j].name == ".";
    }
    forall d: nat ensures Named(m', d) {
      if LinkedDir(m', d) && d != ROOTINO {
        if d == x {
          assert NamedAt(m', x, k);
        } else {
          assert Named(m, d);
          var j: nat :| NamedAt(m, d, j);
          assert NamedAt(m', d, j);
        }
      }
    }
  }

  /** sys_link's first step: the count goes up before the name exists. */
  lemma {:induction false} Bumped(m: seq<Inode>, x: nat)
    requires Inv(m) && 0 < x < |m| && m[x].typ != T_FREE && m[x].typ != T_DIR
    ensures var m' := m[x := m[x].(nlink := m[x].nlink + 1)]; ShapedBut(m', x) && CountedBut(m', x, 1)
  {
    var m' := m[x := m[x].(nlink := m[x].nlink + 1)];
    assert InodeOk(m, x) && CountOk(m, x);
    SameDirs(m, m', x);
  }

  /** ialloc and the new inode's first link, for a file or device. */
  lemma {:induction false} NewInode(m: seq<Inode>, x: nat, typ: nat)
    requires Inv(m) && 0 < x < |m| && m[x].typ == T_FREE && typ != T_FREE && typ != T_DIR
    ensures var m' := m[x := Inode(typ, 1, [])]; ShapedBut(m', x) && CountedBut(m', x, 1)
  {
    var m' := m[x := Inode(typ, 1, [])];
    assert InodeOk(m, x);
    forall d: nat, k: nat ensures !IsRef(m, x, d, k) {
      FreeUnnamed(m, x, d, k);
    }
    NoRefs(m, x);
    SameDirs(m, m', x);
  }

  lemma {:induction false} NoRefs(m: seq<Inode>, x: nat)
    requires forall d: nat, k: nat :: !IsRef(m, x, d, k)
    ensures |Refs(m, x)| == 0
  {
    RefsChange([], m, x, {}, {});
    assert Refs([], x) == {};
  }

  /** Changing an inode that is not a directory moves no name. */
  lemma {:induction false} SameDirs(m: seq<Inode>, m': seq<Inode>, x: nat)
    requires Inv(m) && 0 < x < |m| == |m'| && m' == m[x := m'[x]]
    requires m[x].typ != T_DIR && m'[x].typ != T_DIR && m'[x].ents == [] && m[x].ents == []
    requires (m'[x].typ != T_FREE) && (m[x].typ == T_FREE ==> forall d: nat, k: nat :: !IsRef(m, x, d, k))
    ensures ShapedBut(m', x) && |Refs(m', x)| == |Refs(m, x)|
    ensures forall i: nat | 0 < i < |m| && i != x :: CountOk(m', i)
  {
    assert forall d: nat :: LinkedDir(m', d) <==> LinkedDir(m, d);
    assert forall d: nat :: Parent(m', d) == Parent(m, d);
    forall d: nat | 0 < d < |m'| ensures InodeOk(m', d) {
      assert InodeOk(m, d);
    }
    forall d: nat, j: nat ensures EntryOk(m', d, j) {
      assert EntryOk(m, d, j);
    }
    forall d: nat, i: nat, j: nat ensures OneName(m', d, i, j) {
      assert OneName(m, d, i, j);
    }
    forall d: nat | d != x ensures Named(m', d) {
      assert Named(m, d);
      if LinkedDir(m', d) && d != ROOTINO {
        var j: nat :| NamedAt(m, d, j);
        assert NamedAt(m', d, j);
      }
    }
    forall i: nat ensures |Refs(m', i)| == |Refs(m, i)| {
      forall d: nat, k: nat ensures IsRef(m', i, d, k) <==> IsRef(m, i, d, k) {
      }
      RefsChange(m, m', i, {}, {});
    }
    forall i: nat | 0 < i < |m| && i != x ensures CountOk(m', i) {
      assert CountOk(m, i);
    }
  }

  function Dots(x: nat, dp: nat): (e: seq<Entry>) { [Entry(x, "."), Entry(dp, "..")] }

  /** A new directory with its dots, and the parent's count for "..". */
  function WithDir(m: seq<Inode>, dp: nat, x: nat): (r: seq<Inode>)
    requires dp < |m| && x < |m|
    ensures |r| == |m|
  {
    m[x := Inode(T_DIR, 1, Dots(x, dp))][dp := m[dp].(nlink := m[dp].nlink + 1)]
  }

  lemma {:induction false} NewDir(m: seq<Inode>, dp: nat, x: nat)
    requires Inv(m) && 0 < x < |m| && m[x].typ == T_FREE && LinkedDir(m, dp) && 0 < dp
    ensures var m' := WithDir(m, dp, x); ShapedBut(m', x) && CountedBut(m', x, 1)
    ensures forall d: nat, k: nat | k >= 2 :: !IsRef(WithDir(m, dp, x), x, d, k)
  {
    var m' := WithDir(m, dp, x);
    assert dp != x;
    forall d: nat, k: nat ensures !IsRef(m, x, d, k) {
      FreeUnnamed(m, x, d, k);
    }
    assert forall d: nat :: LinkedDir(m', d) <==> LinkedDir(m, d) || d == x;
    NewDirShape(m, dp, x);
    forall i: nat, d: nat, k: nat ensures IsRef(m', i, d, k) <==> IsRef(m, i, d, k) || (i == dp && d == x && k == 1) {
      assert InodeOk(m, x);
    }
    NoRefs(m', x);
    forall i: nat | 0 < i < |m| && i != x ensures CountOk(m', i) {
      assert CountOk(m, i) && InodeOk(m, x);
      RefsChange(m, m', i, if i == dp then {(x, 1)} else {}, {});
    }
  }

  lemma {:induction false} NewDirShape(m: seq<Inode>, dp: nat, x: nat)
    requires Inv(m) && 0 < x < |m| && m[x].typ == T_FREE && LinkedDir(m, dp) && 0 < dp && dp != x
    requires forall d: nat, k: nat :: !IsRef(m, x, d, k)
    ensures ShapedBut(WithDir(m, dp, x), x)
  {
    var m' := WithDir(m, dp, x);
    assert InodeOk(m, x);
    forall d: nat | d < |m'| && d != x
      ensures m'[d].ents == m[d].ents && m'[d].typ == m[d].typ && Parent(m', d) == Parent(m, d)
    {
    }
    forall d: nat | 0 < d < |m'| ensures InodeOk(m', d) {
      assert InodeOk(m, d);
    }
    forall d: nat, j: nat ensures EntryOk(m', d, j) {
      assert EntryOk(m, d, j);
      assert 0 < d < |m| ==> InodeOk(m, d);
    }
    forall d: nat, i: nat, j: nat ensures OneName(m', d, i, j) {
      assert OneName(m, d, i, j) && EntryOk(m, d, i);
    }
    forall d: nat | d != x ensures Named(m', d) {
      assert Named(m, d);
      if LinkedDir(m', d) && d != ROOTINO {
        var j: nat :| NamedAt(m, d, j);
        assert Parent(m, d) != x;
        assert NamedAt(m', d, j);
      }
    }
  }

  // ---------- Removing an entry ----------

  predicate DirEmpty(m: seq<Inode>, d: nat)
    requires d < |m|
  {
    forall k: nat | 2 <= k < |m[d].ents| :: m[d].ents[k].inum == 0
  }

  /** unlink of entry k of dp. */
  function Unlinked(m: seq<Inode>, dp: nat, k: nat): (r: seq<Inode>)
    requires dp < |m| && k < |m[dp].ents| && m[dp].ents[k].inum < |m|
    ensures |r| == |m|
  {
    var i := m[dp].ents[k].inum;
    var m1 := m[dp := m[dp].(ents := m[dp].ents[k := Entry(0, "")], nlink := if m[i].typ == T_DIR then m[dp].nlink - 1
                             else m[dp].nlink)];
    m1[i := m1[i].(nlink := m1[i].nlink - 1)]
  }

  /** An empty directory that has a name has one link, and unlinking it leaves its parent linked. */
  lemma {:induction false} EmptyDirLinks(m: seq<Inode>, dp: nat, k: nat)
    requires Inv(m) && LinkedDir(m, dp) && 0 < dp && 2 <= k < |m[dp].ents| && 0 < m[dp].ents[k].inum
    ensures var i := m[dp].ents[k].inum;
            i < |m| && i != dp && m[i].typ != T_FREE && m[i].nlink >= 1 && IsRef(m, i, dp, k)
    ensures var i := m[dp].ents[k].inum;
            m[i].typ == T_DIR && DirEmpty(m, i) ==> m[i].nlink == 1 && m[dp].nlink >= 2 && IsRef(m, dp, i, 1)
  {
    var i := m[dp].ents[k].inum;
    assert InodeOk(m, dp) && EntryOk(m, dp, k) && m[dp].ents[0].inum != 0;
    assert IsRef(m, i, dp, k);
    InRefs(m, i, dp, k);
    assert CountOk(m, i) && CountOk(m, dp);
    assert Refs(m, i) != {};
    assert InodeOk(m, i);
    if m[i].typ == T_DIR && DirEmpty(m, i) {
      OnlyName(m, dp, k, i);
      assert IsRef(m, dp, i, 1);
      TwoLinks(m, dp, i);
    }
  }

  lemma {:induction false} OnlyName(m: seq<Inode>, dp: nat, k: nat, i: nat)
    requires Inv(m) && IsRef(m, i, dp, k) && 2 <= k && 0 < i < |m| && m[i].typ == T_DIR && DirEmpty(m, i)
    ensures m[i].nlink == 1
  {
    assert EntryOk(m, dp, k);
    forall d: nat, j: nat | IsRef(m, i, d, j) ensures d == dp && j == k {
      assert InodeOk(m, d) by {
        assert d != 0;
      }
      assert EntryOk(m, d, j) && Named(m, d) && OneName(m, dp, j, k) && OneName(m, dp, k, j);
    }
    forall d: nat, j: nat ensures (d, j) in Refs(m, i) <==> (d, j) == (dp, k) {
      InRefs(m, i, d, j);
    }
    assert Refs(m, i) == {(dp, k)};
    assert CountOk(m, i);
  }

  /** What keeps a linked directory linked without its children: its name, or the root's own "..". */
  lemma {:induction false} OwnLink(m: seq<Inode>, d: nat) returns (p: nat, k: nat)
    requires Inv(m) && LinkedDir(m, d) && 0 < d
    ensures IsRef(m, d, p, k) && (k == 1 ==> p == ROOTINO)
  {
    assert Named(m, d) && InodeOk(m, ROOTINO);
    p, k := ROOTINO, 1;
    if d != ROOTINO {
      k :| NamedAt(m, d, k);
      p := Parent(m, d);
      assert p != 0;
      assert InodeOk(m, p);
    }
  }

  lemma {:induction false} TwoMembers(s: set<(nat, nat)>, a: (nat, nat), b: (nat, nat))
    requires a in s && b in s && a != b
    ensures |s| >= 2
  {
    assert s == (s - {a, b}) + {a} + {b};
  }

  lemma {:induction false} TwoLinks(m: seq<Inode>, dp: nat, i: nat)
    requires Inv(m) && LinkedDir(m, dp) && 0 < dp && IsRef(m, dp, i, 1) && i != ROOTINO
    ensures m[dp].nlink >= 2
  {
    assert CountOk(m, dp);
    var p, k := OwnLink(m, dp);
    InRefs(m, dp, p, k);
    InRefs(m, dp, i, 1);
    TwoMembers(Refs(m, dp), (p, k), (i, 1));
  }

  /** unlink keeps the counts; removing a directory takes its ".." with it. */
  lemma {:induction false} UnlinkInv(m: seq<Inode>, dp: nat, k: nat)
    requires Inv(m) && LinkedDir(m, dp) && 0 < dp && 2 <= k < |m[dp].ents| && 0 < m[dp].ents[k].inum < |m|
    requires m[m[dp].ents[k].inum].typ == T_DIR ==> DirEmpty(m, m[dp].ents[k].inum)
    ensures Inv(Unlinked(m, dp, k))
  {
    var i, m' := m[dp].ents[k].inum, Unlinked(m, dp, k);
    EmptyDirLinks(m, dp, k);
    var gone := if m[i].typ == T_DIR then i else 0;
    assert forall d: nat :: LinkedDir(m', d) <==> LinkedDir(m, d) && d != gone;
    UnlinkShape(m, dp, k, i, gone);
    forall j: nat | 0 < j < |m'| ensures CountOk(m', j) {
      assert CountOk(m, j);
      assert gone != 0 ==> InodeOk(m, i) && EntryOk(m, dp, k);
      forall d: nat, l: nat
        ensures IsRef(m', j, d, l) <==>
                  IsRef(m, j, d, l) && !(j == i && d == dp && l == k) && !(j == dp && d == gone && l == 1)
      {
      }
      RefsChange(m, m', j, {}, if j == i then {(dp, k)} else if j == dp && gone != 0 then {(i, 1)} else {});
    }
  }

  lemma {:induction false} UnlinkShape(m: seq<Inode>, dp: nat, k: nat, i: nat, gone: nat)
    requires Inv(m) && LinkedDir(m, dp) && 0 < dp && 2 <= k < |m[dp].ents| && i == m[dp].ents[k].inum && 0 < i < |m|
             && i != dp
    requires m[i].typ == T_DIR ==> DirEmpty(m, i) && m[i].nlink == 1 && m[dp].nlink >= 2
    requires m[i].typ != T_FREE && m[i].nlink >= 1 && gone == if m[i].typ == T_DIR then i else 0
    ensures Shaped(Unlinked(m, dp, k))
  {
    hide Counted;
    var m' := Unlinked(m, dp, k);
    assert forall d: nat :: LinkedDir(m', d) <==> LinkedDir(m, d) && d != gone;
    assert forall d: nat :: Parent(m', d) == Parent(m, d);
    assert EntryOk(m, dp, k);
    forall d: nat | 0 < d < |m'| ensures InodeOk(m', d) {
      assert InodeOk(m, d);
    }
    forall d: nat, j: nat ensures EntryOk(m', d, j) {
      assert EntryOk(m, d, j) && OneName(m, dp, j, k) && OneName(m, dp, k, j);
    }
    forall d: nat, l: nat, j: nat ensures OneName(m', d, l, j) {
      assert OneName(m, d, l, j);
    }
    forall d: nat ensures Named(m', d) {
      UnlinkNamed(m, dp, k, gone, d);
    }
  }

  lemma {:induction false} UnlinkNamed(m: seq<Inode>, dp: nat, k: nat, gone: nat, d: nat)
    requires Shaped(m) && LinkedDir(m, dp) && 2 <= k < |m[dp].ents| && 0 < m[dp].ents[k].inum < |m|
    requires m[dp].ents[k].inum != dp && gone == if m[m[dp].ents[k].inum].typ == T_DIR then m[dp].ents[k].inum else 0
    requires gone != 0 ==> DirEmpty(m, gone)
    requires forall c: nat :: LinkedDir(Unlinked(m, dp, k), c) <==> LinkedDir(m, c) && c != gone
    ensures Named(Unlinked(m, dp, k), d)
  {
    var m' := Unlinked(m, dp, k);
    assert Named(m, d);
    if LinkedDir(m', d) && d != ROOTINO {
      var j: nat :| NamedAt(m, d, j);
      assert EntryOk(m, dp, k) && NamedAt(m', d, j);
    }
  }

  /** unlink undoes link: all counts and types are as before, and every entry but the free one that was used. */
  lemma {:induction false} LinkUnlink(m: seq<Inode>, dp: nat, name: string, x: nat)
    requires 0 < x < |m| && dp < |m| && x != dp && m[x].typ != T_DIR
    ensures var k, m1 := FreeSlot(m[dp].ents, 0), WithEntry(m[x := m[x].(nlink := m[x].nlink + 1)], dp, name, x);
            && k < |m1[dp].ents| && m1[dp].ents[k] == Entry(x, name)
            && var m2 := Unlinked(m1, dp, k);
               && m2 == m[dp := m[dp].(ents := m2[dp].ents)]
               && |m[dp].ents| <= |m2[dp].ents| <= |m[dp].ents| + 1 && m2[dp].ents[k].inum == 0
               && (k < |m[dp].ents| ==> m[dp].ents[k].inum == 0)
               && (forall j: nat | j < |m[dp].ents| && j != k :: m2[dp].ents[j] == m[dp].ents[j])
  {
    hide FreeSlot, Put;
  }

  /** iput's last step: an inode without links is freed. */
  lemma {:induction false} FreeInv(m: seq<Inode>, i: nat)
    requires Inv(m) && 0 < i < |m| && m[i].typ != T_FREE && m[i].nlink == 0
    ensures Inv(m[i := Inode(T_FREE, 0, [])])
  {
    var m' := m[i := Inode(T_FREE, 0, [])];
    assert CountOk(m, i);
    forall d: nat, k: nat ensures !IsRef(m, i, d, k) {
      InRefs(m, i, d, k);
    }
    assert forall d: nat :: LinkedDir(m', d) <==> LinkedDir(m, d);
    FreeShape(m, i);
    forall j: nat | 0 < j < |m'| ensures CountOk(m', j) {
      assert CountOk(m, j);
      forall d: nat, l: nat ensures IsRef(m', j, d, l) <==> IsRef(m, j, d, l) {
      }
      RefsChange(m, m', j, {}, {});
    }
  }

  lemma {:induction false} FreeShape(m: seq<Inode>, i: nat)
    requires Inv(m) && 0 < i < |m| && m[i].nlink == 0 && forall d: nat, k: nat :: !IsRef(m, i, d, k)
    ensures Shaped(m[i := Inode(T_FREE, 0, [])])
  {
    var m' := m[i := Inode(T_FREE, 0, [])];
    assert forall d: nat :: LinkedDir(m', d) <==> LinkedDir(m, d);
    forall d: nat | d != i ensures Parent(m', d) == Parent(m, d) {
    }
    forall d: nat | 0 < d < |m'| ensures InodeOk(m', d) {
      assert InodeOk(m, d);
    }
    forall d: nat, j: nat ensures EntryOk(m', d, j) {
      assert EntryOk(m, d, j) && !IsRef(m, i, d, j);
      assert 0 < d < |m| ==> InodeOk(m, d);
    }
    forall d: nat, l: nat, j: nat ensures OneName(m', d, l, j) {
      assert OneName(m, d, l, j);
    }
    forall d: nat ensures Named(m', d) {
      assert Named(m, d);
      if LinkedDir(m', d) && d != ROOTINO {
        var j: nat :| NamedAt(m, d, j);
        assert NamedAt(m', d, j);
      }
    }
  }

  // ---------- Parents that are no longer linked ----------

  /** A name in an unlinked directory is not counted. */
  lemma {:induction false} UnlinkedParent(m: seq<Inode>, dp: nat, name: string, x: nat)
    requires 0 < x < |m| && dp < |m| && !LinkedDir(m, dp) && CountedBut(m, x, 1) && x != dp
    ensures !Inv(WithEntry(m, dp, name, x))
  {
    var m' := WithEntry(m, dp, name, x);
    forall d: nat, k: nat ensures IsRef(m', x, d, k) <==> IsRef(m, x, d, k) {
    }
    RefsChange(m, m', x, {}, {});
    assert !CountOk(m', x);
  }

  /** A directory made in an unlinked one gives that one a link but no name. */
  lemma {:induction false} UnlinkedGrandparent(m: seq<Inode>, dp: nat, name: string, x: nat)
    requires Inv(m) && 0 < x < |m| && m[x].typ == T_FREE && 0 < dp < |m| && m[dp].typ == T_DIR && !LinkedDir(m, dp)
    requires !Has(m[dp].ents, name)
    ensures !Inv(WithEntry(WithDir(m, dp, x), dp, name, x))
  {
    var m1 := WithDir(m, dp, x);
    var m', p, k := WithEntry(m1, dp, name, x), Parent(m, dp), FreeSlot(m1[dp].ents, 0);
    assert InodeOk(m, dp) && CountOk(m, dp);
    assert m1[dp].ents == m[dp].ents && k >= 2 && Parent(m', dp) == p;
    assert m[dp].nlink == 0 && LinkedDir(m', dp) && dp != ROOTINO;
    forall j: nat ensures !NamedAt(m', dp, j) {
      assert EntryOk(m, p, j);
      assert 0 < p < |m| ==> InodeOk(m, p);
    }
    assert !Named(m', dp);
  }

  // ---------- The operations ----------

  datatype Result = New(i: nat) | Existing(i: nat) | Refused | NoInodes

  class Tree {
    var m: seq<Inode>

    constructor (n: nat)
      ensures m == Fresh(n) && Inv(m)
    {
      m := Fresh(n);
      new;
      FreshInv(n);
    }

    /** dirlookup, for a directory. */
    method DirLookup(dp: nat, name: string) returns (r: Option<nat>)
      requires dp < |m|
      ensures r.None? <==> !Has(m[dp].ents, name)
      ensures r.Some? ==> r.value < |m[dp].ents| && m[dp].ents[r.value].inum != 0 && m[dp].ents[r.value].name == name
    {
      var off := 0;
      while off < |m[dp].ents|
        invariant off <= |m[dp].ents|
                  && forall k: nat | k < off :: !(m[dp].ents[k].inum != 0 && m[dp].ents[k].name == name)
      {
        var de := m[dp].ents[off];
        if de.inum != 0 {
          if de.name == name {
            return Some(off);
          }
        }
        off := off + 1;
      }
      return None;
    }

    /** dirlink. */
    method DirLink(dp: nat, name: string, inum: nat) returns (ok: bool)
      requires dp < |m|
      modifies this
      ensures ok <==> !Has(old(m)[dp].ents, name)
      ensures m == if ok then WithEntry(old(m), dp, name, inum) else old(m)
      ensures ok ==> (exists k: nat :: Stored(old(m)[dp].ents, m[dp].ents, k, Entry(inum, name)))
                     && m == old(m)[dp := old(m)[dp].(ents := m[dp].ents)]
    {
      WithEntryMeans(m, dp, name, inum);
      var r := DirLookup(dp, name);
      if r.Some? {
        return false;
      }
      var off := 0;
      while off < |m[dp].ents|
        invariant off <= |m[dp].ents| && FreeSlot(m[dp].ents, off) == FreeSlot(m[dp].ents, 0)
      {
        if m[dp].ents[off].inum == 0 {
          break;
        }
        off := off + 1;
      }
      m := m[dp := m[dp].(ents := Put(m[dp].ents, off, Entry(inum, name)))];
      return true;
    }

    /** isdirempty. */
    method IsDirEmpty(d: nat) returns (r: bool)
      requires d < |m|
      ensures r <==> DirEmpty(m, d)
    {
      var off := 2;
      while off < |m[d].ents|
        invariant 2 <= off && forall k: nat | 2 <= k < off && k < |m[d].ents| :: m[d].ents[k].inum == 0
      {
        if m[d].ents[off].inum != 0 {
          return false;
        }
        off := off + 1;
      }
      return true;
    }

    /** ialloc's search; None is its panic. */
    method FindInode() returns (r: Option<nat>)
      ensures r.Some? ==>
                0 < r.value < |m| && m[r.value].typ == T_FREE && forall i: nat | 0 < i < r.value :: m[i].typ != T_FREE
      ensures r.None? ==> forall i: nat | 0 < i < |m| :: m[i].typ != T_FREE
    {
      var inum := 1;
      while inum < |m|
        invariant 0 < inum && forall i: nat | 0 < i < inum && i < |m| :: m[i].typ != T_FREE
      {
        if m[inum].typ == T_FREE {
          return Some(inum);
        }
        inum := inum + 1;
      }
      return None;
    }

    /** create's part for a new directory: the link for "..", and the two dots. */
    method MakeDir(dp: nat, x: nat)
      requires dp < |m| && 0 < x < |m| && dp != x
      modifies this
      ensures m == WithDir(old(m), dp, x)
    {
      m := m[x := Inode(T_DIR, 1, [])];
      m := m[dp := m[dp].(nlink := m[dp].nlink + 1)];
      var ok := DirLink(x, ".", x);
      assert m[x].ents == [Entry(x, ".")];
      ok := DirLink(x, "..", dp);
      assert m[x].ents == Dots(x, dp);
    }

    /** create in directory dp.  The invariant survives a new entry exactly when dp is linked. */
    method Create(dp: nat, name: string, typ: nat) returns (r: Result)
      requires Inv(m) && 0 < dp < |m| && m[dp].typ == T_DIR && (typ == T_DIR || typ == T_FILE || typ == T_DEV)
      modifies this
      ensures r.New? ==> (Inv(m) <==> LinkedDir(old(m), dp))
      ensures r.New? ==>
                && 0 < r.i < |old(m)| && old(m)[r.i].typ == T_FREE && !Has(old(m)[dp].ents, name)
                && m == WithEntry(if typ == T_DIR then WithDir(old(m), dp, r.i)
                                  else old(m)[r.i := Inode(typ, 1, [])], dp, name, r.i)
      ensures r.New? ==>
                && |m| == |old(m)| && dp != r.i && (forall i: nat | 0 < i < r.i :: old(m)[i].typ != T_FREE)
                && m[r.i].typ == typ && m[r.i].nlink == 1
                && m[r.i].ents == (if typ == T_DIR then [Entry(r.i, "."), Entry(dp, "..")] else [])
                && (exists k: nat :: Stored(old(m)[dp].ents, m[dp].ents, k, Entry(r.i, name)))
                && m[dp].typ == T_DIR && m[dp].nlink == old(m)[dp].nlink + (if typ == T_DIR then 1 else 0)
                && (forall i: nat | i < |m| && i != dp && i != r.i :: m[i] == old(m)[i])
      ensures !r.New? ==> m == old(m)
      ensures r.Existing? || r.Refused? <==> Has(old(m)[dp].ents, name)
      ensures r.Existing? <==> typ == T_FILE && IsFile(old(m), dp, name)
      ensures r.Existing? ==> 0 < r.i < |m| && m[r.i].typ == T_FILE
                              && exists k: nat :: k < |m[dp].ents| && m[dp].ents[k] == Entry(r.i, name)
      ensures r.NoInodes? ==> !Has(m[dp].ents, name) && forall i: nat | 0 < i < |m| :: m[i].typ != T_FREE
    {
      hide ShapedBut, Counted, CountedBut, Refs, WithEntry, Stored;
      var off := DirLookup(dp, name);
      if off.Some? {
        var i := m[dp].ents[off.value].inum;
        NameIsOne(m, dp, name, off.value);
        if typ == T_FILE && i < |m| && m[i].typ == T_FILE {
          return Existing(i);
        }
        return Refused;
      }
      var ip := FindInode();
      if ip.None? {
        return NoInodes;
      }
      var x := ip.value;
      var ok;
      if typ == T_DIR {
        if LinkedDir(m, dp) {
          NewDir(m, dp, x);
          AddsName(m, dp, name, x);
          AddEntry(WithDir(m, dp, x), dp, name, x);
        } else {
          UnlinkedGrandparent(m, dp, name, x);
        }
        MakeDir(dp, x);
      } else {
        NewInode(m, x, typ);
        m := m[x := Inode(typ, 1, [])];
        if LinkedDir(m, dp) {
          AddEntry(m, dp, name, x);
        } else {
          UnlinkedParent(m, dp, name, x);
        }
      }
      CreatedMeans(old(m), dp, name, typ, x);
      ok := DirLink(dp, name, x);
      return New(x);
    }

    /** sys_link of inode ip under a new name in directory dp, which is None when the path has no parent. */
    method Link(ip: nat, dp: Option<nat>, name: string) returns (ok: bool)
      requires Inv(m) && 0 < ip < |m| && m[ip].typ != T_FREE
      requires dp.Some? ==> 0 < dp.value < |m| && m[dp.value].typ == T_DIR
      modifies this
      ensures ok <==> old(m)[ip].typ != T_DIR && dp.Some? && !Has(old(m)[dp.value].ents, name)
      ensures !ok ==> m == old(m)
      ensures ok ==> m == WithEntry(old(m)[ip := old(m)[ip].(nlink := old(m)[ip].nlink + 1)], dp.value, name, ip)
      ensures ok ==> (Inv(m) <==> LinkedDir(old(m), dp.value))
      ensures ok ==>
                && |m| == |old(m)| && ip != dp.value && m[ip] == old(m)[ip].(nlink := old(m)[ip].nlink + 1)
                && (exists k: nat :: Stored(old(m)[dp.value].ents, m[dp.value].ents, k, Entry(ip, name)))
                && m[dp.value] == old(m)[dp.value].(ents := m[dp.value].ents)
                && (forall i: nat | i < |m| && i != ip && i != dp.value :: m[i] == old(m)[i])
    {
      hide ShapedBut, Counted, CountedBut, Refs;
      if m[ip].typ == T_DIR {
        return false;
      }
      ghost var m0 := m;
      Bumped(m, ip);
      m := m[ip := m[ip].(nlink := m[ip].nlink + 1)];
      if dp.Some? {
        ghost var m1 := m;
        if !Has(m[dp.value].ents, name) {
          if LinkedDir(m, dp.value) {
            AddEntry(m, dp.value, name, ip);
          } else {
            UnlinkedParent(m, dp.value, name, ip);
          }
        }
        ok := DirLink(dp.value, name, ip);
        if ok {
          return true;
        }
      }
      m := m[ip := m[ip].(nlink := m[ip].nlink - 1)];
      assert m == m0;
      return false;
    }

    /** sys_unlink of a name in directory dp. */
    method Unlink(dp: nat, name: string) returns (ok: bool)
      requires Inv(m) && 0 < dp < |m| && m[dp].typ == T_DIR
      modifies this
      ensures Inv(m) && (!ok ==> m == old(m))
      ensures ok ==>
                exists k: nat ::
                      k < |old(m)[dp].ents| && old(m)[dp].ents[k].name == name && 0 < old(m)[dp].ents[k].inum < |old(m)|
                                      && m == Unlinked(old(m), dp, k)
      ensures ok <==> name != "." && name != ".." && Has(old(m)[dp].ents, name) && CanUnlink(old(m), dp, name)
      ensures ok ==> |m| == |old(m)| && exists k: nat, i: nat ::
                && k < |old(m)[dp].ents| && old(m)[dp].ents[k] == Entry(i, name) && 0 < i < |m| && i != dp
                && m[i] == old(m)[i].(nlink := old(m)[i].nlink - 1)
                && m[dp] == old(m)[dp].(ents := old(m)[dp].ents[k := Entry(0, "")],
                                        nlink := old(m)[dp].nlink - (if old(m)[i].typ == T_DIR then 1 else 0))
                && (forall j: nat | j < |m| && j != i && j != dp :: m[j] == old(m)[j])
    {
      if name == "." || name == ".." {
        return false;
      }
      var off := DirLookup(dp, name);
      if off.None? {
        return false;
      }
      var k := off.value;
      FoundEntry(m, dp, k);
      var i := m[dp].ents[k].inum;
      EmptyDirLinks(m, dp, k);
      if m[i].typ == T_DIR {
        var empty := IsDirEmpty(i);
        if !empty {
          return false;
        }
      }
      UnlinkInv(m, dp, k);
      assert m[i].nlink >= 1;
      ghost var m0 := m;
      m := m[dp := m[dp].(ents := m[dp].ents[k := Entry(0, "")])];
      if m[i].typ == T_DIR {
        m := m[dp := m[dp].(nlink := m[dp].nlink - 1)];
      }
      m := m[i := m[i].(nlink := m[i].nlink - 1)];
      assert m == Unlinked(m0, dp, k);
      return true;
    }

    /** iput's freeing of an inode that lost its last link and reference. */
    method Free(i: nat)
      requires Inv(m) && 0 < i < |m| && m[i].typ != T_FREE && m[i].nlink == 0
      modifies this
      ensures Inv(m) && m == old(m)[i := Inode(T_FREE, 0, [])]
    {
      FreeInv(m, i);
      m := m[i := Inode(T_FREE, 0, [])];
    }
  }

  lemma {:induction false} CreatedMeans(m0: seq<Inode>, dp: nat, name: string, typ: nat, x: nat)
    requires dp < |m0| && x < |m0| && dp != x
    ensures var m1 := if typ == T_DIR then WithDir(m0, dp, x) else m0[x := Inode(typ, 1, [])];
            var m := WithEntry(m1, dp, name, x);
            && m[x].typ == typ && m[x].nlink == 1
            && m[x].ents == (if typ == T_DIR then [Entry(x, "."), Entry(dp, "..")] else [])
            && (exists k: nat :: Stored(m0[dp].ents, m[dp].ents, k, Entry(x, name)))
            && m[dp].typ == m0[dp].typ && m[dp].nlink == m0[dp].nlink + (if typ == T_DIR then 1 else 0)
            && (forall i: nat | i < |m| && i != dp && i != x :: m[i] == m0[i])
  {
    hide WithEntry, Stored;
    var m1 := if typ == T_DIR then WithDir(m0, dp, x) else m0[x := Inode(typ, 1, [])];
    WithEntryMeans(m1, dp, name, x);
  }

  /** The name stands for a plain file. */
  ghost predicate IsFile(m: seq<Inode>, dp: nat, name: string)
    requires dp < |m|
  {
    exists k: nat :: k < |m[dp].ents| && m[dp].ents[k].name == name && 0 < m[dp].ents[k].inum < |m|
                     && m[m[dp].ents[k].inum].typ == T_FILE
  }

  lemma {:induction false} NameIsOne(m: seq<Inode>, dp: nat, name: string, off: nat)
    requires Inv(m) && 0 < dp < |m| && m[dp].typ == T_DIR
    requires off < |m[dp].ents| && m[dp].ents[off].inum != 0 && m[dp].ents[off].name == name
    ensures var i := m[dp].ents[off].inum; IsFile(m, dp, name) <==> i < |m| && m[i].typ == T_FILE
  {
    assert InodeOk(m, dp);
  }

  /** Whether what a name stands for may be unlinked: anything but a directory with entries. */
  ghost predicate CanUnlink(m: seq<Inode>, dp: nat, name: string)
    requires dp < |m|
  {
    forall k: nat | k < |m[dp].ents| && m[dp].ents[k].name == name && 0 < m[dp].ents[k].inum < |m| ::
      m[m[dp].ents[k].inum].typ == T_DIR ==> DirEmpty(m, m[dp].ents[k].inum)
  }

  lemma {:induction false} AddsName(m: seq<Inode>, dp: nat, name: string, x: nat)
    requires Inv(m) && 0 < x < |m| && m[x].typ == T_FREE && LinkedDir(m, dp) && 0 < dp && !Has(m[dp].ents, name)
    ensures var m1 := WithDir(m, dp, x);
            LinkedDir(m1, dp) && !Has(m1[dp].ents, name) && m1[x].typ == T_DIR && Parent(m1, x) == dp && m1[x].nlink > 0
                && x != ROOTINO && x != dp
  {
  }

  /** A name other than the dots is past them, in a directory that is linked. */
  lemma {:induction false} FoundEntry(m: seq<Inode>, dp: nat, k: nat)
    requires Inv(m) && 0 < dp < |m| && m[dp].typ == T_DIR && k < |m[dp].ents| && m[dp].ents[k].inum != 0
    requires m[dp].ents[k].name != "." && m[dp].ents[k].name != ".."
    ensures 2 <= k && LinkedDir(m, dp) && 0 < m[dp].ents[k].inum < |m|
    ensures forall j: nat | j < |m[dp].ents| && m[dp].ents[j].inum != 0 && m[dp].ents[j].name == m[dp].ents[k].name ::
              j == k
  {
    assert InodeOk(m, dp) && EntryOk(m, dp, k);
  }

  /** An empty file system: the root directory, its own parent. */
  function Fresh(n: nat): (m: seq<Inode>) {
    [Inode(T_FREE, 0, []), Inode(T_DIR, 1, Dots(ROOTINO, ROOTINO))] + seq(n, _ => Inode(T_FREE, 0, []))
  }

  lemma {:induction false} FreshInv(n: nat)
    ensures Inv(Fresh(n))
  {
    var m := Fresh(n);
    assert m[1] == Inode(T_DIR, 1, Dots(ROOTINO, ROOTINO));
    forall i: nat | i < |m| && i != 1 ensures m[i] == Inode(T_FREE, 0, []) {
    }
    forall d: nat, k: nat ensures (d, k) in Refs(m, 1) <==> (d, k) == (1, 1) {
      InRefs(m, 1, d, k);
    }
    assert Refs(m, 1) == {(1, 1)};
  }

  /** A name created in a directory that was unlinked while open: the new file has a link and no counted name. */
  method Orphan() returns (t: Tree)
    ensures fresh(t) && !Inv(t.m)
  {
    t := new Tree(2);
    assert t.m[2].typ == t.m[3].typ == T_FREE && t.m[ROOTINO].ents == Dots(ROOTINO, ROOTINO);
    var d := t.Create(ROOTINO, "a", T_DIR);
    assert d.New?;
    ghost var m1 := t.m;
    assert m1[ROOTINO].ents[2] == Entry(d.i, "a") && m1[d.i].ents == Dots(d.i, ROOTINO);
    var gone := t.Unlink(ROOTINO, "a");
    assert CanUnlink(m1, ROOTINO, "a");
    assert t.m[d.i].typ == T_DIR && t.m[d.i].ents == Dots(d.i, ROOTINO) && t.m[d.i].nlink == 0;
    assert t.m[5 - d.i].typ == T_FREE;
    var f := t.Create(d.i, "b", T_FILE);
  }
}
