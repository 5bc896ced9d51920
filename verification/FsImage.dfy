/**
The file system of fs.c as data: blocks, inodes with direct and indirect block numbers, the free
bit map, and the two things the code keeps about them - who owns each block, and which bytes each
file holds.
*/
module FsImage {
  import opened Blocks
  import opened Params

  const NDIRECT := 12
  const NINDIRECT := 128
  const MAXFILE := 140
  const BPB := 4096
  const IPB := 8

  type Addrs = s: seq<Word32> | |s| == 13 witness seq(13, _ => 0)

  /** struct dinode, whose major, minor and nlink the file layer only carries along. */
  datatype Inode = Inode(typ: Half, size: nat, addrs: Addrs, major: Half, minor: Half, nlink: Half)

  /** The parts of struct superblock the file layer uses; blocks below datastart are metadata. */
  datatype Superblock = Superblock(size: nat, ninodes: nat, inodestart: nat, bmapstart: nat, datastart: nat)

  predicate ValidSb(sb: Superblock) {
    && sb.datastart <= sb.size < 0x1_0000_0000
    && sb.bmapstart + (sb.size + BPB - 1) / BPB <= sb.datastart
    && sb.inodestart + sb.ninodes / IPB < sb.bmapstart
  }

  /** BBLOCK and IBLOCK. */
  function BBlock(sb: Superblock, b: nat): (n: nat) { b / BPB + sb.bmapstart }
  function IBlock(sb: Superblock, i: nat): (n: nat) { i / IPB + sb.inodestart }

  predicate Used(sb: Superblock, blk: seq<Block>, b: nat)
    requires BBlock(sb, b) < |blk|
  {
    Bit(blk[BBlock(sb, b)], b % BPB)
  }

  // ---------- Slots: the places that hold block numbers ----------

  datatype Slot = Direct(i: nat, k: nat) | Indirect(i: nat) | Entry(i: nat, j: nat)

  datatype Image = Image(blk: seq<Block>, ino: seq<Inode>)

  predicate ValidSlot(m: Image, s: Slot) {
    && s.i < |m.ino|
    && match s
       case Direct(_, k) => k < NDIRECT
       case Indirect(_) => true
       case Entry(_, j) => j < NINDIRECT
  }

  /** The block number in a slot, 0 when empty; an indirect entry is empty without an indirect block. */
  function At(m: Image, s: Slot): (b: nat)
    requires ValidSlot(m, s)
  {
    match s
    case Direct(i, k) => m.ino[i].addrs[k]
    case Indirect(i) => m.ino[i].addrs[NDIRECT]
    case Entry(i, j) =>
      var a := m.ino[i].addrs[NDIRECT];
      if a == 0 || a >= |m.blk| then 0 else Word(m.blk[a], j)
  }

  // ---------- Ownership ----------

  /** Held: allocated by balloc for a caller that has not stored the number yet. */
  datatype Owner = Free | Meta | Held | OwnedBy(slot: Slot)

  /** Every number stored in a slot (outside the exempt set) is that of a block owned by the slot. */
  ghost predicate SlotsOwned(m: Image, owner: seq<Owner>, exempt: set<Slot>) {
    forall s | ValidSlot(m, s) && s !in exempt && At(m, s) != 0 ::
      At(m, s) < |owner| && owner[At(m, s)] == OwnedBy(s)
  }

  /** Every owned block is stored in the slot that owns it. */
  ghost predicate OwnersReal(m: Image, owner: seq<Owner>) {
    forall b | 0 <= b < |owner| && owner[b].OwnedBy? ::
      ValidSlot(m, owner[b].slot) && At(m, owner[b].slot) == b
  }

  /** A block is marked in the free map exactly when it is not free. */
  ghost predicate BitsMatch(sb: Superblock, blk: seq<Block>, owner: seq<Owner>)
    requires ValidSb(sb) && |blk| == |owner| == sb.size
  {
    forall b | 0 <= b < sb.size :: BitMatches(sb, blk, owner, b)
  }

  ghost predicate BitMatches(sb: Superblock, blk: seq<Block>, owner: seq<Owner>, b: nat)
    requires ValidSb(sb) && |blk| == |owner| == sb.size && b < sb.size
  {
    Used(sb, blk, b) <==> owner[b] != Free
  }

  ghost predicate MetaMatches(sb: Superblock, owner: seq<Owner>) {
    forall b | 0 <= b < |owner| :: owner[b] == Meta <==> b < sb.datastart
  }

  ghost predicate Owned(sb: Superblock, m: Image, owner: seq<Owner>, exempt: set<Slot>) {
    && ValidSb(sb) && |m.blk| == |owner| == sb.size && |m.ino| == sb.ninodes
    && SlotsOwned(m, owner, exempt) && OwnersReal(m, owner)
    && BitsMatch(sb, m.blk, owner) && MetaMatches(sb, owner)
    && (forall s | s in exempt :: s.Entry?)
    && (forall b | 0 <= b < |owner| && owner[b].OwnedBy? :: owner[b].slot !in exempt)
  }

  /** How many blocks are free. */
  ghost function FreeCount(owner: seq<Owner>): (n: nat) { |set b | 0 <= b < |owner| && owner[b] == Free| }

  lemma {:induction false} CountFree(owner: seq<Owner>)
    ensures FreeCount(owner) == 0 <==> forall b | 0 <= b < |owner| :: owner[b] != Free
  {
    var free := set b | 0 <= b < |owner| && owner[b] == Free;
    if forall b | 0 <= b < |owner| :: owner[b] != Free {
      assert free == {};
    } else {
      var b :| 0 <= b < |owner| && owner[b] == Free;
      assert b in free;
    }
  }

  lemma {:induction false} TakeFree(owner: seq<Owner>, b: nat, x: Owner)
    requires b < |owner| && owner[b] == Free && x != Free
    ensures FreeCount(owner) > 0 && FreeCount(owner[b := x]) == FreeCount(owner) - 1
  {
    var owner' := owner[b := x];
    var free, free' := set c | 0 <= c < |owner| && owner[c] == Free, set c | 0 <= c < |owner'| && owner'[c] == Free;
    assert b in free && free' == free - {b};
  }

  /** The ownership property in the terms of the source, without the ghost owner map. */
  ghost predicate ExactlyOneReference(sb: Superblock, m: Image)
    requires ValidSb(sb) && |m.blk| == sb.size
  {
    && (forall b | 0 <= b < sb.size ::
          Used(sb, m.blk, b) <==> b < sb.datastart || exists s :: ValidSlot(m, s) && At(m, s) == b)
    && (forall s | ValidSlot(m, s) && At(m, s) != 0 :: sb.datastart <= At(m, s) < sb.size)
    && (forall s, t | ValidSlot(m, s) && ValidSlot(m, t) && At(m, s) != 0 && At(m, s) == At(m, t) :: s == t)
  }

  lemma {:induction false} OwnedMeansOneReference(sb: Superblock, m: Image, owner: seq<Owner>)
    requires Owned(sb, m, owner, {}) && 0 < sb.datastart
    requires forall b | 0 <= b < |owner| :: owner[b] != Held
    ensures ExactlyOneReference(sb, m)
  {
    forall b | 0 <= b < sb.size
      ensures Used(sb, m.blk, b) <==> b < sb.datastart || exists s :: ValidSlot(m, s) && At(m, s) == b
    {
      assert BitMatches(sb, m.blk, owner, b);
      if owner[b].OwnedBy? {
        assert ValidSlot(m, owner[b].slot) && At(m, owner[b].slot) == b;
      }
    }
    forall s | ValidSlot(m, s) && At(m, s) != 0 ensures sb.datastart <= At(m, s) < sb.size {
      assert owner[At(m, s)] == OwnedBy(s);
    }
  }

  ghost function SlotHolding(m: Image, b: nat): (s: Slot)
    requires exists s :: ValidSlot(m, s) && At(m, s) == b
    ensures ValidSlot(m, s) && At(m, s) == b
  {
    var s :| ValidSlot(m, s) && At(m, s) == b;
    s
  }

  /** The owners of a well-formed image: metadata, the slot that holds the block, or nobody. */
  ghost function Owners(sb: Superblock, m: Image): (owner: seq<Owner>)
    ensures |owner| == sb.size
  {
    seq(sb.size, b requires 0 <= b < sb.size =>
      if b < sb.datastart then Meta
      else if exists s :: ValidSlot(m, s) && At(m, s) == b then OwnedBy(SlotHolding(m, b))
      else Free)
  }

  /** The converse: an image in which every used block has one reference can be mounted. */
  lemma {:induction false} OneReferenceMeansOwned(sb: Superblock, m: Image)
    requires ValidSb(sb) && |m.blk| == sb.size && |m.ino| == sb.ninodes && 0 < sb.datastart
    requires ExactlyOneReference(sb, m)
    ensures Owned(sb, m, Owners(sb, m), {})
    ensures forall b | 0 <= b < sb.size :: Owners(sb, m)[b] != Held
  {
    var owner := Owners(sb, m);
    forall s | ValidSlot(m, s) && At(m, s) != 0 ensures At(m, s) < |owner| && owner[At(m, s)] == OwnedBy(s) {
      assert SlotHolding(m, At(m, s)) == s;
    }
    forall b | 0 <= b < sb.size ensures BitMatches(sb, m.blk, owner, b) {
      assert Used(sb, m.blk, b) <==> b < sb.datastart || exists s :: ValidSlot(m, s) && At(m, s) == b;
    }
  }

  /** An image without files is well formed when its free map marks the metadata and nothing else. */
  lemma {:induction false} EmptyImage(sb: Superblock, m: Image)
    requires ValidSb(sb) && |m.blk| == sb.size && 0 < sb.datastart
    requires forall s | ValidSlot(m, s) :: At(m, s) == 0
    requires forall b: nat | b < sb.size :: BBlock(sb, b) < |m.blk| && (Used(sb, m.blk, b) <==> b < sb.datastart)
    ensures ExactlyOneReference(sb, m)
  {
    forall b | 0 <= b < sb.size
      ensures Used(sb, m.blk, b) <==> b < sb.datastart || exists s :: ValidSlot(m, s) && At(m, s) == b
    {
      assert forall s | ValidSlot(m, s) && At(m, s) == b :: b == 0;
    }
  }

  // ---------- File contents ----------

  /** The slot of block bn of file i. */
  function DataSlot(i: nat, bn: nat): (s: Slot) {
    if bn < NDIRECT then Direct(i, bn) else Entry(i, bn - NDIRECT)
  }

  /** A byte of a file; unallocated blocks read as zero. */
  function ByteAt(m: Image, i: nat, off: nat): (x: Byte)
    requires i < |m.ino| && off < MAXFILE * BSIZE
  {
    var a := At(m, DataSlot(i, off / BSIZE));
    if a == 0 || a >= |m.blk| then 0 else m.blk[a].at[off % BSIZE]
  }

  function Content(m: Image, i: nat): (c: seq<Byte>)
    requires i < |m.ino| && m.ino[i].size <= MAXFILE * BSIZE
    ensures |c| == m.ino[i].size
  {
    seq(m.ino[i].size, off requires 0 <= off < m.ino[i].size => ByteAt(m, i, off))
  }

  // ---------- The layout of a file ----------

  /** The block numbers of file i as they are stored: the direct ones, then the words of the indirect table. */
  function BlockList(m: Image, i: nat): (bs: seq<nat>)
    requires i < |m.ino|
    ensures |bs| == MAXFILE
  {
    var addrs, a := m.ino[i].addrs, m.ino[i].addrs[12];
    addrs[..12] + if 0 < a < |m.blk| then seq(128, j requires 0 <= j < 128 => Word(m.blk[a], j)) else seq(128, _ => 0)
  }

  /** The blocks of a list one after the other; number 0 stands for a block of zeros. */
  function Concat(blk: seq<Block>, bs: seq<nat>): (c: seq<Byte>)
    ensures |c| == BSIZE * |bs|
  {
    if bs == [] then []
    else (if 0 < bs[0] < |blk| then blk[bs[0]].at else ZeroBlock().at) + Concat(blk, bs[1..])
  }

  lemma {:induction false} ConcatAt(blk: seq<Block>, bs: seq<nat>, x: nat)
    requires x < BSIZE * |bs|
    ensures x / BSIZE < |bs|
    ensures var a := bs[x / BSIZE]; Concat(blk, bs)[x] == if 0 < a < |blk| then blk[a].at[x % BSIZE] else 0
  {
    if x >= BSIZE {
      ConcatAt(blk, bs[1..], x - BSIZE);
      assert (x - BSIZE) / BSIZE == x / BSIZE - 1 && (x - BSIZE) % BSIZE == x % BSIZE;
    }
  }

  /** The contents of a file are its blocks in the order in which their numbers are stored, cut off at its size. */
  lemma {:induction false} ContentLayout(m: Image, i: nat)
    requires i < |m.ino| && m.ino[i].size <= MAXFILE * BSIZE
    ensures Content(m, i) == Concat(m.blk, BlockList(m, i))[..m.ino[i].size]
  {
    hide Word, Concat;
    var bs := BlockList(m, i);
    forall x: nat | x < m.ino[i].size ensures Content(m, i)[x] == Concat(m.blk, bs)[x] {
      ConcatAt(m.blk, bs, x);
    }
  }

  /** m' differs from m only in blocks of `changed`, and in the inode of file f. */
  ghost predicate OnlyBlocks(blk: seq<Block>, blk': seq<Block>, changed: set<nat>) {
    |blk'| == |blk| && forall b | 0 <= b < |blk| && b !in changed :: blk'[b] == blk[b]
  }

  /** No block of the set holds an indirect table. */
  ghost predicate NoTables(owner: seq<Owner>, changed: set<nat>) {
    forall b | b in changed && b < |owner| :: !(owner[b].OwnedBy? && owner[b].slot.Indirect?)
  }

  /** Changing blocks that are not indirect tables moves no slot. */
  lemma {:induction false} SlotUnmoved(m: Image, m': Image, owner: seq<Owner>, exempt: set<Slot>, changed: set<nat>,
                                       s: Slot)
    requires SlotsOwned(m, owner, exempt) && (forall s | s in exempt :: s.Entry?) && |owner| == |m.blk|
    requires OnlyBlocks(m.blk, m'.blk, changed) && NoTables(owner, changed) && m'.ino == m.ino
    requires ValidSlot(m, s)
    ensures ValidSlot(m', s) && At(m', s) == At(m, s)
  {
    if s.Entry? {
      var t := Indirect(s.i);
      assert ValidSlot(m, t) && At(m, t) == m.ino[s.i].addrs[NDIRECT];
    }
  }

  /** Every byte of every file is the same in both images. */
  ghost predicate SameBytes(m: Image, m': Image) {
    |m'.ino| == |m.ino| &&
    forall i, off | 0 <= i < |m.ino| && 0 <= off < MAXFILE * BSIZE :: ByteAt(m', i, off) == ByteAt(m, i, off)
  }

  // ---------- Allocating a block ----------

  /** balloc's effect: the bit is set and the block zeroed. */
  function Allocated(sb: Superblock, m: Image, b: nat): (m': Image)
    requires BBlock(sb, b) < |m.blk| && b < |m.blk|
  {
    var bitmap := SetBit(m.blk[BBlock(sb, b)], b % BPB, true);
    Image(m.blk[BBlock(sb, b) := bitmap][b := ZeroBlock()], m.ino)
  }

  lemma {:induction false} BitmapIsMeta(sb: Superblock, b: nat)
    requires ValidSb(sb) && b < sb.size
    ensures sb.bmapstart <= BBlock(sb, b) < sb.datastart
  {
  }

  /** The free map on disk: bit b is bit b % 8 of byte b % 4096 / 8 of block bmapstart + b / 4096. */
  lemma {:induction false} FreeMapLayout(sb: Superblock, blk: seq<Block>, b: nat)
    requires ValidSb(sb) && |blk| == sb.size && b < sb.size
    ensures var n, k := sb.bmapstart + b / 4096, b % 4096;
            && n == BBlock(sb, b) < sb.datastart
            && (!Used(sb, blk, b) ==>
                  SetBit(blk[n], b % BPB, true).at[k / 8] as int == blk[n].at[k / 8] as int + Pow2(k % 8))
            && (Used(sb, blk, b) ==>
                  SetBit(blk[n], b % BPB, false).at[k / 8] as int == blk[n].at[k / 8] as int - Pow2(k % 8))
            && (forall v: bool, x: nat | x < BSIZE && x != k / 8 :: SetBit(blk[n], b % BPB, v).at[x] == blk[n].at[x])
  {
    BitmapIsMeta(sb, b);
    BitLayout(blk[BBlock(sb, b)], b % BPB);
  }

  /** Setting or clearing bit b of the free map changes no other bit. */
  lemma {:induction false} OtherBits(sb: Superblock, blk: seq<Block>, b: nat, v: bool, c: nat)
    requires ValidSb(sb) && |blk| == sb.size && b < sb.size && c < sb.size
    ensures BBlock(sb, b) < |blk| && BBlock(sb, c) < |blk|
    ensures var blk' := blk[BBlock(sb, b) := SetBit(blk[BBlock(sb, b)], b % BPB, v)];
            Used(sb, blk', c) == if c == b then v else Used(sb, blk, c)
  {
    BitmapIsMeta(sb, b);
    BitmapIsMeta(sb, c);
    if BBlock(sb, c) == BBlock(sb, b) && c != b {
      assert c % BPB != b % BPB;
    }
  }

  lemma {:induction false} AllocatedKeepsBits(sb: Superblock, m: Image, owner: seq<Owner>, b: nat)
    requires ValidSb(sb) && |m.blk| == |owner| == sb.size && b < sb.size && sb.datastart <= b
    requires BitsMatch(sb, m.blk, owner)
    ensures BBlock(sb, b) < |m.blk| && BitsMatch(sb, Allocated(sb, m, b).blk, owner[b := Held])
  {
    BitmapIsMeta(sb, b);
    var m', owner' := Allocated(sb, m, b), owner[b := Held];
    forall c | 0 <= c < sb.size ensures BitMatches(sb, m'.blk, owner', c) {
      BitmapIsMeta(sb, c);
      OtherBits(sb, m.blk, b, true, c);
      assert BitMatches(sb, m.blk, owner, c);
    }
  }

  lemma {:induction false} AllocatedSlots(sb: Superblock, m: Image, owner: seq<Owner>, exempt: set<Slot>, b: nat,
                                          s: Slot)
    requires Owned(sb, m, owner, exempt) && b < sb.size && owner[b] == Free && ValidSlot(m, s)
    ensures BBlock(sb, b) < |m.blk|
    ensures ValidSlot(Allocated(sb, m, b), s) && At(Allocated(sb, m, b), s) == At(m, s)
  {
    BitmapIsMeta(sb, b);
    SlotUnmoved(m, Allocated(sb, m, b), owner, exempt, {BBlock(sb, b), b}, s);
  }

  lemma {:induction false} AllocatedOwned(sb: Superblock, m: Image, owner: seq<Owner>, exempt: set<Slot>, b: nat)
    requires Owned(sb, m, owner, exempt) && b < sb.size && owner[b] == Free
    ensures BBlock(sb, b) < |m.blk| && Owned(sb, Allocated(sb, m, b), owner[b := Held], exempt)
  {
    BitmapIsMeta(sb, b);
    var m', owner' := Allocated(sb, m, b), owner[b := Held];
    AllocatedKeepsBits(sb, m, owner, b);
    forall s | ValidSlot(m', s) ensures ValidSlot(m, s) && At(m', s) == At(m, s) {
      AllocatedSlots(sb, m, owner, exempt, b, s);
    }
    forall c | 0 <= c < |owner| && owner'[c].OwnedBy?
      ensures ValidSlot(m', owner'[c].slot) && At(m', owner'[c].slot) == c
    {
      assert owner[c].OwnedBy?;
      AllocatedSlots(sb, m, owner, exempt, b, owner[c].slot);
    }
  }

  lemma {:induction false} AllocatedBytes(sb: Superblock, m: Image, owner: seq<Owner>, b: nat)
    requires Owned(sb, m, owner, {}) && b < sb.size && owner[b] == Free
    ensures BBlock(sb, b) < |m.blk| && SameBytes(m, Allocated(sb, m, b))
  {
    BitmapIsMeta(sb, b);
    var m' := Allocated(sb, m, b);
    forall i, off | 0 <= i < |m.ino| && 0 <= off < MAXFILE * BSIZE ensures ByteAt(m', i, off) == ByteAt(m, i, off) {
      var s := DataSlot(i, off / BSIZE);
      AllocatedSlots(sb, m, owner, {}, b, s);
      assert At(m, s) != 0 ==> owner[At(m, s)] == OwnedBy(s);
    }
  }

  // ---------- Storing a block number in a slot ----------

  function Store(m: Image, s: Slot, b: Word32): (m': Image)
    requires ValidSlot(m, s) && (s.Entry? ==> 0 < m.ino[s.i].addrs[NDIRECT] < |m.blk|)
  {
    match s
    case Direct(i, k) => m.(ino := m.ino[i := m.ino[i].(addrs := m.ino[i].addrs[k := b])])
    case Indirect(i) => m.(ino := m.ino[i := m.ino[i].(addrs := m.ino[i].addrs[NDIRECT := b])])
    case Entry(i, j) =>
      var a := m.ino[i].addrs[NDIRECT];
      m.(blk := m.blk[a := SetWord(m.blk[a], j, b)])
  }

  /** Storing into an empty slot the number of a zeroed block changes that slot and no other. */
  lemma {:induction false} StoreSlots(sb: Superblock, m: Image, owner: seq<Owner>, s: Slot, b: nat, t: Slot)
    requires Owned(sb, m, owner, {}) && b < sb.size && owner[b] == Held && m.blk[b] == ZeroBlock()
    requires ValidSlot(m, s) && At(m, s) == 0 && (s.Entry? ==> At(m, Indirect(s.i)) != 0) && ValidSlot(m, t)
    ensures s.Entry? ==> 0 < m.ino[s.i].addrs[NDIRECT] < |m.blk|
    ensures ValidSlot(Store(m, s, b), t) && At(Store(m, s, b), t) == if t == s then b else At(m, t)
  {
    if s.Entry? {
      var a := m.ino[s.i].addrs[NDIRECT];
      assert At(m, Indirect(s.i)) == a && owner[a] == OwnedBy(Indirect(s.i));
      if t.Entry? && t.i != s.i {
        assert At(m, Indirect(t.i)) != 0 ==> owner[At(m, Indirect(t.i))] == OwnedBy(Indirect(t.i));
      }
    } else if s.Indirect? && t.Entry? && t.i == s.i {
      ZeroBlockWords(t.j);
    }
  }

  lemma {:induction false} StoreOwned(sb: Superblock, m: Image, owner: seq<Owner>, s: Slot, b: nat)
    requires Owned(sb, m, owner, {}) && b < sb.size && owner[b] == Held && m.blk[b] == ZeroBlock() && b != 0
    requires ValidSlot(m, s) && At(m, s) == 0 && (s.Entry? ==> At(m, Indirect(s.i)) != 0)
    ensures s.Entry? ==> 0 < m.ino[s.i].addrs[NDIRECT] < |m.blk|
    ensures Owned(sb, Store(m, s, b), owner[b := OwnedBy(s)], {})
  {
    StoreSlots(sb, m, owner, s, b, s);
    var m', owner' := Store(m, s, b), owner[b := OwnedBy(s)];
    forall t | ValidSlot(m', t) ensures ValidSlot(m, t) && At(m', t) == if t == s then b else At(m, t) {
      assert ValidSlot(m, t);
      StoreSlots(sb, m, owner, s, b, t);
    }
    forall c | 0 <= c < |owner| && owner'[c].OwnedBy?
      ensures ValidSlot(m', owner'[c].slot) && At(m', owner'[c].slot) == c
    {
      if c != b {
        StoreSlots(sb, m, owner, s, b, owner[c].slot);
      }
    }
    forall c | 0 <= c < sb.size ensures BitMatches(sb, m'.blk, owner', c) {
      assert BitMatches(sb, m.blk, owner, c);
      BitmapIsMeta(sb, c);
      if s.Entry? {
        assert owner[At(m, Indirect(s.i))] == OwnedBy(Indirect(s.i));
      }
    }
  }

  lemma {:induction false} StoreBytes(sb: Superblock, m: Image, owner: seq<Owner>, s: Slot, b: nat)
    requires Owned(sb, m, owner, {}) && b < sb.size && owner[b] == Held && m.blk[b] == ZeroBlock() && b != 0
    requires ValidSlot(m, s) && At(m, s) == 0 && (s.Entry? ==> At(m, Indirect(s.i)) != 0)
    ensures s.Entry? ==> 0 < m.ino[s.i].addrs[NDIRECT] < |m.blk|
    ensures SameBytes(m, Store(m, s, b))
  {
    StoreSlots(sb, m, owner, s, b, s);
    var m' := Store(m, s, b);
    forall i, off | 0 <= i < |m.ino| && 0 <= off < MAXFILE * BSIZE ensures ByteAt(m', i, off) == ByteAt(m, i, off) {
      var t := DataSlot(i, off / BSIZE);
      StoreSlots(sb, m, owner, s, b, t);
      if t != s && At(m, t) != 0 && s.Entry? {
        assert owner[At(m, t)] == OwnedBy(t) && owner[At(m, Indirect(s.i))] == OwnedBy(Indirect(s.i));
      }
    }
  }

  /** m' has block b in slot s and every other slot as in m; sizes and types are kept. */
  ghost predicate SlotFilled(m: Image, m': Image, s: Slot, b: nat) {
    && ValidSlot(m, s) && |m'.ino| == |m.ino|
    && (forall t | ValidSlot(m, t) :: ValidSlot(m', t) && At(m', t) == if t == s then b else At(m, t))
    && (forall i | 0 <= i < |m.ino| :: m'.ino[i] == m.ino[i].(addrs := m'.ino[i].addrs))
    && (forall i | 0 <= i < |m.ino| && i != s.i :: m'.ino[i] == m.ino[i])
  }

  /** Giving an empty slot a new block: ownership is kept, one slot changes, and no file's bytes do. */
  lemma {:induction false} FilledSlot(sb: Superblock, m: Image, owner: seq<Owner>, s: Slot, b: nat)
    requires Owned(sb, m, owner, {}) && 0 < b < sb.size && owner[b] == Free
    requires ValidSlot(m, s) && At(m, s) == 0 && (s.Entry? ==> At(m, Indirect(s.i)) != 0)
    ensures BBlock(sb, b) < |m.blk|
    ensures ValidSlot(Allocated(sb, m, b), s)
    ensures s.Entry? ==> 0 < Allocated(sb, m, b).ino[s.i].addrs[NDIRECT] < |m.blk|
    ensures var m' := Store(Allocated(sb, m, b), s, b);
            Owned(sb, m', owner[b := OwnedBy(s)], {}) && SlotFilled(m, m', s, b) && SameBytes(m, m')
  {
    BitmapIsMeta(sb, b);
    var m1, own1 := Allocated(sb, m, b), owner[b := Held];
    AllocatedOwned(sb, m, owner, {}, b);
    AllocatedBytes(sb, m, owner, b);
    AllocatedSlots(sb, m, owner, {}, b, s);
    if s.Entry? {
      AllocatedSlots(sb, m, owner, {}, b, Indirect(s.i));
    }
    StoreOwned(sb, m1, own1, s, b);
    StoreBytes(sb, m1, own1, s, b);
    var m' := Store(m1, s, b);
    assert own1[b := OwnedBy(s)] == owner[b := OwnedBy(s)];
    forall t | ValidSlot(m, t) ensures ValidSlot(m', t) && At(m', t) == if t == s then b else At(m, t) {
      AllocatedSlots(sb, m, owner, {}, b, t);
      StoreSlots(sb, m1, own1, s, b, t);
    }
  }

  // ---------- Freeing a block ----------

  /** bfree's effect: the bit is cleared. */
  function Freed(sb: Superblock, m: Image, b: nat): (m': Image)
    requires BBlock(sb, b) < |m.blk|
  {
    Image(m.blk[BBlock(sb, b) := SetBit(m.blk[BBlock(sb, b)], b % BPB, false)], m.ino)
  }

  lemma {:induction false} FreedKeepsBits(sb: Superblock, m: Image, owner: seq<Owner>, b: nat)
    requires ValidSb(sb) && |m.blk| == |owner| == sb.size && b < sb.size
    requires BitsMatch(sb, m.blk, owner)
    ensures BBlock(sb, b) < |m.blk| && BitsMatch(sb, Freed(sb, m, b).blk, owner[b := Free])
  {
    BitmapIsMeta(sb, b);
    var m', owner' := Freed(sb, m, b), owner[b := Free];
    forall c | 0 <= c < sb.size ensures BitMatches(sb, m'.blk, owner', c) {
      BitmapIsMeta(sb, c);
      OtherBits(sb, m.blk, b, false, c);
      assert BitMatches(sb, m.blk, owner, c);
    }
  }

  lemma {:induction false} FreedSlots(sb: Superblock, m: Image, owner: seq<Owner>, exempt: set<Slot>, b: nat, s: Slot)
    requires Owned(sb, m, owner, exempt) && b < sb.size && ValidSlot(m, s)
    ensures BBlock(sb, b) < |m.blk|
    ensures ValidSlot(Freed(sb, m, b), s) && At(Freed(sb, m, b), s) == At(m, s)
  {
    BitmapIsMeta(sb, b);
    SlotUnmoved(m, Freed(sb, m, b), owner, exempt, {BBlock(sb, b)}, s);
  }

  /** itrunc frees an indirect entry but leaves its number in the table: the entry becomes exempt. */
  lemma {:induction false} FreedEntry(sb: Superblock, m: Image, owner: seq<Owner>, exempt: set<Slot>, s: Slot)
    requires Owned(sb, m, owner, exempt) && ValidSlot(m, s) && s.Entry? && s !in exempt && At(m, s) != 0
    ensures At(m, s) < sb.size && BBlock(sb, At(m, s)) < |m.blk|
    ensures Owned(sb, Freed(sb, m, At(m, s)), owner[At(m, s) := Free], exempt + {s})
  {
    var b := At(m, s);
    BitmapIsMeta(sb, b);
    FreedKeepsBits(sb, m, owner, b);
    var m', owner' := Freed(sb, m, b), owner[b := Free];
    forall t | ValidSlot(m', t) ensures ValidSlot(m, t) && At(m', t) == At(m, t) {
      FreedSlots(sb, m, owner, exempt, b, t);
    }
    forall c | 0 <= c < |owner| && owner'[c].OwnedBy?
      ensures ValidSlot(m', owner'[c].slot) && At(m', owner'[c].slot) == c && owner'[c].slot !in exempt + {s}
    {
      assert owner[c].OwnedBy?;
      FreedSlots(sb, m, owner, exempt, b, owner[c].slot);
    }
  }

  /** bfree of a direct block or of the indirect table, and the store of 0 that follows it. */
  function Dropped(sb: Superblock, m: Image, s: Slot): (m': Image)
    requires ValidSlot(m, s) && !s.Entry? && BBlock(sb, At(m, s)) < |m.blk|
  {
    Store(Freed(sb, m, At(m, s)), s, 0)
  }

  lemma {:induction false} DroppedSlots(sb: Superblock, m: Image, owner: seq<Owner>, exempt: set<Slot>, s: Slot,
                                        t: Slot)
    requires Owned(sb, m, owner, exempt) && ValidSlot(m, s) && !s.Entry? && At(m, s) != 0 && ValidSlot(m, t)
    ensures At(m, s) < sb.size && BBlock(sb, At(m, s)) < |m.blk|
    ensures ValidSlot(Dropped(sb, m, s), t)
    ensures At(Dropped(sb, m, s), t) == if t == s || (s.Indirect? && t.Entry? && t.i == s.i) then 0 else At(m, t)
  {
    BitmapIsMeta(sb, At(m, s));
    FreedSlots(sb, m, owner, exempt, At(m, s), t);
  }

  lemma {:induction false} DroppedOwned(sb: Superblock, m: Image, owner: seq<Owner>, exempt: set<Slot>, s: Slot)
    requires Owned(sb, m, owner, exempt) && ValidSlot(m, s) && !s.Entry? && At(m, s) != 0
    requires s.Direct? ==> exempt == {}
    requires s.Indirect? ==> forall t | t in exempt :: t.i == s.i
    requires s.Indirect? ==> forall j | 0 <= j < NINDIRECT :: Entry(s.i, j) in exempt || At(m, Entry(s.i, j)) == 0
    ensures At(m, s) < sb.size && BBlock(sb, At(m, s)) < |m.blk|
    ensures Owned(sb, Dropped(sb, m, s), owner[At(m, s) := Free], {})
  {
    var b := At(m, s);
    BitmapIsMeta(sb, b);
    FreedKeepsBits(sb, m, owner, b);
    var m', owner' := Dropped(sb, m, s), owner[b := Free];
    forall t | ValidSlot(m', t) && At(m', t) != 0 ensures At(m', t) < |owner'| && owner'[At(m', t)] == OwnedBy(t) {
      assert ValidSlot(m, t);
      DroppedSlots(sb, m, owner, exempt, s, t);
    }
    forall c | 0 <= c < |owner| && owner'[c].OwnedBy?
      ensures ValidSlot(m', owner'[c].slot) && At(m', owner'[c].slot) == c
    {
      var t := owner[c].slot;
      assert owner[c].OwnedBy? && At(m, t) == c;
      DroppedSlots(sb, m, owner, exempt, s, t);
    }
  }

  // ---------- Writing into a data block ----------

  /** memmove of src to offset x of a block. */
  function Patch(b: Block, x: nat, src: seq<Byte>): (r: Block)
    requires x + |src| <= BSIZE
  {
    Bytes(b.at[..x] + src + b.at[x + |src|..])
  }

  function Patched(m: Image, a: nat, x: nat, src: seq<Byte>): (m': Image)
    requires a < |m.blk| && x + |src| <= BSIZE
  {
    Image(m.blk[a := Patch(m.blk[a], x, src)], m.ino)
  }

  lemma {:induction false} PatchedOwned(sb: Superblock, m: Image, owner: seq<Owner>, s: Slot, x: nat, src: seq<Byte>)
    requires Owned(sb, m, owner, {}) && ValidSlot(m, s) && !s.Indirect? && At(m, s) != 0 && x + |src| <= BSIZE
    ensures At(m, s) < |m.blk| && Owned(sb, Patched(m, At(m, s), x, src), owner, {})
  {
    var a := At(m, s);
    assert owner[a] == OwnedBy(s);
    var m' := Patched(m, a, x, src);
    forall t | ValidSlot(m', t) ensures ValidSlot(m, t) && At(m', t) == At(m, t) {
      SlotUnmoved(m, m', owner, {}, {a}, t);
    }
    forall c | 0 <= c < |owner| && owner[c].OwnedBy?
      ensures ValidSlot(m', owner[c].slot) && At(m', owner[c].slot) == c
    {
      SlotUnmoved(m, m', owner, {}, {a}, owner[c].slot);
    }
    forall c | 0 <= c < sb.size ensures BitMatches(sb, m'.blk, owner, c) {
      assert BitMatches(sb, m.blk, owner, c);
      BitmapIsMeta(sb, c);
    }
  }

  /** The write reaches exactly the bytes of file i it is meant for, and no other file. */
  lemma {:induction false} PatchedBytes(sb: Superblock, m: Image, owner: seq<Owner>, i: nat, bn: nat, x: nat,
                                        src: seq<Byte>, i': nat, off: nat)
    requires Owned(sb, m, owner, {}) && i < |m.ino| && bn < MAXFILE && At(m, DataSlot(i, bn)) != 0 && x + |src| <= BSIZE
    requires i' < |m.ino| && off < MAXFILE * BSIZE
    ensures At(m, DataSlot(i, bn)) < |m.blk|
    ensures ByteAt(Patched(m, At(m, DataSlot(i, bn)), x, src), i', off) ==
              if i' == i && bn * BSIZE + x <= off < bn * BSIZE + x + |src| then src[off - bn * BSIZE - x]
              else ByteAt(m, i', off)
  {
    hide Word, BitsMatch, OwnersReal, MetaMatches, ValidSb;
    var s, t := DataSlot(i, bn), DataSlot(i', off / BSIZE);
    var a := At(m, s);
    assert owner[a] == OwnedBy(s);
    var m' := Patched(m, a, x, src);
    SlotUnmoved(m, m', owner, {}, {a}, t);
    InBlock(off, bn);
    if At(m, t) == a {
      assert owner[a] == OwnedBy(t);
      assert i' == i && off / BSIZE == bn;
    }
  }

  lemma {:induction false} InBlock(off: nat, bn: nat)
    ensures off / BSIZE == bn <==> bn * BSIZE <= off < bn * BSIZE + BSIZE
    ensures off / BSIZE == bn ==> off % BSIZE == off - bn * BSIZE
  {
  }

  // ---------- Splicing ----------

  /** c with src written over it from offset off on. */
  function Splice(c: seq<Byte>, off: nat, src: seq<Byte>): (r: seq<Byte>)
    requires off <= |c|
    ensures |r| == if off + |src| <= |c| then |c| else off + |src|
  {
    c[..off] + src + if off + |src| <= |c| then c[off + |src|..] else []
  }

  /** Writing a then b, back to back, is writing a + b. */
  lemma {:induction false} SpliceTwice(c: seq<Byte>, off: nat, a: seq<Byte>, b: seq<Byte>)
    requires off <= |c|
    ensures off + |a| <= |Splice(c, off, a)|
    ensures Splice(Splice(c, off, a), off + |a|, b) == Splice(c, off, a + b)
  {
  }

  /** m' is m with src written to file i at off, as far as anyone can read. */
  ghost predicate WroteBytes(m: Image, m': Image, i: nat, off: nat, src: seq<Byte>) {
    && |m'.ino| == |m.ino| && i < |m.ino| && off + |src| <= MAXFILE * BSIZE
    && forall k, x | 0 <= k < |m.ino| && 0 <= x < MAXFILE * BSIZE ::
         ByteAt(m', k, x) == if k == i && off <= x < off + |src| then src[x - off] else ByteAt(m, k, x)
  }

  lemma {:induction false} WroteNothing(m: Image, m': Image, i: nat, off: nat)
    requires SameBytes(m, m') && i < |m.ino| && off <= MAXFILE * BSIZE
    ensures WroteBytes(m, m', i, off, [])
  {
  }

  lemma {:induction false} WroteMore(m0: Image, m1: Image, m2: Image, i: nat, off: nat, a: seq<Byte>, b: seq<Byte>)
    requires WroteBytes(m0, m1, i, off, a) && WroteBytes(m1, m2, i, off + |a|, b)
    ensures WroteBytes(m0, m2, i, off, a + b)
  {
    forall k, x | 0 <= k < |m0.ino| && 0 <= x < MAXFILE * BSIZE
      ensures ByteAt(m2, k, x) == if k == i && off <= x < off + |a + b| then (a + b)[x - off] else ByteAt(m0, k, x)
    {
      assert ByteAt(m1, k, x) == if k == i && off <= x < off + |a| then a[x - off] else ByteAt(m0, k, x);
    }
  }

  /** What the write means for contents: a splice of file i, and nothing for the others. */
  lemma {:induction false} WroteContent(m: Image, m': Image, i: nat, off: nat, src: seq<Byte>)
    requires WroteBytes(m, m', i, off, src) && off <= m.ino[i].size
    requires forall k | 0 <= k < |m.ino| :: m.ino[k].size <= MAXFILE * BSIZE
    requires m'.ino[i].size == if off + |src| <= m.ino[i].size then m.ino[i].size else off + |src|
    requires forall k | 0 <= k < |m.ino| && k != i :: m'.ino[k].size == m.ino[k].size
    ensures Content(m', i) == Splice(Content(m, i), off, src)
    ensures forall k | 0 <= k < |m.ino| && k != i :: Content(m', k) == Content(m, k)
  {
    var c, c' := Splice(Content(m, i), off, src), Content(m', i);
    forall x | 0 <= x < |c| ensures c'[x] == c[x] {
      assert ByteAt(m', i, x) == if off <= x < off + |src| then src[x - off] else ByteAt(m, i, x);
    }
    forall k | 0 <= k < |m.ino| && k != i ensures Content(m', k) == Content(m, k) {
      forall x | 0 <= x < m.ino[k].size ensures Content(m', k)[x] == Content(m, k)[x] {
        assert ByteAt(m', k, x) == ByteAt(m, k, x);
      }
    }
  }

  // ---------- The blocks a write logs ----------

  /** The block numbers of blocks lo..hi of file i. */
  ghost function Data(m: Image, i: nat, lo: nat, hi: nat): (r: seq<nat>)
    requires i < |m.ino| && hi <= MAXFILE
    ensures |r| == if lo < hi then hi - lo else 0
  {
    if hi <= lo then [] else Data(m, i, lo, hi - 1) + [At(m, DataSlot(i, hi - 1))]
  }

  /** The free-map blocks of those of them that were missing in m0. */
  ghost function Maps(sb: Superblock, m0: Image, m: Image, i: nat, lo: nat, hi: nat): (r: seq<nat>)
    requires i < |m0.ino| == |m.ino| && hi <= MAXFILE
    ensures |r| == Missing(m0, i, lo, hi)
  {
    if hi <= lo then []
    else
      Maps(sb, m0, m, i, lo, hi - 1) +
      if At(m0, DataSlot(i, hi - 1)) != 0 then [] else [BBlock(sb, At(m, DataSlot(i, hi - 1)))]
  }

  /** How many of blocks lo..hi are missing in m0. */
  ghost function Missing(m0: Image, i: nat, lo: nat, hi: nat): (n: nat)
    requires i < |m0.ino| && hi <= MAXFILE
  {
    if hi <= lo then 0
    else Missing(m0, i, lo, hi - 1) + if At(m0, DataSlot(i, hi - 1)) != 0 then 0 else 1
  }

  /** How many blocks bmap must allocate for block bn: itself and the indirect table, if they are missing. */
  ghost function Need(m: Image, i: nat, bn: nat): (n: nat)
    requires i < |m.ino| && bn < MAXFILE
  {
    (if At(m, DataSlot(i, bn)) == 0 then 1 else 0) + (if bn >= NDIRECT && At(m, Indirect(i)) == 0 then 1 else 0)
  }

  /** How many blocks must be allocated for blocks lo..hi. */
  ghost function Needs(m: Image, i: nat, lo: nat, hi: nat): (n: nat)
    requires i < |m.ino| && hi <= MAXFILE
  {
    Missing(m, i, lo, hi) + (if lo < hi && hi > NDIRECT && At(m, Indirect(i)) == 0 then 1 else 0)
  }

  lemma {:induction false} NoNeeds(m: Image, i: nat, lo: nat)
    requires i < |m.ino| && lo <= MAXFILE
    ensures Needs(m, i, lo, lo) == 0
  {
  }

  lemma {:induction false} NeedsGrow(m: Image, i: nat, lo: nat, mid: nat, hi: nat)
    requires i < |m.ino| && lo <= mid <= hi <= MAXFILE
    ensures Needs(m, i, lo, mid) <= Needs(m, i, lo, hi)
  {
    if mid < hi {
      NeedsGrow(m, i, lo, mid, hi - 1);
    }
  }

  /**
  The slots of file i after blocks lo..hi were allocated where missing, from image m0 to image m: those
  blocks are there, others only if they were, and no other file's slots moved.
  */
  ghost predicate Filled(m0: Image, m: Image, i: nat, lo: nat, hi: nat) {
    && i < |m0.ino| == |m.ino| && lo <= hi <= MAXFILE
    && (forall bn | 0 <= bn < MAXFILE ::
          At(m, DataSlot(i, bn)) != 0 <==> At(m0, DataSlot(i, bn)) != 0 || lo <= bn < hi)
    && (At(m, Indirect(i)) != 0 <==> At(m0, Indirect(i)) != 0 || (lo < hi && hi > NDIRECT))
    && (forall t | ValidSlot(m0, t) && t.i != i :: At(m, t) == At(m0, t))
  }

  /** The next block needs what the longer range needs more; the longer range stays within the whole one. */
  lemma {:induction false} NeedsNext(m0: Image, m: Image, i: nat, lo: nat, mid: nat, hi: nat)
    requires Filled(m0, m, i, lo, mid) && mid < hi <= MAXFILE
    ensures Needs(m0, i, lo, mid + 1) == Needs(m0, i, lo, mid) + Need(m, i, mid)
    ensures Needs(m0, i, lo, mid + 1) <= Needs(m0, i, lo, hi)
  {
    assert At(m, DataSlot(i, mid)) != 0 <==> At(m0, DataSlot(i, mid)) != 0 || lo <= mid < mid;
    NeedsGrow(m0, i, lo, mid + 1, hi);
  }

  lemma {:induction false} NothingFilled(m: Image, i: nat, lo: nat)
    requires i < |m.ino| && lo <= MAXFILE
    ensures Filled(m, m, i, lo, lo)
  {
  }

  /** The indirect table and its free-map block. */
  ghost function Table(sb: Superblock, m: Image, i: nat): (r: seq<nat>)
    requires i < |m.ino|
    ensures |r| <= 2
  {
    var t := At(m, Indirect(i));
    if t == 0 then [] else [t, BBlock(sb, t)]
  }

  /** What writing blocks lo..hi of file i may log, from image m0 to image m. */
  ghost predicate MayLog(sb: Superblock, m0: Image, m: Image, i: nat, lo: nat, hi: nat, b: nat)
    requires i < |m0.ino| == |m.ino| && hi <= MAXFILE
  {
    b in Data(m, i, lo, hi) || b in Maps(sb, m0, m, i, lo, hi) || b in Table(sb, m, i)
  }

  /** Slots that stay put keep the blocks that may be logged. */
  lemma {:induction false} LogsStable(sb: Superblock, m0: Image, m: Image, m': Image, i: nat, lo: nat, hi: nat)
    requires i < |m0.ino| == |m.ino| == |m'.ino| && lo <= hi <= MAXFILE
    requires forall bn | lo <= bn < hi :: At(m', DataSlot(i, bn)) == At(m, DataSlot(i, bn))
    ensures Data(m', i, lo, hi) == Data(m, i, lo, hi) && Maps(sb, m0, m', i, lo, hi) == Maps(sb, m0, m, i, lo, hi)
  {
    if lo < hi {
      LogsStable(sb, m0, m, m', i, lo, hi - 1);
      assert At(m', DataSlot(i, hi - 1)) == At(m, DataSlot(i, hi - 1));
    }
  }

  lemma {:induction false} DistinctCount(s: set<nat>, list: seq<nat>)
    requires forall x | x in s :: x in list
    ensures |s| <= |list|
  {
    if list == [] {
      assert s == {};
    } else {
      var n := |list| - 1;
      assert list == list[..n] + [list[n]];
      DistinctCount(s - {list[n]}, list[..n]);
    }
  }

  /** The write budget in general: one block per data block, one per missing block, the table's two, and the inode's. */
  lemma {:induction false} LogBudget(sb: Superblock, m0: Image, m: Image, i: nat, lo: nat, hi: nat, logged: set<nat>,
                                     ib: nat)
    requires i < |m0.ino| == |m.ino| && lo <= hi <= MAXFILE
    requires forall b | b in logged :: b == ib || MayLog(sb, m0, m, i, lo, hi, b)
    ensures |logged| <= hi - lo + Missing(m0, i, lo, hi) + 3
  {
    DistinctCount(logged, Data(m, i, lo, hi) + Maps(sb, m0, m, i, lo, hi) + Table(sb, m, i) + [ib]);
  }

  /** On a disk with a single free-map block (at most BPB blocks) missing blocks cost nothing extra. */
  lemma {:induction false} LogBudgetOneMap(sb: Superblock, m0: Image, m: Image, i: nat, lo: nat, hi: nat,
                                           logged: set<nat>, ib: nat)
    requires i < |m0.ino| == |m.ino| && lo <= hi <= MAXFILE && sb.size <= BPB
    requires At(m, Indirect(i)) < sb.size && forall bn | lo <= bn < hi :: At(m, DataSlot(i, bn)) < sb.size
    requires forall b | b in logged :: b == ib || MayLog(sb, m0, m, i, lo, hi, b)
    ensures |logged| <= hi - lo + 3
  {
    MapsAreFirst(sb, m0, m, i, lo, hi);
    DistinctCount(logged, Data(m, i, lo, hi) + [sb.bmapstart, At(m, Indirect(i)), ib]);
  }

  lemma {:induction false} MapsAreFirst(sb: Superblock, m0: Image, m: Image, i: nat, lo: nat, hi: nat)
    requires i < |m0.ino| == |m.ino| && lo <= hi <= MAXFILE && sb.size <= BPB
    requires forall bn | lo <= bn < hi :: At(m, DataSlot(i, bn)) < sb.size
    ensures forall b | b in Maps(sb, m0, m, i, lo, hi) :: b == sb.bmapstart
  {
    if lo < hi {
      MapsAreFirst(sb, m0, m, i, lo, hi - 1);
      assert At(m, DataSlot(i, hi - 1)) < sb.size;
    }
  }

  /** A file without holes: exactly the blocks up to its size are allocated. */
  ghost predicate NoHoles(m: Image, i: nat)
    requires i < |m.ino|
  {
    && (forall bn | 0 <= bn < MAXFILE :: At(m, DataSlot(i, bn)) != 0 <==> bn * BSIZE < m.ino[i].size)
    && (At(m, Indirect(i)) != 0 <==> NDIRECT * BSIZE < m.ino[i].size)
  }

  /** A file without holes: the blocks up to its size are all there, and no zeros stand in for one. */
  lemma {:induction false} NoHolesLayout(m: Image, i: nat)
    requires i < |m.ino| && m.ino[i].size <= MAXFILE * BSIZE
    ensures NoHoles(m, i) ==> forall k: nat | k * BSIZE < m.ino[i].size :: k < MAXFILE && BlockList(m, i)[k] != 0
    ensures NoHoles(m, i) ==> forall k: nat | m.ino[i].size <= k * BSIZE && k < MAXFILE :: BlockList(m, i)[k] == 0
  {
    hide Word;
    if NoHoles(m, i) {
      forall k: nat | k < MAXFILE ensures BlockList(m, i)[k] == At(m, DataSlot(i, k)) {
      }
    }
  }

  lemma {:induction false} MissingBeyondSize(m: Image, i: nat, lo: nat, hi: nat)
    requires i < |m.ino| && NoHoles(m, i) && lo <= hi <= MAXFILE
    ensures Missing(m, i, lo, hi) <= hi - lo
    ensures lo < hi && lo * BSIZE < m.ino[i].size ==> Missing(m, i, lo, hi) <= hi - lo - 1
  {
    if lo < hi {
      MissingBeyondSize(m, i, lo, hi - 1);
      assert At(m, DataSlot(i, hi - 1)) != 0 <==> (hi - 1) * BSIZE < m.ino[i].size;
    }
  }
}
