/**
The block and file operations of fs.c over one mounted file system.

`blk` is what bread returns for each block and `ino` is the in-memory inode table; both are updated
in place.  `dino` is the inode table as iupdate last wrote it.  `owner` says who owns each block,
and `logged` collects the block numbers passed to log_write since begin_op; `base` is what was mounted, and
`ended` is what each transaction left behind when it reached end_op.
Outcomes name the ways a call can end: Panic is the kernel's "out of blocks".
*/
module Fs {
  import opened Blocks
  import opened FsImage
  import opened Options
  import opened Params

  /** balloc's inner loop: the first clear bit among the first n of a free-map block, or n. */
  method ScanBitmap(bp: Block, n: nat) returns (bi: nat)
    requires n <= BPB
    ensures bi <= n && (forall j | 0 <= j < bi :: Bit(bp, j)) && (bi < n ==> !Bit(bp, bi))
  {
    bi := 0;
    while bi < n
      invariant 0 <= bi <= n && forall j | 0 <= j < bi :: Bit(bp, j)
    {
      if !Bit(bp, bi) {
        return;
      }
      bi := bi + 1;
    }
  }

  /** How readi and writei end: a byte count, -1, the kernel panic of balloc, or a hand-over to a device. */
  datatype Outcome = Ok(n: nat) | Error | Panic | Device

  /** The blocks as the buffers have them, the inode table as iupdate left it, and the log_writes of the transaction. */
  datatype Journal = Journal(blk: seq<Block>, dino: seq<Inode>, logged: set<nat>)

  /**
  Nothing changes without a log_write: every block that differs, and the block of every dinode that
  does, is logged.
  */
  ghost predicate Covers(sb: Superblock, j: Journal, j': Journal) {
    && |j'.blk| == |j.blk| && |j'.dino| == |j.dino| && j.logged <= j'.logged
    && (forall b | 0 <= b < |j.blk| && j'.blk[b] != j.blk[b] :: b in j'.logged)
    && (forall i | 0 <= i < |j.dino| && j'.dino[i] != j.dino[i] :: IBlock(sb, i) in j'.logged)
  }

  lemma {:induction false} NothingLogged(sb: Superblock, j: Journal)
    ensures Covers(sb, j, j)
  {
  }

  lemma {:induction false} OneLogged(sb: Superblock, j: Journal, j': Journal, b: nat)
    requires b < |j.blk| == |j'.blk| && j' == Journal(j.blk[b := j'.blk[b]], j.dino, j.logged + {b})
    ensures Covers(sb, j, j')
  {
  }

  lemma {:induction false} CoversBoth(sb: Superblock, a: Journal, b: Journal, c: Journal)
    requires Covers(sb, a, b) && Covers(sb, b, c)
    ensures Covers(sb, a, c)
  {
  }

  class FileSystem {
    const sb: Superblock
    var blk: seq<Block>
    var ino: seq<Inode>
    var dino: seq<Inode>
    ghost var owner: seq<Owner>
    ghost var logged: set<nat>
    ghost var base: Journal
    ghost var ended: seq<Journal>

    function Img(): (m: Image)
      reads this
    {
      Image(blk, ino)
    }

    ghost function J(): (j: Journal)
      reads this
    {
      Journal(blk, dino, logged)
    }

    ghost predicate Valid()
      reads this
    {
      && 0 < sb.datastart && |dino| == sb.ninodes && Owned(sb, Img(), owner, {})
      && (forall b | 0 <= b < |owner| :: owner[b] != Held)
      && (forall i | 0 <= i < |ino| :: ino[i].size <= MAXFILE * BSIZE)
    }

    /** Between transactions: the inode table is up to date and no file has holes. */
    ghost predicate Synced()
      requires Valid()
      reads this
    {
      dino == ino && forall i | 0 <= i < |ino| :: NoHoles(Img(), i)
    }

    /** Every transaction so far left a sound file system, logged what it changed, and the last one left this one. */
    ghost predicate Durable()
      reads this
    {
      && Valid() && Synced() && Kept(sb, base, ended)
      && Before(base, ended, |ended|).blk == blk && Before(base, ended, |ended|).dino == dino
    }

    /** Mounting any image in which every used block has exactly one reference. */
    constructor (super: Superblock, blocks: seq<Block>, inodes: seq<Inode>)
      requires ValidSb(super) && |blocks| == super.size && |inodes| == super.ninodes && 0 < super.datastart
      requires ExactlyOneReference(super, Image(blocks, inodes))
      requires forall i | 0 <= i < |inodes| :: inodes[i].size <= MAXFILE * BSIZE
      ensures Valid() && sb == super && blk == blocks && ino == dino == inodes && logged == {} && ended == []
      ensures base == Journal(blocks, inodes, {})
      ensures (forall i | 0 <= i < |inodes| :: NoHoles(Image(blocks, inodes), i)) ==> Durable()
    {
      sb, blk, ino, dino := super, blocks, inodes, inodes;
      owner, logged, ended := Owners(super, Image(blocks, inodes)), {}, [];
      base := Journal(blocks, inodes, {});
      OneReferenceMeansOwned(super, Image(blocks, inodes));
    }

    /** An image with no files: a free map that marks exactly the metadata. */
    constructor Empty(super: Superblock)
      requires ValidSb(super) && 0 < super.datastart
      ensures Valid() && Durable() && sb == super && logged == {} && ended == []
      ensures forall i | 0 <= i < |ino| :: ino[i].size == 0 && ino[i].typ == 0
      ensures forall b | 0 <= b < super.size :: owner[b] == if b < super.datastart then Meta else Free
    {
      sb, blk := super, seq(super.size, _ => ZeroBlock());
      ino := seq(super.ninodes, _ => Inode(0, 0, seq(13, _ => 0), 0, 0, 0));
      dino := seq(super.ninodes, _ => Inode(0, 0, seq(13, _ => 0), 0, 0, 0));
      owner, logged, ended := [], {}, [];
      base := Journal([], [], {});
      new;
      MarkMetadata();
      EmptyImage(sb, Img());
      OneReferenceMeansOwned(sb, Img());
      owner := Owners(sb, Img());
      base := Journal(blk, dino, {});
      NoSlotUsed(Img());
    }

    /** Set the free-map bits of the metadata blocks of a blank disk. */
    method MarkMetadata()
      requires ValidSb(sb) && |blk| == sb.size && forall b | 0 <= b < |blk| :: blk[b] == ZeroBlock()
      modifies this`blk
      ensures |blk| == sb.size
      ensures forall b: nat | b < sb.size :: BBlock(sb, b) < |blk| && (Used(sb, blk, b) <==> b < sb.datastart)
    {
      forall c: nat | c < sb.size ensures BBlock(sb, c) < |blk| && !Used(sb, blk, c) {
        BitmapIsMeta(sb, c);
        ZeroBits(c % BPB);
      }
      var b := 0;
      while b < sb.datastart
        invariant 0 <= b <= sb.datastart && |blk| == sb.size
        invariant forall c: nat | c < sb.size :: BBlock(sb, c) < |blk| && (Used(sb, blk, c) <==> c < b)
      {
        var n := BBlock(sb, b);
        forall c: nat | c < sb.size
          ensures Used(sb, blk[n := SetBit(blk[n], b % BPB, true)], c) <==> Used(sb, blk, c) || c == b
        {
          OtherBits(sb, blk, b, true, c);
        }
        blk := blk[n := SetBit(blk[n], b % BPB, true)];
        b := b + 1;
      }
    }

    /** balloc's search: the lowest block whose bit is clear. */
    method FindFree() returns (r: Option<nat>)
      requires ValidSb(sb) && |blk| == sb.size
      ensures forall c | 0 <= c < sb.size :: BBlock(sb, c) < |blk|
      ensures r.None? ==> forall c | 0 <= c < sb.size :: Used(sb, blk, c)
      ensures r.Some? ==>
                r.value < sb.size && !Used(sb, blk, r.value) && forall c | 0 <= c < r.value :: Used(sb, blk, c)
    {
      hide Used, BBlock;
      forall c | 0 <= c < sb.size ensures BBlock(sb, c) < |blk| {
        BitmapIsMeta(sb, c);
      }
      var b := 0;
      while b < sb.size
        invariant b % BPB == 0
        invariant forall c | 0 <= c < b && c < sb.size :: Used(sb, blk, c)
      {
        var n := if sb.size - b < BPB then sb.size - b else BPB;
        var bi := ScanFrom(b, n);
        if bi < n {
          return Some(b + bi);
        }
        b := b + BPB;
      }
      return None;
    }

    /** The scan of one free-map block, for the n blocks from b on. */
    method ScanFrom(b: nat, n: nat) returns (bi: nat)
      requires b % BPB == 0 && n <= BPB && b + n <= sb.size
      requires forall c | 0 <= c < sb.size :: BBlock(sb, c) < |blk|
      requires 0 < n
      ensures bi <= n && (forall c | b <= c < b + bi :: Used(sb, blk, c)) && (bi < n ==> !Used(sb, blk, b + bi))
    {
      hide Bit;
      bi := ScanBitmap(blk[BBlock(sb, b)], n);
      forall c | b <= c < b + bi ensures Used(sb, blk, c) {
        SameBitmapBlock(sb, b, c - b);
      }
      if bi < n {
        SameBitmapBlock(sb, b, bi);
      }
    }

    /** balloc, including the bzero of the block it returns; None is its panic. */
    method Balloc() returns (r: Option<nat>)
      requires Owned(sb, Img(), owner, {})
      modifies this`blk, this`owner, this`logged
      ensures r.None? <==> forall c | 0 <= c < sb.size :: old(owner)[c] != Free
      ensures r.None? ==> blk == old(blk) && owner == old(owner) && logged == old(logged)
      ensures r.Some? ==>
                && r.value < sb.size && old(owner)[r.value] == Free
                   && (forall c | 0 <= c < r.value :: old(owner)[c] != Free)
                && BBlock(sb, r.value) < |old(blk)|
                && Img() == Allocated(sb, old(Img()), r.value) && owner == old(owner)[r.value := Held]
                && logged == old(logged) + {BBlock(sb, r.value), r.value}
      ensures r.Some? ==>
                var n, k := sb.bmapstart + r.value / 4096, r.value % 4096;
                && n < |blk| && n != r.value && blk[r.value] == ZeroBlock()
                && blk[n].at[k / 8] as int == old(blk)[n].at[k / 8] as int + Pow2(k % 8)
                && (forall x | 0 <= x < BSIZE && x != k / 8 :: blk[n].at[x] == old(blk)[n].at[x])
                && (forall c | 0 <= c < |blk| && c != r.value && c != n :: blk[c] == old(blk)[c])
      ensures Covers(sb, old(J()), J()) && |blk| == |old(blk)|
    {
      hide Used, SetBit, Bit, SlotsOwned, OwnersReal;
      r := FindFree();
      forall c | 0 <= c < sb.size ensures Used(sb, blk, c) <==> owner[c] != Free {
        assert BitMatches(sb, blk, owner, c);
      }
      if r.Some? {
        var b := r.value;
        var n := BBlock(sb, b);
        FreeMapLayout(sb, blk, b);
        blk := blk[n := SetBit(blk[n], b % BPB, true)];
        logged := logged + {n};
        blk := blk[b := ZeroBlock()];
        logged := logged + {b};
        owner := owner[b := Held];
      }
    }

    /** Allocate a block for an empty slot: balloc, then the store of its number. */
    method Fill(s: Slot) returns (r: Option<nat>)
      requires Valid() && ValidSlot(Img(), s) && At(Img(), s) == 0
      requires s.Entry? ==> At(Img(), Indirect(s.i)) != 0
      modifies this`blk, this`ino, this`owner, this`logged
      ensures r.None? ==> Img() == old(Img()) && owner == old(owner) && logged == old(logged)
      ensures r.None? ==> forall c | 0 <= c < sb.size :: owner[c] != Free
      ensures Valid() && |ino| == old(|ino|) && SameBytes(old(Img()), Img())
      ensures r.Some? ==> SlotFilled(old(Img()), Img(), s, r.value)
      ensures r.Some? ==>
                0 < r.value < sb.size && owner == old(owner)[r.value := OwnedBy(s)] && old(owner)[r.value] == Free
      ensures r.Some? ==>
                logged == old(logged) + {BBlock(sb, r.value), r.value}
                    + (if s.Entry? then {At(Img(), Indirect(s.i))} else {})
      ensures Covers(sb, old(J()), J())
      ensures FreeCount(owner) == FreeCount(old(owner)) - (if r.Some? then 1 else 0)
      ensures r.Some? <==> FreeCount(old(owner)) > 0
    {
      hide SlotsOwned, OwnersReal, BitsMatch, SlotFilled, Word, FreeCount, Covers, Allocated, Store;
      CountFree(owner);
      r := Balloc();
      if r.Some? {
        var b := r.value;
        ghost var j1 := J();
        FilledSlot(sb, old(Img()), old(owner), s, b);
        TakeFree(old(owner), b, OwnedBy(s));
        StoreSlot(s, b);
        CoversBoth(sb, old(J()), j1, J());
        owner := owner[b := OwnedBy(s)];
        assert owner == old(owner)[b := OwnedBy(s)];
      }
    }

    /** The store of a block number in a slot; one in the indirect table is logged. */
    method StoreSlot(s: Slot, b: Word32)
      requires ValidSlot(Img(), s) && (s.Entry? ==> 0 < ino[s.i].addrs[NDIRECT] < |blk|)
      modifies this`blk, this`ino, this`logged
      ensures Img() == Store(old(Img()), s, b) && |ino| == |old(ino)| && Covers(sb, old(J()), J())
      ensures ino[s.i].addrs[NDIRECT] == if s.Indirect? then b else old(ino[s.i].addrs[NDIRECT])
      ensures logged == old(logged) + (if s.Entry? then {ino[s.i].addrs[NDIRECT]} else {})
    {
      match s {
        case Direct(i, k) => ino := ino[i := ino[i].(addrs := ino[i].addrs[k := b])];
        case Indirect(i) => ino := ino[i := ino[i].(addrs := ino[i].addrs[NDIRECT := b])];
        case Entry(i, j) =>
          var a := ino[i].addrs[NDIRECT];
          blk := blk[a := SetWord(blk[a], j, b)];
          logged := logged + {a};
      }
    }

    /** bmap for block bn of file i; None is balloc's panic. */
    method Bmap(i: nat, bn: nat) returns (r: Option<nat>)
      requires Valid() && i < |ino| && bn < MAXFILE
      modifies this`blk, this`ino, this`owner, this`logged
      ensures Valid() && |ino| == old(|ino|) && SameBytes(old(Img()), Img())
      ensures r.None? ==> forall c | 0 <= c < sb.size :: owner[c] != Free
      ensures r.Some? ==> Mapped(old(Img()), Img(), i, bn, r.value)
      ensures r.Some? && bn < NDIRECT ==> r.value == ino[i].addrs[bn]
      ensures r.Some? && bn >= NDIRECT ==>
                var a := ino[i].addrs[NDIRECT]; 0 < a < |blk| && r.value == Word(blk[a], bn - NDIRECT)
      ensures At(old(Img()), DataSlot(i, bn)) != 0 ==>
                && r == Some(At(old(Img()), DataSlot(i, bn)))
                && Img() == old(Img()) && owner == old(owner) && logged == old(logged)
      ensures r.Some? ==> forall b | b in logged && b !in old(logged) :: MapLogs(sb, old(Img()), Img(), i, bn, b)
      ensures Covers(sb, old(J()), J())
      ensures r.Some? <==> Need(old(Img()), i, bn) <= FreeCount(old(owner))
      ensures r.Some? ==> FreeCount(owner) == FreeCount(old(owner)) - Need(old(Img()), i, bn)
    {
      hide Word, ByteAt, Owned, FreeCount;
      if bn < NDIRECT {
        if ino[i].addrs[bn] != 0 {
          return Some(ino[i].addrs[bn]);
        }
        r := Fill(Direct(i, bn));
      } else {
        r := BmapIndirect(i, bn);
      }
    }

    /** The part of bmap for blocks listed in the indirect table, which is allocated when missing. */
    method BmapIndirect(i: nat, bn: nat) returns (r: Option<nat>)
      requires Valid() && i < |ino| && NDIRECT <= bn < MAXFILE
      modifies this`blk, this`ino, this`owner, this`logged
      ensures Valid() && |ino| == old(|ino|) && SameBytes(old(Img()), Img())
      ensures r.None? ==> forall c | 0 <= c < sb.size :: owner[c] != Free
      ensures r.Some? ==> Mapped(old(Img()), Img(), i, bn, r.value)
      ensures r.Some? && bn >= NDIRECT ==>
                var a := ino[i].addrs[NDIRECT]; 0 < a < |blk| && r.value == Word(blk[a], bn - NDIRECT)
      ensures At(old(Img()), DataSlot(i, bn)) != 0 ==>
                && r == Some(At(old(Img()), DataSlot(i, bn)))
                && Img() == old(Img()) && owner == old(owner) && logged == old(logged)
      ensures r.Some? ==> forall b | b in logged && b !in old(logged) :: MapLogs(sb, old(Img()), Img(), i, bn, b)
      ensures Covers(sb, old(J()), J())
      ensures r.Some? <==> Need(old(Img()), i, bn) <= FreeCount(old(owner))
      ensures r.Some? ==> FreeCount(owner) == FreeCount(old(owner)) - Need(old(Img()), i, bn)
    {
      hide Word, ByteAt, Owned, SlotFilled, Mapped, FreeCount, Covers;
      ghost var m0 := Img();
      var e := Entry(i, bn - NDIRECT);
      NothingLogged(sb, J());
      if ino[i].addrs[NDIRECT] == 0 {
        r := Fill(Indirect(i));
        if r.None? {
          return;
        }
        FilledTable(m0, Img(), i, bn, r.value);
      }
      ghost var m1, j1 := Img(), J();
      TableInRange(sb, m1, owner, i);
      var a := ino[i].addrs[NDIRECT];
      var addr := Word(blk[a], bn - NDIRECT);
      if addr != 0 {
        AlreadyMapped(m0, i, bn);
        MappedFields(m0, m0, i, bn, addr);
        return Some(addr);
      }
      r := Fill(e);
      CoversBoth(sb, old(J()), j1, J());
      if r.Some? {
        FilledEntry(m0, m1, Img(), i, bn, r.value);
        MappedFields(m0, Img(), i, bn, r.value);
      }
    }

    /** iupdate: copy the in-memory inode to the inode table. */
    method Iupdate(i: nat)
      requires i < |ino| == |dino|
      modifies this`dino, this`logged
      ensures dino == old(dino)[i := ino[i]] && logged == old(logged) + {IBlock(sb, i)}
      ensures Covers(sb, old(J()), J())
    {
      dino := dino[i := ino[i]];
      logged := logged + {IBlock(sb, i)};
    }

    /** One round of writei's loop: map the block, copy the piece into it, log it. */
    method WriteBlock(i: nat, off: nat, src: seq<Byte>) returns (ok: bool)
      requires Valid() && i < |ino| && off < MAXFILE * BSIZE && |src| <= BSIZE - off % BSIZE
      modifies this`blk, this`ino, this`owner, this`logged
      ensures Valid() && |ino| == old(|ino|)
      ensures !ok ==> SameBytes(old(Img()), Img()) && forall c | 0 <= c < sb.size :: owner[c] != Free
      ensures ok ==> BlockWritten(sb, old(Img()), Img(), i, off, src, old(logged), logged)
      ensures Covers(sb, old(J()), J())
      ensures ok <==> Need(old(Img()), i, off / BSIZE) <= FreeCount(old(owner))
      ensures ok ==> FreeCount(owner) == FreeCount(old(owner)) - Need(old(Img()), i, off / BSIZE)
    {
      hide At, Patch, Need, FreeCount;
      var bn := off / BSIZE;
      var r := Bmap(i, bn);
      if r.None? {
        return false;
      }
      ghost var m1 := Img();
      var a := r.value;
      assert owner[a] == OwnedBy(DataSlot(i, bn));
      PatchedOwned(sb, m1, owner, DataSlot(i, bn), off % BSIZE, src);
      blk := blk[a := Patch(blk[a], off % BSIZE, src)];
      logged := logged + {a};
      ghost var m2 := Img();
      assert m2 == Patched(m1, a, off % BSIZE, src);
      PatchedFile(sb, old(Img()), m1, m2, owner, i, off, src);
      PatchedSlots(sb, m1, owner, DataSlot(i, bn), off % BSIZE, src);
      return true;
    }

    /** Both readi's and writei's guard, with 32-bit unsigned addition. */
    predicate BadRange(i: nat, off: Word32, n: Word32)
      requires i < |ino|
      reads this
    {
      off > ino[i].size || (off + n) % 0x1_0000_0000 < off
    }

    /** writei's loop. */
    method WriteBlocks(i: nat, off: nat, src: seq<Byte>) returns (ok: bool)
      requires Valid() && i < |ino| && off + |src| <= MAXFILE * BSIZE
      modifies this`blk, this`ino, this`owner, this`logged
      ensures Valid() && |ino| == old(|ino|)
      ensures !ok ==> WrotePart(old(Img()), Img(), i, off, src) && forall c | 0 <= c < sb.size :: owner[c] != Free
      ensures ok ==> Progress(sb, old(Img()), Img(), i, off, src, old(logged), logged)
      ensures Covers(sb, old(J()), J())
      ensures ok <==> !Short(old(Img()), i, off, |src|, FreeCount(old(owner)))
      ensures ok ==>
                Took(old(Img()), Img(), i, off / BSIZE, BlockEnd(off, |src|), FreeCount(old(owner)), FreeCount(owner))
    {
      hide Progress, BlockWritten, Covers, Need, Took, Short, FreeCount, Owned, BlockEnd, PieceLen;
      ghost var m0, free0 := Img(), FreeCount(owner);
      var n, tot := |src|, 0;
      NoProgress(sb, m0, i, off, logged, src[..0]);
      NothingLogged(sb, J());
      TookNothing(m0, i, off, free0);
      while tot < n
        invariant 0 <= tot <= n && Valid() && |ino| == |m0.ino|
        invariant Progress(sb, m0, Img(), i, off, src[..tot], old(logged), logged)
        invariant 0 < tot < n ==> off + tot == BlockEnd(off, tot) * BSIZE
        invariant Took(m0, Img(), i, off / BSIZE, BlockEnd(off, tot), free0, FreeCount(owner))
        invariant Covers(sb, old(J()), J())
      {
        var m := PieceLen(off + tot, n - tot);
        ghost var m1, j1, free1 := Img(), J(), FreeCount(owner);
        NextPiece(off, tot, n, m);
        ok := WriteBlock(i, off + tot, src[tot..tot + m]);
        CoversBoth(sb, old(J()), j1, J());
        WriteStep(sb, m0, m1, Img(), i, off, tot, n, src[tot..tot + m], j1.logged, logged, free0, free1,
                  FreeCount(owner));
        if !ok {
          StoppedAt(sb, m0, m1, Img(), i, off, src, tot, old(logged), j1.logged);
          return;
        }
        assert src[..tot] + src[tot..tot + m] == src[..tot + m];
        tot := tot + m;
        ProgressNext(sb, m0, m1, Img(), i, off, src[..tot - m], src[tot - m..tot], src[..tot], old(logged), j1.logged,
                     logged);
      }
      assert src[..n] == src;
      NotShort(m0, Img(), i, off, n, free0, FreeCount(owner));
      return true;
    }

    /** writei. */
    method Writei(i: nat, off: Word32, src: seq<Byte>) returns (r: Outcome)
      requires Valid() && i < |ino| && |src| < 0x1_0000_0000
      modifies this`blk, this`ino, this`dino, this`owner, this`logged
      ensures Valid() && |ino| == old(|ino|)
      ensures r.Device? <==> old(ino[i].typ) == T_DEV
      ensures r.Error? <==> old(ino[i].typ) != T_DEV && (old(ino[i].size) < off || off + |src| > MAXFILE * BSIZE)
      ensures r.Device? || r.Error? ==>
                Img() == old(Img()) && dino == old(dino) && owner == old(owner) && logged == old(logged)
      ensures r.Panic? ==> WrotePart(old(Img()), Img(), i, off, src) && dino == old(dino)
      ensures r.Panic? <==>
                && old(ino[i].typ) != T_DEV && off <= old(ino[i].size) && off + |src| <= MAXFILE * BSIZE
                && Short(old(Img()), i, off, |src|, FreeCount(old(owner)))
      ensures r.Panic? ==> forall c | 0 <= c < sb.size :: owner[c] != Free
      ensures r.Ok? ==> r.n == |src| && Written(old(Img()), Img(), i, off, src)
      ensures r.Ok? && NoHoles(old(Img()), i) ==> NoHoles(Img(), i) && (old(dino) == old(ino) ==> dino == ino)
      ensures r.Ok? ==> forall b | b in logged && b !in old(logged) ::
                b == IBlock(sb, i) || MayLog(sb, old(Img()), Img(), i, off / BSIZE, BlockEnd(off, |src|), b)
      ensures r.Ok? ==>
                Took(old(Img()), Img(), i, off / BSIZE, BlockEnd(off, |src|), FreeCount(old(owner)), FreeCount(owner))
      ensures Covers(sb, old(J()), J())
    {
      if ino[i].typ == T_DEV {
        return Device;
      }
      if BadRange(i, off, |src|) || (off + |src|) % 0x1_0000_0000 > MAXFILE * BSIZE {
        return Error;
      }
      hide Owned, Written, NoHoles, MayLog, Covers, Took, Short, FreeCount;
      r := WriteInRange(i, off, src);
    }

    /** writei past its guards: the loop, then the new size. */
    method WriteInRange(i: nat, off: nat, src: seq<Byte>) returns (r: Outcome)
      requires Valid() && i < |ino| && off <= ino[i].size && off + |src| <= MAXFILE * BSIZE
      modifies this`blk, this`ino, this`dino, this`owner, this`logged
      ensures Valid() && |ino| == old(|ino|) && (r.Panic? || r.Ok?)
      ensures r.Panic? ==> WrotePart(old(Img()), Img(), i, off, src) && dino == old(dino)
      ensures r.Panic? <==> Short(old(Img()), i, off, |src|, FreeCount(old(owner)))
      ensures r.Panic? ==> forall c | 0 <= c < sb.size :: owner[c] != Free
      ensures r.Ok? ==> r.n == |src| && Written(old(Img()), Img(), i, off, src)
      ensures r.Ok? && NoHoles(old(Img()), i) ==> NoHoles(Img(), i) && (old(dino) == old(ino) ==> dino == ino)
      ensures r.Ok? ==> forall b | b in logged && b !in old(logged) ::
                b == IBlock(sb, i) || MayLog(sb, old(Img()), Img(), i, off / BSIZE, BlockEnd(off, |src|), b)
      ensures r.Ok? ==>
                Took(old(Img()), Img(), i, off / BSIZE, BlockEnd(off, |src|), FreeCount(old(owner)), FreeCount(owner))
      ensures Covers(sb, old(J()), J())
    {
      hide Word, WroteBytes, Touched, MayLog, Owned, Content, NoHoles, ByteAt, Covers, Filled, Needs, FreeCount;
      ghost var m0 := Img();
      var n := |src|;
      var ok := WriteBlocks(i, off, src);
      if !ok {
        return Panic;
      }
      ghost var m1, j1 := Img(), J();
      NothingLogged(sb, j1);
      if n > 0 && off + n > ino[i].size {
        ino := ino[i := ino[i].(size := off + n)];
        SizeOnly(sb, m1, Img(), owner, i);
        Iupdate(i);
      }
      CoversBoth(sb, old(J()), j1, J());
      WriteDone(sb, m0, m1, Img(), i, off, src, old(logged), logged - {IBlock(sb, i)});
      assert ino == m0.ino[i := ino[i]];
      return Ok(n);
    }

    /** readi. */
    method Readi(i: nat, off: Word32, n: Word32) returns (r: Outcome, dst: seq<Byte>)
      requires Valid() && i < |ino|
      modifies this`blk, this`ino, this`owner, this`logged
      ensures Valid() && |ino| == old(|ino|) && SameBytes(old(Img()), Img())
      ensures r.Device? <==> old(ino[i].typ) == T_DEV
      ensures r.Error? <==> old(ino[i].typ) != T_DEV && (old(ino[i].size) < off || off + n >= 0x1_0000_0000)
      ensures r.Panic? ==> forall c | 0 <= c < sb.size :: owner[c] != Free
      ensures r.Ok? ==> off <= old(ino[i].size) && r.n == |dst|
                        && dst == Content(old(Img()), i)[off..if off + n <= old(ino[i].size) then off + n
                                                         else old(ino[i].size)]
      ensures NoHoles(old(Img()), i) ==> !r.Panic? && Img() == old(Img()) && logged == old(logged)
      ensures r.Panic? <==>
                && old(ino[i].typ) != T_DEV && off <= old(ino[i].size) && off + n < 0x1_0000_0000
                && Short(old(Img()), i, off, if off + n <= old(ino[i].size) then n else old(ino[i].size) - off,
                         FreeCount(old(owner)))
      ensures Covers(sb, old(J()), J())
    {
      hide Content, Owned, Needs, FreeCount, NoHoles;
      dst := [];
      if ino[i].typ == T_DEV {
        return Device, dst;
      }
      if BadRange(i, off, n) {
        return Error, dst;
      }
      var size := ino[i].size;
      var len := if (off + n) % 0x1_0000_0000 > size then size - off else n;
      var ok;
      ok, dst := ReadBlocks(i, off, len);
      return if ok then Ok(len) else Panic, dst;
    }

    /** readi's loop. */
    method ReadBlocks(i: nat, off: nat, n: nat) returns (ok: bool, dst: seq<Byte>)
      requires Valid() && i < |ino| && off + n <= ino[i].size
      modifies this`blk, this`ino, this`owner, this`logged
      ensures Valid() && |ino| == old(|ino|) && SameBytes(old(Img()), Img())
      ensures !ok ==> forall c | 0 <= c < sb.size :: owner[c] != Free
      ensures ok ==> dst == Content(old(Img()), i)[off..off + n]
      ensures NoHoles(old(Img()), i) ==> ok && Img() == old(Img()) && logged == old(logged)
      ensures ok <==> !Short(old(Img()), i, off, n, FreeCount(old(owner)))
      ensures Covers(sb, old(J()), J())
    {
      hide Word, ByteAt, Owned, Mapped, NoHoles, Content, SameBytes, At, Covers, Took, Short, Need, FreeCount, BlockEnd;
      hide PieceLen;
      dst := [];
      var tot := 0;
      ghost var m0, free0 := Img(), FreeCount(owner);
      StillSameBytes(m0, m0, m0);
      NothingLogged(sb, J());
      TookNothing(m0, i, off, free0);
      while tot < n
        invariant |dst| == tot <= n && Valid() && |ino| == |m0.ino| && SameBytes(m0, Img())
        invariant dst == Content(m0, i)[off..off + tot]
        invariant NoHoles(m0, i) ==> Img() == m0 && logged == old(logged)
        invariant 0 < tot < n ==> off + tot == BlockEnd(off, tot) * BSIZE
        invariant Took(m0, Img(), i, off / BSIZE, BlockEnd(off, tot), free0, FreeCount(owner))
        invariant Covers(sb, old(J()), J())
      {
        var m := PieceLen(off + tot, n - tot);
        NextPiece(off, tot, n, m);
        ghost var m1, j1, free1 := Img(), J(), FreeCount(owner);
        var piece, v := ReadPiece(i, off + tot, m, m0);
        CoversBoth(sb, old(J()), j1, J());
        MapStep(m0, m1, Img(), i, off, tot, n, m, v, free0, free1, FreeCount(owner));
        if piece.None? {
          return false, dst;
        }
        SliceMore(Content(m0, i), off, off + tot, off + tot + m);
        dst := dst + piece.value;
        tot := tot + m;
      }
      NotShort(m0, Img(), i, off, n, free0, FreeCount(owner));
      return true, dst;
    }

    /** One round of readi's loop: map the block, copy the piece out of it.  m0 is the image when readi began. */
    method ReadPiece(i: nat, x: nat, m: nat, ghost m0: Image) returns (piece: Option<seq<Byte>>, ghost v: nat)
      requires Valid() && i < |ino| == |m0.ino| && SameBytes(m0, Img()) && m0.ino[i].size <= MAXFILE * BSIZE
      requires 0 < m && x + m <= m0.ino[i].size && x % BSIZE + m <= BSIZE
      modifies this`blk, this`ino, this`owner, this`logged
      ensures Valid() && |ino| == old(|ino|) && SameBytes(m0, Img()) && Covers(sb, old(J()), J())
      ensures piece.None? ==> forall c | 0 <= c < sb.size :: owner[c] != Free
      ensures piece.Some? ==> piece.value == Content(m0, i)[x..x + m] && Mapped(old(Img()), Img(), i, x / BSIZE, v)
      ensures piece.Some? <==> Need(old(Img()), i, x / BSIZE) <= FreeCount(old(owner))
      ensures piece.Some? ==> FreeCount(owner) == FreeCount(old(owner)) - Need(old(Img()), i, x / BSIZE)
      ensures NoHoles(m0, i) && old(Img()) == m0 ==> piece.Some? && Img() == m0 && logged == old(logged)
    {
      hide Word, ByteAt, Owned, Mapped, MapLogs, NoHoles, Content, SameBytes, At, Covers, Need, FreeCount;
      v := 0;
      NoHoleAt(m0, i, x);
      ghost var m1 := Img();
      var b := Bmap(i, x / BSIZE);
      StillSameBytes(m0, m1, Img());
      if b.None? {
        return None, 0;
      }
      v := b.value;
      MappedInRange(sb, m1, Img(), owner, i, x / BSIZE, b.value);
      PieceIsContent(m0, Img(), i, x, m);
      return Some(blk[b.value].at[x % BSIZE..x % BSIZE + m]), v;
    }

    /** bfree.  Its panic on a free block is a demand on the caller. */
    method Bfree(b: nat)
      requires ValidSb(sb) && |blk| == |owner| == sb.size && b < sb.size && BBlock(sb, b) < |blk| && Used(sb, blk, b)
      modifies this`blk, this`owner, this`logged
      ensures Img() == Freed(sb, old(Img()), b) && owner == old(owner)[b := Free]
      ensures logged == old(logged) + {BBlock(sb, b)} && Covers(sb, old(J()), J())
      ensures var n, k := sb.bmapstart + b / 4096, b % 4096;
              && n < |blk| == |old(blk)| && blk[n].at[k / 8] as int == old(blk)[n].at[k / 8] as int - Pow2(k % 8)
              && (forall x | 0 <= x < BSIZE && x != k / 8 :: blk[n].at[x] == old(blk)[n].at[x])
              && (forall c | 0 <= c < |blk| && c != n :: blk[c] == old(blk)[c])
    {
      var n := BBlock(sb, b);
      FreeMapLayout(sb, blk, b);
      blk := blk[n := SetBit(blk[n], b % BPB, false)];
      owner := owner[b := Free];
      logged := logged + {n};
    }

    /** One round of itrunc's direct loop, and its last step for the table: free the block, clear the slot. */
    method Drop(s: Slot, ghost exempt: set<Slot>)
      requires Owned(sb, Img(), owner, exempt) && ValidSlot(Img(), s) && !s.Entry? && At(Img(), s) != 0
      requires Droppable(Img(), exempt, s)
      modifies this`blk, this`ino, this`owner, this`logged
      ensures Owned(sb, Img(), owner, {}) && BBlock(sb, At(old(Img()), s)) < |old(blk)|
      ensures Img() == Dropped(sb, old(Img()), s)
      ensures At(old(Img()), s) < sb.size && owner == old(owner)[At(old(Img()), s) := Free]
      ensures Covers(sb, old(J()), J())
    {
      var b := if s.Direct? then ino[s.i].addrs[s.k] else ino[s.i].addrs[NDIRECT];
      OwnedIsUsed(sb, Img(), owner, exempt, s);
      DroppedOwned(sb, Img(), owner, exempt, s);
      Bfree(b);
      if s.Direct? {
        ino := ino[s.i := ino[s.i].(addrs := ino[s.i].addrs[s.k := 0])];
      } else {
        ino := ino[s.i := ino[s.i].(addrs := ino[s.i].addrs[NDIRECT := 0])];
      }
    }

    /** itrunc's first loop. */
    method DropDirect(i: nat) returns (ghost done: set<Slot>)
      requires Owned(sb, Img(), owner, {}) && i < |ino|
      modifies this`blk, this`ino, this`owner, this`logged
      ensures Owned(sb, Img(), owner, {}) && Truncating(sb, old(Img()), old(owner), Img(), owner, i, done)
      ensures forall k | 0 <= k < NDIRECT :: Direct(i, k) in done || At(old(Img()), Direct(i, k)) == 0
      ensures forall t | t in done :: t.Direct?
      ensures Covers(sb, old(J()), J())
    {
      hide Word, Dropped, BBlock, Bit, SlotsOwned, Covers;
      ghost var m0, own0 := Img(), owner;
      done := {};
      NothingLogged(sb, J());
      var k := 0;
      while k < NDIRECT
        invariant 0 <= k <= NDIRECT && Owned(sb, Img(), owner, {}) && Truncating(sb, m0, own0, Img(), owner, i, done)
        invariant forall k' | 0 <= k' < k :: Direct(i, k') in done || At(m0, Direct(i, k')) == 0
        invariant forall t | t in done :: t.Direct? && t.k < k
        invariant Covers(sb, old(J()), J())
      {
        var s := Direct(i, k);
        if ino[i].addrs[k] != 0 {
          ghost var j1 := J();
          TruncateStep(sb, m0, own0, Img(), owner, i, done, s, {});
          Drop(s, {});
          CoversBoth(sb, old(J()), j1, J());
          done := done + {s};
        }
        k := k + 1;
      }
    }

    /** itrunc's loop over the indirect table. */
    method FreeEntries(i: nat) returns (ghost done: set<Slot>)
      requires Owned(sb, Img(), owner, {}) && i < |ino| && ino[i].addrs[NDIRECT] != 0
      modifies this`blk, this`owner, this`logged
      ensures Owned(sb, Img(), owner, done) && Truncating(sb, old(Img()), old(owner), Img(), owner, i, done)
      ensures Droppable(Img(), done, Indirect(i)) && forall t | t in done :: t.Entry?
      ensures Covers(sb, old(J()), J())
    {
      hide Word, Owned, OwnersReal, Truncating, Freed, Covers, J;
      ghost var m0, own0 := Img(), owner;
      done := {};
      NothingLogged(sb, J());
      NothingTruncated(sb, m0, own0, i);
      TableInRange(sb, m0, own0, i);
      OwnedSizes(sb, m0, own0, {});
      var a := blk[ino[i].addrs[NDIRECT]];
      var j := 0;
      while j < NINDIRECT
        invariant 0 <= j <= NINDIRECT && ino == m0.ino
        invariant Owned(sb, Img(), owner, done) && Truncating(sb, m0, own0, Img(), owner, i, done)
        invariant forall j' | 0 <= j' < j :: Entry(i, j') in done || At(m0, Entry(i, j')) == 0
        invariant forall t | t in done :: t.Entry? && t.i == i && t.j < j
        invariant Covers(sb, old(J()), J())
      {
        ghost var s, j1 := Entry(i, j), J();
        EntryStill(sb, m0, own0, Img(), owner, i, done, j);
        if Word(a, j) != 0 {
          TruncateEntry(sb, m0, own0, Img(), owner, i, done, s);
          OwnedIsUsed(sb, Img(), owner, done, s);
          OwnedSizes(sb, Img(), owner, done);
          Bfree(Word(a, j));
          CoversBoth(sb, old(J()), j1, J());
          done := done + {s};
        }
        j := j + 1;
      }
      forall j | 0 <= j < NINDIRECT ensures At(Img(), Entry(i, j)) == At(m0, Entry(i, j)) {
        EntryStill(sb, m0, own0, Img(), owner, i, done, j);
      }
    }

    /** itrunc: exactly the blocks of file i are freed, its slots are emptied, and no other file changes. */
    method Itrunc(i: nat)
      requires Valid() && i < |ino|
      modifies this`blk, this`ino, this`dino, this`owner, this`logged
      ensures Valid() && |ino| == old(|ino|)
      ensures Truncated(sb, old(Img()), old(owner), Img(), owner, i)
      ensures ino[i].size == 0 && forall k | 0 <= k < 13 :: ino[i].addrs[k] == 0
      ensures dino == old(dino)[i := ino[i]] && Covers(sb, old(J()), J())
    {
      hide Word, SlotsOwned, OwnersReal, BitsMatch, MetaMatches, Dropped, Truncating, Emptied, Covers;
      ghost var m0, own0 := Img(), owner;
      ghost var done := DropDirect(i);
      ghost var m1, own1, j1 := Img(), owner, J();
      if ino[i].addrs[NDIRECT] != 0 {
        ghost var entries := FreeEntries(i);
        ghost var m2, own2, j2 := Img(), owner, J();
        TableDropped(sb, m0, own0, m1, own1, m2, own2, i, done, entries);
        Drop(Indirect(i), entries);
        CoversBoth(sb, j1, j2, J());
        CoversBoth(sb, old(J()), j1, J());
      } else {
        NoTable(sb, m0, own0, m1, own1, i, done);
      }
      ghost var m3, j3 := Img(), J();
      ino := ino[i := ino[i].(size := 0)];
      SizeOnly(sb, m3, Img(), owner, i);
      SizeEmptied(sb, m0, own0, m3, Img(), owner, i);
      EmptiedContents(sb, m0, own0, Img(), owner, i);
      EmptiedFields(sb, m0, own0, Img(), owner, i);
      Iupdate(i);
      CoversBoth(sb, old(J()), j3, J());
    }

    /** One transaction of filewrite, from begin_op to end_op; a kernel panic never reaches end_op. */
    method WriteChunk(i: nat, off: Word32, src: seq<Byte>) returns (r: Outcome)
      requires Valid() && i < |ino| && 0 < |src| <= CHUNK
      modifies this`blk, this`ino, this`dino, this`owner, this`logged, this`ended
      ensures Valid() && |ino| == old(|ino|)
      ensures r.Device? <==> old(ino[i].typ) == T_DEV
      ensures r.Error? <==>
                old(ino[i].typ) != T_DEV && (old(ino[i].size) < off || off + |src| > MAXFILE * BSIZE)
      ensures r.Device? || r.Error? ==> Img() == old(Img()) && dino == old(dino) && owner == old(owner)
      ensures r.Device? || r.Error? ==> logged == {}
      ensures r.Panic? <==>
                && old(ino[i].typ) != T_DEV && off <= old(ino[i].size) && off + |src| <= MAXFILE * BSIZE
                && Short(old(Img()), i, off, |src|, FreeCount(old(owner)))
      ensures r.Panic? ==> forall c | 0 <= c < sb.size :: owner[c] != Free
      ensures r.Ok? ==> r.n == |src| && Written(old(Img()), Img(), i, off, src)
      ensures r.Ok? ==>
                Took(old(Img()), Img(), i, off / BSIZE, BlockEnd(off, |src|), FreeCount(old(owner)), FreeCount(owner))
      ensures r.Ok? && NoHoles(old(Img()), i) ==> NoHoles(Img(), i) && |logged| <= MAXOPBLOCKS
      ensures r.Ok? && NoHoles(old(Img()), i) && sb.size <= BPB ==> |logged| <= 7
      ensures Covers(sb, old(J()).(logged := {}), J())
      ensures ended == if r.Panic? then old(ended) else old(ended) + [J()]
      ensures old(Durable()) ==> Kept(sb, base, ended) && (r.Panic? || Durable())
    {
      hide Owned, NoHoles, MayLog, Written, ByteAt, Word, Covers, Filled, Needs, FreeCount, Short, Kept;
      ghost var m := Img();
      assert ino[i].size <= MAXFILE * BSIZE;
      logged := {};
      r := Writei(i, off, src);
      if r.Panic? {
        return;
      }
      if r.Ok? && NoHoles(m, i) {
        ChunkBudget(sb, m, Img(), owner, i, off, src, logged);
      }
      ended := ended + [J()];
      if old(Durable()) {
        if r.Ok? {
          OthersNoHoles(m, Img(), i, off / BSIZE, BlockEnd(off, |src|), off, src);
        }
        KeptMore(sb, old(J()), base, old(ended), J(), owner);
      }
    }

    /** Truncation as a transaction. */
    method Truncate(i: nat)
      requires Valid() && i < |ino|
      modifies this`blk, this`ino, this`dino, this`owner, this`logged, this`ended
      ensures Valid() && |ino| == old(|ino|)
      ensures Truncated(sb, old(Img()), old(owner), Img(), owner, i)
      ensures Covers(sb, old(J()).(logged := {}), J()) && ended == old(ended) + [J()]
      ensures old(Durable()) ==> Durable()
    {
      hide Owned, NoHoles, Word, Covers, Kept, Truncated;
      ghost var m, own := Img(), owner;
      logged := {};
      Itrunc(i);
      ended := ended + [J()];
      if old(Durable()) {
        TruncatedNoHoles(sb, m, own, Img(), owner, i);
        KeptMore(sb, old(J()), base, old(ended), J(), owner);
      }
    }

    /** filewrite on a file; `off'` is the new f->off. */
    method FileWrite(i: nat, off: Word32, src: seq<Byte>) returns (r: Outcome, off': nat)
      requires Valid() && i < |ino| && |src| < 0x8000_0000
      modifies this`blk, this`ino, this`dino, this`owner, this`logged, this`ended
      ensures Valid() && |ino| == old(|ino|) && off <= off' <= off + |src|
      ensures r.Device? <==> old(ino[i].typ) == T_DEV && src != []
      ensures r.Device? ==> Img() == old(Img())
      ensures r.Ok? ==> r.n == |src| && off' == off + |src| && WrittenOrSame(old(Img()), Img(), i, off, src)
      ensures r.Error? ==> WrittenOrSame(old(Img()), Img(), i, off, src[..off' - off]) && src != []
                           && (off > old(ino[i].size) || off + |src| > MAXFILE * BSIZE)
      ensures r.Ok? && src != [] ==> off <= old(ino[i].size) && off + |src| <= MAXFILE * BSIZE
      ensures r.Panic? <==>
                && old(ino[i].typ) != T_DEV && off <= old(ino[i].size)
                && Short(old(Img()), i, off, Fits(off, |src|), FreeCount(old(owner)))
      ensures r.Error? && off <= old(ino[i].size) ==> off' == off + Fits(off, |src|)
      ensures r.Panic? ==> forall c | 0 <= c < sb.size :: owner[c] != Free
      ensures old(ended) <= ended
      ensures r.Ok? ==> |ended| == |old(ended)| + Chunks(|src|)
      ensures NoHoles(old(Img()), i) ==> SmallSince(ended, |old(ended)|, MAXOPBLOCKS)
      ensures NoHoles(old(Img()), i) && sb.size <= BPB ==> SmallSince(ended, |old(ended)|, 7)
      ensures old(Durable()) ==> Kept(sb, base, ended) && (r.Panic? || Durable())
    {
      hide NoHoles, Going, SmallSince, Rounds, Chunks, WrittenOrSame, Written, Took, Short, FreeCount, Synced, Kept;
      hide Owned, Covers, Fits, BlockEnd;
      ghost var m0, free0, rounds := Img(), FreeCount(owner), 0;
      var max := (MAXOPBLOCKS - 1 - 1 - 2) / 2 * 512;
      off' := off;
      var done := 0;
      NoRounds(m0, i, off, src, ended, free0);
      while done < |src|
        invariant done <= |src| && off' == off + done && Valid() && |ino| == |m0.ino|
        invariant Going(m0, Img(), i, off, src, done, free0, FreeCount(owner)) && (0 < done ==> off' <= MAXFILE * BSIZE)
        invariant |ended| == |old(ended)| + rounds && Rounds(done, |src|, rounds) && old(ended) <= ended
        invariant NoHoles(m0, i) ==> NoHoles(Img(), i) && SmallSince(ended, |old(ended)|, MAXOPBLOCKS)
        invariant NoHoles(m0, i) && sb.size <= BPB ==> SmallSince(ended, |old(ended)|, 7)
        invariant old(Durable()) ==> Durable() && Kept(sb, base, ended)
      {
        var n1 := if |src| - done > max then max else |src| - done;
        ghost var m1, ended1, free1 := Img(), ended, FreeCount(owner);
        r := WriteChunk(i, off', src[done..done + n1]);
        GoingNext(m0, m1, Img(), i, off, src, done, n1, rounds, free0, free1, FreeCount(owner), r);
        if !r.Panic? {
          OneMore(ended1, |old(ended)|, J());
        }
        if !r.Ok? {
          return;
        }
        NextRound(done, |src|, rounds, n1);
        off' := off' + n1;
        done := done + n1;
        rounds := rounds + 1;
      }
      AllRounds(done, |src|, rounds);
      GoneAll(m0, Img(), i, off, src, free0, FreeCount(owner));
      r := Ok(|src|);
    }
  }

  lemma {:induction false} NoSlotUsed(m: Image)
    requires forall i | 0 <= i < |m.ino| :: m.ino[i].size == 0 && m.ino[i].addrs == seq(13, _ => 0)
    ensures (forall s | ValidSlot(m, s) :: At(m, s) == 0) && forall i | 0 <= i < |m.ino| :: NoHoles(m, i)
  {
    hide Word;
  }

  lemma {:induction false} SameBitmapBlock(sb: Superblock, b: nat, bi: nat)
    requires b % BPB == 0 && bi < BPB
    ensures BBlock(sb, b + bi) == BBlock(sb, b) && (b + bi) % BPB == bi
  {
  }

  /** bmap's result: block v in the slot of block bn; besides it, only a missing indirect table may have been added. */
  ghost predicate Mapped(m: Image, m': Image, i: nat, bn: nat, v: nat) {
    && i < |m.ino| == |m'.ino| && bn < MAXFILE
    && v != 0 && At(m', DataSlot(i, bn)) == v
    && (forall t | ValidSlot(m, t) && At(m, t) != 0 :: At(m', t) == At(m, t))
    && (forall t | ValidSlot(m, t) && t != DataSlot(i, bn) && t != Indirect(i) :: At(m', t) == At(m, t))
    && (bn < NDIRECT ==> At(m', Indirect(i)) == At(m, Indirect(i)))
    && (bn >= NDIRECT ==> At(m', Indirect(i)) != 0)
    && (forall k | 0 <= k < |m.ino| :: m'.ino[k] == m.ino[k].(addrs := m'.ino[k].addrs))
    && (forall k | 0 <= k < |m.ino| && k != i :: m'.ino[k] == m.ino[k])
  }

  /** Where the number of a mapped block is stored. */
  lemma {:induction false} MappedFields(m: Image, m': Image, i: nat, bn: nat, v: nat)
    requires Mapped(m, m', i, bn, v)
    ensures bn < NDIRECT ==> v == m'.ino[i].addrs[bn]
    ensures bn >= NDIRECT ==>
              var a := m'.ino[i].addrs[NDIRECT]; 0 < a < |m'.blk| && v == Word(m'.blk[a], bn - NDIRECT)
  {
    hide Word;
  }

  lemma {:induction false} TableInRange(sb: Superblock, m: Image, owner: seq<Owner>, i: nat)
    requires Owned(sb, m, owner, {}) && i < |m.ino|
    ensures At(m, Indirect(i)) < |m.blk|
  {
    assert ValidSlot(m, Indirect(i));
  }

  lemma {:induction false} AlreadyMapped(m: Image, i: nat, bn: nat)
    requires i < |m.ino| && NDIRECT <= bn < MAXFILE && At(m, Indirect(i)) != 0 && At(m, DataSlot(i, bn)) != 0
    ensures Mapped(m, m, i, bn, At(m, DataSlot(i, bn)))
  {
  }

  lemma {:induction false} FilledTable(m0: Image, m1: Image, i: nat, bn: nat, t: nat)
    requires SlotFilled(m0, m1, Indirect(i), t) && NDIRECT <= bn < MAXFILE && At(m0, Indirect(i)) == 0 && t != 0
    ensures |m1.ino| == |m0.ino| && At(m1, Indirect(i)) == t && At(m1, DataSlot(i, bn)) == At(m0, DataSlot(i, bn)) == 0
  {
    assert ValidSlot(m0, DataSlot(i, bn));
  }

  /** After a table that was there or has just been filled, a filled entry completes the mapping. */
  lemma {:induction false} FilledEntry(m0: Image, m1: Image, m2: Image, i: nat, bn: nat, v: nat)
    requires NDIRECT <= bn < MAXFILE && i < |m0.ino| == |m1.ino| && At(m1, Indirect(i)) != 0 && v != 0
    requires m1 == m0 || (At(m0, Indirect(i)) == 0 && SlotFilled(m0, m1, Indirect(i), At(m1, Indirect(i))))
    requires At(m0, DataSlot(i, bn)) == 0 && SlotFilled(m1, m2, DataSlot(i, bn), v)
    ensures Mapped(m0, m2, i, bn, v) && At(m2, DataSlot(i, bn)) == v && At(m2, Indirect(i)) == At(m1, Indirect(i))
  {
    hide Word;
    assert ValidSlot(m1, Indirect(i)) && ValidSlot(m1, DataSlot(i, bn));
  }

  /** The blocks bmap may log: for a new block, itself and its free-map block, and the indirect table. */
  ghost predicate MapLogs(sb: Superblock, m: Image, m': Image, i: nat, bn: nat, b: nat)
    requires i < |m.ino| == |m'.ino| && bn < MAXFILE
  {
    var v := At(m', DataSlot(i, bn));
    At(m, DataSlot(i, bn)) == 0 && (b == v || b == BBlock(sb, v) || (bn >= NDIRECT && b in Table(sb, m', i)))
  }

  /**
  The slots of file i after writing its blocks lo..hi, from image m0 to image m: those blocks are
  allocated, whatever was allocated stays where it was, and if nothing was missing no inode changed.
  */
  ghost predicate Touched(m0: Image, m: Image, i: nat, lo: nat, hi: nat) {
    && Filled(m0, m, i, lo, hi)
    && (forall k | 0 <= k < |m.ino| :: m.ino[k] == m0.ino[k].(addrs := m.ino[k].addrs))
    && (forall k | 0 <= k < |m.ino| && k != i :: m.ino[k] == m0.ino[k])
    && ((forall bn | lo <= bn < hi :: At(m0, DataSlot(i, bn)) != 0) ==> m.ino == m0.ino)
  }

  /** One block's worth of a write: the bytes, the slots, and what was logged. */
  ghost predicate BlockWritten(sb: Superblock, m: Image, m': Image, i: nat, off: nat, src: seq<Byte>, logged: set<nat>,
                               logged': set<nat>) {
    && WroteBytes(m, m', i, off, src) && off < MAXFILE * BSIZE
    && Mapped(m, m', i, off / BSIZE, At(m', DataSlot(i, off / BSIZE)))
    && (At(m, DataSlot(i, off / BSIZE)) != 0 ==> m'.ino == m.ino)
    && (forall b | b in logged' && b !in logged ::
          b == At(m', DataSlot(i, off / BSIZE)) || MapLogs(sb, m, m', i, off / BSIZE, b))
  }

  /** The same for all the blocks of a write of src at off. */
  ghost predicate Progress(sb: Superblock, m0: Image, m: Image, i: nat, off: nat, src: seq<Byte>, base: set<nat>,
                           logged: set<nat>) {
    && WroteBytes(m0, m, i, off, src)
    && Touched(m0, m, i, off / BSIZE, BlockEnd(off, |src|))
    && (forall b | b in logged && b !in base :: MayLog(sb, m0, m, i, off / BSIZE, BlockEnd(off, |src|), b))
  }

  /** A write that stopped before its end: the bytes up to some block boundary or the start, and no others. */
  ghost predicate WrotePart(m: Image, m': Image, i: nat, off: nat, src: seq<Byte>) {
    exists n: nat :: n < |src| && (n == 0 || (off + n) % BSIZE == 0) && WroteBytes(m, m', i, off, src[..n])
  }

  lemma {:induction false} StoppedAt(sb: Superblock, m0: Image, m: Image, m': Image, i: nat, off: nat, src: seq<Byte>,
                                     n: nat, base: set<nat>, logged: set<nat>)
    requires n < |src| && (n == 0 || (off + n) % BSIZE == 0) && SameBytes(m, m')
    requires Progress(sb, m0, m, i, off, src[..n], base, logged)
    ensures WrotePart(m0, m', i, off, src)
  {
    hide ByteAt;
    assert WroteBytes(m0, m', i, off, src[..n]);
  }

  lemma {:induction false} NoProgress(sb: Superblock, m: Image, i: nat, off: nat, logged: set<nat>, src: seq<Byte>)
    requires i < |m.ino| && off <= MAXFILE * BSIZE && src == []
    ensures Progress(sb, m, m, i, off, src, logged, logged)
  {
    WroteNothing(m, m, i, off);
  }

  lemma {:induction false} ProgressNext(sb: Superblock, m0: Image, m: Image, m': Image, i: nat, off: nat, a: seq<Byte>,
                                        b: seq<Byte>, c: seq<Byte>, base: set<nat>, logged: set<nat>, logged': set<nat>)
    requires Progress(sb, m0, m, i, off, a, base, logged)
    requires BlockWritten(sb, m, m', i, off + |a|, b, logged, logged')
    requires (off + |a|) / BSIZE == BlockEnd(off, |a|) && BlockEnd(off, |c|) == BlockEnd(off, |a|) + 1 && c == a + b
    ensures Progress(sb, m0, m', i, off, c, base, logged')
  {
    hide Word, WroteBytes, Touched, MayLog, MapLogs, ByteAt;
    var lo, hi := off / BSIZE, BlockEnd(off, |a|);
    var v := At(m', DataSlot(i, hi));
    WroteMore(m0, m, m', i, off, a, b);
    TouchNext(m0, m, m', i, lo, hi, v);
    LogsNext(sb, m0, m, m', i, lo, hi, v, base, logged, logged');
  }

  lemma {:induction false} TouchNext(m0: Image, m: Image, m': Image, i: nat, lo: nat, hi: nat, v: nat)
    requires Touched(m0, m, i, lo, hi) && hi < MAXFILE && Mapped(m, m', i, hi, v)
    requires At(m, DataSlot(i, hi)) != 0 ==> m'.ino == m.ino
    ensures Touched(m0, m', i, lo, hi + 1)
  {
    FillNext(m0, m, m', i, lo, hi, v);
    assert At(m, DataSlot(i, hi)) != 0 <==> At(m0, DataSlot(i, hi)) != 0 || lo <= hi < hi;
  }

  lemma {:induction false} FillNext(m0: Image, m: Image, m': Image, i: nat, lo: nat, hi: nat, v: nat)
    requires Filled(m0, m, i, lo, hi) && hi < MAXFILE && Mapped(m, m', i, hi, v)
    ensures Filled(m0, m', i, lo, hi + 1)
  {
    hide Word;
    forall bn | 0 <= bn < MAXFILE
      ensures At(m', DataSlot(i, bn)) != 0 <==> At(m0, DataSlot(i, bn)) != 0 || lo <= bn < hi + 1
    {
      assert At(m, DataSlot(i, bn)) != 0 <==> At(m0, DataSlot(i, bn)) != 0 || lo <= bn < hi;
      assert ValidSlot(m, DataSlot(i, bn));
      if bn != hi {
        assert DataSlot(i, bn) != DataSlot(i, hi);
      }
    }
    assert At(m, DataSlot(i, hi)) != 0 <==> At(m0, DataSlot(i, hi)) != 0 || lo <= hi < hi;
    assert ValidSlot(m, Indirect(i));
    forall t | ValidSlot(m0, t) && t.i != i ensures At(m', t) == At(m0, t) {
      assert ValidSlot(m, t);
    }
  }

  /** A patch at the right place of the right block, after a mapping that changed no byte, is a file write. */
  lemma {:induction false} PatchedFile(sb: Superblock, m0: Image, m1: Image, m2: Image, owner: seq<Owner>, i: nat,
                                       off: nat, src: seq<Byte>)
    requires Owned(sb, m1, owner, {}) && SameBytes(m0, m1) && i < |m1.ino| && off < MAXFILE * BSIZE
             && |src| <= BSIZE - off % BSIZE
    requires At(m1, DataSlot(i, off / BSIZE)) != 0 && At(m1, DataSlot(i, off / BSIZE)) < |m1.blk|
    requires m2 == Patched(m1, At(m1, DataSlot(i, off / BSIZE)), off % BSIZE, src)
    ensures WroteBytes(m0, m2, i, off, src)
  {
    var bn := off / BSIZE;
    forall k, x | 0 <= k < |m0.ino| && 0 <= x < MAXFILE * BSIZE
      ensures ByteAt(m2, k, x) == if k == i && off <= x < off + |src| then src[x - off] else ByteAt(m0, k, x)
    {
      PatchedBytes(sb, m1, owner, i, bn, off % BSIZE, src, k, x);
      assert ByteAt(m1, k, x) == ByteAt(m0, k, x);
    }
  }

  lemma {:induction false} PatchedSlots(sb: Superblock, m: Image, owner: seq<Owner>, s: Slot, x: nat, src: seq<Byte>)
    requires Owned(sb, m, owner, {}) && ValidSlot(m, s) && !s.Indirect? && At(m, s) != 0 && x + |src| <= BSIZE
    ensures At(m, s) < |m.blk|
    ensures var m' := Patched(m, At(m, s), x, src);
            forall t | ValidSlot(m, t) :: ValidSlot(m', t) && At(m', t) == At(m, t)
  {
    var m' := Patched(m, At(m, s), x, src);
    forall t | ValidSlot(m, t) ensures ValidSlot(m', t) && At(m', t) == At(m, t) {
      SlotUnmoved(m, m', owner, {}, {At(m, s)}, t);
    }
  }

  ghost predicate SameSlots(m: Image, m': Image) {
    |m'.ino| == |m.ino| && forall t | ValidSlot(m, t) :: ValidSlot(m', t) && At(m', t) == At(m, t)
  }

  /** Changing a size moves no slot and no byte. */
  lemma {:induction false} SizeOnly(sb: Superblock, m: Image, m': Image, owner: seq<Owner>, i: nat)
    requires Owned(sb, m, owner, {}) && i < |m.ino| && m'.blk == m.blk
    requires |m'.ino| == |m.ino| && m'.ino == m.ino[i := m.ino[i].(size := m'.ino[i].size)]
    ensures Owned(sb, m', owner, {}) && SameBytes(m, m')
    ensures SameSlots(m, m')
  {
    forall t | ValidSlot(m, t) || ValidSlot(m', t)
      ensures ValidSlot(m, t) && ValidSlot(m', t) && At(m', t) == At(m, t)
    {
    }
    forall k, x | 0 <= k < |m.ino| && 0 <= x < MAXFILE * BSIZE ensures ByteAt(m', k, x) == ByteAt(m, k, x) {
      assert ValidSlot(m, DataSlot(k, x / BSIZE));
    }
    forall c | 0 <= c < |owner| && owner[c].OwnedBy?
      ensures ValidSlot(m', owner[c].slot) && At(m', owner[c].slot) == c
    {
      assert ValidSlot(m, owner[c].slot);
    }
  }

  lemma {:induction false} StillFilled(m0: Image, m: Image, m': Image, i: nat, lo: nat, hi: nat)
    requires Filled(m0, m, i, lo, hi) && SameSlots(m, m')
    ensures Filled(m0, m', i, lo, hi)
  {
    hide Word;
    forall bn | 0 <= bn < MAXFILE ensures At(m', DataSlot(i, bn)) == At(m, DataSlot(i, bn)) {
      assert ValidSlot(m, DataSlot(i, bn));
    }
    assert ValidSlot(m, Indirect(i));
    forall t | ValidSlot(m0, t) && t.i != i ensures At(m', t) == At(m0, t) {
      assert ValidSlot(m, t);
    }
  }

  lemma {:induction false} LogsSame(sb: Superblock, m0: Image, m: Image, m': Image, i: nat, lo: nat, hi: nat)
    requires i < |m0.ino| == |m.ino| == |m'.ino| && lo <= hi <= MAXFILE
    requires SameSlots(m, m')
    ensures forall b | MayLog(sb, m0, m, i, lo, hi, b) :: MayLog(sb, m0, m', i, lo, hi, b)
  {
    forall bn | lo <= bn < hi ensures At(m', DataSlot(i, bn)) == At(m, DataSlot(i, bn)) {
      assert ValidSlot(m, DataSlot(i, bn));
    }
    LogsStable(sb, m0, m, m', i, lo, hi);
    assert ValidSlot(m, Indirect(i));
  }

  /** The next block written logs only what the longer range may log. */
  lemma {:induction false} LogsNext(sb: Superblock, m0: Image, m: Image, m': Image, i: nat, lo: nat, hi: nat, v: nat,
                                    base: set<nat>, logged: set<nat>, logged': set<nat>)
    requires Touched(m0, m, i, lo, hi) && hi < MAXFILE && Mapped(m, m', i, hi, v)
    requires forall b | b in logged && b !in base :: MayLog(sb, m0, m, i, lo, hi, b)
    requires forall b | b in logged' && b !in logged :: b == v || MapLogs(sb, m, m', i, hi, b)
    ensures forall b | b in logged' && b !in base :: MayLog(sb, m0, m', i, lo, hi + 1, b)
  {
    forall bn | lo <= bn < hi ensures At(m', DataSlot(i, bn)) == At(m, DataSlot(i, bn)) {
      assert ValidSlot(m, DataSlot(i, bn)) && At(m, DataSlot(i, bn)) != 0;
    }
    LogsStable(sb, m0, m, m', i, lo, hi);
    assert At(m, DataSlot(i, hi)) != 0 <==> At(m0, DataSlot(i, hi)) != 0 || lo <= hi < hi;
    assert ValidSlot(m, Indirect(i));
    assert v in Data(m', i, lo, hi + 1);
    forall b | b in logged' && b !in base ensures MayLog(sb, m0, m', i, lo, hi + 1, b) {
      if b !in logged && b != v {
        assert MapLogs(sb, m, m', i, hi, b);
      }
    }
  }

  /** The first block index past a write of n bytes at off. */
  function BlockEnd(off: nat, n: nat): (hi: nat)
  {
    if n == 0 then off / BSIZE else (off + n - 1) / BSIZE + 1
  }

  /** How many of the n bytes left the next round handles: up to the end of the block that x is in. */
  function PieceLen(x: nat, n: nat): (m: nat) { if n < BSIZE - x % BSIZE then n else BSIZE - x % BSIZE }

  /** The arithmetic of writei's step: each round starts at the block after the last one written. */
  lemma {:induction false} NextPiece(off: nat, tot: nat, n: nat, m: nat)
    requires tot < n && (0 < tot ==> off + tot == BlockEnd(off, tot) * BSIZE)
    requires m == PieceLen(off + tot, n - tot)
    ensures 0 < m <= n - tot && (off + tot) % BSIZE + m <= BSIZE && (off + tot) / BSIZE == BlockEnd(off, tot)
            && BlockEnd(off, tot + m) == BlockEnd(off, tot) + 1
    ensures tot + m < n ==> off + tot + m == BlockEnd(off, tot + m) * BSIZE
    ensures off + n <= MAXFILE * BSIZE ==> BlockEnd(off, tot) < MAXFILE
    ensures BlockEnd(off, tot) < BlockEnd(off, n)
  {
  }

  /** m' is m after a completed write: file i spliced, its inode otherwise the same, every other file untouched. */
  ghost predicate Written(m: Image, m': Image, i: nat, off: nat, src: seq<Byte>) {
    && i < |m.ino| == |m'.ino| && off <= m.ino[i].size
    && (forall k | 0 <= k < |m.ino| :: m.ino[k].size <= MAXFILE * BSIZE && m'.ino[k].size <= MAXFILE * BSIZE)
    && Content(m', i) == Splice(Content(m, i), off, src)
    && m'.ino[i] == m.ino[i].(size := |Content(m', i)|, addrs := m'.ino[i].addrs)
    && (forall k | 0 <= k < |m.ino| && k != i :: m'.ino[k] == m.ino[k] && Content(m', k) == Content(m, k))
  }

  /** What writei leaves behind once the size is settled. */
  lemma {:induction false} WriteDone(sb: Superblock, m0: Image, m1: Image, m2: Image, i: nat, off: nat, src: seq<Byte>,
                                     base: set<nat>, logged: set<nat>)
    requires Progress(sb, m0, m1, i, off, src, base, logged) && off + |src| <= MAXFILE * BSIZE
    requires off <= m0.ino[i].size && forall k | 0 <= k < |m0.ino| :: m0.ino[k].size <= MAXFILE * BSIZE
    requires SameBytes(m1, m2) && SameSlots(m1, m2)
    requires m2.ino ==
               if src != [] && off + |src| > m1.ino[i].size then m1.ino[i := m1.ino[i].(size := off + |src|)]
                   else m1.ino
    ensures Written(m0, m2, i, off, src)
    ensures NoHoles(m0, i) ==> NoHoles(m2, i)
    ensures m1.ino[i].size == m0.ino[i].size
    ensures NoHoles(m0, i) && off + |src| <= m0.ino[i].size ==> m2.ino == m0.ino
    ensures forall b | b in logged && b !in base :: MayLog(sb, m0, m2, i, off / BSIZE, BlockEnd(off, |src|), b)
    ensures Filled(m0, m2, i, off / BSIZE, BlockEnd(off, |src|))
  {
    StillFilled(m0, m1, m2, i, off / BSIZE, BlockEnd(off, |src|));
    forall k, x | 0 <= k < |m0.ino| && 0 <= x < MAXFILE * BSIZE
      ensures ByteAt(m2, k, x) == if k == i && off <= x < off + |src| then src[x - off] else ByteAt(m0, k, x)
    {
      assert ByteAt(m2, k, x) == ByteAt(m1, k, x);
    }
    WroteContent(m0, m2, i, off, src);
    LogsSame(sb, m0, m1, m2, i, off / BSIZE, BlockEnd(off, |src|));
    if NoHoles(m0, i) {
      WriteFillsExactly(m0, m1, m2, i, off, src);
    }
  }

  lemma {:induction false} WriteFillsExactly(m0: Image, m1: Image, m2: Image, i: nat, off: nat, src: seq<Byte>)
    requires Touched(m0, m1, i, off / BSIZE, BlockEnd(off, |src|)) && off <= m0.ino[i].size && NoHoles(m0, i)
    requires SameSlots(m1, m2)
    requires m2.ino ==
               if src != [] && off + |src| > m1.ino[i].size then m1.ino[i := m1.ino[i].(size := off + |src|)]
                   else m1.ino
    ensures NoHoles(m2, i)
    ensures off + |src| <= m0.ino[i].size ==> m2.ino == m0.ino
  {
    var lo, hi := off / BSIZE, BlockEnd(off, |src|);
    assert m1.ino[i].size == m0.ino[i].size;
    forall bn | 0 <= bn < MAXFILE ensures At(m2, DataSlot(i, bn)) != 0 <==> bn * BSIZE < m2.ino[i].size {
      assert ValidSlot(m1, DataSlot(i, bn));
      assert At(m0, DataSlot(i, bn)) != 0 <==> bn * BSIZE < m0.ino[i].size;
      assert lo <= bn < hi ==> bn * BSIZE < off + |src|;
      assert bn * BSIZE < off + |src| && m0.ino[i].size <= bn * BSIZE ==> lo <= bn < hi;
    }
    assert ValidSlot(m1, Indirect(i));
    if off + |src| <= m0.ino[i].size {
      forall bn | lo <= bn < hi ensures At(m0, DataSlot(i, bn)) != 0 {
        assert bn * BSIZE < off + |src|;
      }
    }
  }

  /** The bytes of one allocated block are the file's bytes there. */
  lemma {:induction false} PieceIsContent(m0: Image, m: Image, i: nat, x: nat, n: nat)
    requires SameBytes(m0, m) && i < |m.ino| && m0.ino[i].size <= MAXFILE * BSIZE
    requires x + n <= m0.ino[i].size && x % BSIZE + n <= BSIZE && x < MAXFILE * BSIZE
    requires 0 < At(m, DataSlot(i, x / BSIZE)) < |m.blk|
    ensures m.blk[At(m, DataSlot(i, x / BSIZE))].at[x % BSIZE..x % BSIZE + n] == Content(m0, i)[x..x + n]
  {
    hide Word;
    var p, q := m.blk[At(m, DataSlot(i, x / BSIZE))].at[x % BSIZE..x % BSIZE + n], Content(m0, i)[x..x + n];
    forall k | 0 <= k < n ensures p[k] == q[k] {
      SameBlock(x, k);
      assert q[k] == ByteAt(m0, i, x + k);
      assert ByteAt(m, i, x + k) == ByteAt(m0, i, x + k);
    }
  }

  lemma {:induction false} StillSameBytes(m0: Image, m1: Image, m2: Image)
    requires m1 == m0 || SameBytes(m0, m1)
    requires m2 == m1 || SameBytes(m1, m2)
    ensures SameBytes(m0, m2)
  {
    hide ByteAt;
  }

  lemma {:induction false} SliceMore(c: seq<Byte>, a: nat, b: nat, d: nat)
    requires a <= b <= d <= |c|
    ensures c[a..b] + c[b..d] == c[a..d]
  {
  }

  lemma {:induction false} NoHoleAt(m: Image, i: nat, x: nat)
    requires i < |m.ino| && x < m.ino[i].size <= MAXFILE * BSIZE
    ensures NoHoles(m, i) ==> At(m, DataSlot(i, x / BSIZE)) != 0
  {
    var bn := x / BSIZE;
    assert NoHoles(m, i) ==> (At(m, DataSlot(i, bn)) != 0 <==> bn * BSIZE < m.ino[i].size);
  }

  lemma {:induction false} SameBlock(x: nat, k: nat)
    requires x % BSIZE + k < BSIZE
    ensures (x + k) / BSIZE == x / BSIZE && (x + k) % BSIZE == x % BSIZE + k
  {
  }

  lemma {:induction false} MappedInRange(sb: Superblock, m: Image, m': Image, owner: seq<Owner>, i: nat, bn: nat,
                                         v: nat)
    requires Mapped(m, m', i, bn, v) && Owned(sb, m', owner, {})
    ensures i < |m'.ino| && At(m', DataSlot(i, bn)) == v && 0 < v < |m'.blk|
  {
    assert owner[v] == OwnedBy(DataSlot(i, bn));
  }

  // ---------- Truncation ----------

  /** A slot may be dropped when nothing hangs below it: for the table, all entries are freed or empty. */
  ghost predicate Droppable(m: Image, exempt: set<Slot>, s: Slot)
    requires ValidSlot(m, s)
  {
    && (s.Direct? ==> exempt == {})
    && (s.Indirect? ==> forall t | t in exempt :: t.i == s.i)
    && (s.Indirect? ==> forall j | 0 <= j < NINDIRECT :: Entry(s.i, j) in exempt || At(m, Entry(s.i, j)) == 0)
  }

  /** "freeing free block" is unreachable: a block stored in a slot is marked used. */
  lemma {:induction false} OwnedIsUsed(sb: Superblock, m: Image, owner: seq<Owner>, exempt: set<Slot>, s: Slot)
    requires Owned(sb, m, owner, exempt) && ValidSlot(m, s) && s !in exempt && At(m, s) != 0
    ensures At(m, s) < sb.size && BBlock(sb, At(m, s)) < |m.blk| && Used(sb, m.blk, At(m, s))
  {
    assert owner[At(m, s)] == OwnedBy(s);
    BitmapIsMeta(sb, At(m, s));
    assert BitMatches(sb, m.blk, owner, At(m, s));
  }

  /** Part of a truncation of file i: the slots in `done` have been freed, and cleared unless they are table entries. */
  ghost predicate Truncating(sb: Superblock, m0: Image, own0: seq<Owner>, m: Image, owner: seq<Owner>, i: nat,
                             done: set<Slot>) {
    && |m.blk| == |m0.blk| && |owner| == |own0| && i < |m.ino| == |m0.ino|
    && (forall t | t in done :: t.i == i && ValidSlot(m0, t) && At(m0, t) != 0)
    && (forall t | ValidSlot(m0, t) :: ValidSlot(m, t) && At(m, t) == if t in done && t.Direct? then 0 else At(m0, t))
    && (forall b | 0 <= b < |owner| :: owner[b] == if own0[b].OwnedBy? && own0[b].slot in done then Free else own0[b])
    && (forall b | sb.datastart <= b < |m.blk| :: m.blk[b] == m0.blk[b])
    && (forall k | 0 <= k < |m.ino| && k != i :: m.ino[k] == m0.ino[k])
    && m.ino[i] == m0.ino[i].(addrs := m.ino[i].addrs)
  }

  lemma {:induction false} TruncateStep(sb: Superblock, m0: Image, own0: seq<Owner>, m: Image, owner: seq<Owner>,
                                        i: nat, done: set<Slot>, s: Slot, exempt: set<Slot>)
    requires Truncating(sb, m0, own0, m, owner, i, done) && Owned(sb, m, owner, {}) && exempt == {}
    requires s.Direct? && s.i == i && ValidSlot(m, s) && At(m, s) != 0 && OwnersReal(m0, own0)
    ensures At(m, s) < sb.size && BBlock(sb, At(m, s)) < |m.blk|
    ensures Truncating(sb, m0, own0, Dropped(sb, m, s), owner[At(m, s) := Free], i, done + {s})
  {
    var b := At(m, s);
    assert owner[b] == OwnedBy(s);
    BitmapIsMeta(sb, b);
    var m' := Dropped(sb, m, s);
    assert ValidSlot(m0, s) && At(m0, s) == b;
    forall t | ValidSlot(m0, t)
      ensures ValidSlot(m', t) && At(m', t) == if t in done + {s} && t.Direct? then 0 else At(m0, t)
    {
      DroppedSlots(sb, m, owner, {}, s, t);
    }
    var owner' := owner[b := Free];
    forall c | 0 <= c < |owner'|
      ensures owner'[c] == if own0[c].OwnedBy? && own0[c].slot in done + {s} then Free else own0[c]
    {
      if own0[c].OwnedBy? && own0[c].slot == s {
        assert At(m0, s) == c;
      }
    }
  }

  lemma {:induction false} TruncateEntry(sb: Superblock, m0: Image, own0: seq<Owner>, m: Image, owner: seq<Owner>,
                                         i: nat, done: set<Slot>, s: Slot)
    requires Truncating(sb, m0, own0, m, owner, i, done) && Owned(sb, m, owner, done)
    requires s.Entry? && s.i == i && ValidSlot(m, s) && s !in done && At(m, s) != 0 && OwnersReal(m0, own0)
    ensures At(m, s) < sb.size && BBlock(sb, At(m, s)) < |m.blk|
    ensures var m', owner' := Freed(sb, m, At(m, s)), owner[At(m, s) := Free];
            Truncating(sb, m0, own0, m', owner', i, done + {s}) && Owned(sb, m', owner', done + {s})
  {
    var b := At(m, s);
    FreedEntry(sb, m, owner, done, s);
    assert owner[b] == OwnedBy(s);
    BitmapIsMeta(sb, b);
    var m' := Freed(sb, m, b);
    assert ValidSlot(m0, s) && At(m0, s) == b;
    forall t | ValidSlot(m0, t)
      ensures ValidSlot(m', t) && At(m', t) == if t in done + {s} && t.Direct? then 0 else At(m0, t)
    {
      FreedSlots(sb, m, owner, done, b, t);
    }
    var owner' := owner[b := Free];
    forall c | 0 <= c < |owner'|
      ensures owner'[c] == if own0[c].OwnedBy? && own0[c].slot in done + {s} then Free else own0[c]
    {
      if own0[c].OwnedBy? && own0[c].slot == s {
        assert At(m0, s) == c;
      }
    }
  }

  lemma {:induction false} NothingTruncated(sb: Superblock, m: Image, owner: seq<Owner>, i: nat)
    requires i < |m.ino|
    ensures Truncating(sb, m, owner, m, owner, i, {})
  {
  }

  /** Freeing blocks leaves the table's entries where they are. */
  lemma {:induction false} EntryStill(sb: Superblock, m0: Image, own0: seq<Owner>, m: Image, owner: seq<Owner>,
                                      i: nat, done: set<Slot>, j: nat)
    requires Truncating(sb, m0, own0, m, owner, i, done) && j < NINDIRECT
    ensures At(m, Entry(i, j)) == At(m0, Entry(i, j))
  {
    assert ValidSlot(m0, Entry(i, j));
  }

  lemma {:induction false} OwnedSizes(sb: Superblock, m: Image, owner: seq<Owner>, exempt: set<Slot>)
    requires Owned(sb, m, owner, exempt)
    ensures ValidSb(sb) && |m.blk| == |owner| == sb.size && OwnersReal(m, owner)
  {
  }

  /** The whole truncation, but for the size. */
  ghost predicate Emptied(sb: Superblock, m0: Image, own0: seq<Owner>, m: Image, owner: seq<Owner>, i: nat) {
    && |m.blk| == |m0.blk| && |owner| == |own0| && i < |m.ino| == |m0.ino|
    && (forall t | ValidSlot(m0, t) :: ValidSlot(m, t) && At(m, t) == if t.i == i then 0 else At(m0, t))
    && (forall b | 0 <= b < |owner| :: owner[b] == if own0[b].OwnedBy? && own0[b].slot.i == i then Free else own0[b])
    && (forall b | sb.datastart <= b < |m.blk| :: m.blk[b] == m0.blk[b])
    && (forall k | 0 <= k < |m.ino| && k != i :: m.ino[k] == m0.ino[k])
    && m.ino[i] == m0.ino[i].(addrs := m.ino[i].addrs, size := m.ino[i].size)
  }

  /** itrunc's result: file i owns nothing and is empty, its old blocks are free, and every other file is as before. */
  ghost predicate Truncated(sb: Superblock, m0: Image, own0: seq<Owner>, m: Image, owner: seq<Owner>, i: nat) {
    && Emptied(sb, m0, own0, m, owner, i) && m.ino[i].size == 0
    && (forall k | 0 <= k < |m0.ino| && k != i && m0.ino[k].size <= MAXFILE * BSIZE :: Content(m, k) == Content(m0, k))
  }

  /** Everything reachable from file i has been freed when both loops are done and no table is left. */
  lemma {:induction false} NoTable(sb: Superblock, m0: Image, own0: seq<Owner>, m1: Image, own1: seq<Owner>, i: nat,
                                   done: set<Slot>)
    requires Truncating(sb, m0, own0, m1, own1, i, done) && Owned(sb, m0, own0, {}) && 0 < sb.datastart
    requires forall k | 0 <= k < NDIRECT :: Direct(i, k) in done || At(m0, Direct(i, k)) == 0
    requires At(m1, Indirect(i)) == 0
    ensures Emptied(sb, m0, own0, m1, own1, i)
  {
    assert ValidSlot(m0, Indirect(i));
    forall b | 0 <= b < |own1| ensures own1[b] == if own0[b].OwnedBy? && own0[b].slot.i == i then Free else own0[b] {
      if own0[b].OwnedBy? && own0[b].slot.i == i {
        assert ValidSlot(m0, own0[b].slot) && At(m0, own0[b].slot) == b && own0[0] == Meta;
      }
    }
  }

  lemma {:induction false} TableDropped(sb: Superblock, m0: Image, own0: seq<Owner>, m1: Image, own1: seq<Owner>,
                                        m2: Image, own2: seq<Owner>, i: nat, done: set<Slot>, entries: set<Slot>)
    requires Truncating(sb, m0, own0, m1, own1, i, done) && Truncating(sb, m1, own1, m2, own2, i, entries)
    requires Owned(sb, m0, own0, {}) && Owned(sb, m2, own2, entries) && 0 < sb.datastart
    requires forall k | 0 <= k < NDIRECT :: Direct(i, k) in done || At(m0, Direct(i, k)) == 0
    requires forall t | t in entries :: t.Entry?
    requires Droppable(m2, entries, Indirect(i)) && At(m2, Indirect(i)) != 0
    ensures var b := At(m2, Indirect(i));
            b < sb.size && BBlock(sb, b) < |m2.blk|
                && Emptied(sb, m0, own0, Dropped(sb, m2, Indirect(i)), own2[b := Free], i)
  {
    hide Word, SetBit, ValidSb, OwnersReal, At;
    var s := Indirect(i);
    var b := At(m2, s);
    DroppedSlots(sb, m2, own2, entries, s, s);
    var m3, own3 := Dropped(sb, m2, s), own2[b := Free];
    forall t | ValidSlot(m0, t) ensures ValidSlot(m3, t) && At(m3, t) == if t.i == i then 0 else At(m0, t) {
      assert ValidSlot(m1, t) && ValidSlot(m2, t);
      DroppedSlots(sb, m2, own2, entries, s, t);
    }
    forall c | 0 <= c < |own3| ensures own3[c] == if own0[c].OwnedBy? && own0[c].slot.i == i then Free else own0[c] {
      TableDroppedOwner(sb, m0, own0, m1, own1, m2, own2, i, done, entries, c);
    }
    assert own2[b] == OwnedBy(s);
    BitmapIsMeta(sb, b);
  }

  lemma {:induction false} TableDroppedOwner(sb: Superblock, m0: Image, own0: seq<Owner>, m1: Image, own1: seq<Owner>,
                                             m2: Image, own2: seq<Owner>, i: nat, done: set<Slot>, entries: set<Slot>,
                                             c: nat)
    requires Truncating(sb, m0, own0, m1, own1, i, done) && Truncating(sb, m1, own1, m2, own2, i, entries)
    requires Owned(sb, m0, own0, {}) && Owned(sb, m2, own2, entries) && 0 < sb.datastart && c < |own0|
    requires forall k | 0 <= k < NDIRECT :: Direct(i, k) in done || At(m0, Direct(i, k)) == 0
    requires Droppable(m2, entries, Indirect(i)) && At(m2, Indirect(i)) != 0
    ensures (if c == At(m2, Indirect(i)) then Free else own2[c]) ==
              if own0[c].OwnedBy? && own0[c].slot.i == i then Free else own0[c]
  {
    hide Word;
    var b := At(m2, Indirect(i));
    assert ValidSlot(m0, Indirect(i)) && At(m0, Indirect(i)) == b && own0[b] == OwnedBy(Indirect(i)) && own0[0] == Meta;
    if own0[c].OwnedBy? && own0[c].slot.i == i {
      assert ValidSlot(m0, own0[c].slot) && At(m0, own0[c].slot) == c;
      assert ValidSlot(m1, own0[c].slot);
    }
  }

  lemma {:induction false} SizeEmptied(sb: Superblock, m0: Image, own0: seq<Owner>, m: Image, m': Image,
                                       owner: seq<Owner>, i: nat)
    requires Emptied(sb, m0, own0, m, owner, i) && SameSlots(m, m') && m'.blk == m.blk
    requires m'.ino == m.ino[i := m.ino[i].(size := 0)]
    ensures Emptied(sb, m0, own0, m', owner, i)
  {
  }

  /** An emptied file takes no other file's bytes with it. */
  lemma {:induction false} EmptiedFields(sb: Superblock, m0: Image, own0: seq<Owner>, m: Image, owner: seq<Owner>,
                                         i: nat)
    requires Emptied(sb, m0, own0, m, owner, i)
    ensures forall k | 0 <= k < 13 :: m.ino[i].addrs[k] == 0
  {
    hide Word;
    forall k | 0 <= k < 13 ensures m.ino[i].addrs[k] == 0 {
      assert ValidSlot(m0, if k < NDIRECT then Direct(i, k) else Indirect(i));
    }
  }

  lemma {:induction false} EmptiedContents(sb: Superblock, m0: Image, own0: seq<Owner>, m: Image, owner: seq<Owner>,
                                           i: nat)
    requires Emptied(sb, m0, own0, m, owner, i) && Owned(sb, m0, own0, {})
    ensures forall k | 0 <= k < |m0.ino| && k != i && m0.ino[k].size <= MAXFILE * BSIZE ::
              Content(m, k) == Content(m0, k)
  {
    forall k | 0 <= k < |m0.ino| && k != i && m0.ino[k].size <= MAXFILE * BSIZE
      ensures Content(m, k) == Content(m0, k)
    {
      forall x | 0 <= x < m0.ino[k].size ensures ByteAt(m, k, x) == ByteAt(m0, k, x) {
        var t := DataSlot(k, x / BSIZE);
        assert ValidSlot(m0, t);
        if At(m0, t) != 0 {
          assert own0[At(m0, t)] == OwnedBy(t);
        }
      }
    }
  }

  // ---------- filewrite ----------

  /** filewrite's chunk in bytes. */
  const CHUNK: nat := 1536

  /** How many chunks n bytes take. */
  function Chunks(n: nat): (k: nat) { (n + CHUNK - 1) / CHUNK }

  /** Every transaction from the n-th on logged at most `most` distinct blocks. */
  ghost predicate SmallSince(ended: seq<Journal>, n: nat, most: nat) {
    forall k | n <= k < |ended| :: |ended[k].logged| <= most
  }

  /** filewrite has done k rounds when it has written `done` of n bytes. */
  ghost predicate Rounds(done: nat, n: nat, k: nat) {
    if done < n then done == k * CHUNK else done == n && k == Chunks(n)
  }

  lemma {:induction false} NoRounds(m: Image, i: nat, off: nat, src: seq<Byte>, ended: seq<Journal>, free: nat)
    requires i < |m.ino| && m.ino[i].size <= MAXFILE * BSIZE
    ensures Going(m, m, i, off, src, 0, free, free) && Rounds(0, |src|, 0)
    ensures SmallSince(ended, |ended|, MAXOPBLOCKS) && SmallSince(ended, |ended|, 7)
  {
    if off <= m.ino[i].size {
      TookNothing(m, i, off, free);
    }
  }

  lemma {:induction false} NextRound(done: nat, n: nat, k: nat, n1: nat)
    requires Rounds(done, n, k) && done < n && n1 == if n - done > CHUNK then CHUNK else n - done
    ensures Rounds(done + n1, n, k + 1)
  {
  }

  lemma {:induction false} AllRounds(done: nat, n: nat, k: nat)
    requires Rounds(done, n, k) && done >= n
    ensures done == n && k == Chunks(n)
  {
  }

  lemma {:induction false} OneMore(ended: seq<Journal>, n: nat, j: Journal)
    requires n <= |ended|
    ensures forall most | SmallSince(ended, n, most) && |j.logged| <= most :: SmallSince(ended + [j], n, most)
  {
  }

  /** How many of n bytes at off the chunks write before one would pass the maximal file size. */
  function Fits(off: nat, n: nat): (k: nat)
    ensures k <= n && (off <= MAXFILE * BSIZE ==> off + k <= MAXFILE * BSIZE)
  {
    if off + n <= MAXFILE * BSIZE then n
    else if off <= MAXFILE * BSIZE then (MAXFILE * BSIZE - off) / CHUNK * CHUNK
    else 0
  }

  lemma {:induction false} FitsAll(off: nat, n: nat)
    ensures off + n <= MAXFILE * BSIZE ==> Fits(off, n) == n
  {
  }

  lemma {:induction false} FitsStop(off: nat, done: nat, n: nat, n1: nat, k: nat)
    requires Rounds(done, n, k) && done < n && n1 == if n - done > CHUNK then CHUNK else n - done
    requires off + done <= MAXFILE * BSIZE
    ensures if off + done + n1 <= MAXFILE * BSIZE then done + n1 <= Fits(off, n) else Fits(off, n) == done
  {
  }

  /** The blocks that n bytes at off touch need more than the free blocks: bmap will run out. */
  ghost predicate Short(m: Image, i: nat, off: nat, n: nat, free: nat)
    requires i < |m.ino| && off + n <= MAXFILE * BSIZE
  {
    Needs(m, i, off / BSIZE, BlockEnd(off, n)) > free
  }

  /** From m0 to m the blocks lo..hi of file i were allocated where missing, out of free0 free blocks. */
  ghost predicate Took(m0: Image, m: Image, i: nat, lo: nat, hi: nat, free0: nat, free: nat) {
    Filled(m0, m, i, lo, hi) && free == free0 - Needs(m0, i, lo, hi)
  }

  lemma {:induction false} TookNothing(m: Image, i: nat, off: nat, free: nat)
    requires i < |m.ino| && off <= MAXFILE * BSIZE
    ensures Took(m, m, i, off / BSIZE, BlockEnd(off, 0), free, free)
  {
  }

  /** One call of bmap in terms of the whole range off..off + n, of which tot bytes are done. */
  lemma {:induction false} MapStep(m0: Image, m1: Image, m2: Image, i: nat, off: nat, tot: nat, n: nat, m: nat, v: nat,
                                   free0: nat, free1: nat, free2: nat)
    requires tot < n && off + n <= MAXFILE * BSIZE && (0 < tot ==> off + tot == BlockEnd(off, tot) * BSIZE)
    requires m == PieceLen(off + tot, n - tot)
    requires Took(m0, m1, i, off / BSIZE, BlockEnd(off, tot), free0, free1)
    ensures 0 < m && tot + m <= n && (off + tot) % BSIZE + m <= BSIZE
            && (tot + m < n ==> off + (tot + m) == BlockEnd(off, tot + m) * BSIZE)
    ensures i < |m0.ino| == |m1.ino| && (off + tot) / BSIZE < MAXFILE
    ensures if Need(m1, i, (off + tot) / BSIZE) > free1 then Short(m0, i, off, n, free0)
            else Mapped(m1, m2, i, (off + tot) / BSIZE, v) && free2 == free1 - Need(m1, i, (off + tot) / BSIZE) ==>
                   Took(m0, m2, i, off / BSIZE, BlockEnd(off, tot + m), free0, free2)
  {
    hide Need, Needs, Mapped;
    NextPiece(off, tot, n, m);
    var lo, mid, hi := off / BSIZE, BlockEnd(off, tot), BlockEnd(off, n);
    NeedsNext(m0, m1, i, lo, mid, hi);
    if Mapped(m1, m2, i, mid, v) {
      FillNext(m0, m1, m2, i, lo, mid, v);
    }
  }

  /** What later blocks need now is what the whole range needed more. */
  lemma {:induction false} NeedsSplit(m0: Image, m1: Image, i: nat, lo: nat, mid: nat, lo2: nat, hi: nat)
    requires Filled(m0, m1, i, lo, mid) && lo <= lo2 <= mid <= hi <= MAXFILE
    ensures Needs(m0, i, lo, hi) == Needs(m0, i, lo, mid) + Needs(m1, i, lo2, hi)
    decreases hi
  {
    hide Word;
    MissingNone(m1, i, lo2, mid);
    if mid < hi {
      NeedsSplit(m0, m1, i, lo, mid, lo2, hi - 1);
      assert At(m1, DataSlot(i, hi - 1)) != 0 <==> At(m0, DataSlot(i, hi - 1)) != 0 || lo <= hi - 1 < mid;
    }
  }

  lemma {:induction false} MissingNone(m: Image, i: nat, lo: nat, hi: nat)
    requires i < |m.ino| && lo <= hi <= MAXFILE && forall bn | lo <= bn < hi :: At(m, DataSlot(i, bn)) != 0
    ensures Missing(m, i, lo, hi) == 0
  {
    if lo < hi {
      MissingNone(m, i, lo, hi - 1);
    }
  }

  lemma {:induction false} TookMore(m0: Image, m1: Image, m2: Image, i: nat, lo: nat, mid: nat, lo2: nat, hi: nat,
                                    free0: nat, free1: nat, free2: nat)
    requires Took(m0, m1, i, lo, mid, free0, free1) && Took(m1, m2, i, lo2, hi, free1, free2) && lo <= lo2 <= mid <= hi
    ensures Took(m0, m2, i, lo, hi, free0, free2)
  {
    hide Word, Needs;
    NeedsSplit(m0, m1, i, lo, mid, lo2, hi);
    forall bn | 0 <= bn < MAXFILE
      ensures At(m2, DataSlot(i, bn)) != 0 <==> At(m0, DataSlot(i, bn)) != 0 || lo <= bn < hi
    {
      assert At(m1, DataSlot(i, bn)) != 0 <==> At(m0, DataSlot(i, bn)) != 0 || lo <= bn < mid;
    }
    forall t | ValidSlot(m0, t) && t.i != i ensures At(m2, t) == At(m0, t) {
      assert ValidSlot(m1, t);
    }
  }

  /** A chunk at byte `done` continues the range of blocks begun at off. */
  lemma {:induction false} ChunkRange(off: nat, done: nat, n1: nat)
    requires 0 < n1 && off + done + n1 <= MAXFILE * BSIZE
    ensures BlockEnd(off + done, n1) == BlockEnd(off, done + n1) <= MAXFILE
    ensures off / BSIZE <= (off + done) / BSIZE <= BlockEnd(off, done) <= BlockEnd(off, done + n1)
  {
  }

  lemma {:induction false} WriteStep(sb: Superblock, m0: Image, m1: Image, m2: Image, i: nat, off: nat, tot: nat,
                                     n: nat, src: seq<Byte>, logged1: set<nat>, logged2: set<nat>, free0: nat,
                                         free1: nat, free2: nat)
    requires tot < n && off + n <= MAXFILE * BSIZE && (0 < tot ==> off + tot == BlockEnd(off, tot) * BSIZE)
    requires |src| == PieceLen(off + tot, n - tot)
    requires Took(m0, m1, i, off / BSIZE, BlockEnd(off, tot), free0, free1)
    ensures i < |m0.ino| == |m1.ino| && (off + tot) / BSIZE < MAXFILE
    ensures if Need(m1, i, (off + tot) / BSIZE) > free1 then Short(m0, i, off, n, free0)
            else BlockWritten(sb, m1, m2, i, off + tot, src, logged1, logged2)
                 && free2 == free1 - Need(m1, i, (off + tot) / BSIZE) ==>
                   Took(m0, m2, i, off / BSIZE, BlockEnd(off, tot + |src|), free0, free2)
  {
    hide Need, Mapped, Took, Short;
    MapStep(m0, m1, m2, i, off, tot, n, |src|, 0, free0, free1, free2);
    if BlockWritten(sb, m1, m2, i, off + tot, src, logged1, logged2) {
      var v := At(m2, DataSlot(i, (off + tot) / BSIZE));
      MapStep(m0, m1, m2, i, off, tot, n, |src|, v, free0, free1, free2);
    }
  }

  /**
  One chunk of filewrite in terms of the whole write: it panics only if the whole write is short, it
  fails only at the end of what fits, and otherwise it takes what the range so far needs.
  */
  lemma {:induction false} ChunkStep(m0: Image, m1: Image, m2: Image, i: nat, off: nat, done: nat, n: nat, n1: nat,
                                     k: nat, free0: nat, free1: nat, free2: nat)
    requires Rounds(done, n, k) && done < n && n1 == (if n - done > CHUNK then CHUNK else n - done)
    requires off + done <= MAXFILE * BSIZE && Took(m0, m1, i, off / BSIZE, BlockEnd(off, done), free0, free1)
    ensures i < |m0.ino| == |m1.ino|
    ensures if off + done + n1 > MAXFILE * BSIZE then Fits(off, n) == done && !Short(m0, i, off, done, free0)
            else if Short(m1, i, off + done, n1, free1) then Short(m0, i, off, Fits(off, n), free0)
            else Took(m1, m2, i, (off + done) / BSIZE, BlockEnd(off + done, n1), free1, free2) ==>
                   Took(m0, m2, i, off / BSIZE, BlockEnd(off, done + n1), free0, free2)
  {
    hide Needs;
    FitsStop(off, done, n, n1, k);
    if off + done + n1 <= MAXFILE * BSIZE {
      var lo, mid, lo2, hi := off / BSIZE, BlockEnd(off, done), (off + done) / BSIZE, BlockEnd(off, done + n1);
      ChunkRange(off, done, n1);
      NeedsSplit(m0, m1, i, lo, mid, lo2, hi);
      NeedsFit(m0, i, off, done + n1, n);
      if Took(m1, m2, i, lo2, hi, free1, free2) {
        TookMore(m0, m1, m2, i, lo, mid, lo2, hi, free0, free1, free2);
      }
    }
  }

  lemma {:induction false} NeedsFit(m: Image, i: nat, off: nat, k: nat, n: nat)
    requires i < |m.ino| && off <= MAXFILE * BSIZE && k <= Fits(off, n)
    ensures BlockEnd(off, k) <= BlockEnd(off, Fits(off, n)) <= MAXFILE
    ensures Needs(m, i, off / BSIZE, BlockEnd(off, k)) <= Needs(m, i, off / BSIZE, BlockEnd(off, Fits(off, n)))
  {
    NeedsGrow(m, i, off / BSIZE, BlockEnd(off, k), BlockEnd(off, Fits(off, n)));
  }

  /** filewrite has written `done` bytes of src, from image m0 with free0 free blocks to image m with free of them. */
  ghost predicate Going(m0: Image, m: Image, i: nat, off: nat, src: seq<Byte>, done: nat, free0: nat, free: nat) {
    && done <= |src| && i < |m0.ino| == |m.ino| && m.ino[i].typ == m0.ino[i].typ && m0.ino[i].size <= MAXFILE * BSIZE
    && WrittenOrSame(m0, m, i, off, src[..done])
    && (if done == 0 then m == m0 && free == free0
        else off <= m0.ino[i].size && off + done <= m.ino[i].size && off + done <= MAXFILE * BSIZE
             && m.ino[i].typ != T_DEV)
    && (off <= m0.ino[i].size ==> Took(m0, m, i, off / BSIZE, BlockEnd(off, done), free0, free))
  }

  /** What each result of the next chunk means for the whole write. */
  lemma {:induction false} GoingNext(m0: Image, m1: Image, m2: Image, i: nat, off: nat, src: seq<Byte>, done: nat,
                                     n1: nat, k: nat, free0: nat, free1: nat, free2: nat, r: Outcome)
    requires Going(m0, m1, i, off, src, done, free0, free1) && Rounds(done, |src|, k) && done < |src|
    requires n1 == (if |src| - done > CHUNK then CHUNK else |src| - done)
    requires r.Device? <==> m1.ino[i].typ == T_DEV
    requires r.Error? <==> m1.ino[i].typ != T_DEV && (m1.ino[i].size < off + done || off + done + n1 > MAXFILE * BSIZE)
    requires r.Panic? <==>
               && m1.ino[i].typ != T_DEV && off + done <= m1.ino[i].size && off + done + n1 <= MAXFILE * BSIZE
               && Short(m1, i, off + done, n1, free1)
    requires r.Ok? ==> Written(m1, m2, i, off + done, src[done..done + n1])
    requires r.Ok? ==> Took(m1, m2, i, (off + done) / BSIZE, BlockEnd(off + done, n1), free1, free2)
    ensures r.Ok? ==> Going(m0, m2, i, off, src, done + n1, free0, free2) && off + done + n1 <= MAXFILE * BSIZE
    ensures r.Device? ==> m0.ino[i].typ == T_DEV && m1 == m0
    ensures !r.Device? ==> m0.ino[i].typ != T_DEV
    ensures r.Error? ==> off > m0.ino[i].size || off + |src| > MAXFILE * BSIZE
    ensures r.Error? ==> WrittenOrSame(m0, m1, i, off, src[..done])
    ensures r.Error? && off <= m0.ino[i].size ==>
              done == Fits(off, |src|) && !Short(m0, i, off, Fits(off, |src|), free0)
    ensures r.Panic? ==> off <= m0.ino[i].size && Short(m0, i, off, Fits(off, |src|), free0)
  {
    hide WrittenOrSame, Written, Took, Short, BlockEnd, Fits, Rounds;
    if off <= m0.ino[i].size {
      ChunkStep(m0, m1, m2, i, off, done, |src|, n1, k, free0, free1, free2);
    }
    if r.Ok? {
      WrittenNext(m0, m1, m2, i, off, src[..done], src[done..done + n1], src[..done + n1]);
    }
  }

  lemma {:induction false} GoneAll(m0: Image, m: Image, i: nat, off: nat, src: seq<Byte>, free0: nat, free: nat)
    requires Going(m0, m, i, off, src, |src|, free0, free)
    ensures WrittenOrSame(m0, m, i, off, src)
    ensures src != [] ==> off <= m0.ino[i].size && off + |src| <= MAXFILE * BSIZE && m0.ino[i].typ != T_DEV
    ensures off <= m0.ino[i].size ==> !Short(m0, i, off, Fits(off, |src|), free0)
  {
    hide WrittenOrSame, Short, BlockEnd;
    assert src[..|src|] == src;
    FitsAll(off, |src|);
    if off <= m0.ino[i].size {
      NotShort(m0, m, i, off, |src|, free0, free);
    }
  }

  lemma {:induction false} NotShort(m0: Image, m: Image, i: nat, off: nat, n: nat, free0: nat, free: nat)
    requires off + n <= MAXFILE * BSIZE && Took(m0, m, i, off / BSIZE, BlockEnd(off, n), free0, free)
    ensures !Short(m0, i, off, n, free0)
  {
  }

  // ---------- What transactions leave behind ----------

  /** What was there before the k-th transaction. */
  ghost function Before(base: Journal, ended: seq<Journal>, k: nat): (j: Journal)
    requires k <= |ended|
  {
    if k == 0 then base else ended[k - 1]
  }

  /** Blocks and inode table of a file system whose every used block has exactly one reference, and no file a hole. */
  ghost predicate Sound(sb: Superblock, j: Journal) {
    && ValidSb(sb) && |j.blk| == sb.size && |j.dino| == sb.ninodes && 0 < sb.datastart
    && ExactlyOneReference(sb, Image(j.blk, j.dino))
    && (forall i | 0 <= i < |j.dino| :: j.dino[i].size <= MAXFILE * BSIZE && NoHoles(Image(j.blk, j.dino), i))
  }

  /** Every transaction left a sound file system, and logged what it changed. */
  ghost predicate Kept(sb: Superblock, base: Journal, ended: seq<Journal>) {
    && Sound(sb, base)
    && (forall k | 0 <= k < |ended| ::
          Sound(sb, ended[k]) && Covers(sb, Before(base, ended, k).(logged := {}), ended[k]))
  }

  lemma {:induction false} KeptMore(sb: Superblock, j: Journal, base: Journal, ended: seq<Journal>, j': Journal,
                                    owner: seq<Owner>)
    requires Kept(sb, base, ended) && Covers(sb, j.(logged := {}), j')
    requires Before(base, ended, |ended|).blk == j.blk && Before(base, ended, |ended|).dino == j.dino
    requires Owned(sb, Image(j'.blk, j'.dino), owner, {}) && 0 < sb.datastart
    requires (forall b | 0 <= b < |owner| :: owner[b] != Held)
    requires forall i | 0 <= i < |j'.dino| :: j'.dino[i].size <= MAXFILE * BSIZE && NoHoles(Image(j'.blk, j'.dino), i)
    ensures Kept(sb, base, ended + [j'])
  {
    hide Covers, ExactlyOneReference, Owned, NoHoles;
    SoundNow(sb, j', owner);
    var more := ended + [j'];
    forall k | 0 <= k < |more|
      ensures Sound(sb, more[k]) && Covers(sb, Before(base, more, k).(logged := {}), more[k])
    {
      if k < |ended| {
        assert more[k] == ended[k] && Before(base, more, k) == Before(base, ended, k);
      } else {
        assert Before(base, more, k).(logged := {}) == j.(logged := {});
      }
    }
  }

  lemma {:induction false} SoundNow(sb: Superblock, j: Journal, owner: seq<Owner>)
    requires Owned(sb, Image(j.blk, j.dino), owner, {}) && 0 < sb.datastart
    requires (forall b | 0 <= b < |owner| :: owner[b] != Held)
    requires forall i | 0 <= i < |j.dino| :: j.dino[i].size <= MAXFILE * BSIZE && NoHoles(Image(j.blk, j.dino), i)
    ensures Sound(sb, j)
  {
    OwnedMeansOneReference(sb, Image(j.blk, j.dino), owner);
  }

  /** A write to file i makes no holes in the others. */
  lemma {:induction false} OthersNoHoles(m: Image, m': Image, i: nat, lo: nat, hi: nat, off: nat, src: seq<Byte>)
    requires Filled(m, m', i, lo, hi) && Written(m, m', i, off, src)
    ensures forall k | 0 <= k < |m.ino| && k != i && NoHoles(m, k) :: NoHoles(m', k)
  {
    hide Word, ByteAt;
    forall k | 0 <= k < |m.ino| && k != i && NoHoles(m, k) ensures NoHoles(m', k) {
      forall bn | 0 <= bn < MAXFILE ensures At(m', DataSlot(k, bn)) == At(m, DataSlot(k, bn)) {
        assert ValidSlot(m, DataSlot(k, bn));
      }
      assert ValidSlot(m, Indirect(k));
    }
  }

  lemma {:induction false} TruncatedNoHoles(sb: Superblock, m: Image, own: seq<Owner>, m': Image, owner: seq<Owner>,
                                            i: nat)
    requires Truncated(sb, m, own, m', owner, i) && forall k | 0 <= k < |m.ino| :: NoHoles(m, k)
    ensures m'.ino == m.ino[i := m'.ino[i]] && forall k | 0 <= k < |m.ino| :: NoHoles(m', k)
  {
    hide Word, ByteAt;
    forall k | 0 <= k < |m.ino| ensures NoHoles(m', k) {
      forall bn | 0 <= bn < MAXFILE
        ensures At(m', DataSlot(k, bn)) == if k == i then 0 else At(m, DataSlot(k, bn))
      {
        assert ValidSlot(m, DataSlot(k, bn));
      }
      assert ValidSlot(m, Indirect(k)) && NoHoles(m, k);
    }
  }

  /** A completed write, or nothing at all when there was nothing to write. */
  ghost predicate WrittenOrSame(m: Image, m': Image, i: nat, off: nat, src: seq<Byte>) {
    if src == [] then m' == m else Written(m, m', i, off, src)
  }

  lemma {:induction false} WrittenNext(m0: Image, m1: Image, m2: Image, i: nat, off: nat, a: seq<Byte>, b: seq<Byte>,
                                       c: seq<Byte>)
    requires WrittenOrSame(m0, m1, i, off, a) && Written(m1, m2, i, off + |a|, b) && c == a + b && b != []
    ensures WrittenOrSame(m0, m2, i, off, c) && off <= m0.ino[i].size && off + |c| <= m2.ino[i].size
    ensures m2.ino[i].typ == m1.ino[i].typ && |m2.ino| == |m1.ino|
  {
    hide ByteAt, Word;
    if a == [] {
      assert c == b;
    } else {
      SpliceTwice(Content(m0, i), off, a, b);
    }
  }

  /** One chunk of filewrite fits in a transaction: ten blocks, or seven when the free map is a single block. */
  lemma {:induction false} ChunkBudget(sb: Superblock, m: Image, m': Image, owner: seq<Owner>, i: nat, off: nat,
                                       src: seq<Byte>, logged: set<nat>)
    requires i < |m.ino| == |m'.ino| && NoHoles(m, i) && off <= m.ino[i].size
    requires 0 < |src| <= CHUNK && off + |src| <= MAXFILE * BSIZE && Owned(sb, m', owner, {})
    requires forall b | b in logged :: b == IBlock(sb, i) || MayLog(sb, m, m', i, off / BSIZE, BlockEnd(off, |src|), b)
    ensures |logged| <= MAXOPBLOCKS
    ensures sb.size <= BPB ==> |logged| <= 7
  {
    hide MayLog, NoHoles, Word;
    var lo, hi := off / BSIZE, BlockEnd(off, |src|);
    assert lo < hi <= MAXFILE && hi - lo <= 4;
    LogBudget(sb, m, m', i, lo, hi, logged, IBlock(sb, i));
    MissingBeyondSize(m, i, lo, hi);
    if off % BSIZE == 0 {
      assert hi - lo <= 3;
    } else {
      assert lo * BSIZE < off;
    }
    if sb.size <= BPB {
      SlotsInRange(sb, m', owner, i, lo, hi);
      LogBudgetOneMap(sb, m, m', i, lo, hi, logged, IBlock(sb, i));
    }
  }

  lemma {:induction false} SlotsInRange(sb: Superblock, m: Image, owner: seq<Owner>, i: nat, lo: nat, hi: nat)
    requires Owned(sb, m, owner, {}) && i < |m.ino| && lo < hi <= MAXFILE
    ensures At(m, Indirect(i)) < sb.size && forall bn | lo <= bn < hi :: At(m, DataSlot(i, bn)) < sb.size
  {
    assert ValidSlot(m, Indirect(i));
    forall bn | lo <= bn < hi ensures At(m, DataSlot(i, bn)) < sb.size {
      assert ValidSlot(m, DataSlot(i, bn));
    }
  }
}
