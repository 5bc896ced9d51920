/**
The file system on the logged disk.  Inodes are stored in the inode blocks as struct dinode; the disk of
a file system is its blocks with these.  Transactions that log what they change, as those of module Fs
do, keep every disk that recovery can produce sound, and recovery ends between two of them.
*/
module CrashFs {
  import opened Blocks
  import opened CrashLog
  import opened FsImage
  import Fs

  // ---------- Inodes on disk ----------

  /** The 32-bit words of struct dinode: type and major, minor and nlink, size, the block numbers. */
  function InodeWord(x: Inode, w: nat): (r: Word32)
    requires w < 16 && x.size < 0x1_0000_0000
  {
    if w == 0 then x.typ + 0x1_0000 * x.major
    else if w == 1 then x.minor + 0x1_0000 * x.nlink
    else if w == 2 then x.size
    else x.addrs[w - 3]
  }

  function ByteOf(w: Word32, k: nat): (b: Byte)
    requires k < 4
  {
    if k == 0 then w % 0x100 else if k == 1 then w / 0x100 % 0x100
    else if k == 2 then w / 0x1_0000 % 0x100 else w / 0x100_0000
  }

  function FromWords(f: seq<Word32>): (b: Block)
    requires |f| == NWORDS
  {
    Bytes(seq(BSIZE, x requires 0 <= x < BSIZE => ByteOf(f[x / 4], x % 4)))
  }

  lemma {:induction false} FromWordsAt(f: seq<Word32>, j: nat)
    requires |f| == NWORDS && j < NWORDS
    ensures Word(FromWords(f), j) == f[j]
  {
    var b := FromWords(f);
    assert b.at[4 * j] == ByteOf(f[j], 0) && b.at[4 * j + 1] == ByteOf(f[j], 1);
    assert b.at[4 * j + 2] == ByteOf(f[j], 2) && b.at[4 * j + 3] == ByteOf(f[j], 3);
    Digits(f[j]);
  }

  /** Word w of the n-th inode block; what lies past the last inode is left alone. */
  function TableWord(was: Block, dino: seq<Inode>, n: nat, w: nat): (r: Word32)
    requires w < NWORDS && forall i | 0 <= i < |dino| :: dino[i].size < 0x1_0000_0000
  {
    var i := n * IPB + w / 16;
    if i < |dino| then InodeWord(dino[i], w % 16) else Word(was, w)
  }

  function TableBlock(was: Block, dino: seq<Inode>, n: nat): (b: Block)
    requires forall i | 0 <= i < |dino| :: dino[i].size < 0x1_0000_0000
  {
    FromWords(seq(NWORDS, w requires 0 <= w < NWORDS => TableWord(was, dino, n, w)))
  }

  /** Whether block b holds inodes. */
  predicate InTable(sb: Superblock, b: nat) { sb.inodestart <= b && (b - sb.inodestart) * IPB < sb.ninodes }

  /** The disk blocks of a file system: its blocks, with the inode table in the inode blocks. */
  function DiskOf(sb: Superblock, j: Fs.Journal): (d: Contents)
    requires |j.dino| == sb.ninodes && forall i | 0 <= i < |j.dino| :: j.dino[i].size < 0x1_0000_0000
    ensures |d| == |j.blk|
  {
    seq(|j.blk|, b requires 0 <= b < |j.blk| =>
      if InTable(sb, b) then TableBlock(j.blk[b], j.dino, b - sb.inodestart) else j.blk[b])
  }

  function AddrsAt(b: Block, w: nat): (a: Addrs)
    requires w + 13 <= NWORDS
    ensures forall k | 0 <= k < 13 :: a[k] == Word(b, w + k)
  {
    [Word(b, w), Word(b, w + 1), Word(b, w + 2), Word(b, w + 3), Word(b, w + 4), Word(b, w + 5), Word(b, w + 6),
     Word(b, w + 7), Word(b, w + 8), Word(b, w + 9), Word(b, w + 10), Word(b, w + 11), Word(b, w + 12)]
  }

  /** Reading inode i as ilock does. */
  function Dinode(sb: Superblock, d: Contents, i: nat): (x: Inode)
    requires IBlock(sb, i) < |d|
  {
    var b, w := d[IBlock(sb, i)], i % IPB * 16;
    Inode(Word(b, w) % 0x1_0000, Word(b, w + 2), AddrsAt(b, w + 3),
          Word(b, w) / 0x1_0000, Word(b, w + 1) % 0x1_0000, Word(b, w + 1) / 0x1_0000)
  }

  lemma {:induction false} InodeBlocks(sb: Superblock, i: nat)
    requires ValidSb(sb) && i < sb.ninodes
    ensures IBlock(sb, i) < sb.bmapstart <= sb.size && InTable(sb, IBlock(sb, i))
  {
  }

  /** The file system that a disk holds. */
  function ImageOf(sb: Superblock, d: Contents): (m: Image)
    requires ValidSb(sb) && |d| == sb.size
    ensures m.blk == d && |m.ino| == sb.ninodes
  {
    Image(d, seq(sb.ninodes, i requires 0 <= i < sb.ninodes => InodeBlocks(sb, i); Dinode(sb, d, i)))
  }

  lemma {:induction false} TableRead(was: Block, dino: seq<Inode>, n: nat, i: nat, k: nat)
    requires (forall i | 0 <= i < |dino| :: dino[i].size < 0x1_0000_0000) && i < |dino| && n == i / IPB && k < 16
    ensures Word(TableBlock(was, dino, n), i % IPB * 16 + k) == InodeWord(dino[i], k)
  {
    var w := i % IPB * 16 + k;
    FromWordsAt(seq(NWORDS, w requires 0 <= w < NWORDS => TableWord(was, dino, n, w)), w);
    assert w / 16 == i % IPB && w % 16 == k && n * IPB + i % IPB == i;
  }

  /** An inode reads back from the disk as it was stored. */
  lemma {:induction false} DinodeRoundTrip(sb: Superblock, j: Fs.Journal, i: nat)
    requires Fs.Sound(sb, j) && i < sb.ninodes
    ensures IBlock(sb, i) < sb.size && Dinode(sb, DiskOf(sb, j), i) == j.dino[i]
  {
    hide Fs.Sound, ExactlyOneReference, Word, TableBlock;
    SoundSizes(sb, j);
    InodeBlocks(sb, i);
    var b, x, w := IBlock(sb, i), j.dino[i], i % IPB * 16;
    var t := TableBlock(j.blk[b], j.dino, i / IPB);
    assert DiskOf(sb, j)[b] == t;
    forall k: nat | k < 16 ensures Word(t, w + k) == InodeWord(x, k) {
      TableRead(j.blk[b], j.dino, i / IPB, i, k);
    }
    assert Word(t, w + 0) == InodeWord(x, 0) && Word(t, w + 1) == InodeWord(x, 1) && Word(t, w + 2) == InodeWord(x, 2);
    var y := Dinode(sb, DiskOf(sb, j), i);
    forall k | 0 <= k < 13 ensures y.addrs[k] == x.addrs[k] {
      assert Word(t, w + (3 + k)) == InodeWord(x, 3 + k);
    }
    assert y.addrs == x.addrs;
  }

  /** Two 16-bit numbers side by side in a 32-bit word. */
  lemma {:induction false} TwoHalves(b: Block, p: nat, lo: Half, hi: Half)
    requires p + 4 <= BSIZE && LittleEndian(b.at[p..p + 4]) == lo as int + 0x1_0000 * hi as int
    ensures LittleEndian(b.at[p..p + 2]) == lo && LittleEndian(b.at[p + 2..p + 4]) == hi
  {
    var s, u, v := b.at[p..p + 4], b.at[p..p + 2], b.at[p + 2..p + 4];
    var b0: int, b1: int, b2: int, b3: int := s[0], s[1], s[2], s[3];
    assert s[1..][1..] == v && v[1..] == [s[3]] && u[1..] == [s[1]] && [s[3]][1..] == [] && [s[1]][1..] == [];
    assert LittleEndian([s[3]]) == b3 && LittleEndian([s[1]]) == b1;
    assert LittleEndian(v) == b2 + 0x100 * b3 && LittleEndian(u) == b0 + 0x100 * b1;
    assert LittleEndian(s[1..]) == b1 + 0x100 * LittleEndian(v);
    SplitHalves(b0 + 0x100 * b1, b2 + 0x100 * b3, lo, hi);
  }

  lemma {:induction false} SplitHalves(a: int, b: int, lo: int, hi: int)
    requires 0 <= a < 0x1_0000 && 0 <= lo < 0x1_0000 && a + 0x1_0000 * b == lo + 0x1_0000 * hi
    ensures a == lo && b == hi
  {
  }

  /** Where inode i lies on disk: 64 bytes at 64 * (i % 8) of block inodestart + i / 8, field after field. */
  lemma {:induction false} DinodeLayout(sb: Superblock, j: Fs.Journal, i: nat)
    requires Fs.Sound(sb, j) && i < sb.ninodes
    ensures |j.blk| == sb.size && |j.dino| == sb.ninodes
            && forall i | 0 <= i < |j.dino| :: j.dino[i].size < 0x1_0000_0000
    ensures var n, p, x := sb.inodestart + i / 8, 64 * (i % 8), j.dino[i];
            && n < sb.size
            && var at := DiskOf(sb, j)[n].at;
               && LittleEndian(at[p..p + 2]) == x.typ && LittleEndian(at[p + 2..p + 4]) == x.major
               && LittleEndian(at[p + 4..p + 6]) == x.minor && LittleEndian(at[p + 6..p + 8]) == x.nlink
               && LittleEndian(at[p + 8..p + 12]) == x.size
               && (forall k: nat | k < 13 :: LittleEndian(at[p + 12 + 4 * k..p + 16 + 4 * k]) == x.addrs[k])
  {
    hide Fs.Sound, ExactlyOneReference, Word, TableBlock, LittleEndian;
    SoundSizes(sb, j);
    InodeBlocks(sb, i);
    var n, p, x := IBlock(sb, i), 64 * (i % 8), j.dino[i];
    var t := DiskOf(sb, j)[n];
    forall k: nat | k < 16 ensures LittleEndian(t.at[p + 4 * k..p + 4 * k + 4]) == InodeWord(x, k) {
      TableRead(j.blk[n], j.dino, i / IPB, i, k);
      FourBytes(t, i % IPB * 16 + k);
      assert 4 * (i % IPB * 16 + k) == p + 4 * k;
    }
    assert LittleEndian(t.at[p + 4 * 0..p + 4 * 0 + 4]) == InodeWord(x, 0);
    assert LittleEndian(t.at[p + 4 * 1..p + 4 * 1 + 4]) == InodeWord(x, 1);
    assert LittleEndian(t.at[p + 4 * 2..p + 4 * 2 + 4]) == InodeWord(x, 2);
    TwoHalves(t, p, x.typ, x.major);
    TwoHalves(t, p + 4, x.minor, x.nlink);
    forall k: nat | k < 13 ensures LittleEndian(t.at[p + 12 + 4 * k..p + 16 + 4 * k]) == x.addrs[k] {
      assert LittleEndian(t.at[p + 4 * (3 + k)..p + 4 * (3 + k) + 4]) == InodeWord(x, 3 + k);
    }
  }

  lemma {:induction false} SoundSizes(sb: Superblock, j: Fs.Journal)
    requires Fs.Sound(sb, j)
    ensures ValidSb(sb) && |j.blk| == sb.size && |j.dino| == sb.ninodes
    ensures forall i | 0 <= i < |j.dino| :: j.dino[i].size < 0x1_0000_0000
  {
    hide ExactlyOneReference;
  }

  // ---------- A disk holds its file system ----------

  lemma {:induction false} PastTable(sb: Superblock, j: Fs.Journal, b: nat)
    requires Fs.Sound(sb, j) && sb.bmapstart <= b < sb.size
    ensures DiskOf(sb, j)[b] == j.blk[b]
  {
  }

  lemma {:induction false} InodesRead(sb: Superblock, j: Fs.Journal)
    requires Fs.Sound(sb, j)
    ensures ImageOf(sb, DiskOf(sb, j)).ino == j.dino
  {
    hide Fs.Sound, ExactlyOneReference, Dinode, DiskOf;
    SoundSizes(sb, j);
    var m := ImageOf(sb, DiskOf(sb, j));
    forall i | 0 <= i < sb.ninodes ensures m.ino[i] == j.dino[i] {
      DinodeRoundTrip(sb, j, i);
    }
  }

  lemma {:induction false} SlotRead(sb: Superblock, j: Fs.Journal, s: Slot)
    requires Fs.Sound(sb, j) && ValidSlot(Image(j.blk, j.dino), s)
    ensures ValidSlot(ImageOf(sb, DiskOf(sb, j)), s)
    ensures At(ImageOf(sb, DiskOf(sb, j)), s) == At(Image(j.blk, j.dino), s)
  {
    hide Word, DiskOf, Used;
    InodesRead(sb, j);
    var m := Image(j.blk, j.dino);
    var a := At(m, Indirect(s.i));
    assert ValidSlot(m, Indirect(s.i));
    if s.Entry? && 0 < a < sb.size {
      PastTable(sb, j, a);
    }
  }

  /** What the disk of a sound file system holds is that file system: same slots, same bytes, and sound. */
  lemma {:induction false} DiskHolds(sb: Superblock, j: Fs.Journal)
    requires Fs.Sound(sb, j)
    ensures SoundDisk(sb, DiskOf(sb, j)) && ImageOf(sb, DiskOf(sb, j)).ino == j.dino
    ensures forall i | 0 <= i < sb.ninodes ::
              Content(ImageOf(sb, DiskOf(sb, j)), i) == Content(Image(j.blk, j.dino), i)
  {
    hide Word, DiskOf, Used, At, Content;
    var m, n := Image(j.blk, j.dino), ImageOf(sb, DiskOf(sb, j));
    InodesRead(sb, j);
    forall s | ValidSlot(m, s) || ValidSlot(n, s) ensures ValidSlot(m, s) && ValidSlot(n, s) && At(n, s) == At(m, s) {
      SlotRead(sb, j, s);
    }
    forall b | 0 <= b < sb.size ensures BBlock(sb, b) < sb.size && (Used(sb, n.blk, b) <==> Used(sb, m.blk, b)) {
      BitRead(sb, j, b);
    }
    forall i | 0 <= i < sb.ninodes ensures NoHoles(n, i) && Content(n, i) == Content(m, i) {
      assert NoHoles(m, i);
      HolesRead(m, n, i);
      ContentRead(sb, j, i);
    }
  }

  lemma {:induction false} BitRead(sb: Superblock, j: Fs.Journal, b: nat)
    requires Fs.Sound(sb, j) && b < sb.size
    ensures BBlock(sb, b) < sb.size && (Used(sb, DiskOf(sb, j), b) <==> Used(sb, j.blk, b))
  {
    hide DiskOf, ExactlyOneReference;
    BitmapIsMeta(sb, b);
    PastTable(sb, j, BBlock(sb, b));
  }

  lemma {:induction false} HolesRead(m: Image, n: Image, i: nat)
    requires i < |m.ino| && n.ino == m.ino && NoHoles(m, i)
    requires forall s | ValidSlot(m, s) :: ValidSlot(n, s) && At(n, s) == At(m, s)
    ensures NoHoles(n, i)
  {
    hide Word;
    forall bn | 0 <= bn < MAXFILE ensures At(n, DataSlot(i, bn)) == At(m, DataSlot(i, bn)) {
      assert ValidSlot(m, DataSlot(i, bn));
    }
    assert ValidSlot(m, Indirect(i));
  }

  lemma {:induction false} ContentRead(sb: Superblock, j: Fs.Journal, i: nat)
    requires Fs.Sound(sb, j) && i < sb.ninodes
    ensures ImageOf(sb, DiskOf(sb, j)).ino == j.dino
    ensures Content(ImageOf(sb, DiskOf(sb, j)), i) == Content(Image(j.blk, j.dino), i)
  {
    hide Word, DiskOf, Used;
    var m, n := Image(j.blk, j.dino), ImageOf(sb, DiskOf(sb, j));
    InodesRead(sb, j);
    forall x | 0 <= x < j.dino[i].size ensures ByteAt(n, i, x) == ByteAt(m, i, x) {
      var s := DataSlot(i, x / BSIZE);
      assert ValidSlot(m, s);
      SlotRead(sb, j, s);
      if At(m, s) != 0 {
        PastTable(sb, j, At(m, s));
      }
    }
  }

  /** The disk of a file system in which every used block has exactly one reference, without holes. */
  ghost predicate SoundDisk(sb: Superblock, d: Contents) {
    && ValidSb(sb) && |d| == sb.size && 0 < sb.datastart
    && ExactlyOneReference(sb, ImageOf(sb, d))
    && (forall i | 0 <= i < sb.ninodes ::
          ImageOf(sb, d).ino[i].size <= MAXFILE * BSIZE && NoHoles(ImageOf(sb, d), i))
  }

  /** Mounting such a disk. */
  method Mount(sb: Superblock, d: Contents) returns (fs: Fs.FileSystem)
    requires SoundDisk(sb, d)
    ensures fresh(fs) && fs.sb == sb && fs.Img() == ImageOf(sb, d) && fs.Durable()
  {
    fs := new Fs.FileSystem(sb, d, ImageOf(sb, d).ino);
  }

  // ---------- Transactions and the log ----------

  /** A transaction leaves alone the disk blocks it did not log. */
  lemma {:induction false} UnloggedSame(sb: Superblock, j: Fs.Journal, j': Fs.Journal, b: nat)
    requires Fs.Sound(sb, j) && Fs.Sound(sb, j') && Fs.Covers(sb, j.(logged := {}), j') && b < sb.size
    ensures b !in j'.logged ==> DiskOf(sb, j')[b] == DiskOf(sb, j)[b]
  {
    hide ExactlyOneReference, Word, FromWords;
    if b !in j'.logged && InTable(sb, b) {
      var n := b - sb.inodestart;
      forall w | 0 <= w < NWORDS ensures TableWord(j'.blk[b], j'.dino, n, w) == TableWord(j.blk[b], j.dino, n, w) {
        var i := n * IPB + w / 16;
        if i < sb.ninodes {
          assert IBlock(sb, i) == b;
        }
      }
      assert TableBlock(j'.blk[b], j'.dino, n) == TableBlock(j.blk[b], j.dino, n) by {
        assert seq(NWORDS, w requires 0 <= w < NWORDS => TableWord(j'.blk[b], j'.dino, n, w))
            == seq(NWORDS, w requires 0 <= w < NWORDS => TableWord(j.blk[b], j.dino, n, w));
      }
    }
  }

  /** The blocks logged by the transactions from the a-th up to the b-th. */
  ghost function LoggedIn(ended: seq<Fs.Journal>, a: nat, b: nat): (r: set<nat>)
    requires b <= |ended|
  {
    if b <= a then {} else LoggedIn(ended, a, b - 1) + ended[b - 1].logged
  }

  lemma {:induction false} GroupSame(sb: Superblock, base: Fs.Journal, ended: seq<Fs.Journal>, a: nat, b: nat, n: nat)
    requires Fs.Kept(sb, base, ended) && a <= b <= |ended| && n < sb.size && n !in LoggedIn(ended, a, b)
    ensures Fs.Sound(sb, Fs.Before(base, ended, a)) && Fs.Sound(sb, Fs.Before(base, ended, b))
    ensures DiskOf(sb, Fs.Before(base, ended, b))[n] == DiskOf(sb, Fs.Before(base, ended, a))[n]
    decreases b
  {
    hide Fs.Sound, DiskOf, Fs.Covers;
    if a < b {
      GroupSame(sb, base, ended, a, b - 1, n);
      UnloggedSame(sb, Fs.Before(base, ended, b - 1), ended[b - 1], n);
    }
  }

  /** Write k is the last one to its block. */
  predicate LastOf(ws: seq<Write>, k: nat) {
    k < |ws| && forall l | k < l < |ws| :: ws[l].block != ws[k].block
  }

  /** The writes of a batch cover the logged blocks and end with the contents of disk d in each block they touch. */
  ghost predicate Commits(ws: seq<Write>, logged: set<nat>, d: Contents) {
    && (forall b | b in logged :: exists k | 0 <= k < |ws| :: ws[k].block == b)
    && (forall k: nat | LastOf(ws, k) && ws[k].block < |d| :: ws[k].data == d[ws[k].block])
  }

  /** Logging each block once, with its contents when the transaction ends, is such a batch. */
  lemma {:induction false} BatchFor(logged: set<nat>, d: Contents, id: nat) returns (ws: seq<Write>)
    requires forall b | b in logged :: b < |d|
    ensures Commits(ws, logged, d) && |ws| == |logged| && forall k | 0 <= k < |ws| :: ws[k].block in logged
    ensures forall k | 0 <= k < |ws| :: ws[k].data == d[ws[k].block]
    decreases |logged|
  {
    ws := [];
    if logged != {} {
      var b :| b in logged;
      var rest := BatchFor(logged - {b}, d, id);
      ws := rest + [Write(id, b, d[b])];
      forall c | c in logged ensures exists k | 0 <= k < |ws| :: ws[k].block == c {
        if c == b {
          assert ws[|rest|].block == c;
        } else {
          assert c in logged - {b};
          var k :| 0 <= k < |rest| && rest[k].block == c;
          assert ws[k].block == c;
        }
      }
    }
  }

  /** The last write to a block decides. */
  lemma {:induction false} LastDecides(d: Contents, ws: seq<Write>, b: nat) returns (k: nat)
    requires b < |d|
    ensures k <= |ws| && (k < |ws| ==> LastOf(ws, k) && ws[k].block == b && ApplyWrites(d, ws)[b] == ws[k].data)
    ensures k == |ws| ==> ApplyWrites(d, ws)[b] == d[b] && forall l | 0 <= l < |ws| :: ws[l].block != b
  {
    if ws == [] {
      k := 0;
    } else {
      var n := |ws| - 1;
      if ws[n].block == b {
        k := n;
      } else {
        k := LastDecides(d, ws[..n], b);
        if k == n {
          k := |ws|;
        }
      }
    }
  }

  /** Committing a group of transactions turns the disk before them into the disk after them. */
  lemma {:induction false} GroupCommitted(sb: Superblock, base: Fs.Journal, ended: seq<Fs.Journal>, a: nat, b: nat,
                                          ws: seq<Write>)
    requires Fs.Kept(sb, base, ended) && a <= b <= |ended|
    requires Fs.Sound(sb, Fs.Before(base, ended, a)) && Fs.Sound(sb, Fs.Before(base, ended, b))
    requires Commits(ws, LoggedIn(ended, a, b), DiskOf(sb, Fs.Before(base, ended, b)))
    ensures ApplyWrites(DiskOf(sb, Fs.Before(base, ended, a)), ws) == DiskOf(sb, Fs.Before(base, ended, b))
  {
    hide DiskOf, Fs.Covers, Fs.Kept, LoggedIn, ApplyWrites, ExactlyOneReference;
    var d, d' := DiskOf(sb, Fs.Before(base, ended, a)), DiskOf(sb, Fs.Before(base, ended, b));
    forall n | 0 <= n < sb.size ensures ApplyWrites(d, ws)[n] == d'[n] {
      var k := LastDecides(d, ws, n);
      if k == |ws| {
        GroupSame(sb, base, ended, a, b, n);
      }
    }
  }

  /**
  The committed batches are groups of consecutive whole transactions: batch j those from cuts[j] up
  to cuts[j + 1].
  */
  ghost predicate WholeTransactions(sb: Superblock, base: Fs.Journal, ended: seq<Fs.Journal>,
                                    batches: seq<seq<Write>>, cuts: seq<nat>)
    requires Fs.Kept(sb, base, ended)
  {
    && |cuts| == |batches| + 1 && cuts[0] == 0 && (forall j | 0 <= j < |cuts| :: cuts[j] <= |ended|)
    && (forall j | 0 <= j < |batches| ::
          && cuts[j] <= cuts[j + 1]
          && Commits(batches[j], LoggedIn(ended, cuts[j], cuts[j + 1]), DiskAt(sb, base, ended, cuts[j + 1])))
  }

  /** The disk after the first k transactions. */
  ghost function DiskAt(sb: Superblock, base: Fs.Journal, ended: seq<Fs.Journal>, k: nat): (d: Contents)
    requires Fs.Kept(sb, base, ended) && k <= |ended|
    ensures |d| == sb.size && SoundDisk(sb, d)
  {
    DiskHolds(sb, Fs.Before(base, ended, k));
    DiskOf(sb, Fs.Before(base, ended, k))
  }

  lemma {:induction false} BatchesApplied(sb: Superblock, base: Fs.Journal, ended: seq<Fs.Journal>,
                                          batches: seq<seq<Write>>, cuts: seq<nat>)
    requires Fs.Kept(sb, base, ended) && WholeTransactions(sb, base, ended, batches, cuts)
    ensures ApplyBatches(DiskAt(sb, base, ended, 0), batches) == DiskAt(sb, base, ended, cuts[|batches|])
    decreases |batches|
  {
    if batches != [] {
      var n := |batches| - 1;
      BatchesApplied(sb, base, ended, batches[..n], cuts[..n + 1]);
      GroupCommitted(sb, base, ended, cuts[n], cuts[n + 1], batches[n]);
    }
  }

  /**
  Crash consistency of the file system: after any run of the log, with crashes anywhere in it, whose
  committed batches are groups of whole transactions, the recovered disk is the one some transaction
  left, with exactly one reference to each used block, its inodes, and its files' contents.
  */
  lemma {:induction false} CrashConsistency(g: Geometry, sb: Superblock, base: Fs.Journal, ended: seq<Fs.Journal>,
                                            s: Sys, es: seq<Event>, cuts: seq<nat>)
    requires Fs.Kept(sb, base, ended) && Boot(g, DiskAt(sb, base, ended, 0), s) && Run(g, s, es)
    requires WholeTransactions(sb, base, ended, After(g, s, es).batches, cuts)
    ensures GoodDisk(g, After(g, s, es).disk)
    ensures var d, j := Recover(g, After(g, s, es).disk).home, Fs.Before(base, ended, cuts[|cuts| - 1]);
            && SoundDisk(sb, d) && ImageOf(sb, d).ino == j.dino && |j.blk| == sb.size
            && forall i | 0 <= i < sb.ninodes :: Content(ImageOf(sb, d), i) == Content(Image(j.blk, j.dino), i)
  {
    hide DiskOf, Fs.Covers, ExactlyOneReference, ApplyBatches, WholeTransactions, Content;
    CrashAtomicity(g, DiskAt(sb, base, ended, 0), s, es);
    CutsInRange(sb, base, ended, After(g, s, es).batches, cuts);
    BatchesApplied(sb, base, ended, After(g, s, es).batches, cuts);
    DiskHolds(sb, Fs.Before(base, ended, cuts[|cuts| - 1]));
  }

  lemma {:induction false} CutsInRange(sb: Superblock, base: Fs.Journal, ended: seq<Fs.Journal>,
                                       batches: seq<seq<Write>>, cuts: seq<nat>)
    requires Fs.Kept(sb, base, ended) && WholeTransactions(sb, base, ended, batches, cuts)
    ensures |cuts| == |batches| + 1 && cuts[|cuts| - 1] <= |ended|
  {
  }
}
