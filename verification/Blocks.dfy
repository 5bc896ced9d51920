/** Disk blocks: 512 bytes, also read as 128 little-endian 32-bit words. */
module Blocks {
  const BSIZE := 512
  const NWORDS := 128

  type Byte = b: int | 0 <= b < 0x100
  type Half = h: int | 0 <= h < 0x1_0000
  type Word32 = w: int | 0 <= w < 0x1_0000_0000
  datatype Bytes = Bytes(at: seq<Byte>)
  type Block = b: Bytes | |b.at| == BSIZE witness Bytes(seq(BSIZE, _ => 0))

  function ZeroBlock(): (b: Block)
    ensures forall i | 0 <= i < BSIZE :: b.at[i] == 0
  {
    Bytes(seq(BSIZE, _ => 0))
  }

  /** The i-th 32-bit word of a block, as the C code reads it through an int or uint pointer. */
  function Word(b: Block, i: nat): (w: Word32)
    requires i < NWORDS
  {
    var b0: int, b1: int, b2: int, b3: int := b.at[4 * i], b.at[4 * i + 1], b.at[4 * i + 2], b.at[4 * i + 3];
    b0 + 0x100 * b1 + 0x1_0000 * b2 + 0x100_0000 * b3
  }

  function SetWord(b: Block, i: nat, w: Word32): (r: Block)
    requires i < NWORDS
    ensures Word(r, i) == w
    ensures forall j | 0 <= j < NWORDS && j != i :: Word(r, j) == Word(b, j)
  {
    var bytes: seq<Byte> := [w % 0x100, w / 0x100 % 0x100, w / 0x1_0000 % 0x100, w / 0x100_0000];
    var r := Bytes(b.at[..4 * i] + bytes + b.at[4 * i + 4..]);
    Digits(w);
    OtherWords(b, i, bytes, r);
    r
  }

  lemma {:induction false} Digits(w: Word32)
    ensures w % 0x100 + 0x100 * (w / 0x100 % 0x100) + 0x1_0000 * (w / 0x1_0000 % 0x100)
            + 0x100_0000 * (w / 0x100_0000) == w
  {
    var a, b := w / 0x100, w / 0x1_0000;
    assert w == 0x100 * a + w % 0x100;
    assert a / 0x100 == b && a == 0x100 * b + a % 0x100;
    assert b / 0x100 == w / 0x100_0000 && b == 0x100 * (b / 0x100) + b % 0x100;
  }

  lemma {:induction false} OtherWords(b: Block, i: nat, bytes: seq<Byte>, r: Block)
    requires i < NWORDS && |bytes| == 4 && r.at == b.at[..4 * i] + bytes + b.at[4 * i + 4..]
    ensures r.at[4 * i..4 * i + 4] == bytes
    ensures forall j | 0 <= j < NWORDS && j != i :: Word(r, j) == Word(b, j)
  {
    forall k | 0 <= k < BSIZE && !(4 * i <= k < 4 * i + 4) ensures r.at[k] == b.at[k] {
    }
    forall j | 0 <= j < NWORDS && j != i ensures Word(r, j) == Word(b, j) {
    }
  }

  /** The number a run of bytes stands for, least significant byte first. */
  function LittleEndian(bytes: seq<Byte>): (n: nat) {
    if bytes == [] then 0 else bytes[0] as int + 0x100 * LittleEndian(bytes[1..])
  }

  /** Word i is the little-endian number in bytes 4i to 4i + 3, and storing it changes those bytes only. */
  lemma {:induction false} WordLayout(b: Block, i: nat, w: Word32)
    requires i < NWORDS
    ensures Word(b, i) == LittleEndian(b.at[4 * i..4 * i + 4])
    ensures var r := SetWord(b, i, w);
            && LittleEndian(r.at[4 * i..4 * i + 4]) == w
            && forall k | 0 <= k < BSIZE && !(4 * i <= k < 4 * i + 4) :: r.at[k] == b.at[k]
  {
    FourBytes(b, i);
    FourBytes(SetWord(b, i, w), i);
  }

  lemma {:induction false} FourBytes(b: Block, i: nat)
    requires i < NWORDS
    ensures Word(b, i) == LittleEndian(b.at[4 * i..4 * i + 4])
  {
    var s := b.at[4 * i..4 * i + 4];
    assert s[1..][1..] == s[2..] && s[2..][1..] == s[3..] && s[3..][1..] == [];
    var b1: int, b2: int, b3: int := s[1], s[2], s[3];
    assert LittleEndian(s[3..]) == b3;
    assert LittleEndian(s[2..]) == b2 + 0x100 * b3;
    assert LittleEndian(s[1..]) == b1 + 0x100 * (b2 + 0x100 * b3);
  }

  lemma {:induction false} ZeroBlockWords(i: nat)
    requires i < NWORDS
    ensures Word(ZeroBlock(), i) == 0
  {
  }

  // ---------- Blocks as bit maps ----------

  function Pow2(k: nat): (p: nat) {
    if k == 0 then 1 else 2 * Pow2(k - 1)
  }

  /** Bit k of a number: the test `x & (1 << k)`. */
  predicate BitOf(x: nat, k: nat) {
    if k == 0 then x % 2 == 1 else BitOf(x / 2, k - 1)
  }

  /** Bit k set to v in a number of w bits: `x | (1 << k)` or `x & ~(1 << k)`. */
  function WithBit(x: nat, w: nat, k: nat, v: bool): (r: nat)
    requires k < w && x < Pow2(w)
    ensures r < Pow2(w)
  {
    if k == 0 then x / 2 * 2 + if v then 1 else 0
    else WithBit(x / 2, w - 1, k - 1, v) * 2 + x % 2
  }

  lemma {:induction false} WithBitBits(x: nat, w: nat, k: nat, v: bool)
    requires k < w && x < Pow2(w)
    ensures BitOf(WithBit(x, w, k, v), k) == v
    ensures forall j: nat | j != k :: BitOf(WithBit(x, w, k, v), j) == BitOf(x, j)
  {
    forall j: nat ensures BitOf(WithBit(x, w, k, v), j) == if j == k then v else BitOf(x, j) {
      WithBitAt(x, w, k, v, j);
    }
  }

  lemma {:induction false} WithBitAt(x: nat, w: nat, k: nat, v: bool, j: nat)
    requires k < w && x < Pow2(w)
    ensures BitOf(WithBit(x, w, k, v), j) == if j == k then v else BitOf(x, j)
  {
    if k > 0 {
      Twice(WithBit(x / 2, w - 1, k - 1, v), x % 2);
      if j > 0 {
        WithBitAt(x / 2, w - 1, k - 1, v, j - 1);
      }
    } else {
      Twice(x / 2, if v then 1 else 0);
    }
  }

  lemma {:induction false} Twice(q: nat, b: nat)
    requires b < 2
    ensures (q * 2 + b) / 2 == q && (q * 2 + b) % 2 == b
  {
  }

  /** Setting a clear bit adds its power of two, and clearing a set one takes it away. */
  lemma {:induction false} BitIsPower(x: nat, w: nat, k: nat)
    requires k < w && x < Pow2(w)
    ensures !BitOf(x, k) ==> WithBit(x, w, k, true) == x + Pow2(k)
    ensures BitOf(x, k) ==> WithBit(x, w, k, false) == x - Pow2(k)
  {
    if k > 0 {
      BitIsPower(x / 2, w - 1, k - 1);
    }
  }

  lemma {:induction false} EightBits()
    ensures Pow2(8) == 256
  {
    assert Pow2(4) == 16;
  }

  /** Bit i of a block, as balloc and bfree address it: bit i % 8 of byte i / 8. */
  predicate Bit(b: Block, i: nat)
    requires i < 8 * BSIZE
  {
    BitOf(b.at[i / 8], i % 8)
  }

  lemma {:induction false} ZeroBits(i: nat)
    requires i < 8 * BSIZE
    ensures !Bit(ZeroBlock(), i)
  {
    ZeroBit(i % 8);
  }

  lemma {:induction false} ZeroBit(k: nat)
    ensures !BitOf(0, k)
  {
    if k > 0 {
      ZeroBit(k - 1);
    }
  }

  function SetBit(b: Block, i: nat, v: bool): (r: Block)
    requires i < 8 * BSIZE
    ensures Bit(r, i) == v
    ensures forall j | 0 <= j < 8 * BSIZE && j != i :: Bit(r, j) == Bit(b, j)
  {
    EightBits();
    WithBitBits(b.at[i / 8], 8, i % 8, v);
    var x := WithBit(b.at[i / 8], 8, i % 8, v);
    Bytes(b.at[i / 8 := x])
  }

  /** Bit i of a block is worth 2 to the i % 8 in byte i / 8. */
  lemma {:induction false} BitLayout(b: Block, i: nat)
    requires i < 8 * BSIZE
    ensures !Bit(b, i) ==> SetBit(b, i, true).at[i / 8] as int == b.at[i / 8] as int + Pow2(i % 8)
    ensures Bit(b, i) ==> SetBit(b, i, false).at[i / 8] as int == b.at[i / 8] as int - Pow2(i % 8)
    ensures forall v: bool, k: nat | k < BSIZE && k != i / 8 :: SetBit(b, i, v).at[k] == b.at[k]
  {
    EightBits();
    BitIsPower(b.at[i / 8], 8, i % 8);
  }
}
