/** Disk blocks as 512 bytes, with the little-endian 32-bit words and the single
    bits that the kernel reads and writes inside them. */
module Blocks {

  const BSIZE := 512
  const WORDS := 128               // 32-bit words in a block
  const UINT := 0x1_0000_0000      // 2^32: the values of a C uint are below this

  type Byte = x: int | 0 <= x < 256
  type Word = x: int | 0 <= x < UINT
  type Block = b: seq<Byte> | |b| == BSIZE witness seq(BSIZE, _ => 0)

  /** A block of zeros. */
  function Zeros(): (r: Block)
    ensures forall i | 0 <= i < BSIZE :: r[i] == 0
  {
    seq(BSIZE, _ => 0)
  }

  /** Word i of a block, little-endian. */
  function GetWord(b: Block, i: nat): (w: Word)
    requires i < WORDS
  {
    var (b0: int, b1: int, b2: int, b3: int) := (b[4*i], b[4*i+1], b[4*i+2], b[4*i+3]);
    b0 + 0x100 * b1 + 0x1_0000 * b2 + 0x100_0000 * b3
  }

  lemma WordBytes(w: Word)
    ensures w % 0x100 + 0x100 * (w / 0x100 % 0x100) + 0x1_0000 * (w / 0x1_0000 % 0x100) + 0x100_0000 * (w / 0x100_0000)
            == w
    ensures w / 0x100_0000 < 0x100
  {
    var h := w / 0x1_0000;
    assert h / 0x100 == w / 0x100_0000 && w / 0x100 % 0x100 == w % 0x1_0000 / 0x100;
  }

  /** The block with word i set to w. */
  function PutWord(b: Block, i: nat, w: Word): (r: Block)
    requires i < WORDS
    ensures GetWord(r, i) == w
    ensures forall j: nat | j < WORDS && j != i :: GetWord(r, j) == GetWord(b, j)
  {
    WordBytes(w);
    b[4*i := w % 0x100][4*i+1 := w / 0x100 % 0x100][4*i+2 := w / 0x1_0000 % 0x100][4*i+3 := w / 0x100_0000]
  }

  lemma ZeroWord(i: nat)
    requires i < WORDS
    ensures GetWord(Zeros(), i) == 0
  {
  }

  /** Bit k of x, counted from the least significant. */
  predicate Bit(x: nat, k: nat) {
    if k == 0 then x % 2 == 1 else Bit(x / 2, k - 1)
  }

  /** x | y */
  function Or(x: nat, y: nat): (r: nat) {
    if x == 0 && y == 0 then 0
    else 2 * Or(x / 2, y / 2) + if x % 2 == 1 || y % 2 == 1 then 1 else 0
  }

  /** x & ~y */
  function AndNot(x: nat, y: nat): (r: nat) {
    if x == 0 then 0
    else 2 * AndNot(x / 2, y / 2) + if x % 2 == 1 && y % 2 == 0 then 1 else 0
  }

  /** 1 << k */
  function Shl(k: nat): (r: nat)
    ensures r > 0
  {
    if k == 0 then 1 else 2 * Shl(k - 1)
  }

  lemma {:induction false} ShlBit(k: nat, j: nat)
    ensures Bit(Shl(k), j) <==> j == k
  {
    if k > 0 && j > 0 {
      ShlBit(k - 1, j - 1);
    } else if k == 0 && j > 0 {
      ZeroBit(j - 1);
    }
  }

  lemma {:induction false} ZeroBit(k: nat)
    ensures !Bit(0, k)
  {
    if k > 0 { ZeroBit(k - 1); }
  }

  lemma {:induction false} OrBit(x: nat, y: nat, k: nat)
    ensures Bit(Or(x, y), k) <==> Bit(x, k) || Bit(y, k)
  {
    if x == 0 && y == 0 {
      ZeroBit(k);
    } else if k > 0 {
      OrBit(x / 2, y / 2, k - 1);
    }
  }

  lemma {:induction false} AndNotBit(x: nat, y: nat, k: nat)
    ensures Bit(AndNot(x, y), k) <==> Bit(x, k) && !Bit(y, k)
  {
    if x == 0 {
      ZeroBit(k);
    } else if k > 0 {
      AndNotBit(x / 2, y / 2, k - 1);
    }
  }

  /** A byte stays a byte under | and & ~: n bits in, n bits out. */
  lemma {:induction false} OrBound(x: nat, y: nat, n: nat)
    requires x < Shl(n) && y < Shl(n)
    ensures Or(x, y) < Shl(n)
  {
    if n > 0 && !(x == 0 && y == 0) { OrBound(x / 2, y / 2, n - 1); }
  }

  lemma {:induction false} AndNotBound(x: nat, y: nat)
    ensures AndNot(x, y) <= x
  {
    if x > 0 { AndNotBound(x / 2, y / 2); }
  }
}
