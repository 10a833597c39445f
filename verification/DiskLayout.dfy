/** The on-disk layout the file system works in: the free bitmap and the inode blocks. */
module DiskLayout {
  import opened Blocks

  const BPB := 4096        // bitmap bits per block
  const IPB := 8           // inodes per block
  const NDIRECT := 12
  const NINDIRECT := 128
  const MAXFILE := 140

  /** Super block: [.. log .. | inode blocks | bitmap | data blocks]; data starts at `data`. */
  datatype Super = Super(size: nat, ninodes: nat, inodestart: nat, bmapstart: nat, data: nat) {
    ghost predicate Valid() {
      && 0 < inodestart && inodestart + (ninodes + IPB - 1) / IPB <= bmapstart
      && bmapstart + (size + BPB - 1) / BPB <= data <= size < UINT
    }

    function BBlock(b: nat): nat {
      b / BPB + bmapstart
    }

    function IBlock(inum: nat): nat {
      inum / IPB + inodestart
    }
  }

  lemma BBlockRange(sb: Super, b: nat)
    requires sb.Valid() && b < sb.size
    ensures sb.bmapstart <= sb.BBlock(b) < sb.data
  {
  }

  lemma IBlockRange(sb: Super, inum: nat)
    requires sb.Valid() && inum < sb.ninodes
    ensures 0 < sb.IBlock(inum) < sb.bmapstart
  {
  }

  // ----- the free bitmap -----

  /** Bit b of the bitmap is set. */
  predicate Used(sb: Super, blk: seq<Block>, b: nat)
    requires sb.Valid() && |blk| == sb.size && b < sb.size
  {
    Bit(blk[sb.BBlock(b)][b % BPB / 8], b % BPB % 8)
  }

  /** balloc's change to a bitmap block: one bit is set. */
  function SetBit(x: Block, bi: nat): (r: Block)
    requires bi < BPB
  {
    ByteOr(x[bi / 8], bi % 8);
    x[bi / 8 := Or(x[bi / 8], Shl(bi % 8))]
  }

  lemma SetBitBits(x: Block, bi: nat, j: nat)
    requires bi < BPB && j < BPB
    ensures Bit(SetBit(x, bi)[j / 8], j % 8) <==> Bit(x[j / 8], j % 8) || j == bi
  {
    OrBit(x[bi / 8], Shl(bi % 8), j % 8);
    ShlBit(bi % 8, j % 8);
    assert j == j / 8 * 8 + j % 8 && bi == bi / 8 * 8 + bi % 8;
  }

  /** bfree's change to a bitmap block: one bit is cleared. */
  function ClearBit(x: Block, bi: nat): (r: Block)
    requires bi < BPB
  {
    AndNotBound(x[bi / 8], Shl(bi % 8));
    x[bi / 8 := AndNot(x[bi / 8], Shl(bi % 8))]
  }

  lemma ClearBitBits(x: Block, bi: nat, j: nat)
    requires bi < BPB && j < BPB
    ensures Bit(ClearBit(x, bi)[j / 8], j % 8) <==> Bit(x[j / 8], j % 8) && j != bi
  {
    AndNotBit(x[bi / 8], Shl(bi % 8), j % 8);
    ShlBit(bi % 8, j % 8);
    assert j == j / 8 * 8 + j % 8 && bi == bi / 8 * 8 + bi % 8;
  }

  lemma ByteOr(x: Byte, k: nat)
    requires k < 8
    ensures Or(x, Shl(k)) < 256
  {
    assert Shl(8) == 256 by {
      assert Shl(8) == 2 * Shl(7) && Shl(7) == 2 * Shl(6) && Shl(6) == 2 * Shl(5) && Shl(5) == 2 * Shl(4);
      assert Shl(4) == 2 * Shl(3) && Shl(3) == 2 * Shl(2) && Shl(2) == 2 * Shl(1) && Shl(1) == 2 * Shl(0);
    }
    ShlBelow(k, 8);
    OrBound(x, Shl(k), 8);
  }

  lemma {:induction false} ShlBelow(k: nat, n: nat)
    requires k < n
    ensures Shl(k) < Shl(n)
  {
    if k < n - 1 { ShlBelow(k, n - 1); }
  }

  function Mark(sb: Super, blk: seq<Block>, b: nat): (r: seq<Block>)
    requires sb.Valid() && |blk| == sb.size && b < sb.size
    ensures |r| == |blk|
  {
    blk[sb.BBlock(b) := SetBit(blk[sb.BBlock(b)], b % BPB)]
  }

  function Unmark(sb: Super, blk: seq<Block>, b: nat): (r: seq<Block>)
    requires sb.Valid() && |blk| == sb.size && b < sb.size
    ensures |r| == |blk|
  {
    blk[sb.BBlock(b) := ClearBit(blk[sb.BBlock(b)], b % BPB)]
  }

  lemma MarkUsed(sb: Super, blk: seq<Block>, b: nat, c: nat)
    requires sb.Valid() && |blk| == sb.size && b < sb.size && c < sb.size
    ensures Used(sb, Mark(sb, blk, b), c) <==> Used(sb, blk, c) || b == c
  {
    BBlockRange(sb, b);
    BBlockRange(sb, c);
    if c / BPB == b / BPB {
      SetBitBits(blk[sb.BBlock(b)], b % BPB, c % BPB);
    }
  }

  lemma UnmarkUsed(sb: Super, blk: seq<Block>, b: nat, c: nat)
    requires sb.Valid() && |blk| == sb.size && b < sb.size && c < sb.size
    ensures Used(sb, Unmark(sb, blk, b), c) <==> Used(sb, blk, c) && b != c
  {
    BBlockRange(sb, b);
    BBlockRange(sb, c);
    if c / BPB == b / BPB {
      ClearBitBits(blk[sb.BBlock(b)], b % BPB, c % BPB);
    }
  }

  // ----- inode blocks -----

  /** An inode; meta0 and meta1 hold type, major, minor and nlink as the disk packs them. */
  datatype Inode = Inode(meta0: Word, meta1: Word, size: Word, addrs: seq<Word>)

  ghost predicate Shaped(ip: Inode) {
    |ip.addrs| == NDIRECT + 1
  }

  /** The dinode in slot k of an inode block. */
  function Dinode(x: Block, k: nat): (ip: Inode)
    requires k < IPB
    ensures Shaped(ip)
  {
    Inode(GetWord(x, 16 * k), GetWord(x, 16 * k + 1), GetWord(x, 16 * k + 2),
          seq<Word>(NDIRECT + 1, (j: nat) requires j < NDIRECT + 1 => GetWord(x, 16 * k + 3 + j)))
  }

  /** iupdate's copy of the block addresses, from entry j on. */
  function PutAddrs(x: Block, k: nat, addrs: seq<Word>, j: nat): (r: Block)
    requires k < IPB && j <= |addrs| == NDIRECT + 1
    ensures forall w: nat | w < WORDS ::
              GetWord(r, w) == if 16 * k + 3 + j <= w < 16 * k + 16 then addrs[w - 16 * k - 3] else GetWord(x, w)
    decreases |addrs| - j
  {
    if j == |addrs| then x else PutAddrs(PutWord(x, 16 * k + 3 + j, addrs[j]), k, addrs, j + 1)
  }

  /** iupdate's change to the inode block. */
  function PutDinode(x: Block, k: nat, ip: Inode): (r: Block)
    requires k < IPB && Shaped(ip)
  {
    PutAddrs(PutWord(PutWord(PutWord(x, 16 * k, ip.meta0), 16 * k + 1, ip.meta1), 16 * k + 2, ip.size), k, ip.addrs, 0)
  }

  lemma DinodeRoundTrip(x: Block, k: nat, ip: Inode, j: nat)
    requires k < IPB && Shaped(ip) && j < IPB
    ensures Dinode(PutDinode(x, k, ip), j) == if j == k then ip else Dinode(x, j)
  {
    var y := PutWord(PutWord(PutWord(x, 16 * k, ip.meta0), 16 * k + 1, ip.meta1), 16 * k + 2, ip.size);
    var r := PutAddrs(y, k, ip.addrs, 0);
    if j == k {
      assert Dinode(r, k).addrs == ip.addrs;
    } else {
      assert forall w: nat | 16 * j <= w < 16 * j + 16 :: GetWord(r, w) == GetWord(x, w);
      assert Dinode(r, j).addrs == Dinode(x, j).addrs;
    }
  }
}
