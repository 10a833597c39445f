/** A file as a flat sequence of bytes. */
module FileBytes {
  import opened Blocks
  import opened DiskLayout
  import opened FileBlocks

  const MAXBYTES := MAXFILE * BSIZE

  /** All bytes a file can address, whatever its size. */
  function Flat(blk: seq<Block>, ip: Inode): (r: seq<Byte>)
    requires Shaped(ip)
    ensures |r| == MAXBYTES
    ensures forall o: nat | o < MAXBYTES :: r[o] == DataBlock(blk, ip, o / BSIZE)[o % BSIZE]
  {
    seq<Byte>(MAXBYTES, (o: nat) requires o < MAXBYTES => DataBlock(blk, ip, o / BSIZE)[o % BSIZE])
  }

  /** The contents of a file. */
  function Content(blk: seq<Block>, ip: Inode): (r: seq<Byte>)
    requires Shaped(ip) && ip.size <= MAXBYTES
    ensures |r| == ip.size
  {
    Flat(blk, ip)[..ip.size]
  }

  /** Where byte o of a file is: in one of the 12 direct blocks, or in one of the 128 blocks whose
      numbers the indirect block holds. A hole reads as zeros. */
  lemma ByteAt(blk: seq<Block>, ip: Inode, o: nat)
    requires Shaped(ip) && o < ip.size <= MAXBYTES
    requires o / 512 >= 12 ==> 0 < ip.addrs[12] < |blk|
    ensures var a := if o / 512 < 12 then ip.addrs[o / 512] else GetWord(blk[ip.addrs[12]], o / 512 - 12);
            Content(blk, ip)[o] == if 0 < a < |blk| then blk[a][o % 512] else 0
  {
    hide GetWord;
    assert Content(blk, ip)[o] == DataBlock(blk, ip, o / BSIZE)[o % BSIZE];
  }

  /** s with the bytes from off on replaced by x. */
  function Splice(s: seq<Byte>, off: nat, x: seq<Byte>): (r: seq<Byte>)
    requires off + |x| <= |s|
    ensures |r| == |s|
  {
    s[..off] + x + s[off + |x|..]
  }

  /** The bytes x copied into a block at offset o. */
  function Patch(b: Block, o: nat, x: seq<Byte>): (r: Block)
    requires o + |x| <= BSIZE
  {
    b[..o] + x + b[o + |x|..]
  }

  /** What a file looks like from outside when `blk` and the inode change but no byte does. */
  lemma SameFlat(blk: seq<Block>, ip: Inode, blk': seq<Block>, ip': Inode)
    requires Shaped(ip) && Shaped(ip')
    requires forall bn: nat | bn < MAXFILE :: DataBlock(blk', ip', bn) == DataBlock(blk, ip, bn)
    ensures Flat(blk', ip') == Flat(blk, ip)
  {
  }

  /** Patching one block splices the flat file. */
  lemma FlatPatch(blk: seq<Block>, ip: Inode, blk': seq<Block>, off: nat, x: seq<Byte>)
    requires Shaped(ip) && off < MAXBYTES && off % BSIZE + |x| <= BSIZE && off + |x| <= MAXBYTES
    requires forall bn: nat | bn < MAXFILE ::
               DataBlock(blk', ip, bn) == if bn == off / BSIZE then Patch(DataBlock(blk, ip, bn), off % BSIZE, x)
                                          else DataBlock(blk, ip, bn)
    ensures Flat(blk', ip) == Splice(Flat(blk, ip), off, x)
  {
    hide DataBlock;
    var (f, f', g) := (Flat(blk, ip), Flat(blk', ip), Splice(Flat(blk, ip), off, x));
    forall o: nat | o < MAXBYTES ensures f'[o] == g[o] {
      assert o == o / BSIZE * BSIZE + o % BSIZE && off == off / BSIZE * BSIZE + off % BSIZE;
      assert f'[o] == DataBlock(blk', ip, o / BSIZE)[o % BSIZE];
      assert f[o] == DataBlock(blk, ip, o / BSIZE)[o % BSIZE];
    }
  }

  /** Two adjacent splices are one. */
  lemma SpliceTwice(s: seq<Byte>, off: nat, x: seq<Byte>, y: seq<Byte>)
    requires off + |x| + |y| <= |s|
    ensures Splice(Splice(s, off, x), off + |x|, y) == Splice(s, off, x + y)
  {
  }

  /** The contents s after writing x at off: overwritten, and extended where x goes past the end. */
  function Written(s: seq<Byte>, off: nat, x: seq<Byte>): (r: seq<Byte>)
    requires off <= |s|
    ensures |r| == if off + |x| > |s| then off + |x| else |s|
  {
    s[..off] + x + (if off + |x| < |s| then s[off + |x|..] else [])
  }

  /** Writing in two pieces is writing at once. */
  lemma WrittenTwice(s: seq<Byte>, off: nat, x: seq<Byte>, y: seq<Byte>)
    requires off <= |s|
    ensures Written(Written(s, off, x), off + |x|, y) == Written(s, off, x + y)
  {
    var (a, b) := (Written(Written(s, off, x), off + |x|, y), Written(s, off, x + y));
    assert |a| == |b|;
    forall k | 0 <= k < |a| ensures a[k] == b[k] {
    }
  }

  /** writei's effect on the contents, from its effect on the flat file. */
  lemma ContentAfterWrite(f: seq<Byte>, size: nat, off: nat, x: seq<Byte>)
    requires off <= size <= |f| && off + |x| <= |f|
    ensures var size' := if off + |x| > size then off + |x| else size;
            Splice(f, off, x)[..size'] == Written(f[..size], off, x)
  {
  }
}
