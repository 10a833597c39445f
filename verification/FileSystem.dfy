/** The file system core: block allocation, the block map of an inode, reading, writing and
    truncating. `blk` is what bread shows and log_write changes; `logged` collects the blocks
    handed to log_write. Inodes are held locked by the caller. */
module FileSystem {
  import opened Options
  import opened Params
  import opened Blocks
  import opened DiskLayout
  import opened FileBlocks
  import opened FileBytes
  import opened Counting

  const T_DIR := 1

  /** Result of readi and writei: panic("balloc: out of blocks"), -1, or the byte count. */
  datatype Outcome = Panic | Fail | Count(n: nat)

  /** Only empty slots of inode i have been filled; no file's bytes have changed. */
  ghost predicate Grown(blk: seq<Block>, inodes: seq<Inode>, blk': seq<Block>, inodes': seq<Inode>, i: nat) {
    && SameFiles(blk, inodes, blk', inodes') && i < |inodes|
    && (forall j | 0 <= j < |inodes| && j != i :: inodes'[j] == inodes[j])
    && inodes'[i] == inodes[i].(addrs := inodes'[i].addrs)
    && (forall k: nat | k < SLOTS && Addr(blk, inodes[i], k) != 0 ::
      Addr(blk', inodes'[i], k) == Addr(blk, inodes[i], k))
  }

  /** Every block that changed was handed to log_write, and only blocks of the inode, bitmap and
      data areas were. */
  ghost predicate Logs(sb: Super, blk: seq<Block>, logged: set<nat>, blk': seq<Block>, logged': set<nat>) {
    && |blk| == |blk'| == sb.size && logged <= logged'
    && (forall c | 0 <= c < sb.size && blk'[c] != blk[c] :: c in logged')
    && (forall c | c in logged' && c !in logged :: sb.inodestart <= c < sb.size)
  }

  /** No block is left to allocate. */
  ghost predicate Full(sb: Super, blk: seq<Block>)
    requires sb.Valid() && |blk| == sb.size
  {
    forall b: nat | b < sb.size :: Used(sb, blk, b)
  }

  class FileSys {
    const sb: Super
    var blk: seq<Block>
    var inodes: seq<Inode>
    ghost var owner: Owner
    ghost var logged: set<nat>

    constructor (sb: Super, blk: seq<Block>, inodes: seq<Inode>, ghost owner: Owner)
      requires Owns(sb, blk, inodes, owner) && forall i | 0 <= i < |inodes| :: inodes[i].size <= MAXBYTES
      ensures Valid() && this.sb == sb && this.blk == blk && this.inodes == inodes && logged == {}
    {
      this.sb, this.blk, this.inodes := sb, blk, inodes;
      this.owner, logged := owner, {};
    }

    ghost predicate Valid()
      reads this
    {
      Owns(sb, blk, inodes, owner) && forall i | 0 <= i < |inodes| :: inodes[i].size <= MAXBYTES
    }

    /** A zeroed block from the bitmap, the lowest free one; None is the "out of blocks" panic. */
    method Balloc() returns (r: Option<nat>)
      requires sb.Valid() && |blk| == sb.size
      modifies this`blk, this`logged
      ensures r.None? ==> blk == old(blk) && logged == old(logged) && Full(sb, blk)
      ensures r.Some? ==>
                && r.value < sb.size && !Used(sb, old(blk), r.value)
                && (forall c: nat | c < r.value :: Used(sb, old(blk), c))
                && blk == Alloc(sb, old(blk), r.value)
                && logged == old(logged) + {sb.BBlock(r.value), r.value}
    {
      hide Bit, SetBit, Used;
      var b := 0;
      while b < sb.size
        invariant 0 <= b && b % BPB == 0
        invariant blk == old(blk) && logged == old(logged)
        invariant forall c: nat | c < b && c < sb.size :: Used(sb, blk, c)
      {
        BBlockRange(sb, b);
        var bi := ScanBlock(b);
        if bi.Some? {
          InBlock(b, bi.value);
          var bp := SetBit(blk[sb.BBlock(b)], bi.value);
          blk := blk[sb.BBlock(b) := bp];
          logged := logged + {sb.BBlock(b)};
          blk := blk[b + bi.value := Zeros()];
          logged := logged + {b + bi.value};
          return Some(b + bi.value);
        }
        b := b + BPB;
      }
      return None;
    }

    /** balloc's inner loop: the first clear bit of one bitmap block. */
    method ScanBlock(b: nat) returns (r: Option<nat>)
      requires sb.Valid() && |blk| == sb.size && b < sb.size && b % BPB == 0
      ensures r.None? ==> forall c: nat | b <= c < b + BPB && c < sb.size :: Used(sb, blk, c)
      ensures r.Some? ==> r.value < BPB && b + r.value < sb.size && !Used(sb, blk, b + r.value)
                          && forall c: nat | b <= c < b + r.value :: Used(sb, blk, c)
    {
      hide Bit;
      BBlockRange(sb, b);
      var bp := blk[sb.BBlock(b)];
      var bi := 0;
      while bi < BPB && b + bi < sb.size
        invariant 0 <= bi <= BPB
        invariant forall c: nat | b <= c < b + bi && c < sb.size :: Used(sb, blk, c)
      {
        InBlock(b, bi);
        if !Bit(bp[bi / 8], bi % 8) {
          return Some(bi);
        }
        bi := bi + 1;
      }
      return None;
    }

    /** Clear a block's bit; false is the "freeing free block" panic. */
    method Bfree(b: nat) returns (ok: bool)
      requires sb.Valid() && |blk| == sb.size && b < sb.size
      modifies this`blk, this`logged
      ensures ok <==> Used(sb, old(blk), b)
      ensures ok ==> blk == Unmark(sb, old(blk), b) && logged == old(logged) + {sb.BBlock(b)}
      ensures ok ==> Logs(sb, old(blk), old(logged), blk, logged)
    {
      BBlockRange(sb, b);
      var bp := blk[sb.BBlock(b)];
      var bi := b % BPB;
      if !Bit(bp[bi / 8], bi % 8) {
        return false;
      }
      blk := blk[sb.BBlock(b) := ClearBit(bp, bi)];
      logged := logged + {sb.BBlock(b)};
      return true;
    }

    /** Fill an empty direct slot (or the empty indirect pointer) of inode i. */
    method AllocSlot(i: nat, k: nat) returns (r: Option<nat>)
      requires Valid() && i < |inodes| && k <= NDIRECT && inodes[i].addrs[k] == 0
      modifies this
      ensures Valid() && Grown(old(blk), old(inodes), blk, inodes, i)
      ensures forall c | 0 <= c < sb.bmapstart :: blk[c] == old(blk)[c]
      ensures r.None? ==> blk == old(blk) && inodes == old(inodes) && logged == old(logged) && owner == old(owner)
      ensures r.None? ==> Full(sb, blk)
      ensures r.Some? ==>
                && r.value != 0 && r.value < sb.size && !Used(sb, old(blk), r.value)
                && blk[r.value] == Zeros() && inodes[i].addrs == old(inodes)[i].addrs[k := r.value]
                && owner == old(owner)[r.value := (i, k)]
                && logged == old(logged) + {sb.BBlock(r.value), r.value}
      ensures Logs(sb, old(blk), old(logged), blk, logged)
    {
      hide Full, Owns, Grown, Alloc, Used, Logs;
      OwnsShape(sb, blk, inodes, owner);
      GrownSelf(sb, blk, inodes, owner, i);
      LogsNothing(sb, blk, logged);
      r := Balloc();
      if r.Some? {
        var b := r.value;
        LogsAlloc(sb, old(blk), inodes, owner, b, old(logged));
        DirectStep(sb, old(blk), inodes, owner, i, k, b);
        inodes := inodes[i := inodes[i].(addrs := inodes[i].addrs[k := b])];
        owner := owner[b := (i, k)];
      }
    }

    /** Fill an empty entry of inode i's indirect block. */
    method AllocEntry(i: nat, e: nat) returns (r: Option<nat>)
      requires Valid() && i < |inodes| && e < NINDIRECT && inodes[i].addrs[NDIRECT] != 0
      requires Addr(blk, inodes[i], NDIRECT + 1 + e) == 0
      modifies this`blk, this`owner, this`logged
      ensures Valid() && Grown(old(blk), old(inodes), blk, inodes, i)
      ensures forall c | 0 <= c < sb.bmapstart :: blk[c] == old(blk)[c]
      ensures r.None? ==> blk == old(blk) && logged == old(logged) && owner == old(owner) && Full(sb, blk)
      ensures r.Some? ==>
                && r.value != 0 && r.value < sb.size && !Used(sb, old(blk), r.value)
                && Addr(blk, inodes[i], NDIRECT + 1 + e) == r.value
                && owner == old(owner)[r.value := (i, NDIRECT + 1 + e)]
                && logged == old(logged) + {sb.BBlock(r.value), r.value} + {inodes[i].addrs[NDIRECT]}
      ensures Logs(sb, old(blk), old(logged), blk, logged)
    {
      hide Full, Owns, Grown, Alloc, Used, Addr, PutWord, GetWord, Logs;
      OwnsShape(sb, blk, inodes, owner);
      LogsNothing(sb, blk, logged);
      GrownSelf(sb, blk, inodes, owner, i);
      IndirectInData(sb, blk, inodes, owner, i);
      var ind := inodes[i].addrs[NDIRECT];
      var bp := blk[ind];
      r := Balloc();
      if r.Some? {
        ghost var blk1, logged1 := blk, logged;
        LogsAlloc(sb, old(blk), inodes, owner, r.value, old(logged));
        PutEntry(i, e, r.value, bp, old(blk));
        LogsWrite(sb, blk1, logged1, ind, blk[ind]);
        LogsTwice(sb, old(blk), old(logged), blk1, logged1, blk, logged);
      }
    }

    /** Enter a block number in the indirect block and log that block. */
    method PutEntry(i: nat, e: nat, b: nat, bp: Block, ghost blk0: seq<Block>)
      requires sb.Valid() && |blk0| == sb.size && Owns(sb, blk0, inodes, owner)
      requires i < |inodes| && e < NINDIRECT && Shaped(inodes[i]) && inodes[i].addrs[NDIRECT] != 0
      requires Addr(blk0, inodes[i], NDIRECT + 1 + e) == 0
      requires b < sb.size && !Used(sb, blk0, b) && blk == Alloc(sb, blk0, b)
      requires inodes[i].addrs[NDIRECT] < sb.size && bp == blk0[inodes[i].addrs[NDIRECT]]
      modifies this`blk, this`owner, this`logged
      ensures Owns(sb, blk, inodes, owner) && Grown(blk0, inodes, blk, inodes, i) && b != 0
      ensures |blk| == sb.size && sb.bmapstart <= sb.size && forall c | 0 <= c < sb.bmapstart :: blk[c] == blk0[c]
      ensures Addr(blk, inodes[i], NDIRECT + 1 + e) == b
      ensures owner == old(owner)[b := (i, NDIRECT + 1 + e)]
      ensures logged == old(logged) + {inodes[i].addrs[NDIRECT]}
      ensures blk == old(blk)[inodes[i].addrs[NDIRECT] := blk[inodes[i].addrs[NDIRECT]]]
    {
      hide Full, Owns, Grown, Alloc, Used, Addr, PutWord, GetWord;
      EntryStep(sb, blk0, inodes, owner, i, e, b);
      var ind := inodes[i].addrs[NDIRECT];
      blk := blk[ind := PutWord(bp, e, b)];
      logged := logged + {ind};
      owner := owner[b := (i, NDIRECT + 1 + e)];
    }

    /** bmap: the block of slot bn, allocating it (and the indirect block) if necessary. `isNew`
        says whether it was allocated, `via` what was logged for the indirect block. */
    method Bmap(i: nat, bn: nat) returns (r: Option<nat>, ghost isNew: bool, ghost via: set<nat>)
      requires Valid() && i < |inodes| && bn < MAXFILE
      modifies this
      ensures Valid() && Grown(old(blk), old(inodes), blk, inodes, i)
      ensures forall c | 0 <= c < sb.bmapstart :: blk[c] == old(blk)[c]
      ensures r.None? ==> Full(sb, blk)
      ensures r.Some? ==> r.value != 0 && r.value < sb.size && Addr(blk, inodes[i], DataSlot(bn)) == r.value
      ensures r.Some? && bn < 12 ==> r.value == inodes[i].addrs[bn]
      ensures r.Some? && bn >= 12 ==>
                inodes[i].addrs[12] < |blk| && r.value == GetWord(blk[inodes[i].addrs[12]], bn - 12)
      ensures isNew <==> Addr(old(blk), old(inodes)[i], DataSlot(bn)) == 0
      ensures !isNew ==>
                r.Some? && blk == old(blk) && inodes == old(inodes) && owner == old(owner) && logged == old(logged)
      ensures via <= {inodes[i].addrs[NDIRECT], sb.BBlock(inodes[i].addrs[NDIRECT])} && (bn < NDIRECT ==> via == {})
      ensures r.Some? && via != {} ==> inodes[i].addrs[NDIRECT] != 0
      ensures r.Some? && isNew ==> logged == old(logged) + {sb.BBlock(r.value), r.value} + via
      ensures Logs(sb, old(blk), old(logged), blk, logged)
    {
      hide Full, Owns, Grown, Used, Logs;
      OwnsShape(sb, blk, inodes, owner);
      LogsNothing(sb, blk, logged);
      GrownSelf(sb, blk, inodes, owner, i);
      SlotInData(sb, blk, inodes, owner, i, DataSlot(bn));
      SlotInData(sb, blk, inodes, owner, i, NDIRECT);
      via, isNew := {}, false;
      if bn < NDIRECT {
        if inodes[i].addrs[bn] == 0 {
          isNew := true;
          r := AllocSlot(i, bn);
          OwnsShape(sb, blk, inodes, owner);
        } else {
          r := Some(inodes[i].addrs[bn]);
        }
        return;
      }
      r, isNew, via := BmapIndirect(i, bn - NDIRECT);
    }

    /** bmap beyond the direct blocks. */
    method BmapIndirect(i: nat, e: nat) returns (r: Option<nat>, ghost isNew: bool, ghost via: set<nat>)
      requires Valid() && i < |inodes| && e < NINDIRECT
      modifies this
      ensures Valid() && Grown(old(blk), old(inodes), blk, inodes, i)
      ensures forall c | 0 <= c < sb.bmapstart :: blk[c] == old(blk)[c]
      ensures r.None? ==> Full(sb, blk)
      ensures r.Some? ==> r.value != 0 && r.value < sb.size && Addr(blk, inodes[i], NDIRECT + 1 + e) == r.value
      ensures isNew <==> Addr(old(blk), old(inodes)[i], NDIRECT + 1 + e) == 0
      ensures !isNew ==>
                r.Some? && blk == old(blk) && inodes == old(inodes) && owner == old(owner) && logged == old(logged)
      ensures via <= {inodes[i].addrs[NDIRECT], sb.BBlock(inodes[i].addrs[NDIRECT])}
      ensures r.Some? ==> inodes[i].addrs[NDIRECT] != 0
      ensures r.Some? && isNew ==> logged == old(logged) + {sb.BBlock(r.value), r.value} + via
      ensures Logs(sb, old(blk), old(logged), blk, logged)
    {
      hide Full, Owns, Grown, Used, Logs;
      OwnsShape(sb, blk, inodes, owner);
      LogsNothing(sb, blk, logged);
      GrownSelf(sb, blk, inodes, owner, i);
      SlotInData(sb, blk, inodes, owner, i, NDIRECT + 1 + e);
      via, isNew := {}, Addr(blk, inodes[i], NDIRECT + 1 + e) == 0;
      if inodes[i].addrs[NDIRECT] == 0 {
        r := AllocSlot(i, NDIRECT);
        if r.None? { return; }
        via := {sb.BBlock(r.value), r.value};
        OwnsShape(sb, blk, inodes, owner);
        ZeroWord(e);
      }
      ghost var blk1, inodes1, logged1 := blk, inodes, logged;
      SlotInData(sb, blk, inodes, owner, i, NDIRECT);
      var a := GetWord(blk[inodes[i].addrs[NDIRECT]], e);
      if a == 0 {
        r := AllocEntry(i, e);
        GrownTwice(old(blk), old(inodes), blk1, inodes1, blk, inodes, i);
        LogsTwice(sb, old(blk), old(logged), blk1, logged1, blk, logged);
        via := via + {inodes[i].addrs[NDIRECT]};
      } else {
        r := Some(a);
      }
    }

    /** No empty slot below the size. */
    ghost predicate NoHoles(i: nat)
      requires i < |inodes| && Shaped(inodes[i])
      reads this
    {
      Filled(blk, inodes[i], inodes[i].size)
    }

    /** The bytes of file i. */
    ghost function File(i: nat): (r: seq<Byte>)
      requires i < |inodes| && Shaped(inodes[i]) && inodes[i].size <= MAXBYTES
      reads this
    {
      Content(blk, inodes[i])
    }

    /** readi: -1 if the range starts past the end or wraps around; otherwise the bytes from off
        on, as far as the file goes. Reading changes no file. */
    method Readi(i: nat, off: Word, n: Word) returns (r: Outcome, dst: seq<Byte>)
      requires Valid() && i < |inodes|
      modifies this
      ensures Valid() && Grown(old(blk), old(inodes), blk, inodes, i)
      ensures old(NoHoles(i)) ==> !r.Panic? && blk == old(blk) && inodes == old(inodes) && logged == old(logged)
      ensures r.Fail? <==> off > old(inodes)[i].size || off + n >= UINT
      ensures r.Panic? ==> Full(sb, blk)
      ensures r.Count? ==>
                && off <= old(inodes)[i].size
                && r.n == |dst| == (if off + n > old(inodes)[i].size then old(inodes)[i].size - off else n)
                && dst == old(File(i))[off..off + r.n]
    {
      hide Full, Owns, Grown, Used, Content, Flat, Filled;
      OwnsShape(sb, blk, inodes, owner);
      GrownSelf(sb, blk, inodes, owner, i);
      dst := [];
      if off > inodes[i].size || off + n >= UINT {
        return Fail, dst;
      }
      var n1 := if off + n > inodes[i].size then inodes[i].size - off else n;
      ContentSlice(blk, inodes[i], off, n1);
      r, dst := ReadLoop(i, off, n1);
    }

    method ReadLoop(i: nat, off: nat, n: nat) returns (r: Outcome, dst: seq<Byte>)
      requires Valid() && i < |inodes| && Shaped(inodes[i]) && off + n <= inodes[i].size
      modifies this
      ensures Valid() && Grown(old(blk), old(inodes), blk, inodes, i)
      ensures r.Panic? || (r == Count(n) && |dst| == n)
      ensures r.Panic? ==> Full(sb, blk)
      ensures Filled(old(blk), old(inodes)[i], old(inodes)[i].size) ==>
                !r.Panic? && blk == old(blk) && inodes == old(inodes) && logged == old(logged)
      ensures r.Count? ==> old(inodes)[i].size <= MAXBYTES && dst == Flat(old(blk), old(inodes)[i])[off..off + n]
    {
      hide Full, Owns, Grown, Used, Flat, Filled;
      GrownSelf(sb, blk, inodes, owner, i);
      ghost var (blk0, inodes0, size) := (blk, inodes, inodes[i].size);
      ghost var f := Flat(blk, inodes[i]);
      assert inodes[i].size <= MAXBYTES;
      dst := [];
      var tot, o := 0, off;
      while tot < n
        invariant 0 <= tot <= n && o == off + tot
        invariant Valid() && Grown(blk0, inodes0, blk, inodes, i)
        invariant Filled(blk0, inodes0[i], size) ==> blk == blk0 && inodes == inodes0 && logged == old(logged)
        invariant dst == f[off..o]
      {
        var chunk;
        ghost var (blk1, inodes1) := (blk, inodes);
        GrownFlat(blk0, inodes0, blk, inodes, i);
        r, chunk := ReadChunk(i, o, n - tot);
        GrownTwice(blk0, inodes0, blk1, inodes1, blk, inodes, i);
        if r.Panic? {
          return;
        }
        assert f[off..o] + f[o..o + |chunk|] == f[off..o + |chunk|];
        dst := dst + chunk;
        tot, o := tot + |chunk|, o + |chunk|;
      }
      r := Count(n);
    }

    /** One turn of readi's loop. */
    method ReadChunk(i: nat, off: nat, left: nat) returns (r: Outcome, chunk: seq<Byte>)
      requires Valid() && i < |inodes| && left > 0 && off + left <= inodes[i].size
      modifies this
      ensures Valid() && Grown(old(blk), old(inodes), blk, inodes, i)
      ensures !r.Fail? && (Filled(old(blk), old(inodes)[i], old(inodes)[i].size) ==>
                             r.Count? && blk == old(blk) && inodes == old(inodes) && logged == old(logged))
      ensures r.Panic? ==> Full(sb, blk)
      ensures r.Count? ==> 0 < |chunk| <= left && Shaped(old(inodes)[i]) && old(inodes)[i].size <= MAXBYTES
                           && chunk == Flat(old(blk), old(inodes)[i])[off..off + |chunk|]
    {
      hide Full, Owns, Grown, Used, Flat, Addr;
      OwnsShape(sb, blk, inodes, owner);
      assert inodes[i].size <= MAXBYTES;
      chunk := [];
      ghost var isNew, via;
      var a;
      var bn, o := off / BSIZE, off % BSIZE;
      a, isNew, via := Bmap(i, bn);
      if a.None? {
        return Panic, chunk;
      }
      OwnsShape(sb, blk, inodes, owner);
      var m := if left < BSIZE - o then left else BSIZE - o;
      chunk := blk[a.value][o..o + m];
      assert blk[a.value] == DataBlock(blk, inodes[i], bn);
      GrownFlat(old(blk), old(inodes), blk, inodes, i);
      FlatChunk(blk, inodes[i], off, m);
      r := Count(m);
    }

    /** iupdate: copy the in-memory inode to its place in its inode block. */
    method Iupdate(i: nat)
      requires Valid() && i < |inodes|
      modifies this`blk, this`logged
      ensures Valid() && SameFiles(old(blk), inodes, blk, inodes)
      ensures logged == old(logged) + {sb.IBlock(i)}
      ensures forall k: nat | k < SLOTS :: Addr(blk, inodes[i], k) == Addr(old(blk), inodes[i], k)
      ensures OnDisk(sb, blk, inodes, i)
      ensures forall j: nat | j < |inodes| && OnDisk(sb, old(blk), inodes, j) :: OnDisk(sb, blk, inodes, j)
      ensures Logs(sb, old(blk), old(logged), blk, logged)
    {
      hide Full, Owns, OnDisk, SameFiles, Addr, PutDinode, Logs;
      OwnsShape(sb, blk, inodes, owner);
      IBlockRange(sb, i);
      var x := PutDinode(blk[sb.IBlock(i)], i % IPB, inodes[i]);
      InodeWritten(sb, blk, inodes, owner, i);
      LogsWrite(sb, blk, logged, sb.IBlock(i), x);
      blk := blk[sb.IBlock(i) := x];
      logged := logged + {sb.IBlock(i)};
    }

    /** One turn of writei's loop: x is what is left to write. */
    method WriteChunk(i: nat, off: nat, x: seq<Byte>)
      returns (r: Outcome, ghost a: nat, ghost isNew: bool, ghost via: set<nat>)
      requires Valid() && i < |inodes| && |x| > 0 && off + |x| <= MAXBYTES
      modifies this
      ensures Valid() && Wrote(old(blk), old(inodes), blk, inodes, i)
      ensures |blk| == |old(blk)| == sb.size && forall c | 0 <= c < sb.bmapstart <= sb.size :: blk[c] == old(blk)[c]
      ensures !r.Fail? && (r.Panic? ==> Full(sb, blk))
      ensures r.Count? ==> 0 < r.n <= |x|
      ensures r.Count? ==>
                ChunkDone(sb, old(blk), old(inodes), old(logged), blk, inodes, logged, i, off, x, r.n, a, isNew, via)
      ensures Logs(sb, old(blk), old(logged), blk, logged)
    {
      hide Full, Owns, Grown, Used, Flat, Wrote, Splice, Patch, Logs;
      OwnsShape(sb, blk, inodes, owner);
      a := 0;
      var bp;
      bp, isNew, via := Bmap(i, off / BSIZE);
      OwnsShape(sb, blk, inodes, owner);
      GrownWrote(old(blk), old(inodes), blk, inodes, i);
      if bp.None? {
        return Panic, a, isNew, via;
      }
      a := bp.value;
      var m := if |x| < BSIZE - off % BSIZE then |x| else BSIZE - off % BSIZE;
      ghost var blk1, inodes1, logged1 := blk, inodes, logged;
      GrownFlat(old(blk), old(inodes), blk, inodes, i);
      SlotInData(sb, blk, inodes, owner, i, DataSlot(off / BSIZE));
      LogsWrite(sb, blk, logged, a, Patch(blk[a], off % BSIZE, x[..m]));
      ChunkWritten(sb, blk, inodes, owner, i, off, x[..m]);
      blk := blk[bp.value := Patch(blk[bp.value], off % BSIZE, x[..m])];
      logged := logged + {a};
      if !isNew { via := {}; }
      WroteTwice(old(blk), old(inodes), blk1, inodes1, blk, inodes, i);
      LogsTwice(sb, old(blk), old(logged), blk1, logged1, blk, logged);
      r := Count(m);
    }

    /** writei's loop, with a tally of the blocks it visits, allocates and logs. */
    method WriteLoop(i: nat, off: nat, src: seq<Byte>) returns (r: Outcome, ghost t: Tally)
      requires Valid() && i < |inodes| && off + |src| <= MAXBYTES
      modifies this
      ensures Valid() && Wrote(old(blk), old(inodes), blk, inodes, i)
      ensures forall c | 0 <= c < sb.bmapstart :: blk[c] == old(blk)[c]
      ensures !r.Fail? && (r.Panic? ==> Full(sb, blk))
      ensures r.Count? ==>
                && r.n == |src|
                && Flat(blk, inodes[i]) == Splice(Flat(old(blk), old(inodes)[i]), off, src)
                && Covered(blk, inodes[i], off, off + |src|)
                && (t.news == 0 ==> inodes == old(inodes))
                && Visited(off, off + |src|, off + |src|, t.turns)
                && Allocated(old(blk), old(inodes)[i], off, off + |src|, t)
                && Tallied(sb, t, old(logged), logged, inodes[i])
      ensures Logs(sb, old(blk), old(logged), blk, logged)
    {
      hide Full, Owns, LoopInv, Wrote, ChunkDone, Logs;
      OwnsShape(sb, blk, inodes, owner);
      LogsNothing(sb, blk, logged);
      ghost var (blk0, inodes0, logged0) := (blk, inodes, logged);
      t := Tally(0, 0, {}, {}, {});
      LoopStart(sb, blk, inodes, owner, i, off, src, logged);
      var tot, o := 0, off;
      while tot < |src|
        invariant 0 <= tot <= |src| && o == off + tot && i < |inodes|
        invariant Valid() && LoopInv(sb, blk0, inodes0, logged0, blk, inodes, logged, i, off, src, tot, t)
        invariant Logs(sb, blk0, logged0, blk, logged)
      {
        ghost var (blk1, inodes1, logged1) := (blk, inodes, logged);
        ghost var a, isNew, via;
        LoopFacts(sb, blk0, inodes0, logged0, blk, inodes, logged, i, off, src, tot, t);
        r, a, isNew, via := WriteChunk(i, o, src[tot..]);
        LogsTwice(sb, blk0, logged0, blk1, logged1, blk, logged);
        if r.Panic? {
          WroteTwice(blk0, inodes0, blk1, inodes1, blk, inodes, i);
          return;
        }
        LoopMore(sb, blk0, inodes0, logged0, blk1, inodes1, logged1, blk, inodes, logged,
                 i, off, src, tot, t, r.n, a, isNew, via);
        t := Count1(t, sb, a, isNew, via);
        tot, o := tot + r.n, o + r.n;
      }
      LoopFacts(sb, blk0, inodes0, logged0, blk, inodes, logged, i, off, src, tot, t);
      assert src[..tot] == src;
      r := Count(|src|);
    }

    /** writei: -1 if the range starts past the end, wraps around, or goes past the largest file;
        otherwise the bytes are spliced into the file, which grows if need be, and no other file
        changes. If the file has no holes it still has none, the inode on disk stays current, and
        a write of at most three blocks' worth of bytes logs at most MAXOPBLOCKS blocks. */
    method Writei(i: nat, off: Word, src: seq<Byte>) returns (r: Outcome)
      requires Valid() && i < |inodes| && |src| < UINT
      modifies this
      ensures Valid() && |inodes| == |old(inodes)|
      ensures r.Fail? <==> off > old(inodes)[i].size || off + |src| > MAXBYTES
      ensures r.Fail? ==> blk == old(blk) && inodes == old(inodes) && logged == old(logged)
      ensures r.Panic? ==> Full(sb, blk)
      ensures inodes[i].meta0 == old(inodes)[i].meta0 && inodes[i].meta1 == old(inodes)[i].meta1
      ensures forall j: nat | j < |inodes| && j != i :: inodes[j] == old(inodes)[j] && File(j) == old(File(j))
      ensures r.Count? ==>
                && r.n == |src| && off <= |old(File(i))|
                && File(i) == Written(old(File(i)), off, src)
      ensures r.Count? && old(NoHoles(i)) ==> NoHoles(i)
      ensures r.Count? && old(NoHoles(i)) && old(AllOnDisk()) ==> AllOnDisk()
      ensures r.Count? && old(NoHoles(i)) && |src| <= CHUNK ==> |logged - old(logged)| <= MAXOPBLOCKS
      ensures Logs(sb, old(blk), old(logged), blk, logged)
    {
      hide Logs, Full, Owns, Wrote, Flat, Content, Splice, Written, Visited, Allocated, Tallied, Filled, Covered;
      hide OnDisk, SameFiles, Addr;
      OwnsShape(sb, blk, inodes, owner);
      LogsNothing(sb, blk, logged);
      ghost var blk0, inodes0, logged0 := blk, inodes, logged;
      if off > inodes[i].size || off + |src| >= UINT {
        return Fail;
      }
      if off + |src| > MAXBYTES {
        return Fail;
      }
      ghost var t;
      r, t := WriteLoop(i, off, src);
      OwnsShape(sb, blk, inodes, owner);
      OthersWritten(blk0, inodes0, blk, inodes, i);
      if r.Panic? {
        return;
      }
      var end := off + |src|;
      ghost var blk1, inodes1, logged1 := blk, inodes, logged;
      StillOnDisk(sb, blk0, inodes0, blk, inodes, i);
      if |src| > 0 && end > inodes[i].size {
        Grow(i, end);
        LogsTwice(sb, blk0, logged0, blk1, logged1, blk, logged);
        OthersSame(blk1, inodes, blk, inodes, i);
      } else {
        NothingNew(blk0, inodes0[i], off, end, t);
      }
      FlatUnsized(blk1, inodes1[i], inodes[i]);
      Spliced(blk0, inodes0[i], blk, inodes[i], off, src);
      NoNewHoles(blk0, inodes0, blk1, inodes1, i, blk, inodes[i], off, end);
      SmallWrite(sb, blk0, inodes0[i], inodes1[i], off, end, t, logged0, logged, sb.IBlock(i));
    }

    /** The end of writei when the file has become longer. */
    method Grow(i: nat, end: Word)
      requires Valid() && i < |inodes| && inodes[i].size < end <= MAXBYTES
      modifies this`blk, this`inodes, this`logged
      ensures Valid() && inodes == old(inodes)[i := old(inodes)[i].(size := end)]
      ensures SameFiles(old(blk), inodes, blk, inodes)
      ensures logged == old(logged) + {sb.IBlock(i)}
      ensures forall k: nat | k < SLOTS :: Addr(blk, inodes[i], k) == Addr(old(blk), inodes[i], k)
      ensures OnDisk(sb, blk, inodes, i)
      ensures forall j: nat | j < |inodes| && j != i && OnDisk(sb, old(blk), old(inodes), j) ::
              OnDisk(sb, blk, inodes, j)
      ensures Logs(sb, old(blk), old(logged), blk, logged)
    {
      hide Full, Owns, SameFiles, Addr, Logs;
      OwnsShape(sb, blk, inodes, owner);
      Resized(sb, blk, inodes, owner, i, end);
      inodes := inodes[i := inodes[i].(size := end)];
      Iupdate(i);
    }

    /** itrunc: every block of the inode goes back to the free map, and no other block does; the
        file becomes empty and no other file changes. False would be "freeing free block". */
    method Itrunc(i: nat) returns (ok: bool)
      requires Valid() && i < |inodes|
      modifies this
      ensures ok && Valid() && |inodes| == |old(inodes)|
      ensures inodes[i].size == 0 && File(i) == [] && forall k | 0 <= k <= NDIRECT :: inodes[i].addrs[k] == 0
      ensures owner == old(owner) - Held(old(owner), i)
      ensures forall b: nat | b < sb.size :: Used(sb, blk, b) <==> Used(sb, old(blk), b) && b !in Held(old(owner), i)
      ensures forall j: nat | j < |inodes| && j != i :: inodes[j] == old(inodes)[j] && File(j) == old(File(j))
      ensures OnDisk(sb, blk, inodes, i)
      ensures forall j: nat | j < |inodes| && j != i && OnDisk(sb, old(blk), old(inodes), j) ::
                OnDisk(sb, blk, inodes, j)
      ensures Logs(sb, old(blk), old(logged), blk, logged)
      ensures logged == old(logged) + BitmapOf(sb, old(owner), i) + {sb.IBlock(i)}
      ensures old(logged) == {} ==>
                (|logged| <= MAXOPBLOCKS <==> |BitmapOf(sb, old(owner), i)| < MAXOPBLOCKS)
    {
      hide Full, Owns, Used, Freeing, Addr, OnDisk, Content, SameFiles, Held, Logs, Bits, BitmapOf, BitsOnly;
      ghost var blk0, inodes0, owner0, logged0 := blk, inodes, owner, logged;
      OwnsShape(sb, blk, inodes, owner);
      ok := FreeDirect(i, blk0, inodes0, logged0);
      ok := FreeIndirect(i, blk0, inodes0, logged0);
      inodes := inodes[i := inodes[i].(size := 0)];
      BitsAll(sb, blk0, inodes0, owner0, i);
      TruncateFits(sb, blk0, inodes0, owner0, i);
      InodesKept(sb, blk0, inodes0, blk, inodes, i);
      AllFreed(sb, blk0, blk, inodes0, owner0, i, inodes[i]);
      assert inodes == inodes0[i := inodes[i]];
      owner := owner0 - Held(owner0, i);
      ghost var blk1, logged1 := blk, logged;
      Iupdate(i);
      LogsTwice(sb, blk0, logged0, blk1, logged1, blk, logged);
      OthersSame(blk1, inodes, blk, inodes, i);
      OwnsUsed(sb, blk, inodes, owner);
      OwnsUsed(sb, blk0, inodes0, owner0);
    }

    method FreeDirect(i: nat, ghost blk0: seq<Block>, ghost inodes0: seq<Inode>, ghost logged0: set<nat>)
      returns (ok: bool)
      requires Owns(sb, blk0, inodes0, owner) && i < |inodes| && blk == blk0 && inodes == inodes0 && logged == logged0
      modifies this`blk, this`inodes, this`logged
      ensures ok && Freeing(sb, blk0, blk, owner, i, NDIRECT, NDIRECT) && |blk| == sb.size
      ensures |inodes| == |inodes0| && Shaped(inodes[i])
              && inodes == inodes0[i := inodes0[i].(addrs := inodes[i].addrs)]
      ensures inodes[i].addrs[NDIRECT] == inodes0[i].addrs[NDIRECT]
      ensures forall k | 0 <= k < NDIRECT :: inodes[i].addrs[k] == 0
      ensures Logs(sb, blk0, logged0, blk, logged) && BitsOnly(sb, blk0, blk)
      ensures logged == logged0 + Bits(sb, owner, i, NDIRECT, NDIRECT)
    {
      hide Full, Owns, Freeing, Used, Logs, BitsOnly, Bits;
      OwnsShape(sb, blk, inodes, owner);
      LogsNothing(sb, blk, logged);
      FreeNothing(sb, blk, inodes, owner, i);
      var k := 0;
      while k < NDIRECT
        invariant 0 <= k <= NDIRECT && Freeing(sb, blk0, blk, owner, i, k, NDIRECT) && |blk| == sb.size
        invariant |inodes| == |inodes0| && Shaped(inodes[i])
                  && inodes == inodes0[i := inodes0[i].(addrs := inodes[i].addrs)]
        invariant forall m | 0 <= m <= NDIRECT :: inodes[i].addrs[m] == if m < k then 0 else inodes0[i].addrs[m]
        invariant Logs(sb, blk0, logged0, blk, logged) && BitsOnly(sb, blk0, blk)
        invariant logged == logged0 + Bits(sb, owner, i, k, NDIRECT)
      {
        FreeSlot(sb, blk0, inodes0, owner, i, k, k, NDIRECT, k + 1, NDIRECT, blk);
        BitsMore(sb, blk0, inodes0, owner, i, k, k, NDIRECT, k + 1, NDIRECT, logged0);
        if inodes[i].addrs[k] != 0 {
          ghost var blk1, logged1 := blk, logged;
          BitCleared(sb, blk0, blk, inodes[i].addrs[k]);
          ok := Bfree(inodes[i].addrs[k]);
          LogsTwice(sb, blk0, logged0, blk1, logged1, blk, logged);
          inodes := inodes[i := inodes[i].(addrs := inodes[i].addrs[k := 0])];
        }
        k := k + 1;
      }
      ok := true;
    }

    method FreeIndirect(i: nat, ghost blk0: seq<Block>, ghost inodes0: seq<Inode>, ghost logged0: set<nat>)
      returns (ok: bool)
      requires Logs(sb, blk0, logged0, blk, logged) && BitsOnly(sb, blk0, blk)
      requires logged == logged0 + Bits(sb, owner, i, NDIRECT, NDIRECT)
      requires Owns(sb, blk0, inodes0, owner) && i < |inodes| == |inodes0| && |blk| == sb.size
      requires Freeing(sb, blk0, blk, owner, i, NDIRECT, NDIRECT) && Shaped(inodes[i])
      requires inodes == inodes0[i := inodes0[i].(addrs := inodes[i].addrs)]
      requires inodes[i].addrs[NDIRECT] == inodes0[i].addrs[NDIRECT]
      requires forall k | 0 <= k < NDIRECT :: inodes[i].addrs[k] == 0
      modifies this`blk, this`inodes, this`logged
      ensures ok && Freeing(sb, blk0, blk, owner, i, NDIRECT + 1, SLOTS - 1) && |blk| == sb.size
      ensures |inodes| == |inodes0| && Shaped(inodes[i])
              && inodes == inodes0[i := inodes0[i].(addrs := inodes[i].addrs)]
      ensures forall k | 0 <= k <= NDIRECT :: inodes[i].addrs[k] == 0
      ensures Logs(sb, blk0, logged0, blk, logged) && BitsOnly(sb, blk0, blk)
      ensures logged == logged0 + Bits(sb, owner, i, NDIRECT + 1, SLOTS - 1)
    {
      hide Full, Owns, Freeing, Used, Logs, BitsOnly, Bits;
      OwnsShape(sb, blk0, inodes0, owner);
      SlotInData(sb, blk0, inodes0, owner, i, NDIRECT);
      var ind := inodes[i].addrs[NDIRECT];
      if ind == 0 {
        NoIndirect(sb, blk0, inodes0, owner, i, blk);
        return true;
      }
      FreeKeepsData(sb, blk0, blk, owner, i, NDIRECT, NDIRECT, ind);
      var a := blk[ind];
      var j := 0;
      while j < NINDIRECT
        invariant 0 <= j <= NINDIRECT && Freeing(sb, blk0, blk, owner, i, NDIRECT, NDIRECT + j) && |blk| == sb.size
        invariant Logs(sb, blk0, logged0, blk, logged) && BitsOnly(sb, blk0, blk)
        invariant logged == logged0 + Bits(sb, owner, i, NDIRECT, NDIRECT + j)
        modifies this`blk, this`logged
      {
        FreeSlot(sb, blk0, inodes0, owner, i, NDIRECT + 1 + j, NDIRECT, NDIRECT + j, NDIRECT, NDIRECT + j + 1, blk);
        BitsMore(sb, blk0, inodes0, owner, i, NDIRECT + 1 + j, NDIRECT, NDIRECT + j, NDIRECT, NDIRECT + j + 1, logged0);
        if GetWord(a, j) != 0 {
          ghost var blk1, logged1 := blk, logged;
          BitCleared(sb, blk0, blk, GetWord(a, j));
          ok := Bfree(GetWord(a, j));
          LogsTwice(sb, blk0, logged0, blk1, logged1, blk, logged);
        }
        j := j + 1;
      }
      FreeSlot(sb, blk0, inodes0, owner, i, NDIRECT, NDIRECT, SLOTS - 1, NDIRECT + 1, SLOTS - 1, blk);
      BitsMore(sb, blk0, inodes0, owner, i, NDIRECT, NDIRECT, SLOTS - 1, NDIRECT + 1, SLOTS - 1, logged0);
      BitCleared(sb, blk0, blk, ind);
      ghost var blk1, logged1 := blk, logged;
      ok := Bfree(ind);
      LogsTwice(sb, blk0, logged0, blk1, logged1, blk, logged);
      inodes := inodes[i := inodes[i].(addrs := inodes[i].addrs[NDIRECT := 0])];
    }

    ghost predicate AllOnDisk()
      requires Valid()
      reads this
    {
      forall i: nat | i < |inodes| :: OnDisk(sb, blk, inodes, i)
    }
  }

  lemma LogsNothing(sb: Super, blk: seq<Block>, logged: set<nat>)
    requires |blk| == sb.size
    ensures Logs(sb, blk, logged, blk, logged)
  {
  }

  lemma LogsWrite(sb: Super, blk: seq<Block>, logged: set<nat>, c: nat, x: Block)
    requires |blk| == sb.size && sb.inodestart <= c < sb.size
    ensures Logs(sb, blk, logged, blk[c := x], logged + {c})
  {
  }

  lemma LogsTwice(sb: Super, blk: seq<Block>, logged: set<nat>, blk1: seq<Block>, logged1: set<nat>,
                  blk2: seq<Block>, logged2: set<nat>)
    requires Logs(sb, blk, logged, blk1, logged1) && Logs(sb, blk1, logged1, blk2, logged2)
    ensures Logs(sb, blk, logged, blk2, logged2)
  {
    forall c | 0 <= c < sb.size && blk2[c] != blk[c] ensures c in logged2 {
      assert blk2[c] != blk1[c] || blk1[c] != blk[c];
    }
  }

  lemma LogsAlloc(sb: Super, blk: seq<Block>, inodes: seq<Inode>, owner: Owner, b: nat, logged: set<nat>)
    requires Owns(sb, blk, inodes, owner) && b < sb.size && !Used(sb, blk, b)
    ensures Logs(sb, blk, logged, Alloc(sb, blk, b), logged + {sb.BBlock(b), b})
  {
    hide Used, SetBit;
    FreeBlock(sb, blk, inodes, owner, b);
    BBlockRange(sb, b);
  }

  lemma Resized(sb: Super, blk: seq<Block>, inodes: seq<Inode>, owner: Owner, i: nat, size: Word)
    requires Owns(sb, blk, inodes, owner) && i < |inodes|
    ensures Owns(sb, blk, inodes[i := inodes[i].(size := size)], owner)
  {
    hide Used;
    var inodes' := inodes[i := inodes[i].(size := size)];
    assert forall j: nat, k: nat | j < |inodes| && k < SLOTS :: Addr(blk, inodes'[j], k) == Addr(blk, inodes[j], k);
  }

  lemma OthersWritten(blk: seq<Block>, inodes: seq<Inode>, blk': seq<Block>, inodes': seq<Inode>, i: nat)
    requires Wrote(blk, inodes, blk', inodes', i)
    ensures |inodes'| == |inodes| && i < |inodes| && Shaped(inodes[i]) && Shaped(inodes'[i])
    ensures inodes'[i] == inodes[i].(addrs := inodes'[i].addrs)
    ensures forall j: nat | j < |inodes| && j != i ::
              inodes'[j] == inodes[j] && Shaped(inodes[j]) && Flat(blk', inodes[j]) == Flat(blk, inodes[j])
    ensures forall j: nat | j < |inodes| && j != i && inodes[j].size <= MAXBYTES ::
              Content(blk', inodes[j]) == Content(blk, inodes[j])
  {
    hide Flat, DataBlock, Addr;
    forall j: nat | j < |inodes| && j != i
      ensures inodes'[j] == inodes[j] && Shaped(inodes[j]) && Flat(blk', inodes[j]) == Flat(blk, inodes[j])
    {
      SameFlat(blk, inodes[j], blk', inodes'[j]);
    }
  }

  lemma OthersSame(blk: seq<Block>, inodes: seq<Inode>, blk': seq<Block>, inodes': seq<Inode>, i: nat)
    requires SameFiles(blk, inodes, blk', inodes')
    ensures |inodes| == |inodes'|
    ensures forall j: nat | j < |inodes| ::
            Shaped(inodes[j]) && Shaped(inodes'[j]) && Flat(blk', inodes'[j]) == Flat(blk, inodes[j])
    ensures forall j: nat | j < |inodes| && inodes[j].size == inodes'[j].size <= MAXBYTES ::
              Content(blk', inodes'[j]) == Content(blk, inodes[j])
  {
    hide Flat, DataBlock;
    forall j: nat | j < |inodes|
      ensures Shaped(inodes[j]) && Shaped(inodes'[j]) && Flat(blk', inodes'[j]) == Flat(blk, inodes[j])
    {
      SameFlat(blk, inodes[j], blk', inodes'[j]);
    }
  }

  lemma StillOnDisk(sb: Super, blk: seq<Block>, inodes: seq<Inode>, blk': seq<Block>, inodes': seq<Inode>, i: nat)
    requires sb.Valid() && |blk| == |blk'| == sb.size && |inodes| == |inodes'| == sb.ninodes
    requires forall c | 0 <= c < sb.bmapstart :: blk'[c] == blk[c]
    ensures forall j: nat | j < |inodes| && inodes'[j] == inodes[j] && OnDisk(sb, blk, inodes, j) ::
            OnDisk(sb, blk', inodes', j)
  {
    hide Dinode;
    forall j: nat | j < |inodes| && inodes'[j] == inodes[j] && OnDisk(sb, blk, inodes, j)
      ensures OnDisk(sb, blk', inodes', j)
    {
      IBlockRange(sb, j);
    }
  }

  /** Overwriting inside a file without holes allocates nothing. */
  lemma NothingNew(blk: seq<Block>, ip: Inode, off: nat, end: nat, t: Tally)
    requires Shaped(ip) && off <= end && (off == end || end <= ip.size) && Allocated(blk, ip, off, end, t)
    ensures Filled(blk, ip, ip.size) ==> t.news == 0
  {
    hide Addr;
  }

  /** The flat file does not depend on the size field. */
  lemma FlatUnsized(blk: seq<Block>, ip: Inode, ip': Inode)
    requires Shaped(ip) && ip' == ip.(size := ip'.size)
    ensures Flat(blk, ip') == Flat(blk, ip)
    ensures forall k: nat | k < SLOTS :: Addr(blk, ip', k) == Addr(blk, ip, k)
  {
    assert forall k: nat | k < SLOTS :: Addr(blk, ip', k) == Addr(blk, ip, k);
    SameFlat(blk, ip, blk, ip');
  }

  lemma Spliced(blk: seq<Block>, ip: Inode, blk': seq<Block>, ip': Inode, off: nat, src: seq<Byte>)
    requires Shaped(ip) && Shaped(ip') && off <= ip.size <= MAXBYTES && off + |src| <= MAXBYTES
    requires ip'.size == if off + |src| > ip.size then off + |src| else ip.size
    requires Flat(blk', ip') == Splice(Flat(blk, ip), off, src)
    ensures Content(blk', ip') == Written(Content(blk, ip), off, src)
  {
    hide Flat;
    ContentAfterWrite(Flat(blk, ip), ip.size, off, src);
  }

  lemma NoNewHoles(blk0: seq<Block>, inodes0: seq<Inode>, blk1: seq<Block>, inodes1: seq<Inode>, i: nat,
                   blk: seq<Block>, ip: Inode, off: nat, end: nat)
    requires Wrote(blk0, inodes0, blk1, inodes1, i) && Covered(blk1, inodes1[i], off, end) && Shaped(ip)
    requires off <= inodes0[i].size && off <= end && ip.size == if end > inodes0[i].size then end else inodes0[i].size
    requires forall k: nat | k < SLOTS :: Addr(blk, ip, k) == Addr(blk1, inodes1[i], k)
    ensures Filled(blk0, inodes0[i], inodes0[i].size) ==> Filled(blk, ip, ip.size)
  {
    hide Addr, DataBlock;
    if Filled(blk0, inodes0[i], inodes0[i].size) {
      forall bn: nat | bn < MAXFILE && bn * BSIZE < ip.size ensures Addr(blk, ip, DataSlot(bn)) != 0 {
        if bn * BSIZE < inodes0[i].size {
          assert Addr(blk0, inodes0[i], DataSlot(bn)) != 0;
        } else {
          assert off / BSIZE <= bn && off < end;
        }
      }
    }
  }

  /** The transaction bound: four blocks at most, of which an unaligned write already has the
      first; a bitmap block for each of the others; the indirect block and its bitmap block; the
      inode. That makes ten. */
  lemma SmallWrite(sb: Super, blk: seq<Block>, ip0: Inode, ip: Inode, off: nat, end: nat, t: Tally,
                   logged0: set<nat>, logged: set<nat>, inodeBlock: nat)
    requires Shaped(ip0) && Shaped(ip) && off <= ip0.size && off <= end <= MAXBYTES
    requires Visited(off, end, end, t.turns) && Allocated(blk, ip0, off, end, t)
    requires exists mid :: Tallied(sb, t, logged0, mid, ip) && logged <= mid + {inodeBlock}
    ensures Filled(blk, ip0, ip0.size) && end - off <= CHUNK ==> |logged - logged0| <= MAXOPBLOCKS
  {
    hide Addr;
    if Filled(blk, ip0, ip0.size) && end - off <= CHUNK {
      assert off == off / BSIZE * BSIZE + off % BSIZE;
      var first := off / BSIZE;
      if off % BSIZE > 0 {
        assert first * BSIZE < ip0.size;
        assert t.turns <= 4 && t.news <= 3;
      } else {
        assert t.turns <= 3;
      }
      var mid :| Tallied(sb, t, logged0, mid, ip) && logged <= mid + {inodeBlock};
      TallySize(t, ip, sb, inodeBlock, logged - logged0);
    }
  }

  lemma TallySize(t: Tally, ip: Inode, sb: Super, inodeBlock: nat, s: set<nat>)
    requires Shaped(ip) && |t.data| <= t.turns && |t.maps| <= t.news
    requires t.via <= {ip.addrs[NDIRECT], sb.BBlock(ip.addrs[NDIRECT])}
    requires s <= t.data + t.maps + t.via + {inodeBlock}
    ensures |s| <= t.turns + t.news + 3
  {
    SubsetSize(s, t.data + t.maps + t.via + {inodeBlock});
    SubsetSize(t.via, {ip.addrs[NDIRECT], sb.BBlock(ip.addrs[NDIRECT])});
    OneMore({ip.addrs[NDIRECT]}, sb.BBlock(ip.addrs[NDIRECT]));
    assert {ip.addrs[NDIRECT]} + {sb.BBlock(ip.addrs[NDIRECT])} == {ip.addrs[NDIRECT], sb.BBlock(ip.addrs[NDIRECT])};
    UnionSize(t.data, t.maps);
    UnionSize(t.data + t.maps, t.via);
    UnionSize(t.data + t.maps + t.via, {inodeBlock});
  }

  lemma UnionSize(a: set<nat>, b: set<nat>)
    ensures |a + b| <= |a| + |b|
  {
    assert a + b == a + (b - a);
    SubsetSize(b - a, b);
  }

  /** Slots freed so far: the direct ones below lo, the entries up to hi. */
  ghost predicate Done(k: nat, lo: nat, hi: nat) {
    k < lo || NDIRECT < k <= hi
  }

  /** The slots that are done have been freed, and nothing else has happened. */
  ghost predicate Freeing(sb: Super, blk0: seq<Block>, blk: seq<Block>, owner: Owner, i: nat, lo: nat, hi: nat) {
    && sb.Valid() && |blk0| == |blk| == sb.size
    && (forall c | sb.data <= c < sb.size :: blk[c] == blk0[c])
    && (forall b: nat | b < sb.size ::
          Used(sb, blk, b) <==> Used(sb, blk0, b) && !(b in owner && owner[b].0 == i && Done(owner[b].1, lo, hi)))
  }

  lemma FreeNothing(sb: Super, blk: seq<Block>, inodes: seq<Inode>, owner: Owner, i: nat)
    requires Owns(sb, blk, inodes, owner)
    ensures Freeing(sb, blk, blk, owner, i, 0, NDIRECT) && BitsOnly(sb, blk, blk)
    ensures Bits(sb, owner, i, 0, NDIRECT) == {}
  {
  }

  /** The bitmap blocks of the blocks freed so far. */
  ghost function Bits(sb: Super, owner: Owner, i: nat, lo: nat, hi: nat): (s: set<nat>) {
    set b | b in owner && owner[b].0 == i && Done(owner[b].1, lo, hi) :: sb.BBlock(b)
  }

  /** The bitmap blocks of all blocks of inode i. */
  ghost function BitmapOf(sb: Super, owner: Owner, i: nat): (s: set<nat>) {
    set b | b in Held(owner, i) :: sb.BBlock(b)
  }

  /** The inode blocks, and all blocks before them, are as they were. */
  ghost predicate BitsOnly(sb: Super, blk0: seq<Block>, blk: seq<Block>) {
    sb.bmapstart <= |blk0| == |blk| && forall c | 0 <= c < sb.bmapstart :: blk[c] == blk0[c]
  }

  lemma BitCleared(sb: Super, blk0: seq<Block>, blk: seq<Block>, b: nat)
    requires sb.Valid() && |blk| == sb.size && b < sb.size && BitsOnly(sb, blk0, blk)
    ensures BitsOnly(sb, blk0, Unmark(sb, blk, b))
  {
    BBlockRange(sb, b);
  }

  lemma BitsMore(sb: Super, blk0: seq<Block>, inodes: seq<Inode>, owner: Owner, i: nat, k: nat,
                 lo: nat, hi: nat, lo': nat, hi': nat, logged: set<nat>)
    requires Owns(sb, blk0, inodes, owner) && i < |inodes| && k < SLOTS
    requires !Done(k, lo, hi) && forall m: nat :: Done(m, lo', hi') <==> Done(m, lo, hi) || m == k
    ensures var a := Addr(blk0, inodes[i], k);
            logged + Bits(sb, owner, i, lo', hi')
            == logged + Bits(sb, owner, i, lo, hi) + if a == 0 then {} else {sb.BBlock(a)}
  {
    hide Used, Done;
    var a := Addr(blk0, inodes[i], k);
    forall b | b in owner ensures owner[b] == (i, k) <==> b == a && a != 0 {
    }
    hide Owns, Addr;
    var old', new' := Bits(sb, owner, i, lo, hi), Bits(sb, owner, i, lo', hi');
    forall x ensures x in new' <==> x in old' + if a == 0 then {} else {sb.BBlock(a)} {
      if x in new' {
        var b :| b in owner && owner[b].0 == i && Done(owner[b].1, lo', hi') && sb.BBlock(b) == x;
      }
      if x in old' {
        var b :| b in owner && owner[b].0 == i && Done(owner[b].1, lo, hi) && sb.BBlock(b) == x;
        assert Done(owner[b].1, lo', hi');
      }
    }
  }

  lemma BitsAll(sb: Super, blk0: seq<Block>, inodes: seq<Inode>, owner: Owner, i: nat)
    requires Owns(sb, blk0, inodes, owner)
    ensures Bits(sb, owner, i, NDIRECT + 1, SLOTS - 1) == BitmapOf(sb, owner, i)
    ensures forall c | c in BitmapOf(sb, owner, i) :: sb.bmapstart <= c < sb.data
  {
    forall b | b in owner ensures Done(owner[b].1, NDIRECT + 1, SLOTS - 1) {
    }
    forall c | c in BitmapOf(sb, owner, i) ensures sb.bmapstart <= c < sb.data {
      var b :| b in Held(owner, i) && sb.BBlock(b) == c;
      BBlockRange(sb, b);
    }
    hide Owns, Done, Used;
  }

  /** What itrunc logs, if nothing was logged before: a disk of at most nine bitmap blocks keeps it
      within MAXOPBLOCKS whatever the file. */
  lemma TruncateFits(sb: Super, blk: seq<Block>, inodes: seq<Inode>, owner: Owner, i: nat)
    requires Owns(sb, blk, inodes, owner) && i < |inodes|
    ensures |BitmapOf(sb, owner, i) + {sb.IBlock(i)}| == |BitmapOf(sb, owner, i)| + 1
    ensures |BitmapOf(sb, owner, i)| <= (sb.size + BPB - 1) / BPB
    ensures sb.size <= (MAXOPBLOCKS - 1) * BPB ==> |BitmapOf(sb, owner, i) + {sb.IBlock(i)}| <= MAXOPBLOCKS
  {
    BitsAll(sb, blk, inodes, owner, i);
    IBlockRange(sb, i);
    var n := (sb.size + BPB - 1) / BPB;
    forall c | c in BitmapOf(sb, owner, i) ensures c in Interval(sb.bmapstart, sb.bmapstart + n) {
      var b :| b in Held(owner, i) && sb.BBlock(b) == c;
      assert b < sb.size;
    }
    SubsetSize(BitmapOf(sb, owner, i), Interval(sb.bmapstart, sb.bmapstart + n));
  }

  lemma FreeKeepsData(sb: Super, blk0: seq<Block>, blk: seq<Block>, owner: Owner, i: nat, lo: nat, hi: nat, c: nat)
    requires Freeing(sb, blk0, blk, owner, i, lo, hi) && sb.data <= c < sb.size
    ensures blk[c] == blk0[c]
  {
  }

  /** One more slot: if it is empty there is nothing to do; if not, its block is still marked. */
  lemma FreeSlot(sb: Super, blk0: seq<Block>, inodes: seq<Inode>, owner: Owner, i: nat, k: nat,
                 lo: nat, hi: nat, lo': nat, hi': nat, blk: seq<Block>)
    requires Owns(sb, blk0, inodes, owner) && i < |inodes| && k < SLOTS
    requires Freeing(sb, blk0, blk, owner, i, lo, hi)
    requires !Done(k, lo, hi) && forall m: nat :: Done(m, lo', hi') <==> Done(m, lo, hi) || m == k
    ensures var a := Addr(blk0, inodes[i], k);
            if a == 0 then Freeing(sb, blk0, blk, owner, i, lo', hi')
            else a < sb.size && Used(sb, blk, a) && Freeing(sb, blk0, Unmark(sb, blk, a), owner, i, lo', hi')
  {
    hide Used, Unmark, Done;
    SlotInData(sb, blk0, inodes, owner, i, k);
    var a := Addr(blk0, inodes[i], k);
    forall b | b in owner ensures owner[b] == (i, k) <==> b == a && a != 0 {
    }
    if a != 0 {
      var blk' := Unmark(sb, blk, a);
      UnmarkData(sb, blk, a);
      forall b: nat | b < sb.size
        ensures Used(sb, blk', b) <==>
                Used(sb, blk0, b) && !(b in owner && owner[b].0 == i && Done(owner[b].1, lo', hi'))
      {
        UnmarkUsed(sb, blk, a, b);
      }
    }
  }

  lemma UnmarkData(sb: Super, blk: seq<Block>, a: nat)
    requires sb.Valid() && |blk| == sb.size && a < sb.size
    ensures forall c | sb.data <= c < sb.size :: Unmark(sb, blk, a)[c] == blk[c]
  {
    BBlockRange(sb, a);
  }

  /** Without an indirect block there are no entries to free. */
  lemma NoIndirect(sb: Super, blk0: seq<Block>, inodes: seq<Inode>, owner: Owner, i: nat, blk: seq<Block>)
    requires Owns(sb, blk0, inodes, owner) && i < |inodes| && inodes[i].addrs[NDIRECT] == 0
    requires Freeing(sb, blk0, blk, owner, i, NDIRECT, NDIRECT)
    ensures Freeing(sb, blk0, blk, owner, i, NDIRECT + 1, SLOTS - 1)
    ensures Bits(sb, owner, i, NDIRECT + 1, SLOTS - 1) == Bits(sb, owner, i, NDIRECT, NDIRECT)
  {
    hide Used;
    forall b | b in owner && owner[b].0 == i ensures owner[b].1 < NDIRECT {
      assert Addr(blk0, inodes[i], owner[b].1) == b != 0;
    }
  }

  lemma AllFreed(sb: Super, blk0: seq<Block>, blk: seq<Block>, inodes: seq<Inode>, owner: Owner, i: nat, ip: Inode)
    requires Owns(sb, blk0, inodes, owner) && i < |inodes| && Freeing(sb, blk0, blk, owner, i, NDIRECT + 1, SLOTS - 1)
    requires Shaped(ip) && forall k | 0 <= k <= NDIRECT :: ip.addrs[k] == 0
    ensures Owns(sb, blk, inodes[i := ip], owner - Held(owner, i))
    ensures forall j: nat | j < |inodes| && j != i && inodes[j].size <= MAXBYTES ::
            Content(blk, inodes[j]) == Content(blk0, inodes[j])
    ensures forall b: nat | b < sb.size :: Used(sb, blk, b) <==> Used(sb, blk0, b) && b !in Held(owner, i)
  {
    hide Used, Content;
    Truncated(sb, blk0, blk, inodes, owner, i, ip);
    forall j: nat | j < |inodes| && j != i && inodes[j].size <= MAXBYTES
      ensures Content(blk, inodes[j]) == Content(blk0, inodes[j])
    {
      assert inodes[i := ip][j] == inodes[j];
      SameFlat(blk0, inodes[j], blk, inodes[j]);
      SameContent(blk0, inodes[j], blk);
    }
  }

  /** Inodes that were current on disk still are. */
  lemma InodesKept(sb: Super, blk0: seq<Block>, inodes0: seq<Inode>, blk: seq<Block>, inodes: seq<Inode>, i: nat)
    requires sb.Valid() && |blk0| == |blk| == sb.size && |inodes0| == |inodes| == sb.ninodes && BitsOnly(sb, blk0, blk)
    requires forall j: nat | j < |inodes| && j != i :: inodes[j] == inodes0[j]
    ensures forall j: nat | j < |inodes| && j != i && OnDisk(sb, blk0, inodes0, j) :: OnDisk(sb, blk, inodes, j)
  {
    hide Dinode;
    forall j: nat | j < |inodes| && j != i && OnDisk(sb, blk0, inodes0, j) ensures OnDisk(sb, blk, inodes, j) {
      IBlockRange(sb, j);
    }
  }

  lemma SameContent(blk: seq<Block>, ip: Inode, blk': seq<Block>)
    requires Shaped(ip) && ip.size <= MAXBYTES && Flat(blk', ip) == Flat(blk, ip)
    ensures Content(blk', ip) == Content(blk, ip)
  {
  }

  lemma OwnsUsed(sb: Super, blk: seq<Block>, inodes: seq<Inode>, owner: Owner)
    requires Owns(sb, blk, inodes, owner)
    ensures sb.Valid() && |blk| == sb.size
    ensures forall b: nat | b < sb.size :: Used(sb, blk, b) <==> b < sb.data || b in owner
    ensures forall i: nat | i < sb.ninodes :: forall b | b in Held(owner, i) :: sb.data <= b
  {
  }

  const CHUNK := 1536      // the most filewrite gives to one transaction: three blocks

  /** What one turn of the loop does: n bytes of x go to block a at offset off. */
  ghost predicate ChunkDone(sb: Super, blk: seq<Block>, inodes: seq<Inode>, logged: set<nat>,
                            blk': seq<Block>, inodes': seq<Inode>, logged': set<nat>,
                            i: nat, off: nat, x: seq<Byte>, n: nat, a: nat, isNew: bool, via: set<nat>) {
    && Wrote(blk, inodes, blk', inodes', i)
    && 0 < |x| && off + |x| <= MAXBYTES
    && n == (if |x| < BSIZE - off % BSIZE then |x| else BSIZE - off % BSIZE)
    && Flat(blk', inodes'[i]) == Splice(Flat(blk, inodes[i]), off, x[..n])
    && Addr(blk', inodes'[i], DataSlot(off / BSIZE)) != 0
    && (isNew <==> Addr(blk, inodes[i], DataSlot(off / BSIZE)) == 0)
    && (!isNew ==> inodes' == inodes && via == {})
    && (via != {} ==> inodes'[i].addrs[NDIRECT] != 0)
    && via <= {inodes'[i].addrs[NDIRECT], sb.BBlock(inodes'[i].addrs[NDIRECT])}
    && logged' == logged + {a} + (if isNew then {sb.BBlock(a)} else {}) + via
  }

  /** The state of writei's loop after tot bytes. */
  ghost predicate LoopInv(sb: Super, blk0: seq<Block>, inodes0: seq<Inode>, logged0: set<nat>,
                          blk: seq<Block>, inodes: seq<Inode>, logged: set<nat>,
                          i: nat, off: nat, src: seq<Byte>, tot: nat, t: Tally) {
    && Wrote(blk0, inodes0, blk, inodes, i)
    && sb.bmapstart <= sb.size == |blk| == |blk0|
    && (forall c | 0 <= c < sb.bmapstart :: blk[c] == blk0[c])
    && tot <= |src| && off + |src| <= MAXBYTES
    && Flat(blk, inodes[i]) == Splice(Flat(blk0, inodes0[i]), off, src[..tot])
    && Covered(blk, inodes[i], off, off + tot)
    && (t.news == 0 ==> inodes == inodes0)
    && Visited(off, off + tot, off + |src|, t.turns)
    && Allocated(blk0, inodes0[i], off, off + |src|, t)
    && Tallied(sb, t, logged0, logged, inodes[i])
  }

  lemma LoopFacts(sb: Super, blk0: seq<Block>, inodes0: seq<Inode>, logged0: set<nat>,
                  blk: seq<Block>, inodes: seq<Inode>, logged: set<nat>,
                  i: nat, off: nat, src: seq<Byte>, tot: nat, t: Tally)
    requires LoopInv(sb, blk0, inodes0, logged0, blk, inodes, logged, i, off, src, tot, t)
    ensures Wrote(blk0, inodes0, blk, inodes, i) && i < |inodes| == |inodes0| && Shaped(inodes0[i]) && Shaped(inodes[i])
    ensures sb.bmapstart <= sb.size == |blk| == |blk0| && forall c | 0 <= c < sb.bmapstart :: blk[c] == blk0[c]
    ensures tot <= |src| && off + |src| <= MAXBYTES
    ensures Flat(blk, inodes[i]) == Splice(Flat(blk0, inodes0[i]), off, src[..tot])
    ensures Covered(blk, inodes[i], off, off + tot) && (t.news == 0 ==> inodes == inodes0)
    ensures Visited(off, off + tot, off + |src|, t.turns) && Allocated(blk0, inodes0[i], off, off + |src|, t)
    ensures Tallied(sb, t, logged0, logged, inodes[i])
  {
  }

  lemma LoopMore(sb: Super, blk0: seq<Block>, inodes0: seq<Inode>, logged0: set<nat>,
                 blk1: seq<Block>, inodes1: seq<Inode>, logged1: set<nat>,
                 blk: seq<Block>, inodes: seq<Inode>, logged: set<nat>,
                 i: nat, off: nat, src: seq<Byte>, tot: nat, t: Tally, n: nat, a: nat, isNew: bool, via: set<nat>)
    requires LoopInv(sb, blk0, inodes0, logged0, blk1, inodes1, logged1, i, off, src, tot, t)
    requires tot < |src|
             && ChunkDone(sb, blk1, inodes1, logged1, blk, inodes, logged, i, off + tot, src[tot..], n, a, isNew, via)
    requires |blk| == |blk1| && forall c | 0 <= c < sb.bmapstart <= sb.size :: blk[c] == blk1[c]
    ensures LoopInv(sb, blk0, inodes0, logged0, blk, inodes, logged, i, off, src, tot + n, Count1(t, sb, a, isNew, via))
    ensures i < |inodes|
  {
    hide Flat, Splice, Addr, DataBlock, Visited, Covered, Allocated, Tallied, Wrote, LoopInv, Count1;
    LoopFacts(sb, blk0, inodes0, logged0, blk1, inodes1, logged1, i, off, src, tot, t);
    WroteTwice(blk0, inodes0, blk1, inodes1, blk, inodes, i);
    assert src[..tot] + src[tot..][..n] == src[..tot + n];
    SpliceTwice(Flat(blk0, inodes0[i]), off, src[..tot], src[tot..][..n]);
    CoverMore(blk1, inodes1, blk, inodes, i, off, off + tot, n);
    VisitMore(off, off + tot, off + |src|, t.turns, n);
    LoopTally(sb, blk0, inodes0, logged0, blk1, inodes1, logged1, blk, inodes, logged, i, off, src, tot, t, n, a,
      isNew, via);
    LoopAgain(sb, blk0, inodes0, logged0, blk, inodes, logged, i, off, src, tot + n, Count1(t, sb, a, isNew, via));
  }

  lemma LoopTally(sb: Super, blk0: seq<Block>, inodes0: seq<Inode>, logged0: set<nat>,
                  blk1: seq<Block>, inodes1: seq<Inode>, logged1: set<nat>,
                  blk: seq<Block>, inodes: seq<Inode>, logged: set<nat>,
                  i: nat, off: nat, src: seq<Byte>, tot: nat, t: Tally, n: nat, a: nat, isNew: bool, via: set<nat>)
    requires LoopInv(sb, blk0, inodes0, logged0, blk1, inodes1, logged1, i, off, src, tot, t)
    requires tot < |src|
             && ChunkDone(sb, blk1, inodes1, logged1, blk, inodes, logged, i, off + tot, src[tot..], n, a, isNew, via)
    requires |inodes0| == |inodes| > i && Shaped(inodes0[i]) && Shaped(inodes[i])
    ensures var t' := Count1(t, sb, a, isNew, via);
      && t'.turns == t.turns + 1 && (t'.news == 0 ==> inodes == inodes0)
      && Allocated(blk0, inodes0[i], off, off + |src|, t') && Tallied(sb, t', logged0, logged, inodes[i])
  {
    hide Flat, Splice, Addr, DataBlock, Visited, Covered, Allocated, Tallied, Wrote, LoopInv;
    LoopFacts(sb, blk0, inodes0, logged0, blk1, inodes1, logged1, i, off, src, tot, t);
    AllocateMore(blk0, inodes0, blk1, inodes1, i, off, off + tot, off + |src|, t, isNew, a, sb, via);
    TallyMore(sb, blk1, inodes1, blk, inodes, i, t, logged0, logged1, logged, a, isNew, via);
  }

  lemma LoopAgain(sb: Super, blk0: seq<Block>, inodes0: seq<Inode>, logged0: set<nat>,
                  blk: seq<Block>, inodes: seq<Inode>, logged: set<nat>,
                  i: nat, off: nat, src: seq<Byte>, tot: nat, t: Tally)
    requires Wrote(blk0, inodes0, blk, inodes, i) && i < |inodes| == |inodes0| && Shaped(inodes0[i])
             && Shaped(inodes[i])
    requires sb.bmapstart <= sb.size == |blk| == |blk0| && forall c | 0 <= c < sb.bmapstart :: blk[c] == blk0[c]
    requires tot <= |src| && off + |src| <= MAXBYTES
    requires Flat(blk, inodes[i]) == Splice(Flat(blk0, inodes0[i]), off, src[..tot])
    requires Covered(blk, inodes[i], off, off + tot) && (t.news == 0 ==> inodes == inodes0)
    requires Visited(off, off + tot, off + |src|, t.turns) && Allocated(blk0, inodes0[i], off, off + |src|, t)
    requires Tallied(sb, t, logged0, logged, inodes[i])
    ensures LoopInv(sb, blk0, inodes0, logged0, blk, inodes, logged, i, off, src, tot, t)
  {
  }

  /** Blocks visited and allocated so far, and what was logged for each reason. */
  datatype Tally = Tally(turns: nat, news: nat, data: set<nat>, maps: set<nat>, via: set<nat>)

  ghost function Count1(t: Tally, sb: Super, a: nat, isNew: bool, via: set<nat>): Tally {
    Tally(t.turns + 1, if isNew then t.news + 1 else t.news, t.data + {a},
          if isNew then t.maps + {sb.BBlock(a)} else t.maps, t.via + via)
  }

  /** One block per visit, one bitmap block per allocation, the indirect block and its bitmap block. */
  ghost predicate Tallied(sb: Super, t: Tally, logged0: set<nat>, logged: set<nat>, ip: Inode)
    requires Shaped(ip)
  {
    && logged == logged0 + t.data + t.maps + t.via
    && |t.data| <= t.turns && |t.maps| <= t.news
    && t.via <= {ip.addrs[NDIRECT], sb.BBlock(ip.addrs[NDIRECT])}
    && (t.via != {} ==> ip.addrs[NDIRECT] != 0)
  }

  /** Having started at off, the loop stands at o after so many visits. */
  ghost predicate Visited(off: nat, o: nat, end: nat, turns: nat) {
    && (turns == 0 ==> o == off)
    && (turns > 0 ==> (off / BSIZE + turns - 1) * BSIZE < o && (o < end ==> o == (off / BSIZE + turns) * BSIZE))
  }

  /** Which visits can have allocated: not one to a block the file already had. */
  ghost predicate Allocated(blk: seq<Block>, ip: Inode, off: nat, end: nat, t: Tally)
    requires Shaped(ip)
  {
    && t.news <= t.turns
    && (t.turns > 0 && off < MAXBYTES && Addr(blk, ip, DataSlot(off / BSIZE)) != 0 ==> t.news < t.turns)
    && (Covered(blk, ip, off, end) ==> t.news == 0)
  }

  /** Every block that meets [lo, hi) is there. */
  ghost predicate Covered(blk: seq<Block>, ip: Inode, lo: nat, hi: nat)
    requires Shaped(ip)
  {
    forall bn: nat | bn < MAXFILE && lo < hi && lo / BSIZE <= bn && bn * BSIZE < hi :: Addr(blk, ip, DataSlot(bn)) != 0
  }

  lemma LoopStart(sb: Super, blk: seq<Block>, inodes: seq<Inode>, owner: Owner, i: nat, off: nat, src: seq<Byte>,
                  logged: set<nat>)
    requires Owns(sb, blk, inodes, owner) && i < |inodes| && off + |src| <= MAXBYTES
    ensures LoopInv(sb, blk, inodes, logged, blk, inodes, logged, i, off, src, 0, Tally(0, 0, {}, {}, {}))
  {
    hide Addr, DataBlock;
  }

  lemma CoverMore(blk: seq<Block>, inodes: seq<Inode>, blk': seq<Block>, inodes': seq<Inode>, i: nat, off: nat, o: nat,
                  m: nat)
    requires Wrote(blk, inodes, blk', inodes', i) && off <= o < MAXBYTES && 0 < m <= BSIZE - o % BSIZE
    requires Covered(blk, inodes[i], off, o) && Addr(blk', inodes'[i], DataSlot(o / BSIZE)) != 0
    ensures Covered(blk', inodes'[i], off, o + m)
  {
    hide Addr, DataBlock;
    forall bn: nat | bn < MAXFILE && off / BSIZE <= bn && bn * BSIZE < o + m
      ensures Addr(blk', inodes'[i], DataSlot(bn)) != 0
    {
      if bn != o / BSIZE {
        assert bn < o / BSIZE && off < o && bn * BSIZE < o;
        assert Addr(blk, inodes[i], DataSlot(bn)) != 0;
      }
    }
  }

  lemma VisitMore(off: nat, o: nat, end: nat, turns: nat, m: nat)
    requires Visited(off, o, end, turns) && off <= o < end
    requires m == if end - o < BSIZE - o % BSIZE then end - o else BSIZE - o % BSIZE
    ensures Visited(off, o + m, end, turns + 1)
  {
    assert o == o / BSIZE * BSIZE + o % BSIZE;
    assert o / BSIZE == off / BSIZE + turns;
  }

  lemma AllocateMore(blk: seq<Block>, inodes: seq<Inode>, blk': seq<Block>, inodes': seq<Inode>, i: nat,
                     off: nat, o: nat, end: nat, t: Tally, isNew: bool, a: nat, sb: Super, via: set<nat>)
    requires Wrote(blk, inodes, blk', inodes', i) && off <= o < end <= MAXBYTES
    requires Visited(off, o, end, t.turns) && Allocated(blk, inodes[i], off, end, t)
    requires isNew <==> Addr(blk', inodes'[i], DataSlot(o / BSIZE)) == 0
    ensures Allocated(blk, inodes[i], off, end, Count1(t, sb, a, isNew, via))
  {
    hide Addr, DataBlock;
    if isNew {
      assert Addr(blk, inodes[i], DataSlot(o / BSIZE)) == 0;
      assert off / BSIZE <= o / BSIZE && o / BSIZE * BSIZE < end;
    }
  }

  lemma TallyMore(sb: Super, blk: seq<Block>, inodes: seq<Inode>, blk': seq<Block>, inodes': seq<Inode>, i: nat,
                  t: Tally,
                  logged0: set<nat>, logged: set<nat>, logged': set<nat>, a: nat, isNew: bool, via: set<nat>)
    requires Wrote(blk, inodes, blk', inodes', i) && Tallied(sb, t, logged0, logged, inodes[i])
    requires via <= {inodes'[i].addrs[NDIRECT], sb.BBlock(inodes'[i].addrs[NDIRECT])}
    requires via != {} ==> inodes'[i].addrs[NDIRECT] != 0
    requires logged' == logged + {a} + (if isNew then {sb.BBlock(a)} else {}) + via
    ensures Tallied(sb, Count1(t, sb, a, isNew, via), logged0, logged', inodes'[i])
  {
    assert inodes[i].addrs[NDIRECT] == Addr(blk, inodes[i], NDIRECT);
    assert inodes'[i].addrs[NDIRECT] == Addr(blk', inodes'[i], NDIRECT);
    TallySets(sb, inodes[i], inodes'[i], t, logged0, logged, logged', a, isNew, via);
  }

  lemma TallySets(sb: Super, ip: Inode, ip': Inode, t: Tally,
                  logged0: set<nat>, logged: set<nat>, logged': set<nat>, a: nat, isNew: bool, via: set<nat>)
    requires Shaped(ip) && Shaped(ip') && (ip.addrs[NDIRECT] != 0 ==> ip'.addrs[NDIRECT] == ip.addrs[NDIRECT])
    requires Tallied(sb, t, logged0, logged, ip)
    requires via <= {ip'.addrs[NDIRECT], sb.BBlock(ip'.addrs[NDIRECT])}
    requires via != {} ==> ip'.addrs[NDIRECT] != 0
    requires logged' == logged + {a} + (if isNew then {sb.BBlock(a)} else {}) + via
    ensures Tallied(sb, Count1(t, sb, a, isNew, via), logged0, logged', ip')
  {
    OneMore(t.data, a);
    OneMore(t.maps, sb.BBlock(a));
    var maps := if isNew then {sb.BBlock(a)} else {};
    Regroup(logged0, t.data, t.maps, t.via, {a}, maps, via);
  }

  lemma Regroup(s: set<nat>, a: set<nat>, b: set<nat>, c: set<nat>, x: set<nat>, y: set<nat>, z: set<nat>)
    ensures s + a + b + c + x + y + z == s + (a + x) + (b + y) + (c + z)
  {
  }

  lemma OneMore(s: set<nat>, x: nat)
    ensures |s + {x}| <= |s| + 1
  {
    if x in s { assert s + {x} == s; }
  }

  /** The inode block holds what the in-memory inode says. */
  ghost predicate OnDisk(sb: Super, blk: seq<Block>, inodes: seq<Inode>, i: nat)
    requires sb.Valid() && |blk| == sb.size && |inodes| == sb.ninodes && i < |inodes|
  {
    sb.IBlock(i) < |blk| && Dinode(blk[sb.IBlock(i)], i % IPB) == inodes[i]
  }

  lemma InodeWritten(sb: Super, blk: seq<Block>, inodes: seq<Inode>, owner: Owner, i: nat)
    requires Owns(sb, blk, inodes, owner) && i < |inodes|
    ensures sb.IBlock(i) < sb.size
    ensures var blk' := blk[sb.IBlock(i) := PutDinode(blk[sb.IBlock(i)], i % IPB, inodes[i])];
            && Owns(sb, blk', inodes, owner) && SameFiles(blk, inodes, blk', inodes)
            && (forall k: nat | k < SLOTS :: Addr(blk', inodes[i], k) == Addr(blk, inodes[i], k))
            && OnDisk(sb, blk', inodes, i)
            && forall j: nat | j < |inodes| && OnDisk(sb, blk, inodes, j) :: OnDisk(sb, blk', inodes, j)
  {
    hide Used, PutDinode, Dinode, SameFiles;
    IBlockRange(sb, i);
    var x := PutDinode(blk[sb.IBlock(i)], i % IPB, inodes[i]);
    var blk' := blk[sb.IBlock(i) := x];
    WriteInode(sb, blk, inodes, owner, i, x);
    MetaChange(sb, blk, blk', inodes, owner);
    DinodeRoundTrip(blk[sb.IBlock(i)], i % IPB, inodes[i], i % IPB);
    forall j: nat | j < |inodes| && OnDisk(sb, blk, inodes, j) ensures OnDisk(sb, blk', inodes, j) {
      DinodeRoundTrip(blk[sb.IBlock(i)], i % IPB, inodes[i], j % IPB);
      if j / IPB == i / IPB && j % IPB == i % IPB { assert i == j; }
    }
  }

  /** Inode i may have gained blocks and changed bytes; no other file has changed at all. */
  ghost predicate Wrote(blk: seq<Block>, inodes: seq<Inode>, blk': seq<Block>, inodes': seq<Inode>, i: nat) {
    && |inodes| == |inodes'| && i < |inodes|
    && (forall j | 0 <= j < |inodes| :: Shaped(inodes[j]) && Shaped(inodes'[j]))
    && (forall j | 0 <= j < |inodes| && j != i :: inodes'[j] == inodes[j])
    && (forall j: nat, bn: nat | j < |inodes| && j != i && bn < MAXFILE ::
          DataBlock(blk', inodes'[j], bn) == DataBlock(blk, inodes[j], bn))
    && inodes'[i] == inodes[i].(addrs := inodes'[i].addrs)
    && (forall k: nat | k < SLOTS && Addr(blk, inodes[i], k) != 0 ::
      Addr(blk', inodes'[i], k) == Addr(blk, inodes[i], k))
  }

  lemma GrownWrote(blk: seq<Block>, inodes: seq<Inode>, blk': seq<Block>, inodes': seq<Inode>, i: nat)
    requires Grown(blk, inodes, blk', inodes', i)
    ensures Wrote(blk, inodes, blk', inodes', i)
  {
    hide Addr, DataBlock;
  }

  lemma WroteTwice(blk0: seq<Block>, inodes0: seq<Inode>, blk1: seq<Block>, inodes1: seq<Inode>,
                   blk2: seq<Block>, inodes2: seq<Inode>, i: nat)
    requires Wrote(blk0, inodes0, blk1, inodes1, i) && Wrote(blk1, inodes1, blk2, inodes2, i)
    ensures Wrote(blk0, inodes0, blk2, inodes2, i) && i < |inodes2| == |inodes0| && Shaped(inodes2[i])
  {
    hide Addr, DataBlock;
    forall j: nat, bn: nat | j < |inodes0| && j != i && bn < MAXFILE
      ensures DataBlock(blk2, inodes2[j], bn) == DataBlock(blk0, inodes0[j], bn)
    {
      assert DataBlock(blk1, inodes1[j], bn) == DataBlock(blk0, inodes0[j], bn);
    }
    forall k: nat | k < SLOTS && Addr(blk0, inodes0[i], k) != 0
      ensures Addr(blk2, inodes2[i], k) == Addr(blk0, inodes0[i], k)
    {
      assert Addr(blk1, inodes1[i], k) == Addr(blk0, inodes0[i], k);
    }
  }

  /** memmove into a mapped block: one file changes, at one place. */
  lemma ChunkWritten(sb: Super, blk: seq<Block>, inodes: seq<Inode>, owner: Owner, i: nat, off: nat, x: seq<Byte>)
    requires Owns(sb, blk, inodes, owner) && i < |inodes| && off < MAXBYTES && off % BSIZE + |x| <= BSIZE
    requires Addr(blk, inodes[i], DataSlot(off / BSIZE)) != 0
    ensures var a := Addr(blk, inodes[i], DataSlot(off / BSIZE));
            && sb.data <= a < sb.size && off + |x| <= MAXBYTES
            && var blk' := blk[a := Patch(blk[a], off % BSIZE, x)];
               && Owns(sb, blk', inodes, owner)
               && Wrote(blk, inodes, blk', inodes, i)
               && (forall c | 0 <= c < sb.bmapstart :: blk'[c] == blk[c])
               && Flat(blk', inodes[i]) == Splice(Flat(blk, inodes[i]), off, x)
               && Addr(blk', inodes[i], DataSlot(off / BSIZE)) == a
  {
    hide Used, Flat, Splice, Patch;
    SlotInData(sb, blk, inodes, owner, i, DataSlot(off / BSIZE));
    SlotInData(sb, blk, inodes, owner, i, NDIRECT);
    var a := Addr(blk, inodes[i], DataSlot(off / BSIZE));
    var blk' := blk[a := Patch(blk[a], off % BSIZE, x)];
    AddrFrame(blk, blk', inodes[i]);
    WriteData(sb, blk, inodes, owner, i, off / BSIZE, Patch(blk[a], off % BSIZE, x));
    FlatPatch(blk, inodes[i], blk', off, x);
  }

  /** Every slot below a size is filled. */
  ghost predicate Filled(blk: seq<Block>, ip: Inode, size: nat)
    requires Shaped(ip)
  {
    forall bn: nat | bn < MAXFILE && bn * BSIZE < size :: Addr(blk, ip, DataSlot(bn)) != 0
  }

  lemma GrownFlat(blk: seq<Block>, inodes: seq<Inode>, blk': seq<Block>, inodes': seq<Inode>, i: nat)
    requires Grown(blk, inodes, blk', inodes', i)
    ensures i < |inodes| == |inodes'| && Shaped(inodes[i]) && Shaped(inodes'[i])
    ensures Flat(blk', inodes'[i]) == Flat(blk, inodes[i]) && inodes'[i].size == inodes[i].size
  {
    SameFlat(blk, inodes[i], blk', inodes'[i]);
  }

  lemma ContentSlice(blk: seq<Block>, ip: Inode, off: nat, n: nat)
    requires Shaped(ip) && ip.size <= MAXBYTES && off + n <= ip.size
    ensures Content(blk, ip)[off..off + n] == Flat(blk, ip)[off..off + n]
  {
    var f := Flat(blk, ip);
    assert f[..ip.size][off..off + n] == f[off..off + n];
  }

  lemma FlatChunk(blk: seq<Block>, ip: Inode, off: nat, m: nat)
    requires Shaped(ip) && off < MAXBYTES && off % BSIZE + m <= BSIZE
    ensures off + m <= MAXBYTES
    ensures DataBlock(blk, ip, off / BSIZE)[off % BSIZE..off % BSIZE + m] == Flat(blk, ip)[off..off + m]
  {
    var (x, f) := (DataBlock(blk, ip, off / BSIZE), Flat(blk, ip));
    var (s, t) := (x[off % BSIZE..off % BSIZE + m], f[off..off + m]);
    forall j | 0 <= j < m ensures s[j] == t[j] {
      assert (off + j) / BSIZE == off / BSIZE && (off + j) % BSIZE == off % BSIZE + j;
    }
  }

  lemma OwnsShape(sb: Super, blk: seq<Block>, inodes: seq<Inode>, owner: Owner)
    requires Owns(sb, blk, inodes, owner)
    ensures sb.Valid() && |blk| == sb.size && |inodes| == sb.ninodes
    ensures forall i | 0 <= i < |inodes| :: Shaped(inodes[i])
  {
  }

  lemma GrownSelf(sb: Super, blk: seq<Block>, inodes: seq<Inode>, owner: Owner, i: nat)
    requires Owns(sb, blk, inodes, owner) && i < |inodes|
    ensures Grown(blk, inodes, blk, inodes, i)
  {
  }

  lemma DirectStep(sb: Super, blk: seq<Block>, inodes: seq<Inode>, owner: Owner, i: nat, k: nat, b: nat)
    requires Owns(sb, blk, inodes, owner) && b < sb.size && !Used(sb, blk, b)
    requires i < |inodes| && k <= NDIRECT && inodes[i].addrs[k] == 0
    ensures b != 0
    ensures var (blk', inodes') := (Alloc(sb, blk, b), inodes[i := inodes[i].(addrs := inodes[i].addrs[k := b])]);
            && Owns(sb, blk', inodes', owner[b := (i, k)])
            && Grown(blk, inodes, blk', inodes', i) && blk'[b] == Zeros()
            && forall c | 0 <= c < sb.bmapstart :: blk'[c] == blk[c]
  {
    hide Used, SameFiles;
    FillDirect(sb, blk, inodes, owner, i, k, b);
    FreeBlock(sb, blk, inodes, owner, b);
    BBlockRange(sb, b);
  }

  lemma EntryStep(sb: Super, blk: seq<Block>, inodes: seq<Inode>, owner: Owner, i: nat, e: nat, b: nat)
    requires Owns(sb, blk, inodes, owner) && b < sb.size && !Used(sb, blk, b)
    requires i < |inodes| && e < NINDIRECT && inodes[i].addrs[NDIRECT] != 0
    requires Addr(blk, inodes[i], NDIRECT + 1 + e) == 0
    ensures b != 0 && inodes[i].addrs[NDIRECT] < sb.size
    ensures var ind := inodes[i].addrs[NDIRECT];
            var blk' := Alloc(sb, blk, b)[ind := PutWord(blk[ind], e, b)];
            && Owns(sb, blk', inodes, owner[b := (i, NDIRECT + 1 + e)])
            && Grown(blk, inodes, blk', inodes, i)
            && Addr(blk', inodes[i], NDIRECT + 1 + e) == b
            && forall c | 0 <= c < sb.bmapstart :: blk'[c] == blk[c]
  {
    hide Used, SameFiles, GetWord, PutWord;
    FillIndirect(sb, blk, inodes, owner, i, e, b);
    FreeBlock(sb, blk, inodes, owner, b);
    BBlockRange(sb, b);
  }

  lemma GrownTwice(blk0: seq<Block>, inodes0: seq<Inode>, blk1: seq<Block>, inodes1: seq<Inode>,
                   blk2: seq<Block>, inodes2: seq<Inode>, i: nat)
    requires Grown(blk0, inodes0, blk1, inodes1, i) && Grown(blk1, inodes1, blk2, inodes2, i)
    ensures Grown(blk0, inodes0, blk2, inodes2, i)
  {
    hide Addr;
    forall j: nat, bn: nat | j < |inodes0| && bn < MAXFILE
      ensures DataBlock(blk2, inodes2[j], bn) == DataBlock(blk0, inodes0[j], bn)
    {
      assert DataBlock(blk1, inodes1[j], bn) == DataBlock(blk0, inodes0[j], bn);
    }
    forall k: nat | k < SLOTS && Addr(blk0, inodes0[i], k) != 0
      ensures Addr(blk2, inodes2[i], k) == Addr(blk0, inodes0[i], k)
    {
      assert Addr(blk1, inodes1[i], k) == Addr(blk0, inodes0[i], k);
    }
  }

  lemma InBlock(b: nat, bi: nat)
    requires b % BPB == 0 && bi < BPB
    ensures (b + bi) / BPB == b / BPB && (b + bi) % BPB == bi
  {
  }
}
