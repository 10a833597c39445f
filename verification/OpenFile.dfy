/** Reading and writing through an open file: the offset, and filewrite's split of a long write
    into one transaction per chunk. */
module OpenFile {
  import opened Params
  import opened Blocks
  import opened DiskLayout
  import opened FileBlocks
  import opened FileBytes
  import opened FileSystem

  /** Every file but i has the inode and the bytes it had. */
  ghost predicate OthersKept(blk: seq<Block>, inodes: seq<Inode>, blk': seq<Block>, inodes': seq<Inode>, i: nat) {
    && |inodes'| == |inodes|
    && forall j: nat | j < |inodes| && j != i ::
         && Shaped(inodes[j]) && inodes[j].size <= MAXBYTES && inodes'[j] == inodes[j]
         && Content(blk', inodes[j]) == Content(blk, inodes[j])
  }

  lemma KeptSelf(sb: Super, blk: seq<Block>, inodes: seq<Inode>, owner: Owner, i: nat)
    requires Owns(sb, blk, inodes, owner) && forall j | 0 <= j < |inodes| :: inodes[j].size <= MAXBYTES
    ensures OthersKept(blk, inodes, blk, inodes, i)
    ensures forall j | 0 <= j < |inodes| :: Shaped(inodes[j])
  {
    hide Content;
  }

  lemma KeptAfter(blk: seq<Block>, inodes: seq<Inode>, blk': seq<Block>, inodes': seq<Inode>, i: nat)
    requires OthersKept(blk, inodes, blk, inodes, i) && |inodes'| == |inodes|
    requires forall j: nat | j < |inodes| :: Shaped(inodes[j]) && inodes[j].size <= MAXBYTES
    requires forall j: nat | j < |inodes| && j != i ::
               inodes'[j] == inodes[j] && Content(blk', inodes[j]) == Content(blk, inodes[j])
    ensures OthersKept(blk, inodes, blk', inodes', i)
  {
    hide Content;
  }

  lemma KeptOn(blk: seq<Block>, inodes: seq<Inode>, blk1: seq<Block>, inodes1: seq<Inode>,
               blk2: seq<Block>, inodes2: seq<Inode>, i: nat)
    requires OthersKept(blk, inodes, blk1, inodes1, i) && OthersKept(blk1, inodes1, blk2, inodes2, i)
    ensures OthersKept(blk, inodes, blk2, inodes2, i)
  {
    hide Content;
  }

  class FileHandle {
    const fs: FileSys
    const ip: nat
    const readable: bool
    const writable: bool
    var off: Word

    constructor (fs: FileSys, ip: nat, readable: bool, writable: bool)
      ensures this.fs == fs && this.ip == ip && this.readable == readable && this.writable == writable && off == 0
    {
      this.fs, this.ip, this.readable, this.writable, off := fs, ip, readable, writable, 0;
    }

    ghost predicate Valid()
      reads this, fs
    {
      fs.Valid() && ip < |fs.inodes| && fs.NoHoles(ip)
    }

    ghost function Data(): seq<Byte>
      requires Valid()
      reads this, fs
    {
      fs.File(ip)
    }

    /** fileread: the bytes at the offset, which moves past them. */
    method Read(n: Word) returns (r: Outcome, dst: seq<Byte>)
      requires Valid()
      modifies this`off, fs
      ensures Valid() && Data() == old(Data()) && fs.blk == old(fs.blk) && fs.inodes == old(fs.inodes)
      ensures r.Fail? <==> !readable || old(off) > |old(Data())| || old(off) + n >= UINT
      ensures r.Fail? ==> off == old(off)
      ensures !r.Fail? ==>
                && r == Count(|dst|) && off == old(off) + |dst|
                && |dst| == (if old(off) + n > |old(Data())| then |old(Data())| - old(off) else n)
                && dst == old(Data())[old(off)..off]
    {
      if !readable {
        return Fail, [];
      }
      r, dst := fs.Readi(ip, off, n);
      if r.Count? && r.n > 0 {
        off := off + r.n;
      }
    }

    /** One turn of filewrite's loop: begin_op, writei, end_op; `size` blocks were logged. */
    method WriteTx(chunk: seq<Byte>) returns (r: Outcome, ghost size: nat)
      requires Valid() && |chunk| <= CHUNK
      modifies this`off, fs
      ensures fs.Valid() && (!r.Panic? ==> Valid())
      ensures r.Fail? <==> old(off) > |old(Data())| || old(off) + |chunk| > MAXBYTES
      ensures r.Fail? ==> off == old(off) && Data() == old(Data())
      ensures r.Panic? ==> Full(fs.sb, fs.blk)
      ensures r.Count? ==>
                && size <= MAXOPBLOCKS && off == old(off) + |chunk| && old(off) <= |old(Data())|
                && Data() == Written(old(Data()), old(off), chunk)
      ensures OthersKept(old(fs.blk), old(fs.inodes), fs.blk, fs.inodes, ip)
      ensures size == |fs.logged| && Logs(fs.sb, old(fs.blk), {}, fs.blk, fs.logged)
      ensures r.Count? && old(fs.AllOnDisk()) ==> fs.AllOnDisk()
    {
      hide Full, Owns, Filled, Content, Written, Logs, OthersKept;
      fs.logged := {};
      ghost var blk0, inodes0 := fs.blk, fs.inodes;
      KeptSelf(fs.sb, fs.blk, fs.inodes, fs.owner, ip);
      r := fs.Writei(ip, off, chunk);
      KeptAfter(blk0, inodes0, fs.blk, fs.inodes, ip);
      size := |fs.logged|;
      if r.Count? {
        assert fs.logged - {} == fs.logged;
        off := off + r.n;
      }
    }

    lemma KeptNow()
      requires Valid()
      ensures OthersKept(fs.blk, fs.inodes, fs.blk, fs.inodes, ip)
    {
      KeptSelf(fs.sb, fs.blk, fs.inodes, fs.owner, ip);
    }

    /** filewrite: all the bytes are written, in as many transactions as there are chunks, none of
        which logs more than MAXOPBLOCKS blocks. It fails exactly when the file is not writable,
        or there is something to write but the offset is past the end or the largest file is too
        small; then the chunks before the first that does not fit have been written. */
    method Write(addr: seq<Byte>) returns (r: Outcome, ghost txs: seq<nat>)
      requires Valid() && |addr| < UINT
      modifies this`off, fs
      ensures fs.Valid() && (!r.Panic? ==> Valid())
      ensures OthersKept(old(fs.blk), old(fs.inodes), fs.blk, fs.inodes, ip)
      ensures !r.Panic? ==> (r.Fail? <==>
              !writable || (|addr| > 0 && (old(off) > |old(Data())| || old(off) + |addr| > MAXBYTES)))
      ensures r.Count? ==> r.n == |addr| && off == old(off) + |addr|
      ensures r.Count? && |addr| > 0 ==> old(off) <= |old(Data())| && Data() == Written(old(Data()), old(off), addr)
      ensures r.Count? && addr == [] ==> Data() == old(Data())
      ensures r.Fail? ==>
                && old(off) <= off <= old(off) + |addr| && (off - old(off)) % 1536 == 0
                && (off == old(off) ==> Data() == old(Data()))
                && (off > old(off) ==> old(off) <= |old(Data())| && off <= MAXBYTES
                                       && Data() == Written(old(Data()), old(off), addr[..off - old(off)]))
      ensures r.Fail? && writable ==>
                if old(off) > |old(Data())| then off == old(off)
                else off + (if |addr| - (off - old(off)) > 1536 then 1536 else |addr| - (off - old(off))) > MAXBYTES
      ensures r.Panic? ==> Full(fs.sb, fs.blk)
      ensures forall k | 0 <= k < |txs| :: txs[k] <= 10
      ensures r.Count? ==> |txs| == (|addr| + 1535) / 1536
    {
      hide Full, Owns, Filled, Content, Written, OthersKept, Logs, FileSys.Valid, FileHandle.Data;
      txs := [];
      KeptNow();
      if !writable {
        return Fail, txs;
      }
      ghost var data0, off0 := Data(), off;
      var i := 0;
      while i < |addr|
        invariant 0 <= i <= |addr| && off == off0 + i
        invariant Valid()
        invariant OthersKept(old(fs.blk), old(fs.inodes), fs.blk, fs.inodes, ip)
        invariant i < |addr| ==> i % CHUNK == 0
        invariant |txs| == (i + 1535) / 1536
        invariant i == 0 ==> Data() == data0
        invariant i > 0 ==> off0 <= |data0| && off <= MAXBYTES && Data() == Written(data0, off0, addr[..i])
        invariant forall k | 0 <= k < |txs| :: txs[k] <= MAXOPBLOCKS
      {
        var n1 := if |addr| - i > CHUNK then CHUNK else |addr| - i;
        var chunk := addr[i..i + n1];
        ghost var size, blk1, inodes1 := 0, fs.blk, fs.inodes;
        r, size := WriteTx(chunk);
        KeptOn(old(fs.blk), old(fs.inodes), blk1, inodes1, fs.blk, fs.inodes, ip);
        if !r.Count? {
          return;
        }
        txs := txs + [size];
        assert addr[..i] + chunk == addr[..i + n1];
        if i > 0 {
          WrittenTwice(data0, off0, addr[..i], chunk);
        } else {
          assert chunk == addr[..n1];
        }
        i := i + n1;
      }
      assert addr[..i] == addr;
      r := Count(|addr|);
    }
  }
}
