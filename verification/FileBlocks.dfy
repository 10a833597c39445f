/** Block ownership: which inode slot every data block belongs to, and what each file's blocks
    hold. Slot k of an inode is direct block k (k < 12), its indirect block (k = 12), or entry
    k - 13 of the indirect block. */
module FileBlocks {
  import opened Blocks
  import opened DiskLayout

  const SLOTS := NDIRECT + 1 + NINDIRECT

  type Owner = map<nat, (nat, nat)>      // block -> (inode, slot)

  /** The block number in a slot; 0 is an empty slot. */
  function Addr(blk: seq<Block>, ip: Inode, k: nat): (a: nat)
    requires Shaped(ip) && k < SLOTS
  {
    if k <= NDIRECT then ip.addrs[k]
    else if ip.addrs[NDIRECT] == 0 || ip.addrs[NDIRECT] >= |blk| then 0
    else GetWord(blk[ip.addrs[NDIRECT]], k - NDIRECT - 1)
  }

  /** The slot of the bn-th block of a file's data. */
  function DataSlot(bn: nat): (k: nat)
    requires bn < MAXFILE
    ensures k < SLOTS && k != NDIRECT
  {
    if bn < NDIRECT then bn else bn + 1
  }

  /** The bn-th block of a file; a hole reads as zeros. */
  function DataBlock(blk: seq<Block>, ip: Inode, bn: nat): (x: Block)
    requires Shaped(ip) && bn < MAXFILE
  {
    BlockAt(blk, Addr(blk, ip, DataSlot(bn)))
  }

  function BlockAt(blk: seq<Block>, a: nat): (x: Block) {
    if a == 0 || a >= |blk| then Zeros() else blk[a]
  }

  /** Every filled slot owns its block, every owned block is in its owner's slot, and the bitmap
      marks exactly the metadata blocks and the owned blocks. */
  ghost predicate Owns(sb: Super, blk: seq<Block>, inodes: seq<Inode>, owner: Owner) {
    && sb.Valid() && |blk| == sb.size && |inodes| == sb.ninodes
    && (forall i | 0 <= i < |inodes| :: Shaped(inodes[i]))
    && (forall i: nat, k: nat | i < |inodes| && k < SLOTS && Addr(blk, inodes[i], k) != 0 ::
          Addr(blk, inodes[i], k) in owner && owner[Addr(blk, inodes[i], k)] == (i, k))
    && (forall b | b in owner ::
          && sb.data <= b < sb.size && owner[b].0 < |inodes| && owner[b].1 < SLOTS
          && Addr(blk, inodes[owner[b].0], owner[b].1) == b)
    && (forall b: nat | b < sb.size :: Used(sb, blk, b) <==> b < sb.data || b in owner)
  }

  /** Two file systems in which every file has the same blocks. */
  ghost predicate SameFiles(blk: seq<Block>, inodes: seq<Inode>, blk': seq<Block>, inodes': seq<Inode>) {
    && |inodes| == |inodes'|
    && (forall i | 0 <= i < |inodes| :: Shaped(inodes[i]) && Shaped(inodes'[i]))
    && (forall i: nat, bn: nat | i < |inodes| && bn < MAXFILE ::
          DataBlock(blk', inodes'[i], bn) == DataBlock(blk, inodes[i], bn))
  }

  /** Slots are unaffected by a change that spares the inode's indirect block. */
  lemma AddrFrame(blk: seq<Block>, blk': seq<Block>, ip: Inode)
    requires Shaped(ip) && |blk| == |blk'|
    requires var a := ip.addrs[NDIRECT]; a == 0 || a >= |blk| || blk'[a] == blk[a]
    ensures forall k: nat | k < SLOTS :: Addr(blk', ip, k) == Addr(blk, ip, k)
  {
  }

  /** Two slots never share a block. */
  lemma SlotsDisjoint(sb: Super, blk: seq<Block>, inodes: seq<Inode>, owner: Owner, i: nat, k: nat, j: nat, m: nat)
    requires Owns(sb, blk, inodes, owner) && i < |inodes| && j < |inodes| && k < SLOTS && m < SLOTS
    requires Addr(blk, inodes[i], k) == Addr(blk, inodes[j], m) != 0
    ensures i == j && k == m
  {
  }

  /** An owned block lies in the data area, is marked, and is not a bitmap or inode block. */
  lemma SlotInData(sb: Super, blk: seq<Block>, inodes: seq<Inode>, owner: Owner, i: nat, k: nat)
    requires Owns(sb, blk, inodes, owner) && i < |inodes| && k < SLOTS
    ensures var a := Addr(blk, inodes[i], k); a != 0 ==> sb.data <= a < sb.size && a in owner && owner[a] == (i, k)
  {
  }

  /** A change below the data area: slots and data are untouched. */
  lemma MetaChange(sb: Super, blk: seq<Block>, blk': seq<Block>, inodes: seq<Inode>, owner: Owner)
    requires Owns(sb, blk, inodes, owner) && |blk'| == |blk|
    requires forall b | sb.data <= b < sb.size :: blk'[b] == blk[b]
    ensures forall i: nat, k: nat | i < |inodes| && k < SLOTS :: Addr(blk', inodes[i], k) == Addr(blk, inodes[i], k)
    ensures SameFiles(blk, inodes, blk', inodes)
  {
    forall i: nat | i < |inodes|
      ensures forall k: nat | k < SLOTS :: Addr(blk', inodes[i], k) == Addr(blk, inodes[i], k)
    {
      SlotInData(sb, blk, inodes, owner, i, NDIRECT);
      AddrFrame(blk, blk', inodes[i]);
    }
    forall i: nat, bn: nat | i < |inodes| && bn < MAXFILE
      ensures DataBlock(blk', inodes[i], bn) == DataBlock(blk, inodes[i], bn)
    {
      SlotInData(sb, blk, inodes, owner, i, DataSlot(bn));
    }
  }

  // ----- filling a slot -----

  /** balloc's effect: mark the block and zero it. */
  function Alloc(sb: Super, blk: seq<Block>, b: nat): (r: seq<Block>)
    requires sb.Valid() && |blk| == sb.size && b < sb.size
    ensures |r| == |blk|
  {
    Mark(sb, blk, b)[b := Zeros()]
  }

  /** A block balloc may return: unmarked, hence in the data area and unowned. */
  lemma FreeBlock(sb: Super, blk: seq<Block>, inodes: seq<Inode>, owner: Owner, b: nat)
    requires Owns(sb, blk, inodes, owner) && b < sb.size && !Used(sb, blk, b)
    ensures sb.data <= b && b !in owner
    ensures forall c | sb.data <= c < sb.size && c != b :: Alloc(sb, blk, b)[c] == blk[c]
    ensures forall c: nat | c < sb.size :: Used(sb, Alloc(sb, blk, b), c) <==> Used(sb, blk, c) || c == b
  {
    BBlockRange(sb, b);
    forall c: nat | c < sb.size ensures Used(sb, Alloc(sb, blk, b), c) <==> Used(sb, blk, c) || c == b {
      MarkUsed(sb, blk, b, c);
      BBlockRange(sb, c);
    }
  }

  lemma SlotOwned(sb: Super, blk: seq<Block>, blk': seq<Block>, inodes: seq<Inode>, inodes': seq<Inode>, owner: Owner,
                  i: nat, k: nat, b: nat)
    requires Owns(sb, blk, inodes, owner) && |blk'| == |blk| && |inodes'| == |inodes|
    requires i < |inodes| && k < SLOTS && Addr(blk, inodes[i], k) == 0
    requires sb.data <= b < sb.size && b !in owner
    requires forall j | 0 <= j < |inodes| :: Shaped(inodes'[j])
    requires forall j: nat, m: nat | j < |inodes| && m < SLOTS ::
               Addr(blk', inodes'[j], m) == if j == i && m == k then b else Addr(blk, inodes[j], m)
    requires forall c: nat | c < sb.size :: Used(sb, blk', c) <==> Used(sb, blk, c) || c == b
    ensures Owns(sb, blk', inodes', owner[b := (i, k)])
  {
    hide Used, Addr;
  }

  /** Slot (i, k) was empty and now holds the fresh zeroed block b; no other slot changed. */
  lemma SlotFilled(sb: Super, blk: seq<Block>, blk': seq<Block>, inodes: seq<Inode>, inodes': seq<Inode>, owner: Owner,
                   i: nat, k: nat, b: nat)
    requires Owns(sb, blk, inodes, owner) && |blk'| == |blk| && |inodes'| == |inodes|
    requires i < |inodes| && k < SLOTS && Addr(blk, inodes[i], k) == 0
    requires sb.data <= b < sb.size && b !in owner && blk'[b] == Zeros()
    requires forall j | 0 <= j < |inodes| :: Shaped(inodes'[j])
    requires forall j: nat, m: nat | j < |inodes| && m < SLOTS ::
               Addr(blk', inodes'[j], m) == if j == i && m == k then b else Addr(blk, inodes[j], m)
    requires forall c: nat | c < sb.size :: Used(sb, blk', c) <==> Used(sb, blk, c) || c == b
    requires forall c | c in owner && owner[c].1 != NDIRECT :: sb.data <= c < sb.size && blk'[c] == blk[c]
    ensures Owns(sb, blk', inodes', owner[b := (i, k)])
    ensures SameFiles(blk, inodes, blk', inodes')
  {
    SlotOwned(sb, blk, blk', inodes, inodes', owner, i, k, b);
    hide Used, Addr;
    forall j: nat, bn: nat | j < |inodes| && bn < MAXFILE
      ensures DataBlock(blk', inodes'[j], bn) == DataBlock(blk, inodes[j], bn)
    {
      SlotInData(sb, blk, inodes, owner, j, DataSlot(bn));
    }
  }

  lemma IndirectInData(sb: Super, blk: seq<Block>, inodes: seq<Inode>, owner: Owner, i: nat)
    requires Owns(sb, blk, inodes, owner) && i < |inodes| && inodes[i].addrs[NDIRECT] != 0
    ensures var ind := inodes[i].addrs[NDIRECT];
      sb.data <= ind < sb.size && ind in owner && owner[ind] == (i, NDIRECT)
  {
    SlotInData(sb, blk, inodes, owner, i, NDIRECT);
  }

  /** An entry put into the indirect block of file i, seen from slot m of file j. */
  lemma AddrFilled(sb: Super, blk: seq<Block>, blk': seq<Block>, inodes: seq<Inode>, owner: Owner,
                   i: nat, e: nat, b: nat, j: nat, m: nat)
    requires Owns(sb, blk, inodes, owner) && b < sb.size && i < |inodes| && e < NINDIRECT
             && inodes[i].addrs[NDIRECT] != 0
    requires j < |inodes| && m < SLOTS && |blk'| == |blk| && sb.data <= inodes[i].addrs[NDIRECT] < sb.size
    requires forall c | sb.data <= c < sb.size && c != b && c != inodes[i].addrs[NDIRECT] :: blk'[c] == blk[c]
    requires b !in owner && blk'[inodes[i].addrs[NDIRECT]] == PutWord(blk[inodes[i].addrs[NDIRECT]], e, b)
    ensures Addr(blk', inodes[j], m) == if j == i && m == NDIRECT + 1 + e then b else Addr(blk, inodes[j], m)
  {
    hide Used;
    if inodes[j].addrs[NDIRECT] != 0 {
      IndirectInData(sb, blk, inodes, owner, j);
      IndirectInData(sb, blk, inodes, owner, i);
    }
  }

  /** Putting a fresh block into an empty direct slot or an empty indirect pointer. */
  lemma FillDirect(sb: Super, blk: seq<Block>, inodes: seq<Inode>, owner: Owner, i: nat, k: nat, b: nat)
    requires Owns(sb, blk, inodes, owner) && b < sb.size && !Used(sb, blk, b)
    requires i < |inodes| && k <= NDIRECT && inodes[i].addrs[k] == 0
    ensures var inodes' := inodes[i := inodes[i].(addrs := inodes[i].addrs[k := b])];
            && Owns(sb, Alloc(sb, blk, b), inodes', owner[b := (i, k)])
            && SameFiles(blk, inodes, Alloc(sb, blk, b), inodes')
  {
    hide Used, Mark, Bit, SameFiles;
    FreeBlock(sb, blk, inodes, owner, b);
    var blk' := Alloc(sb, blk, b);
    var ip' := inodes[i].(addrs := inodes[i].addrs[k := b]);
    var inodes' := inodes[i := ip'];
    forall j: nat, m: nat | j < |inodes| && m < SLOTS
      ensures Addr(blk', inodes'[j], m) == if j == i && m == k then b else Addr(blk, inodes[j], m)
    {
      SlotInData(sb, blk, inodes, owner, j, NDIRECT);
      if j == i && k == NDIRECT && m > NDIRECT { ZeroWord(m - NDIRECT - 1); }
    }
    SlotFilled(sb, blk, blk', inodes, inodes', owner, i, k, b);
  }

  /** Putting a fresh block into an empty entry of the indirect block. */
  lemma FillIndirect(sb: Super, blk: seq<Block>, inodes: seq<Inode>, owner: Owner, i: nat, e: nat, b: nat)
    requires Owns(sb, blk, inodes, owner) && b < sb.size && !Used(sb, blk, b)
    requires i < |inodes| && e < NINDIRECT && inodes[i].addrs[NDIRECT] != 0
    requires Addr(blk, inodes[i], NDIRECT + 1 + e) == 0
    ensures var ind := inodes[i].addrs[NDIRECT];
            && sb.data <= ind < sb.size && ind != b
            && var blk' := Alloc(sb, blk, b)[ind := PutWord(blk[ind], e, b)];
               && Owns(sb, blk', inodes, owner[b := (i, NDIRECT + 1 + e)])
               && SameFiles(blk, inodes, blk', inodes)
  {
    hide Used, Mark, Bit, SameFiles, Addr, PutWord, GetWord;
    FreeBlock(sb, blk, inodes, owner, b);
    IndirectInData(sb, blk, inodes, owner, i);
    var ind := inodes[i].addrs[NDIRECT];
    var blk1 := Alloc(sb, blk, b);
    var blk' := blk1[ind := PutWord(blk[ind], e, b)];
    UsedFrame(sb, blk1, blk');
    forall j: nat, m: nat | j < |inodes| && m < SLOTS
      ensures Addr(blk', inodes[j], m) == if j == i && m == NDIRECT + 1 + e then b else Addr(blk, inodes[j], m)
    {
      AddrFilled(sb, blk, blk', inodes, owner, i, e, b, j, m);
    }
    SlotFilled(sb, blk, blk', inodes, inodes, owner, i, NDIRECT + 1 + e, b);
  }

  /** The bitmap is read from the blocks below the data area only. */
  lemma UsedFrame(sb: Super, blk: seq<Block>, blk': seq<Block>)
    requires sb.Valid() && |blk| == |blk'| == sb.size
    requires forall c | sb.bmapstart <= c < sb.data :: blk'[c] == blk[c]
    ensures forall c: nat | c < sb.size :: Used(sb, blk', c) <==> Used(sb, blk, c)
  {
    forall c: nat | c < sb.size ensures Used(sb, blk', c) <==> Used(sb, blk, c) {
      BBlockRange(sb, c);
    }
  }

  /** Changing the bytes of a file's block changes that block of that file, and nothing else. */
  lemma WriteData(sb: Super, blk: seq<Block>, inodes: seq<Inode>, owner: Owner, i: nat, bn: nat, x: Block)
    requires Owns(sb, blk, inodes, owner) && i < |inodes| && bn < MAXFILE
    requires Addr(blk, inodes[i], DataSlot(bn)) != 0
    ensures var a := Addr(blk, inodes[i], DataSlot(bn));
            && sb.data <= a < sb.size
            && Owns(sb, blk[a := x], inodes, owner)
            && forall j: nat, m: nat | j < |inodes| && m < MAXFILE ::
                 DataBlock(blk[a := x], inodes[j], m) == if j == i && m == bn then x else DataBlock(blk, inodes[j], m)
  {
    hide Used;
    SlotInData(sb, blk, inodes, owner, i, DataSlot(bn));
    var a := Addr(blk, inodes[i], DataSlot(bn));
    var blk' := blk[a := x];
    UsedFrame(sb, blk, blk');
    forall j: nat | j < |inodes|
      ensures forall m: nat | m < SLOTS :: Addr(blk', inodes[j], m) == Addr(blk, inodes[j], m)
    {
      SlotInData(sb, blk, inodes, owner, j, NDIRECT);
      AddrFrame(blk, blk', inodes[j]);
    }
    forall j: nat, m: nat | j < |inodes| && m < MAXFILE
      ensures DataBlock(blk', inodes[j], m) == if j == i && m == bn then x else DataBlock(blk, inodes[j], m)
    {
      SlotInData(sb, blk, inodes, owner, j, DataSlot(m));
    }
  }

  /** Writing an inode block keeps ownership and every file's data. */
  lemma WriteInode(sb: Super, blk: seq<Block>, inodes: seq<Inode>, owner: Owner, inum: nat, x: Block)
    requires Owns(sb, blk, inodes, owner) && inum < sb.ninodes
    ensures sb.IBlock(inum) < sb.data
    ensures var blk' := blk[sb.IBlock(inum) := x];
            Owns(sb, blk', inodes, owner) && SameFiles(blk, inodes, blk', inodes)
  {
    hide Used;
    IBlockRange(sb, inum);
    var blk' := blk[sb.IBlock(inum) := x];
    MetaChange(sb, blk, blk', inodes, owner);
    UsedFrame(sb, blk, blk');
  }

  // ----- emptying an inode -----

  /** The blocks an inode holds. */
  ghost function Held(owner: Owner, i: nat): (s: set<nat>) {
    set b | b in owner && owner[b].0 == i
  }

  /** After exactly the blocks of inode i have been unmarked and its slots cleared, it owns nothing
      and everyone else owns what they did. */
  lemma Truncated(sb: Super, blk: seq<Block>, blk': seq<Block>, inodes: seq<Inode>, owner: Owner, i: nat, ip: Inode)
    requires Owns(sb, blk, inodes, owner) && i < |inodes| && |blk'| == |blk|
    requires forall b | sb.data <= b < sb.size :: blk'[b] == blk[b]
    requires forall b: nat | b < sb.size :: Used(sb, blk', b) <==> Used(sb, blk, b) && b !in Held(owner, i)
    requires Shaped(ip) && forall k | 0 <= k <= NDIRECT :: ip.addrs[k] == 0
    ensures var inodes' := inodes[i := ip];
            && Owns(sb, blk', inodes', owner - Held(owner, i))
            && (forall j: nat, bn: nat | j < |inodes| && bn < MAXFILE && j != i ::
                  DataBlock(blk', inodes'[j], bn) == DataBlock(blk, inodes[j], bn))
            && (forall bn: nat | bn < MAXFILE :: Addr(blk', ip, DataSlot(bn)) == 0)
  {
    hide Used;
    MetaChange(sb, blk, blk', inodes, owner);
    var inodes', owner' := inodes[i := ip], owner - Held(owner, i);
    forall j: nat, m: nat | j < |inodes| && m < SLOTS
      ensures Addr(blk', inodes'[j], m) == if j == i then 0 else Addr(blk, inodes[j], m)
    {
    }
    forall j: nat, bn: nat | j < |inodes| && bn < MAXFILE && j != i
      ensures DataBlock(blk', inodes'[j], bn) == DataBlock(blk, inodes[j], bn)
    {
      assert inodes'[j] == inodes[j];
    }
  }
}
