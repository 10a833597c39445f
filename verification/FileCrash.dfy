/** File system operations and crashes: an operation whose changed blocks are all logged, and
    which is committed as one transaction, happens entirely or not at all. */
module FileCrash {
  import opened Params
  import opened Blocks
  import opened CrashRecovery
  import opened DiskLayout
  import opened FileBlocks
  import opened FileBytes
  import opened FileSystem
  import opened OpenFile

  /** The log lies below the inode blocks of the file system. */
  ghost predicate Fits(l: Layout, sb: Super) {
    l.Valid() && sb.Valid() && l.disk == sb.size && l.start + l.size <= sb.inodestart
  }

  /** The blocks an operation logged, in the order in which it first logged them. */
  ghost predicate Lists(l: Layout, blocks: seq<nat>, logged: set<nat>) {
    |blocks| <= LOGSIZE && |blocks| + 1 <= l.size && forall c :: c in logged <==> c in blocks
  }

  /** A crash after `done` block writes of the commit, then recoveries, all but the last of them
      cut short as well. */
  ghost predicate CrashRun(l: Layout, ss: seq<Machine>, es: seq<Event>, blocks: seq<nat>, data: seq<Block>, done: nat) {
    && IsRun(l, ss, es) && ss[0].up && |es| >= 2
    && es[0] == CrashInCommit(blocks, data, done) && es[|es| - 1] == Recover
    && forall k | 0 < k < |es| - 1 :: es[k].CrashInRecovery?
  }

  lemma LoggedIsLoggable(l: Layout, sb: Super, blk: seq<Block>, blk': seq<Block>, logged: set<nat>, blocks: seq<nat>)
    requires Fits(l, sb) && Logs(sb, blk, {}, blk', logged) && Lists(l, blocks, logged)
    ensures l.Loggable(blocks) && |blk| == |blk'| == l.disk && forall i | 0 <= i < |blocks| :: blocks[i] < |blk'|
  {
    assert forall i | 0 <= i < |blocks| :: blocks[i] in logged;
  }

  /** Writing k of the logged blocks home. */
  lemma {:induction false} ApplyPending(d: Image, blk': seq<Block>, blocks: seq<nat>, k: nat)
    requires |d| == |blk'| && k <= |blocks| && forall i | 0 <= i < |blocks| :: blocks[i] < |d|
    ensures forall w | w in HomeWrites(blocks, Pending(blk', blocks))[..k] :: w.0 < |d|
    ensures var r := Apply(d, HomeWrites(blocks, Pending(blk', blocks))[..k]);
      forall c | 0 <= c < |d| :: r[c] == if c in blocks[..k] then blk'[c] else d[c]
  {
    var ws := HomeWrites(blocks, Pending(blk', blocks));
    if k == 0 {
      assert ws[..0] == [];
    } else {
      ApplyPending(d, blk', blocks, k - 1);
      assert ws[..k][..k - 1] == ws[..k - 1] && blocks[..k] == blocks[..k - 1] + [blocks[k - 1]];
    }
  }

  /** Installing what the operation logged turns the one image into the other. */
  lemma AfterIsNew(l: Layout, sb: Super, blk: seq<Block>, blk': seq<Block>, logged: set<nat>, blocks: seq<nat>)
    requires Fits(l, sb) && Logs(sb, blk, {}, blk', logged) && Lists(l, blocks, logged) && l.Loggable(blocks)
    requires forall i | 0 <= i < |blocks| :: blocks[i] < |blk'|
    ensures After(l, blk, blocks, Pending(blk', blocks)) == blk'
  {
    var ws := HomeWrites(blocks, Pending(blk', blocks));
    ApplyPending(blk, blk', blocks, |blocks|);
    assert ws[..|blocks|] == ws && blocks[..|blocks|] == blocks;
  }

  /** Crashes in recovery, and recovery itself, are nothing to the specification. */
  lemma {:induction false} SpecTail(l: Layout, h: Image, es: seq<Event>)
    requires |h| == l.disk && es != [] && forall k | 0 < k < |es| :: es[k].CrashInRecovery? || es[k].Recover?
    ensures SpecRun(l, h, es) == Spec(l, h, es[0])
    decreases |es|
  {
    if |es| == 1 {
      assert es[..0] == [];
    } else {
      SpecTail(l, h, es[..|es| - 1]);
    }
  }

  /** An operation committed as one transaction is atomic: wherever the commit is cut short, and
      however often recovery is, the recovered disk is the old file system or the new one, and the
      new one exactly when the header write was done. */
  lemma OperationIsAtomic(l: Layout, sb: Super, blk: seq<Block>, blk': seq<Block>, logged: set<nat>,
                          blocks: seq<nat>, ss: seq<Machine>, es: seq<Event>, done: nat)
    requires Fits(l, sb) && Logs(sb, blk, {}, blk', logged) && Lists(l, blocks, logged)
    requires forall i | 0 <= i < |blocks| :: blocks[i] < |blk'|
    requires CrashRun(l, ss, es, blocks, Pending(blk', blocks), done) && Clean(l, ss[0].disk, blk)
    ensures Clean(l, ss[|es|].disk, if done > |blocks| then blk' else blk)
  {
    hide Logs, Clean, Apply, Pending, RecoversTo, Lists;
    LoggedIsLoggable(l, sb, blk, blk', logged, blocks);
    CrashAtomicity(l, ss, es, blk);
    assert forall k | 0 < k < |es| :: es[k].CrashInRecovery? || es[k].Recover?;
    SpecTail(l, blk, es);
    AfterIsNew(l, sb, blk, blk', logged, blocks);
    assert Next(l, ss[|es| - 1], es[|es| - 1], ss[|es|]);
  }

  // ----- the files on the disk -----

  /** The bytes of file i as a freshly started kernel finds them. */
  ghost function OnImage(sb: Super, d: Image, i: nat): (r: seq<Byte>)
    requires sb.Valid() && |d| == sb.size && i < sb.ninodes
  {
    var ip := Dinode(d[sb.IBlock(i)], i % IPB);
    if ip.size <= MAXBYTES then Content(d, ip) else []
  }

  /** A clean disk shows the files of the file system it is a disk of. */
  lemma FilesOnImage(l: Layout, sb: Super, d: Image, blk: seq<Block>, inodes: seq<Inode>, owner: Owner, i: nat)
    requires Fits(l, sb) && Owns(sb, blk, inodes, owner) && SameHome(l, d, blk) && i < |inodes|
    requires OnDisk(sb, blk, inodes, i) && inodes[i].size <= MAXBYTES
    ensures OnImage(sb, d, i) == Content(blk, inodes[i])
  {
    hide Used, Flat, Dinode;
    IBlockRange(sb, i);
    assert d[sb.IBlock(i)] == blk[sb.IBlock(i)] by { assert l.Home(sb.IBlock(i)); }
    forall b | sb.data <= b < sb.size ensures d[b] == blk[b] {
      assert l.Home(b);
    }
    MetaChange(sb, blk, d, inodes, owner);
    hide Owns;
    OthersSame(blk, inodes, d, inodes, i);
  }

  lemma CleanHome(l: Layout, d: Image, h: Image)
    requires Clean(l, d, h)
    ensures |d| == l.disk && SameHome(l, d, h)
  {
  }

  /** One transaction of filewrite, cut short by a crash: every file of the recovered disk has its
      old contents, or, exactly when the header was written, every file has its new ones; and the
      new ones differ from the old in the bytes written, and nowhere else. */
  method WriteAndCrash(f: FileHandle, chunk: seq<Byte>, ghost l: Layout) returns (r: Outcome, ghost logged: set<nat>)
    requires f.Valid() && f.fs.AllOnDisk() && |chunk| <= CHUNK && Fits(l, f.fs.sb)
    modifies f`off, f.fs
    ensures r.Count? ==> |logged| <= MAXOPBLOCKS && f.Valid() && |f.fs.inodes| == |old(f.fs.inodes)| == f.fs.sb.ninodes
    ensures r.Count? ==> f.fs.AllOnDisk() && old(f.off) <= |old(f.Data())|
    ensures r.Count? ==> f.Data() == Written(old(f.Data()), old(f.off), chunk)
    ensures r.Count? ==> forall j: nat | j < |f.fs.inodes| && j != f.ip :: f.fs.File(j) == old(f.fs.File(j))
    ensures r.Count? ==>
              forall blocks: seq<nat>, ss: seq<Machine>, es: seq<Event>, done: nat, j: nat
                | && Lists(l, blocks, logged) && (forall i | 0 <= i < |blocks| :: blocks[i] < |f.fs.blk|)
                  && CrashRun(l, ss, es, blocks, Pending(f.fs.blk, blocks), done)
                  && Clean(l, ss[0].disk, old(f.fs.blk)) && j < |f.fs.inodes| ::
                OnImage(f.fs.sb, ss[|es|].disk, j) == if done > |blocks| then f.fs.File(j) else old(f.fs.File(j))
  {
    hide Logs, Lists, Clean, Owns, Content, OnImage, Written, Filled, Pending, OnDisk;
    ghost var size;
    ghost var blk, inodes, owner := f.fs.blk, f.fs.inodes, f.fs.owner;
    OwnsShape(f.fs.sb, blk, inodes, owner);
    r, size := f.WriteTx(chunk);
    logged := f.fs.logged;
    if r.Count? {
      ghost var sb, blk', inodes', owner' := f.fs.sb, f.fs.blk, f.fs.inodes, f.fs.owner;
      OwnsShape(sb, blk', inodes', owner');
      forall blocks: seq<nat>, ss: seq<Machine>, es: seq<Event>, done: nat, j: nat
        | && Lists(l, blocks, logged) && (forall i | 0 <= i < |blocks| :: blocks[i] < |blk'|)
          && CrashRun(l, ss, es, blocks, Pending(blk', blocks), done)
          && Clean(l, ss[0].disk, blk) && j < |inodes'|
        ensures OnImage(sb, ss[|es|].disk, j)
                == if done > |blocks| then Content(blk', inodes'[j]) else Content(blk, inodes[j])
      {
        OperationIsAtomic(l, sb, blk, blk', logged, blocks, ss, es, done);
        CleanHome(l, ss[|es|].disk, if done > |blocks| then blk' else blk);
        if done > |blocks| {
          FilesOnImage(l, sb, ss[|es|].disk, blk', inodes', owner', j);
        } else {
          FilesOnImage(l, sb, ss[|es|].disk, blk, inodes, owner, j);
        }
      }
    }
  }
}
