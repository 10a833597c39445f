/** The buffer cache: NBUF buffers on a most-recently-used ring, in front of one disk.

    Every method is one atomic section of the C code (a stretch under bcache.lock, or
    a stretch by the process that holds a buffer's sleep lock), so a run of the kernel
    is any sequence of method calls by any processes; `Valid` holds between any two. */
module BufferCache {
  import opened Options
  import opened Params
  import opened Blocks
  import opened Ring

  const DISK := 1                  // the one device iderw serves

  datatype Buf = Buf(dev: nat, blockno: nat, refcnt: nat, valid: bool, dirty: bool, data: Block)

  /** How far one call of bread gets: the "no buffers" panic, asleep on the lock of a buffer,
      or done with the buffer locked. */
  datatype Reading = NoBuffers | Waits(b: nat) | Ready(b: nat)

  predicate Holds(b: Buf, dev: nat, blockno: nat) {
    b.dev == dev && b.blockno == blockno
  }

  /** A buffer that bget may give to another block. */
  predicate Reusable(b: Buf) {
    b.refcnt == 0 && !b.dirty
  }

  /** No buffer that is referenced or pinned has changed the block it stands for. */
  ghost predicate KeepsIdentity(before: seq<Buf>, after: seq<Buf>) {
    && |before| == |after|
    && forall i | 0 <= i < |before| && !Reusable(before[i]) ::
         after[i].dev == before[i].dev && after[i].blockno == before[i].blockno
  }

  ghost predicate Cached(buf: seq<Buf>, dev: nat, blockno: nat) {
    exists i :: 0 <= i < |buf| && Holds(buf[i], dev, blockno)
  }

  ghost predicate Pinned(buf: seq<Buf>, blockno: nat) {
    exists i :: 0 <= i < |buf| && buf[i].dirty && Holds(buf[i], DISK, blockno)
  }

  /** At most one buffer per block of a real device. */
  ghost predicate Unique(buf: seq<Buf>) {
    forall i, j | 0 <= i < j < |buf| && buf[i].dev != 0 :: !Holds(buf[j], buf[i].dev, buf[i].blockno)
  }

  /** Reference counts count the processes using a buffer; a lock holder is one of them. */
  ghost predicate Counted(buf: seq<Buf>, holder: seq<Option<nat>>, users: seq<set<nat>>) {
    && |buf| == |holder| == |users|
    && forall i | 0 <= i < |buf| ::
         && buf[i].refcnt == |users[i]|
         && (holder[i].Some? ==> holder[i].value in users[i])
  }

  /** The cache agrees with the plain block map `view`: a valid buffer nobody has locked
      carries its block's contents, and a block that no buffer pins is up to date on disk. */
  ghost predicate Coherent(buf: seq<Buf>, holder: seq<Option<nat>>, disk: seq<Block>, view: seq<Block>) {
    && |disk| == |view| && |buf| == |holder|
    && (forall i | 0 <= i < |buf| ::
          && (buf[i].dirty ==> buf[i].valid)
          && (buf[i].valid ==> buf[i].dev == DISK && buf[i].blockno < |disk|)
          && (buf[i].valid && holder[i].None? ==> buf[i].data == view[buf[i].blockno]))
    && (forall n | 0 <= n < |disk| :: view[n] == disk[n] || Pinned(buf, n))
  }

  /** The ring lists the buffers by the time of their last release, the latest first. */
  ghost predicate ByRelease(order: seq<nat>, released: seq<nat>, clock: nat) {
    && |released| == NBUF && (forall b: nat | b < NBUF :: released[b] < clock)
    && (forall i | 0 <= i < |order| :: order[i] < NBUF)
    && forall i, j | 0 <= i < j < |order| :: released[order[i]] > released[order[j]]
  }

  /** The ring order once b, wherever it was, has come first and the others have stayed in order. */
  ghost predicate MovedFirst(order: seq<nat>, b: nat, order': seq<nat>) {
    exists k :: 0 <= k < |order| && order[k] == b && order' == [b] + Without(order, k)
  }

  /** Buffer b is reusable, and no reusable buffer was released before it. */
  ghost predicate LeastRecent(buf: seq<Buf>, released: seq<nat>, b: nat) {
    && b < |buf| == |released| && Reusable(buf[b])
    && forall i: nat | i < |buf| && Reusable(buf[i]) :: released[b] <= released[i]
  }

  class Bcache {
    var buf: seq<Buf>
    var next: seq<nat>
    var prev: seq<nat>
    var holder: seq<Option<nat>>     // sleep lock of each buffer
    var disk: seq<Block>
    ghost var order: seq<nat>        // buffers from most to least recently used
    ghost var released: seq<nat>     // when each buffer was last let go by its last user
    ghost var clock: nat             // the time of the next such release
    var users: seq<set<nat>>         // processes between bget and brelse
    ghost var view: seq<Block>       // what the blocks hold, as the file system sees them
    ghost var writes: seq<(nat, Block)>  // every block write the disk has completed

    ghost predicate RingValid()
      reads this
    {
      && IsRing(next, prev, NBUF, order)
      && |order| == NBUF
      && (forall b: nat | b < NBUF :: b in order)
    }

    ghost predicate Valid()
      reads this
    {
      && |buf| == NBUF
      && RingValid()
      && ByRelease(order, released, clock)
      && Unique(buf)
      && Counted(buf, holder, users)
      && Coherent(buf, holder, disk, view)
    }

    /** Every process has released everything. */
    ghost predicate Quiet()
      reads this
    {
      |buf| == NBUF && |holder| == NBUF && |users| == NBUF
      && forall i | 0 <= i < NBUF :: users[i] == {} && holder[i] == None && buf[i].refcnt == 0
    }

    /** binit over a given disk: all buffers start as block 0 of device 0. */
    constructor (disk: seq<Block>)
      ensures Valid() && Quiet()
      ensures clock == NBUF && forall b: nat | b < NBUF :: released[b] == b
      ensures this.disk == disk && view == disk && writes == []
      ensures forall i | 0 <= i < NBUF :: buf[i] == Buf(0, 0, 0, false, false, Zeros())
    {
      var empty := Buf(0, 0, 0, false, false, Zeros());
      this.disk := disk;
      view, writes := disk, [];
      buf := seq(NBUF, _ => empty);
      holder := seq(NBUF, _ => None);
      users := seq(NBUF, _ => {});
      next, prev := seq(NBUF + 1, _ => NBUF), seq(NBUF + 1, _ => NBUF);
      order := [];
      released, clock := seq(NBUF, b => b), NBUF;
      new;
      assert IsRing(next, prev, NBUF, order);
      hide IsRing, Unique, Counted, Coherent;
      var b := 0;
      while b < NBUF
        invariant 0 <= b <= NBUF
        invariant IsRing(next, prev, NBUF, order) && |order| == b
        invariant forall i: nat | i < NBUF :: i in order <==> i < b
        invariant forall i | 0 <= i < b :: order[i] == b - 1 - i
        modifies this`next, this`prev, this`order
      {
        LinkFirst(b);
        b := b + 1;
      }
    }

    /** Find or claim a buffer for a block; None is the "no buffers" panic. A miss takes
        the least recently used reusable buffer. */
    method Bget(pid: nat, dev: nat, blockno: nat) returns (r: Option<nat>)
      requires Valid() && dev != 0
      requires forall i | 0 <= i < NBUF && Holds(buf[i], dev, blockno) :: pid !in users[i]
      modifies this`buf, this`users
      ensures Valid() && KeepsIdentity(old(buf), buf)
      ensures r.None? <==> !Cached(old(buf), dev, blockno) && forall i | 0 <= i < NBUF :: !Reusable(old(buf)[i])
      ensures r.None? ==> buf == old(buf) && users == old(users)
      ensures r.Some? ==>
                && r.value < NBUF
                && users == old(users)[r.value := old(users)[r.value] + {pid}]
                && var b := old(buf)[r.value];
                   if Cached(old(buf), dev, blockno)
                   then Holds(b, dev, blockno) && buf == old(buf)[r.value := b.(refcnt := b.refcnt + 1)]
                   else
                     && Reusable(b)
                     && buf == old(buf)[r.value := Buf(dev, blockno, 1, false, false, b.data)]
                     && exists k :: 0 <= k < NBUF && order[k] == r.value
                                    && forall j | k < j < NBUF :: !Reusable(old(buf)[order[j]])
      ensures r.Some? && !Cached(old(buf), dev, blockno) ==> LeastRecent(old(buf), released, r.value)
    {
      assert |users| == NBUF;
      hide ByRelease, Unique, Counted, Coherent, Pinned, IsRing, LeastRecent;
      r := FindCached(dev, blockno);
      if r.Some? {
        var b := r.value;
        buf := buf[b := buf[b].(refcnt := buf[b].refcnt + 1)];
        users := users[b := users[b] + {pid}];
        AddUser(old(buf), buf, holder, old(users), disk, view, b, pid);
        return;
      }
      r := FindVictim();
      if r.Some? {
        var b := r.value;
        buf := buf[b := Buf(dev, blockno, 1, false, false, buf[b].data)];
        users := users[b := users[b] + {pid}];
        Recycle(old(buf), buf, holder, old(users), users, disk, view, b, dev, blockno);
      }
    }

    /** bget's first loop: from the most recently used end, the first buffer for the block. */
    method FindCached(dev: nat, blockno: nat) returns (r: Option<nat>)
      requires |buf| == NBUF && RingValid()
      ensures r.Some? <==> Cached(buf, dev, blockno)
      ensures r.Some? ==> r.value < NBUF && Holds(buf[r.value], dev, blockno)
    {
      RingEnds(next, prev, NBUF, order);
      var b := next[NBUF];
      ghost var i := 0;
      while b != NBUF
        invariant 0 <= i <= NBUF
        invariant b == if i < NBUF then order[i] else NBUF
        invariant forall j | 0 <= j < i :: !Holds(buf[order[j]], dev, blockno)
        decreases NBUF - i
      {
        if Holds(buf[b], dev, blockno) {
          return Some(b);
        }
        RingAt(next, prev, NBUF, order, i);
        b, i := next[b], i + 1;
      }
      NotCached(buf, order, dev, blockno);
      return None;
    }

    /** bget's second loop: from the least recently used end, the first reusable buffer. */
    method FindVictim() returns (r: Option<nat>)
      requires |buf| == NBUF && RingValid()
      ensures r.None? <==> forall i | 0 <= i < NBUF :: !Reusable(buf[i])
      ensures r.Some? ==> r.value < NBUF && Reusable(buf[r.value])
      ensures r.Some? ==> exists k :: 0 <= k < NBUF && order[k] == r.value
                                      && forall j | k < j < NBUF :: !Reusable(buf[order[j]])
      ensures r.Some? && ByRelease(order, released, clock) ==> LeastRecent(buf, released, r.value)
    {
      hide ByRelease, LeastRecent;
      RingEnds(next, prev, NBUF, order);
      var b := prev[NBUF];
      ghost var i := NBUF - 1;
      while b != NBUF
        invariant -1 <= i < NBUF
        invariant b == if i >= 0 then order[i] else NBUF
        invariant forall j | i < j < NBUF :: !Reusable(buf[order[j]])
        decreases i
      {
        if Reusable(buf[b]) {
          if ByRelease(order, released, clock) {
            LongestAgo(buf, order, released, clock, b);
          }
          return Some(b);
        }
        RingAt(next, prev, NBUF, order, i);
        b, i := prev[b], i - 1;
      }
      forall j | 0 <= j < NBUF ensures !Reusable(buf[j]) {
        assert j in order;
      }
      return None;
    }

    /** acquiresleep on a buffer's lock: enabled once nobody holds it. */
    method Acquire(pid: nat, b: nat)
      requires Valid() && b < NBUF && pid in users[b] && holder[b] == None
      modifies this`holder
      ensures Valid() && holder == old(holder)[b := Some(pid)]
    {
      holder := holder[b := Some(pid)];
    }

    /** Sync one buffer with the disk: write it if dirty, otherwise read it. */
    method Iderw(b: nat)
      requires b < |buf| && (buf[b].valid ==> buf[b].dirty)
      requires buf[b].dev == DISK && buf[b].blockno < |disk|
      modifies this`buf, this`disk, this`writes
      ensures if old(buf)[b].dirty then
                && disk == old(disk)[old(buf)[b].blockno := old(buf)[b].data]
                && writes == old(writes) + [(old(buf)[b].blockno, old(buf)[b].data)]
                && buf == old(buf)[b := old(buf)[b].(valid := true, dirty := false)]
              else
                && disk == old(disk) && writes == old(writes)
                && buf == old(buf)[b := old(buf)[b].(valid := true, data := disk[old(buf)[b].blockno])]
    {
      var x := buf[b];
      if x.dirty {
        x := x.(dirty := false);
        disk := disk[x.blockno := x.data];
        writes := writes + [(x.blockno, x.data)];
      } else {
        x := x.(data := disk[x.blockno]);
      }
      buf := buf[b := x.(valid := true)];
    }

    /** bread's disk read, by the process that holds the buffer. */
    method Fill(pid: nat, b: nat)
      requires Valid() && b < NBUF && holder[b] == Some(pid) && !buf[b].valid
      requires buf[b].dev == DISK && buf[b].blockno < |disk|
      modifies this`buf, this`disk, this`writes
      ensures Valid() && disk == old(disk) && writes == old(writes)
      ensures buf == old(buf)[b := old(buf)[b].(valid := true, data := view[old(buf)[b].blockno])]
    {
      hide ByRelease, IsRing;
      CleanOnDisk(buf, holder, disk, view, b);
      Iderw(b);
      SamePins(old(buf), buf);
    }

    /** bread: a locked buffer with the block's current contents. While another process has the
        buffer locked the caller sleeps, counted as a user of it. */
    method Bread(pid: nat, blockno: nat) returns (r: Reading)
      requires Valid() && blockno < |disk|
      requires forall i | 0 <= i < NBUF && Holds(buf[i], DISK, blockno) :: pid !in users[i]
      modifies this`buf, this`users, this`holder, this`disk, this`writes
      ensures Valid() && KeepsIdentity(old(buf), buf)
      ensures disk == old(disk) && writes == old(writes)
      ensures r.NoBuffers? <==>
                !Cached(old(buf), DISK, blockno) && forall i | 0 <= i < NBUF :: !Reusable(old(buf)[i])
      ensures r.NoBuffers? ==> buf == old(buf) && users == old(users) && holder == old(holder)
      ensures !r.NoBuffers? ==>
                && r.b < NBUF
                && Holds(buf[r.b], DISK, blockno)
                && (Reusable(old(buf)[r.b]) || Holds(old(buf)[r.b], DISK, blockno))
                && users == old(users)[r.b := old(users)[r.b] + {pid}]
                && (r.Waits? <==> old(holder)[r.b].Some?)
      ensures !r.NoBuffers? && !Cached(old(buf), DISK, blockno) ==> LeastRecent(old(buf), released, r.b)
      ensures r.Waits? ==>
                && holder == old(holder)
                && buf == old(buf)[r.b := old(buf)[r.b].(refcnt := old(buf)[r.b].refcnt + 1)]
      ensures r.Ready? ==>
                && holder == old(holder)[r.b := Some(pid)]
                && buf == old(buf)[r.b := buf[r.b]]
                && buf[r.b].valid && buf[r.b].data == view[blockno]
                && buf[r.b].dirty == old(buf)[r.b].dirty
    {
      hide ByRelease, Pinned, IsRing;
      var found := Bget(pid, DISK, blockno);
      if found.None? {
        return NoBuffers;
      }
      var b := found.value;
      if holder[b].Some? {
        return Waits(b);
      }
      Resume(pid, b);
      return Ready(b);
    }

    /** The rest of bread, once nobody has the buffer locked. */
    method Resume(pid: nat, b: nat)
      requires Valid() && b < NBUF && pid in users[b] && holder[b] == None
      requires buf[b].dev == DISK && buf[b].blockno < |disk|
      modifies this`buf, this`holder, this`disk, this`writes
      ensures Valid() && KeepsIdentity(old(buf), buf)
      ensures disk == old(disk) && writes == old(writes)
      ensures holder == old(holder)[b := Some(pid)]
      ensures buf == old(buf)[b := old(buf)[b].(valid := true, data := view[old(buf)[b].blockno])]
    {
      hide ByRelease, Pinned, IsRing;
      Acquire(pid, b);
      if !buf[b].valid {
        Fill(pid, b);
      }
    }

    /** The holder changes the buffer's bytes. */
    method Modify(pid: nat, b: nat, data: Block)
      requires Valid() && b < NBUF && holder[b] == Some(pid) && buf[b].valid
      modifies this`buf
      ensures Valid() && buf == old(buf)[b := old(buf)[b].(data := data)]
    {
      buf := buf[b := buf[b].(data := data)];
      SamePins(old(buf), buf);
    }

    /** bwrite: the holder's bytes go to disk, and become the block's contents. */
    method Bwrite(pid: nat, b: nat)
      requires Valid() && b < NBUF && holder[b] == Some(pid) && buf[b].valid
      modifies this`buf, this`disk, this`writes, this`view
      ensures Valid() && KeepsIdentity(old(buf), buf)
      ensures var (n, data) := (old(buf)[b].blockno, old(buf)[b].data);
              && n < |old(disk)|
              && disk == old(disk)[n := data] && view == old(view)[n := data]
              && writes == old(writes) + [(n, data)]
              && buf == old(buf)[b := old(buf)[b].(dirty := false)]
    {
      hide ByRelease, IsRing;
      buf := buf[b := buf[b].(dirty := true)];
      Iderw(b);
      view := view[buf[b].blockno := buf[b].data];
      Written(old(buf), buf, holder, old(disk), old(view), b);
    }

    /** The part of log_write that touches the buffer: publish its bytes and pin it. */
    method Pin(pid: nat, b: nat)
      requires Valid() && b < NBUF && holder[b] == Some(pid) && buf[b].valid
      modifies this`buf, this`view
      ensures Valid() && KeepsIdentity(old(buf), buf)
      ensures buf[b].blockno < |old(view)| && view == old(view)[buf[b].blockno := buf[b].data]
      ensures buf == old(buf)[b := old(buf)[b].(dirty := true)]
    {
      buf := buf[b := buf[b].(dirty := true)];
      view := view[buf[b].blockno := buf[b].data];
      Published(old(buf), buf, holder, disk, old(view), b);
    }

    /** brelse, first section: give up the sleep lock. What the holder changed must have
        been handed to bwrite or log_write. */
    method Unlock(pid: nat, b: nat)
      requires Valid() && b < NBUF && holder[b] == Some(pid)
      requires buf[b].valid ==> buf[b].data == view[buf[b].blockno]
      modifies this`holder
      ensures Valid() && holder == old(holder)[b := None]
    {
      holder := holder[b := None];
    }

    /** brelse, second section: drop the reference; the last one out moves the buffer to
        the most recently used end. */
    method Unref(pid: nat, b: nat)
      requires Valid() && b < NBUF && pid in users[b] && holder[b] != Some(pid)
      modifies this`buf, this`users, this`next, this`prev, this`order, this`released, this`clock
      ensures Valid() && KeepsIdentity(old(buf), buf)
      ensures users == old(users)[b := old(users)[b] - {pid}]
      ensures buf == old(buf)[b := old(buf)[b].(refcnt := |users[b]|)]
      ensures if users[b] != {} then order == old(order)
              else MovedFirst(old(order), b, order)
      ensures if users[b] != {} then released == old(released) && clock == old(clock)
              else released == old(released)[b := old(clock)] && clock == old(clock) + 1
    {
      hide ByRelease, IsRing, MovedFirst;
      DropUser(buf, holder, users, b, pid);
      users := users[b := users[b] - {pid}];
      buf := buf[b := buf[b].(refcnt := buf[b].refcnt - 1)];
      SamePins(old(buf), buf);
      if buf[b].refcnt == 0 {
        ghost var order0 := order;
        MoveToFront(b);
        LatestFirst(order0, order, released, clock, b);
        released, clock := released[b := clock], clock + 1;
      }
    }

    /** The list surgery of brelse. */
    method MoveToFront(b: nat)
      requires RingValid() && b < NBUF
      modifies this`next, this`prev, this`order
      ensures RingValid()
      ensures MovedFirst(old(order), b, order)
    {
      hide IsRing, Without;
      assert b in order;
      ghost var k: nat :| k < NBUF && order[k] == b;
      RingAt(next, prev, NBUF, order, k);
      AroundDiffer(next, prev, NBUF, order, k);
      ghost var next0, prev0, order0 := next, prev, order;
      prev := prev[next[b] := prev[b]];
      next := next[prev[b] := next[b]];
      Unlink(next0, prev0, NBUF, order, k, next, prev);
      order := Without(order, k);
      LinkFirst(b);
      MovedToFront(order0, k);
    }

    /** b, out of the list, goes in after the head. */
    method LinkFirst(b: nat)
      requires IsRing(next, prev, NBUF, order) && b < NBUF && b !in order
      modifies this`next, this`prev, this`order
      ensures order == [b] + old(order) && IsRing(next, prev, NBUF, order)
    {
      hide IsRing;
      RingEnds(next, prev, NBUF, order);
      ghost var next1, prev1 := next, prev;
      next := next[b := next[NBUF]];
      prev := prev[b := NBUF];
      prev := prev[next[NBUF] := b];
      next := next[NBUF := b];
      PushFront(next1, prev1, NBUF, order, b, next, prev);
      order := [b] + order;
    }

    /** brelse: the lock and the reference are given up. If nobody else uses the buffer it goes to
        the most recently used end, and this is when it was last released. */
    method Brelse(pid: nat, b: nat)
      requires Valid() && b < NBUF && holder[b] == Some(pid)
      requires buf[b].valid ==> buf[b].data == view[buf[b].blockno]
      modifies this`holder, this`buf, this`users, this`next, this`prev, this`order, this`released, this`clock
      ensures Valid() && KeepsIdentity(old(buf), buf)
      ensures holder == old(holder)[b := None]
      ensures users == old(users)[b := old(users)[b] - {pid}]
      ensures buf == old(buf)[b := old(buf)[b].(refcnt := |users[b]|)]
      ensures if users[b] != {} then order == old(order)
              else MovedFirst(old(order), b, order)
      ensures if users[b] != {} then released == old(released) && clock == old(clock)
              else released == old(released)[b := old(clock)] && clock == old(clock) + 1
    {
      Unlock(pid, b);
      Unref(pid, b);
    }
  }

  /** The victim is the reusable buffer that was released longest ago. */
  lemma LongestAgo(buf: seq<Buf>, order: seq<nat>, released: seq<nat>, clock: nat, b: nat)
    requires |buf| == |order| == NBUF && ByRelease(order, released, clock) && forall i: nat | i < NBUF :: i in order
    requires exists k :: 0 <= k < NBUF && order[k] == b && forall j | k < j < NBUF :: !Reusable(buf[order[j]])
    requires b < NBUF && Reusable(buf[b])
    ensures LeastRecent(buf, released, b)
  {
    var k :| 0 <= k < NBUF && order[k] == b && forall j | k < j < NBUF :: !Reusable(buf[order[j]]);
    forall i: nat | i < NBUF && Reusable(buf[i]) ensures released[b] <= released[i] {
      assert i in order;
      var j :| 0 <= j < NBUF && order[j] == i;
      assert j <= k;
    }
  }

  /** The buffer released now is the first of the ring. */
  lemma LatestFirst(order: seq<nat>, order': seq<nat>, released: seq<nat>, clock: nat, b: nat)
    requires ByRelease(order, released, clock) && b < NBUF
    requires MovedFirst(order, b, order')
    ensures |released| == NBUF && ByRelease(order', released[b := clock], clock + 1)
  {
    var k :| 0 <= k < |order| && order[k] == b && order' == [b] + Without(order, k);
    var released' := released[b := clock];
    forall i | 0 < i < |order'|
      ensures order'[i] == order[if i <= k then i - 1 else i] < NBUF && released'[order'[i]] == released[order'[i]]
    {
    }
    forall i, j | 0 <= i < j < |order'| ensures released'[order'[i]] > released'[order'[j]] {
      if i > 0 {
        LaterFirst(order, released, clock, if i <= k then i - 1 else i, if j <= k then j - 1 else j);
      }
    }
  }

  lemma LaterFirst(order: seq<nat>, released: seq<nat>, clock: nat, i: nat, j: nat)
    requires ByRelease(order, released, clock) && i < j < |order|
    ensures released[order[i]] > released[order[j]]
  {
  }

  lemma NotCached(buf: seq<Buf>, order: seq<nat>, dev: nat, blockno: nat)
    requires |buf| == |order| == NBUF && forall b: nat | b < NBUF :: b in order
    requires forall j | 0 <= j < NBUF :: order[j] < NBUF && !Holds(buf[order[j]], dev, blockno)
    ensures !Cached(buf, dev, blockno)
  {
    forall i | 0 <= i < NBUF ensures !Holds(buf[i], dev, blockno) {
      assert i in order;
    }
  }

  /** Buffers that agree on identity and on the dirty flag pin the same blocks. */
  lemma SamePins(before: seq<Buf>, after: seq<Buf>)
    requires |before| == |after|
    requires forall i | 0 <= i < |before| ::
               after[i].dev == before[i].dev && after[i].blockno == before[i].blockno
                 && after[i].dirty == before[i].dirty
    ensures forall n: nat | Pinned(before, n) :: Pinned(after, n)
  {
    forall n: nat | Pinned(before, n) ensures Pinned(after, n) {
      var i :| 0 <= i < |before| && before[i].dirty && Holds(before[i], DISK, n);
      assert after[i].dirty && Holds(after[i], DISK, n);
    }
  }

  lemma AddUser(before: seq<Buf>, after: seq<Buf>, holder: seq<Option<nat>>, users: seq<set<nat>>,
                disk: seq<Block>, view: seq<Block>, b: nat, pid: nat)
    requires Unique(before) && Counted(before, holder, users) && Coherent(before, holder, disk, view)
    requires b < |before| == |users| && pid !in users[b]
    requires after == before[b := before[b].(refcnt := before[b].refcnt + 1)]
    ensures Unique(after) && Counted(after, holder, users[b := users[b] + {pid}]) && Coherent(after, holder, disk, view)
  {
    SamePins(before, after);
    assert |users[b] + {pid}| == |users[b]| + 1;
    hide Pinned;
  }

  /** Giving a reusable buffer to an uncached block keeps the cache well formed. */
  lemma Recycle(before: seq<Buf>, after: seq<Buf>, holder: seq<Option<nat>>, users: seq<set<nat>>,
                users': seq<set<nat>>,
                disk: seq<Block>, view: seq<Block>, b: nat, dev: nat, blockno: nat)
    requires Unique(before) && Counted(before, holder, users) && Coherent(before, holder, disk, view)
    requires b < |before| && Reusable(before[b]) && dev != 0 && !Cached(before, dev, blockno)
    requires after == before[b := Buf(dev, blockno, 1, false, false, before[b].data)]
    requires exists pid :: users' == users[b := users[b] + {pid}]
    ensures Unique(after) && Counted(after, holder, users') && Coherent(after, holder, disk, view)
  {
    assert users[b] == {};
    assert forall i | 0 <= i < |before| :: !Holds(before[i], dev, blockno);
    var pid :| users' == users[b := users[b] + {pid}];
    assert users[b] + {pid} == {pid};
    forall n: nat | n < |disk| ensures view[n] == disk[n] || Pinned(after, n) {
      if Pinned(before, n) {
        var i :| 0 <= i < |before| && before[i].dirty && Holds(before[i], DISK, n);
        assert after[i].dirty && Holds(after[i], DISK, n);
      }
    }
  }

  /** A block whose one buffer is not dirty is up to date on disk. */
  lemma CleanOnDisk(buf: seq<Buf>, holder: seq<Option<nat>>, disk: seq<Block>, view: seq<Block>, b: nat)
    requires Unique(buf) && Coherent(buf, holder, disk, view)
    requires b < |buf| && !buf[b].valid && buf[b].dev == DISK && buf[b].blockno < |disk|
    ensures view[buf[b].blockno] == disk[buf[b].blockno]
  {
  }

  lemma DropUser(buf: seq<Buf>, holder: seq<Option<nat>>, users: seq<set<nat>>, b: nat, pid: nat)
    requires Counted(buf, holder, users) && b < |buf| && pid in users[b]
    ensures buf[b].refcnt >= 1 && |users[b] - {pid}| == buf[b].refcnt - 1
    ensures |users[b] - {pid}| == 0 <==> users[b] - {pid} == {}
  {
  }

  lemma Written(before: seq<Buf>, after: seq<Buf>, holder: seq<Option<nat>>, disk: seq<Block>, view: seq<Block>, b: nat)
    requires Unique(before) && Coherent(before, holder, disk, view)
    requires b < |before| && before[b].valid && holder[b].Some?
    requires after == before[b := before[b].(dirty := false)]
    ensures Unique(after)
    ensures Coherent(after, holder, disk[before[b].blockno := before[b].data],
            view[before[b].blockno := before[b].data])
  {
    forall n: nat | n < |disk| && n != before[b].blockno && Pinned(before, n) ensures Pinned(after, n) {
      var i :| 0 <= i < |before| && before[i].dirty && Holds(before[i], DISK, n);
      assert after[i].dirty && Holds(after[i], DISK, n);
    }
  }

  lemma Published(before: seq<Buf>, after: seq<Buf>, holder: seq<Option<nat>>, disk: seq<Block>, view: seq<Block>,
                  b: nat)
    requires Unique(before) && Coherent(before, holder, disk, view)
    requires b < |before| && before[b].valid && holder[b].Some?
    requires after == before[b := before[b].(dirty := true)]
    ensures Unique(after)
    ensures Coherent(after, holder, disk, view[before[b].blockno := before[b].data])
  {
    assert after[b].dirty && Holds(after[b], DISK, before[b].blockno);
    forall n: nat | n < |disk| && Pinned(before, n) ensures Pinned(after, n) {
      var i :| 0 <= i < |before| && before[i].dirty && Holds(before[i], DISK, n);
      assert after[i].dirty && Holds(after[i], DISK, n);
    }
  }

  lemma MovedToFront(order: seq<nat>, k: nat)
    requires k < |order|
    ensures forall b | b in order :: b in [order[k]] + Without(order, k)
  {
    forall b | b in order ensures b in [order[k]] + Without(order, k) {
      var i :| 0 <= i < |order| && order[i] == b;
      if i < k {
        assert Without(order, k)[i] == b;
      } else if i > k {
        assert Without(order, k)[i - 1] == b;
      }
    }
  }
}
