/** A process at work in the buffer cache among readers that come and go: what it can rely on, and
    how many buffers there are for everybody. */
module CacheReaders {
  import opened Options
  import opened Params
  import opened Blocks
  import opened BufferCache
  import opened CrashRecovery
  import opened Counting

  /** The pinned blocks are exactly those listed. */
  ghost predicate PinsExactly(buf: seq<Buf>, blocks: seq<nat>) {
    forall n: nat :: Pinned(buf, n) <==> n in blocks
  }

  /** Process pid has exactly the buffers in `held` locked and uses no other. Any other process
      in the cache is a reader: it uses home blocks only, and has not changed what it locks. */
  ghost predicate Among(l: Layout, buf: seq<Buf>, holder: seq<Option<nat>>, users: seq<set<nat>>, view: seq<Block>,
                        pid: nat, held: set<nat>) {
    && |buf| == |holder| == |users| == NBUF
    && forall i | 0 <= i < NBUF ::
         && (i in held <==> pid in users[i]) && (i in held <==> holder[i] == Some(pid))
         && (users[i] - {pid} != {} ==> buf[i].dev == DISK && l.Home(buf[i].blockno))
         && (i !in held && holder[i].Some? && buf[i].valid ==>
               buf[i].blockno < |view| && buf[i].data == view[buf[i].blockno])
  }

  /** The buffers that bget cannot give to pid: pinned by the log, or in use by others. */
  ghost function Taken(buf: seq<Buf>, users: seq<set<nat>>, pid: nat): (r: set<nat>)
    ensures forall i: nat :: i in r <==> i < |buf| && i < |users| && (buf[i].dirty || users[i] - {pid} != {})
  {
    set i: nat | i < |buf| && i < |users| && (buf[i].dirty || users[i] - {pid} != {})
  }

  /** The buffers that others use and the log does not pin. */
  ghost function InUse(buf: seq<Buf>, users: seq<set<nat>>, pid: nat): (r: set<nat>)
    ensures forall i: nat :: i in r <==> i < |buf| && i < |users| && !buf[i].dirty && users[i] - {pid} != {}
  {
    set i: nat | i < |buf| && i < |users| && !buf[i].dirty && users[i] - {pid} != {}
  }

  /** The buffers that the log pins. */
  ghost function Dirty(buf: seq<Buf>): (r: set<nat>)
    ensures forall i: nat :: i in r <==> i < |buf| && buf[i].dirty
  {
    set i: nat | i < |buf| && buf[i].dirty
  }

  /** The buffers that bget cannot give to anyone: pinned or in use. */
  ghost function Gone(buf: seq<Buf>): (r: set<nat>)
    ensures forall i: nat :: i in r <==> i < |buf| && !Reusable(buf[i])
  {
    set i: nat | i < |buf| && !Reusable(buf[i])
  }

  /** Block n is in the cache, or there is a buffer for it. */
  ghost predicate Readable(buf: seq<Buf>, n: nat) {
    Cached(buf, DISK, n) || exists i :: 0 <= i < |buf| && Reusable(buf[i])
  }

  /** What a reader does, one atomic section of bread or brelse at a time: ask for a block, get the
      lock it has waited for, or finish with the buffer it has locked. */
  datatype Move = Enter(reader: nat, blockno: nat) | Lock(reader: nat, b: nat) | Leave(b: nat)

  /** Who uses and who has locked which buffer. */
  datatype Cache = Cache(buf: seq<Buf>, holder: seq<Option<nat>>, users: seq<set<nat>>)

  /** Process q has become a user of a buffer that now holds block n. */
  ghost predicate Joins(users: seq<set<nat>>, q: nat, n: nat, buf': seq<Buf>, users': seq<set<nat>>) {
    && |users| == |buf'|
    && exists i :: 0 <= i < |buf'| && Holds(buf'[i], DISK, n) && users' == users[i := users[i] + {q}]
  }

  /** What a move does. A reader that uses no buffer may ask for a home block; whoever waits for a
      lock may get it once it is free; whoever but pid has a buffer locked may finish with it. Any
      other move does nothing. */
  ghost predicate Moves(l: Layout, pid: nat, m: Move, c: Cache, c': Cache)
    requires |c.buf| == |c.holder| == |c.users| == |c'.buf| == |c'.users| == NBUF
  {
    match m
    case Enter(q, n) =>
      if q != pid && l.Home(n) && forall i | 0 <= i < NBUF :: q !in c.users[i]
      then Joins(c.users, q, n, c'.buf, c'.users)
      else c' == c
    case Lock(q, b) =>
      if b < NBUF && q != pid && q in c.users[b] && c.holder[b].None?
      then c'.holder == c.holder[b := Some(q)] && c'.users == c.users
      else c' == c
    case Leave(b) =>
      if b < NBUF && c.holder[b].Some? && c.holder[b] != Some(pid)
      then c'.holder == c.holder[b := None] && c'.users == c.users[b := c.users[b] - {c.holder[b].value}]
      else c' == c
  }

  /** The cache from the first of a batch of moves to the last. */
  ghost predicate Played(l: Layout, pid: nat, batch: seq<Move>, trace: seq<Cache>) {
    && |trace| == |batch| + 1
    && (forall k | 0 <= k < |trace| :: |trace[k].buf| == |trace[k].holder| == |trace[k].users| == NBUF)
    && forall k | 0 <= k < |batch| :: Moves(l, pid, batch[k], trace[k], trace[k + 1])
  }

  lemma PlayedMore(l: Layout, pid: nat, batch: seq<Move>, k: nat, trace: seq<Cache>, c: Cache)
    requires k < |batch| && Played(l, pid, batch[..k], trace) && |c.buf| == |c.holder| == |c.users| == NBUF
    requires Moves(l, pid, batch[k], trace[k], c)
    ensures Played(l, pid, batch[..k + 1], trace + [c])
  {
    hide Moves;
    forall j | 0 <= j < k + 1 ensures Moves(l, pid, batch[..k + 1][j], (trace + [c])[j], (trace + [c])[j + 1]) {
      if j < k {
        assert batch[..k + 1][j] == batch[..k][j];
      }
    }
  }

  /** The users of the cache other than pid are among `readers`, and each uses one buffer. */
  ghost predicate OneEach(users: seq<set<nat>>, pid: nat, readers: set<nat>) {
    && (forall i | 0 <= i < |users| :: users[i] - {pid} <= readers)
    && forall i, j, q | 0 <= i < j < |users| && q in users[i] && q in users[j] :: q == pid
  }

  ghost predicate Comings(sched: seq<seq<Move>>, readers: set<nat>) {
    forall k, j | 0 <= k < |sched| && 0 <= j < |sched[k]| && sched[k][j].Enter? :: sched[k][j].reader in readers
  }

  /** What may change under a process that holds `held`: no buffer is pinned or unpinned, and its
      own buffers at most gain or lose users. */
  ghost predicate Drift(buf: seq<Buf>, buf': seq<Buf>, held: set<nat>) {
    && |buf'| == |buf|
    && forall i | 0 <= i < |buf| ::
         && buf'[i].dirty == buf[i].dirty
         && (buf[i].dirty ==> buf'[i].dev == buf[i].dev && buf'[i].blockno == buf[i].blockno)
         && (i in held ==> buf'[i] == buf[i].(refcnt := buf'[i].refcnt))
  }

  /** What bread has done for process q when it comes back with a buffer, or asleep on one. */
  ghost predicate Answered(buf: seq<Buf>, holder: seq<Option<nat>>, users: seq<set<nat>>, view: seq<Block>,
                           q: nat, blockno: nat, x: Reading,
                           buf': seq<Buf>, holder': seq<Option<nat>>, users': seq<set<nat>>) {
    && !x.NoBuffers? && x.b < |buf| == |buf'| == |holder| == |users| && blockno < |view|
    && Holds(buf'[x.b], DISK, blockno) && (Reusable(buf[x.b]) || Holds(buf[x.b], DISK, blockno))
    && buf' == buf[x.b := buf'[x.b]] && buf'[x.b].dirty == buf[x.b].dirty
    && users' == users[x.b := users[x.b] + {q}] && (x.Waits? <==> holder[x.b].Some?)
    && (x.Waits? ==> holder' == holder && buf'[x.b] == buf[x.b].(refcnt := buf[x.b].refcnt + 1))
    && (x.Ready? ==> holder' == holder[x.b := Some(q)] && buf'[x.b].valid && buf'[x.b].data == view[blockno])
  }

  lemma AnsweredAt(buf: seq<Buf>, holder: seq<Option<nat>>, users: seq<set<nat>>, view: seq<Block>,
                   q: nat, blockno: nat, x: Reading,
                   buf': seq<Buf>, holder': seq<Option<nat>>, users': seq<set<nat>>)
    requires Answered(buf, holder, users, view, q, blockno, x, buf', holder', users')
    ensures !x.NoBuffers? && x.b < |buf| && (Reusable(buf[x.b]) || Holds(buf[x.b], DISK, blockno))
    ensures Joins(users, q, blockno, buf', users')
  {
  }

  // ----- moves of readers -----

  lemma DriftSelf(buf: seq<Buf>, held: set<nat>)
    ensures Drift(buf, buf, held)
  {
  }

  lemma DriftTwice(buf: seq<Buf>, buf1: seq<Buf>, buf2: seq<Buf>, held: set<nat>)
    requires Drift(buf, buf1, held) && Drift(buf1, buf2, held)
    ensures Drift(buf, buf2, held)
  {
  }

  lemma DriftPins(buf: seq<Buf>, buf': seq<Buf>, held: set<nat>)
    requires Drift(buf, buf', held)
    ensures Dirty(buf') == Dirty(buf) && forall n: nat :: Pinned(buf, n) <==> Pinned(buf', n)
  {
    SamePinsIff(buf, buf');
    hide Pinned;
  }

  /** A reader asks for a block and gets a buffer, or waits for one. */
  lemma EnterKeeps(l: Layout, buf: seq<Buf>, holder: seq<Option<nat>>, users: seq<set<nat>>, view: seq<Block>,
                   pid: nat, held: set<nat>, readers: set<nat>, q: nat, blockno: nat, x: Reading,
                   buf': seq<Buf>, holder': seq<Option<nat>>, users': seq<set<nat>>)
    requires Among(l, buf, holder, users, view, pid, held) && Counted(buf, holder, users)
    requires OneEach(users, pid, readers)
    requires q != pid && q in readers && l.Home(blockno) && forall i | 0 <= i < |users| :: q !in users[i]
    requires Answered(buf, holder, users, view, q, blockno, x, buf', holder', users')
    ensures Among(l, buf', holder', users', view, pid, held) && OneEach(users', pid, readers) && Drift(buf, buf', held)
  {
    hide OneEach;
    OneMore(users, pid, readers, q, x.b);
    assert Reusable(buf[x.b]) ==> users[x.b] == {};
  }

  lemma OneMore(users: seq<set<nat>>, pid: nat, readers: set<nat>, q: nat, b: nat)
    requires OneEach(users, pid, readers) && b < |users| && q in readers
    requires forall i | 0 <= i < |users| :: q !in users[i]
    ensures OneEach(users[b := users[b] + {q}], pid, readers)
  {
  }

  /** A reader gets the lock that it has waited for. */
  lemma LockKeeps(l: Layout, buf: seq<Buf>, holder: seq<Option<nat>>, users: seq<set<nat>>, view: seq<Block>,
                  pid: nat, held: set<nat>, q: nat, b: nat, buf': seq<Buf>, holder': seq<Option<nat>>)
    requires Among(l, buf, holder, users, view, pid, held) && b < NBUF && q != pid && q in users[b] && holder[b] == None
    requires buf[b].blockno < |view| && buf' == buf[b := buf[b].(valid := true, data := view[buf[b].blockno])]
    requires holder' == holder[b := Some(q)]
    ensures Among(l, buf', holder', users, view, pid, held) && Drift(buf, buf', held)
  {
  }

  /** A reader finishes with its buffer. */
  lemma LeaveKeeps(l: Layout, buf: seq<Buf>, holder: seq<Option<nat>>, users: seq<set<nat>>, view: seq<Block>,
                   pid: nat, held: set<nat>, readers: set<nat>, q: nat, b: nat,
                   buf': seq<Buf>, holder': seq<Option<nat>>, users': seq<set<nat>>)
    requires Among(l, buf, holder, users, view, pid, held) && OneEach(users, pid, readers)
    requires b < NBUF && q != pid && holder[b] == Some(q)
    requires |buf'| == NBUF && buf' == buf[b := buf'[b]] && buf'[b].dirty == buf[b].dirty
    requires Holds(buf'[b], buf[b].dev, buf[b].blockno)
    requires holder' == holder[b := None] && users' == users[b := users[b] - {q}]
    ensures Among(l, buf', holder', users', view, pid, held) && OneEach(users', pid, readers) && Drift(buf, buf', held)
  {
  }

  /** The buffers that pid holds still hold the same blocks. */
  lemma DriftHeld(buf: seq<Buf>, buf': seq<Buf>, held: set<nat>, blockno: nat)
    requires Drift(buf, buf', held) && forall i | i in held && 0 <= i < |buf| :: !Holds(buf[i], DISK, blockno)
    ensures forall i | i in held && 0 <= i < |buf| :: !Holds(buf'[i], DISK, blockno)
  {
  }

  lemma DriftAt(buf: seq<Buf>, buf': seq<Buf>, held: set<nat>, b: nat)
    requires Drift(buf, buf', held) && b < |buf| && b in held
    ensures |buf'| == |buf| && buf'[b] == buf[b].(refcnt := buf'[b].refcnt)
  {
  }

  /** Moves while pid holds nothing, and then while it holds x. */
  lemma DriftOn(buf: seq<Buf>, buf1: seq<Buf>, buf2: seq<Buf>, x: nat)
    requires Drift(buf, buf1, {}) && Drift(buf1, buf2, {x}) && x < |buf|
    ensures Drift(buf, buf2, {}) && |buf| == |buf1| == |buf2| && buf2[x] == buf1[x].(refcnt := buf2[x].refcnt)
  {
  }

  lemma PinnedCached(buf: seq<Buf>, n: nat)
    ensures Pinned(buf, n) ==> Cached(buf, DISK, n)
  {
  }

  lemma NoPins(buf: seq<Buf>)
    requires PinsExactly(buf, []) && forall i | 0 <= i < |buf| && buf[i].dirty :: buf[i].dev == DISK
    ensures Dirty(buf) == {}
  {
    forall i | i in Dirty(buf) ensures false {
      assert Holds(buf[i], DISK, buf[i].blockno) && Pinned(buf, buf[i].blockno);
    }
  }

  lemma NoneOut(users: seq<set<nat>>)
    ensures forall i, q | 0 <= i < |users| && q in users[i] :: q !in {}
  {
  }

  // ----- how many buffers are gone -----

  lemma RoomForOne(buf: seq<Buf>, held: set<nat>)
    ensures |Dirty(buf) + held| <= |Dirty(buf)| + |held| && |Dirty(buf) + {}| == |Dirty(buf)|
  {
    UnionAtMost(Dirty(buf), held);
    assert Dirty(buf) + {} == Dirty(buf);
  }

  /** A log block's buffer x and a home block's buffer y: y counts only if it is not pinned. */
  lemma RoomForTwo(buf: seq<Buf>, home: nat, x: nat, y: nat)
    requires Unique(buf) && y < |buf| && Holds(buf[y], DISK, home)
    ensures |Dirty(buf) + {x, y}| <= |Dirty(buf)| + 1 + if Pinned(buf, home) then 0 else 1
  {
    UnionAtMost(Dirty(buf), {x});
    UnionAtMost(Dirty(buf) + {x}, {y});
    assert Dirty(buf) + {x} + {y} == Dirty(buf) + {x, y};
    if Pinned(buf, home) {
      var i :| 0 <= i < |buf| && buf[i].dirty && Holds(buf[i], DISK, home);
      assert i == y;
      assert Dirty(buf) + {x, y} == Dirty(buf) + {x};
    }
  }

  lemma GoneFull(buf: seq<Buf>)
    requires |buf| == NBUF
    ensures |Gone(buf)| <= NBUF
    ensures |Gone(buf)| == NBUF <==> forall i | 0 <= i < NBUF :: !Reusable(buf[i])
  {
    hide Reusable;
    var gone, n := Gone(buf), |buf|;
    SubsetSize(gone, Range(n));
    NotFull(gone, n);
  }

  /** The buffers below k that others than pid use. */
  ghost function UsedBelow(users: seq<set<nat>>, pid: nat, k: nat): (r: set<nat>)
    requires k <= |users|
    ensures forall i: nat :: i in r <==> i < k && users[i] - {pid} != {}
  {
    set i: nat | i < k && users[i] - {pid} != {}
  }

  /** Each of the buffers in use takes up a reader of its own. */
  lemma {:induction false} ReadersBelow(users: seq<set<nat>>, pid: nat, readers: set<nat>, k: nat)
    returns (busy: set<nat>)
    requires OneEach(users, pid, readers) && k <= |users|
    ensures |UsedBelow(users, pid, k)| <= |busy| && busy <= readers
    ensures forall q | q in busy :: UsesBelow(users, q, k)
  {
    hide UsesBelow, OneEach;
    if k == 0 {
      busy := {};
      assert UsedBelow(users, pid, 0) == {};
    } else {
      busy := ReadersBelow(users, pid, readers, k - 1);
      var more := users[k - 1] - {pid};
      if more == {} {
        assert UsedBelow(users, pid, k) == UsedBelow(users, pid, k - 1);
      } else {
        assert UsedBelow(users, pid, k) == UsedBelow(users, pid, k - 1) + {k - 1};
        var q :| q in more;
        NewReader(users, pid, readers, q, k - 1);
        busy := busy + {q};
      }
      forall p | p in busy ensures UsesBelow(users, p, k) {
        if UsesBelow(users, p, k - 1) {
          UsesMore(users, p, k - 1);
        }
      }
    }
  }

  ghost predicate UsesBelow(users: seq<set<nat>>, q: nat, k: nat)
    requires k <= |users|
  {
    exists i :: 0 <= i < k && q in users[i]
  }

  lemma UsesMore(users: seq<set<nat>>, q: nat, k: nat)
    requires k < |users| && UsesBelow(users, q, k)
    ensures UsesBelow(users, q, k + 1)
  {
  }

  lemma NewReader(users: seq<set<nat>>, pid: nat, readers: set<nat>, q: nat, k: nat)
    requires OneEach(users, pid, readers) && k < |users| && q in users[k] && q != pid
    ensures !UsesBelow(users, q, k) && UsesBelow(users, q, k + 1) && q in readers
  {
  }

  /** Pinned buffers, those of pid, and one for each reader: nothing else is gone. A reader `out`
      that uses none does not count. */
  lemma GoneBound(l: Layout, buf: seq<Buf>, holder: seq<Option<nat>>, users: seq<set<nat>>, view: seq<Block>,
                  pid: nat, held: set<nat>, readers: set<nat>, out: set<nat>)
    requires Among(l, buf, holder, users, view, pid, held) && Counted(buf, holder, users)
    requires OneEach(users, pid, readers)
    requires out <= readers && forall i, q | 0 <= i < |users| && q in users[i] :: q !in out
    ensures |Gone(buf)| <= |Dirty(buf) + held| + |readers| - |out|
  {
    var busy := ReadersBelow(users, pid, readers, |users|);
    var used := UsedBelow(users, pid, |users|);
    forall i | i in Gone(buf) ensures i in Dirty(buf) + held + used {
      assert users[i] != {} || buf[i].dirty;
      assert users[i] - {pid} == {} && users[i] != {} ==> pid in users[i];
    }
    hide Among, OneEach, Counted, Reusable;
    SubsetSize(Gone(buf), Dirty(buf) + held + used);
    UnionAtMost(Dirty(buf) + held, used);
    assert busy <= readers - out;
    SubsetSize(busy, readers - out);
    assert readers == readers - out + out;
  }

  lemma UnionAtMost(a: set<nat>, b: set<nat>)
    ensures |a + b| <= |a| + |b|
  {
    assert a + b == a + (b - a);
    SubsetSize(b - a, b);
  }

  // ----- what the process itself does -----

  /** A process that holds nothing can read a log block exactly when some buffer is not taken. */
  lemma FreeBuffer(buf: seq<Buf>, holder: seq<Option<nat>>, users: seq<set<nat>>, view: seq<Block>,
                   l: Layout, pid: nat, blocks: seq<nat>, n: nat)
    requires Among(l, buf, holder, users, view, pid, {}) && Counted(buf, holder, users)
    requires PinsExactly(buf, blocks) && l.Loggable(blocks) && l.InLog(n)
    ensures |Taken(buf, users, pid)| < NBUF <==> exists i :: 0 <= i < NBUF && Reusable(buf[i])
    ensures Cached(buf, DISK, n) ==> exists i :: 0 <= i < NBUF && Reusable(buf[i])
  {
    assert |buf| == |users| == NBUF;
    hide Taken, Among, Counted, PinsExactly, Reusable, Holds;
    var taken := Taken(buf, users, pid);
    forall i: nat | i < NBUF ensures (i !in taken <==> Reusable(buf[i])) && (Holds(buf[i], DISK, n) ==> i !in taken) {
      TakenAt(buf, holder, users, view, l, pid, blocks, n, i);
    }
    NotFull(taken, NBUF);
  }

  lemma TakenAt(buf: seq<Buf>, holder: seq<Option<nat>>, users: seq<set<nat>>, view: seq<Block>,
                l: Layout, pid: nat, blocks: seq<nat>, n: nat, i: nat)
    requires Among(l, buf, holder, users, view, pid, {}) && Counted(buf, holder, users) && i < NBUF
    requires PinsExactly(buf, blocks) && l.Loggable(blocks) && l.InLog(n)
    ensures i !in Taken(buf, users, pid) <==> Reusable(buf[i])
    ensures Holds(buf[i], DISK, n) ==> i !in Taken(buf, users, pid)
  {
    assert pid !in users[i] && users[i] - {pid} == users[i];
    assert Pinned(buf, n) <==> n in blocks;
    hide PinsExactly;
  }

  /** The buffer that pins block n. */
  ghost function PinOf(buf: seq<Buf>, n: nat): (i: nat)
    requires Pinned(buf, n)
    ensures i < |buf| && buf[i].dirty && Holds(buf[i], DISK, n)
  {
    var i :| 0 <= i < |buf| && buf[i].dirty && Holds(buf[i], DISK, n);
    i
  }

  /** Each block of the transaction pins one buffer of its own. */
  lemma TakenSize(buf: seq<Buf>, users: seq<set<nat>>, pid: nat, blocks: seq<nat>)
    requires |buf| == |users| && Unique(buf) && PinsExactly(buf, blocks) && Distinct(blocks)
    requires forall i | 0 <= i < |buf| && buf[i].dirty :: buf[i].dev == DISK
    ensures |Taken(buf, users, pid)| == |blocks| + |InUse(buf, users, pid)| && |Dirty(buf)| == |blocks|
  {
    hide PinsExactly, Unique, Distinct, ToSet;
    var pins := PinList(buf, blocks);
    DistinctSize(pins);
    forall i: nat | i < |buf| && buf[i].dirty ensures i in pins {
      PinListed(buf, blocks, pins, i);
    }
    var s, used := ToSet(pins), InUse(buf, users, pid);
    assert Dirty(buf) == s;
    assert Taken(buf, users, pid) == s + used;
    assert s !! used;
  }

  lemma PinList(buf: seq<Buf>, blocks: seq<nat>) returns (pins: seq<nat>)
    requires PinsExactly(buf, blocks) && Distinct(blocks)
    ensures |pins| == |blocks| && Distinct(pins)
    ensures forall j | 0 <= j < |blocks| ::
              pins[j] < |buf| && buf[pins[j]].dirty && Holds(buf[pins[j]], DISK, blocks[j])
  {
    hide Pinned, PinOf;
    pins := seq(|blocks|, j requires 0 <= j < |blocks| => PinOf(buf, blocks[j]));
  }

  lemma PinListed(buf: seq<Buf>, blocks: seq<nat>, pins: seq<nat>, i: nat)
    requires Unique(buf) && PinsExactly(buf, blocks) && |pins| == |blocks|
    requires forall j | 0 <= j < |blocks| :: pins[j] < |buf| && Holds(buf[pins[j]], DISK, blocks[j])
    requires i < |buf| && buf[i].dirty && buf[i].dev == DISK
    ensures i in pins
  {
    assert Holds(buf[i], DISK, buf[i].blockno) && Pinned(buf, buf[i].blockno);
    var j :| 0 <= j < |blocks| && blocks[j] == buf[i].blockno;
    assert pins[j] == i;
  }

  lemma AmongAfterRead(l: Layout, buf: seq<Buf>, holder: seq<Option<nat>>, users: seq<set<nat>>, view: seq<Block>,
                       pid: nat, held: set<nat>, readers: set<nat>, b: nat,
                       buf': seq<Buf>, holder': seq<Option<nat>>, users': seq<set<nat>>)
    requires Among(l, buf, holder, users, view, pid, held) && Counted(buf, holder, users) && b < NBUF && b !in held
    requires OneEach(users, pid, readers)
    requires |buf'| == NBUF && buf' == buf[b := buf'[b]] && holder' == holder[b := Some(pid)]
    requires |users'| == NBUF && users' == users[b := users'[b]]
    requires pid in users'[b] && users'[b] - {pid} <= users[b]
    requires buf'[b].dirty == buf[b].dirty && buf'[b].dev == DISK
    requires Reusable(buf[b]) || Holds(buf[b], DISK, buf'[b].blockno)
    ensures Among(l, buf', holder', users', view, pid, held + {b}) && OneEach(users', pid, readers)
    ensures Taken(buf', users', pid) <= Taken(buf, users, pid) && Drift(buf, buf', held)
  {
    assert Reusable(buf[b]) ==> users[b] == {};
  }

  lemma AmongAfterEnter(l: Layout, buf: seq<Buf>, holder: seq<Option<nat>>, users: seq<set<nat>>, view: seq<Block>,
                        pid: nat, readers: set<nat>, reader: nat, b: nat,
                        buf': seq<Buf>, holder': seq<Option<nat>>, users': seq<set<nat>>)
    requires OneEach(users, pid, readers) && reader in readers && forall i | 0 <= i < |users| :: reader !in users[i]
    requires Among(l, buf, holder, users, view, pid, {}) && Counted(buf, holder, users) && b < NBUF && reader != pid
    requires Reusable(buf[b]) && |buf'| == NBUF && buf' == buf[b := buf'[b]] && !buf'[b].dirty
    requires holder' == holder[b := Some(reader)] && users' == users[b := users[b] + {reader}]
    requires buf'[b].dev == DISK && l.Home(buf'[b].blockno) && buf'[b].blockno < |view|
    requires buf'[b].data == view[buf'[b].blockno]
    ensures Among(l, buf', holder', users', view, pid, {}) && OneEach(users', pid, readers)
    ensures |Taken(buf', users', pid)| == |Taken(buf, users, pid)| + 1
  {
    assert users[b] == {} && reader in users'[b] - {pid};
    assert Taken(buf', users', pid) == Taken(buf, users, pid) + {b};
  }

  /** Writing a log block unpins nothing. */
  lemma LogBlockNotPinned(before: seq<Buf>, after: seq<Buf>, l: Layout, blocks: seq<nat>, n: nat)
    requires PinsExactly(before, blocks) && l.Loggable(blocks) && l.InLog(n)
    requires forall k: nat :: Pinned(after, k) <==> Pinned(before, k) && k != n
    ensures PinsExactly(after, blocks)
  {
    hide Pinned;
  }

  /** Each buffer stands for the block it stood for. */
  ghost predicate SameBlocks(before: seq<Buf>, after: seq<Buf>) {
    && |before| == |after|
    && forall i | 0 <= i < |before| :: after[i].dev == before[i].dev && after[i].blockno == before[i].blockno
  }

  lemma SamePinsExactly(before: seq<Buf>, after: seq<Buf>, blocks: seq<nat>)
    requires PinsExactly(before, blocks) && forall n: nat :: Pinned(before, n) <==> Pinned(after, n)
    ensures PinsExactly(after, blocks)
  {
  }

  lemma AmongAfterWrite(l: Layout, buf: seq<Buf>, holder: seq<Option<nat>>, users: seq<set<nat>>, view: seq<Block>,
                        pid: nat, held: set<nat>, b: nat, buf': seq<Buf>, view': seq<Block>)
    requires Among(l, buf, holder, users, view, pid, held) && b < NBUF && b in held && Unique(buf)
    requires forall i | 0 <= i < NBUF && buf[i].valid :: buf[i].dev == DISK
    requires buf[b].valid && buf[b].blockno < |view|
    requires |buf'| == NBUF && buf' == buf[b := buf'[b]] && Holds(buf'[b], DISK, buf[b].blockno) && !buf'[b].dirty
    requires view' == view[buf[b].blockno := buf'[b].data]
    ensures Among(l, buf', holder, users, view', pid, held)
    ensures Taken(buf', users, pid) <= Taken(buf, users, pid)
  {
    forall i | 0 <= i < NBUF && i != b && buf[i].valid ensures buf[i].blockno != buf[b].blockno {
      assert if i < b then !Holds(buf[b], buf[i].dev, buf[i].blockno) else !Holds(buf[i], buf[b].dev, buf[b].blockno);
    }
  }

  lemma AmongAfterPin(l: Layout, buf: seq<Buf>, holder: seq<Option<nat>>, users: seq<set<nat>>, view: seq<Block>,
                      pid: nat, b: nat, buf': seq<Buf>)
    requires Among(l, buf, holder, users, view, pid, {b}) && b < NBUF && buf' == buf[b := buf[b].(dirty := true)]
    ensures Among(l, buf', holder, users, view, pid, {b})
    ensures Taken(buf', users, pid) == Taken(buf, users, pid) + {b}
  {
  }

  lemma AmongAfterRelease(l: Layout, buf: seq<Buf>, holder: seq<Option<nat>>, users: seq<set<nat>>, view: seq<Block>,
                          pid: nat, held: set<nat>, readers: set<nat>, b: nat,
                          buf': seq<Buf>, holder': seq<Option<nat>>, users': seq<set<nat>>)
    requires Among(l, buf, holder, users, view, pid, held) && b < NBUF && b in held && OneEach(users, pid, readers)
    requires |buf'| == NBUF && buf' == buf[b := buf'[b]] && buf'[b] == buf[b].(refcnt := buf'[b].refcnt)
    requires holder' == holder[b := None] && users' == users[b := users[b] - {pid}]
    ensures Among(l, buf', holder', users', view, pid, held - {b}) && OneEach(users', pid, readers)
    ensures Taken(buf', users', pid) <= Taken(buf, users, pid) && Drift(buf, buf', held)
  {
    assert users'[b] - {pid} == users[b] - {pid};
  }

  lemma SamePinsIff(before: seq<Buf>, after: seq<Buf>)
    requires |before| == |after|
    requires forall i | 0 <= i < |before| ::
      && after[i].dirty == before[i].dirty
      && (before[i].dirty ==> after[i].dev == before[i].dev && after[i].blockno == before[i].blockno)
    ensures forall n: nat :: Pinned(before, n) <==> Pinned(after, n)
  {
    forall n: nat ensures Pinned(before, n) <==> Pinned(after, n) {
      if Pinned(before, n) {
        var i :| 0 <= i < |before| && before[i].dirty && Holds(before[i], DISK, n);
        assert after[i].dirty && Holds(after[i], DISK, n);
      }
      if Pinned(after, n) {
        var i :| 0 <= i < |after| && after[i].dirty && Holds(after[i], DISK, n);
        assert before[i].dirty && Holds(before[i], DISK, n);
      }
    }
  }

  lemma ReadKeepsPins(before: seq<Buf>, after: seq<Buf>, r: nat)
    requires KeepsIdentity(before, after) && r < |before|
    requires after == before[r := after[r]] && after[r].dirty == before[r].dirty
    ensures forall n: nat :: Pinned(before, n) <==> Pinned(after, n)
  {
    SamePinsIff(before, after);
  }

  lemma WrittenUnpins(before: seq<Buf>, after: seq<Buf>, b: nat)
    requires Unique(before) && |before| == |after| && b < |before|
    requires forall i | 0 <= i < |before| && i != b :: after[i] == before[i]
    requires before[b].dev == DISK && !after[b].dirty
    ensures forall n: nat :: Pinned(after, n) <==> Pinned(before, n) && n != before[b].blockno
  {
    forall n: nat ensures Pinned(after, n) <==> Pinned(before, n) && n != before[b].blockno {
      if Pinned(before, n) && n != before[b].blockno {
        var i :| 0 <= i < |before| && before[i].dirty && Holds(before[i], DISK, n);
        assert after[i].dirty && Holds(after[i], DISK, n);
      }
      if Pinned(after, n) {
        var i :| 0 <= i < |after| && after[i].dirty && Holds(after[i], DISK, n);
        assert before[i].dirty && Holds(before[i], DISK, n);
      }
    }
  }
}
