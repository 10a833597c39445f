/** The write-ahead log in memory: the transaction in progress, its commit through the
    buffer cache, and recovery at boot. */
module Log {
  import opened Options
  import opened Params
  import opened Blocks
  import opened BufferCache
  import opened CacheReaders
  import opened CrashRecovery
  import opened Counting
  import LogReservation

  class LogState {
    const bc: Bcache
    const l: Layout
    var lh: seq<nat>         // lh.block[0 .. lh.n]
    var outstanding: nat     // operations between begin_op and end_op
    var committing: bool
    var sched: seq<seq<Move>>   // what readers do before each of the next steps of a commit
    ghost var peak: nat         // the most buffers pinned or in use at a moment when one was asked for
    ghost var ops: seq<set<nat>>                 // what each operation in progress has logged
    ghost var states: seq<LogReservation.LogSt>  // the states since boot,
    ghost var steps: seq<LogReservation.Step>    // and the steps between them

    constructor (bc: Bcache, l: Layout)
      ensures this.bc == bc && this.l == l && lh == [] && outstanding == 0 && !committing && Recorded()
      ensures sched == [] && peak == 0
    {
      this.bc, this.l, lh := bc, l, [];
      outstanding, committing := 0, false;
      sched, peak := [], 0;
      ops, states, steps := [], [LogReservation.INIT], [];
    }

    /** The calls so far are a run of the reservation protocol that has led to the present state. A
        commit empties the list some time before it is over. */
    ghost predicate Recorded()
      reads this
    {
      RecordedAs(lh)
    }

    ghost predicate RecordedAs(list: seq<nat>)
      reads this
    {
      && LogReservation.IsRun(states, steps) && |ops| == outstanding
      && var s := states[|steps|];
         s.ops == ops && s.committing == committing && (committing || s.lh == list)
    }

    /** In any recorded state the list fits the log, and no operation is open during a commit. */
    lemma RecordedSafe(list: seq<nat>)
      requires RecordedAs(list)
      ensures committing ==> outstanding == 0
      ensures !committing ==> |list| <= LOGSIZE && Distinct(list)
    {
      LogReservation.ReservationSafety(states, steps);
      LogReservation.ListFits(states[|steps|]);
    }

    /** One more step of the protocol. */
    ghost method Record(e: LogReservation.Step, t: LogReservation.LogSt)
      modifies this`states, this`steps
      ensures states == old(states) + [t] && steps == old(steps) + [e]
      ensures LogReservation.IsRun(old(states), old(steps)) && LogReservation.Next(old(states)[|old(steps)|], e, t) ==>
                LogReservation.IsRun(states, steps) && states[|steps|] == t
    {
      if LogReservation.IsRun(states, steps) && LogReservation.Next(states[|steps|], e, t) {
        LogReservation.LongerRun(states, steps, e, t);
      }
      states, steps := states + [t], steps + [e];
    }

    ghost predicate Valid()
      reads this, bc
    {
      && bc.Valid() && l.Valid() && |bc.disk| == |bc.view| == l.disk
      && l.Loggable(lh) && Distinct(lh) && PinsExactly(bc.buf, lh)
    }

    /** Process pid has the buffers in `held` locked and uses no other. The other processes in
        the cache are readers. */
    ghost predicate AmongReaders(pid: nat, held: set<nat>)
      reads bc
    {
      Among(l, bc.buf, bc.holder, bc.users, bc.view, pid, held)
    }

    /** The buffers that pid cannot be given. */
    ghost function Out(pid: nat): set<nat>
      reads bc
    {
      Taken(bc.buf, bc.users, pid)
    }

    /** The other processes in the cache, now and to come, are among `readers`. */
    ghost predicate Crowd(pid: nat, readers: set<nat>)
      reads this`sched, bc
    {
      |bc.users| == NBUF && OneEach(bc.users, pid, readers) && Comings(sched, readers)
    }

    /** Process pid is at work with the buffers `held`, and no one has asked for a buffer in vain. */
    ghost predicate Here(pid: nat, held: set<nat>, readers: set<nat>)
      reads this`sched, this`peak, bc
    {
      && bc.Valid() && l.Valid() && |bc.disk| == l.disk
      && AmongReaders(pid, held) && Crowd(pid, readers) && peak < NBUF
    }

    /** Readers may have moved; nothing has been written. */
    ghost predicate Still(held: set<nat>, buf: seq<Buf>, disk: Image, view: Image, writes: seq<(nat, Block)>)
      reads bc
    {
      Drift(buf, bc.buf, held) && bc.disk == disk && bc.view == view && bc.writes == writes
    }

    /** Besides the pinned buffers and those in `held`, there is one for each reader. */
    ghost predicate Room(held: set<nat>, readers: set<nat>)
      reads bc
    {
      |Dirty(bc.buf) + held| + |readers| <= NBUF
    }

    predicate Using(q: nat)
      reads bc
    {
      exists i :: 0 <= i < |bc.users| && q in bc.users[i]
    }

    /** bread by any process. */
    method Ask(q: nat, blockno: nat) returns (x: Reading)
      requires bc.Valid() && blockno < |bc.disk|
      requires forall i | 0 <= i < NBUF && Holds(bc.buf[i], DISK, blockno) :: q !in bc.users[i]
      modifies bc, this`peak
      ensures bc.Valid() && bc.disk == old(bc.disk) && bc.writes == old(bc.writes) && bc.view == old(bc.view)
      ensures peak == if Cached(old(bc.buf), DISK, blockno) || |Gone(old(bc.buf))| < old(peak) then old(peak)
                      else |Gone(old(bc.buf))|
      ensures x.NoBuffers? <==> !Cached(old(bc.buf), DISK, blockno) && |Gone(old(bc.buf))| == NBUF
      ensures |Gone(old(bc.buf))| <= NBUF
      ensures |Gone(old(bc.buf))| == NBUF <==> forall i | 0 <= i < NBUF :: !Reusable(old(bc.buf)[i])
      ensures !x.NoBuffers? ==> Answered(old(bc.buf), old(bc.holder), old(bc.users), bc.view, q, blockno, x,
                                         bc.buf, bc.holder, bc.users)
    {
      hide Bcache.Valid, Pinned, Gone;
      BcacheShape();
      GoneFull(bc.buf);
      if !Cached(bc.buf, DISK, blockno) && |Gone(bc.buf)| >= peak {
        peak := |Gone(bc.buf)|;
      }
      x := bc.Bread(q, blockno);
      BcacheShape();
    }

    ghost function Now(): (c: Cache)
      reads bc
    {
      Cache(bc.buf, bc.holder, bc.users)
    }

    /** The readers' next moves, while pid holds `held`: the next batch of the schedule is played out,
        move by move. False is a reader's "no buffers" panic. */
    method Readers(pid: nat, ghost held: set<nat>, ghost readers: set<nat>)
      returns (ok: bool, ghost trace: seq<Cache>)
      requires Here(pid, held, readers)
      modifies bc, this`sched, this`peak
      ensures if ok then Here(pid, held, readers) else peak >= NBUF
      ensures ok ==> Still(held, old(bc.buf), old(bc.disk), old(bc.view), old(bc.writes))
      ensures old(Room(held, readers)) ==> ok && Room(held, readers)
      ensures old(sched) == [] ==>
                && sched == [] && ok
                && bc.buf == old(bc.buf) && bc.holder == old(bc.holder) && bc.users == old(bc.users)
      ensures old(sched) != [] ==> sched == old(sched)[1..]
      ensures ok && old(sched) != [] ==>
                && Played(l, pid, old(sched)[0], trace)
                && trace[0] == old(Now()) && trace[|trace| - 1] == Now()
    {
      hide LogState.Here, LogState.Room, Drift, Moves;
      DriftSelf(bc.buf, held);
      trace := [Now()];
      if sched == [] {
        return true, trace;
      }
      var batch := sched[0];
      BatchDone(pid, held, readers);
      sched := sched[1..];
      HereStill(pid, held, readers);
      ghost var buf0 := bc.buf;
      var k := 0;
      while k < |batch|
        invariant 0 <= k <= |batch| && Here(pid, held, readers)
        invariant Still(held, buf0, old(bc.disk), old(bc.view), old(bc.writes))
        invariant old(Room(held, readers)) ==> Room(held, readers)
        invariant sched == old(sched)[1..]
        invariant Played(l, pid, batch[..k], trace) && trace[0] == old(Now()) && trace[k] == Now()
      {
        ghost var buf1 := bc.buf;
        ok := MoveOne(pid, held, readers, batch[k]);
        if !ok { return; }
        DriftTwice(buf0, buf1, bc.buf, held);
        PlayedMore(l, pid, batch, k, trace, Now());
        trace := trace + [Now()];
        k := k + 1;
      }
      assert batch[..k] == batch;
      ok := true;
    }

    lemma MoreReaders(pid: nat, readers: set<nat>)
      requires Here(pid, {}, {}) && sched == []
      ensures AmongReaders(pid, {}) && Crowd(pid, readers) && forall q: nat | q != pid :: !Using(q)
    {
      forall i | 0 <= i < |bc.users| ensures bc.users[i] == {} {
        assert bc.users[i] - {pid} <= {};
      }
    }

    /** One move of a reader. A move that is not possible does not happen. */
    method MoveOne(pid: nat, ghost held: set<nat>, ghost readers: set<nat>, m: Move) returns (ok: bool)
      requires Here(pid, held, readers) && (m.Enter? ==> m.reader in readers)
      modifies bc, this`peak
      ensures if ok then Here(pid, held, readers) else peak >= NBUF
      ensures ok ==> Still(held, old(bc.buf), old(bc.disk), old(bc.view), old(bc.writes))
      ensures old(Room(held, readers)) ==> ok && Room(held, readers)
      ensures |old(bc.buf)| == |old(bc.holder)| == |old(bc.users)| == NBUF
      ensures ok ==> |bc.buf| == |bc.holder| == |bc.users| == NBUF && Moves(l, pid, m, old(Now()), Now())
    {
      hide Bcache.Valid, Among, Drift, Pinned, OneEach, Comings;
      BcacheShape();
      DriftSelf(bc.buf, held);
      ok := true;
      match m
      case Enter(q, n) =>
        if q != pid && n < l.disk && !(l.start <= n < l.start + l.size) && !Using(q) {
          ok := EnterOne(pid, held, readers, q, n);
        }
      case Lock(q, b) =>
        if b < NBUF && q != pid && q in bc.users[b] && bc.holder[b] == None {
          LockOne(pid, held, readers, q, b);
        }
      case Leave(b) =>
        if b < NBUF && bc.holder[b].Some? && bc.holder[b].value != pid {
          LeaveOne(pid, held, readers, bc.holder[b].value, b);
        }
    }

    method EnterOne(pid: nat, ghost held: set<nat>, ghost readers: set<nat>, q: nat, n: nat) returns (ok: bool)
      requires Here(pid, held, readers) && q in readers && q != pid && l.Home(n) && !Using(q)
      modifies bc, this`peak
      ensures if ok then Here(pid, held, readers) else peak >= NBUF
      ensures ok ==> Still(held, old(bc.buf), old(bc.disk), old(bc.view), old(bc.writes))
      ensures old(Room(held, readers)) ==> ok && Room(held, readers)
      ensures ok ==> |bc.buf| == |bc.holder| == |bc.users| == NBUF && Joins(old(bc.users), q, n, bc.buf, bc.users)
    {
      hide Bcache.Valid, Among, Drift, Pinned, OneEach, Comings, Answered, Gone, Counted, Joins;
      BcacheShape();
      ghost var buf0, holder0, users0 := bc.buf, bc.holder, bc.users;
      GoneBound(l, bc.buf, bc.holder, bc.users, bc.view, pid, held, readers, {q});
      var x := Ask(q, n);
      if x.NoBuffers? {
        return false;
      }
      AnsweredAt(buf0, holder0, users0, bc.view, q, n, x, bc.buf, bc.holder, bc.users);
      EnterKeeps(l, buf0, holder0, users0, bc.view, pid, held, readers, q, n, x, bc.buf, bc.holder, bc.users);
      BcacheShape();
      DriftPins(buf0, bc.buf, held);
      ok := true;
    }

    method LockOne(pid: nat, ghost held: set<nat>, ghost readers: set<nat>, q: nat, b: nat)
      requires Here(pid, held, readers) && b < NBUF && q != pid && q in bc.users[b] && bc.holder[b] == None
      modifies bc
      ensures Here(pid, held, readers) && Still(held, old(bc.buf), old(bc.disk), old(bc.view), old(bc.writes))
      ensures old(Room(held, readers)) ==> Room(held, readers)
      ensures b < |old(bc.holder)| && bc.holder == old(bc.holder)[b := Some(q)] && bc.users == old(bc.users)
      ensures |bc.buf| == |bc.users| == |bc.holder| == NBUF
    {
      hide Bcache.Valid, Drift, Pinned, OneEach, Comings, Counted;
      BcacheShape();
      UsesHome(pid, held, q, b);
      ghost var buf0, holder0 := bc.buf, bc.holder;
      bc.Resume(q, b);
      LockKeeps(l, buf0, holder0, bc.users, bc.view, pid, held, q, b, bc.buf, bc.holder);
      DriftPins(buf0, bc.buf, held);
    }

    method LeaveOne(pid: nat, ghost held: set<nat>, ghost readers: set<nat>, q: nat, b: nat)
      requires Here(pid, held, readers) && b < NBUF && q != pid && bc.holder[b] == Some(q)
      modifies bc
      ensures Here(pid, held, readers) && Still(held, old(bc.buf), old(bc.disk), old(bc.view), old(bc.writes))
      ensures old(Room(held, readers)) ==> Room(held, readers)
      ensures b < |old(bc.users)| == |old(bc.holder)|
      ensures bc.holder == old(bc.holder)[b := None] && bc.users == old(bc.users)[b := old(bc.users)[b] - {q}]
      ensures |bc.buf| == |bc.users| == |bc.holder| == NBUF
    {
      hide Bcache.Valid, Drift, Pinned, OneEach, Comings, Counted;
      BcacheShape();
      UsesHome(pid, held, q, b);
      ghost var buf0, holder0, users0 := bc.buf, bc.holder, bc.users;
      HandOver(q, b);
      LeaveKeeps(l, buf0, holder0, users0, bc.view, pid, held, readers, q, b, bc.buf, bc.holder, bc.users);
      BcacheShape();
      DriftPins(buf0, bc.buf, held);
    }

    /** A reader's buffer holds a home block, as it is if the reader has it locked. */
    lemma UsesHome(pid: nat, held: set<nat>, q: nat, b: nat)
      requires bc.Valid() && AmongReaders(pid, held) && |bc.disk| == l.disk && b < NBUF && q != pid
      requires q in bc.users[b] || bc.holder[b] == Some(q)
      ensures q in bc.users[b] && bc.buf[b].dev == DISK && bc.buf[b].blockno < |bc.view| == |bc.disk|
      ensures bc.holder[b] == Some(q) && bc.buf[b].valid ==> bc.buf[b].data == bc.view[bc.buf[b].blockno]
    {
      assert q in bc.users[b];
      assert q in bc.users[b] - {pid};
    }

    lemma BatchDone(pid: nat, held: set<nat>, readers: set<nat>)
      requires Here(pid, held, readers) && sched != []
      ensures Comings(sched[1..], readers) && |bc.users| == NBUF && OneEach(bc.users, pid, readers)
      ensures forall j | 0 <= j < |sched[0]| && sched[0][j].Enter? :: sched[0][j].reader in readers
      ensures bc.Valid() && l.Valid() && |bc.disk| == l.disk && AmongReaders(pid, held) && peak < NBUF
    {
      forall k, j | 0 <= k < |sched[1..]| && 0 <= j < |sched[1..][k]| && sched[1..][k][j].Enter?
        ensures sched[1..][k][j].reader in readers
      {
        assert sched[1..][k][j] == sched[k + 1][j];
      }
    }

    lemma HereStill(pid: nat, held: set<nat>, readers: set<nat>)
      requires bc.Valid() && l.Valid() && |bc.disk| == l.disk && AmongReaders(pid, held) && peak < NBUF
      requires |bc.users| == NBUF && OneEach(bc.users, pid, readers) && Comings(sched, readers)
      ensures Here(pid, held, readers)
    {
    }

    /** bread, with everything the log code relies on. Readers move first; one that has the block
        locked is waited for. */
    method Read(pid: nat, blockno: nat, ghost held: set<nat>, ghost readers: set<nat>) returns (r: Option<nat>)
      requires Here(pid, held, readers) && blockno < |bc.disk|
      requires forall i | i in held && 0 <= i < NBUF :: !Holds(bc.buf[i], DISK, blockno)
      modifies bc, this`sched, this`peak
      ensures r.None? ==> peak >= NBUF
      ensures old(Room(held, readers)) && Pinned(old(bc.buf), blockno) ==> r.Some?
      ensures |Dirty(old(bc.buf)) + held| + |readers| < NBUF ==> r.Some?
      ensures r.Some? ==>
                && r.value < NBUF && r.value !in held && Here(pid, held + {r.value}, readers)
                && Still(held, old(bc.buf), old(bc.disk), old(bc.view), old(bc.writes))
                && Holds(bc.buf[r.value], DISK, blockno)
                && bc.buf[r.value].valid && bc.buf[r.value].data == bc.view[blockno]
      ensures old(sched) == [] ==>
                && sched == []
                && (r.Some? <==> Readable(old(bc.buf), blockno))
                && (r.Some? ==> Out(pid) <= old(Out(pid)) && bc.buf == old(bc.buf)[r.value := bc.buf[r.value]])
    {
      hide Bcache.Valid, Among, Drift, Pinned, LogState.Here, Taken, Dirty;
      HereShape(pid, held, readers);
      ghost var buf0 := bc.buf;
      var ok, _ := Readers(pid, held, readers);
      if !ok { return None; }
      HereShape(pid, held, readers);
      DriftHeld(buf0, bc.buf, held, blockno);
      DriftPins(buf0, bc.buf, held);
      PinnedCached(bc.buf, blockno);
      ghost var buf1 := bc.buf;
      r := ReadNow(pid, blockno, held, readers);
      if r.Some? {
        DriftTwice(buf0, buf1, bc.buf, held);
      }
    }

    method ReadNow(pid: nat, blockno: nat, ghost held: set<nat>, ghost readers: set<nat>) returns (r: Option<nat>)
      requires Here(pid, held, readers) && blockno < |bc.disk|
      requires forall i | i in held && 0 <= i < NBUF :: !Holds(bc.buf[i], DISK, blockno)
      modifies bc, this`peak
      ensures r.None? ==> peak >= NBUF
      ensures r.Some? <==> Readable(old(bc.buf), blockno)
      ensures |Dirty(old(bc.buf)) + held| + |readers| < NBUF ==> r.Some?
      ensures r.Some? ==>
                && r.value < NBUF && r.value !in held && Here(pid, held + {r.value}, readers)
                && Still(held, old(bc.buf), old(bc.disk), old(bc.view), old(bc.writes))
                && Holds(bc.buf[r.value], DISK, blockno)
                && bc.buf[r.value].valid && bc.buf[r.value].data == bc.view[blockno]
                && Out(pid) <= old(Out(pid)) && bc.buf == old(bc.buf)[r.value := bc.buf[r.value]]
    {
      hide Bcache.Valid, Among, Taken, Pinned, Drift, OneEach, Comings, Counted, Gone, Answered, LogState.Here;
      HereShape(pid, held, readers);
      ghost var buf0, holder0, users0 := bc.buf, bc.holder, bc.users;
      NotUsing(pid, blockno, held);
      NoneOut(users0);
      GoneBound(l, buf0, holder0, users0, bc.view, pid, held, readers, {});
      var x := Ask(pid, blockno);
      if x.NoBuffers? { return None; }
      AnsweredAt(buf0, holder0, users0, bc.view, pid, blockno, x, bc.buf, bc.holder, bc.users);
      LockBlock(pid, blockno, x, buf0, holder0, users0);
      BcacheShape();
      r := Some(x.b);
      AmongAfterRead(l, buf0, holder0, users0, bc.view, pid, held, readers, x.b, bc.buf, bc.holder, bc.users);
      HereStill(pid, held + {x.b}, readers);
    }

    /** The end of bread: if another process has the buffer locked, it is waited for. */
    method LockBlock(pid: nat, blockno: nat, x: Reading,
                     ghost buf0: seq<Buf>, ghost holder0: seq<Option<nat>>, ghost users0: seq<set<nat>>)
      requires bc.Valid() && blockno < |bc.disk| && |buf0| == |holder0| == |users0| == NBUF
      requires Answered(buf0, holder0, users0, bc.view, pid, blockno, x, bc.buf, bc.holder, bc.users)
      requires forall i | 0 <= i < NBUF && Holds(buf0[i], DISK, blockno) && holder0[i].Some? && buf0[i].valid ::
                 buf0[i].data == bc.view[blockno]
      requires holder0[x.b] != Some(pid) && (Reusable(buf0[x.b]) ==> holder0[x.b].None?)
      modifies bc
      ensures bc.Valid() && bc.disk == old(bc.disk) && bc.writes == old(bc.writes) && bc.view == old(bc.view)
      ensures bc.buf == buf0[x.b := bc.buf[x.b]] && bc.holder == holder0[x.b := Some(pid)]
      ensures bc.users == users0[x.b := bc.users[x.b]] && |bc.users| == NBUF
      ensures pid in bc.users[x.b] && bc.users[x.b] - {pid} <= users0[x.b]
      ensures bc.buf[x.b].dirty == buf0[x.b].dirty && Holds(bc.buf[x.b], DISK, blockno)
      ensures bc.buf[x.b].valid && bc.buf[x.b].data == bc.view[blockno]
    {
      hide Bcache.Valid, Pinned, KeepsIdentity;
      BcacheShape();
      if x.Waits? {
        HandOver(bc.holder[x.b].value, x.b);
        BcacheShape();
        bc.Resume(pid, x.b);
        BcacheShape();
      }
    }

    /** Another process reads a home block that is not cached, and keeps the buffer. */
    method ReaderEnters(pid: nat, reader: nat, blockno: nat, ghost readers: set<nat>)
      requires Valid() && AmongReaders(pid, {}) && reader != pid && |Out(pid)| < NBUF
      requires Crowd(pid, readers) && reader in readers && !Using(reader)
      requires l.Home(blockno) && !Cached(bc.buf, DISK, blockno)
      modifies bc
      ensures Valid() && AmongReaders(pid, {}) && |Out(pid)| == |old(Out(pid))| + 1 && Crowd(pid, readers)
      ensures forall q: nat | q != reader && Using(q) :: old(Using(q))
      ensures forall n: nat | Cached(bc.buf, DISK, n) :: n == blockno || Cached(old(bc.buf), DISK, n)
    {
      hide Bcache.Valid, Among, Taken, Pinned, PinsExactly, Distinct, OneEach, Comings, Counted;
      BcacheShape();
      FreeBuffer(bc.buf, bc.holder, bc.users, bc.view, l, pid, lh, l.start);
      NotUsing(pid, blockno, {});
      ghost var buf0, holder0, users0 := bc.buf, bc.holder, bc.users;
      var r := bc.Bread(reader, blockno);
      BcacheShape();
      ReadKeepsPins(buf0, bc.buf, r.b);
      SamePinsExactly(buf0, bc.buf, lh);
      AmongAfterEnter(l, buf0, holder0, users0, bc.view, pid, readers, reader, r.b, bc.buf, bc.holder, bc.users);
    }

    /** A reader finishes with the buffer it has locked. */
    method HandOver(reader: nat, b: nat)
      requires bc.Valid() && b < NBUF && bc.holder[b] == Some(reader)
      requires bc.buf[b].dev == DISK && bc.buf[b].blockno < |bc.view|
      requires bc.buf[b].valid ==> bc.buf[b].data == bc.view[bc.buf[b].blockno]
      modifies bc
      ensures bc.Valid() && KeepsIdentity(old(bc.buf), bc.buf)
      ensures bc.disk == old(bc.disk) && bc.writes == old(bc.writes) && bc.view == old(bc.view)
      ensures bc.holder == old(bc.holder)[b := None]
      ensures bc.users == old(bc.users)[b := old(bc.users)[b] - {reader}]
      ensures bc.buf == old(bc.buf)[b := bc.buf[b]] && bc.buf[b].dirty == old(bc.buf)[b].dirty
      ensures Holds(bc.buf[b], DISK, old(bc.buf)[b].blockno)
      ensures bc.buf[b].valid && bc.buf[b].data == bc.view[old(bc.buf)[b].blockno]
    {
      if !bc.buf[b].valid {
        bc.Fill(reader, b);
      }
      bc.Brelse(reader, b);
    }

    /** bwrite a held buffer with new contents. */
    method Write(pid: nat, b: nat, data: Block, ghost held: set<nat>, ghost readers: set<nat>)
      requires Here(pid, held, readers) && b < NBUF && b in held && bc.buf[b].valid
      modifies bc
      ensures Here(pid, held, readers) && Out(pid) <= old(Out(pid)) && Dirty(bc.buf) == Dirty(old(bc.buf)) - {b}
      ensures old(Room(held, readers)) ==> Room(held, readers)
      ensures var n := old(bc.buf)[b].blockno;
              && n < |old(bc.disk)|
              && bc.disk == old(bc.disk)[n := data] && bc.view == old(bc.view)[n := data]
              && bc.writes == old(bc.writes) + [(n, data)]
              && bc.buf == old(bc.buf)[b := old(bc.buf)[b].(dirty := false, data := data)]
              && forall k: nat :: Pinned(bc.buf, k) <==> Pinned(old(bc.buf), k) && k != n
    {
      hide OneEach, Comings, Among, Counted, Taken, ByRelease, Bcache.RingValid;
      assert b < |bc.holder| && bc.holder[b] == Some(pid) by { HolderIs(pid, held, b); }
      ghost var buf0 := bc.buf;
      bc.Modify(pid, b, data);
      bc.Bwrite(pid, b);
      WrittenUnpins(buf0, bc.buf, b);
      AmongAfterWrite(l, buf0, bc.holder, bc.users, old(bc.view), pid, held, b, bc.buf, bc.view);
      assert Dirty(bc.buf) == Dirty(buf0) - {b};
      assert Dirty(bc.buf) + held == Dirty(buf0) + held;
    }

    lemma HolderIs(pid: nat, held: set<nat>, b: nat)
      requires AmongReaders(pid, held) && b < NBUF && b in held
      ensures b < |bc.holder| && bc.holder[b] == Some(pid)
    {
    }

    method Release(pid: nat, b: nat, ghost held: set<nat>, ghost readers: set<nat>)
      requires Here(pid, held, readers) && b < NBUF && b in held
      requires bc.buf[b].blockno < |bc.view| && (bc.buf[b].valid ==> bc.buf[b].data == bc.view[bc.buf[b].blockno])
      modifies bc
      ensures Here(pid, held - {b}, readers) && Out(pid) <= old(Out(pid))
      ensures old(Room(held, readers)) ==> Room(held - {b}, readers)
      ensures Still(held, old(bc.buf), old(bc.disk), old(bc.view), old(bc.writes))
      ensures bc.buf == old(bc.buf)[b := bc.buf[b]]
    {
      hide Comings, Among, Counted, Taken, OneEach, Bcache.Valid, LogState.Here, Drift, Unique, MovedFirst;
      hide KeepsIdentity, Dirty, Pinned;
      HereShape(pid, held, readers);
      HolderIs(pid, held, b);
      ghost var buf0, holder0, users0 := bc.buf, bc.holder, bc.users;
      bc.Brelse(pid, b);
      BcacheShape();
      AmongAfterRelease(l, buf0, holder0, users0, bc.view, pid, held, readers, b, bc.buf, bc.holder, bc.users);
      HereStill(pid, held - {b}, readers);
      DriftPins(buf0, bc.buf, held);
      FewerHeld(Dirty(buf0), held, b);
    }

    lemma FewerHeld(dirty: set<nat>, held: set<nat>, b: nat)
      ensures |dirty + (held - {b})| <= |dirty + held|
    {
      SubsetSize(dirty + (held - {b}), dirty + held);
    }

    /** There is room to copy between a log block and its home. */
    ghost predicate RoomToCopy(home: nat, readers: set<nat>)
      reads bc
    {
      |Dirty(bc.buf)| + |readers| < NBUF - if Pinned(bc.buf, home) then 0 else 1
    }

    /** The common body of write_log and install_trans: read a pair of blocks, copy one over
        the other, write it. False is bget's "no buffers" panic. */
    method CopyBlock(pid: nat, logged: nat, home: nat, toLog: bool, ghost readers: set<nat>) returns (ok: bool)
      requires Here(pid, {}, readers) && logged < |bc.disk| && home < |bc.disk| && logged != home
      modifies bc, this`sched, this`peak
      ensures if ok then Here(pid, {}, readers) else peak >= NBUF
      ensures old(RoomToCopy(home, readers)) ==> ok
      ensures old(sched) == [] ==>
                && sched == []
                && (Pinned(old(bc.buf), home) ==>
                      (ok <==> Readable(old(bc.buf), logged)))
                && (ok ==> Out(pid) <= old(Out(pid)))
      ensures var (dst, src) := if toLog then (logged, home) else (home, logged);
              var data := old(bc.view)[src];
              ok ==> && Dirty(bc.buf) <= Dirty(old(bc.buf))
                     && bc.disk == old(bc.disk)[dst := data] && bc.view == old(bc.view)[dst := data]
                     && bc.writes == old(bc.writes) + [(dst, data)]
                     && forall n: nat :: Pinned(bc.buf, n) <==> Pinned(old(bc.buf), n) && n != dst
    {
      hide LogState.Here, LogState.Room, LogState.RoomToCopy, LogState.Out, Pinned, Bcache.Valid, Drift;
      HereShape(pid, {}, readers);
      ghost var buf0 := bc.buf;
      var p := ReadPair(pid, logged, home, readers);
      if p.None? { return false; }
      var (x, y) := p.value;
      HereShape(pid, {x, y}, readers);
      DriftPins(buf0, bc.buf, {});
      if toLog {
        ok := CopyHeld(pid, x, y, readers);
      } else {
        assert {x, y} == {y, x};
        ok := CopyHeld(pid, y, x, readers);
      }
    }

    method ReadPair(pid: nat, logged: nat, home: nat, ghost readers: set<nat>) returns (r: Option<(nat, nat)>)
      requires Here(pid, {}, readers) && logged < |bc.disk| && home < |bc.disk| && logged != home
      modifies bc, this`sched, this`peak
      ensures r.None? ==> peak >= NBUF
      ensures old(RoomToCopy(home, readers)) ==> r.Some? && Room({r.value.0, r.value.1}, readers)
      ensures r.Some? ==> var (x, y) := r.value;
                && x < NBUF && y < NBUF && x != y && Here(pid, {x, y}, readers)
                && Still({}, old(bc.buf), old(bc.disk), old(bc.view), old(bc.writes))
                && bc.buf[x].valid && Holds(bc.buf[x], DISK, logged) && bc.buf[x].data == bc.view[logged]
                && bc.buf[y].valid && Holds(bc.buf[y], DISK, home) && bc.buf[y].data == bc.view[home]
      ensures old(sched) == [] ==>
                && sched == []
                && (Pinned(old(bc.buf), home) ==>
                      (r.Some? <==> Readable(old(bc.buf), logged)))
                && (r.Some? ==> Out(pid) <= old(Out(pid)))
    {
      hide LogState.Here, Taken, Pinned, Bcache.Valid, Drift, Cached, Among, OneEach, Comings, Counted, Unique, Dirty;
      HereShape(pid, {}, readers);
      ghost var buf0 := bc.buf;
      RoomForOne(buf0, {});
      var a := Read(pid, logged, {}, readers);
      if a.None? { return None; }
      var x := a.value;
      assert {} + {x} == {x};
      HereShape(pid, {x}, readers);
      DriftPins(buf0, bc.buf, {});
      ghost var buf1 := bc.buf;
      var b := ReadHome(pid, x, home, readers);
      if b.None? { return None; }
      HereShape(pid, {x, b.value}, readers);
      DriftOn(buf0, buf1, bc.buf, x);
      return Some((x, b.value));
    }

    /** The second bread of a pair, with the log block's buffer x held. */
    method ReadHome(pid: nat, x: nat, home: nat, ghost readers: set<nat>) returns (r: Option<nat>)
      requires x < NBUF && Here(pid, {x}, readers) && home < |bc.disk| && !Holds(bc.buf[x], DISK, home)
      modifies bc, this`sched, this`peak
      ensures r.None? ==> peak >= NBUF
      ensures old(RoomToCopy(home, readers)) ==> r.Some? && Room({x, r.value}, readers)
      ensures r.Some? ==>
                && r.value < NBUF && r.value != x && Here(pid, {x, r.value}, readers)
                && Still({x}, old(bc.buf), old(bc.disk), old(bc.view), old(bc.writes))
                && bc.buf[r.value].valid && Holds(bc.buf[r.value], DISK, home) && bc.buf[r.value].data == bc.view[home]
      ensures old(sched) == [] ==>
                && sched == [] && (Pinned(old(bc.buf), home) ==> r.Some?) && (r.Some? ==> Out(pid) <= old(Out(pid)))
    {
      hide LogState.Here, Taken, Pinned, Bcache.Valid, Drift, Cached, Among, OneEach, Comings, Counted, Unique, Dirty;
      HereShape(pid, {x}, readers);
      ghost var buf1 := bc.buf;
      RoomForOne(buf1, {x});
      PinnedCached(buf1, home);
      r := Read(pid, home, {x}, readers);
      if r.Some? {
        HereShape(pid, {x} + {r.value}, readers);
        DriftPins(buf1, bc.buf, {x});
        RoomForTwo(bc.buf, home, x, r.value);
        assert {x} + {r.value} == {x, r.value};
      }
    }

    method CopyHeld(pid: nat, to: nat, from: nat, ghost readers: set<nat>) returns (ok: bool)
      requires to < NBUF && from < NBUF && to != from && Here(pid, {to, from}, readers)
      requires bc.buf[to].valid && bc.buf[from].valid && bc.buf[to].blockno != bc.buf[from].blockno
      requires bc.buf[from].blockno < |bc.view| && bc.buf[from].data == bc.view[bc.buf[from].blockno]
      modifies bc, this`sched, this`peak
      ensures if ok then Here(pid, {}, readers) else peak >= NBUF
      ensures old(Room({to, from}, readers)) ==> ok
      ensures old(sched) == [] ==> sched == [] && ok && Out(pid) <= old(Out(pid))
      ensures ok ==>
                && var (dst, data) := (old(bc.buf)[to].blockno, old(bc.buf)[from].data);
                && dst < |old(bc.disk)| && Dirty(bc.buf) <= Dirty(old(bc.buf))
                && bc.disk == old(bc.disk)[dst := data] && bc.view == old(bc.view)[dst := data]
                && bc.writes == old(bc.writes) + [(dst, data)]
                && forall n: nat :: Pinned(bc.buf, n) <==> Pinned(old(bc.buf), n) && n != dst
    {
      hide LogState.Here, LogState.Room, Among, Taken, Pinned, Bcache.Valid, Drift, OneEach, Comings, Counted, Unique;
      ghost var held := {to, from};
      ghost var buf0 := bc.buf;
      HereShape(pid, held, readers);
      ghost var trace;
      ok, trace := Readers(pid, held, readers);
      if !ok { return; }
      HereShape(pid, held, readers);
      DriftPins(buf0, bc.buf, held);
      DriftAt(buf0, bc.buf, held, to);
      DriftAt(buf0, bc.buf, held, from);
      Write(pid, to, bc.buf[from].data, held, readers);
      HereShape(pid, held, readers);
      ghost var buf1 := bc.buf;
      ok := ReleaseOne(pid, from, held, readers);
      if !ok { return; }
      assert held - {from} == {to};
      HereShape(pid, {to}, readers);
      DriftAt(buf1, bc.buf, held, to);
      ok := ReleaseOne(pid, to, {to}, readers);
      assert {to} - {to} == {};
    }

    /** Readers' moves and brelse. */
    method ReleaseOne(pid: nat, b: nat, ghost held: set<nat>, ghost readers: set<nat>) returns (ok: bool)
      requires Here(pid, held, readers) && b < NBUF && b in held
      requires bc.buf[b].blockno < |bc.view| && (bc.buf[b].valid ==> bc.buf[b].data == bc.view[bc.buf[b].blockno])
      modifies bc, this`sched, this`peak
      ensures if ok then Here(pid, held - {b}, readers) else peak >= NBUF
      ensures old(Room(held, readers)) ==> ok && Room(held - {b}, readers)
      ensures ok ==>
                && Still(held, old(bc.buf), old(bc.disk), old(bc.view), old(bc.writes))
                && Dirty(bc.buf) == Dirty(old(bc.buf)) && forall n: nat :: Pinned(bc.buf, n) <==> Pinned(old(bc.buf), n)
      ensures old(sched) == [] ==> sched == [] && ok && Out(pid) <= old(Out(pid))
    {
      hide LogState.Here, LogState.Room, Among, Taken, Pinned, Bcache.Valid, Drift, OneEach, Comings, Unique, Counted;
      ghost var buf0 := bc.buf;
      HereShape(pid, held, readers);
      ghost var trace;
      ok, trace := Readers(pid, held, readers);
      if !ok { return; }
      HereShape(pid, held, readers);
      DriftAt(buf0, bc.buf, held, b);
      ghost var buf1 := bc.buf;
      Release(pid, b, held, readers);
      DriftTwice(buf0, buf1, bc.buf, held);
      DriftPins(buf0, bc.buf, held);
    }

    /** One turn of write_log's loop. */
    method LogOne(pid: nat, tail: nat, ghost readers: set<nat>) returns (ok: bool)
      requires Valid() && Here(pid, {}, readers) && tail < |lh|
      modifies bc, this`sched, this`peak
      ensures if ok then Here(pid, {}, readers) else peak >= NBUF
      ensures |Dirty(old(bc.buf))| + |readers| < NBUF ==> ok
      ensures old(sched) == [] ==>
                sched == [] && (ok <==> |old(Out(pid))| < NBUF) && (ok ==> Out(pid) <= old(Out(pid)))
      ensures ok ==>
                && Valid() && Dirty(bc.buf) <= Dirty(old(bc.buf))
                && var (b, data) := (l.start + tail + 1, old(bc.view)[lh[tail]]);
                   && bc.disk == old(bc.disk)[b := data] && bc.view == old(bc.view)[b := data]
                   && bc.writes == old(bc.writes) + [(b, data)]
    {
      hide Bcache.Valid, Among, Taken, Pinned, Counted, LogState.Here, OneEach, Comings, Unique;
      HereShape(pid, {}, readers);
      assert Pinned(bc.buf, lh[tail]);
      FreeBuffer(bc.buf, bc.holder, bc.users, bc.view, l, pid, lh, l.start + tail + 1);
      ok := CopyBlock(pid, l.start + tail + 1, lh[tail], true, readers);
      if ok { HereShape(pid, {}, readers); }
    }

    /** write_log: copy the transaction's blocks from the cache into the log. */
    method WriteLog(pid: nat, ghost readers: set<nat>) returns (ok: bool)
      requires Valid() && Here(pid, {}, readers) && lh != []
      modifies bc, this`sched, this`peak
      ensures if ok then Here(pid, {}, readers) else peak >= NBUF
      ensures |Dirty(old(bc.buf))| + |readers| < NBUF ==> ok
      ensures old(sched) == [] ==>
                sched == [] && (ok <==> |old(Out(pid))| < NBUF) && (ok ==> Out(pid) <= old(Out(pid)))
      ensures ok ==>
                && Valid() && Dirty(bc.buf) <= Dirty(old(bc.buf))
                && var ws := LogWrites(l, Pending(old(bc.view), old(lh)));
                   Wrote(l, old(bc.disk), old(bc.view), old(bc.writes), bc.disk, bc.view, bc.writes, ws)
    {
      hide LogState.Here, LogState.Out, Bcache.Valid, PinsExactly, Apply, Wrote, Dirty;
      ghost var disk0, view0, writes0, out0, dirty0 := bc.disk, bc.view, bc.writes, Out(pid), Dirty(bc.buf);
      ghost var data := Pending(bc.view, lh);
      WroteNothing(l, disk0, view0, writes0, LogWrites(l, data));
      var tail := 0;
      while tail < |lh|
        invariant 0 <= tail <= |lh| && Valid() && Here(pid, {}, readers) && Dirty(bc.buf) <= dirty0
        invariant old(sched) == [] ==>
                    && sched == [] && Out(pid) <= out0
                    && (if tail == 0 then Out(pid) == out0 else |out0| < NBUF)
        invariant Wrote(l, disk0, view0, writes0, bc.disk, bc.view, bc.writes, LogWrites(l, data)[..tail])
      {
        ghost var disk, view, writes := bc.disk, bc.view, bc.writes;
        Fewer(pid, out0, dirty0);
        ok := LogOne(pid, tail, readers);
        if !ok { return; }
        LoggedMore(l, disk0, view0, writes0, disk, view, writes, lh, data, tail, bc.disk, bc.view, bc.writes);
        tail := tail + 1;
      }
      assert LogWrites(l, data)[..tail] == LogWrites(l, data);
      ok := true;
    }

    /** write_head: put the in-memory list of block numbers into the header block. */
    method WriteHead(pid: nat, ghost pins: seq<nat>, ghost readers: set<nat>) returns (ok: bool)
      requires Here(pid, {}, readers) && l.Loggable(lh) && PinsExactly(bc.buf, pins) && l.Loggable(pins)
      modifies bc, this`sched, this`peak
      ensures if ok then Here(pid, {}, readers) else peak >= NBUF
      ensures |Dirty(old(bc.buf))| + |readers| < NBUF ==> ok
      ensures old(sched) == [] ==>
                sched == [] && (ok <==> |old(Out(pid))| < NBUF) && (ok ==> Out(pid) <= old(Out(pid)))
      ensures |old(bc.view)| == l.disk
      ensures ok ==>
                && PinsExactly(bc.buf, pins) && Dirty(bc.buf) <= Dirty(old(bc.buf))
                && var head := HeadBlock(old(bc.view)[l.start], lh);
                   Wrote(l, old(bc.disk), old(bc.view), old(bc.writes), bc.disk, bc.view, bc.writes, [(l.start, head)])
    {
      hide Bcache.Valid, Among, Taken, Pinned, Counted, HeadBlock, Apply, Drift, LogState.Here, OneEach, Comings;
      hide Unique, PinsExactly, Dirty;
      HereShape(pid, {}, readers);
      FreeBuffer(bc.buf, bc.holder, bc.users, bc.view, l, pid, pins, l.start);
      ghost var buf0 := bc.buf;
      RoomForOne(buf0, {});
      var r := Read(pid, l.start, {}, readers);
      if r.None? { return false; }
      var b := r.value;
      assert {} + {b} == {b};
      HereShape(pid, {b}, readers);
      DriftPins(buf0, bc.buf, {});
      SamePinsExactly(buf0, bc.buf, pins);
      var hb := ListInto(bc.buf[b].data);
      RoomForOne(bc.buf, {b});
      ghost var buf1 := bc.buf;
      ok := WriteHeld(pid, b, hb, readers);
      if !ok { return; }
      LogBlockNotPinned(buf1, bc.buf, l, pins, l.start);
      HereShape(pid, {}, readers);
      WroteSingle(l, old(bc.disk), old(bc.view), (l.start, hb));
    }

    /** Readers' moves, bwrite, readers' moves and brelse. */
    method WriteHeld(pid: nat, b: nat, data: Block, ghost readers: set<nat>) returns (ok: bool)
      requires b < NBUF && Here(pid, {b}, readers) && bc.buf[b].valid
      modifies bc, this`sched, this`peak
      ensures if ok then Here(pid, {}, readers) else peak >= NBUF
      ensures old(Room({b}, readers)) ==> ok
      ensures old(sched) == [] ==> sched == [] && ok && Out(pid) <= old(Out(pid))
      ensures ok ==>
                && var n := old(bc.buf)[b].blockno;
                && n < |old(bc.disk)| && Dirty(bc.buf) <= Dirty(old(bc.buf))
                && bc.disk == old(bc.disk)[n := data] && bc.view == old(bc.view)[n := data]
                && bc.writes == old(bc.writes) + [(n, data)]
                && forall k: nat :: Pinned(bc.buf, k) <==> Pinned(old(bc.buf), k) && k != n
    {
      hide LogState.Here, LogState.Room, Among, Taken, Pinned, Bcache.Valid, Drift, OneEach, Comings, Unique, Counted;
      ghost var buf0 := bc.buf;
      HereShape(pid, {b}, readers);
      ghost var trace;
      ok, trace := Readers(pid, {b}, readers);
      if !ok { return; }
      HereShape(pid, {b}, readers);
      DriftPins(buf0, bc.buf, {b});
      DriftAt(buf0, bc.buf, {b}, b);
      Write(pid, b, data, {b}, readers);
      HereShape(pid, {b}, readers);
      ok := ReleaseOne(pid, b, {b}, readers);
      assert {b} - {b} == {};
    }

    /** The header block's new contents. */
    method ListInto(block: Block) returns (hb: Block)
      requires l.Valid() && l.Loggable(lh)
      ensures hb == HeadBlock(block, lh)
    {
      hb := PutWord(block, 0, |lh|);
      ghost var filled := FillHead(hb, lh, 0);
      var i := 0;
      while i < |lh|
        invariant 0 <= i <= |lh|
        invariant FillHead(hb, lh, i) == filled
      {
        hb := PutWord(hb, i + 1, lh[i]);
        i := i + 1;
      }
    }

    /** One turn of install_trans's loop. In a commit the blocks not yet installed are pinned. */
    method InstallOne(pid: nat, tail: nat, ghost commit: bool, ghost readers: set<nat>) returns (ok: bool)
      requires Here(pid, {}, readers) && l.Loggable(lh) && tail < |lh|
      requires PinsExactly(bc.buf, Uninstalled(lh, tail, commit)) && (commit ==> Distinct(lh))
      modifies bc, this`sched, this`peak
      ensures if ok then Here(pid, {}, readers) else peak >= NBUF
      ensures |Dirty(old(bc.buf))| + |readers| < NBUF - (if commit then 0 else 1) ==> ok
      ensures old(sched) == [] && commit ==>
                sched == [] && (|old(Out(pid))| < NBUF ==> ok) && (ok ==> Out(pid) <= old(Out(pid)))
      ensures |old(bc.view)| == l.disk
      ensures ok ==>
                && PinsExactly(bc.buf, Uninstalled(lh, tail + 1, commit)) && Dirty(bc.buf) <= Dirty(old(bc.buf))
                && var (b, data) := (lh[tail], old(bc.view)[l.start + tail + 1]);
                   && bc.disk == old(bc.disk)[b := data] && bc.view == old(bc.view)[b := data]
                   && bc.writes == old(bc.writes) + [(b, data)]
    {
      hide Bcache.Valid, Among, Taken, Pinned, Counted, PinsExactly, Uninstalled, Distinct, LogState.Here, OneEach;
      hide Comings, Unique;
      HereShape(pid, {}, readers);
      ghost var pins, buf0 := Uninstalled(lh, tail, commit), bc.buf;
      InstallPins(bc.buf, l, lh, tail, commit);
      FreeBuffer(bc.buf, bc.holder, bc.users, bc.view, l, pid, pins, l.start + tail + 1);
      ok := CopyBlock(pid, l.start + tail + 1, lh[tail], false, readers);
      if ok {
        InstalledPins(buf0, bc.buf, lh, tail, commit);
      }
    }

    /** install_trans: copy the logged blocks from the log to their homes. In a commit the home
        blocks are pinned and become clean one by one; in a recovery nothing is pinned. */
    method InstallTrans(pid: nat, ghost commit: bool, ghost readers: set<nat>) returns (ok: bool)
      requires Here(pid, {}, readers) && l.Loggable(lh)
      requires PinsExactly(bc.buf, Uninstalled(lh, 0, commit)) && (commit ==> Distinct(lh))
      modifies bc, this`sched, this`peak
      ensures if ok then Here(pid, {}, readers) else peak >= NBUF
      ensures |Dirty(old(bc.buf))| + |readers| < NBUF - (if commit then 0 else 1) ==> ok
      ensures old(sched) == [] && commit ==>
                sched == [] && (|old(Out(pid))| < NBUF ==> ok) && (ok ==> Out(pid) <= old(Out(pid)))
      ensures |old(bc.view)| == l.disk
      ensures ok ==>
                && PinsExactly(bc.buf, []) && Dirty(bc.buf) <= Dirty(old(bc.buf))
                && var ws := HomeWrites(lh, LogData(l, old(bc.view), |lh|));
                   Wrote(l, old(bc.disk), old(bc.view), old(bc.writes), bc.disk, bc.view, bc.writes, ws)
    {
      hide LogState.Here, LogState.Out, Bcache.Valid, Dirty, Among, OneEach, Comings, Unique, Counted;
      hide PinsExactly, Apply, Wrote, HomeWrites, LogData, Uninstalled, Distinct;
      HereShape(pid, {}, readers);
      ghost var disk0, view0, writes0, out0, dirty0 := bc.disk, bc.view, bc.writes, Out(pid), Dirty(bc.buf);
      ghost var ws := HomeWrites(lh, LogData(l, view0, |lh|));
      WroteNothing(l, disk0, view0, writes0, ws);
      var tail := 0;
      while tail < |lh|
        invariant 0 <= tail <= |lh| && Here(pid, {}, readers) && Dirty(bc.buf) <= dirty0
        invariant old(sched) == [] && commit ==> sched == [] && Out(pid) <= out0
        invariant PinsExactly(bc.buf, Uninstalled(lh, tail, commit))
        invariant Wrote(l, disk0, view0, writes0, bc.disk, bc.view, bc.writes, ws[..tail])
      {
        ghost var disk, view, writes := bc.disk, bc.view, bc.writes;
        HereShape(pid, {}, readers);
        Fewer(pid, out0, dirty0);
        ok := InstallOne(pid, tail, commit, readers);
        if !ok { return; }
        InstalledMore(l, disk0, view0, writes0, disk, view, writes, lh, tail, bc.disk, bc.view, bc.writes);
        tail := tail + 1;
      }
      AllInstalled(lh, commit);
      assert ws[..tail] == ws;
      ok := true;
    }

    /** commit, while readers come and go between its steps. It comes to its end exactly when nobody,
        itself included, asks for a buffer at a moment when all are pinned or in use; then the disk
        has seen the block writes CommitWrites, in that order and no others. It does so whatever the
        readers do if the blocks of the transaction and the readers are together fewer than the
        buffers; and if the readers hold still, exactly when the blocks of the transaction and the
        unpinned buffers in use are. */
    method Commit(pid: nat, ghost readers: set<nat>) returns (ok: bool)
      requires Valid() && AmongReaders(pid, {}) && Crowd(pid, readers)
      modifies this`lh, bc, this`sched, this`peak
      ensures ok <==> peak < NBUF
      ensures |old(lh)| + |readers| < NBUF ==> ok
      ensures old(sched) == [] ==>
                (ok <==> old(lh) == [] || |old(lh)| + |old(InUse(bc.buf, bc.users, pid))| < NBUF)
      ensures ok ==>
                && Valid() && AmongReaders(pid, {}) && lh == []
                && SameHome(l, bc.view, old(bc.view)) && SameHome(l, bc.disk, old(bc.view))
                && var ws := CommitWrites(l, old(bc.disk), old(lh), Pending(old(bc.view), old(lh)));
                   bc.disk == Apply(old(bc.disk), ws) && bc.writes == old(bc.writes) + ws
      ensures !ok ==> lh == old(lh) || lh == []
    {
      hide LogState.AmongReaders, LogState.Out, Bcache.Valid, HeadBlock, LogWrites, SealWrites, LogData;
      hide PinsExactly, Distinct, LogState.Crowd;
      peak := 0;
      if |lh| == 0 {
        UpToDate();
        return true;
      }
      hide Apply;
      ghost var disk0, view0, blocks, data := bc.disk, bc.view, lh, Pending(bc.view, lh);
      UpToDate();
      OutSize(pid);
      ghost var out0, dirty0 := Out(pid), Dirty(bc.buf);
      ok := WriteLog(pid, readers);
      if !ok { return; }
      Fewer(pid, out0, dirty0);
      LoggedView(l, view0, bc.view, lh, data);
      ok := Seal(pid, data, readers);
      if !ok { return; }
      CommitDisk(l, disk0, blocks, data);
      CommitView(l, view0, blocks, data);
      UpToDate();
    }

    lemma OutSize(pid: nat)
      requires Valid()
      ensures |Out(pid)| == |lh| + |InUse(bc.buf, bc.users, pid)| && |Dirty(bc.buf)| == |lh|
    {
      TakenSize(bc.buf, bc.users, pid, lh);
    }

    /** No more buffers are out of reach, or pinned, than before. */
    lemma Fewer(pid: nat, out0: set<nat>, dirty0: set<nat>)
      ensures Out(pid) <= out0 ==> |Out(pid)| <= |out0|
      ensures Dirty(bc.buf) <= dirty0 ==> |Dirty(bc.buf)| <= |dirty0|
    {
      if Out(pid) <= out0 { SubsetSize(Out(pid), out0); }
      if Dirty(bc.buf) <= dirty0 { SubsetSize(Dirty(bc.buf), dirty0); }
    }

    lemma HereShape(pid: nat, held: set<nat>, readers: set<nat>)
      requires Here(pid, held, readers)
      ensures bc.Valid() && l.Valid() && |bc.disk| == |bc.view| == l.disk && AmongReaders(pid, held) && peak < NBUF
      ensures |bc.buf| == |bc.users| == |bc.holder| == NBUF && Counted(bc.buf, bc.holder, bc.users)
      ensures OneEach(bc.users, pid, readers) && Comings(sched, readers)
      ensures Unique(bc.buf) && forall i | 0 <= i < NBUF && bc.buf[i].dirty :: bc.buf[i].dev == DISK
    {
    }

    lemma BcacheShape()
      requires bc.Valid()
      ensures |bc.disk| == |bc.view| && |bc.buf| == |bc.users| == |bc.holder| == NBUF
      ensures Counted(bc.buf, bc.holder, bc.users)
    {
    }

    lemma NotUsing(pid: nat, blockno: nat, held: set<nat>)
      requires bc.Valid() && AmongReaders(pid, held)
      requires forall i | i in held && 0 <= i < NBUF :: !Holds(bc.buf[i], DISK, blockno)
      ensures forall i | 0 <= i < NBUF && Holds(bc.buf[i], DISK, blockno) ::
                pid !in bc.users[i] && i !in held && bc.holder[i] != Some(pid)
                && (bc.holder[i].Some? && bc.buf[i].valid ==>
                      bc.buf[i].blockno < |bc.view| && bc.buf[i].data == bc.view[bc.buf[i].blockno])
      ensures forall i | 0 <= i < NBUF && Reusable(bc.buf[i]) :: bc.holder[i].None? && i !in held
    {
    }

    /** A block outside the transaction is the same on disk as in the cache. */
    lemma UpToDate()
      requires Valid()
      ensures forall b | 0 <= b < l.disk && b !in lh :: bc.disk[b] == bc.view[b]
    {
      forall b | 0 <= b < l.disk && b !in lh ensures bc.disk[b] == bc.view[b] {
        assert !Pinned(bc.buf, b);
      }
    }

    /** read_head: the block numbers on disk become the in-memory list. */
    method ReadHead(pid: nat)
      requires Here(pid, {}, {}) && sched == [] && PinsExactly(bc.buf, []) && WellFormed(l, bc.view)
      modifies this`lh, bc, this`sched, this`peak
      ensures Here(pid, {}, {}) && sched == [] && PinsExactly(bc.buf, [])
      ensures bc.disk == old(bc.disk) && bc.writes == old(bc.writes) && bc.view == old(bc.view)
      ensures lh == Head(bc.view[l.start])
    {
      hide Bcache.Valid, Among, Taken, Pinned, Counted, Drift, LogState.Here;
      HereShape(pid, {}, {});
      ghost var buf0 := bc.buf;
      NoPins(bc.buf);
      var r := Read(pid, l.start, {}, {});
      var b := r.value;
      assert {} + {b} == {b};
      HereShape(pid, {b}, {});
      DriftPins(buf0, bc.buf, {});
      ListFrom(bc.buf[b].data);
      HereShape(pid, {b}, {});
      var ok := ReleaseOne(pid, b, {b}, {});
      assert {b} - {b} == {};
    }

    method ListFrom(hb: Block)
      requires GetWord(hb, 0) <= LOGSIZE
      modifies this`lh
      ensures lh == Head(hb)
    {
      var n := GetWord(hb, 0);
      lh := [];
      var i := 0;
      while i < n
        invariant 0 <= i <= n
        invariant lh == Head(hb)[..i]
      {
        lh := lh + [GetWord(hb, i + 1)];
        i := i + 1;
      }
    }

    /** recover_from_log, on a cache that has only just been started: the disk sees exactly the
        block writes RecoverWrites, and the log is empty afterwards. */
    method RecoverFromLog(pid: nat)
      requires Here(pid, {}, {}) && sched == [] && PinsExactly(bc.buf, [])
      requires bc.view == bc.disk && WellFormed(l, bc.disk)
      modifies this`lh, bc, this`sched, this`peak
      ensures Valid() && AmongReaders(pid, {}) && lh == []
      ensures var ws := RecoverWrites(l, old(bc.disk));
              Wrote(l, old(bc.disk), old(bc.disk), old(bc.writes), bc.disk, bc.view, bc.writes, ws)
    {
      hide LogState.Here, Bcache.Valid, HeadBlock, Apply, Dirty;
      ghost var d, writes0 := bc.disk, bc.writes;
      ReadHead(pid);
      HereShape(pid, {}, {});
      ghost var data := LogData(l, d, |lh|);
      ghost var hw := HomeWrites(lh, data);
      UninstalledNone(lh);
      NoPins(bc.buf);
      var ok := InstallTrans(pid, false, {});
      HereShape(pid, {}, {});
      InstallKeepsHeader(l, d, lh, data);
      NoPins(bc.buf);
      lh := [];
      ok := WriteHead(pid, [], {});
      HereShape(pid, {}, {});
      ApplyAppend(d, hw, [(l.start, HeadBlock(d[l.start], []))]);
      assert writes0 + hw + [(l.start, HeadBlock(d[l.start], []))] == writes0 + RecoverWrites(l, d);
    }

    /** One pass of begin_op's loop; false means the caller sleeps and tries again. */
    method BeginOp() returns (entered: bool)
      modifies this`outstanding, this`ops, this`states, this`steps
      ensures entered <==> LogReservation.MayBegin(|lh|, old(outstanding), committing)
      ensures entered <==> !committing && |lh| + 10 * (old(outstanding) + 1) <= 30
      ensures outstanding == if entered then old(outstanding) + 1 else old(outstanding)
      ensures ops == if entered then old(ops) + [{}] else old(ops)
      ensures old(Recorded()) ==> Recorded()
    {
      if committing {
        entered := false;
      } else if |lh| + (outstanding + 1) * MAXOPBLOCKS > LOGSIZE {
        entered := false;
      } else {
        outstanding := outstanding + 1;
        entered := true;
        ops := ops + [{}];
        Record(LogReservation.Begin, LogReservation.LogSt(lh, ops, false));
      }
    }

    /** end_op's first section: the last operation out starts the commit. */
    method EndOp(ghost op: nat) returns (ok: bool, doCommit: bool)
      requires outstanding > 0
      modifies this`outstanding, this`committing, this`ops, this`states, this`steps
      ensures ok <==> !old(committing)
      ensures outstanding == old(outstanding) - 1
      ensures ok ==> (doCommit <==> outstanding == 0) && committing == doCommit
      ensures old(Recorded()) && op < |old(ops)| ==> ok && Recorded() && ops == LogReservation.Without(old(ops), op)
    {
      if Recorded() { RecordedSafe(lh); }
      outstanding := outstanding - 1;
      if op < |ops| { ops := LogReservation.Without(ops, op); }
      if committing {
        return false, false;
      }
      doCommit := outstanding == 0;
      if doCommit {
        committing := true;
      }
      Record(LogReservation.End(op), LogReservation.LogSt(lh, ops, committing));
      ok := true;
    }

    /** end_op's last section, after commit() has returned. */
    method CommitDone()
      modifies this`committing, this`states, this`steps
      ensures !committing
      ensures old(Recorded() && committing && lh == []) ==> Recorded()
    {
      committing := false;
      Record(LogReservation.CommitDone, LogReservation.LogSt([], ops, false));
    }

    /** log_write: record the held buffer's block in the transaction and pin it. False is a panic. */
    method LogWrite(pid: nat, b: nat, ghost op: nat) returns (ok: bool)
      requires Valid() && b < NBUF && bc.holder[b] == Some(pid) && bc.buf[b].valid
      requires l.Home(bc.buf[b].blockno)
      modifies this`lh, bc`buf, bc`view, this`ops, this`states, this`steps
      ensures ok <==> !LogReservation.WritePanics(|old(lh)|, outstanding, l.size)
      ensures ok <==> |old(lh)| < 30 && |old(lh)| < l.size - 1 && outstanding >= 1
      ensures !ok ==> lh == old(lh) && bc.buf == old(bc.buf) && bc.view == old(bc.view)
      ensures ok ==>
                && Valid()
                && var (n, data) := (old(bc.buf)[b].blockno, old(bc.buf)[b].data);
                   && lh == LogReservation.Absorb(old(lh), n)
                   && bc.view == old(bc.view)[n := data]
                   && bc.buf == old(bc.buf)[b := old(bc.buf)[b].(dirty := true)]
      ensures ok && op < |old(ops)| ==> ops == old(ops)[op := old(ops)[op] + {old(bc.buf)[b].blockno}]
      ensures !ok || op >= |old(ops)| ==> ops == old(ops)
      ensures ok && op < |old(ops)| && |ops[op]| <= MAXOPBLOCKS && old(Recorded()) ==> Recorded()
    {
      hide LogReservation.IsRun, LogReservation.Next;
      if |lh| >= LOGSIZE || |lh| >= l.size - 1 {
        return false;
      }
      if outstanding < 1 {
        return false;
      }
      var n := bc.buf[b].blockno;
      var i := 0;
      while i < |lh|
        invariant 0 <= i <= |lh|
        invariant forall j | 0 <= j < i :: lh[j] != n
        modifies {}
      {
        if lh[i] == n { break; }
        i := i + 1;
      }
      ghost var lh0, buf0 := lh, bc.buf;
      if i == |lh| {
        lh := lh + [n];
      } else {
        lh := lh[i := n];
      }
      assert lh == LogReservation.Absorb(lh0, n);
      bc.Pin(pid, b);
      PinnedMore(buf0, bc.buf, b, lh0, lh);
      RecordWrite(op, n, lh0);
      ok := true;
    }

    /** log_write and brelse by the only process in the cache, for the first block of a transaction. */
    method LogFirst(pid: nat, b: nat) returns (ok: bool)
      requires Valid() && Here(pid, {b}, {}) && b < NBUF && bc.buf[b].valid && l.Home(bc.buf[b].blockno)
      requires !LogReservation.WritePanics(0, outstanding, l.size) && lh == []
      requires bc.buf[b].data == bc.view[bc.buf[b].blockno] && Out(pid) == {}
      modifies this`lh, this`ops, this`states, this`steps, bc
      ensures Valid() && Here(pid, {}, {}) && |lh| == 1 && |Out(pid)| == 1 && sched == old(sched)
      ensures SameBlocks(old(bc.buf), bc.buf)
    {
      hide LogState.Recorded, Bcache.Valid, PinsExactly, Distinct, Pinned, OneEach, Comings, Among, Taken, Drift;
      hide LogState.Here, Counted, Unique;
      HereShape(pid, {b}, {});
      HolderIs(pid, {b}, b);
      ghost var buf0, view0 := bc.buf, bc.view;
      ok := LogWrite(pid, b, 0);
      BcacheShape();
      assert bc.view == view0;
      AmongAfterPin(l, buf0, bc.holder, bc.users, bc.view, pid, b, bc.buf);
      HereStill(pid, {b}, {});
      ghost var buf1 := bc.buf;
      Release(pid, b, {b}, {});
      DriftPins(buf1, bc.buf, {b});
      SamePinsExactly(buf1, bc.buf, lh);
      assert {b} - {b} == {};
      HereShape(pid, {}, {});
      DriftAt(buf1, bc.buf, {b}, b);
      assert Out(pid) == {b};
    }

    /** bread, log_write and brelse of a home block, on a cache with nothing in it. */
    method ReadAndLog(pid: nat, blockno: nat)
      requires Valid() && Here(pid, {}, {}) && sched == [] && Out(pid) == {} && lh == [] && l.Home(blockno)
      requires !LogReservation.WritePanics(0, outstanding, l.size) && |bc.buf| == NBUF && Reusable(bc.buf[0])
      requires forall n: nat :: !Cached(bc.buf, DISK, n)
      modifies this`lh, this`ops, this`states, this`steps, this`sched, this`peak, bc
      ensures Valid() && Here(pid, {}, {}) && sched == [] && |lh| == 1 && |Out(pid)| == 1
      ensures forall n: nat | n != blockno :: !Cached(bc.buf, DISK, n)
    {
      hide Bcache.Valid, Among, Taken, Pinned, PinsExactly, Distinct, LogState.Recorded, Cached, Drift, LogState.Here;
      hide OneEach, Comings, Unique, Counted, Dirty, SameBlocks;
      BcacheShape();
      ghost var buf0 := bc.buf;
      var r := Read(pid, blockno, {}, {});
      assert {} + {r.value} == {r.value};
      HereShape(pid, {r.value}, {});
      DriftPins(buf0, bc.buf, {});
      SamePinsExactly(buf0, bc.buf, []);
      OneCached(buf0, bc.buf, r.value, blockno);
      ghost var buf1 := bc.buf;
      var done := LogFirst(pid, r.value);
      SameCached(buf1, bc.buf);
    }

    ghost method RecordWrite(op: nat, n: nat, lh0: seq<nat>)
      requires lh == LogReservation.Absorb(lh0, n)
      modifies this`ops, this`states, this`steps
      ensures ops == if op < |old(ops)| then old(ops)[op := old(ops)[op] + {n}] else old(ops)
      ensures op < |old(ops)| && |ops[op]| <= MAXOPBLOCKS && old(RecordedAs(lh0)) ==> Recorded()
    {
      if op < |ops| {
        if RecordedAs(lh0) { RecordedSafe(lh0); }
        ops := ops[op := ops[op] + {n}];
        Record(LogReservation.Write(op, n), LogReservation.LogSt(lh, ops, false));
      }
    }

    /** The second part of commit, from the header write on. */
    method Seal(pid: nat, ghost data: seq<Block>, ghost readers: set<nat>) returns (ok: bool)
      requires Valid() && Here(pid, {}, readers) && LogData(l, bc.view, |lh|) == data
      modifies this`lh, bc, this`sched, this`peak
      ensures if ok then Here(pid, {}, readers) else peak >= NBUF
      ensures |Dirty(old(bc.buf))| + |readers| < NBUF ==> ok
      ensures old(sched) == [] && |old(Out(pid))| < NBUF ==> ok
      ensures !ok ==> lh == old(lh) || lh == []
      ensures ok ==>
                && Valid() && lh == []
                && Wrote(l, old(bc.disk), old(bc.view), old(bc.writes), bc.disk, bc.view, bc.writes,
                         SealWrites(l, old(bc.view)[l.start], old(lh), data))
    {
      assert Distinct([]);
      hide Bcache.Valid, LogState.Here, LogState.Out, HeadBlock, HomeWrites, Dirty, PinsExactly, Distinct, Among, Wrote;
      hide OneEach, Comings, Counted, Unique, Uninstalled, LogData, SealWrites;
      ghost var disk0, view0, writes0, blocks := bc.disk, bc.view, bc.writes, lh;
      ghost var out0, dirty0, disk1, view1, writes1 := Out(pid), Dirty(bc.buf), bc.disk, bc.view, bc.writes;
      ok, disk1, view1, writes1 := HeadAndInstall(pid, readers);
      if !ok { return; }
      Fewer(pid, out0, dirty0);
      HereShape(pid, {}, readers);
      ghost var disk2, view2, writes2 := bc.disk, bc.view, bc.writes;
      lh := [];
      ok := WriteHead(pid, [], readers);
      if !ok { return; }
      HereShape(pid, {}, readers);
      SealWrote(l, blocks, data, disk0, view0, writes0, disk1, view1, writes1, disk2, view2, writes2,
                bc.disk, bc.view, bc.writes);
    }

    /** The header write and the installation. */
    method HeadAndInstall(pid: nat, ghost readers: set<nat>)
      returns (ok: bool, ghost disk1: Image, ghost view1: Image, ghost writes1: seq<(nat, Block)>)
      requires Valid() && Here(pid, {}, readers)
      modifies bc, this`sched, this`peak
      ensures if ok then Here(pid, {}, readers) else peak >= NBUF
      ensures |Dirty(old(bc.buf))| + |readers| < NBUF ==> ok
      ensures old(sched) == [] ==> sched == [] && (|old(Out(pid))| < NBUF ==> ok)
      ensures ok && old(sched) == [] ==> Out(pid) <= old(Out(pid))
      ensures ok ==>
                && |view1| == l.disk && PinsExactly(bc.buf, []) && Dirty(bc.buf) <= Dirty(old(bc.buf))
                && Wrote(l, old(bc.disk), old(bc.view), old(bc.writes), disk1, view1, writes1,
                         [(l.start, HeadBlock(old(bc.view)[l.start], lh))])
                && Wrote(l, disk1, view1, writes1, bc.disk, bc.view, bc.writes, HomeWrites(lh, LogData(l, view1, |lh|)))
    {
      hide Bcache.Valid, LogState.Here, LogState.Out, HeadBlock, HomeWrites, Dirty, PinsExactly, Distinct, Among, Wrote;
      hide OneEach, Comings, Counted, Unique, Uninstalled, LogData;
      ghost var out0, dirty0 := Out(pid), Dirty(bc.buf);
      disk1, view1, writes1 := bc.disk, bc.view, bc.writes;
      ok := WriteHead(pid, lh, readers);
      if !ok { return; }
      Fewer(pid, out0, dirty0);
      HereShape(pid, {}, readers);
      disk1, view1, writes1 := bc.disk, bc.view, bc.writes;
      UninstalledAll(lh);
      ok := InstallTrans(pid, true, readers);
    }
  }

  /** The header write, the home writes and the clearing of the header, one after the other. */
  lemma SealWrote(l: Layout, blocks: seq<nat>, data: seq<Block>,
                  disk0: Image, view0: Image, writes0: seq<(nat, Block)>,
                  disk1: Image, view1: Image, writes1: seq<(nat, Block)>,
                  disk2: Image, view2: Image, writes2: seq<(nat, Block)>,
                  disk3: Image, view3: Image, writes3: seq<(nat, Block)>)
    requires l.Valid() && l.Loggable(blocks) && |data| == |blocks|
    requires |view0| == |view1| == |view2| == l.disk && LogData(l, view0, |blocks|) == data
    requires Wrote(l, disk0, view0, writes0, disk1, view1, writes1, [(l.start, HeadBlock(view0[l.start], blocks))])
    requires Wrote(l, disk1, view1, writes1, disk2, view2, writes2, HomeWrites(blocks, LogData(l, view1, |blocks|)))
    requires Wrote(l, disk2, view2, writes2, disk3, view3, writes3, [(l.start, HeadBlock(view2[l.start], []))])
    ensures Wrote(l, disk0, view0, writes0, disk3, view3, writes3, SealWrites(l, view0[l.start], blocks, data))
  {
    hide HeadBlock, Apply, HomeWrites;
    var head := HeadBlock(view0[l.start], blocks);
    HeaderOnly(l, view0, head, data);
    InstallKeepsHeader(l, view0[l.start := head], blocks, data);
    SealPhases(l, disk0, blocks, data, head);
    SealPhases(l, view0, blocks, data, head);
    assert writes0 + [(l.start, head)] + HomeWrites(blocks, data) + [(l.start, HeadBlock(head, []))]
        == writes0 + SealWrites(l, view0[l.start], blocks, data);
  }

  /** A run in which commit finds no buffer although the transaction has one block: each of the
      other buffers is in use by a reader, which needs no transaction of its own. */
  method ReadersStopCommit(disk: Image) returns (log: LogState, ok: bool)
    requires |disk| == 100
    ensures !ok
  {
    log := OneLogged(disk);
    ghost var readers := Interval(1, NBUF);
    log.MoreReaders(0, readers);
    var k := 1;
    while k < NBUF
      invariant 1 <= k <= NBUF && fresh(log) && fresh(log.bc) && log.sched == []
      invariant log.Valid() && log.AmongReaders(0, {}) && |log.lh| == 1 && |log.Out(0)| == k
      invariant log.Crowd(0, readers) && forall q: nat | q >= k :: !log.Using(q)
      invariant log.l == Layout(2, 31, 100)
      invariant forall n: nat | 40 + k <= n :: !Cached(log.bc.buf, DISK, n)
    {
      log.ReaderEnters(0, k, 40 + k, readers);
      k := k + 1;
    }
    log.OutSize(0);
    ok := log.Commit(0, readers);
  }

  /** Process 0 logs block 40 on a new system. */
  method OneLogged(disk: Image) returns (log: LogState)
    requires |disk| == 100
    ensures fresh(log) && fresh(log.bc) && log.l == Layout(2, 31, 100)
    ensures log.Valid() && log.Here(0, {}, {}) && log.sched == [] && |log.lh| == 1 && |log.Out(0)| == 1
    ensures forall n: nat | 41 <= n :: !Cached(log.bc.buf, DISK, n)
  {
    hide LogState.Recorded, LogState.Here, LogState.Out, Cached, Bcache.Valid, PinsExactly, Distinct;
    log := Start(0, Layout(2, 31, 100), disk);
    var entered := log.BeginOp();
    log.ReadAndLog(0, 40);
  }

  lemma OneCached(before: seq<Buf>, after: seq<Buf>, b: nat, blockno: nat)
    requires b < |before| == |after| && after == before[b := after[b]] && Holds(after[b], DISK, blockno)
    requires forall n: nat :: !Cached(before, DISK, n)
    ensures forall n: nat | n != blockno :: !Cached(after, DISK, n)
  {
    forall n: nat | n != blockno ensures !Cached(after, DISK, n) {
      assert !Cached(before, DISK, n);
    }
  }

  lemma SameCached(before: seq<Buf>, after: seq<Buf>)
    requires SameBlocks(before, after)
    ensures forall n: nat :: Cached(after, DISK, n) <==> Cached(before, DISK, n)
  {
    forall n: nat ensures Cached(after, DISK, n) <==> Cached(before, DISK, n) {
      if i :| 0 <= i < |before| && Holds(before[i], DISK, n) {
        assert Holds(after[i], DISK, n);
      }
    }
  }

  /** binit and the start of initlog: nothing is cached and nobody uses a buffer. */
  method Start(pid: nat, l: Layout, disk: Image) returns (log: LogState)
    requires l.Valid() && |disk| == l.disk
    ensures fresh(log) && fresh(log.bc) && log.l == l && log.lh == [] && log.outstanding == 0 && !log.committing
    ensures log.Valid() && log.Recorded() && log.Here(pid, {}, {}) && log.sched == [] && log.Out(pid) == {}
    ensures log.bc.disk == log.bc.view == disk
    ensures |log.bc.buf| == NBUF && Reusable(log.bc.buf[0]) && forall n: nat :: !Cached(log.bc.buf, DISK, n)
  {
    var bc := new Bcache(disk);
    log := new LogState(bc, l);
    NothingCached(bc.buf);
  }

  lemma NothingCached(buf: seq<Buf>)
    requires forall i | 0 <= i < |buf| :: buf[i].dev == 0
    ensures PinsExactly(buf, []) && forall n: nat :: !Cached(buf, DISK, n)
  {
  }

  /** binit and initlog on the image a crash left behind: if that image recovers to h, the
      running system starts with exactly the home blocks h. */
  method Boot(pid: nat, l: Layout, disk: Image, ghost h: Image) returns (log: LogState)
    requires RecoversTo(l, disk, h)
    ensures fresh(log) && fresh(log.bc) && log.Valid() && log.l == l && log.lh == []
    ensures Clean(l, log.bc.disk, h) && SameHome(l, log.bc.view, h)
  {
    log := Start(pid, l, disk);
    RecoverStep(l, disk, h, 0);
    log.RecoverFromLog(pid);
  }

  /** The disk and the block map have both undergone the writes ws. */
  ghost predicate Wrote(l: Layout, disk: Image, view: Image, writes: seq<(nat, Block)>,
                        disk': Image, view': Image, writes': seq<(nat, Block)>, ws: seq<(nat, Block)>) {
    && |disk| == |view| == l.disk && (forall w | w in ws :: w.0 < l.disk)
    && disk' == Apply(disk, ws) && view' == Apply(view, ws) && writes' == writes + ws
  }

  lemma WroteOne(l: Layout, disk: Image, view: Image, ws: seq<(nat, Block)>, k: nat)
    requires |disk| == |view| == l.disk && k < |ws| && forall w | w in ws :: w.0 < l.disk
    ensures ws[k].0 < l.disk
    ensures Apply(disk, ws[..k + 1]) == Apply(disk, ws[..k])[ws[k].0 := ws[k].1]
    ensures Apply(view, ws[..k + 1]) == Apply(view, ws[..k])[ws[k].0 := ws[k].1]
    ensures ws[..k + 1] == ws[..k] + [ws[k]]
  {
    assert ws[..k + 1][..k] == ws[..k];
  }

  /** One more home block installed. */
  lemma InstalledMore(l: Layout, disk0: Image, view0: Image, writes0: seq<(nat, Block)>,
                      disk: Image, view: Image, writes: seq<(nat, Block)>, blocks: seq<nat>, k: nat,
                      disk': Image, view': Image, writes': seq<(nat, Block)>)
    requires l.Valid() && |view0| == l.disk && l.Loggable(blocks) && k < |blocks|
    requires var ws := HomeWrites(blocks, LogData(l, view0, |blocks|));
             Wrote(l, disk0, view0, writes0, disk, view, writes, ws[..k])
    requires |disk| == |view| == l.disk
    requires var (b, data) := (blocks[k], view[l.start + k + 1]);
             disk' == disk[b := data] && view' == view[b := data] && writes' == writes + [(b, data)]
    ensures var ws := HomeWrites(blocks, LogData(l, view0, |blocks|));
            Wrote(l, disk0, view0, writes0, disk', view', writes', ws[..k + 1])
  {
    var ws := HomeWrites(blocks, LogData(l, view0, |blocks|));
    assert ws[k] == (blocks[k], view0[l.start + k + 1]);
    assert forall i | 0 <= i < |ws| :: ws[i].0 == blocks[i];
    hide HomeWrites, LogData, Apply;
    ApplyOther(view0, ws[..k], l.start + k + 1);
    WroteOne(l, disk0, view0, ws, k);
  }

  lemma PinnedMore(before: seq<Buf>, after: seq<Buf>, b: nat, blocks: seq<nat>, blocks': seq<nat>)
    requires b < |before| && before[b].dev == DISK && after == before[b := before[b].(dirty := true)]
    requires PinsExactly(before, blocks) && blocks' == LogReservation.Absorb(blocks, before[b].blockno)
    ensures PinsExactly(after, blocks')
  {
    assert after[b].dirty && Holds(after[b], DISK, before[b].blockno);
    forall n: nat ensures Pinned(after, n) <==> n in blocks' {
      if Pinned(before, n) {
        var i :| 0 <= i < |before| && before[i].dirty && Holds(before[i], DISK, n);
        assert after[i].dirty && Holds(after[i], DISK, n);
      }
      if Pinned(after, n) {
        var i :| 0 <= i < |after| && after[i].dirty && Holds(after[i], DISK, n);
        if i != b {
          assert before[i].dirty && Holds(before[i], DISK, n);
        }
      }
    }
  }

  /** The blocks still pinned when install_trans stands at tail. */
  ghost function Uninstalled(blocks: seq<nat>, tail: nat, commit: bool): (r: seq<nat>)
    requires tail <= |blocks|
    ensures |r| <= |blocks|
  {
    if commit then blocks[tail..] else []
  }

  lemma UninstalledAll(blocks: seq<nat>)
    ensures Uninstalled(blocks, 0, true) == blocks
  {
  }

  lemma UninstalledNone(blocks: seq<nat>)
    ensures Uninstalled(blocks, 0, false) == []
  {
  }

  lemma AllInstalled(blocks: seq<nat>, commit: bool)
    ensures Uninstalled(blocks, |blocks|, commit) == []
  {
  }

  lemma InstallPins(buf: seq<Buf>, l: Layout, blocks: seq<nat>, tail: nat, commit: bool)
    requires tail < |blocks| && l.Loggable(blocks) && PinsExactly(buf, Uninstalled(blocks, tail, commit))
    ensures l.Loggable(Uninstalled(blocks, tail, commit)) && (commit ==> Pinned(buf, blocks[tail]))
  {
    if commit {
      assert blocks[tail..][0] == blocks[tail];
    }
  }

  lemma InstalledPins(buf: seq<Buf>, buf': seq<Buf>, blocks: seq<nat>, tail: nat, commit: bool)
    requires tail < |blocks| && (commit ==> Distinct(blocks)) && PinsExactly(buf, Uninstalled(blocks, tail, commit))
    requires forall n: nat :: Pinned(buf', n) <==> Pinned(buf, n) && n != blocks[tail]
    ensures PinsExactly(buf', Uninstalled(blocks, tail + 1, commit))
  {
    if commit {
      assert blocks[tail..] == [blocks[tail]] + blocks[tail + 1..];
    }
  }

  lemma WroteNothing(l: Layout, disk: Image, view: Image, writes: seq<(nat, Block)>, ws: seq<(nat, Block)>)
    requires |disk| == |view| == l.disk
    ensures Wrote(l, disk, view, writes, disk, view, writes, ws[..0])
  {
  }

  lemma WroteSingle(l: Layout, disk: Image, view: Image, w: (nat, Block))
    requires |disk| == |view| == l.disk && w.0 < l.disk
    ensures Apply(disk, [w]) == disk[w.0 := w.1] && Apply(view, [w]) == view[w.0 := w.1]
  {
    assert [w][..0] == [];
  }

  /** One more block copied into the log. */
  lemma LoggedMore(l: Layout, disk0: Image, view0: Image, writes0: seq<(nat, Block)>,
                   disk: Image, view: Image, writes: seq<(nat, Block)>, blocks: seq<nat>, data: seq<Block>, k: nat,
                   disk': Image, view': Image, writes': seq<(nat, Block)>)
    requires l.Valid() && |view0| == l.disk && l.Loggable(blocks) && k < |blocks| == |data|
    requires Wrote(l, disk0, view0, writes0, disk, view, writes, LogWrites(l, data)[..k])
    requires |disk| == |view| == l.disk && data[k] == view0[blocks[k]]
    requires var (b, x) := (l.start + k + 1, view[blocks[k]]);
             disk' == disk[b := x] && view' == view[b := x] && writes' == writes + [(b, x)]
    ensures Wrote(l, disk0, view0, writes0, disk', view', writes', LogWrites(l, data)[..k + 1])
  {
    ApplyOther(view0, LogWrites(l, data)[..k], blocks[k]);
    WroteOne(l, disk0, view0, LogWrites(l, data), k);
  }

  /** After write_log the header block is untouched and the log shows the pending data. */
  lemma LoggedView(l: Layout, view: Image, view': Image, blocks: seq<nat>, data: seq<Block>)
    requires l.Valid() && |view| == l.disk && l.Loggable(blocks) && |data| == |blocks|
    requires forall w | w in LogWrites(l, data) :: w.0 < l.disk
    requires view' == Apply(view, LogWrites(l, data))
    ensures view'[l.start] == view[l.start] && LogData(l, view', |blocks|) == data
  {
    ApplyOther(view, LogWrites(l, data), l.start);
    LogHolds(l, view, data, view[l.start]);
    assert view'[l.start := view[l.start]] == view';
  }

  /** Writing the header block leaves the log's data alone. */
  lemma HeaderOnly(l: Layout, view: Image, head: Block, data: seq<Block>)
    requires l.Valid() && |view| == l.disk && |data| + 1 <= l.size && LogData(l, view, |data|) == data
    ensures Apply(view, [(l.start, head)]) == view[l.start := head]
    ensures LogData(l, view[l.start := head], |data|) == data
  {
    WroteSingle(l, view, view, (l.start, head));
  }

  lemma SealPhases(l: Layout, d: Image, blocks: seq<nat>, data: seq<Block>, head: Block)
    requires l.Valid() && |d| == l.disk && l.Loggable(blocks) && |blocks| == |data|
    ensures var clear := [(l.start, HeadBlock(head, []))];
            Apply(Apply(Apply(d, [(l.start, head)]), HomeWrites(blocks, data)), clear)
            == Apply(d, [(l.start, head)] + HomeWrites(blocks, data) + clear)
  {
    ApplyAppend(d, [(l.start, head)] + HomeWrites(blocks, data), [(l.start, HeadBlock(head, []))]);
    ApplyAppend(d, [(l.start, head)], HomeWrites(blocks, data));
  }

  lemma InstallKeepsHeader(l: Layout, view: Image, blocks: seq<nat>, data: seq<Block>)
    requires l.Valid() && |view| == l.disk && l.Loggable(blocks) && |data| == |blocks|
    ensures Apply(view, HomeWrites(blocks, data))[l.start] == view[l.start]
  {
    assert HomeWrites(blocks, data)[..|blocks|] == HomeWrites(blocks, data);
    InstallKeepsLog(l, view, blocks, data, |blocks|);
  }

  /** write_log and the rest of commit add up to CommitWrites. */
  lemma CommitDisk(l: Layout, disk: Image, blocks: seq<nat>, data: seq<Block>)
    requires l.Valid() && |disk| == l.disk && l.Loggable(blocks) && |data| == |blocks| && blocks != []
    ensures forall w | w in LogWrites(l, data) :: w.0 < l.disk
    ensures LogWrites(l, data) + SealWrites(l, disk[l.start], blocks, data) == CommitWrites(l, disk, blocks, data)
    ensures Apply(Apply(disk, LogWrites(l, data)), SealWrites(l, disk[l.start], blocks, data))
            == Apply(disk, CommitWrites(l, disk, blocks, data))
  {
    ApplyAppend(disk, LogWrites(l, data), SealWrites(l, disk[l.start], blocks, data));
  }

  /** Committing does not change what any home block holds, as the file system sees it. */
  lemma CommitView(l: Layout, view: Image, blocks: seq<nat>, data: seq<Block>)
    requires l.Valid() && |view| == l.disk && l.Loggable(blocks) && |data| == |blocks|
    requires forall i | 0 <= i < |blocks| :: data[i] == view[blocks[i]]
    ensures forall w | w in LogWrites(l, data) :: w.0 < l.disk
    ensures SameHome(l, Apply(Apply(view, LogWrites(l, data)), SealWrites(l, view[l.start], blocks, data)), view)
  {
    hide HeadBlock, Apply;
    var view1 := Apply(view, LogWrites(l, data));
    var head := HeadBlock(view[l.start], blocks);
    SealPhases(l, view1, blocks, data, head);
    WroteSingle(l, view1, view1, (l.start, head));
    var view2 := view1[l.start := head];
    var view3 := Apply(view2, HomeWrites(blocks, data));
    WroteSingle(l, view3, view3, (l.start, HeadBlock(head, [])));
    forall b | 0 <= b < l.disk && l.Home(b) ensures view3[b] == view[b] {
      ApplyOther(view, LogWrites(l, data), b);
      SameData(view2, blocks, data, b);
    }
  }

  /** Writing blocks with the contents they already have changes nothing. */
  lemma {:induction false} SameData(view: Image, blocks: seq<nat>, data: seq<Block>, b: nat)
    requires |blocks| == |data| && b < |view|
    requires forall i | 0 <= i < |blocks| :: blocks[i] < |view| && (blocks[i] == b ==> data[i] == view[b])
    ensures Apply(view, HomeWrites(blocks, data))[b] == view[b]
  {
    if blocks != [] {
      var n := |blocks| - 1;
      assert HomeWrites(blocks, data)[..n] == HomeWrites(blocks[..n], data[..n]);
      SameData(view, blocks[..n], data[..n], b);
    }
  }
}
