/** fork, exit, wait, sleep, wakeup and kill over the process table, each as the one critical
    section it runs under ptable.lock. */
module Processes {
  import opened Options
  import opened Mlfq

  /** What a process sleeps on: a process (only wait() does that, on the caller), or an object. */
  datatype Chan = NoChan | OnProc(proc: nat) | OnObject(id: nat)

  datatype Proc = Proc(state: ProcState, pid: nat, parent: Option<nat>, chan: Chan, killed: bool)

  datatype Waited = Reaped(pid: nat) | NoChildren | Slept

  /** A process that can run user code again: it can be a parent. */
  predicate Live(p: Proc) {
    p.state == SLEEPING || p.state == RUNNABLE || p.state == RUNNING
  }

  /** p is blocked in wait(). */
  predicate Waiting(t: seq<Proc>, p: nat)
    requires p < |t|
  {
    t[p].state == SLEEPING && t[p].chan == OnProc(p)
  }

  predicate ChildOf(t: seq<Proc>, q: nat, p: nat)
    requires q < |t|
  {
    t[q].parent == Some(p)
  }

  /** No lost wakeup between exit() and wait(). */
  ghost predicate NoneForgotten(t: seq<Proc>) {
    forall p: nat, q: nat | p < |t| && q < |t| && Waiting(t, p) && ChildOf(t, q, p) :: t[q].state != ZOMBIE
  }

  /** Every process but init has a live parent; unused slots have none. */
  ghost predicate Adopted(t: seq<Proc>, init: nat) {
    && init < |t| && Live(t[init]) && t[init].parent == None
    && (forall q: nat | q < |t| && t[q].parent.Some? :: t[q].parent.value < |t| && Live(t[t[q].parent.value]))
    && (forall q: nat | q < |t| && q != init :: t[q].state == UNUSED <==> t[q].parent == None)
  }

  /** Ranks that grow from parent to child: the parent relation has no cycle. */
  ghost predicate Ranked(t: seq<Proc>, init: nat, rank: seq<nat>) {
    && |rank| == |t| && init < |t| && rank[init] == 0
    && (forall q: nat | q < |t| && t[q].parent.Some? :: t[q].parent.value < |t| && rank[t[q].parent.value] < rank[q])
  }

  /** Process ids: the live ones are positive, and no two slots share one. */
  ghost predicate Named(t: seq<Proc>, nextpid: nat) {
    && nextpid > 0
    && (forall i: nat | i < |t| :: t[i].pid < nextpid && (t[i].state != UNUSED ==> t[i].pid > 0))
    && (forall i: nat, j: nat | i < |t| && j < |t| && i != j && t[i].pid > 0 :: t[i].pid != t[j].pid)
  }

  /** Only wait() sleeps on a process, and only on itself. */
  ghost predicate OwnChannel(t: seq<Proc>) {
    forall p: nat | p < |t| && t[p].state == SLEEPING && t[p].chan.OnProc? :: t[p].chan == OnProc(p)
  }

  ghost predicate Good(t: seq<Proc>, init: nat, nextpid: nat, rank: seq<nat>) {
    |t| == NPROC && Adopted(t, init) && Ranked(t, init, rank) && Named(t, nextpid) && OwnChannel(t)
  }

  // ----- what each operation does to one slot -----

  function Wake(p: Proc, chan: Chan): Proc {
    if p.state == SLEEPING && p.chan == chan then p.(state := RUNNABLE) else p
  }

  /** Marked, and awake. */
  function Killed(p: Proc): Proc {
    p.(killed := true, state := if p.state == SLEEPING then RUNNABLE else p.state)
  }

  /** The first i slots as wakeup1(chan) leaves them. */
  ghost predicate WokenTo(t: seq<Proc>, u: seq<Proc>, chan: Chan, i: nat) {
    |u| == |t| && forall k | 0 <= k < |t| :: u[k] == if k < i then Wake(t[k], chan) else t[k]
  }

  /** q is the first unused slot, or NPROC if there is none. */
  ghost predicate FirstUnused(t: seq<Proc>, q: nat) {
    |t| == NPROC && q <= NPROC && (forall i: nat | i < q :: t[i].state != UNUSED)
      && (q < NPROC ==> t[q].state == UNUSED)
  }

  /** An abandoned zombie among the first i slots. */
  ghost predicate Abandoned(t: seq<Proc>, cur: nat, i: nat) {
    exists q: nat :: q < |t| && q < i && ZombieChild(t, q, cur)
  }

  predicate ZombieChild(t: seq<Proc>, q: nat, cur: nat)
    requires q < |t|
  {
    ChildOf(t, q, cur) && t[q].state == ZOMBIE
  }

  ghost predicate HasChild(t: seq<Proc>, cur: nat, i: nat) {
    exists q: nat :: q < |t| && q < i && ChildOf(t, q, cur)
  }

  /** Slot k once exit(cur) has passed on the children among the first i slots. */
  ghost function Left(t: seq<Proc>, init: nat, cur: nat, i: nat, k: nat): Proc
    requires k < |t| && cur < |t|
  {
    var p := if t[cur].parent.Some? then Wake(t[k], OnProc(t[cur].parent.value)) else t[k];
    var q := if Abandoned(t, cur, i) then Wake(p, OnProc(init)) else p;
    if k < i && ChildOf(t, k, cur) then q.(parent := Some(init)) else q
  }

  ghost predicate LeftTo(t: seq<Proc>, u: seq<Proc>, init: nat, cur: nat, i: nat) {
    |u| == |t| && cur < |t| && forall k: nat | k < |t| :: u[k] == Left(t, init, cur, i, k)
  }

  /** The table after exit(cur): children passed to init, waiting parents woken, cur a zombie. */
  ghost predicate Exited(t: seq<Proc>, u: seq<Proc>, init: nat, cur: nat) {
    && |u| == |t| && cur < |t|
    && u[cur] == Left(t, init, cur, |t|, cur).(state := ZOMBIE)
    && forall k: nat | k < |t| && k != cur :: u[k] == Left(t, init, cur, |t|, k)
  }

  // ----- the same, field by field -----

  /** From t to u exactly the sleepers on chan have become runnable, and nothing else has changed. */
  ghost predicate OnlyWoken(t: seq<Proc>, u: seq<Proc>, chan: Chan) {
    && |u| == |t|
    && forall k: nat | k < |t| ::
         && u[k].state == (if t[k].state == SLEEPING && t[k].chan == chan then RUNNABLE else t[k].state)
         && u[k].pid == t[k].pid && u[k].parent == t[k].parent && u[k].chan == t[k].chan && u[k].killed == t[k].killed
  }

  /** Slot q is marked killed and does not sleep any more, and nothing else has changed. */
  ghost predicate OnlyKilled(t: seq<Proc>, u: seq<Proc>, q: nat) {
    && |u| == |t| && q < |t| && (forall k: nat | k < |t| && k != q :: u[k] == t[k])
    && u[q].killed && u[q].state == (if t[q].state == SLEEPING then RUNNABLE else t[q].state)
    && u[q].pid == t[q].pid && u[q].parent == t[q].parent && u[q].chan == t[q].chan
  }

  /** cur is a zombie and its children are init's. Woken are its parent, if it waits, and init, if it
      waits and inherits a zombie. Nothing else has changed. */
  ghost predicate OnlyExited(t: seq<Proc>, u: seq<Proc>, init: nat, cur: nat) {
    && |u| == |t| && cur < |t| && u[cur].state == ZOMBIE
    && (forall k: nat | k < |t| ::
          && u[k].pid == t[k].pid && u[k].chan == t[k].chan && u[k].killed == t[k].killed
          && u[k].parent == if t[k].parent == Some(cur) then Some(init) else t[k].parent)
    && (forall k: nat | k < |t| && k != cur ::
          var woken := || (t[cur].parent.Some? && t[k].chan == OnProc(t[cur].parent.value))
                       || (t[k].chan == OnProc(init)
                           && exists q: nat :: q < |t| && t[q].state == ZOMBIE && t[q].parent == Some(cur));
          u[k].state == if t[k].state == SLEEPING && woken then RUNNABLE else t[k].state)
  }

  lemma ExitedFields(t: seq<Proc>, u: seq<Proc>, init: nat, cur: nat)
    requires Exited(t, u, init, cur)
    ensures OnlyExited(t, u, init, cur)
  {
    assert Abandoned(t, cur, |t|) <==> exists q: nat :: q < |t| && t[q].state == ZOMBIE && t[q].parent == Some(cur) by {
      if q: nat :| q < |t| && t[q].state == ZOMBIE && t[q].parent == Some(cur) {
        assert ZombieChild(t, q, cur);
      }
    }
    hide Abandoned;
  }

  class ProcTable {
    var proc: seq<Proc>
    var nextpid: nat
    const initproc: nat
    ghost var rank: seq<nat>

    ghost predicate Valid()
      reads this
    {
      Good(proc, initproc, nextpid, rank) && NoneForgotten(proc)
    }

    /** userinit: one runnable process, without a parent. */
    constructor ()
      ensures Valid() && proc[initproc] == Proc(RUNNABLE, 1, None, NoChan, false) && nextpid == 2
      ensures forall i | 0 <= i < NPROC && i != initproc :: proc[i] == Proc(UNUSED, 0, None, NoChan, false)
    {
      var unused := Proc(UNUSED, 0, None, NoChan, false);
      proc := seq(NPROC, i => if i == 0 then Proc(RUNNABLE, 1, None, NoChan, false) else unused);
      nextpid := 2;
      initproc := 0;
      rank := seq(NPROC, i => 0);
    }

    /** wakeup1: every sleeper on chan, and nobody else, becomes runnable. */
    method Wakeup1(chan: Chan)
      modifies this`proc
      ensures WokenTo(old(proc), proc, chan, |proc|) && OnlyWoken(old(proc), proc, chan)
    {
      var i := 0;
      while i < |proc|
        invariant i <= |proc| && WokenTo(old(proc), proc, chan, i)
      {
        if proc[i].state == SLEEPING && proc[i].chan == chan {
          proc := proc[i := proc[i].(state := RUNNABLE)];
        }
        i := i + 1;
      }
    }

    method Exit(cur: nat) returns (panic: bool)
      requires Valid() && cur < NPROC && proc[cur].state == RUNNING
      modifies this`proc
      ensures Valid()
      ensures panic == (cur == initproc)
      ensures panic ==> proc == old(proc)
      ensures !panic ==> Exited(old(proc), proc, initproc, cur) && OnlyExited(old(proc), proc, initproc, cur)
    {
      hide OnlyExited;
      hide Good, NoneForgotten;
      ghost var t := proc;
      Sizes(t, initproc, nextpid, rank);
      if cur == initproc {
        return true;
      }
      panic := false;
      HasParent(t, initproc, nextpid, rank, cur);
      Wakeup1(OnProc(proc[cur].parent.value));
      var p := 0;
      StartLeaving(t, proc, initproc, cur);
      while p < NPROC
        invariant p <= NPROC && LeftTo(t, proc, initproc, cur, p) && |t| == NPROC
      {
        ghost var u := proc;
        if proc[p].parent == Some(cur) {
          proc := proc[p := proc[p].(parent := Some(initproc))];
          if proc[p].state == ZOMBIE {
            Wakeup1(OnProc(initproc));
          }
        }
        LeaveStep(t, u, proc, initproc, cur, p);
        p := p + 1;
      }
      ExitLeaves(t, proc, initproc, nextpid, rank, cur);
      proc := proc[cur := proc[cur].(state := ZOMBIE)];
      ExitedFields(t, proc, initproc, cur);
    }

    /** One pass of wait()'s loop: it reaps the first zombie child, gives up, or sleeps, and it
        sleeps only when it has children and none of them is a zombie. */
    method Wait(cur: nat) returns (r: Waited, ghost q: nat)
      requires Valid() && cur < NPROC && proc[cur].state == RUNNING
      modifies this`proc
      ensures Valid()
      ensures r.Reaped? <==> Abandoned(old(proc), cur, NPROC)
      ensures r.Reaped? ==> q < NPROC && ZombieChild(old(proc), q, cur) && !Abandoned(old(proc), cur, q)
                            && r.pid == old(proc)[q].pid
                            && var p := old(proc)[q];
                               proc == old(proc)[q := p.(state := UNUSED, pid := 0, parent := None, killed := false)]
      ensures r.NoChildren? ==> proc == old(proc) && (!HasChild(old(proc), cur, NPROC) || old(proc)[cur].killed)
      ensures r.Slept? ==> HasChild(old(proc), cur, NPROC) && !old(proc)[cur].killed
                           && proc == old(proc)[cur := old(proc)[cur].(state := SLEEPING, chan := OnProc(cur))]
    {
      hide Good, NoneForgotten, Abandoned, HasChild, SameTree;
      ghost var t := proc;
      Sizes(t, initproc, nextpid, rank);
      q := 0;
      NoChildYet(t, cur);
      var havekids := false;
      var p := 0;
      while p < NPROC
        invariant p <= NPROC && proc == t && |t| == NPROC
        invariant havekids <==> HasChild(t, cur, p)
        invariant !Abandoned(t, cur, p)
      {
        if proc[p].parent == Some(cur) {
          havekids := true;
          if proc[p].state == ZOMBIE {
            r := Reaped(proc[p].pid);
            q := p;
            AbandonedStep(t, cur, p);
            AbandonedMore(t, cur, p + 1);
            ReapKeeps(t, initproc, nextpid, rank, p, cur);
            proc := proc[p := proc[p].(state := UNUSED, pid := 0, parent := None, killed := false)];
            return;
          }
        }
        AbandonedStep(t, cur, p);
        p := p + 1;
      }
      if !havekids || proc[cur].killed {
        return NoChildren, 0;
      }
      proc := proc[cur := proc[cur].(state := SLEEPING, chan := OnProc(cur))];
      SleepSameTree(t, initproc, nextpid, rank, cur);
      SameTreeKeeps(t, proc, initproc, nextpid, rank);
      r := Slept;
    }

    method FindUnused() returns (np: nat)
      requires |proc| == NPROC
      ensures FirstUnused(proc, np)
    {
      np := 0;
      while np < NPROC && proc[np].state != UNUSED
        invariant np <= NPROC && forall i: nat | i < np :: proc[i].state != UNUSED
      {
        np := np + 1;
      }
    }

    /** fork: the first unused slot becomes a runnable child of cur. `stack` and `space` are the
        outcomes of allocating its kernel stack and copying its memory. The child takes over the
        slot's killed flag, which nothing in fork clears. */
    method Fork(cur: nat, stack: bool, space: bool) returns (pid: int, ghost q: nat)
      requires Valid() && cur < NPROC && proc[cur].state == RUNNING
      modifies this`proc, this`nextpid, this`rank
      ensures Valid()
      ensures FirstUnused(old(proc), q)
      ensures q == NPROC ==> pid == -1 && proc == old(proc) && nextpid == old(nextpid)
      ensures q < NPROC ==> nextpid == old(nextpid) + 1
      ensures q < NPROC && stack && space ==>
                pid == old(nextpid)
                && var p := old(proc)[q];
                   proc == old(proc)[q := Proc(RUNNABLE, old(nextpid), Some(cur), p.chan, p.killed)]
      ensures q < NPROC && !(stack && space) ==>
                pid == -1 && proc == old(proc)[q := old(proc)[q].(pid := old(nextpid))]
    {
      hide Good, NoneForgotten, FirstUnused;
      ghost var t := proc;
      Sizes(t, initproc, nextpid, rank);
      var np := FindUnused();
      UnusedSlot(t, np);
      q := np;
      if np == NPROC {
        return -1, q;
      }
      var child := proc[np].(state := EMBRYO, pid := nextpid);
      nextpid := nextpid + 1;
      if !stack || !space {
        proc := proc[np := child.(state := UNUSED)];
        AbortKeeps(t, proc, initproc, nextpid, rank, np);
        return -1, q;
      }
      child := child.(parent := Some(cur));
      pid := child.pid;
      proc := proc[np := child.(state := RUNNABLE)];
      ForkKeeps(t, proc, initproc, nextpid, rank, np, cur);
      rank := rank[np := rank[cur] + 1];
    }

    /** kill: the first slot with that pid is marked and, if asleep, woken. */
    method Kill(pid: nat) returns (ok: bool, ghost q: nat)
      requires Valid()
      modifies this`proc
      ensures Valid()
      ensures ok <==> exists i: nat :: i < NPROC && old(proc)[i].pid == pid
      ensures !ok ==> proc == old(proc)
      ensures ok ==> q < NPROC && old(proc)[q].pid == pid && (forall i: nat | i < q :: old(proc)[i].pid != pid)
                     && proc == old(proc)[q := Killed(old(proc)[q])] && OnlyKilled(old(proc), proc, q)
    {
      hide Good, NoneForgotten, SameTree, OwnChannel;
      ghost var t := proc;
      Sizes(t, initproc, nextpid, rank);
      var p := 0;
      while p < NPROC
        invariant p <= NPROC && proc == t && forall i: nat | i < p :: t[i].pid != pid
      {
        if proc[p].pid == pid {
          proc := proc[p := proc[p].(killed := true)];
          if proc[p].state == SLEEPING {
            proc := proc[p := proc[p].(state := RUNNABLE)];
          }
          KillSameTree(t, initproc, nextpid, rank, p);
          assert proc == t[p := Killed(t[p])];
          SameTreeKeeps(t, proc, initproc, nextpid, rank);
          return true, p;
        }
        p := p + 1;
      }
      return false, 0;
    }

    /** wakeup on an object. */
    method Wakeup(chan: Chan)
      requires Valid()
      modifies this`proc
      ensures Valid() && WokenTo(old(proc), proc, chan, NPROC) && OnlyWoken(old(proc), proc, chan)
    {
      hide NoneForgotten;
      Wakeup1(chan);
      SameTreeKeeps(old(proc), proc, initproc, nextpid, rank);
    }

    /** sleep on an object, up to sched(). */
    method Sleep(cur: nat, id: nat)
      requires Valid() && cur < NPROC && proc[cur].state == RUNNING
      modifies this`proc
      ensures Valid() && proc == old(proc)[cur := old(proc)[cur].(state := SLEEPING, chan := OnObject(id))]
    {
      hide NoneForgotten;
      proc := proc[cur := proc[cur].(state := SLEEPING, chan := OnObject(id))];
      SameTreeKeeps(old(proc), proc, initproc, nextpid, rank);
    }

    /** The scheduler picks p, which forgets what it slept on. */
    method Dispatch(p: nat)
      requires Valid() && p < NPROC && proc[p].state == RUNNABLE
      modifies this`proc
      ensures Valid() && proc == old(proc)[p := old(proc)[p].(state := RUNNING, chan := NoChan)]
    {
      hide NoneForgotten;
      proc := proc[p := proc[p].(state := RUNNING, chan := NoChan)];
      SameTreeKeeps(old(proc), proc, initproc, nextpid, rank);
    }

    method Yield(cur: nat)
      requires Valid() && cur < NPROC && proc[cur].state == RUNNING
      modifies this`proc
      ensures Valid() && proc == old(proc)[cur := old(proc)[cur].(state := RUNNABLE)]
    {
      hide NoneForgotten;
      proc := proc[cur := proc[cur].(state := RUNNABLE)];
      SameTreeKeeps(old(proc), proc, initproc, nextpid, rank);
    }
  }

  /** A killed flag that outlives kill(0): pid 0 is that of every free slot, so the call marks one
      of them and succeeds, and the next child is born killed. */
  method StaleKill() returns (t: ProcTable, ghost q: nat)
    ensures fresh(t) && t.Valid() && q < NPROC && t.proc[q].killed && t.proc[q].state == RUNNABLE
  {
    t := new ProcTable();
    assert |t.proc| == NPROC && t.proc[t.initproc].pid > 0;
    hide Good, NoneForgotten;
    var free := if t.initproc == 0 then 1 else 0;
    assert t.proc[free].pid == 0;
    ghost var boot := t.proc;
    var ok, slot := t.Kill(0);
    assert slot != t.initproc && forall i: nat | i < slot :: boot[i].state != UNUSED;
    t.Dispatch(t.initproc);
    assert |t.proc| == NPROC && t.proc[slot].state == UNUSED && t.proc[slot].killed;
    assert forall i: nat | i < slot :: t.proc[i].state != UNUSED;
    var pid, child := t.Fork(t.initproc, true, true);
    assert child == slot;
    q := child;
  }

  lemma Sizes(t: seq<Proc>, init: nat, nextpid: nat, rank: seq<nat>)
    requires Good(t, init, nextpid, rank)
    ensures |t| == |rank| == NPROC
  {
  }

  lemma UnusedSlot(t: seq<Proc>, q: nat)
    requires FirstUnused(t, q)
    ensures |t| == NPROC && q <= NPROC && (q < NPROC ==> t[q].state == UNUSED)
  {
  }

  lemma HasParent(t: seq<Proc>, init: nat, nextpid: nat, rank: seq<nat>, cur: nat)
    requires Good(t, init, nextpid, rank) && cur < |t| && cur != init && t[cur].state == RUNNING
    ensures |t| == NPROC && t[cur].parent.Some? && t[cur].parent.value < NPROC && t[cur].parent.value != cur
  {
  }

  lemma StartLeaving(t: seq<Proc>, u: seq<Proc>, init: nat, cur: nat)
    requires cur < |t| && t[cur].parent.Some? && WokenTo(t, u, OnProc(t[cur].parent.value), |u|)
    ensures LeftTo(t, u, init, cur, 0)
  {
  }

  lemma AbandonedStep(t: seq<Proc>, cur: nat, p: nat)
    requires p < |t|
    ensures Abandoned(t, cur, p + 1) <==> Abandoned(t, cur, p) || ZombieChild(t, p, cur)
    ensures HasChild(t, cur, p + 1) <==> HasChild(t, cur, p) || ChildOf(t, p, cur)
  {
    if Abandoned(t, cur, p) {
      var q: nat :| q < |t| && q < p && ZombieChild(t, q, cur);
      assert q < p + 1;
    }
    if HasChild(t, cur, p) {
      var q: nat :| q < |t| && q < p && ChildOf(t, q, cur);
      assert q < p + 1;
    }
  }

  lemma LeaveStep(t: seq<Proc>, u: seq<Proc>, v: seq<Proc>, init: nat, cur: nat, p: nat)
    requires LeftTo(t, u, init, cur, p) && p < |t|
    requires if u[p].parent != Some(cur) then v == u
             else if u[p].state != ZOMBIE then v == u[p := u[p].(parent := Some(init))]
             else WokenTo(u[p := u[p].(parent := Some(init))], v, OnProc(init), |v|)
    ensures LeftTo(t, v, init, cur, p + 1)
  {
    assert u[p] == Left(t, init, cur, p, p);
    AbandonedStep(t, cur, p);
    hide Abandoned;
  }

  /** What exit(cur) leaves of slot k. */
  ghost predicate Survives(t: seq<Proc>, v: seq<Proc>, init: nat, cur: nat, k: nat)
    requires k < |t| == |v| && cur < |t|
  {
    && v[k].pid == t[k].pid && v[k].chan == t[k].chan
    && v[k].parent == (if ChildOf(t, k, cur) then Some(init) else t[k].parent)
    && (k == cur ==> v[k].state == ZOMBIE)
    && (k != cur ==> v[k].state == t[k].state || (t[k].state == SLEEPING && v[k].state == RUNNABLE))
    && (Waiting(v, k) ==> Waiting(t, k) && t[cur].parent != Some(k) && (k == init ==> !Abandoned(t, cur, |t|)))
  }

  ghost predicate AllSurvive(t: seq<Proc>, v: seq<Proc>, init: nat, cur: nat) {
    |v| == |t| && cur < |t| && forall k: nat {:trigger t[k]} {:trigger v[k]} | k < |t| :: Survives(t, v, init, cur, k)
  }

  lemma ExitSurvives(t: seq<Proc>, v: seq<Proc>, init: nat, cur: nat)
    requires Exited(t, v, init, cur)
    ensures AllSurvive(t, v, init, cur)
  {
    hide Abandoned;
    forall k: nat | k < |t| ensures Survives(t, v, init, cur, k) {
      if k == cur {
        assert v[k] == Left(t, init, cur, |t|, k).(state := ZOMBIE);
      } else {
        assert v[k] == Left(t, init, cur, |t|, k);
      }
    }
  }

  lemma ExitKeepsTree(t: seq<Proc>, v: seq<Proc>, init: nat, rank: seq<nat>, cur: nat)
    requires AllSurvive(t, v, init, cur) && Adopted(t, init) && Ranked(t, init, rank)
    requires cur != init && t[cur].state == RUNNING
    ensures Adopted(v, init) && Ranked(v, init, rank)
  {
    hide Abandoned;
    assert forall k: nat | k < |t| && k != cur && Live(t[k]) :: Live(v[k]);
  }

  lemma ExitKeepsNames(t: seq<Proc>, v: seq<Proc>, init: nat, nextpid: nat, cur: nat)
    requires AllSurvive(t, v, init, cur) && Named(t, nextpid) && OwnChannel(t) && t[cur].state == RUNNING
    ensures Named(v, nextpid) && OwnChannel(v)
  {
    hide Abandoned;
  }

  lemma ExitForgetsNone(t: seq<Proc>, v: seq<Proc>, init: nat, cur: nat)
    requires AllSurvive(t, v, init, cur) && NoneForgotten(t) && !ChildOf(t, cur, cur)
    ensures NoneForgotten(v)
  {
    forall p: nat, q: nat | p < |v| && q < |v| && Waiting(v, p) && ChildOf(v, q, p)
      ensures v[q].state != ZOMBIE
    {
      assert ZombieChild(t, q, cur) <==> ChildOf(t, q, cur) && t[q].state == ZOMBIE;
      assert Survives(t, v, init, cur, p) && Survives(t, v, init, cur, q);
    }
  }

  lemma ExitLeaves(t: seq<Proc>, u: seq<Proc>, init: nat, nextpid: nat, rank: seq<nat>, cur: nat)
    requires Good(t, init, nextpid, rank) && NoneForgotten(t) && LeftTo(t, u, init, cur, NPROC)
    requires cur != init && t[cur].state == RUNNING
    ensures Exited(t, u[cur := u[cur].(state := ZOMBIE)], init, cur)
    ensures Good(u[cur := u[cur].(state := ZOMBIE)], init, nextpid, rank)
    ensures NoneForgotten(u[cur := u[cur].(state := ZOMBIE)])
  {
    hide Left, NoneForgotten, Adopted, Ranked, Named, OwnChannel, AllSurvive;
    var v := u[cur := u[cur].(state := ZOMBIE)];
    HasParent(t, init, nextpid, rank, cur);
    ExitSurvives(t, v, init, cur);
    ExitKeepsTree(t, v, init, rank, cur);
    ExitKeepsNames(t, v, init, nextpid, cur);
    ExitForgetsNone(t, v, init, cur);
  }

  /** Slots keep their pid and parent and stay live or stay dead, and nobody starts to wait with
      a zombie child. */
  ghost predicate SameTree(t: seq<Proc>, u: seq<Proc>) {
    && |u| == |t|
    && forall k: nat {:trigger t[k]} {:trigger u[k]} | k < |t| ::
         && u[k].pid == t[k].pid && u[k].parent == t[k].parent
         && (u[k].state == t[k].state || (Live(t[k]) && Live(u[k])))
         && (u[k].state == SLEEPING && u[k].chan.OnProc? ==> u[k].chan == OnProc(k))
         && (Waiting(u, k) ==> Waiting(t, k) || !Abandoned(t, k, |t|))
  }

  lemma KillSameTree(t: seq<Proc>, init: nat, nextpid: nat, rank: seq<nat>, q: nat)
    requires q < |t| && Good(t, init, nextpid, rank)
    ensures SameTree(t, t[q := Killed(t[q])])
  {
  }

  lemma SleepSameTree(t: seq<Proc>, init: nat, nextpid: nat, rank: seq<nat>, cur: nat)
    requires cur < |t| && Good(t, init, nextpid, rank) && t[cur].state == RUNNING && !Abandoned(t, cur, |t|)
    ensures SameTree(t, t[cur := t[cur].(state := SLEEPING, chan := OnProc(cur))])
  {
    hide Abandoned;
  }

  lemma SameTreeKeeps(t: seq<Proc>, u: seq<Proc>, init: nat, nextpid: nat, rank: seq<nat>)
    requires Good(t, init, nextpid, rank) && NoneForgotten(t) && SameTree(t, u)
    ensures Good(u, init, nextpid, rank) && NoneForgotten(u)
  {
    forall p: nat, q: nat | p < |u| && q < |u| && Waiting(u, p) && ChildOf(u, q, p)
      ensures u[q].state != ZOMBIE
    {
      assert u[q].parent == t[q].parent;
      assert ZombieChild(t, q, p) <==> ZombieChild(u, q, p);
    }
  }

  /** t and u differ at slot q alone. */
  ghost predicate OneSlot(t: seq<Proc>, u: seq<Proc>, q: nat) {
    |u| == |t| && q < |t| && forall k: nat {:trigger t[k]} {:trigger u[k]} | k < |t| && k != q :: u[k] == t[k]
  }

  /** A slot that is nobody's parent, before and after. */
  lemma SlotKeepsTree(t: seq<Proc>, u: seq<Proc>, init: nat, rank: seq<nat>, r: nat, q: nat)
    requires Adopted(t, init) && Ranked(t, init, rank) && OneSlot(t, u, q) && !Live(t[q])
    requires u[q].state == UNUSED <==> u[q].parent == None
    requires u[q].parent.Some? ==> u[q].parent.value < |t| && Live(t[u[q].parent.value]) && rank[u[q].parent.value] < r
    ensures Adopted(u, init) && Ranked(u, init, rank[q := r])
  {
    assert forall k: nat | k < |t| && t[k].parent.Some? :: t[k].parent.value != q;
  }

  lemma SlotKeepsNames(t: seq<Proc>, u: seq<Proc>, nextpid: nat, next: nat, q: nat)
    requires Named(t, nextpid) && OwnChannel(t) && OneSlot(t, u, q) && u[q].state != SLEEPING
    requires next >= nextpid && (u[q].pid == 0 || nextpid <= u[q].pid < next)
    requires u[q].state != UNUSED ==> u[q].pid > 0
    ensures Named(u, next) && OwnChannel(u)
  {
  }

  lemma SlotForgetsNone(t: seq<Proc>, u: seq<Proc>, q: nat)
    requires NoneForgotten(t) && OneSlot(t, u, q) && u[q].state != ZOMBIE && u[q].state != SLEEPING
    ensures NoneForgotten(u)
  {
    forall p: nat, k: nat | p < |u| && k < |u| && Waiting(u, p) && ChildOf(u, k, p)
      ensures u[k].state != ZOMBIE
    {
      assert Waiting(t, p) && (k == q || ChildOf(t, k, p));
    }
  }

  lemma ReapKeeps(t: seq<Proc>, init: nat, nextpid: nat, rank: seq<nat>, q: nat, cur: nat)
    requires Good(t, init, nextpid, rank) && NoneForgotten(t) && q < |t| && ZombieChild(t, q, cur)
    ensures Good(t[q := t[q].(state := UNUSED, pid := 0, parent := None, killed := false)], init, nextpid, rank)
    ensures NoneForgotten(t[q := t[q].(state := UNUSED, pid := 0, parent := None, killed := false)])
  {
    var u := t[q := t[q].(state := UNUSED, pid := 0, parent := None, killed := false)];
    assert rank[q := rank[q]] == rank;
    hide Adopted, Ranked, Named, OwnChannel, NoneForgotten;
    SlotKeepsTree(t, u, init, rank, rank[q], q);
    SlotKeepsNames(t, u, nextpid, nextpid, q);
    SlotForgetsNone(t, u, q);
  }

  lemma AbortKeeps(t: seq<Proc>, u: seq<Proc>, init: nat, nextpid: nat, rank: seq<nat>, q: nat)
    requires nextpid > 0 && Good(t, init, nextpid - 1, rank) && NoneForgotten(t)
    requires q < |t| && t[q].state == UNUSED && u == t[q := t[q].(pid := nextpid - 1)]
    ensures Good(u, init, nextpid, rank) && NoneForgotten(u)
  {
    assert rank[q := rank[q]] == rank && q != init;
    hide Adopted, Ranked, Named, OwnChannel, NoneForgotten;
    SlotKeepsTree(t, u, init, rank, rank[q], q);
    SlotKeepsNames(t, u, nextpid - 1, nextpid, q);
    SlotForgetsNone(t, u, q);
  }

  lemma ForkKeeps(t: seq<Proc>, u: seq<Proc>, init: nat, nextpid: nat, rank: seq<nat>, q: nat, cur: nat)
    requires nextpid > 0 && Good(t, init, nextpid - 1, rank) && NoneForgotten(t)
    requires q < |t| && t[q].state == UNUSED && cur < |t| && t[cur].state == RUNNING
    requires u == t[q := Proc(RUNNABLE, nextpid - 1, Some(cur), t[q].chan, t[q].killed)]
    ensures |rank| == |t| && Good(u, init, nextpid, rank[q := rank[cur] + 1]) && NoneForgotten(u)
  {
    assert q != init && nextpid > 1;
    hide Adopted, Ranked, Named, OwnChannel, NoneForgotten;
    SlotKeepsTree(t, u, init, rank, rank[cur] + 1, q);
    SlotKeepsNames(t, u, nextpid - 1, nextpid, q);
    SlotForgetsNone(t, u, q);
  }

  lemma NoChildYet(t: seq<Proc>, cur: nat)
    ensures !HasChild(t, cur, 0) && !Abandoned(t, cur, 0)
  {
  }

  lemma AbandonedMore(t: seq<Proc>, cur: nat, i: nat)
    requires Abandoned(t, cur, i) && i <= |t|
    ensures Abandoned(t, cur, |t|)
  {
    var q: nat :| q < |t| && q < i && ZombieChild(t, q, cur);
    assert q < |t|;
  }

  /** Without init everybody has an ancestor line: following parents from a used slot ends at init. */
  lemma {:induction false} ReachesInit(t: seq<Proc>, init: nat, nextpid: nat, rank: seq<nat>, q: nat)
    returns (path: seq<nat>)
    requires Good(t, init, nextpid, rank) && q < |t| && t[q].state != UNUSED
    ensures |path| > 0 && path[0] == q && path[|path| - 1] == init
    ensures forall k: nat | k < |path| :: path[k] < |t|
    ensures forall k: nat | k + 1 < |path| :: ChildOf(t, path[k], path[k + 1])
    decreases if q < |rank| then rank[q] else 0
  {
    if q == init {
      path := [q];
    } else {
      var rest := ReachesInit(t, init, nextpid, rank, t[q].parent.value);
      path := [q] + rest;
    }
  }
}
