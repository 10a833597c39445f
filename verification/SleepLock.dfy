/** Sleep locks as clients of sleep and wakeup: any number of processes taking and releasing any
    number of sleep locks, whatever others they hold, interleaved at every acquire and release of a
    spin lock.

    A spin lock is the process that holds it; sched() passes ptable.lock to the scheduler, which
    lets it go, and a woken process comes back from sched() holding it. */
module SleepLock {
  import opened Options

  /** Where a process is. Each phase but Idle is about the sleep lock `on`. */
  datatype Phase =
    | Idle
    | AcqStart        // acquiresleep: acquire(&lk->lk)
    | AcqTest         //   holds lk->lk, tests lk->locked
    | AcqTaken        //   has set lk->locked, releases lk->lk
    | SleepStart      // sleep(lk, &lk->lk): acquire(&ptable.lock)
    | SleepBoth       //   holds both, releases lk->lk
    | SleepReady      //   holds ptable.lock, becomes SLEEPING and calls sched
    | Asleep
    | Woken           //   RUNNABLE, waiting for the scheduler
    | WakeBack        //   back from sched with ptable.lock
    | WakeAgain       //   acquire(&lk->lk) again
    | RelStart        // releasesleep: acquire(&lk->lk)
    | RelClear        //   holds lk->lk, clears lk->locked
    | RelWake         // wakeup(lk): acquire(&ptable.lock)
    | RelWaking       //   holds both, wakes every sleeper
    | RelWoke         //   releases ptable.lock
    | RelEnd          //   releases lk->lk
    | Elsewhere       // holds ptable.lock for some other purpose

  /** `held` are the sleep locks that the process has and has not begun to give up. */
  datatype Proc = Proc(phase: Phase, on: nat, held: set<nat>)

  datatype State = State(procs: seq<Proc>, lk: seq<Option<nat>>, locked: seq<bool>, pt: Option<nat>)

  predicate HasLk(p: Proc) {
    p.phase in {AcqTest, AcqTaken, SleepStart, SleepBoth, RelClear, RelWake, RelWaking, RelWoke, RelEnd}
  }

  predicate HasPt(p: Proc) {
    p.phase in {SleepBoth, SleepReady, WakeBack, RelWaking, RelWoke, Elsewhere}
  }

  /** The process has given the sleep lock up but has yet to wake the sleepers. */
  predicate WillWake(p: Proc) {
    p.phase in {RelWake, RelWaking}
  }

  function To(s: State, p: nat, phase: Phase): State
    requires p < |s.procs|
  {
    s.(procs := s.procs[p := s.procs[p].(phase := phase)])
  }

  /** Every sleeper on lock l becomes runnable. */
  function Wake(procs: seq<Proc>, l: nat): (r: seq<Proc>)
    ensures |r| == |procs|
  {
    seq(|procs|, (i: nat) requires i < |procs| =>
      if procs[i].phase == Asleep && procs[i].on == l then procs[i].(phase := Woken) else procs[i])
  }

  /** In the middle of an operation, and not asleep. */
  predicate Busy(p: Proc) {
    p.phase !in {Idle, Asleep}
  }

  /** Spinning on a spin lock that somebody holds. */
  predicate Blocked(s: State, p: nat)
    requires p < |s.procs| && s.procs[p].on < |s.lk|
  {
    || (s.procs[p].phase in {AcqStart, WakeAgain, RelStart} && s.lk[s.procs[p].on] != None)
    || (s.procs[p].phase in {SleepStart, Woken, RelWake} && s.pt != None)
  }

  /** The next step of a process in the middle of an operation. */
  function Advance(s: State, p: nat): State
    requires p < |s.procs| && s.procs[p].on < |s.lk| == |s.locked|
  {
    var l := s.procs[p].on;
    match s.procs[p].phase
    case AcqStart => To(s, p, AcqTest).(lk := s.lk[l := Some(p)])
    case AcqTest =>
      if s.locked[l] then To(s, p, SleepStart)
      else s.(procs := s.procs[p := Proc(AcqTaken, l, s.procs[p].held + {l})], locked := s.locked[l := true])
    case AcqTaken => To(s, p, Idle).(lk := s.lk[l := None])
    case SleepStart => To(s, p, SleepBoth).(pt := Some(p))
    case SleepBoth => To(s, p, SleepReady).(lk := s.lk[l := None])
    case SleepReady => To(s, p, Asleep).(pt := None)
    case Woken => To(s, p, WakeBack).(pt := Some(p))
    case WakeBack => To(s, p, WakeAgain).(pt := None)
    case WakeAgain => To(s, p, AcqTest).(lk := s.lk[l := Some(p)])
    case RelStart => To(s, p, RelClear).(lk := s.lk[l := Some(p)])
    case RelClear =>
      s.(procs := s.procs[p := Proc(RelWake, l, s.procs[p].held - {l})], locked := s.locked[l := false])
    case RelWake => To(s, p, RelWaking).(pt := Some(p))
    case RelWaking => To(s.(procs := Wake(s.procs, l)), p, RelWoke)
    case RelWoke => To(s, p, RelEnd).(pt := None)
    case RelEnd => To(s, p, Idle).(lk := s.lk[l := None])
    case Elsewhere => To(s, p, Idle).(pt := None)
    case _ => s
  }

  /** One step of process p: its caller starts an operation, kill() wakes it, or it goes on with
      what it is doing unless it is spinning. */
  ghost predicate Next(s: State, p: nat, t: State) {
    && p < |s.procs| && s.procs[p].on < |s.lk| && |s.lk| == |s.locked|
    && match s.procs[p].phase
       case Idle =>
         || (exists m: nat :: m < |s.lk| && t == s.(procs := s.procs[p := Proc(AcqStart, m, s.procs[p].held)]))
         || (exists m: nat ::
               m in s.procs[p].held && m < |s.lk| && t == s.(procs := s.procs[p := Proc(RelStart, m, s.procs[p].held)]))
         || (s.pt == None && t == To(s, p, Elsewhere).(pt := Some(p)))
       case Asleep => s.pt == None && t == To(s, p, Woken)
       case _ => !Blocked(s, p) && t == Advance(s, p)
  }

  ghost predicate Init(s: State) {
    && |s.lk| == |s.locked| && s.pt == None
    && (forall l | 0 <= l < |s.lk| :: s.lk[l] == None && !s.locked[l])
    && (forall i | 0 <= i < |s.procs| :: s.procs[i].phase == Idle && s.procs[i].on < |s.lk| && s.procs[i].held == {})
  }

  ghost predicate IsRun(ss: seq<State>, who: seq<nat>) {
    |ss| == |who| + 1 && Init(ss[0]) && forall k | 0 <= k < |who| :: Next(ss[k], who[k], ss[k + 1])
  }

  // ----- the invariant -----

  /** Somebody who will still wake the sleepers of lock l. */
  ghost predicate WakerFor(procs: seq<Proc>, l: nat) {
    exists r :: 0 <= r < |procs| && procs[r].on == l && WillWake(procs[r])
  }

  ghost predicate SpinLocks(s: State) {
    && |s.lk| == |s.locked|
    && (forall i: nat | i < |s.procs| :: s.procs[i].on < |s.lk|)
    && (forall i: nat | i < |s.procs| :: HasLk(s.procs[i]) <==> s.lk[s.procs[i].on] == Some(i))
    && (forall l: nat | l < |s.lk| && s.lk[l].Some? :: s.lk[l].value < |s.procs| && s.procs[s.lk[l].value].on == l)
    && (forall i: nat | i < |s.procs| :: HasPt(s.procs[i]) <==> s.pt == Some(i))
    && (s.pt.Some? ==> s.pt.value < |s.procs|)
  }

  /** A locked sleep lock has exactly one owner, an unlocked one has none. */
  ghost predicate OneOwner(s: State) {
    && |s.lk| == |s.locked|
    && (forall i: nat, l: nat {:trigger l in s.procs[i].held} | i < |s.procs| && l in s.procs[i].held ::
      l < |s.lk| && s.locked[l])
    && (forall i: nat, j: nat, l: nat {:trigger l in s.procs[i].held, l in s.procs[j].held} | i < |s.procs|
      && j < |s.procs| && l in s.procs[i].held && l in s.procs[j].held :: i == j)
    && (forall l: nat | l < |s.lk| && s.locked[l] :: Held(s.procs, l))
    && (forall i: nat | i < |s.procs| && s.procs[i].phase in {RelStart, RelClear} :: s.procs[i].on in s.procs[i].held)
  }

  ghost predicate Held(procs: seq<Proc>, l: nat) {
    exists i :: 0 <= i < |procs| && l in procs[i].held
  }

  /** Whoever sleeps, or is past the point of no return, will be woken. */
  ghost predicate WillBeWoken(s: State) {
    && |s.lk| == |s.locked| && (forall i: nat | i < |s.procs| :: s.procs[i].on < |s.lk|)
    && (forall i: nat | i < |s.procs| && s.procs[i].phase in {SleepStart, SleepBoth} :: s.locked[s.procs[i].on])
    && (forall i: nat | i < |s.procs| && s.procs[i].phase in {SleepReady, Asleep} ::
          s.locked[s.procs[i].on] || WakerFor(s.procs, s.procs[i].on))
  }

  ghost predicate Inv(s: State) {
    SpinLocks(s) && OneOwner(s) && WillBeWoken(s)
  }

  // ----- every step but the wakeup itself changes one process -----

  /** Process p goes from s.procs[p] to q, taking and giving back the spin locks that q's phase says. */
  ghost predicate Spins(s: State, p: nat, q: Proc, t: State) {
    && p < |s.procs| && |s.lk| == |s.locked| && s.procs[p].on < |s.lk| && q.on < |s.lk|
    && var o := s.procs[p];
    && t.procs == s.procs[p := q]
    && (o.on == q.on || (o.phase == Idle && !HasLk(o) && !HasLk(q)))
    && (if HasLk(o) == HasLk(q) then t.lk == s.lk
        else if HasLk(q) then s.lk[q.on] == None && t.lk == s.lk[q.on := Some(p)]
        else t.lk == s.lk[o.on := None])
    && (if HasPt(o) == HasPt(q) then t.pt == s.pt
        else if HasPt(q) then s.pt == None && t.pt == Some(p)
        else t.pt == None)
  }

  /** It takes sleep lock q.on, gives it up, or keeps what it has. */
  ghost predicate Trades(s: State, p: nat, q: Proc, t: State)
    requires p < |s.procs| && |s.lk| == |s.locked| && q.on < |s.lk|
  {
    var o := s.procs[p];
    || (q.held == o.held && t.locked == s.locked)
    || (q.held == o.held + {q.on} && !s.locked[q.on] && t.locked == s.locked[q.on := true])
    || (q.held == o.held - {q.on} && t.locked == s.locked[q.on := false] && o.phase == RelClear && q.phase == RelWake
      && o.on == q.on)
  }

  ghost predicate Moves(s: State, p: nat, q: Proc, t: State) {
    && Spins(s, p, q, t) && Trades(s, p, q, t)
    && var o := s.procs[p];
    && (WillWake(o) ==> WillWake(q) && o.on == q.on)
    && (q.phase in {SleepStart, SleepBoth} ==>
      o.phase in {SleepStart, SleepBoth, AcqTest} && q.held == o.held && o.on == q.on
                                               && (o.phase == AcqTest ==> s.locked[q.on]))
    && (q.phase in {SleepReady, Asleep} ==> o.phase in {SleepBoth, SleepReady} && q.held == o.held && o.on == q.on)
    && (q.phase == RelStart ==> q.on in q.held)
    && (q.phase == RelClear ==> o.phase == RelStart && q.held == o.held && o.on == q.on)
  }

  lemma AcquireMoves(s: State, p: nat, t: State)
    requires Next(s, p, t) && s.procs[p].phase in {AcqStart, AcqTest, AcqTaken, SleepStart, SleepBoth, SleepReady}
    ensures |t.procs| == |s.procs| && Moves(s, p, t.procs[p], t)
  {
  }

  lemma WakeMoves(s: State, p: nat, t: State)
    requires Next(s, p, t) && s.procs[p].phase in {Idle, Asleep, Woken, WakeBack, WakeAgain, Elsewhere}
    ensures |t.procs| == |s.procs| && Moves(s, p, t.procs[p], t)
  {
  }

  lemma ReleaseMoves(s: State, p: nat, t: State)
    requires Next(s, p, t) && s.procs[p].phase in {RelStart, RelClear, RelWake, RelWoke, RelEnd}
    ensures |t.procs| == |s.procs| && Moves(s, p, t.procs[p], t)
  {
  }

  lemma StepMoves(s: State, p: nat, t: State)
    requires Next(s, p, t) && s.procs[p].phase != RelWaking
    ensures |t.procs| == |s.procs| && Moves(s, p, t.procs[p], t)
  {
    hide Moves;
    if s.procs[p].phase in {AcqStart, AcqTest, AcqTaken, SleepStart, SleepBoth, SleepReady} {
      AcquireMoves(s, p, t);
    } else if s.procs[p].phase in {RelStart, RelClear, RelWake, RelWoke, RelEnd} {
      ReleaseMoves(s, p, t);
    } else {
      WakeMoves(s, p, t);
    }
  }

  lemma MoveParts(s: State, p: nat, q: Proc, t: State)
    requires Moves(s, p, q, t)
    ensures Spins(s, p, q, t) && |t.locked| == |t.lk|
  {
  }

  lemma MoveKeepsSpinLocks(s: State, p: nat, q: Proc, t: State)
    requires SpinLocks(s) && Spins(s, p, q, t) && |t.locked| == |t.lk|
    ensures SpinLocks(t)
  {
    hide HasLk, HasPt;
  }

  /** The owners after a move. */
  lemma MoveKeepsOwner(s: State, p: nat, q: Proc, t: State)
    requires OneOwner(s) && Moves(s, p, q, t)
    ensures OneOwner(t)
  {
    hide HasLk, HasPt, WillWake, Held;
    assert forall i | 0 <= i < |t.procs| && i != p :: t.procs[i] == s.procs[i];
    var o := s.procs[p];
    assert o.phase in {RelStart, RelClear} ==> o.on in o.held;
    forall i: nat, l: nat | i < |t.procs| && l in t.procs[i].held ensures l < |t.lk| && t.locked[l] {
      MoveKeepsLocked(s, p, q, t, i, l);
    }
    forall i: nat, j: nat, l: nat | i < |t.procs| && j < |t.procs| && l in t.procs[i].held && l in t.procs[j].held
      ensures i == j
    {
      assert l !in s.procs[i].held || l !in s.procs[j].held ==> l == q.on && !s.locked[l];
    }
    forall i: nat | i < |t.procs| && t.procs[i].phase in {RelStart, RelClear} ensures t.procs[i].on in t.procs[i].held {
      assert i != p ==> t.procs[i] == s.procs[i];
    }
    forall l: nat | l < |t.lk| && t.locked[l] ensures Held(t.procs, l) {
      MoveKeepsHeld(s, p, q, t, l);
    }
  }

  lemma MoveKeepsLocked(s: State, p: nat, q: Proc, t: State, i: nat, l: nat)
    requires OneOwner(s) && Moves(s, p, q, t) && i < |t.procs| && l in t.procs[i].held
    ensures l < |t.lk| && l < |t.locked| && t.locked[l]
  {
    hide HasLk, HasPt, WillWake, Held;
    var o := s.procs[p];
    assert t.procs[i] == if i == p then q else s.procs[i];
    if l in s.procs[i].held {
      assert l < |s.lk| && s.locked[l];
    } else {
      assert i == p && l == q.on;
    }
  }

  lemma MoveKeepsHeld(s: State, p: nat, q: Proc, t: State, l: nat)
    requires OneOwner(s) && Moves(s, p, q, t) && l < |t.locked| && t.locked[l]
    ensures Held(t.procs, l)
  {
    hide HasLk, HasPt, WillWake;
    if l in q.held {
      assert l in t.procs[p].held;
    } else {
      assert s.locked[l];
      var i :| 0 <= i < |s.procs| && l in s.procs[i].held;
      assert i != p ==> l in t.procs[i].held;
    }
  }

  lemma MoveKeepsWaker(s: State, p: nat, q: Proc, t: State, l: nat)
    requires Moves(s, p, q, t) && WakerFor(s.procs, l)
    ensures WakerFor(t.procs, l)
  {
    hide HasLk, HasPt, WillWake;
    var r :| 0 <= r < |s.procs| && s.procs[r].on == l && WillWake(s.procs[r]);
    assert t.procs[r].on == l && WillWake(t.procs[r]);
  }

  lemma MoveKeepsWoken(s: State, p: nat, q: Proc, t: State)
    requires Inv(s) && Moves(s, p, q, t)
    ensures WillBeWoken(t)
  {
    hide OneOwner, HasPt, WakerFor;
    forall i: nat | i < |t.procs| && t.procs[i].phase in {SleepReady, Asleep}
      ensures t.locked[t.procs[i].on] || WakerFor(t.procs, t.procs[i].on)
    {
      Sleeper(s, p, q, t, i);
    }
  }

  lemma Sleeper(s: State, p: nat, q: Proc, t: State, i: nat)
    requires Inv(s) && Moves(s, p, q, t) && i < |t.procs| && t.procs[i].phase in {SleepReady, Asleep}
    ensures t.procs[i].on < |t.lk| == |t.locked|
    ensures t.locked[t.procs[i].on] || WakerFor(t.procs, t.procs[i].on)
  {
    hide OneOwner, HasPt, WakerFor;
    var l := t.procs[i].on;
    if WakerFor(s.procs, l) {
      MoveKeepsWaker(s, p, q, t, l);
    } else if !t.locked[l] {
      assert WillWake(t.procs[p]) && t.procs[p].on == l;
      NewWaker(t.procs, p);
    }
  }

  lemma NewWaker(procs: seq<Proc>, r: nat)
    requires r < |procs| && WillWake(procs[r])
    ensures WakerFor(procs, procs[r].on)
  {
  }

  /** The wakeup loop changes nobody's locks. */
  lemma WakeKeepsLocks(s: State, p: nat, t: State)
    requires SpinLocks(s) && Next(s, p, t) && s.procs[p].phase == RelWaking
    ensures SpinLocks(t)
  {
    forall i: nat | i < |t.procs|
      ensures t.procs[i].on == s.procs[i].on && HasLk(t.procs[i]) == HasLk(s.procs[i])
              && HasPt(t.procs[i]) == HasPt(s.procs[i])
    {
    }
    hide HasLk, HasPt, Next, Wake;
  }

  lemma WakeKeepsOwner(s: State, p: nat, t: State)
    requires OneOwner(s) && Next(s, p, t) && s.procs[p].phase == RelWaking
    ensures OneOwner(t)
  {
    forall i: nat | i < |t.procs|
      ensures t.procs[i].held == s.procs[i].held
              && (t.procs[i].phase in {RelStart, RelClear} ==> t.procs[i] == s.procs[i])
    {
    }
    forall l: nat | l < |t.lk| && t.locked[l] ensures Held(t.procs, l) {
      var i :| 0 <= i < |s.procs| && l in s.procs[i].held;
      assert l in t.procs[i].held;
    }
    hide Next, Wake, Held;
  }

  /** No process can be about to sleep, since the waker holds ptable.lock. */
  lemma WakeStepWakes(s: State, p: nat, t: State)
    requires Inv(s) && Next(s, p, t) && s.procs[p].phase == RelWaking
    ensures WillBeWoken(t)
  {
    hide OneOwner;
    forall i: nat | i < |t.procs| && t.procs[i].phase in {SleepReady, Asleep}
      ensures t.locked[t.procs[i].on] || WakerFor(t.procs, t.procs[i].on)
    {
      var l := t.procs[i].on;
      assert s.procs[i] == t.procs[i];
      if !t.locked[l] {
        var r :| 0 <= r < |s.procs| && s.procs[r].on == l && WillWake(s.procs[r]);
        assert t.procs[r] == s.procs[r];
      }
    }
  }

  lemma StepKeepsInv(s: State, p: nat, t: State)
    requires Inv(s) && Next(s, p, t)
    ensures Inv(t)
  {
    if s.procs[p].phase == RelWaking {
      hide SpinLocks, OneOwner, WillBeWoken;
      WakeKeepsLocks(s, p, t);
      WakeKeepsOwner(s, p, t);
      WakeStepWakes(s, p, t);
    } else {
      StepMoves(s, p, t);
      var q := t.procs[p];
      hide SpinLocks, OneOwner, WillBeWoken, Moves, Next, Spins;
      MoveParts(s, p, q, t);
      MoveKeepsSpinLocks(s, p, q, t);
      MoveKeepsOwner(s, p, q, t);
      MoveKeepsWoken(s, p, q, t);
    }
  }

  lemma {:induction false} RunKeepsInv(ss: seq<State>, who: seq<nat>, k: nat)
    requires IsRun(ss, who) && k < |ss|
    ensures Inv(ss[k])
  {
    hide Inv, Init, Next;
    if k == 0 {
      InitInv(ss[0]);
    } else {
      RunKeepsInv(ss, who, k - 1);
      StepKeepsInv(ss[k - 1], who[k - 1], ss[k]);
    }
  }

  lemma InitInv(s: State)
    requires Init(s)
    ensures Inv(s)
  {
  }

  /** No lost wakeup: in every state of every run, a process asleep on a sleep lock that nobody
      is in the middle of releasing is waiting for an owner that is still to release it. */
  lemma NoLostWakeup(ss: seq<State>, who: seq<nat>, k: nat, i: nat)
    requires IsRun(ss, who) && k < |ss| && i < |ss[k].procs| && ss[k].procs[i].phase == Asleep
    ensures ss[k].procs[i].on < |ss[k].lk| == |ss[k].locked|
    ensures ss[k].lk[ss[k].procs[i].on] == None ==> ss[k].locked[ss[k].procs[i].on]
    ensures Held(ss[k].procs, ss[k].procs[i].on) || WakerFor(ss[k].procs, ss[k].procs[i].on)
  {
    RunKeepsInv(ss, who, k);
  }

  /** Mutual exclusion: at any time at most one process has a lock. */
  lemma MutualExclusion(ss: seq<State>, who: seq<nat>, k: nat, i: nat, j: nat, l: nat)
    requires IsRun(ss, who) && k < |ss| && i < |ss[k].procs| && j < |ss[k].procs|
    requires l in ss[k].procs[i].held && l in ss[k].procs[j].held
    ensures i == j
  {
    RunKeepsInv(ss, who, k);
  }

  // ----- what acquiresleep and releasesleep have done when they return -----

  predicate Acquiring(phase: Phase) {
    phase in {AcqStart, AcqTest, AcqTaken, SleepStart, SleepBoth, SleepReady, Asleep, Woken, WakeBack, WakeAgain}
  }

  predicate Releasing(phase: Phase) {
    phase in {RelStart, RelClear, RelWake, RelWaking, RelWoke, RelEnd}
  }

  /** Process p, idle, starts on an operation of the given kind on lock m at step a, and is next idle
      in state b. */
  ghost predicate Call(ss: seq<State>, who: seq<nat>, p: nat, start: Phase, m: nat, a: nat, b: nat) {
    && IsRun(ss, who) && a < b <= |who| && who[a] == p
    && (forall k | a <= k <= b :: p < |ss[k].procs|)
    && ss[a].procs[p].phase == Idle && ss[a + 1].procs[p].phase == start && ss[a + 1].procs[p].on == m
    && (forall k | a < k < b :: ss[k].procs[p].phase != Idle)
    && ss[b].procs[p].phase == Idle
  }

  /** What a step does to process p: the step is its own, or it is woken, or nothing. */
  lemma StepOf(s: State, w: nat, t: State, p: nat)
    requires Next(s, w, t) && p < |s.procs|
    ensures |t.procs| == |s.procs|
    ensures w != p ==> t.procs[p] == s.procs[p]
                       || (s.procs[p].phase == Asleep && t.procs[p] == s.procs[p].(phase := Woken))
  {
  }

  /** In the middle of acquiresleep(m): the lock joins what the process holds where it is taken. */
  lemma AcquireStep(s: State, w: nat, t: State, p: nat, held: set<nat>)
    requires Next(s, w, t) && p < |s.procs| && Acquiring(s.procs[p].phase)
    requires s.procs[p].held == if s.procs[p].phase == AcqTaken then held + {s.procs[p].on} else held
    ensures |t.procs| == |s.procs| && t.procs[p].on == s.procs[p].on
    ensures t.procs[p].phase == Idle || Acquiring(t.procs[p].phase)
    ensures t.procs[p].held == if t.procs[p].phase in {AcqTaken, Idle} then held + {s.procs[p].on} else held
  {
    StepOf(s, w, t, p);
  }

  lemma ReleaseStep(s: State, w: nat, t: State, p: nat, held: set<nat>)
    requires Next(s, w, t) && p < |s.procs| && Releasing(s.procs[p].phase)
    requires s.procs[p].held == if s.procs[p].phase in {RelStart, RelClear} then held else held - {s.procs[p].on}
    ensures |t.procs| == |s.procs| && t.procs[p].on == s.procs[p].on
    ensures t.procs[p].phase == Idle || Releasing(t.procs[p].phase)
    ensures t.procs[p].held == if t.procs[p].phase in {RelStart, RelClear} then held else held - {s.procs[p].on}
  {
    StepOf(s, w, t, p);
  }

  lemma {:induction false} Acquired(ss: seq<State>, who: seq<nat>, p: nat, m: nat, a: nat, b: nat, k: nat)
    requires Call(ss, who, p, AcqStart, m, a, b) && a < k <= b
    ensures ss[k].procs[p].on == m && (ss[k].procs[p].phase == Idle || Acquiring(ss[k].procs[p].phase))
    ensures ss[k].procs[p].held
            == ss[a].procs[p].held + if ss[k].procs[p].phase in {AcqTaken, Idle} then {m} else {}
  {
    assert Next(ss[k - 1], who[k - 1], ss[k]);
    if k > a + 1 {
      Acquired(ss, who, p, m, a, b, k - 1);
      AcquireStep(ss[k - 1], who[k - 1], ss[k], p, ss[a].procs[p].held);
    }
  }

  /** A process that comes back from acquiresleep(m) has the lock, on top of what it had. */
  lemma AcquireReturns(ss: seq<State>, who: seq<nat>, p: nat, m: nat, a: nat, b: nat)
    requires Call(ss, who, p, AcqStart, m, a, b)
    ensures ss[b].procs[p].held == ss[a].procs[p].held + {m}
    ensures m < |ss[b].locked| && ss[b].locked[m]
  {
    Acquired(ss, who, p, m, a, b, b);
    RunKeepsInv(ss, who, b);
    assert m in ss[b].procs[p].held;
  }

  lemma {:induction false} Released(ss: seq<State>, who: seq<nat>, p: nat, m: nat, a: nat, b: nat, k: nat)
    requires Call(ss, who, p, RelStart, m, a, b) && a < k <= b
    ensures ss[k].procs[p].on == m && (ss[k].procs[p].phase == Idle || Releasing(ss[k].procs[p].phase))
    ensures ss[k].procs[p].held
            == ss[a].procs[p].held - if ss[k].procs[p].phase in {RelStart, RelClear} then {} else {m}
  {
    assert Next(ss[k - 1], who[k - 1], ss[k]);
    if k > a + 1 {
      Released(ss, who, p, m, a, b, k - 1);
      ReleaseStep(ss[k - 1], who[k - 1], ss[k], p, ss[a].procs[p].held);
    }
  }

  /** A process that comes back from releasesleep(m) has everything it had but the lock. */
  lemma ReleaseReturns(ss: seq<State>, who: seq<nat>, p: nat, m: nat, a: nat, b: nat)
    requires Call(ss, who, p, RelStart, m, a, b)
    ensures ss[b].procs[p].held == ss[a].procs[p].held - {m}
  {
    Released(ss, who, p, m, a, b, b);
  }

  /** Process p has come back from acquiresleep(m) in state b, and has not begun to release it by
      state k. */
  ghost predicate Has(ss: seq<State>, who: seq<nat>, p: nat, m: nat, a: nat, b: nat, k: nat) {
    && Call(ss, who, p, AcqStart, m, a, b) && b <= k < |ss|
    && forall j | b <= j <= k ::
         p < |ss[j].procs| && !(ss[j].procs[p].phase == RelStart && ss[j].procs[p].on == m)
  }

  lemma {:induction false} StillHas(ss: seq<State>, who: seq<nat>, p: nat, m: nat, a: nat, b: nat, k: nat)
    requires Has(ss, who, p, m, a, b, k)
    ensures m in ss[k].procs[p].held && !(ss[k].procs[p].phase == RelClear && ss[k].procs[p].on == m)
    decreases k
  {
    hide Next, Init, Call;
    if k == b {
      AcquireReturns(ss, who, p, m, a, b);
      CallEnds(ss, who, p, AcqStart, m, a, b);
    } else {
      StillHas(ss, who, p, m, a, b, k - 1);
      CallStep(ss, who, p, AcqStart, m, a, b, k - 1);
      HoldStep(ss[k - 1], who[k - 1], ss[k], p, m);
    }
  }

  lemma CallEnds(ss: seq<State>, who: seq<nat>, p: nat, start: Phase, m: nat, a: nat, b: nat)
    requires Call(ss, who, p, start, m, a, b)
    ensures b < |ss| && p < |ss[b].procs| && ss[b].procs[p].phase == Idle
  {
  }

  lemma CallStep(ss: seq<State>, who: seq<nat>, p: nat, start: Phase, m: nat, a: nat, b: nat, k: nat)
    requires Call(ss, who, p, start, m, a, b) && k + 1 < |ss|
    ensures |who| + 1 == |ss| && Next(ss[k], who[k], ss[k + 1])
  {
  }

  lemma HoldStep(s: State, w: nat, t: State, p: nat, m: nat)
    requires Next(s, w, t) && p < |s.procs| && m in s.procs[p].held
    requires !(s.procs[p].phase in {RelStart, RelClear} && s.procs[p].on == m)
    ensures |t.procs| == |s.procs| && m in t.procs[p].held
    ensures !(t.procs[p].phase == RelClear && t.procs[p].on == m)
  {
    StepOf(s, w, t, p);
  }

  /** Two processes that have come back from acquiresleep(m), and have not begun to release it, are
      the same process. */
  lemma ExclusiveUse(ss: seq<State>, who: seq<nat>, m: nat, k: nat,
                     p: nat, a: nat, b: nat, q: nat, c: nat, d: nat)
    requires Has(ss, who, p, m, a, b, k) && Has(ss, who, q, m, c, d, k)
    ensures p == q
  {
    StillHas(ss, who, p, m, a, b, k);
    StillHas(ss, who, q, m, c, d, k);
    MutualExclusion(ss, who, k, p, q, m);
  }

  // ----- no deadlock -----

  /** The lock order, lk->lk before ptable.lock: while any process is in the middle of an
      operation, some such process can take its next step. */
  lemma NoDeadlock(ss: seq<State>, who: seq<nat>, k: nat, i: nat)
    requires IsRun(ss, who) && k < |ss| && i < |ss[k].procs| && Busy(ss[k].procs[i])
    ensures exists r: nat, t :: r < |ss[k].procs| && Busy(ss[k].procs[r]) && Next(ss[k], r, t)
  {
    RunKeepsInv(ss, who, k);
    var s := ss[k];
    var r := if !Blocked(s, i) then i
             else if s.pt.Some? then s.pt.value
             else s.lk[s.procs[i].on].value;
    RunnableHolder(s, i, r);
    assert Next(s, r, Advance(s, r));
  }

  lemma RunnableHolder(s: State, i: nat, r: nat)
    requires SpinLocks(s) && i < |s.procs| && Busy(s.procs[i])
    requires if !Blocked(s, i) then r == i else if s.pt.Some? then r == s.pt.value
             else s.lk[s.procs[i].on].Some? && r == s.lk[s.procs[i].on].value
    ensures r < |s.procs| && Busy(s.procs[r]) && !Blocked(s, r)
  {
  }
}
