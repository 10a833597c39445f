/** Policy 3 on any number of CPUs: without boosting, a process only ever sinks, and spends a
    bounded number of ticks on each level above the lowest. */
module Demotion {
  import opened Mlfq

  /** Atomic sections under ptable.lock. A process is charged in the same section in which it
      gives up the CPU, because the lock passes from it to the scheduler. */
  datatype Event =
    | Alloc(i: nat)                       // allocproc
    | Become(i: nat, state: ProcState)    // fork, wakeup, kill, wait: a state change off the CPU
    | Dispatch(i: nat)                    // a CPU picks its next process
    | Return(i: nat, how: Leaving)        // the process comes back to the scheduler

  ghost predicate Next(s: seq<Slot>, e: Event, t: seq<Slot>) {
    Valid(s) && |t| == NPROC && e.i < NPROC &&
    match e
    case Alloc(i) => s[i].state == UNUSED && t == s[i := Slot(EMBRYO, 3, ZEROS, ZEROS)]
    case Become(i, st) => s[i].state in {EMBRYO, SLEEPING, ZOMBIE} && st in {UNUSED, RUNNABLE}
      && t == s[i := s[i].(state := st)]
    case Dispatch(i) => IsChoice(s, i) && t == s[i := s[i].(state := RUNNING)]
    case Return(i, how) =>
      s[i].state == RUNNING && forall j | 0 <= j < NPROC ::
        t[j] == if j == i then Charge(Leave(s[i], how)) else Wait(s[j])
  }

  ghost predicate IsRun(ss: seq<seq<Slot>>, es: seq<Event>) {
    && |ss| == |es| + 1 && (forall k | 0 <= k < |ss| :: |ss[k]| == NPROC)
    && forall k | 0 <= k < |es| :: Next(ss[k], es[k], ss[k + 1])
  }

  /** A level above the process has been used up, its own has not, one below is untouched. */
  ghost predicate Sinking(p: Slot) {
    && ValidSlot(p)
    && forall l | 1 <= l <= 3 ::
         if l > p.prio then p.ticks[l] <= Threshold(l) + 1
         else if l == p.prio then p.ticks[l] < Threshold(l)
         else p.ticks[l] == 0
  }

  lemma ChargeSinks(p: Slot, how: Leaving)
    requires Sinking(p)
    ensures Sinking(Charge(Leave(p, how))) && Charge(Leave(p, how)).prio <= p.prio
  {
  }

  lemma SinkStep(s: seq<Slot>, e: Event, t: seq<Slot>, i: nat)
    requires Next(s, e, t) && i < NPROC && e != Alloc(i) && Sinking(s[i])
    ensures Sinking(t[i]) && t[i].prio <= s[i].prio
  {
    match e
    case Return(j, how) => if i == j { ChargeSinks(s[i], how); }
    case _ =>
  }

  lemma AllocSinks(s: seq<Slot>, i: nat, t: seq<Slot>)
    requires Next(s, Alloc(i), t)
    ensures i < NPROC && Sinking(t[i]) && t[i].prio == 3
  {
  }

  lemma SinkingBounds(p: Slot)
    requires Sinking(p)
    ensures 0 <= p.prio <= 3 && |p.ticks| == 4 && forall l | 1 <= l <= 3 :: p.ticks[l] <= Threshold(l) + 1
  {
  }

  /** From the event that allocates slot i (number a) until the slot is allocated again, the
      priority never rises, and level l collects at most Threshold(l) + 1 ticks. */
  lemma {:induction false} PolicyThreeBound(ss: seq<seq<Slot>>, es: seq<Event>, i: nat, a: nat, mid: nat, b: nat)
    requires IsRun(ss, es) && i < NPROC && a < mid <= b <= |es| && es[a] == Alloc(i)
    requires forall k | a < k < b :: es[k] != Alloc(i)
    ensures Sinking(ss[b][i]) && 0 <= ss[b][i].prio <= ss[mid][i].prio <= 3
    ensures forall l | 1 <= l <= 3 :: ss[b][i].ticks[l] <= Threshold(l) + 1
    decreases b
  {
    hide Next, Sinking;
    if b - 1 == a {
      AllocSinks(ss[a], i, ss[b]);
    } else {
      if mid < b {
        PolicyThreeBound(ss, es, i, a, mid, b - 1);
      } else {
        PolicyThreeBound(ss, es, i, a, mid - 1, b - 1);
      }
      SinkStep(ss[b - 1], es[b - 1], ss[b], i);
    }
    SinkingBounds(ss[b][i]);
  }

  // ----- the bound is reached -----

  /** Slot 0 is p and the others are unused. */
  function Only(p: Slot): (s: seq<Slot>) {
    seq(NPROC, i => if i == 0 then p else Slot(UNUSED, 3, ZEROS, ZEROS))
  }

  /** A run in which slot 0 is allocated once, at the start, and has come to be p. */
  ghost predicate RunTo(ss: seq<seq<Slot>>, es: seq<Event>, p: Slot) {
    && IsRun(ss, es) && |es| > 0 && es[0] == Alloc(0) && (forall k | 0 < k < |es| :: es[k] != Alloc(0))
    && ss[|es|] == Only(p)
  }

  lemma Then(ss: seq<seq<Slot>>, es: seq<Event>, p: Slot, e: Event, q: Slot)
    returns (ss': seq<seq<Slot>>, es': seq<Event>)
    requires RunTo(ss, es, p) && e != Alloc(0) && Next(Only(p), e, Only(q))
    ensures RunTo(ss', es', q)
  {
    hide Next;
    ss', es' := ss + [Only(q)], es + [e];
    forall k | 0 <= k < |es'| ensures Next(ss'[k], es'[k], ss'[k + 1]) {
      if k < |es| {
        assert Next(ss[k], es[k], ss[k + 1]);
      }
    }
  }

  lemma OnlyValid(p: Slot)
    requires ValidSlot(p)
    ensures Valid(Only(p))
  {
  }

  /** One turn on the CPU, after which the process is runnable again. */
  lemma Turn(ss: seq<seq<Slot>>, es: seq<Event>, p: Slot, how: Leaving) returns (ss': seq<seq<Slot>>, es': seq<Event>)
    requires RunTo(ss, es, p) && ValidSlot(p) && p.state == RUNNABLE && how != Exit
    ensures RunTo(ss', es', Charge(Leave(p, how)).(state := RUNNABLE))
  {
    hide RunTo, IsRun;
    var on := p.(state := RUNNING);
    var off := Charge(Leave(p, how));
    OnlyValid(p);
    OnlyValid(on);
    OnlyValid(off);
    assert Only(p)[0 := on] == Only(on) && Only(off)[0 := off.(state := RUNNABLE)] == Only(off.(state := RUNNABLE));
    ss', es' := Then(ss, es, p, Dispatch(0), on);
    ss', es' := Then(ss', es', on, Return(0, how), off);
    if how == Sleep {
      ss', es' := Then(ss', es', off, Become(0, RUNNABLE), off.(state := RUNNABLE));
    } else {
      assert off == off.(state := RUNNABLE);
    }
  }

  /** Turns cut short by sleeping, as many as the level allows, and one full turn. */
  lemma {:induction false} UseUp(ss: seq<seq<Slot>>, es: seq<Event>, p: Slot)
    returns (ss': seq<seq<Slot>>, es': seq<Event>)
    requires RunTo(ss, es, p) && ValidSlot(p) && p.state == RUNNABLE && 1 <= p.prio && p.waits == ZEROS
    requires p.ticks[p.prio] < Threshold(p.prio)
    ensures RunTo(ss', es', Slot(RUNNABLE, p.prio - 1, p.ticks[p.prio := Threshold(p.prio) + 1], ZEROS))
    decreases Threshold(p.prio) - p.ticks[p.prio]
  {
    hide RunTo;
    var l, full := p.prio, Threshold(p.prio);
    assert p.ticks[l := full][l := full + 1] == p.ticks[l := full + 1];
    if p.ticks[l] == full - 1 {
      ss', es' := Turn(ss, es, p, Yield);
    } else {
      ss', es' := Turn(ss, es, p, Sleep);
      var ticks := p.ticks[l := p.ticks[l] + 1];
      ss', es' := UseUp(ss', es', p.(ticks := ticks));
      assert ticks[l := full + 1] == p.ticks[l := full + 1];
    }
  }

  /** One run reaches the bound on all three levels: on each, turns cut short by sleeping bring the
      count to one below the threshold, and a full turn then counts two ticks. */
  lemma BoundIsTight() returns (ss: seq<seq<Slot>>, es: seq<Event>, p: Slot)
    ensures RunTo(ss, es, p) && |p.ticks| == 4 && forall l | 1 <= l <= 3 :: p.ticks[l] == Threshold(l) + 1
  {
    var born, free := Slot(EMBRYO, 3, ZEROS, ZEROS), Slot(UNUSED, 3, ZEROS, ZEROS);
    p := born.(state := RUNNABLE);
    ss, es := [Only(free), Only(born)], [Alloc(0)];
    assert Only(free)[0 := born] == Only(born) && Only(born)[0 := p] == Only(p);
    ss, es := Then(ss, es, born, Become(0, RUNNABLE), p);
    hide RunTo, Next;
    ss, es := UseUp(ss, es, p);
    assert ZEROS[3 := 9] == [0, 0, 0, 9];
    p := Slot(RUNNABLE, 2, [0, 0, 0, 9], ZEROS);
    ss, es := UseUp(ss, es, p);
    assert [0, 0, 0, 9][2 := 17] == [0, 0, 17, 9];
    p := Slot(RUNNABLE, 1, [0, 0, 17, 9], ZEROS);
    ss, es := UseUp(ss, es, p);
    assert [0, 0, 17, 9][1 := 33] == [0, 33, 17, 9];
    p := Slot(RUNNABLE, 0, [0, 33, 17, 9], ZEROS);
  }
}
