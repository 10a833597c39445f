/** The multi-level feedback queue of scheduler(): selection, charging, demotion, waiting and
    boosting, with the counters of each process table slot. */
module Mlfq {
  import opened Options

  const NPROC := 64

  datatype ProcState = UNUSED | EMBRYO | SLEEPING | RUNNABLE | RUNNING | ZOMBIE

  /** A table slot: process state, priority level, and per-level run and wait counters. */
  datatype Slot = Slot(state: ProcState, prio: int, ticks: seq<int>, waits: seq<int>)

  /** How a process gives the CPU back: yield() and exit() count a tick, sleep() does not. */
  datatype Leaving = Yield | Sleep | Exit

  const ZEROS: seq<int> := [0, 0, 0, 0]

  /** Ticks that use up a level. */
  function Threshold(level: int): int {
    if level == 1 then 32 else if level == 2 then 16 else if level == 3 then 8 else 0
  }

  /** Waiting rounds after which a process is boosted out of a level. */
  function Patience(level: int): int {
    if level == 0 then 500 else 10 * Threshold(level)
  }

  ghost predicate ValidSlot(p: Slot) {
    0 <= p.prio <= 3 && |p.ticks| == |p.waits| == 4
    && forall l | 0 <= l < 4 :: p.ticks[l] >= 0 && p.waits[l] >= 0
  }

  ghost predicate Valid(s: seq<Slot>) {
    |s| == NPROC && forall i | 0 <= i < NPROC :: ValidSlot(s[i])
  }

  // ----- one round, slot by slot -----

  function Tick(p: Slot): Slot
    requires ValidSlot(p)
  {
    p.(ticks := p.ticks[p.prio := p.ticks[p.prio] + 1])
  }

  /** The process's own part of giving up the CPU. */
  function Leave(p: Slot, how: Leaving): (r: Slot)
    requires ValidSlot(p)
    ensures ValidSlot(r)
  {
    match how
    case Yield => Tick(p).(state := RUNNABLE)
    case Exit => Tick(p).(state := ZOMBIE)
    case Sleep => p.(state := SLEEPING)
  }

  /** The scheduler's part: one more tick, and demotion once the level is used up. */
  function Charge(p: Slot): (r: Slot)
    requires ValidSlot(p)
    ensures ValidSlot(r)
  {
    var q := Tick(p);
    if q.ticks[q.prio] >= Threshold(q.prio) && q.prio > 0
    then q.(prio := q.prio - 1, waits := ZEROS)
    else q
  }

  function Wait(p: Slot): (r: Slot)
    requires ValidSlot(p)
    ensures ValidSlot(r)
  {
    if p.state == RUNNABLE then p.(waits := p.waits[p.prio := p.waits[p.prio] + 1]) else p
  }

  function Boost(p: Slot): (r: Slot)
    requires ValidSlot(p)
    ensures ValidSlot(r)
  {
    if p.state == RUNNABLE && p.prio < 3 && p.waits[p.prio] >= Patience(p.prio)
    then p.(prio := p.prio + 1, waits := ZEROS)
    else p
  }

  /** The process is a candidate of this level. */
  predicate At(p: Slot, level: int) {
    p.state == RUNNABLE && p.prio == level
  }

  /** i is the lowest-numbered runnable process of the highest occupied level. */
  ghost predicate IsChoice(s: seq<Slot>, i: nat) {
    && i < |s| && s[i].state == RUNNABLE
    && (forall j | 0 <= j < |s| && s[j].state == RUNNABLE :: s[j].prio <= s[i].prio)
    && (forall j | 0 <= j < i && s[j].state == RUNNABLE :: s[j].prio < s[i].prio)
  }

  /** What a slot looks like after a round in which c ran (and nothing else happened). */
  function AfterRound(s: seq<Slot>, c: Option<nat>, how: Leaving, policy: int, i: nat): (r: Slot)
    requires Valid(s) && i < NPROC
    ensures ValidSlot(r)
  {
    var p := if c == Some(i) then Charge(Leave(s[i], how)) else Wait(s[i]);
    if policy != 3 then Boost(p) else p
  }

  ghost predicate IsRound(s: seq<Slot>, c: Option<nat>, how: Leaving, policy: int, t: seq<Slot>) {
    && Valid(s) && |t| == NPROC
    && (match c case Some(i) => IsChoice(s, i)
                case None => forall j | 0 <= j < NPROC :: s[j].state != RUNNABLE)
    && forall i: nat | i < NPROC :: t[i] == AfterRound(s, c, how, policy, i)
  }

  // ----- a round in numbers -----

  /** Runnable, below the top level, and long enough there: 500, 320 or 160 rounds. */
  predicate Patient(p: Slot)
    requires |p.waits| == 4
  {
    && p.state == RUNNABLE
    && ((p.prio == 0 && p.waits[0] >= 500) || (p.prio == 1 && p.waits[1] >= 320) || (p.prio == 2 && p.waits[2] >= 160))
  }

  /** The level is used up: 32, 16 or 8 ticks on it. */
  predicate UsedUp(p: Slot)
    requires |p.ticks| == 4
  {
    (p.prio == 1 && p.ticks[1] >= 32) || (p.prio == 2 && p.ticks[2] >= 16) || (p.prio == 3 && p.ticks[3] >= 8)
  }

  /** What a round makes of slot p. The chosen process pays one tick if it goes to sleep and two
      otherwise; every other runnable process waits one round more. Then the level falls by one if
      the chosen process has used it up, rises by one if the process is patient and the policy is
      not 3, and in either case all waiting starts afresh. */
  ghost predicate SlotRule(p: Slot, chosen: bool, how: Leaving, policy: int, q: Slot)
    requires ValidSlot(p)
  {
    var paid := if !chosen then 0 else if how == Sleep then 1 else 2;
    var wait := if !chosen && p.state == RUNNABLE then 1 else 0;
    var state := if !chosen then p.state else if how == Yield then RUNNABLE
                 else if how == Sleep then SLEEPING else ZOMBIE;
    var r := Slot(state, p.prio, p.ticks[p.prio := p.ticks[p.prio] + paid], p.waits[p.prio := p.waits[p.prio] + wait]);
    var falls, rises := chosen && UsedUp(r), policy != 3 && Patient(r);
    if falls then q == r.(prio := r.prio - 1, waits := [0, 0, 0, 0])
    else if rises then q == r.(prio := r.prio + 1, waits := [0, 0, 0, 0])
    else q == r
  }

  lemma RoundRule(s: seq<Slot>, c: Option<nat>, how: Leaving, policy: int, i: nat)
    requires Valid(s) && i < NPROC
    ensures SlotRule(s[i], c == Some(i), how, policy, AfterRound(s, c, how, policy, i))
  {
    hide Charge, Leave, Wait, Boost, Patient, UsedUp;
    var p := s[i];
    if c == Some(i) {
      PaidRule(p, how);
      BoostRule(Charge(Leave(p, how)));
      Rested(Charge(Leave(p, how)));
    } else {
      WaitRule(p);
      BoostRule(Wait(p));
    }
  }

  lemma PaidRule(p: Slot, how: Leaving)
    requires ValidSlot(p)
    ensures var paid := if how == Sleep then 1 else 2;
            var state := if how == Yield then RUNNABLE else if how == Sleep then SLEEPING else ZOMBIE;
            var r := Slot(state, p.prio, p.ticks[p.prio := p.ticks[p.prio] + paid],
                          p.waits[p.prio := p.waits[p.prio] + 0]);
            Charge(Leave(p, how)) == if UsedUp(r) then r.(prio := r.prio - 1, waits := [0, 0, 0, 0]) else r
  {
    var t := p.ticks[p.prio];
    assert p.ticks[p.prio := t + 1][p.prio := t + 2] == p.ticks[p.prio := t + 2];
    assert p.waits[p.prio := p.waits[p.prio] + 0] == p.waits;
  }

  lemma WaitRule(p: Slot)
    requires ValidSlot(p)
    ensures var wait := if p.state == RUNNABLE then 1 else 0;
            Wait(p) == Slot(p.state, p.prio, p.ticks[p.prio := p.ticks[p.prio] + 0],
                            p.waits[p.prio := p.waits[p.prio] + wait])
  {
    assert p.ticks[p.prio := p.ticks[p.prio] + 0] == p.ticks;
    assert p.waits[p.prio := p.waits[p.prio] + 0] == p.waits;
  }

  lemma BoostRule(p: Slot)
    requires ValidSlot(p)
    ensures Boost(p) == if Patient(p) then p.(prio := p.prio + 1, waits := [0, 0, 0, 0]) else p
  {
  }

  lemma Rested(p: Slot)
    requires ValidSlot(p)
    ensures p.waits == [0, 0, 0, 0] ==> !Patient(p)
  {
  }

  // ----- the scheduler -----

  class Scheduler {
    const slots: array<Slot>

    constructor ()
      ensures fresh(slots) && Valid(slots[..])
      ensures forall i | 0 <= i < NPROC :: slots[i].state == UNUSED
    {
      slots := new Slot[NPROC](_ => Slot(UNUSED, 0, ZEROS, ZEROS));
    }

    /** allocproc's part of the queue: a new process starts on the top level with clean counters. */
    method AllocProc() returns (r: Option<nat>)
      requires Valid(slots[..])
      modifies slots
      ensures Valid(slots[..])
      ensures r.None? ==> slots[..] == old(slots[..]) && forall i | 0 <= i < NPROC :: slots[i].state != UNUSED
      ensures r.Some? ==>
                && r.value < NPROC && old(slots[..])[r.value].state == UNUSED
                && (forall i | 0 <= i < r.value :: old(slots[..])[i].state != UNUSED)
                && slots[..] == old(slots[..])[r.value := Slot(EMBRYO, 3, ZEROS, ZEROS)]
    {
      var i := 0;
      while i < NPROC
        invariant 0 <= i <= NPROC
        invariant slots[..] == old(slots[..])
        invariant forall j | 0 <= j < i :: slots[j].state != UNUSED
      {
        if slots[i].state == UNUSED {
          slots[i] := Slot(EMBRYO, 3, ZEROS, ZEROS);
          return Some(i);
        }
        i := i + 1;
      }
      return None;
    }

    /** The nested selection loops. */
    method Select() returns (c: Option<nat>)
      requires Valid(slots[..])
      ensures c.Some? ==> c.value < NPROC && IsChoice(slots[..], c.value)
      ensures c.None? ==> forall j | 0 <= j < NPROC :: slots[j].state != RUNNABLE
    {
      var level := 3;
      while level >= 0
        invariant -1 <= level <= 3
        invariant forall j | 0 <= j < NPROC && slots[j].state == RUNNABLE :: slots[j].prio <= level
      {
        var i := 0;
        while i < NPROC
          invariant 0 <= i <= NPROC
          invariant forall j | 0 <= j < i :: !At(slots[j], level)
        {
          if At(slots[i], level) {
            return Some(i);
          }
          i := i + 1;
        }
        level := level - 1;
      }
      return None;
    }

    /** One turn of scheduler()'s MLFQ branch. */
    method Round(policy: int, how: Leaving) returns (c: Option<nat>)
      requires Valid(slots[..])
      modifies slots
      ensures IsRound(old(slots[..]), c, how, policy, slots[..])
      ensures forall i: nat | i < NPROC :: SlotRule(old(slots[i]), c == Some(i), how, policy, slots[i])
    {
      hide Charge, Leave, Wait, Boost, IsChoice, SlotRule;
      ghost var s := slots[..];
      c := Select();
      if c.Some? {
        RunChosen(c.value, how);
      }
      WaitAll(c);
      if policy != 3 {
        BoostAll();
      }
      forall i: nat | i < NPROC ensures SlotRule(old(slots[i]), c == Some(i), how, policy, slots[i]) {
        RoundRule(s, c, how, policy, i);
      }
    }

    /** Switch to the chosen process; it runs, gives the CPU back, and is charged. */
    method RunChosen(c: nat, how: Leaving)
      requires Valid(slots[..]) && c < NPROC
      modifies slots
      ensures Valid(slots[..])
      ensures forall j | 0 <= j < NPROC ::
              slots[j] == if j == c then Charge(Leave(old(slots[c]), how)) else old(slots[j])
    {
      slots[c] := slots[c].(state := RUNNING);
      slots[c] := Leave(slots[c], how);
      slots[c] := Charge(slots[c]);
    }

    method WaitAll(c: Option<nat>)
      requires Valid(slots[..])
      modifies slots
      ensures Valid(slots[..])
      ensures forall j: nat | j < NPROC :: slots[j] == if c == Some(j) then old(slots[j]) else Wait(old(slots[j]))
    {
      var i := 0;
      while i < NPROC
        invariant 0 <= i <= NPROC
        invariant forall j: nat | j < i :: slots[j] == if c == Some(j) then old(slots[j]) else Wait(old(slots[j]))
        invariant forall j | i <= j < NPROC :: slots[j] == old(slots[j])
      {
        if slots[i].state == RUNNABLE && c != Some(i) {
          slots[i] := slots[i].(waits := slots[i].waits[slots[i].prio := slots[i].waits[slots[i].prio] + 1]);
        }
        i := i + 1;
      }
    }

    method BoostAll()
      requires Valid(slots[..])
      modifies slots
      ensures forall j | 0 <= j < NPROC :: slots[j] == Boost(old(slots[j]))
      ensures forall j | 0 <= j < NPROC ::
                var p := old(slots[j]);
                |p.waits| == 4 && slots[j] == if Patient(p) then p.(prio := p.prio + 1, waits := [0, 0, 0, 0]) else p
    {
      var i := 0;
      while i < NPROC
        invariant 0 <= i <= NPROC
        invariant forall j | 0 <= j < i :: slots[j] == Boost(old(slots[j]))
        invariant forall j | i <= j < NPROC :: slots[j] == old(slots[j])
      {
        if slots[i].state == RUNNABLE && slots[i].prio < 3 {
          var waited := slots[i].waits[slots[i].prio];
          var required := if slots[i].prio == 0 then 500 else 10 * Threshold(slots[i].prio);
          if waited >= required {
            slots[i] := slots[i].(prio := slots[i].prio + 1, waits := ZEROS);
          }
        }
        i := i + 1;
      }
    }
  }
}
