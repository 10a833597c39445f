/** Under policies 1 and 2, on one CPU, a process that always wants to run is chosen again and again,
    whatever the others do: run, sleep, be woken, exit. None may be created in the meantime, because
    a new process starts on the top level with nothing on its account. */
module Starvation {
  import opened Options
  import opened Mlfq

  const CLIMB := 980      // rounds to the top level when never chosen: 500 + 320 + 160

  /** Off the CPU, processes may be woken, reaped or otherwise change state; a runnable process stays
      runnable. */
  ghost predicate Stirred(s: seq<Slot>, t: seq<Slot>) {
    && |s| == |t| == NPROC
    && forall i | 0 <= i < NPROC ::
         t[i] == s[i] || (s[i].state !in {RUNNABLE, RUNNING} && t[i] == s[i].(state := t[i].state))
  }

  /** A run of rounds: who was chosen in each, how the chosen process gave the CPU back, and the
      state the round led to before anything else happened. */
  ghost predicate IsRun(ss: seq<seq<Slot>>, mids: seq<seq<Slot>>, cs: seq<Option<nat>>, hs: seq<Leaving>, policy: int) {
    && |ss| == |cs| + 1 && |mids| == |hs| == |cs| && policy != 3
    && (forall k | 0 <= k < |ss| :: Valid(ss[k]))
    && forall k | 0 <= k < |cs| ::
         Valid(mids[k]) && IsRound(ss[k], cs[k], hs[k], policy, mids[k]) && Stirred(mids[k], ss[k + 1])
  }

  /** The ticks that every turn costs: two if nobody sleeps at the end of one, else one. */
  ghost predicate Costs(hs: seq<Leaving>, cost: nat) {
    1 <= cost <= 2 && (cost == 2 ==> forall k | 0 <= k < |hs| :: hs[k] != Sleep)
  }

  /** Rounds at the top level before everyone ahead has been demoted. */
  function Queue(cost: nat): nat {
    if cost == 2 then 320 else 757
  }

  /** p waits throughout. */
  ghost predicate Unchosen(cs: seq<Option<nat>>, p: nat) {
    forall k | 0 <= k < |cs| :: cs[k] != Some(p)
  }

  // ----- climbing to the top level -----

  ghost function Left(p: Slot): int
    requires ValidSlot(p)
  {
    if p.waits[p.prio] >= Patience(p.prio) then 1 else Patience(p.prio) - p.waits[p.prio]
  }

  /** Rounds until p is on the top level if it is never chosen. */
  ghost function Climb(p: Slot): (r: int)
    requires ValidSlot(p)
    ensures 0 <= r <= CLIMB
  {
    if p.prio == 3 then 0
    else if p.prio == 2 then Left(p)
    else if p.prio == 1 then 160 + Left(p)
    else 480 + Left(p)
  }

  lemma ClimbStep(p: Slot)
    requires ValidSlot(p) && p.state == RUNNABLE
    ensures var q := Boost(Wait(p));
            q.state == RUNNABLE && (p.prio == 3 ==> q.prio == 3) && Climb(q) <= if Climb(p) > 0 then Climb(p) - 1 else 0
  {
  }

  /** A process that is never chosen is on the top level after CLIMB rounds, and stays there. */
  lemma {:induction false} ReachesTop(ss: seq<seq<Slot>>, mids: seq<seq<Slot>>, cs: seq<Option<nat>>, hs: seq<Leaving>,
                                      policy: int, p: nat, k: nat)
    requires IsRun(ss, mids, cs, hs, policy) && Unchosen(cs, p) && k <= |cs|
    requires p < NPROC && ss[0][p].state == RUNNABLE
    ensures ss[k][p].state == RUNNABLE
    ensures Climb(ss[k][p]) <= if Climb(ss[0][p]) > k then Climb(ss[0][p]) - k else 0
  {
    if k > 0 {
      ReachesTop(ss, mids, cs, hs, policy, p, k - 1);
      assert IsRound(ss[k - 1], cs[k - 1], hs[k - 1], policy, mids[k - 1]) && Stirred(mids[k - 1], ss[k]);
      assert mids[k - 1][p] == AfterRound(ss[k - 1], cs[k - 1], hs[k - 1], policy, p);
      ClimbStep(ss[k - 1][p]);
    }
  }

  // ----- waiting at the top level -----

  /** Turns a process can still take on the top level without being demoted: ticks never go down. */
  ghost function Free(p: Slot, cost: nat): (r: int)
    requires ValidSlot(p) && 1 <= cost <= 2
    ensures 0 <= r <= if cost == 2 then 3 else 7
  {
    if p.ticks[3] >= 7 then 0 else (7 - p.ticks[3]) / cost
  }

  /** Rounds a process must at least wait before it is (back) on the top level. */
  ghost function Away(p: Slot): (r: int)
    requires ValidSlot(p)
    ensures 0 <= r <= 160
  {
    if p.prio == 3 then 0 else if p.prio == 2 then Left(p) else 160
  }

  /** Demotions from the top level that fit into r rounds: two are 161 rounds apart. */
  ghost function Demotions(r: int): (d: int)
    ensures d >= 0
  {
    if r <= 0 then 0 else (r + 160) / 161
  }

  /** An upper bound on the turns a process takes on the top level in the next r rounds. */
  ghost function Turns(p: Slot, cost: nat, r: int): (t: int)
    requires ValidSlot(p) && 1 <= cost <= 2
    ensures t >= 0 && (r <= Queue(cost) ==> t <= if cost == 2 then 5 else 12)
  {
    Free(p, cost) + Demotions(r - Away(p))
  }

  lemma TurnTaken(p: Slot, how: Leaving, cost: nat, r: int)
    requires ValidSlot(p) && At(p, 3) && Costs([how], cost) && r >= 1
    ensures Turns(Boost(Charge(Leave(p, how))), cost, r - 1) <= Turns(p, cost, r) - 1
  {
    assert cost == 2 ==> [how][0] != Sleep;
    assert Demotions(r - 161) + 1 == Demotions(r);
  }

  lemma TurnNotTaken(p: Slot, cost: nat, r: int)
    requires ValidSlot(p) && 1 <= cost <= 2 && r >= 1
    ensures Turns(Boost(Wait(p)), cost, r - 1) <= Turns(p, cost, r)
  {
  }

  /** Turns of the first n slots other than p. */
  ghost function Sum(s: seq<Slot>, p: nat, cost: nat, r: int, n: nat): (t: int)
    requires Valid(s) && n <= NPROC && 1 <= cost <= 2
    ensures t >= 0
    ensures r <= Queue(cost) ==> t <= (if cost == 2 then 5 else 12) * (if p < n then n - 1 else n)
  {
    if n == 0 then 0 else Sum(s, p, cost, r, n - 1) + if n - 1 == p then 0 else Turns(s[n - 1], cost, r)
  }

  /** While p waits at the top, every round uses up one of the turns the others have. */
  lemma {:induction false} SumStep(s: seq<Slot>, c: nat, how: Leaving, policy: int, mid: seq<Slot>, t: seq<Slot>,
                                   p: nat, cost: nat, r: int, n: nat)
    requires IsRound(s, Some(c), how, policy, mid) && policy != 3 && Valid(mid) && Stirred(mid, t) && Valid(t)
    requires c < NPROC && c != p && At(s[c], 3) && Costs([how], cost) && r >= 1 && n <= NPROC
    ensures Sum(t, p, cost, r - 1, n) <= Sum(s, p, cost, r, n) - if c < n then 1 else 0
  {
    hide Turns, IsRound, Stirred, Costs;
    CostIs([how], cost);
    if n > 0 {
      SumStep(s, c, how, policy, mid, t, p, cost, r, n - 1);
      TurnStep(s, c, how, policy, mid, t, n - 1, cost, r);
    }
  }

  lemma CostIs(hs: seq<Leaving>, cost: nat)
    requires Costs(hs, cost)
    ensures 1 <= cost <= 2
  {
  }

  lemma TurnStep(s: seq<Slot>, c: nat, how: Leaving, policy: int, mid: seq<Slot>, t: seq<Slot>,
                 i: nat, cost: nat, r: int)
    requires IsRound(s, Some(c), how, policy, mid) && policy != 3 && Valid(mid) && Stirred(mid, t) && Valid(t)
    requires c < NPROC && i < NPROC && At(s[c], 3) && Costs([how], cost) && r >= 1
    ensures Turns(t[i], cost, r - 1) <= Turns(s[i], cost, r) - if c == i then 1 else 0
  {
    hide Boost, Wait, Charge, Leave, Demotions;
    assert mid[i] == AfterRound(s, Some(c), how, policy, i);
    StateAside(mid[i], t[i], cost, r - 1);
    hide Turns, IsRound, Stirred, Costs;
    if i == c { TurnTaken(s[c], how, cost, r); } else { TurnNotTaken(s[i], cost, r); }
  }

  lemma StateAside(p: Slot, q: Slot, cost: nat, r: int)
    requires ValidSlot(p) && ValidSlot(q) && q == p.(state := q.state) && 1 <= cost <= 2
    ensures Turns(q, cost, r) == Turns(p, cost, r)
  {
  }

  lemma {:induction false} TurnsRunOut(ss: seq<seq<Slot>>, mids: seq<seq<Slot>>, cs: seq<Option<nat>>, hs: seq<Leaving>,
                                       policy: int, p: nat, cost: nat, k: nat)
    requires IsRun(ss, mids, cs, hs, policy) && Costs(hs, cost) && Unchosen(cs, p) && |cs| <= Queue(cost) && k <= |cs|
    requires p < NPROC && ss[0][p].state == RUNNABLE && ss[0][p].prio == 3
    ensures Sum(ss[k], p, cost, Queue(cost) - k, NPROC) <= Sum(ss[0], p, cost, Queue(cost), NPROC) - k
  {
    hide Sum, Turns;
    if k > 0 {
      TurnsRunOut(ss, mids, cs, hs, policy, p, cost, k - 1);
      ReachesTop(ss, mids, cs, hs, policy, p, k - 1);
      var s, mid, t := ss[k - 1], mids[k - 1], ss[k];
      assert IsRound(s, cs[k - 1], hs[k - 1], policy, mid) && Stirred(mid, t);
      var c := cs[k - 1].value;
      assert s[p].prio <= s[c].prio;
      assert Costs([hs[k - 1]], cost);
      SumStep(s, c, hs[k - 1], policy, mid, t, p, cost, Queue(cost) - k + 1, NPROC);
    }
  }

  /** Nobody waits at the top level for Queue(cost) rounds. */
  lemma TopIsServed(ss: seq<seq<Slot>>, mids: seq<seq<Slot>>, cs: seq<Option<nat>>, hs: seq<Leaving>, policy: int,
                    p: nat, cost: nat)
    requires IsRun(ss, mids, cs, hs, policy) && Costs(hs, cost) && |cs| == Queue(cost)
    requires p < NPROC && ss[0][p].state == RUNNABLE && ss[0][p].prio == 3
    ensures !Unchosen(cs, p)
  {
    if Unchosen(cs, p) {
      TurnsRunOut(ss, mids, cs, hs, policy, p, cost, Queue(cost));
    }
  }

  /** Starvation freedom: from any state of the counters, a process that always wants to run is
      chosen within 1737 rounds, whatever the others do, and within 1300 if none of them ends a turn
      by sleeping. */
  lemma NoStarvation(ss: seq<seq<Slot>>, mids: seq<seq<Slot>>, cs: seq<Option<nat>>, hs: seq<Leaving>, policy: int,
                     p: nat, cost: nat)
    requires IsRun(ss, mids, cs, hs, policy) && Costs(hs, cost) && |cs| == if cost == 2 then 1300 else 1737
    requires p < NPROC && ss[0][p].state == RUNNABLE
    ensures exists k :: 0 <= k < |cs| && cs[k] == Some(p)
  {
    if Unchosen(cs, p) {
      ReachesTop(ss, mids, cs, hs, policy, p, CLIMB);
      TopIsServed(ss[CLIMB..], mids[CLIMB..], cs[CLIMB..], hs[CLIMB..], policy, p, cost);
    }
  }

  /** The counters stay far from overflow for a billion rounds. */
  lemma {:induction false} NoOverflow(ss: seq<seq<Slot>>, mids: seq<seq<Slot>>, cs: seq<Option<nat>>, hs: seq<Leaving>,
                                      policy: int, i: nat, l: nat, k: nat)
    requires IsRun(ss, mids, cs, hs, policy) && k <= |cs| && i < NPROC && l < 4
    ensures ss[k][i].ticks[l] <= ss[0][i].ticks[l] + 2 * k
    ensures ss[k][i].waits[l] <= ss[0][i].waits[l] + k
  {
    hide IsRound;
    if k > 0 {
      NoOverflow(ss, mids, cs, hs, policy, i, l, k - 1);
      CounterStep(ss[k - 1], cs[k - 1], hs[k - 1], policy, mids[k - 1], i, l);
      assert Stirred(mids[k - 1], ss[k]);
    }
  }

  lemma CounterStep(s: seq<Slot>, c: Option<nat>, how: Leaving, policy: int, t: seq<Slot>, i: nat, l: nat)
    requires IsRound(s, c, how, policy, t) && Valid(t) && i < NPROC && l < 4
    ensures t[i].ticks[l] <= s[i].ticks[l] + 2 && t[i].waits[l] <= s[i].waits[l] + 1
  {
    hide Charge, Leave, Wait, Boost, IsChoice;
    assert t[i] == AfterRound(s, c, how, policy, i) && ValidSlot(s[i]) && ValidSlot(t[i]);
    hide IsRound, Valid;
    SlotCounters(s[i], how, l);
  }

  lemma SlotCounters(p: Slot, how: Leaving, l: nat)
    requires ValidSlot(p) && l < 4
    ensures Charge(Leave(p, how)).ticks[l] <= p.ticks[l] + 2 && Charge(Leave(p, how)).waits[l] <= p.waits[l]
    ensures Wait(p).ticks[l] == p.ticks[l] && Wait(p).waits[l] <= p.waits[l] + 1
    ensures forall q | ValidSlot(q) :: Boost(q).ticks == q.ticks && Boost(q).waits[l] <= q.waits[l]
  {
  }
}
