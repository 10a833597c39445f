/** Log space reservation: begin_op, log_write and end_op by any number of concurrent
    file system operations, in any order. Each operation is the set of blocks it has
    logged so far; `outstanding` is the number of operations. */
module LogReservation {
  import opened Counting
  import opened Params

  datatype LogSt = LogSt(lh: seq<nat>, ops: seq<set<nat>>, committing: bool)

  datatype Step = Begin | Write(op: nat, b: nat) | End(op: nat) | CommitDone

  const INIT := LogSt([], [], false)

  /** log absorption: a block already listed is not listed again. */
  function Absorb(lh: seq<nat>, b: nat): (r: seq<nat>) {
    if b in lh then lh else lh + [b]
  }

  /** begin_op lets the caller in. */
  predicate MayBegin(n: nat, outstanding: nat, committing: bool) {
    !committing && n + (outstanding + 1) * MAXOPBLOCKS <= LOGSIZE
  }

  /** log_write's "too big a transaction" and "outside of trans". */
  predicate WritePanics(n: nat, outstanding: nat, size: nat) {
    n >= LOGSIZE || n >= size - 1 || outstanding < 1
  }

  function Without(ops: seq<set<nat>>, i: nat): (r: seq<set<nat>>)
    requires i < |ops|
  {
    ops[..i] + ops[i + 1..]
  }

  /** One atomic section. An operation keeps to its share: at most MAXOPBLOCKS distinct blocks. */
  ghost predicate Next(s: LogSt, e: Step, t: LogSt) {
    match e
    case Begin =>
      MayBegin(|s.lh|, |s.ops|, s.committing) && t == s.(ops := s.ops + [{}])
    case Write(i, b) =>
      && i < |s.ops| && |s.ops[i] + {b}| <= MAXOPBLOCKS
      && t == s.(lh := Absorb(s.lh, b), ops := s.ops[i := s.ops[i] + {b}])
    case End(i) =>
      && i < |s.ops|
      && t == LogSt(s.lh, Without(s.ops, i), |s.ops| == 1)
    case CommitDone =>
      s.committing && t == LogSt([], s.ops, false)
  }

  ghost predicate IsRun(ss: seq<LogSt>, es: seq<Step>) {
    && |ss| == |es| + 1 && ss[0] == INIT
    && forall i | 0 <= i < |es| :: Next(ss[i], es[i], ss[i + 1])
  }

  lemma LongerRun(ss: seq<LogSt>, es: seq<Step>, e: Step, t: LogSt)
    requires IsRun(ss, es) && Next(ss[|es|], e, t)
    ensures IsRun(ss + [t], es + [e])
  {
    hide Next;
    var ss', es' := ss + [t], es + [e];
    forall i | 0 <= i < |es'| ensures Next(ss'[i], es'[i], ss'[i + 1]) {
      if i < |es| {
        assert Next(ss[i], es[i], ss[i + 1]);
      }
    }
  }

  /** What the operations in progress may still log. */
  ghost function Unused(ops: seq<set<nat>>): (r: int) {
    if ops == [] then 0 else Unused(ops[..|ops| - 1]) + MAXOPBLOCKS - |ops[|ops| - 1]|
  }

  ghost predicate Inv(s: LogSt) {
    && (forall i, j | 0 <= i < j < |s.lh| :: s.lh[i] != s.lh[j])
    && (forall i | 0 <= i < |s.ops| :: |s.ops[i]| <= MAXOPBLOCKS && forall b | b in s.ops[i] :: b in s.lh)
    && |s.lh| + Unused(s.ops) <= LOGSIZE
    && (s.committing ==> s.ops == [])
    && (s.ops == [] && !s.committing ==> s.lh == [])
  }

  lemma {:induction false} UnusedBounds(ops: seq<set<nat>>)
    requires forall i | 0 <= i < |ops| :: |ops[i]| <= MAXOPBLOCKS
    ensures 0 <= Unused(ops) <= |ops| * MAXOPBLOCKS
  {
    if ops != [] { UnusedBounds(ops[..|ops| - 1]); }
  }

  lemma {:induction false} UnusedOne(ops: seq<set<nat>>, i: nat)
    requires i < |ops|
    ensures Unused(ops) == Unused(Without(ops, i)) + MAXOPBLOCKS - |ops[i]|
  {
    var last := |ops| - 1;
    if i == last {
      assert Without(ops, i) == ops[..last];
    } else {
      UnusedOne(ops[..last], i);
      assert Without(ops, i)[..last - 1] == Without(ops[..last], i);
    }
  }

  lemma WriteKeepsInv(s: LogSt, i: nat, b: nat, t: LogSt)
    requires Inv(s) && Next(s, Write(i, b), t)
    ensures Inv(t)
  {
    assert Without(s.ops, i) == Without(t.ops, i);
    UnusedOne(s.ops, i);
    UnusedOne(t.ops, i);
    if b !in s.lh {
      assert b !in s.ops[i];
    }
    var grown := if b in s.ops[i] then 0 else 1;
    assert |s.ops[i] + {b}| == |s.ops[i]| + grown by {
      if b in s.ops[i] { assert s.ops[i] + {b} == s.ops[i]; }
    }
  }

  lemma EndKeepsInv(s: LogSt, i: nat, t: LogSt)
    requires Inv(s) && Next(s, End(i), t)
    ensures Inv(t)
  {
    UnusedOne(s.ops, i);
    forall j | 0 <= j < |t.ops|
      ensures |t.ops[j]| <= MAXOPBLOCKS && forall b | b in t.ops[j] :: b in s.lh
    {
      assert t.ops[j] == s.ops[if j < i then j else j + 1];
    }
  }

  lemma InvStep(s: LogSt, e: Step, t: LogSt)
    requires Inv(s) && Next(s, e, t)
    ensures Inv(t)
  {
    match e
    case Begin =>
      UnusedBounds(s.ops);
      assert t.ops[..|s.ops|] == s.ops;
    case Write(i, b) =>
      WriteKeepsInv(s, i, b, t);
    case End(i) =>
      EndKeepsInv(s, i, t);
    case CommitDone =>
  }

  /** Over every interleaving: logged blocks are distinct, the log can hold what is listed
      plus every unused reservation, and nobody is inside an operation during a commit. */
  lemma {:induction false} ReservationSafety(ss: seq<LogSt>, es: seq<Step>)
    requires IsRun(ss, es)
    ensures Inv(ss[|es|])
    decreases |es|
  {
    if es != [] {
      var n := |es| - 1;
      ReservationSafety(ss[..n + 1], es[..n]);
      InvStep(ss[n], es[n], ss[n + 1]);
    }
  }

  lemma ListFits(s: LogSt)
    requires Inv(s)
    ensures |s.lh| <= LOGSIZE
  {
    UnusedBounds(s.ops);
  }

  /** end_op's "log.committing" panic is unreachable: whoever calls it is an operation. */
  lemma EndNeverPanics(ss: seq<LogSt>, es: seq<Step>, i: nat)
    requires IsRun(ss, es) && i < |ss[|es|].ops|
    ensures !ss[|es|].committing
  {
    ReservationSafety(ss, es);
  }

  /** log_write by an operation within its share panics exactly when the list is full, even if
      the block would be absorbed; then every reservation is used up and the block is already
      listed. So logging a block for the first time never panics. (The log is larger than LOGSIZE.) */
  lemma WritePanicsIff(ss: seq<LogSt>, es: seq<Step>, i: nat, b: nat, size: nat)
    requires IsRun(ss, es) && i < |ss[|es|].ops| && |ss[|es|].ops[i] + {b}| <= MAXOPBLOCKS && size > LOGSIZE
    ensures var s := ss[|es|];
            && (WritePanics(|s.lh|, |s.ops|, size) <==> |s.lh| == LOGSIZE)
            && (WritePanics(|s.lh|, |s.ops|, size) ==> b in s.lh && Unused(s.ops) == 0)
  {
    ReservationSafety(ss, es);
    var s := ss[|es|];
    UnusedBounds(s.ops);
    UnusedOne(s.ops, i);
    UnusedBounds(Without(s.ops, i));
    if |s.lh| == LOGSIZE {
      assert b in s.ops[i];
    }
  }

  /** A run in which no log_write has panicked on a log of `size` blocks. */
  ghost predicate NoPanic(ss: seq<LogSt>, es: seq<Step>, size: nat) {
    |ss| == |es| + 1 && forall k | 0 <= k < |es| && es[k].Write? :: !WritePanics(|ss[k].lh|, |ss[k].ops|, size)
  }

  /** On a log of at most LOGSIZE blocks the list stops one short of the log, and there every
      log_write panics. */
  lemma {:induction false} WritePanicsSmallLog(ss: seq<LogSt>, es: seq<Step>, size: nat)
    requires IsRun(ss, es) && NoPanic(ss, es, size) && 1 <= size <= LOGSIZE
    ensures |ss[|es|].lh| <= size - 1
    ensures var s := ss[|es|]; s.ops != [] ==> (WritePanics(|s.lh|, |s.ops|, size) <==> |s.lh| == size - 1)
    decreases |es|
  {
    if es != [] {
      var n := |es| - 1;
      WritePanicsSmallLog(ss[..n + 1], es[..n], size);
      assert Next(ss[n], es[n], ss[n + 1]);
      assert es[n].Write? ==> !WritePanics(|ss[n].lh|, |ss[n].ops|, size);
    }
  }

  /** What begin_op promises: an operation within its share can log a block that is not listed. */
  ghost predicate PromiseKept(size: nat) {
    forall ss: seq<LogSt>, es: seq<Step>, i: nat, b: nat
      | IsRun(ss, es) && NoPanic(ss, es, size) && FirstWrite(ss[|es|], i, b) ::
        !WritePanics(|ss[|es|].lh|, |ss[|es|].ops|, size)
  }

  ghost predicate FirstWrite(s: LogSt, i: nat, b: nat) {
    i < |s.ops| && |s.ops[i] + {b}| <= MAXOPBLOCKS && b !in s.lh
  }

  /** The promise is kept if and only if the log is longer than LOGSIZE; mkfs makes it LOGSIZE. */
  lemma PromiseKeptIff(size: nat)
    ensures PromiseKept(size) <==> size > LOGSIZE
  {
    if size > LOGSIZE {
      forall ss: seq<LogSt>, es: seq<Step>, i: nat, b: nat
        | IsRun(ss, es) && NoPanic(ss, es, size) && FirstWrite(ss[|es|], i, b)
        ensures !WritePanics(|ss[|es|].lh|, |ss[|es|].ops|, size)
      {
        WritePanicsIff(ss, es, i, b, size);
      }
    } else {
      var ss, es, i, b := BrokenPromise(size);
    }
  }

  /** For every log of at most LOGSIZE blocks, a run in which an operation within its share panics
      on a block that it logs for the first time. */
  lemma BrokenPromise(size: nat) returns (ss: seq<LogSt>, es: seq<Step>, i: nat, b: nat)
    requires size <= LOGSIZE
    ensures IsRun(ss, es) && NoPanic(ss, es, size) && FirstWrite(ss[|es|], i, b)
    ensures WritePanics(|ss[|es|].lh|, |ss[|es|].ops|, size)
  {
    b := if size == 0 then 0 else size - 1;
    i := b / MAXOPBLOCKS;
    ss, es := FillRun(b);
    FillStep(b);
    hide Slice, UpTo;
  }

  /** The full list is reachable: three operations log ten different blocks each, and the first
      then logs one of its own again. */
  lemma FullLogReachable() returns (ss: seq<LogSt>, es: seq<Step>)
    ensures IsRun(ss, es) && forall size: nat | size > LOGSIZE :: NoPanic(ss, es, size)
    ensures var s := ss[|es|];
            && |s.ops| == 3 && 0 in s.ops[0] && |s.ops[0] + {0}| <= MAXOPBLOCKS
            && forall size: nat :: WritePanics(|s.lh|, |s.ops|, size)
  {
    ss, es := FillRun(LOGSIZE);
    SliceHasFirst(LOGSIZE);
    SliceSize(0, LOGSIZE);
    hide Slice, UpTo;
  }

  lemma SliceHasFirst(k: nat)
    requires k > 0
    ensures 0 in Slice(0, k) && Slice(0, k) + {0} == Slice(0, k)
  {
  }

  lemma {:induction false} FillRun(k: nat) returns (ss: seq<LogSt>, es: seq<Step>)
    requires k <= LOGSIZE
    ensures IsRun(ss, es) && ss[|es|] == Filled(k)
    ensures forall j | 0 <= j < |es| && es[j].Write? :: |ss[j].lh| < k && |ss[j].ops| == 3
  {
    hide Next, Filled;
    if k == 0 {
      ss, es := FillStart();
    } else {
      ss, es := FillRun(k - 1);
      FillStep(k - 1);
      FilledShape(k - 1);
      ss, es := ss + [Filled(k)], es + [Write((k - 1) / MAXOPBLOCKS, k - 1)];
    }
  }

  lemma FillStart() returns (ss: seq<LogSt>, es: seq<Step>)
    ensures IsRun(ss, es) && ss[|es|] == Filled(0) && forall j | 0 <= j < |es| :: !es[j].Write?
  {
    ss := [INIT, LogSt([], [{}], false), LogSt([], [{}, {}], false), LogSt([], [{}, {}, {}], false)];
    es := [Begin, Begin, Begin];
    assert Slice(0, 0) == Slice(10, 0) == Slice(20, 0) == {};
  }

  lemma FilledShape(k: nat)
    ensures |Filled(k).lh| == k && |Filled(k).ops| == 3
  {
    hide Slice;
  }

  /** Blocks 0 .. k - 1 logged, ten by each operation. */
  function Filled(k: nat): LogSt {
    LogSt(UpTo(k), [Slice(0, k), Slice(10, k), Slice(20, k)], false)
  }

  lemma FillStep(k: nat)
    requires k < LOGSIZE
    ensures Next(Filled(k), Write(k / MAXOPBLOCKS, k), Filled(k + 1))
  {
    hide Slice, Range, UpTo;
    var (s, t) := (Filled(k), Filled(k + 1));
    assert UpTo(k + 1) == UpTo(k) + [k];
    assert t.lh == Absorb(s.lh, k);
    SliceStep(0, k);
    SliceStep(10, k);
    SliceStep(20, k);
    var i := k / MAXOPBLOCKS;
    assert i == if k < 10 then 0 else if k < 20 then 1 else 2;
    assert t.ops == s.ops[i := s.ops[i] + {k}];
    SliceSize(0, k + 1);
    SliceSize(10, k + 1);
    SliceSize(20, k + 1);
  }

  function UpTo(k: nat): (r: seq<nat>)
    ensures |r| == k && forall i | 0 <= i < k :: r[i] == i
  {
    if k == 0 then [] else UpTo(k - 1) + [k - 1]
  }

  /** The blocks lo .. lo + 9, as far as they are below k. */
  function Slice(lo: nat, k: nat): (r: set<nat>) {
    set b | b in Range(k) && lo <= b < lo + MAXOPBLOCKS
  }

  lemma SliceSize(lo: nat, k: nat)
    ensures |Slice(lo, k)| <= MAXOPBLOCKS
  {
    var below, upto := Range(lo), Range(lo + MAXOPBLOCKS);
    SubsetSize(Slice(lo, k), upto - below);
    assert upto == below + (upto - below);
  }

  lemma SliceStep(lo: nat, k: nat)
    ensures Slice(lo, k + 1) == if lo <= k < lo + MAXOPBLOCKS then Slice(lo, k) + {k} else Slice(lo, k)
  {
    assert Range(k + 1) == Range(k) + {k};
  }
}
