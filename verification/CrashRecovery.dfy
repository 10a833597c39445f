/** What the write-ahead log puts on disk, block write by block write, and why any crash
    followed by any number of interrupted recoveries leaves a transaction all done or not
    done at all.

    A disk image is a sequence of blocks; one block write is atomic. The log region is
    [start, start + size): a header block, then one block per logged block. */
module CrashRecovery {
  import opened Blocks
  import opened Params

  datatype Layout = Layout(start: nat, size: nat, disk: nat) {
    ghost predicate Valid() {
      size >= 1 && start + size <= disk <= UINT
    }

    ghost predicate InLog(b: nat) {
      start <= b < start + size
    }

    ghost predicate Home(b: nat) {
      b < disk && !InLog(b)
    }

    /** Block numbers a transaction may name: at most LOGSIZE of them, they fit in the log,
        and none lies in the log itself. */
    ghost predicate Loggable(blocks: seq<nat>) {
      && |blocks| <= LOGSIZE && |blocks| + 1 <= size
      && forall i | 0 <= i < |blocks| :: Home(blocks[i])
    }
  }

  type Image = seq<Block>

  // ----- header block -----

  /** The header block as write_head's loop fills it, from entry i on. */
  function FillHead(hb: Block, blocks: seq<nat>, i: nat): (r: Block)
    requires i <= |blocks| <= LOGSIZE
    requires forall k | 0 <= k < |blocks| :: blocks[k] < UINT
    ensures GetWord(r, 0) == GetWord(hb, 0)
    ensures forall k | 1 <= k <= i :: GetWord(r, k) == GetWord(hb, k)
    ensures forall k | i <= k < |blocks| :: GetWord(r, k + 1) == blocks[k]
    decreases |blocks| - i
  {
    if i == |blocks| then hb else FillHead(PutWord(hb, i + 1, blocks[i]), blocks, i + 1)
  }

  /** The header block write_head produces from the block's previous contents. */
  function HeadBlock(hb: Block, blocks: seq<nat>): (r: Block)
    requires |blocks| <= LOGSIZE
    requires forall k | 0 <= k < |blocks| :: blocks[k] < UINT
    ensures Head(r) == blocks
  {
    var r := FillHead(PutWord(hb, 0, |blocks|), blocks, 0);
    assert Head(r) == blocks;
    r
  }

  /** The block numbers a header lists. */
  function Head(hb: Block): (blocks: seq<nat>)
    ensures |blocks| == GetWord(hb, 0)
  {
    seq(GetWord(hb, 0), (k: nat) => if k + 1 < WORDS then GetWord(hb, k + 1) else 0)
  }

  // ----- writes -----

  /** The image after a list of block writes. */
  function Apply(d: Image, ws: seq<(nat, Block)>): (r: Image)
    requires forall w | w in ws :: w.0 < |d|
    ensures |r| == |d|
  {
    if ws == [] then d
    else
      var last := |ws| - 1;
      assert ws[last] in ws;
      Apply(d, ws[..last])[ws[last].0 := ws[last].1]
  }

  /** write_log: log block i gets the contents of logged block i. */
  function LogWrites(l: Layout, data: seq<Block>): (ws: seq<(nat, Block)>)
    ensures |ws| == |data|
  {
    seq(|data|, (i: nat) requires i < |data| => var b: nat := l.start + i + 1; (b, data[i]))
  }

  /** What a transaction will put in its blocks: their contents as the file system sees them. */
  ghost function Pending(view: Image, blocks: seq<nat>): (data: seq<Block>)
    requires forall i | 0 <= i < |blocks| :: blocks[i] < |view|
    ensures |data| == |blocks|
  {
    seq(|blocks|, (i: nat) requires i < |blocks| => view[blocks[i]])
  }

  /** install_trans: logged block i goes to its home. */
  function HomeWrites(blocks: seq<nat>, data: seq<Block>): (ws: seq<(nat, Block)>)
    requires |blocks| == |data|
    ensures |ws| == |data|
  {
    seq(|data|, (i: nat) requires i < |data| => (blocks[i], data[i]))
  }

  /** The second part of commit(): header, install, clear. hb is the header block's old contents. */
  function SealWrites(l: Layout, hb: Block, blocks: seq<nat>, data: seq<Block>): (ws: seq<(nat, Block)>)
    requires l.Valid() && l.Loggable(blocks) && |blocks| == |data|
    ensures |ws| == |blocks| + 2
    ensures forall w | w in ws :: w.0 < l.disk
  {
    var head := HeadBlock(hb, blocks);
    [(l.start, head)] + HomeWrites(blocks, data) + [(l.start, HeadBlock(head, []))]
  }

  /** commit(): log, header, install, clear. Nothing at all for an empty transaction. */
  function CommitWrites(l: Layout, d: Image, blocks: seq<nat>, data: seq<Block>): (ws: seq<(nat, Block)>)
    requires l.Valid() && |d| == l.disk && l.Loggable(blocks) && |blocks| == |data|
    ensures |ws| == if blocks == [] then 0 else 2 * |blocks| + 2
    ensures forall w | w in ws :: w.0 < |d|
  {
    if blocks == [] then [] else LogWrites(l, data) + SealWrites(l, d[l.start], blocks, data)
  }

  /** What a header on disk may say: nothing, or a transaction that fits. */
  ghost predicate WellFormed(l: Layout, d: Image) {
    l.Valid() && |d| == l.disk && l.Loggable(Head(d[l.start]))
  }

  function LogData(l: Layout, d: Image, n: nat): (data: seq<Block>)
    requires l.start + n < |d|
    ensures |data| == n
  {
    d[l.start + 1..l.start + 1 + n]
  }

  /** recover_from_log(): install whatever the header lists, then clear it. */
  function RecoverWrites(l: Layout, d: Image): (ws: seq<(nat, Block)>)
    requires WellFormed(l, d)
    ensures |ws| == |Head(d[l.start])| + 1
    ensures forall w | w in ws :: w.0 < |d|
  {
    var blocks := Head(d[l.start]);
    HomeWrites(blocks, LogData(l, d, |blocks|)) + [(l.start, HeadBlock(d[l.start], []))]
  }

  // ----- reasoning about writes -----

  lemma {:induction false} ApplyAppend(d: Image, a: seq<(nat, Block)>, b: seq<(nat, Block)>)
    requires forall w | w in a + b :: w.0 < |d|
    ensures forall w | w in a :: w.0 < |d|
    ensures forall w | w in b :: w.0 < |Apply(d, a)|
    ensures Apply(d, a + b) == Apply(Apply(d, a), b)
  {
    assert forall w | w in a :: w in a + b;
    assert forall w | w in b :: w in a + b;
    if b == [] {
      assert a + b == a;
    } else {
      var last := |b| - 1;
      assert (a + b)[..|a + b| - 1] == a + b[..last];
      assert forall w | w in a + b[..last] :: w in a + b;
      ApplyAppend(d, a, b[..last]);
    }
  }

  /** A block no write names keeps its contents. */
  lemma {:induction false} ApplyOther(d: Image, ws: seq<(nat, Block)>, n: nat)
    requires forall w | w in ws :: w.0 < |d| && w.0 != n
    requires n < |d|
    ensures Apply(d, ws)[n] == d[n]
  {
    if ws != [] {
      assert ws[|ws| - 1] in ws;
      ApplyOther(d, ws[..|ws| - 1], n);
    }
  }

  /** Two images that agree wherever the writes do not reach agree after the writes. */
  lemma {:induction false} ApplyAgree(d: Image, e: Image, ws: seq<(nat, Block)>, n: nat)
    requires |d| == |e| && n < |d| && forall w | w in ws :: w.0 < |d|
    requires d[n] == e[n] || exists w :: w in ws && w.0 == n
    ensures Apply(d, ws)[n] == Apply(e, ws)[n]
  {
    if ws != [] {
      var last := |ws| - 1;
      assert ws[last] in ws;
      if ws[last].0 != n {
        if d[n] != e[n] {
          var w :| w in ws && w.0 == n;
          assert w in ws[..last];
        }
        ApplyAgree(d, e, ws[..last], n);
      }
    }
  }

  lemma {:induction false} ApplyLog(l: Layout, d: Image, data: seq<Block>, i: nat)
    requires l.Valid() && |d| == l.disk && |data| + 1 <= l.size && i < |data|
    ensures Apply(d, LogWrites(l, data))[l.start + 1 + i] == data[i]
  {
    var n := |data| - 1;
    assert LogWrites(l, data)[..n] == LogWrites(l, data[..n]);
    if i < n {
      ApplyLog(l, d, data[..n], i);
    }
  }

  // ----- invariants across crashes -----

  /** The home blocks of d are those of h. */
  ghost predicate SameHome(l: Layout, d: Image, h: Image) {
    |d| == |h| == l.disk && forall b | 0 <= b < l.disk && l.Home(b) :: d[b] == h[b]
  }

  /** No transaction is on disk, and the home blocks are those of h. */
  ghost predicate Clean(l: Layout, d: Image, h: Image) {
    WellFormed(l, d) && Head(d[l.start]) == [] && SameHome(l, d, h)
  }

  /** The header lists blocks, the log holds data, and installing gives the home blocks h. */
  ghost predicate Committed(l: Layout, d: Image, blocks: seq<nat>, data: seq<Block>, h: Image) {
    && WellFormed(l, d) && |h| == l.disk && |blocks| == |data|
    && Head(d[l.start]) == blocks && LogData(l, d, |blocks|) == data
    && (forall b | 0 <= b < l.disk && l.Home(b) :: Apply(d, HomeWrites(blocks, data))[b] == h[b])
  }

  /** An image whose recovery will produce the home blocks h. */
  ghost predicate RecoversTo(l: Layout, d: Image, h: Image) {
    Clean(l, d, h)
    || (WellFormed(l, d) && var blocks := Head(d[l.start]); Committed(l, d, blocks, LogData(l, d, |blocks|), h))
  }

  /** Part of an installation leaves the log itself alone, so it can be started over. */
  lemma InstallPrefix(l: Layout, d: Image, blocks: seq<nat>, data: seq<Block>, h: Image, k: nat)
    requires Committed(l, d, blocks, data, h) && k <= |blocks|
    ensures forall w | w in HomeWrites(blocks, data)[..k] :: w.0 < |d|
    ensures Committed(l, Apply(d, HomeWrites(blocks, data)[..k]), blocks, data, h)
  {
    var ws := HomeWrites(blocks, data);
    InstallKeepsLog(l, d, blocks, data, k);
    var e := Apply(d, ws[..k]);
    forall b | 0 <= b < l.disk && l.Home(b) ensures Apply(e, ws)[b] == h[b] {
      Reinstall(d, blocks, data, k, b);
    }
  }

  lemma InstallKeepsLog(l: Layout, d: Image, blocks: seq<nat>, data: seq<Block>, k: nat)
    requires l.Valid() && |d| == l.disk && l.Loggable(blocks) && |blocks| == |data| && k <= |blocks|
    ensures forall w | w in HomeWrites(blocks, data)[..k] :: w.0 < |d|
    ensures var e := Apply(d, HomeWrites(blocks, data)[..k]);
            e[l.start] == d[l.start] && LogData(l, e, |blocks|) == LogData(l, d, |blocks|)
  {
    var ws := HomeWrites(blocks, data)[..k];
    forall b: nat | l.InLog(b) ensures Apply(d, ws)[b] == d[b] {
      ApplyOther(d, ws, b);
    }
    assert l.InLog(l.start);
  }

  /** Installing again after part of an installation gives what installing once gives. */
  lemma Reinstall(d: Image, blocks: seq<nat>, data: seq<Block>, k: nat, b: nat)
    requires |blocks| == |data| && k <= |blocks| && b < |d|
    requires forall i | 0 <= i < |blocks| :: blocks[i] < |d|
    ensures forall w | w in HomeWrites(blocks, data)[..k] :: w.0 < |d|
    ensures Apply(Apply(d, HomeWrites(blocks, data)[..k]), HomeWrites(blocks, data))[b]
            == Apply(d, HomeWrites(blocks, data))[b]
  {
    var ws := HomeWrites(blocks, data);
    if b in blocks {
      var i :| 0 <= i < |blocks| && blocks[i] == b;
      assert ws[i] in ws && ws[i].0 == b;
    } else {
      ApplyOther(d, ws[..k], b);
    }
    ApplyAgree(Apply(d, ws[..k]), d, ws, b);
  }

  /** Interrupting recovery anywhere keeps its outcome; finishing it delivers the outcome. */
  lemma RecoverStep(l: Layout, d: Image, h: Image, k: nat)
    requires RecoversTo(l, d, h) && k <= |RecoverWrites(l, d)|
    ensures forall w | w in RecoverWrites(l, d)[..k] :: w.0 < |d|
    ensures RecoversTo(l, Apply(d, RecoverWrites(l, d)[..k]), h)
    ensures Clean(l, Apply(d, RecoverWrites(l, d)), h)
  {
    var ws := RecoverWrites(l, d);
    var blocks := Head(d[l.start]);
    var data := LogData(l, d, |blocks|);
    if Clean(l, d, h) {
      assert HomeWrites(blocks, data) == [];
      CleanCommitted(l, d, h);
    }
    assert Committed(l, d, blocks, data, h);
    var n := |blocks|;
    assert ws[..n] == HomeWrites(blocks, data) == HomeWrites(blocks, data)[..n];
    InstallPrefix(l, d, blocks, data, h, n);
    Cleared(l, Apply(d, ws[..n]), d[l.start], h);
    assert ws == ws[..n] + [ws[n]];
    if k <= n {
      assert ws[..k] == HomeWrites(blocks, data)[..k];
      InstallPrefix(l, d, blocks, data, h, k);
    } else {
      assert ws[..k] == ws;
    }
  }

  lemma CleanCommitted(l: Layout, d: Image, h: Image)
    requires Clean(l, d, h)
    ensures Committed(l, d, [], [], h)
  {
    assert HomeWrites([], []) == [];
  }

  /** Erasing the header of a fully installed transaction. */
  lemma Cleared(l: Layout, d: Image, hb: Block, h: Image)
    requires l.Valid() && SameHome(l, d, h)
    ensures Clean(l, d[l.start := HeadBlock(hb, [])], h)
  {
  }

  /** Home blocks after a transaction. */
  function After(l: Layout, h: Image, blocks: seq<nat>, data: seq<Block>): (r: Image)
    requires |h| == l.disk && l.Loggable(blocks) && |blocks| == |data|
    ensures |r| == |h|
  {
    Apply(h, HomeWrites(blocks, data))
  }

  /** Before the header is written the log holds nothing anyone will read. */
  lemma LogPrefix(l: Layout, d: Image, data: seq<Block>, h: Image, k: nat)
    requires Clean(l, d, h) && |data| + 1 <= l.size && k <= |data|
    ensures forall w | w in LogWrites(l, data)[..k] :: w.0 < |d|
    ensures Clean(l, Apply(d, LogWrites(l, data)[..k]), h)
    ensures Apply(d, LogWrites(l, data)[..k])[l.start] == d[l.start]
  {
    var ws := LogWrites(l, data)[..k];
    forall b: nat | b < l.disk && (l.Home(b) || b == l.start) ensures Apply(d, ws)[b] == d[b] {
      ApplyOther(d, ws, b);
    }
  }

  /** Once write_log is through, the log holds the transaction's blocks. */
  lemma LogHolds(l: Layout, d: Image, data: seq<Block>, hb: Block)
    requires l.Valid() && |d| == l.disk && |data| + 1 <= l.size
    ensures forall w | w in LogWrites(l, data) :: w.0 < |d|
    ensures LogData(l, Apply(d, LogWrites(l, data))[l.start := hb], |data|) == data
  {
    forall i | 0 <= i < |data| ensures Apply(d, LogWrites(l, data))[l.start + 1 + i] == data[i] {
      ApplyLog(l, d, data, i);
    }
  }

  /** Writing the header commits: from here on recovery produces the new contents. */
  lemma HeaderCommits(l: Layout, d: Image, blocks: seq<nat>, data: seq<Block>, h: Image)
    requires Clean(l, d, h) && l.Loggable(blocks) && |blocks| == |data|
    ensures forall w | w in LogWrites(l, data) :: w.0 < |d|
    ensures var e := Apply(d, LogWrites(l, data))[l.start := HeadBlock(d[l.start], blocks)];
            Committed(l, e, blocks, data, After(l, h, blocks, data))
  {
    var ws := LogWrites(l, data);
    assert ws[..|data|] == ws;
    LogPrefix(l, d, data, h, |data|);
    var hb := HeadBlock(d[l.start], blocks);
    LogHolds(l, d, data, hb);
    InstallAgrees(l, Apply(d, ws), h, hb, blocks, data);
  }

  lemma InstallAgrees(l: Layout, d: Image, h: Image, hb: Block, blocks: seq<nat>, data: seq<Block>)
    requires l.Valid() && SameHome(l, d, h) && l.Loggable(blocks) && |blocks| == |data|
    ensures forall b | 0 <= b < l.disk && l.Home(b) ::
              Apply(d[l.start := hb], HomeWrites(blocks, data))[b] == After(l, h, blocks, data)[b]
  {
    var ws := HomeWrites(blocks, data);
    forall b | 0 <= b < l.disk && l.Home(b) ensures Apply(d[l.start := hb], ws)[b] == Apply(h, ws)[b] {
      ApplyAgree(d[l.start := hb], h, ws, b);
    }
  }

  /** The image right after the header write, and the clean image a full commit ends in. */
  lemma CommitDone(l: Layout, d: Image, blocks: seq<nat>, data: seq<Block>, h: Image)
    requires Clean(l, d, h) && l.Loggable(blocks) && |blocks| == |data|
    ensures Clean(l, Apply(d, CommitWrites(l, d, blocks, data)), After(l, h, blocks, data))
  {
    hide HeadBlock, HomeWrites, LogWrites, Head;
    var ws := CommitWrites(l, d, blocks, data);
    var (n, hw) := (|blocks|, HomeWrites(blocks, data));
    if n > 0 {
      var (head, h') := (HeadBlock(d[l.start], blocks), After(l, h, blocks, data));
      CommitPrefix(l, d, blocks, data, 2 * n + 1);
      var e := Apply(d, LogWrites(l, data))[l.start := head];
      HeaderCommits(l, d, blocks, data, h);
      assert hw[..n] == hw;
      Cleared(l, Apply(e, hw), head, h');
      assert ws[..2 * n + 1] == ws[..|ws| - 1];
    }
  }

  /** commit() interrupted after k block writes: the old contents will be recovered if the
      header had not been written, the new contents if it had. */
  lemma CommitStep(l: Layout, d: Image, blocks: seq<nat>, data: seq<Block>, h: Image, k: nat)
    requires Clean(l, d, h) && l.Loggable(blocks) && |blocks| == |data|
    requires k <= |CommitWrites(l, d, blocks, data)|
    ensures forall w | w in CommitWrites(l, d, blocks, data)[..k] :: w.0 < |d|
    ensures RecoversTo(l, Apply(d, CommitWrites(l, d, blocks, data)[..k]),
                       if k <= |blocks| then h else After(l, h, blocks, data))
  {
    hide Apply, HeadBlock, Head;
    var ws := CommitWrites(l, d, blocks, data);
    var n := |blocks|;
    if k == 0 {
      assert ws[..k] == [];
      ApplyNothing(d);
    } else if k <= n {
      assert ws[..k] == LogWrites(l, data)[..k];
      LogPrefix(l, d, data, h, k);
    } else if k <= 2 * n + 1 {
      CommitPrefix(l, d, blocks, data, k);
      HeaderCommits(l, d, blocks, data, h);
      var e := Apply(d, LogWrites(l, data))[l.start := HeadBlock(d[l.start], blocks)];
      InstallPrefix(l, e, blocks, data, After(l, h, blocks, data), k - n - 1);
    } else {
      assert ws[..k] == ws;
      CommitDone(l, d, blocks, data, h);
    }
  }

  lemma ApplyNothing(d: Image)
    ensures Apply(d, []) == d
  {
  }

  /** Past the header, a prefix of the commit is the header image plus part of the installation. */
  lemma CommitPrefix(l: Layout, d: Image, blocks: seq<nat>, data: seq<Block>, k: nat)
    requires l.Valid() && |d| == l.disk && l.Loggable(blocks) && |blocks| == |data| && blocks != []
    requires |blocks| < k <= 2 * |blocks| + 1
    ensures forall w | w in LogWrites(l, data) :: w.0 < |d|
    ensures forall w | w in CommitWrites(l, d, blocks, data)[..k] :: w.0 < |d|
    ensures Apply(d, CommitWrites(l, d, blocks, data)[..k])
            == Apply(Apply(d, LogWrites(l, data))[l.start := HeadBlock(d[l.start], blocks)],
                     HomeWrites(blocks, data)[..k - |blocks| - 1])
  {
    var (lw, hw) := (LogWrites(l, data), HomeWrites(blocks, data)[..k - |blocks| - 1]);
    var head := [(l.start, HeadBlock(d[l.start], blocks))];
    assert CommitWrites(l, d, blocks, data)[..k] == lw + head + hw;
    ApplyAppend(d, lw + head, hw);
    ApplyAppend(d, lw, head);
    assert head[..0] == [];
  }

  // ----- whole runs: any number of transactions, crashes and interrupted recoveries -----

  datatype Event =
    | Commit(blocks: seq<nat>, data: seq<Block>)
    | CrashInCommit(blocks: seq<nat>, data: seq<Block>, done: nat)   // after `done` block writes
    | CrashInRecovery(done: nat)
    | Recover

  datatype Machine = Machine(up: bool, disk: Image)

  ghost predicate Next(l: Layout, s: Machine, e: Event, t: Machine)
    requires l.Valid() && |s.disk| == l.disk
  {
    match e
    case Commit(blocks, data) =>
      && s.up && l.Loggable(blocks) && |blocks| == |data|
      && t == Machine(true, Apply(s.disk, CommitWrites(l, s.disk, blocks, data)))
    case CrashInCommit(blocks, data, done) =>
      && s.up && l.Loggable(blocks) && |blocks| == |data|
      && done <= |CommitWrites(l, s.disk, blocks, data)|
      && t == Machine(false, Crashed(s.disk, CommitWrites(l, s.disk, blocks, data), done))
    case CrashInRecovery(done) =>
      && !s.up && WellFormed(l, s.disk) && done <= |RecoverWrites(l, s.disk)|
      && t == Machine(false, Crashed(s.disk, RecoverWrites(l, s.disk), done))
    case Recover =>
      && !s.up && WellFormed(l, s.disk)
      && t == Machine(true, Apply(s.disk, RecoverWrites(l, s.disk)))
  }

  ghost function Crashed(d: Image, ws: seq<(nat, Block)>, done: nat): Image
    requires done <= |ws| && forall w | w in ws :: w.0 < |d|
  {
    Apply(d, ws[..done])
  }

  /** The specification: a transaction happens at once, and a crash either follows it or
      precedes it, depending only on whether the header write was among those done. */
  ghost function Spec(l: Layout, h: Image, e: Event): (r: Image)
    requires |h| == l.disk
    ensures |r| == |h|
  {
    match e
    case Commit(blocks, data) =>
      if l.Loggable(blocks) && |blocks| == |data| then After(l, h, blocks, data) else h
    case CrashInCommit(blocks, data, done) =>
      if l.Loggable(blocks) && |blocks| == |data| && done > |blocks| then After(l, h, blocks, data) else h
    case _ => h
  }

  ghost function SpecRun(l: Layout, h: Image, es: seq<Event>): (r: Image)
    requires |h| == l.disk
    ensures |r| == |h|
  {
    if es == [] then h else Spec(l, SpecRun(l, h, es[..|es| - 1]), es[|es| - 1])
  }

  ghost predicate IsRun(l: Layout, ss: seq<Machine>, es: seq<Event>) {
    && l.Valid() && |ss| == |es| + 1
    && (forall i | 0 <= i < |ss| :: |ss[i].disk| == l.disk)
    && (forall i | 0 <= i < |es| :: Next(l, ss[i], es[i], ss[i + 1]))
  }

  /** Crash atomicity over whole runs: in every state of every run, a running machine's home
      blocks are exactly what the specification says, and a crashed machine's image can
      always be recovered, to exactly that. */
  lemma {:induction false} CrashAtomicity(l: Layout, ss: seq<Machine>, es: seq<Event>, h: Image)
    requires IsRun(l, ss, es) && ss[0].up && Clean(l, ss[0].disk, h)
    ensures var (s, want) := (ss[|es|], SpecRun(l, h, es));
            && (s.up ==> Clean(l, s.disk, want))
            && (!s.up ==> && RecoversTo(l, s.disk, want)
                          && Clean(l, Apply(s.disk, RecoverWrites(l, s.disk)), want))
    decreases |es|
  {
    if es != [] {
      var n := |es| - 1;
      CrashAtomicity(l, ss[..n + 1], es[..n], h);
      EventStep(l, ss[n], es[n], ss[n + 1], SpecRun(l, h, es[..n]));
    }
  }

  lemma EventStep(l: Layout, s: Machine, e: Event, t: Machine, h: Image)
    requires l.Valid() && |s.disk| == |h| == l.disk && Next(l, s, e, t)
    requires s.up ==> Clean(l, s.disk, h)
    requires !s.up ==> RecoversTo(l, s.disk, h)
    ensures t.up ==> Clean(l, t.disk, Spec(l, h, e))
    ensures !t.up ==> RecoversTo(l, t.disk, Spec(l, h, e))
    ensures !t.up ==> Clean(l, Apply(t.disk, RecoverWrites(l, t.disk)), Spec(l, h, e))
  {
    match e
    case Commit(blocks, data) =>
      CommitDone(l, s.disk, blocks, data, h);
    case CrashInCommit(blocks, data, done) =>
      CommitStep(l, s.disk, blocks, data, h, done);
      RecoverStep(l, t.disk, Spec(l, h, e), 0);
    case CrashInRecovery(done) =>
      RecoverStep(l, s.disk, h, done);
      RecoverStep(l, t.disk, h, 0);
    case Recover =>
      RecoverStep(l, s.disk, h, 0);
  }
}
