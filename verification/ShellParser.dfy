/** The shell's recursive-descent parser over a command line, and nulterminate. */
module ShellParser {
  import opened Counting
  import opened Options
  import opened ShellLexer
  import opened ShellGrammar

  const O_RDONLY := 0x000
  const O_WRONLY := 0x001
  const O_CREATE := 0x200

  /** The command tree. An execcmd holds its words; a redircmd wraps what it redirects. */
  datatype Cmd =
    | ExecCmd(argv: seq<Tok>)
    | RedirCmd(cmd: Cmd, file: Tok, mode: nat, fd: nat)
    | PipeCmd(left: Cmd, right: Cmd)
    | ListCmd(left: Cmd, right: Cmd)
    | BackCmd(cmd: Cmd)

  // ----- the command a derivation stands for -----

  /** One redirection. ">>" opens its file exactly as '>' does. */
  function Wrap1(c: Cmd, r: Redir): Cmd {
    if r.op.kind == '<' then RedirCmd(c, r.file, O_RDONLY, 0) else RedirCmd(c, r.file, O_WRONLY + O_CREATE, 1)
  }

  /** Redirections, the first innermost. */
  function Wrap(c: Cmd, rs: seq<Redir>): Cmd {
    if rs == [] then c else Wrap1(Wrap(c, rs[..|rs| - 1]), rs[|rs| - 1])
  }

  function Words(xs: seq<Arg>): seq<Tok> {
    if xs == [] then [] else Words(xs[..|xs| - 1]) + [xs[|xs| - 1].word]
  }

  function Redirs(xs: seq<Arg>): seq<Redir> {
    if xs == [] then [] else Redirs(xs[..|xs| - 1]) + xs[|xs| - 1].redirs
  }

  function BuildExec(e: Exec): Cmd {
    match e
    case Block(_, body, _, after) => Wrap(BuildLine(body), after)
    case Simple(redirs, args) => Wrap(ExecCmd(Words(args)), redirs + Redirs(args))
  }

  function BuildPipes(p: Pipes): Cmd {
    match p
    case Last(e) => BuildExec(e)
    case Piped(e, _, rest) => PipeCmd(BuildExec(e), BuildPipes(rest))
  }

  function Background(c: Cmd, n: nat): Cmd {
    if n == 0 then c else BackCmd(Background(c, n - 1))
  }

  function BuildLine(l: Line): Cmd {
    var c := Background(BuildPipes(l.pipes), |l.ands|);
    if l.Alone? then c else ListCmd(c, BuildLine(l.rest))
  }

  // ----- the parsing procedures -----

  /** The outcome when `done` has been read and what is left parses as `part`. */
  ghost function After<T>(done: seq<T>, part: Parsed<seq<T>>): Parsed<seq<T>> {
    match part
    case Panic => Panic
    case Ok(more, rest) => Ok(done + more, rest)
  }

  lemma AfterOne<T>(done: seq<T>, x: T, part: Parsed<seq<T>>)
    ensures After(done, After([x], part)) == After(done + [x], part)
  {
    if part.Ok? {
      assert done + ([x] + part.value) == done + [x] + part.value;
    }
  }

  lemma AfterNone<T>(part: Parsed<seq<T>>)
    ensures After([], part) == part
  {
    if part.Ok? {
      assert [] + part.value == part.value;
    }
  }

  lemma AfterAll<T>(done: seq<T>, rest: seq<Tok>)
    ensures After(done, Ok([], rest)) == Ok(done, rest)
  {
    assert done + [] == done;
  }

  /** parseredirs, as the list of redirections it wraps around its command; None is a panic. */
  method ParseRedirections(s: string, p: nat) returns (rs: Option<seq<Redir>>, next: nat)
    requires p <= |s|
    ensures p <= next <= |s|
    ensures match ParseRedirs(Tokens(s, p))
      case Panic => rs.None?
      case Ok(value, rest) => rs == Some(value) && Tokens(s, next) == rest
  {
    hide Tokens;
    ghost var whole := ParseRedirs(Tokens(s, p));
    var done: seq<Redir> := [];
    AfterNone(whole);
    next := p;
    while true
      invariant p <= next <= |s| && whole == After(done, ParseRedirs(Tokens(s, next)))
      decreases |s| - next
    {
      ghost var ts := Tokens(s, next);
      var more;
      more, next := Peek(s, next, {'<', '>'});
      if !more {
        AfterAll(done, ts);
        break;
      }
      var op, q0, e0, p1 := GetToken(s, next);
      var kind, q, eq, p2 := GetToken(s, p1);
      assert Tokens(s, p1) == ts[1..];
      if kind != 'a' {
        return None, p2;
      }
      AfterOne(done, Redir(ts[0], ts[1]), ParseRedirs(ts[2..]));
      done := done + [Redir(Tok(op, q0, e0), Tok(kind, q, eq))];
      next := p2;
    }
    rs := Some(done);
  }

  /** The loop of parseexec: the words, and the redirections that wrap the command around them.
      The execcmd is filled in place, so words found after a redirection still go into it. */
  method ParseWords(s: string, p: nat) returns (r: Option<(seq<Tok>, seq<Redir>)>, next: nat)
    requires p <= |s|
    ensures p <= next <= |s|
    ensures match ParseArgs(Tokens(s, p), 0)
      case Panic => r.None?
      case Ok(args, rest) => r == Some((Words(args), Redirs(args))) && Tokens(s, next) == rest
  {
    hide Tokens, ParseRedirs, Words, Redirs;
    ghost var whole := ParseArgs(Tokens(s, p), 0);
    ghost var done: seq<Arg> := [];
    var argv: seq<Tok>, redirs: seq<Redir> := [], [];
    NoWords();
    AfterNone(whole);
    next := p;
    while true
      invariant p <= next <= |s| && |argv| == |done| && argv == Words(done) && redirs == Redirs(done)
      invariant whole == After(done, ParseArgs(Tokens(s, next), |done|))
      decreases |s| - next
    {
      ghost var ts := Tokens(s, next);
      var stop;
      stop, next := Peek(s, next, {'|', ')', '&', ';'});
      if stop {
        AfterAll(done, ts);
        break;
      }
      var kind, q, eq, p1 := GetToken(s, next);
      if kind == NUL {
        next := p1;
        AfterAll(done, ts);
        break;
      }
      if kind != 'a' {
        return None, p1;
      }
      argv := argv + [Tok(kind, q, eq)];
      if |argv| >= MAXARGS {
        return None, p1;
      }
      var rs;
      rs, next := ParseRedirections(s, p1);
      if rs.None? {
        return None, next;
      }
      redirs := redirs + rs.value;
      AfterOne(done, Arg(ts[0], rs.value), ParseArgs(Tokens(s, next), |done| + 1));
      OneMoreWord(done, Arg(ts[0], rs.value));
      done := done + [Arg(ts[0], rs.value)];
    }
    r := Some((argv, redirs));
  }

  lemma NoWords()
    ensures Words([]) == [] && Redirs([]) == []
  {
  }

  lemma OneMoreWord(done: seq<Arg>, a: Arg)
    ensures Words(done + [a]) == Words(done) + [a.word] && Redirs(done + [a]) == Redirs(done) + a.redirs
  {
    assert (done + [a])[..|done|] == done;
  }

  method ParseExecCmd(s: string, p: nat) returns (c: Option<Cmd>, next: nat)
    requires p <= |s|
    ensures p <= next <= |s|
    ensures match ParseExec(Tokens(s, p))
      case Panic => c.None?
      case Ok(e, rest) => c == Some(BuildExec(e)) && Tokens(s, next) == rest
    decreases |s| - p, 1
  {
    hide Tokens, ParseLine, ParseRedirs, ParseArgs, Wrap, Words, Redirs;
    var open;
    open, next := Peek(s, p, {'('});
    if open {
      c, next := ParseBlock(s, next);
      return;
    }
    var rs;
    rs, next := ParseRedirections(s, next);
    if rs.None? {
      return None, next;
    }
    var ws;
    ws, next := ParseWords(s, next);
    if ws.None? {
      return None, next;
    }
    c := Some(Wrap(ExecCmd(ws.value.0), rs.value + ws.value.1));
  }

  method ParseBlock(s: string, p: nat) returns (c: Option<Cmd>, next: nat)
    requires p <= |s| && Starts(Tokens(s, p), {'('})
    ensures p <= next <= |s|
    ensures match ParseExec(Tokens(s, p))
      case Panic => c.None?
      case Ok(e, rest) => c == Some(BuildExec(e)) && Tokens(s, next) == rest
    decreases |s| - p, 0
  {
    hide Tokens, ParseLine, ParseRedirs, ParseSimple, Wrap, BuildLine;
    var kind, q, eq, p1 := GetToken(s, p);
    c, next := ParseLineCmd(s, p1);
    if c.None? {
      return;
    }
    var close;
    close, next := Peek(s, next, {')'});
    if !close {
      return None, next;
    }
    kind, q, eq, next := GetToken(s, next);
    var rs;
    rs, next := ParseRedirections(s, next);
    if rs.None? {
      return None, next;
    }
    c := Some(Wrap(c.value, rs.value));
  }

  method ParsePipeCmd(s: string, p: nat) returns (c: Option<Cmd>, next: nat)
    requires p <= |s|
    ensures p <= next <= |s|
    ensures match ParsePipe(Tokens(s, p))
      case Panic => c.None?
      case Ok(q, rest) => c == Some(BuildPipes(q)) && Tokens(s, next) == rest
    decreases |s| - p, 2
  {
    hide Tokens, ParseExec, BuildExec;
    c, next := ParseExecCmd(s, p);
    if c.None? {
      return;
    }
    var bar;
    bar, next := Peek(s, next, {'|'});
    if bar {
      var kind, q, eq, p1 := GetToken(s, next);
      var right;
      right, next := ParsePipeCmd(s, p1);
      c := if right.None? then None else Some(PipeCmd(c.value, right.value));
    }
  }

  method ParseLineCmd(s: string, p: nat) returns (c: Option<Cmd>, next: nat)
    requires p <= |s|
    ensures p <= next <= |s|
    ensures match ParseLine(Tokens(s, p))
      case Panic => c.None?
      case Ok(l, rest) => c == Some(BuildLine(l)) && Tokens(s, next) == rest
    decreases |s| - p, 3
  {
    hide Tokens, ParsePipe, BuildPipes, Ands;
    c, next := ParsePipeCmd(s, p);
    if c.None? {
      return;
    }
    var cmd := c.value;
    cmd, next := ParseAnds(s, next, cmd);
    var semi;
    semi, next := Peek(s, next, {';'});
    c := Some(cmd);
    if semi {
      var kind, q, eq, p1 := GetToken(s, next);
      var right;
      right, next := ParseLineCmd(s, p1);
      c := if right.None? then None else Some(ListCmd(cmd, right.value));
    }
  }

  /** The '&' loop of parseline. */
  method ParseAnds(s: string, p: nat, c: Cmd) returns (r: Cmd, next: nat)
    requires p <= |s|
    ensures p <= next <= |s|
    ensures r == Background(c, Ands(Tokens(s, p))) && Tokens(s, next) == Tokens(s, p)[Ands(Tokens(s, p))..]
  {
    hide Tokens;
    r, next := c, p;
    ghost var ts, n := Tokens(s, p), 0;
    while true
      invariant p <= next <= |s| && n <= |ts| && Tokens(s, next) == ts[n..]
      invariant r == Background(c, n) && Ands(ts) == n + Ands(ts[n..])
      decreases |s| - next
    {
      var and;
      and, next := Peek(s, next, {'&'});
      if !and {
        break;
      }
      var kind, q, eq, p1 := GetToken(s, next);
      r := BackCmd(r);
      next := p1;
      assert ts[n..][1..] == ts[n + 1..];
      n := n + 1;
    }
  }

  // ----- nulterminate -----

  /** The words of a command: arguments and file names. */
  function CmdWords(c: Cmd): set<Tok> {
    match c
    case ExecCmd(argv) => ToSet(argv)
    case RedirCmd(d, file, _, _) => CmdWords(d) + {file}
    case PipeCmd(l, r) => CmdWords(l) + CmdWords(r)
    case ListCmd(l, r) => CmdWords(l) + CmdWords(r)
    case BackCmd(d) => CmdWords(d)
  }

  ghost predicate EndsAt(ws: set<Tok>, i: nat) {
    exists w :: w in ws && w.hi == i
  }

  /** b' is b with a NUL at the end of every word. */
  ghost predicate Cut(b: string, b': string, ws: set<Tok>) {
    |b'| == |b| && forall i: nat | i < |b| :: b'[i] == if EndsAt(ws, i) then NUL else b[i]
  }

  lemma CutTwice(b0: string, b1: string, b2: string, vs: set<Tok>, ws: set<Tok>)
    requires Cut(b0, b1, vs) && Cut(b1, b2, ws)
    ensures Cut(b0, b2, vs + ws)
  {
    forall i: nat | i < |b0| ensures EndsAt(vs + ws, i) <==> EndsAt(vs, i) || EndsAt(ws, i) {
      if EndsAt(vs, i) {
        var w :| w in vs && w.hi == i;
        assert w in vs + ws;
      }
      if EndsAt(ws, i) {
        var w :| w in ws && w.hi == i;
        assert w in vs + ws;
      }
    }
  }

  lemma CutOne(b: string, w: Tok)
    requires w.hi < |b|
    ensures Cut(b, b[w.hi := NUL], {w})
  {
    assert w in {w};
  }

  lemma CutNone(b: string)
    ensures Cut(b, b, {})
  {
  }

  method Nulterminate(c: Cmd, buf: array<char>)
    requires forall w | w in CmdWords(c) :: w.hi < buf.Length
    modifies buf
    ensures Cut(old(buf[..]), buf[..], CmdWords(c))
    decreases c
  {
    hide Cut;
    match c
    case ExecCmd(argv) =>
      TerminateArgs(argv, buf);
    case RedirCmd(d, file, _, _) =>
      Nulterminate(d, buf);
      Terminate(file, buf, CmdWords(d), old(buf[..]));
    case PipeCmd(l, r) =>
      Nulterminate(l, buf);
      ghost var b := buf[..];
      Nulterminate(r, buf);
      CutTwice(old(buf[..]), b, buf[..], CmdWords(l), CmdWords(r));
    case ListCmd(l, r) =>
      Nulterminate(l, buf);
      ghost var b := buf[..];
      Nulterminate(r, buf);
      CutTwice(old(buf[..]), b, buf[..], CmdWords(l), CmdWords(r));
    case BackCmd(d) =>
      Nulterminate(d, buf);
  }

  /** One NUL more. */
  method Terminate(w: Tok, buf: array<char>, ghost done: set<Tok>, ghost b0: string)
    requires w.hi < buf.Length && Cut(b0, buf[..], done)
    modifies buf
    ensures Cut(b0, buf[..], done + {w})
  {
    hide Cut;
    ghost var b := buf[..];
    CutOne(b, w);
    buf[w.hi] := NUL;
    assert buf[..] == b[w.hi := NUL];
    CutTwice(b0, b, buf[..], done, {w});
  }

  method TerminateArgs(argv: seq<Tok>, buf: array<char>)
    requires forall w | w in argv :: w.hi < buf.Length
    modifies buf
    ensures Cut(old(buf[..]), buf[..], ToSet(argv))
  {
    hide Cut;
    CutNone(buf[..]);
    assert ToSet(argv[..0]) == {};
    for i := 0 to |argv|
      invariant Cut(old(buf[..]), buf[..], ToSet(argv[..i]))
    {
      assert ToSet(argv[..i + 1]) == ToSet(argv[..i]) + {argv[i]};
      Terminate(argv[i], buf, ToSet(argv[..i]), old(buf[..]));
    }
    assert argv[..|argv|] == argv;
  }

  // ----- parsecmd -----

  /** The C string at position lo reads x. */
  ghost predicate CString(b: string, lo: nat, x: string) {
    lo + |x| < |b| && b[lo..lo + |x|] == x && b[lo + |x|] == NUL && NUL !in x
  }

  /** parsecmd: the command that the grammar derives, if any, each of whose words can be read from
      the buffer as a C string. None is a panic, before anything is written. */
  method ParseCmd(s: string, buf: array<char>) returns (c: Option<Cmd>)
    requires NUL !in s && buf[..] == s + [NUL]
    modifies buf
    ensures c.Some? <==> exists l :: LineOk(l) && LineTokens(l) == Tokens(s, 0)
    ensures forall l | LineOk(l) && LineTokens(l) == Tokens(s, 0) :: c == Some(BuildLine(l))
    ensures c.None? ==> buf[..] == s + [NUL]
    ensures c.Some? ==> forall w | w in CmdWords(c.value) ::
              w in Tokens(s, 0) && w.lo <= w.hi <= |s| && CString(buf[..], w.lo, s[w.lo..w.hi])
  {
    hide Tokens, ParseLine, BuildLine, LineTokens, LineOk;
    AcceptsGrammar(Tokens(s, 0));
    var p;
    c, p := ParseLineCmd(s, 0);
    if c.None? {
      return;
    }
    var none;
    none, p := Peek(s, p, {});
    AtEnd(s, p);
    if p != |s| {
      return None;
    }
    ghost var l := ParseLine(Tokens(s, 0)).value;
    LineSound(Tokens(s, 0));
    assert LineTokens(l) + [] == LineTokens(l);
    LineWords(l);
    TokensAreMaximal(s, 0);
    Nulterminate(c.value, buf);
    forall w | w in CmdWords(c.value) ensures CString(buf[..], w.lo, s[w.lo..w.hi]) {
      WordReads(s, buf[..], CmdWords(c.value), w);
    }
  }

  lemma AtEnd(s: string, p: nat)
    requires p <= |s| && p == Skip(s, p)
    ensures p == |s| <==> Tokens(s, p) == []
  {
  }

  /** No word ends inside another, so that cutting them all leaves each of them whole. */
  lemma WordReads(s: string, b: string, ws: set<Tok>, w: Tok)
    requires NUL !in s && (forall v | v in ws :: WordSpan(s, v)) && w in ws && Cut(s + [NUL], b, ws)
    ensures w.lo <= w.hi <= |s| && CString(b, w.lo, s[w.lo..w.hi])
  {
    assert WordSpan(s, w);
    forall i: nat | w.lo <= i < w.hi ensures b[i] == s[i] {
      assert !EndsAt(ws, i);
    }
    assert EndsAt(ws, w.hi);
    assert b[w.lo..w.hi] == s[w.lo..w.hi];
  }

  /** The words of the command are words of the line. */
  ghost predicate From(ws: set<Tok>, ts: seq<Tok>) {
    forall w | w in ws :: w in ts && w.kind == 'a'
  }

  lemma {:induction false} WrapWords(c: Cmd, rs: seq<Redir>, ts: seq<Tok>)
    requires From(CmdWords(c), ts) && forall i | 0 <= i < |rs| :: rs[i].file in ts && rs[i].file.kind == 'a'
    ensures From(CmdWords(Wrap(c, rs)), ts)
  {
    if rs != [] {
      WrapWords(c, rs[..|rs| - 1], ts);
    }
  }

  lemma {:induction false} RedirFiles(rs: seq<Redir>)
    requires RedirsOk(rs)
    ensures forall i | 0 <= i < |rs| :: rs[i].file in RedirTokens(rs) && rs[i].file.kind == 'a'
  {
    if rs != [] {
      RedirFiles(rs[1..]);
      forall i | 0 <= i < |rs| ensures rs[i].file in RedirTokens(rs) {
        if i > 0 {
          assert rs[i] == rs[1..][i - 1];
        }
      }
    }
  }

  /** Every word, and every file name, of the arguments. */
  lemma {:induction false} ArgWords(xs: seq<Arg>)
    requires ArgsOk(xs)
    ensures forall w | w in Words(xs) :: w in ArgTokens(xs) && w.kind == 'a'
    ensures forall i | 0 <= i < |Redirs(xs)| :: Redirs(xs)[i].file in ArgTokens(xs) && Redirs(xs)[i].file.kind == 'a'
  {
    if xs != [] {
      var init, last := xs[..|xs| - 1], xs[|xs| - 1];
      ArgWords(init);
      RedirFiles(last.redirs);
      ArgTokensSnoc(init, last);
      assert xs == init + [last];
    }
  }

  lemma {:induction false} ArgTokensSnoc(xs: seq<Arg>, a: Arg)
    ensures ArgTokens(xs + [a]) == ArgTokens(xs) + [a.word] + RedirTokens(a.redirs)
  {
    if xs == [] {
      assert xs + [a] == [a] && [a][1..] == [];
    } else {
      assert (xs + [a])[1..] == xs[1..] + [a];
      ArgTokensSnoc(xs[1..], a);
    }
  }

  lemma {:induction false} ExecWords(e: Exec)
    requires ExecOk(e)
    ensures From(CmdWords(BuildExec(e)), ExecTokens(e))
    decreases e, 0
  {
    match e
    case Block(open, body, close, after) =>
      LineWords(body);
      RedirFiles(after);
      WrapWords(BuildLine(body), after, ExecTokens(e));
    case Simple(redirs, args) =>
      RedirFiles(redirs);
      ArgWords(args);
      WrapWords(ExecCmd(Words(args)), redirs + Redirs(args), ExecTokens(e));
  }

  lemma {:induction false} PipeWords(p: Pipes)
    requires PipesOk(p)
    ensures From(CmdWords(BuildPipes(p)), PipeTokens(p))
    decreases p, 1
  {
    hide BuildExec, ExecTokens, ExecOk, From;
    ExecWords(p.exec);
    if p.Piped? {
      PipeWords(p.rest);
      FromBoth(CmdWords(BuildExec(p.exec)), ExecTokens(p.exec), CmdWords(BuildPipes(p.rest)), PipeTokens(p.rest),
        p.bar);
    }
  }

  lemma FromMore(vs: set<Tok>, xs: seq<Tok>, ys: seq<Tok>)
    requires From(vs, xs)
    ensures From(vs, xs + ys)
  {
  }

  lemma FromBoth(vs: set<Tok>, xs: seq<Tok>, ws: set<Tok>, ys: seq<Tok>, t: Tok)
    requires From(vs, xs) && From(ws, ys)
    ensures From(vs + ws, xs + [t] + ys)
  {
  }

  lemma {:induction false} BackgroundWords(c: Cmd, n: nat)
    ensures CmdWords(Background(c, n)) == CmdWords(c)
  {
    if n > 0 {
      BackgroundWords(c, n - 1);
    }
  }

  lemma {:induction false} LineWords(l: Line)
    requires LineOk(l)
    ensures From(CmdWords(BuildLine(l)), LineTokens(l))
    decreases l, 2
  {
    hide BuildPipes, PipeTokens, PipesOk, From, Background;
    PipeWords(l.pipes);
    BackgroundWords(BuildPipes(l.pipes), |l.ands|);
    FromMore(CmdWords(BuildPipes(l.pipes)), PipeTokens(l.pipes), l.ands);
    if l.Then? {
      LineWords(l.rest);
      FromBoth(CmdWords(BuildPipes(l.pipes)), PipeTokens(l.pipes) + l.ands, CmdWords(BuildLine(l.rest)),
        LineTokens(l.rest), l.semi);
    }
  }
}
