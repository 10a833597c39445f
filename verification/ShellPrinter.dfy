/** Printing command trees, with parentheses where the grammar needs them, and parsing them back. */
module ShellPrinter {
  import opened ShellLexer
  import opened ShellGrammar
  import opened ShellParser

  /** '<', '>' and ">>". */
  datatype Way = In | Out | Append

  /** A command tree with its words spelled out. */
  datatype Tree =
    | Run(argv: seq<string>)
    | Redirected(cmd: Tree, file: string, way: Way)
    | Piping(left: Tree, right: Tree)
    | Back(cmd: Tree)
    | Listed(left: Tree, right: Tree)

  predicate IsWordText(x: string) {
    x != [] && forall i | 0 <= i < |x| :: IsWord(x[i])
  }

  /** At most nine words in a command, all of them words. */
  predicate Printable(t: Tree) {
    match t
    case Run(argv) => |argv| <= 9 && forall i | 0 <= i < |argv| :: IsWordText(argv[i])
    case Redirected(c, file, _) => Printable(c) && IsWordText(file)
    case Piping(l, r) => Printable(l) && Printable(r)
    case Back(c) => Printable(c)
    case Listed(l, r) => Printable(l) && Printable(r)
  }

  /** How loosely a tree binds: as an exec, a pipeline, a background job or a list. */
  function Level(t: Tree): nat {
    match t
    case Run(_) => 0
    case Redirected(_, _, _) => 0
    case Piping(_, _) => 1
    case Back(_) => 2
    case Listed(_, _) => 3
  }

  function Own(t: Tree): seq<string>
    decreases t, 0
  {
    match t
    case Run(argv) => argv
    case Redirected(c, file, way) => Print(c, 0) + [OpText(way), file]
    case Piping(l, r) => Print(l, 0) + ["|"] + Print(r, 1)
    case Back(c) => Print(c, 2) + ["&"]
    case Listed(l, r) => Print(l, 2) + [";"] + Print(r, 3)
  }

  /** The token texts of t where the grammar wants level k. */
  function Print(t: Tree, k: nat): seq<string>
    decreases t, 1
  {
    if Level(t) <= k then Own(t) else ["("] + Own(t) + [")"]
  }

  lemma {:induction false} PrintsTokens(t: Tree, k: nat)
    requires Printable(t)
    ensures forall x | x in Print(t, k) :: TokenText(x)
    decreases t
  {
    assert TokenText("(") && TokenText(")") && TokenText("|") && TokenText("&") && TokenText(";") && TokenText("<")
           && TokenText(">") && TokenText(">>");
    hide TokenText;
    match t
    case Run(argv) => WordTexts(argv);
    case Redirected(c, file, _) =>
      PrintsTokens(c, 0);
      WordTexts([file]);
      assert file in [file];
    case Piping(l, r) =>
      PrintsTokens(l, 0);
      PrintsTokens(r, 1);
    case Back(c) => PrintsTokens(c, 2);
    case Listed(l, r) =>
      PrintsTokens(l, 2);
      PrintsTokens(r, 3);
  }

  lemma WordTexts(xs: seq<string>)
    requires forall i | 0 <= i < |xs| :: IsWordText(xs[i])
    ensures forall x | x in xs :: TokenText(x)
  {
  }

  /** Command c, over the text s, is tree t. */
  ghost predicate ReadsAs(s: string, c: Cmd, t: Tree) {
    match t
    case Run(argv) => c.ExecCmd? && AllRead(s, c.argv, argv)
    case Redirected(d, file, way) =>
      c.RedirCmd? && ReadsAs(s, c.cmd, d) && Reads(s, c.file, file)
      && (if way.In? then c.mode == 0 && c.fd == 0 else c.mode == 0x201 && c.fd == 1)
    case Piping(l, r) => c.PipeCmd? && ReadsAs(s, c.left, l) && ReadsAs(s, c.right, r)
    case Back(d) => c.BackCmd? && ReadsAs(s, c.cmd, d)
    case Listed(l, r) => c.ListCmd? && ReadsAs(s, c.left, l) && ReadsAs(s, c.right, r)
  }

  // ----- the derivation of a printed tree -----

  function Args(ts: seq<Tok>): seq<Arg> {
    if ts == [] then [] else Args(ts[..|ts| - 1]) + [Arg(ts[|ts| - 1], [])]
  }

  /** One redirection more, after everything else. */
  function AddRedir(e: Exec, r: Redir): Exec {
    match e
    case Block(open, body, close, after) => Block(open, body, close, after + [r])
    case Simple(redirs, args) =>
      if args == [] then Simple(redirs + [r], [])
      else Simple(redirs, args[..|args| - 1] + [args[|args| - 1].(redirs := args[|args| - 1].redirs + [r])])
  }

  function AtExec(t: Tree, ts: seq<Tok>): Exec
    requires |ts| == |Print(t, 0)|
    decreases t, if Level(t) == 0 then 0 else 4
  {
    match t
    case Run(_) => Simple([], Args(ts))
    case Redirected(c, _, _) =>
      assert Print(t, 0) == Own(t);
      AddRedir(AtExec(c, ts[..|ts| - 2]), Redir(ts[|ts| - 2], ts[|ts| - 1]))
    case _ => Block(ts[0], AtLine(t, ts[1..|ts| - 1]), ts[|ts| - 1], [])
  }

  function AtPipe(t: Tree, ts: seq<Tok>): Pipes
    requires |ts| == |Print(t, 1)|
    decreases t, if Level(t) <= 1 then 1 else 5
  {
    if t.Piping? then
      assert Print(t, 1) == Own(t);
      var n := |Print(t.left, 0)|;
      Piped(AtExec(t.left, ts[..n]), ts[n], AtPipe(t.right, ts[n + 1..]))
    else Last(AtExec(t, ts))
  }

  /** A line without ';'. */
  function AtBack(t: Tree, ts: seq<Tok>): (l: Line)
    requires |ts| == |Print(t, 2)|
    ensures l.Alone?
    decreases t, if t.Back? then 1 else if Level(t) <= 1 then 2 else 6
  {
    if t.Back? then
      assert Print(t, 2) == Own(t);
      var l := AtBack(t.cmd, ts[..|ts| - 1]);
      Alone(l.pipes, l.ands + [ts[|ts| - 1]])
    else Alone(AtPipe(t, ts), [])
  }

  function AtLine(t: Tree, ts: seq<Tok>): Line
    requires |ts| == |Own(t)|
    decreases t, if t.Listed? then 1 else if t.Back? then 2 else 3
  {
    if t.Listed? then
      assert Print(t.right, 3) == Own(t.right);
      var n := |Print(t.left, 2)|;
      var l := AtBack(t.left, ts[..n]);
      Then(l.pipes, l.ands, ts[n], AtLine(t.right, ts[n + 1..]))
    else AtBack(t, ts)
  }

  // ----- it derives the printed tokens, and it means the tree -----

  lemma {:induction false} ArgsOf(ts: seq<Tok>)
    ensures |Args(ts)| == |ts| && ArgTokens(Args(ts)) == ts && Words(Args(ts)) == ts && Redirs(Args(ts)) == []
  {
    hide ArgTokens, Words, Redirs, RedirTokens;
    if ts == [] {
      NoWords();
      NoArgs([]);
    } else {
      var init, a := ts[..|ts| - 1], Arg(ts[|ts| - 1], []);
      ArgsOf(init);
      ArgTokensSnoc(Args(init), a);
      OneMoreWord(Args(init), a);
      NoRedirs();
      assert init + [a.word] + [] == ts;
    }
  }

  lemma NoRedirs()
    ensures RedirTokens([]) == [] && RedirsOk([])
  {
  }

  lemma {:induction false} ArgsOfOk(ts: seq<Tok>)
    requires forall i | 0 <= i < |ts| :: ts[i].kind == 'a'
    ensures ArgsOk(Args(ts))
  {
    if ts != [] {
      ArgsOfOk(ts[..|ts| - 1]);
    }
  }

  lemma {:induction false} RedirTokensSnoc(rs: seq<Redir>, r: Redir)
    ensures RedirTokens(rs + [r]) == RedirTokens(rs) + [r.op, r.file]
  {
    if rs == [] {
      assert rs + [r] == [r] && [r][1..] == [];
    } else {
      assert (rs + [r])[1..] == rs[1..] + [r];
      RedirTokensSnoc(rs[1..], r);
    }
  }

  lemma WrapSnoc(c: Cmd, rs: seq<Redir>, r: Redir)
    ensures Wrap(c, rs + [r]) == Wrap1(Wrap(c, rs), r)
  {
    assert (rs + [r])[..|rs|] == rs;
  }

  /** AddRedir in the tokens, in the grammar and in the command. */
  lemma AddRedirWraps(e: Exec, r: Redir)
    ensures ExecTokens(AddRedir(e, r)) == ExecTokens(e) + [r.op, r.file]
    ensures ExecOk(e) && Lead(r.op.kind) in {'<', '>'} && r.file.kind == 'a' ==> ExecOk(AddRedir(e, r))
    ensures BuildExec(AddRedir(e, r)) == Wrap1(BuildExec(e), r)
  {
    hide RedirTokens, ArgTokens, Wrap, Wrap1, LineTokens, LineOk, BuildLine, Words, Redirs, RedirsOk, ArgsOk;
    match e
    case Block(open, body, close, after) =>
      RedirTokensSnoc(after, r);
      WrapSnoc(BuildLine(body), after, r);
      RedirsOkSnoc(after, r);
    case Simple(redirs, args) =>
      if args == [] {
        NoWords();
        NoArgs([]);
        RedirTokensSnoc(redirs, r);
        RedirsOkSnoc(redirs, r);
        WrapSnoc(ExecCmd([]), redirs, r);
        assert ArgTokens(args) == [] && redirs + [] == redirs && redirs + [r] + [] == redirs + [r];
      } else {
        AddToLast(redirs, args, r);
      }
  }

  lemma RedirsOkSnoc(rs: seq<Redir>, r: Redir)
    ensures RedirsOk(rs) && Lead(r.op.kind) in {'<', '>'} && r.file.kind == 'a' ==> RedirsOk(rs + [r])
  {
  }

  lemma AddToLast(redirs: seq<Redir>, args: seq<Arg>, r: Redir)
    requires args != []
    ensures var e, f := Simple(redirs, args), AddRedir(Simple(redirs, args), r);
      && ExecTokens(f) == ExecTokens(e) + [r.op, r.file]
      && (ExecOk(e) && Lead(r.op.kind) in {'<', '>'} && r.file.kind == 'a' ==> ExecOk(f))
      && BuildExec(f) == Wrap1(BuildExec(e), r)
  {
    hide RedirTokens, ArgTokens, Wrap, Wrap1, Words, Redirs, RedirsOk, ArgsOk;
    var init, a := args[..|args| - 1], args[|args| - 1];
    var b := a.(redirs := a.redirs + [r]);
    assert args == init + [a];
    ArgTokensSnoc(init, a);
    ArgTokensSnoc(init, b);
    RedirTokensSnoc(a.redirs, r);
    OneMoreWord(init, a);
    OneMoreWord(init, b);
    WrapSnoc(ExecCmd(Words(args)), redirs + Redirs(args), r);
    assert redirs + (Redirs(init) + (a.redirs + [r])) == redirs + (Redirs(init) + a.redirs) + [r];
    if Lead(r.op.kind) in {'<', '>'} && r.file.kind == 'a' {
      RedirsOkSnoc(a.redirs, r);
      LastOk(init, a, b);
    }
  }

  lemma LastOk(init: seq<Arg>, a: Arg, b: Arg)
    requires a.word == b.word && (RedirsOk(a.redirs) ==> RedirsOk(b.redirs))
    ensures ArgsOk(init + [a]) ==> ArgsOk(init + [b])
  {
    hide RedirsOk;
    if ArgsOk(init + [a]) {
      assert (init + [a])[|init|] == a;
      forall i | 0 <= i < |init| + 1 ensures (init + [b])[i].word.kind == 'a' && RedirsOk((init + [b])[i].redirs) {
        assert i < |init| ==> (init + [b])[i] == (init + [a])[i];
      }
    }
  }

  // ----- the tokens of a printed tree, part by part -----

  lemma SplitRead(s: string, ts: seq<Tok>, xs: seq<string>, ys: seq<string>)
    requires AllRead(s, ts, xs + ys)
    ensures |ts| == |xs| + |ys| && AllRead(s, ts[..|xs|], xs) && AllRead(s, ts[|xs|..], ys)
  {
    forall i | 0 <= i < |xs| ensures Reads(s, ts[..|xs|][i], xs[i]) {
      assert Reads(s, ts[i], (xs + ys)[i]);
    }
    forall i | 0 <= i < |ys| ensures Reads(s, ts[|xs|..][i], ys[i]) {
      assert Reads(s, ts[|xs| + i], (xs + ys)[|xs| + i]);
    }
  }

  /** xs, one symbol, ys. */
  lemma SplitAround(s: string, ts: seq<Tok>, xs: seq<string>, x: string, ys: seq<string>)
    requires AllRead(s, ts, xs + [x] + ys)
    ensures |ts| == |xs| + 1 + |ys| && AllRead(s, ts[..|xs|], xs) && Reads(s, ts[|xs|], x)
            && AllRead(s, ts[|xs| + 1..], ys)
    ensures ts == ts[..|xs|] + [ts[|xs|]] + ts[|xs| + 1..]
  {
    assert xs + [x] + ys == xs + ([x] + ys);
    SplitRead(s, ts, xs, [x] + ys);
    SplitRead(s, ts[|xs|..], [x], ys);
    assert ts[|xs|..][..1] == [ts[|xs|]] && ts[|xs|..][1..] == ts[|xs| + 1..];
    assert Reads(s, ts[|xs|..][..1][0], [x][0]);
  }

  lemma {:induction false} ExecTree(s: string, t: Tree, ts: seq<Tok>)
    requires Printable(t) && AllRead(s, ts, Print(t, 0))
    ensures var e := AtExec(t, ts);
      ExecOk(e) && ExecTokens(e) == ts && ReadsAs(s, BuildExec(e), t)
    decreases t, if Level(t) == 0 then 0 else 4
  {
    match t
    case Run(argv) => RunTree(s, argv, ts);
    case Redirected(c, file, way) => RedirTree(s, c, file, way, ts);
    case _ =>
      hide ReadsAs, BuildExec, ExecOk, ExecTokens, AllRead, Printable, Own;
      assert Print(t, 0) == ["("] + Own(t) + [")"];
      BlockRead(s, ts, Own(t));
      LineTree(s, t, ts[1..|ts| - 1]);
      BlockOf(ts, AtLine(t, ts[1..|ts| - 1]));
  }

  lemma BlockRead(s: string, ts: seq<Tok>, xs: seq<string>)
    requires AllRead(s, ts, ["("] + xs + [")"])
    ensures |ts| == |xs| + 2 && ts[0].kind == '(' && ts[|ts| - 1].kind == ')' && AllRead(s, ts[1..|ts| - 1], xs)
  {
    hide AllRead;
    assert [] + ["("] + (xs + [")"]) == ["("] + xs + [")"];
    SplitAround(s, ts, [], "(", xs + [")"]);
    assert xs + [")"] + [] == xs + [")"];
    SplitAround(s, ts[1..], xs, ")", []);
    assert ts[1..][..|xs|] == ts[1..|ts| - 1];
  }

  lemma BlockOf(ts: seq<Tok>, l: Line)
    requires |ts| >= 2 && ts[0].kind == '(' && ts[|ts| - 1].kind == ')' && LineOk(l) && LineTokens(l) == ts[1..|ts| - 1]
    ensures var e := Block(ts[0], l, ts[|ts| - 1], []);
      ExecOk(e) && ExecTokens(e) == ts && BuildExec(e) == BuildLine(l)
  {
    hide LineOk, LineTokens, BuildLine;
  }

  lemma RunTree(s: string, argv: seq<string>, ts: seq<Tok>)
    requires Printable(Run(argv)) && AllRead(s, ts, argv)
    ensures Print(Run(argv), 0) == argv
    ensures var e := AtExec(Run(argv), ts);
      ExecOk(e) && ExecTokens(e) == ts && ReadsAs(s, BuildExec(e), Run(argv))
  {
    ArgsOf(ts);
    forall i | 0 <= i < |ts| ensures ts[i].kind == 'a' {
      assert Reads(s, ts[i], argv[i]) && IsWordText(argv[i]);
      WordKind(argv[i]);
    }
    ArgsOfOk(ts);
    NoRedirs();
    hide ArgTokens, Words, Redirs, Args, ArgsOk, AllRead, RedirTokens;
    assert [] + ts == ts;
    assert BuildExec(Simple([], Args(ts))) == Wrap(ExecCmd(ts), []);
  }

  lemma WordKind(x: string)
    requires IsWordText(x)
    ensures KindOf(x) == 'a'
  {
    assert IsWord(x[0]);
  }

  lemma {:induction false} RedirTree(s: string, c: Tree, file: string, way: Way, ts: seq<Tok>)
    requires Printable(Redirected(c, file, way)) && AllRead(s, ts, Print(Redirected(c, file, way), 0))
    ensures var e := AtExec(Redirected(c, file, way), ts);
      ExecOk(e) && ExecTokens(e) == ts && ReadsAs(s, BuildExec(e), Redirected(c, file, way))
    decreases c, 7
  {
    hide BuildExec, ExecOk, ExecTokens, AllRead, Print, AddRedir, IsWordText, ReadsAs, AtExec;
    PrintRedir(c, file, way);
    SplitAround(s, ts, Print(c, 0), OpText(way), [file]);
    AtRedir(c, file, way, ts);
    var n := |Print(c, 0)|;
    RedirRead(s, ts[n], ts[n + 1..], way, file);
    ExecTree(s, c, ts[..n]);
    RedirMeans(s, AtExec(c, ts[..n]), c, Redir(ts[n], ts[n + 1]), file, way);
  }

  function OpText(way: Way): string {
    match way case In => "<" case Out => ">" case Append => ">>"
  }

  lemma PrintRedir(c: Tree, file: string, way: Way)
    ensures Print(Redirected(c, file, way), 0) == Print(c, 0) + [OpText(way)] + [file]
  {
  }

  lemma AtRedir(c: Tree, file: string, way: Way, ts: seq<Tok>)
    requires |ts| == |Print(Redirected(c, file, way), 0)|
    ensures |ts| == |Print(c, 0)| + 2
    ensures AtExec(Redirected(c, file, way), ts)
            == AddRedir(AtExec(c, ts[..|ts| - 2]), Redir(ts[|ts| - 2], ts[|ts| - 1]))
    ensures ts == ts[..|ts| - 2] + [ts[|ts| - 2], ts[|ts| - 1]]
  {
    PrintRedir(c, file, way);
    hide Print, AddRedir;
  }

  lemma RedirMeans(s: string, e: Exec, c: Tree, r: Redir, file: string, way: Way)
    requires ExecOk(e) && ReadsAs(s, BuildExec(e), c) && Reads(s, r.file, file)
    requires r.op.kind == KindOf(OpText(way)) && r.file.kind == 'a'
    ensures var f := AddRedir(e, r);
      ExecOk(f) && ExecTokens(f) == ExecTokens(e) + [r.op, r.file] && ReadsAs(s, BuildExec(f), Redirected(c, file, way))
  {
    hide BuildExec, ExecOk, ExecTokens, AddRedir, Reads;
    AddRedirWraps(e, r);
  }

  lemma RedirRead(s: string, o: Tok, ts: seq<Tok>, way: Way, file: string)
    requires Reads(s, o, OpText(way)) && AllRead(s, ts, [file]) && IsWordText(file)
    ensures |ts| == 1 && o.kind == KindOf(OpText(way)) && ts[0].kind == 'a' && Reads(s, ts[0], file)
  {
    assert Reads(s, ts[0], [file][0]);
    WordKind(file);
  }

  lemma {:induction false} PipeTree(s: string, t: Tree, ts: seq<Tok>)
    requires Printable(t) && AllRead(s, ts, Print(t, 1))
    ensures var p := AtPipe(t, ts);
      PipesOk(p) && PipeTokens(p) == ts && ReadsAs(s, BuildPipes(p), t)
    decreases t, if Level(t) <= 1 then 1 else 5
  {
    if t.Piping? {
      assert Print(t, 1) == Own(t);
      hide AllRead, BuildExec, ExecOk, ExecTokens, Print;
      SplitAround(s, ts, Print(t.left, 0), "|", Print(t.right, 1));
      var n := |Print(t.left, 0)|;
      ExecTree(s, t.left, ts[..n]);
      PipeTree(s, t.right, ts[n + 1..]);
    } else {
      assert Print(t, 1) == Print(t, 0);
      hide AllRead, BuildExec, ExecOk, ExecTokens, ReadsAs;
      ExecTree(s, t, ts);
    }
  }

  lemma {:induction false} BackTree(s: string, t: Tree, ts: seq<Tok>)
    requires Printable(t) && AllRead(s, ts, Print(t, 2))
    ensures var l := AtBack(t, ts);
      LineOk(l) && LineTokens(l) == ts && ReadsAs(s, BuildLine(l), t)
    decreases t, if t.Back? then 1 else if Level(t) <= 1 then 2 else 6
  {
    if t.Back? {
      assert Print(t, 2) == Own(t);
      hide AllRead, BuildLine, LineOk, LineTokens, Print;
      assert Print(t.cmd, 2) + ["&"] == Print(t.cmd, 2) + ["&"] + [];
      SplitAround(s, ts, Print(t.cmd, 2), "&", []);
      var n := |ts| - 1;
      BackTree(s, t.cmd, ts[..n]);
      AddAnd(AtBack(t.cmd, ts[..n]), ts[n]);
      assert ts == ts[..n] + [ts[n]];
    } else {
      assert Print(t, 2) == Print(t, 1);
      hide AllRead, BuildPipes, PipesOk, PipeTokens, ReadsAs, AtPipe, Print;
      PipeTree(s, t, ts);
      assert PipeTokens(AtPipe(t, ts)) + [] == ts;
    }
  }

  lemma AddAnd(l: Line, a: Tok)
    requires l.Alone? && a.kind == '&'
    ensures var m := Alone(l.pipes, l.ands + [a]);
      LineTokens(m) == LineTokens(l) + [a] && (LineOk(l) ==> LineOk(m)) && BuildLine(m) == BackCmd(BuildLine(l))
  {
    hide PipeTokens, PipesOk, BuildPipes;
    assert PipeTokens(l.pipes) + (l.ands + [a]) == PipeTokens(l.pipes) + l.ands + [a];
  }

  lemma {:induction false} LineTree(s: string, t: Tree, ts: seq<Tok>)
    requires Printable(t) && AllRead(s, ts, Own(t))
    ensures var l := AtLine(t, ts);
      LineOk(l) && LineTokens(l) == ts && ReadsAs(s, BuildLine(l), t)
    decreases t, if t.Listed? then 1 else if t.Back? then 2 else 3
  {
    if t.Listed? {
      assert Print(t.right, 3) == Own(t.right);
      hide AllRead, BuildPipes, PipesOk, PipeTokens, Print;
      SplitAround(s, ts, Print(t.left, 2), ";", Print(t.right, 3));
      var n := |Print(t.left, 2)|;
      BackTree(s, t.left, ts[..n]);
      LineTree(s, t.right, ts[n + 1..]);
    } else {
      assert Own(t) == Print(t, 2);
      hide AllRead, LineOk, LineTokens, BuildLine, ReadsAs;
      BackTree(s, t, ts);
    }
  }

  /** Parsing what was printed gives the same tree: for every tree with at most nine words in each
      command, the text is accepted, and the command built from it reads as the tree. */
  lemma RoundTrip(t: Tree)
    requires Printable(t)
    ensures var s := Render(Print(t, 3));
      var r := ParseLine(Tokens(s, 0));
      r.Ok? && r.rest == [] && ReadsAs(s, BuildLine(r.value), t)
  {
    var xs := Print(t, 3);
    var s := Render(xs);
    PrintsTokens(t, 3);
    ScanRender([], xs);
    assert [] + s == s && xs == Own(t);
    var ts := Tokens(s, 0);
    hide AllRead, LineOk, LineTokens, BuildLine, ReadsAs, Print, Tokens, Render;
    LineTree(s, t, ts);
    AcceptsGrammar(ts);
  }
}
