/** The grammar of the shell's command lines, and a parser of token sequences that is sound and
    complete for it. */
module ShellGrammar {
  import opened ShellLexer

  const MAXARGS := 10

  // ----- derivation trees -----

  /** A redirection: '<', '>' or ">>", and a file name. */
  datatype Redir = Redir(op: Tok, file: Tok)

  /** A word of a command, and the redirections right after it. */
  datatype Arg = Arg(word: Tok, redirs: seq<Redir>)

  datatype Exec =
    | Block(open: Tok, body: Line, close: Tok, after: seq<Redir>)
    | Simple(redirs: seq<Redir>, args: seq<Arg>)

  datatype Pipes = Last(exec: Exec) | Piped(exec: Exec, bar: Tok, rest: Pipes)

  datatype Line = Alone(pipes: Pipes, ands: seq<Tok>) | Then(pipes: Pipes, ands: seq<Tok>, semi: Tok, rest: Line)

  // ----- the tokens of a tree -----

  function RedirTokens(rs: seq<Redir>): seq<Tok> {
    if rs == [] then [] else [rs[0].op, rs[0].file] + RedirTokens(rs[1..])
  }

  function ArgTokens(xs: seq<Arg>): seq<Tok> {
    if xs == [] then [] else [xs[0].word] + RedirTokens(xs[0].redirs) + ArgTokens(xs[1..])
  }

  function ExecTokens(e: Exec): seq<Tok> {
    match e
    case Block(open, body, close, after) => [open] + LineTokens(body) + [close] + RedirTokens(after)
    case Simple(redirs, args) => RedirTokens(redirs) + ArgTokens(args)
  }

  function PipeTokens(p: Pipes): seq<Tok> {
    match p
    case Last(e) => ExecTokens(e)
    case Piped(e, bar, rest) => ExecTokens(e) + [bar] + PipeTokens(rest)
  }

  function LineTokens(l: Line): seq<Tok> {
    match l
    case Alone(p, ands) => PipeTokens(p) + ands
    case Then(p, ands, semi, rest) => PipeTokens(p) + ands + [semi] + LineTokens(rest)
  }

  // ----- well-formed trees -----

  predicate RedirsOk(rs: seq<Redir>) {
    forall i | 0 <= i < |rs| :: Lead(rs[i].op.kind) in {'<', '>'} && rs[i].file.kind == 'a'
  }

  predicate ArgsOk(xs: seq<Arg>) {
    forall i | 0 <= i < |xs| :: xs[i].word.kind == 'a' && RedirsOk(xs[i].redirs)
  }

  predicate ExecOk(e: Exec) {
    match e
    case Block(open, body, close, after) => open.kind == '(' && LineOk(body) && close.kind == ')' && RedirsOk(after)
    case Simple(redirs, args) => RedirsOk(redirs) && ArgsOk(args) && |args| < MAXARGS
  }

  predicate PipesOk(p: Pipes) {
    match p
    case Last(e) => ExecOk(e)
    case Piped(e, bar, rest) => ExecOk(e) && bar.kind == '|' && PipesOk(rest)
  }

  predicate AndsOk(ands: seq<Tok>) {
    forall i | 0 <= i < |ands| :: ands[i].kind == '&'
  }

  predicate LineOk(l: Line) {
    PipesOk(l.pipes) && AndsOk(l.ands) && (l.Then? ==> l.semi.kind == ';' && LineOk(l.rest))
  }

  // ----- the parser -----

  datatype Parsed<+T> = Ok(value: T, rest: seq<Tok>) | Panic

  predicate Starts(ts: seq<Tok>, symbols: set<char>) {
    ts != [] && Lead(ts[0].kind) in symbols
  }

  function ParseRedirs(ts: seq<Tok>): (r: Parsed<seq<Redir>>)
    ensures r.Ok? ==> |r.rest| <= |ts|
    decreases |ts|
  {
    if !Starts(ts, {'<', '>'}) then Ok([], ts)
    else if |ts| < 2 || ts[1].kind != 'a' then Panic
    else match ParseRedirs(ts[2..])
      case Panic => Panic
      case Ok(more, rest) => Ok([Redir(ts[0], ts[1])] + more, rest)
  }

  /** The words of a command, of which argc have been read. */
  function ParseArgs(ts: seq<Tok>, argc: nat): (r: Parsed<seq<Arg>>)
    ensures r.Ok? ==> |r.rest| <= |ts|
    decreases |ts|
  {
    if ts == [] || Starts(ts, {'|', ')', '&', ';'}) then Ok([], ts)
    else if ts[0].kind != 'a' || argc + 1 >= MAXARGS then Panic
    else match ParseRedirs(ts[1..])
      case Panic => Panic
      case Ok(redirs, rest) =>
        match ParseArgs(rest, argc + 1)
        case Panic => Panic
        case Ok(more, left) => Ok([Arg(ts[0], redirs)] + more, left)
  }

  function ParseSimple(ts: seq<Tok>): (r: Parsed<Exec>)
    ensures r.Ok? ==> |r.rest| <= |ts|
  {
    match ParseRedirs(ts)
    case Panic => Panic
    case Ok(redirs, rest) =>
      match ParseArgs(rest, 0)
      case Panic => Panic
      case Ok(args, left) => Ok(Simple(redirs, args), left)
  }

  function ParseExec(ts: seq<Tok>): (r: Parsed<Exec>)
    ensures r.Ok? ==> |r.rest| <= |ts|
    decreases |ts|, 0
  {
    if !Starts(ts, {'('}) then ParseSimple(ts)
    else match ParseLine(ts[1..])
      case Panic => Panic
      case Ok(body, rest) =>
        if !Starts(rest, {')'}) then Panic
        else match ParseRedirs(rest[1..])
          case Panic => Panic
          case Ok(after, left) => Ok(Block(ts[0], body, rest[0], after), left)
  }

  function ParsePipe(ts: seq<Tok>): (r: Parsed<Pipes>)
    ensures r.Ok? ==> |r.rest| <= |ts|
    decreases |ts|, 1
  {
    match ParseExec(ts)
    case Panic => Panic
    case Ok(e, rest) =>
      if !Starts(rest, {'|'}) then Ok(Last(e), rest)
      else match ParsePipe(rest[1..])
        case Panic => Panic
        case Ok(p, left) => Ok(Piped(e, rest[0], p), left)
  }

  /** How many '&' the tokens start with. */
  function Ands(ts: seq<Tok>): (n: nat)
    ensures n <= |ts|
  {
    if Starts(ts, {'&'}) then 1 + Ands(ts[1..]) else 0
  }

  function ParseLine(ts: seq<Tok>): (r: Parsed<Line>)
    ensures r.Ok? ==> |r.rest| <= |ts|
    decreases |ts|, 2
  {
    match ParsePipe(ts)
    case Panic => Panic
    case Ok(p, rest) =>
      var n := Ands(rest);
      var left := rest[n..];
      if !Starts(left, {';'}) then Ok(Alone(p, rest[..n]), left)
      else match ParseLine(left[1..])
        case Panic => Panic
        case Ok(l, end) => Ok(Then(p, rest[..n], left[0], l), end)
  }

  // ----- soundness: what is accepted is what the grammar derives -----

  lemma {:induction false} RedirsSound(ts: seq<Tok>)
    requires ParseRedirs(ts).Ok?
    ensures RedirsOk(ParseRedirs(ts).value) && ts == RedirTokens(ParseRedirs(ts).value) + ParseRedirs(ts).rest
    decreases |ts|
  {
    if Starts(ts, {'<', '>'}) {
      RedirsSound(ts[2..]);
      var more := ParseRedirs(ts[2..]).value;
      assert ([Redir(ts[0], ts[1])] + more)[1..] == more;
      assert ts == [ts[0], ts[1]] + ts[2..];
    }
  }

  lemma ArgsCons(a: Arg, more: seq<Arg>)
    ensures ArgTokens([a] + more) == [a.word] + RedirTokens(a.redirs) + ArgTokens(more)
    ensures ArgsOk([a] + more) <==> a.word.kind == 'a' && RedirsOk(a.redirs) && ArgsOk(more)
  {
    hide RedirTokens, RedirsOk;
    var xs := [a] + more;
    assert xs[1..] == more;
    assert forall i | 0 <= i < |more| :: more[i] == xs[i + 1];
  }

  lemma {:induction false} ArgsSound(ts: seq<Tok>, argc: nat)
    requires ParseArgs(ts, argc).Ok? && argc < MAXARGS
    ensures ArgsOk(ParseArgs(ts, argc).value) && argc + |ParseArgs(ts, argc).value| < MAXARGS
    ensures ts == ArgTokens(ParseArgs(ts, argc).value) + ParseArgs(ts, argc).rest
    decreases |ts|
  {
    hide ParseRedirs, RedirTokens, RedirsOk, Starts, ArgTokens, ArgsOk;
    if ts == [] || Starts(ts, {'|', ')', '&', ';'}) {
      NoArgs(ts);
    } else {
      RedirsSound(ts[1..]);
      var redirs, rest := ParseRedirs(ts[1..]).value, ParseRedirs(ts[1..]).rest;
      ArgsSound(rest, argc + 1);
      var more, left := ParseArgs(rest, argc + 1).value, ParseArgs(rest, argc + 1).rest;
      ArgsCons(Arg(ts[0], redirs), more);
      Reassoc(ts, RedirTokens(redirs), ArgTokens(more), left);
    }
  }

  lemma NoArgs(ts: seq<Tok>)
    ensures ArgsOk([]) && ArgTokens([]) + ts == ts
  {
  }

  lemma Reassoc(ts: seq<Tok>, a: seq<Tok>, b: seq<Tok>, c: seq<Tok>)
    requires ts != [] && ts[1..] == a + (b + c)
    ensures ts == [ts[0]] + a + b + c
  {
    assert ts == [ts[0]] + ts[1..];
  }

  lemma {:induction false} ExecSound(ts: seq<Tok>)
    requires ParseExec(ts).Ok?
    ensures ExecOk(ParseExec(ts).value) && ts == ExecTokens(ParseExec(ts).value) + ParseExec(ts).rest
    decreases |ts|, 0
  {
    hide ParseRedirs, RedirTokens, RedirsOk, ArgTokens, ArgsOk, ParseArgs, ParseLine, LineTokens, LineOk;
    if Starts(ts, {'('}) {
      LineSound(ts[1..]);
      var body, rest := ParseLine(ts[1..]).value, ParseLine(ts[1..]).rest;
      RedirsSound(rest[1..]);
      Reassoc(ts, LineTokens(body), rest, []);
      Reassoc(rest, RedirTokens(ParseRedirs(rest[1..]).value), ParseRedirs(rest[1..]).rest, []);
    } else {
      RedirsSound(ts);
      ArgsSound(ParseRedirs(ts).rest, 0);
    }
  }

  lemma {:induction false} PipeSound(ts: seq<Tok>)
    requires ParsePipe(ts).Ok?
    ensures PipesOk(ParsePipe(ts).value) && ts == PipeTokens(ParsePipe(ts).value) + ParsePipe(ts).rest
    decreases |ts|, 1
  {
    hide ParseExec, ExecTokens, ExecOk;
    ExecSound(ts);
    var rest := ParseExec(ts).rest;
    if Starts(rest, {'|'}) {
      PipeSound(rest[1..]);
      assert rest == [rest[0]] + rest[1..];
    }
  }

  lemma {:induction false} AndsSound(ts: seq<Tok>)
    ensures AndsOk(ts[..Ands(ts)])
  {
    if Starts(ts, {'&'}) {
      AndsSound(ts[1..]);
      assert ts[..Ands(ts)] == [ts[0]] + ts[1..][..Ands(ts[1..])];
    }
  }

  lemma {:induction false} LineSound(ts: seq<Tok>)
    requires ParseLine(ts).Ok?
    ensures LineOk(ParseLine(ts).value) && ts == LineTokens(ParseLine(ts).value) + ParseLine(ts).rest
    decreases |ts|, 2
  {
    hide ParsePipe, PipeTokens, PipesOk, Ands, AndsOk;
    PipeSound(ts);
    var rest := ParsePipe(ts).rest;
    AndsSound(rest);
    var left := rest[Ands(rest)..];
    assert rest == rest[..Ands(rest)] + left;
    if Starts(left, {';'}) {
      LineSound(left[1..]);
      assert left == [left[0]] + left[1..];
    }
  }

  // ----- completeness: what the grammar derives is accepted, with the same tree -----

  /** Nothing follows, or one of the symbols. */
  predicate Stops(ts: seq<Tok>, symbols: set<char>) {
    ts == [] || ts[0].kind in symbols
  }

  lemma RedirsCons(r: Redir, more: seq<Redir>)
    ensures RedirTokens([r] + more) == [r.op, r.file] + RedirTokens(more)
    ensures RedirsOk([r] + more) <==> Lead(r.op.kind) in {'<', '>'} && r.file.kind == 'a' && RedirsOk(more)
  {
    var rs := [r] + more;
    assert rs[1..] == more;
    assert forall i | 0 <= i < |more| :: more[i] == rs[i + 1];
  }

  lemma {:induction false} RedirsComplete(rs: seq<Redir>, rest: seq<Tok>)
    requires RedirsOk(rs) && !Starts(rest, {'<', '>'})
    ensures ParseRedirs(RedirTokens(rs) + rest) == Ok(rs, rest)
  {
    var ts := RedirTokens(rs) + rest;
    if rs == [] {
      assert ts == rest;
    } else {
      assert rs == [rs[0]] + rs[1..];
      RedirsCons(rs[0], rs[1..]);
      hide RedirTokens, RedirsOk;
      RedirsComplete(rs[1..], rest);
      assert ts[0] == rs[0].op && ts[1] == rs[0].file && ts[2..] == RedirTokens(rs[1..]) + rest;
    }
  }

  lemma WordsFirst(xs: seq<Arg>, rest: seq<Tok>)
    requires ArgsOk(xs) && Stops(rest, {'|', ')', '&', ';'})
    ensures !Starts(ArgTokens(xs) + rest, {'<', '>'}) && !Starts(ArgTokens(xs) + rest, {'('})
  {
    if xs == [] {
      assert ArgTokens(xs) + rest == rest;
    } else {
      assert (ArgTokens(xs) + rest)[0] == xs[0].word;
    }
  }

  lemma NoBlock(redirs: seq<Redir>, xs: seq<Arg>, rest: seq<Tok>)
    requires RedirsOk(redirs) && ArgsOk(xs) && Stops(rest, {'|', ')', '&', ';'})
    ensures !Starts(RedirTokens(redirs) + (ArgTokens(xs) + rest), {'('})
  {
    WordsFirst(xs, rest);
    if redirs == [] {
      assert RedirTokens(redirs) + (ArgTokens(xs) + rest) == ArgTokens(xs) + rest;
    } else {
      assert (RedirTokens(redirs) + (ArgTokens(xs) + rest))[0] == redirs[0].op;
    }
  }

  lemma ParseNoArgs(rest: seq<Tok>, argc: nat)
    requires Stops(rest, {'|', ')', '&', ';'})
    ensures ParseArgs(rest, argc) == Ok([], rest)
  {
  }

  lemma {:induction false} ArgsComplete(xs: seq<Arg>, argc: nat, rest: seq<Tok>)
    requires ArgsOk(xs) && argc + |xs| < MAXARGS && Stops(rest, {'|', ')', '&', ';'})
    ensures ParseArgs(ArgTokens(xs) + rest, argc) == Ok(xs, rest)
    decreases |xs|
  {
    hide ParseRedirs, RedirTokens, RedirsOk, ArgTokens, ArgsOk;
    if xs == [] {
      NoArgs(rest);
      ParseNoArgs(rest, argc);
    } else {
      assert xs == [xs[0]] + xs[1..];
      ArgsCons(xs[0], xs[1..]);
      var ts := ArgTokens(xs) + rest;
      var more := ArgTokens(xs[1..]) + rest;
      ArgsComplete(xs[1..], argc + 1, rest);
      assert ts[0] == xs[0].word && ts[1..] == RedirTokens(xs[0].redirs) + more;
      WordsFirst(xs[1..], rest);
      RedirsComplete(xs[0].redirs, more);
    }
  }

  lemma {:induction false} ExecComplete(e: Exec, rest: seq<Tok>)
    requires ExecOk(e) && Stops(rest, {'|', ')', '&', ';'})
    ensures ParseExec(ExecTokens(e) + rest) == Ok(e, rest)
    decreases e, 0
  {
    match e
    case Block(open, body, close, after) => BlockComplete(open, body, close, after, rest);
    case Simple(redirs, args) => SimpleComplete(redirs, args, rest);
  }

  lemma {:induction false} BlockComplete(open: Tok, body: Line, close: Tok, after: seq<Redir>, rest: seq<Tok>)
    requires ExecOk(Block(open, body, close, after)) && Stops(rest, {'|', ')', '&', ';'})
    ensures ParseExec(ExecTokens(Block(open, body, close, after)) + rest) == Ok(Block(open, body, close, after), rest)
    decreases body, 3
  {
    hide ParseRedirs, RedirTokens, RedirsOk, ParseLine, LineTokens, LineOk, ParseSimple;
    var ts := ExecTokens(Block(open, body, close, after)) + rest;
    var inner := [close] + RedirTokens(after) + rest;
    assert ts[0] == open && ts[1..] == LineTokens(body) + inner;
    LineComplete(body, inner);
    assert inner[0] == close && inner[1..] == RedirTokens(after) + rest;
    RedirsComplete(after, rest);
  }

  lemma SimpleComplete(redirs: seq<Redir>, args: seq<Arg>, rest: seq<Tok>)
    requires ExecOk(Simple(redirs, args)) && Stops(rest, {'|', ')', '&', ';'})
    ensures ParseExec(ExecTokens(Simple(redirs, args)) + rest) == Ok(Simple(redirs, args), rest)
  {
    hide ParseRedirs, RedirTokens, RedirsOk, ArgTokens, ArgsOk, ParseArgs, ParseLine, Stops;
    var words := ArgTokens(args) + rest;
    assert ExecTokens(Simple(redirs, args)) + rest == RedirTokens(redirs) + words;
    WordsFirst(args, rest);
    NoBlock(redirs, args, rest);
    RedirsComplete(redirs, words);
    ArgsComplete(args, 0, rest);
  }

  lemma {:induction false} PipeComplete(p: Pipes, rest: seq<Tok>)
    requires PipesOk(p) && Stops(rest, {')', '&', ';'})
    ensures ParsePipe(PipeTokens(p) + rest) == Ok(p, rest)
    decreases p, 1
  {
    hide ParseExec, ExecTokens, ExecOk;
    match p
    case Last(e) => ExecComplete(e, rest);
    case Piped(e, bar, q) =>
      var more := [bar] + PipeTokens(q) + rest;
      assert PipeTokens(p) + rest == ExecTokens(e) + more;
      ExecComplete(e, more);
      assert more[1..] == PipeTokens(q) + rest;
      PipeComplete(q, rest);
  }

  lemma {:induction false} AndsComplete(ands: seq<Tok>, rest: seq<Tok>)
    requires AndsOk(ands) && Stops(rest, {')', ';'})
    ensures Ands(ands + rest) == |ands|
  {
    if ands == [] {
      assert ands + rest == rest;
    } else {
      assert (ands + rest)[1..] == ands[1..] + rest;
      AndsComplete(ands[1..], rest);
    }
  }

  lemma AndsFirst(ands: seq<Tok>, rest: seq<Tok>)
    requires AndsOk(ands) && Stops(rest, {')', ';'})
    ensures Stops(ands + rest, {')', '&', ';'})
  {
    if ands == [] {
      assert ands + rest == rest;
    }
  }

  lemma {:induction false} LineComplete(l: Line, rest: seq<Tok>)
    requires LineOk(l) && Stops(rest, {')'})
    ensures ParseLine(LineTokens(l) + rest) == Ok(l, rest)
    decreases l, 2
  {
    hide ParsePipe, PipeTokens, PipesOk, Ands, AndsOk;
    var end := match l case Alone(_, _) => rest case Then(_, _, semi, more) => [semi] + LineTokens(more) + rest;
    var tail := l.ands + end;
    assert LineTokens(l) + rest == PipeTokens(l.pipes) + tail;
    AndsFirst(l.ands, end);
    PipeComplete(l.pipes, tail);
    AndsComplete(l.ands, end);
    assert tail[..|l.ands|] == l.ands && tail[|l.ands|..] == end;
    if l.Then? {
      LineComplete(l.rest, rest);
      assert end[1..] == LineTokens(l.rest) + rest;
    }
  }

  /** A command line is accepted exactly when the grammar derives it, and there is only one
      derivation. */
  lemma AcceptsGrammar(ts: seq<Tok>)
    ensures (exists l :: LineOk(l) && LineTokens(l) == ts) <==> ParseLine(ts).Ok? && ParseLine(ts).rest == []
    ensures forall l | LineOk(l) && LineTokens(l) == ts :: ParseLine(ts) == Ok(l, [])
  {
    forall l | LineOk(l) && LineTokens(l) == ts ensures ParseLine(ts) == Ok(l, []) {
      LineComplete(l, []);
      assert LineTokens(l) + [] == ts;
    }
    if ParseLine(ts).Ok? && ParseLine(ts).rest == [] {
      LineSound(ts);
      assert LineTokens(ParseLine(ts).value) == ts;
    }
  }
}
