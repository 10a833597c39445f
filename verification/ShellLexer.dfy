/** The shell's scanner. A command line is the sequence of its characters up to, and without, the
    terminating NUL; tokens are kept as the positions where they start and end. */
module ShellLexer {

  /** Kind 'a' is a word, '+' is ">>", and any other kind is the symbol itself. */
  datatype Tok = Tok(kind: char, lo: nat, hi: nat)

  const NUL := 0 as char

  predicate IsSpace(c: char) {
    c == ' ' || c == '\t' || c == '\r' || c == '\n' || c == 11 as char
  }

  predicate IsSymbol(c: char) {
    c in {'<', '|', '>', '&', ';', '(', ')'}
  }

  predicate IsWord(c: char) {
    !IsSpace(c) && !IsSymbol(c)
  }

  /** The first position from p on that is not white space. */
  function Skip(s: string, p: nat): (q: nat)
    requires p <= |s|
    ensures p <= q <= |s| && (q < |s| ==> !IsSpace(s[q])) && forall i | p <= i < q :: IsSpace(s[i])
    decreases |s| - p
  {
    if p < |s| && IsSpace(s[p]) then Skip(s, p + 1) else p
  }

  /** The first position from p on that is not part of a word. */
  function WordEnd(s: string, p: nat): (q: nat)
    requires p <= |s|
    ensures p <= q <= |s| && (q < |s| ==> !IsWord(s[q])) && forall i | p <= i < q :: IsWord(s[i])
    decreases |s| - p
  {
    if p < |s| && IsWord(s[p]) then WordEnd(s, p + 1) else p
  }

  function First(s: string, p: nat): (t: Tok)
    requires p < |s| && !IsSpace(s[p])
    ensures t.lo == p < t.hi <= |s|
  {
    if s[p] == '>' then
      if p + 1 < |s| && s[p + 1] == '>' then Tok('+', p, p + 2) else Tok('>', p, p + 1)
    else if IsSymbol(s[p]) then Tok(s[p], p, p + 1)
    else Tok('a', p, WordEnd(s, p))
  }

  /** All tokens from position p on. */
  function Tokens(s: string, p: nat): seq<Tok>
    requires p <= |s|
    decreases |s| - p
  {
    var q := Skip(s, p);
    if q == |s| then [] else [First(s, q)] + Tokens(s, First(s, q).hi)
  }

  lemma SkipSkip(s: string, p: nat)
    requires p <= |s|
    ensures Tokens(s, Skip(s, p)) == Tokens(s, p)
  {
    assert Skip(s, Skip(s, p)) == Skip(s, p);
  }

  /** A word, as long as it can be. */
  ghost predicate WordSpan(s: string, t: Tok) {
    t.kind == 'a' && t.lo < t.hi <= |s| && (forall i | t.lo <= i < t.hi :: IsWord(s[i]))
      && (t.hi < |s| ==> !IsWord(s[t.hi]))
  }

  lemma {:induction false} TokensAreMaximal(s: string, p: nat)
    requires p <= |s|
    ensures forall t | t in Tokens(s, p) && t.kind == 'a' :: WordSpan(s, t)
    decreases |s| - p
  {
    var q := Skip(s, p);
    if q < |s| {
      TokensAreMaximal(s, First(s, q).hi);
    }
  }

  // ----- what the tokens of a line are -----

  /** A word of word characters, ">>", or a symbol of one character; '>' stands alone only where no
      other '>' follows it. */
  ghost predicate Shape(s: string, t: Tok) {
    && t.lo < t.hi <= |s|
    && if t.kind == 'a' then forall i | t.lo <= i < t.hi :: IsWord(s[i])
       else if t.kind == '+' then t.hi == t.lo + 2 && s[t.lo] == s[t.lo + 1] == '>'
       else && t.kind in {'<', '|', '>', '&', ';', '(', ')'} && t.hi == t.lo + 1 && s[t.lo] == t.kind
            && (t.kind == '>' ==> t.hi == |s| || s[t.hi] != '>')
  }

  ghost predicate Covered(ts: seq<Tok>, c: nat) {
    exists i :: 0 <= i < |ts| && ts[i].lo <= c < ts[i].hi
  }

  /** ts are tokens from position p on, in order, without two words side by side, and every character
      that is not white space lies in one of them. */
  ghost predicate Scans(s: string, p: nat, ts: seq<Tok>) {
    && (forall i | 0 <= i < |ts| :: p <= ts[i].lo && Shape(s, ts[i]))
    && (forall i, j | 0 <= i < j < |ts| :: ts[i].hi <= ts[j].lo)
    && (forall i, j | 0 <= i < j < |ts| && ts[i].kind == ts[j].kind == 'a' :: ts[i].hi < ts[j].lo)
    && (forall c: nat | p <= c < |s| && !IsSpace(s[c]) :: Covered(ts, c))
  }

  /** The tokens of a line are its division into tokens, and there is no other. */
  lemma TokensUnique(s: string, ts: seq<Tok>)
    ensures Scans(s, 0, ts) <==> ts == Tokens(s, 0)
  {
    TokensScan(s, 0);
    if Scans(s, 0, ts) {
      ScanIsTokens(s, 0, ts);
    }
  }

  lemma FirstShape(s: string, q: nat)
    requires q < |s| && !IsSpace(s[q])
    ensures Shape(s, First(s, q)) && First(s, q).lo == q
    ensures First(s, q).kind == 'a' && First(s, q).hi < |s| ==> !IsWord(s[First(s, q).hi])
  {
  }

  lemma {:induction false} TokensScan(s: string, p: nat)
    requires p <= |s|
    ensures Scans(s, p, Tokens(s, p))
    decreases |s| - p
  {
    var q := Skip(s, p);
    if q < |s| {
      var t := First(s, q);
      FirstShape(s, q);
      TokensScan(s, t.hi);
      ScanMore(s, p, q, t, Tokens(s, t.hi));
    }
  }

  lemma ScanMore(s: string, p: nat, q: nat, t: Tok, rest: seq<Tok>)
    requires p <= q == t.lo && Shape(s, t) && Scans(s, t.hi, rest) && forall c | p <= c < q :: IsSpace(s[c])
    requires t.kind == 'a' && t.hi < |s| ==> !IsWord(s[t.hi])
    ensures Scans(s, p, [t] + rest)
  {
    hide Shape;
    TokHas(s, t);
    var ts := [t] + rest;
    assert forall i | 0 < i < |ts| :: ts[i] == rest[i - 1];
    forall c: nat | p <= c < |s| && !IsSpace(s[c]) ensures Covered(ts, c) {
      if c < t.hi {
        assert ts[0].lo <= c < ts[0].hi;
      } else {
        assert Covered(rest, c);
        var i :| 0 <= i < |rest| && rest[i].lo <= c < rest[i].hi;
        assert ts[i + 1].lo <= c < ts[i + 1].hi;
      }
    }
    forall j | 0 < j < |ts| && t.kind == ts[j].kind == 'a' ensures t.hi < ts[j].lo {
      assert Shape(s, rest[j - 1]);
      WordStart(s, rest[j - 1]);
    }
  }

  lemma {:induction false} ScanIsTokens(s: string, p: nat, ts: seq<Tok>)
    requires p <= |s| && Scans(s, p, ts)
    ensures ts == Tokens(s, p)
    decreases |s| - p
  {
    hide Scans, First, Shape;
    var q := Skip(s, p);
    if q == |s| {
      NoTokens(s, p, ts);
    } else {
      var t := First(s, q);
      FirstToken(s, p, q, ts);
      ScanRest(s, p, t, ts);
      ScanIsTokens(s, t.hi, ts[1..]);
    }
  }

  lemma NoTokens(s: string, p: nat, ts: seq<Tok>)
    requires Scans(s, p, ts) && forall c | p <= c < |s| :: IsSpace(s[c])
    ensures ts == []
  {
    if ts != [] {
      NotSpace(s, ts[0]);
    }
  }

  lemma NotSpace(s: string, t: Tok)
    requires Shape(s, t)
    ensures !IsSpace(s[t.lo])
  {
  }

  /** The first token starts at the first character that is not white space, and is as long as it
      can be. */
  lemma FirstToken(s: string, p: nat, q: nat, ts: seq<Tok>)
    requires Scans(s, p, ts) && p <= q < |s| && !IsSpace(s[q]) && forall c | p <= c < q :: IsSpace(s[c])
    ensures ts != [] && ts[0] == First(s, q)
  {
    FirstStart(s, p, q, ts);
    hide Shape, First;
    assert Shape(s, ts[0]);
    if ts[0].kind == 'a' && ts[0].hi < |s| {
      WordGoesOn(s, p, ts);
    }
    FirstIs(s, ts[0]);
  }

  lemma FirstIs(s: string, t: Tok)
    requires Shape(s, t) && (t.kind == 'a' && t.hi < |s| ==> !IsWord(s[t.hi]))
    ensures !IsSpace(s[t.lo]) && t == First(s, t.lo)
  {
    NotSpace(s, t);
    if t.kind == 'a' {
      WordEndIs(s, t.lo, t.hi);
      hide WordEnd;
    }
  }

  lemma FirstStart(s: string, p: nat, q: nat, ts: seq<Tok>)
    requires Scans(s, p, ts) && p <= q < |s| && !IsSpace(s[q]) && forall c | p <= c < q :: IsSpace(s[c])
    ensures ts != [] && ts[0].lo == q
  {
    hide Shape;
    assert Covered(ts, q);
    assert Shape(s, ts[0]);
    NotSpace(s, ts[0]);
    TokHas(s, ts[0]);
  }

  lemma TokHas(s: string, t: Tok)
    requires Shape(s, t)
    ensures t.lo < t.hi <= |s|
  {
  }

  lemma WordGoesOn(s: string, p: nat, ts: seq<Tok>)
    requires Scans(s, p, ts) && ts != [] && ts[0].kind == 'a' && ts[0].hi < |s|
    ensures !IsWord(s[ts[0].hi])
  {
    hide Shape;
    var c := ts[0].hi;
    assert Shape(s, ts[0]);
    TokHas(s, ts[0]);
    if !IsSpace(s[c]) {
      assert Covered(ts, c);
      var i :| 0 <= i < |ts| && ts[i].lo <= c < ts[i].hi;
      assert i != 0 && ts[0].hi <= ts[i].lo;
      assert Shape(s, ts[i]) && ts[i].kind != 'a';
      SymbolStart(s, ts[i]);
    }
  }

  lemma WordStart(s: string, t: Tok)
    requires Shape(s, t) && t.kind == 'a'
    ensures t.lo < |s| && IsWord(s[t.lo])
  {
  }

  lemma SymbolStart(s: string, t: Tok)
    requires Shape(s, t) && t.kind != 'a'
    ensures IsSymbol(s[t.lo])
  {
  }

  lemma WordEndIs(s: string, p: nat, q: nat)
    requires p < q <= |s| && (q < |s| ==> !IsWord(s[q])) && forall i | p <= i < q :: IsWord(s[i])
    ensures WordEnd(s, p) == q
  {
  }

  lemma ScanRest(s: string, p: nat, t: Tok, ts: seq<Tok>)
    requires Scans(s, p, ts) && ts != [] && ts[0] == t
    ensures p <= t.lo < t.hi <= |s| && Scans(s, t.hi, ts[1..])
  {
    var rest := ts[1..];
    assert forall i | 0 <= i < |rest| :: rest[i] == ts[i + 1];
    assert Shape(s, ts[0]);
    forall c: nat | t.hi <= c < |s| && !IsSpace(s[c]) ensures Covered(rest, c) {
      assert Covered(ts, c);
      var i :| 0 <= i < |ts| && ts[i].lo <= c < ts[i].hi;
      assert rest[i - 1] == ts[i];
    }
  }

  /** The white space loop of gettoken and peek. */
  method SkipSpace(s: string, p: nat) returns (q: nat)
    requires p <= |s|
    ensures q == Skip(s, p)
  {
    q := p;
    while q < |s| && IsSpace(s[q])
      invariant p <= q <= |s| && Skip(s, q) == Skip(s, p)
    {
      q := q + 1;
    }
  }

  /** The token that starts at p. */
  method ScanOne(s: string, p: nat) returns (kind: char, eq: nat)
    requires p < |s| && !IsSpace(s[p])
    ensures Tok(kind, p, eq) == First(s, p) && kind != NUL
  {
    if s[p] == '>' {
      if p + 1 < |s| && s[p + 1] == '>' {
        return '+', p + 2;
      }
      return '>', p + 1;
    } else if IsSymbol(s[p]) {
      return s[p], p + 1;
    }
    kind, eq := 'a', p;
    while eq < |s| && IsWord(s[eq])
      invariant p <= eq <= |s| && WordEnd(s, eq) == WordEnd(s, p)
    {
      eq := eq + 1;
    }
  }

  /** gettoken: the next token, and the position after the white space that follows it. */
  method GetToken(s: string, p: nat) returns (kind: char, q: nat, eq: nat, next: nat)
    requires p <= |s|
    ensures p <= next <= |s| && eq <= |s| && (kind == NUL <==> Tokens(s, p) == [])
    ensures Tokens(s, p) != [] ==>
            Tok(kind, q, eq) == Tokens(s, p)[0] && Tokens(s, next) == Tokens(s, p)[1..] && next > p
    ensures Tokens(s, p) == [] ==> Tokens(s, next) == []
  {
    q := SkipSpace(s, p);
    kind, eq := NUL, q;
    if q < |s| {
      kind, eq := ScanOne(s, q);
    }
    next := SkipSpace(s, eq);
    SkipSkip(s, eq);
    hide Skip, First;
  }

  /** The character a token starts with; for a word only that it is not a symbol. */
  function Lead(kind: char): char {
    if kind == '+' then '>' else kind
  }

  /** peek: whether the next token starts with one of the symbols. */
  method Peek(s: string, p: nat, symbols: set<char>) returns (r: bool, next: nat)
    requires p <= |s| && forall c | c in symbols :: IsSymbol(c)
    ensures p <= next <= |s| && Tokens(s, next) == Tokens(s, p) && next == Skip(s, p)
    ensures r <==> Tokens(s, p) != [] && Lead(Tokens(s, p)[0].kind) in symbols
  {
    next := SkipSpace(s, p);
    SkipSkip(s, p);
    r := next < |s| && s[next] in symbols;
  }

  // ----- printing and scanning back -----

  /** The text of one token: a word, or a symbol. */
  ghost predicate TokenText(x: string) {
    x == ">>" || (|x| == 1 && IsSymbol(x[0])) || (x != [] && forall i | 0 <= i < |x| :: IsWord(x[i]))
  }

  function KindOf(x: string): char {
    if x == ">>" then '+' else if |x| == 1 && IsSymbol(x[0]) then x[0] else 'a'
  }

  /** The texts, each followed by a blank. */
  function Render(xs: seq<string>): string {
    if xs == [] then [] else xs[0] + " " + Render(xs[1..])
  }

  lemma WordEndAt(s: string, p: nat, q: nat)
    requires p <= q < |s| && !IsWord(s[q]) && forall i | p <= i < q :: IsWord(s[i])
    ensures WordEnd(s, p) == q
  {
  }

  /** Token t of s reads x. */
  ghost predicate Reads(s: string, t: Tok, x: string) {
    t.kind == KindOf(x) && t.lo <= t.hi <= |s| && s[t.lo..t.hi] == x
  }

  ghost predicate AllRead(s: string, ts: seq<Tok>, xs: seq<string>) {
    |ts| == |xs| && forall i | 0 <= i < |xs| :: Reads(s, ts[i], xs[i])
  }

  /** Scanning a printed command line gives its tokens back, in order and with their texts. */
  lemma {:induction false} ScanRender(before: string, xs: seq<string>)
    requires forall x | x in xs :: TokenText(x)
    ensures AllRead(before + Render(xs), Tokens(before + Render(xs), |before|), xs)
    decreases |xs|
  {
    hide TokenText, AllRead, Tokens, Render;
    var s := before + Render(xs);
    if xs == [] {
      ScanNothing(before);
    } else {
      var more := before + xs[0] + " ";
      RenderFirst(before, xs);
      ScanRender(more, xs[1..]);
      NextToken(s, |before|, xs[0]);
      ReadOneMore(s, Tokens(s, |before|), Tokens(s, |more|), xs);
    }
  }

  lemma ScanNothing(before: string)
    ensures before + Render([]) == before && Tokens(before, |before|) == [] && AllRead(before, [], [])
  {
  }

  lemma RenderFirst(before: string, xs: seq<string>)
    requires xs != []
    ensures before + Render(xs) == before + xs[0] + " " + Render(xs[1..])
    ensures var s, p := before + Render(xs), |before|;
      p + |xs[0]| < |s| && s[p..p + |xs[0]|] == xs[0] && s[p + |xs[0]|] == ' '
  {
  }

  lemma NextToken(s: string, p: nat, x: string)
    requires TokenText(x) && p + |x| < |s| && s[p..p + |x|] == x && s[p + |x|] == ' '
    ensures Tokens(s, p) == [Tok(KindOf(x), p, p + |x|)] + Tokens(s, p + |x| + 1)
  {
    FirstOf(s, p, x);
    assert Skip(s, p + |x|) == Skip(s, p + |x| + 1) && Skip(s, p) == p;
    hide First, Skip, TokenText, KindOf;
  }

  lemma ReadOneMore(s: string, ts: seq<Tok>, rest: seq<Tok>, xs: seq<string>)
    requires xs != [] && AllRead(s, rest, xs[1..]) && ts != [] && ts[1..] == rest && Reads(s, ts[0], xs[0])
    ensures AllRead(s, ts, xs)
  {
    forall i | 0 <= i < |xs| ensures Reads(s, ts[i], xs[i]) {
      if i > 0 {
        assert Reads(s, rest[i - 1], xs[1..][i - 1]);
      }
    }
  }

  lemma FirstOf(s: string, p: nat, x: string)
    requires TokenText(x) && p + |x| < |s| && s[p..p + |x|] == x && s[p + |x|] == ' '
    ensures !IsSpace(s[p]) && First(s, p) == Tok(KindOf(x), p, p + |x|)
  {
    assert forall i | 0 <= i < |x| :: s[p + i] == x[i];
    if forall i | 0 <= i < |x| :: IsWord(x[i]) {
      forall i | p <= i < p + |x| ensures IsWord(s[i]) {
        assert s[i] == x[i - p];
      }
      WordEndAt(s, p, p + |x|);
    }
  }
}
