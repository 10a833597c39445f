/** The regular expression matcher of grep. A C string is the sequence of its characters up to,
    and without, the terminating NUL. */
module Grep {

  /** What a pattern is made of: a character or '.', a starred one, and a final '$'. */
  datatype Item = One(c: char) | Star(c: char) | End

  function Parse(re: string): seq<Item> {
    if re == [] then []
    else if |re| > 1 && re[1] == '*' then [Star(re[0])] + Parse(re[2..])
    else if re == "$" then [End]
    else [One(re[0])] + Parse(re[1..])
  }

  /** The pattern text of an item. */
  function ItemText(x: Item): string {
    match x case One(c) => [c] case Star(c) => [c, '*'] case End => "$"
  }

  function Text(items: seq<Item>): string {
    if items == [] then [] else ItemText(items[0]) + Text(items[1..])
  }

  /** Items that a pattern can stand for: '$' is an end mark in last place and only there, and a
      star after a single item would be that item's. */
  ghost predicate Canonical(items: seq<Item>) {
    forall i | 0 <= i < |items| ::
      && (items[i].End? ==> i == |items| - 1) && (items[i] == One('$') ==> i < |items| - 1)
      && (i > 0 && items[i - 1].One? ==> ItemText(items[i])[0] != '*')
  }

  /** Reading a pattern and spelling it out again are inverse to each other. */
  lemma ParseIff(re: string, items: seq<Item>)
    ensures items == Parse(re) <==> Canonical(items) && Text(items) == re
  {
    PrintParse(re);
    if Canonical(items) && Text(items) == re {
      ParsePrint(items);
    }
  }

  lemma {:induction false} PrintParse(re: string)
    ensures Canonical(Parse(re)) && Text(Parse(re)) == re
  {
    if re != [] {
      var n := if |re| > 1 && re[1] == '*' then 2 else 1;
      if re != "$" {
        PrintParse(re[n..]);
        var rest := Parse(re[n..]);
        assert Parse(re)[1..] == rest && re == re[..n] + re[n..];
        assert rest != [] ==> Text(rest)[0] == ItemText(rest[0])[0];
        CanonicalMore(Parse(re)[0], rest);
      }
    }
  }

  lemma CanonicalMore(x: Item, rest: seq<Item>)
    requires Canonical(rest) && !x.End? && (x == One('$') ==> rest != [])
    requires x.One? && rest != [] ==> ItemText(rest[0])[0] != '*'
    ensures Canonical([x] + rest)
  {
    var items := [x] + rest;
    assert forall i | 0 < i < |items| :: items[i] == rest[i - 1];
  }

  lemma {:induction false} ParsePrint(items: seq<Item>)
    requires Canonical(items)
    ensures Parse(Text(items)) == items
    decreases |items|
  {
    if items != [] {
      var x, rest := items[0], items[1..];
      assert forall i | 0 <= i < |rest| :: rest[i] == items[i + 1];
      assert Canonical(rest);
      ParsePrint(rest);
      var re := Text(items);
      assert rest != [] ==> |Text(rest)| > 0 && Text(rest)[0] == ItemText(rest[0])[0];
      if !x.End? {
        var n := |ItemText(x)|;
        assert re[n..] == Text(rest) && re[..n] == ItemText(x);
        assert items == [x] + rest;
      }
    }
  }

  predicate Fits(c: char, x: char) {
    c == '.' || c == x
  }

  /** Item matches text[i..j]. */
  ghost predicate Takes(item: Item, text: string, i: nat, j: nat)
    requires i <= j <= |text|
  {
    match item
    case One(c) => j == i + 1 && Fits(c, text[i])
    case Star(c) => forall k | i <= k < j :: Fits(c, text[k])
    case End => i == j == |text|
  }

  /** Item k takes the piece of text between cuts[k] and cuts[k + 1]. */
  ghost predicate Piece(items: seq<Item>, text: string, cuts: seq<nat>, k: nat)
    requires |cuts| == |items| + 1 && k < |items|
  {
    cuts[k] <= cuts[k + 1] <= |text| && Takes(items[k], text, cuts[k], cuts[k + 1])
  }

  /** The items match consecutive pieces of text, from its start. */
  ghost predicate Split(items: seq<Item>, text: string, cuts: seq<nat>) {
    |cuts| == |items| + 1 && cuts[0] == 0 && forall k: nat | k < |items| :: Piece(items, text, cuts, k)
  }

  /** The items match some prefix of text. */
  ghost predicate MatchesPrefix(items: seq<Item>, text: string) {
    exists cuts :: Split(items, text, cuts)
  }

  /** What grep asks of a line: a match at the start after '^', and anywhere otherwise. */
  ghost predicate MatchesLine(re: string, text: string) {
    if re != [] && re[0] == '^' then MatchesPrefix(Parse(re[1..]), text)
    else exists i: nat :: i <= |text| && MatchesPrefix(Parse(re), text[i..])
  }

  /** The first item takes n characters and the others match what follows. */
  ghost predicate HeadTakes(items: seq<Item>, text: string, n: nat) {
    items != [] && n <= |text| && Takes(items[0], text, 0, n) && MatchesPrefix(items[1..], text[n..])
  }

  function Shift(cuts: seq<nat>, n: nat): (r: seq<nat>)
    ensures |r| == |cuts| && forall k: nat | k < |cuts| :: r[k] == cuts[k] + n
  {
    seq(|cuts|, (k: nat) requires k < |cuts| => cuts[k] + n)
  }

  lemma Step(items: seq<Item>, text: string, n: nat)
    requires HeadTakes(items, text, n)
    ensures MatchesPrefix(items, text)
  {
    var cuts :| Split(items[1..], text[n..], cuts);
    var all := [0] + Shift(cuts, n);
    forall k: nat | k < |items|
      ensures Piece(items, text, all, k)
    {
      if k > 0 {
        assert items[k] == items[1..][k - 1];
        assert Piece(items[1..], text[n..], cuts, k - 1);
      }
    }
    assert Split(items, text, all);
  }

  lemma Unstep(items: seq<Item>, text: string)
    requires items != [] && MatchesPrefix(items, text)
    ensures exists n: nat :: HeadTakes(items, text, n)
  {
    var cuts :| Split(items, text, cuts);
    var n := cuts[1];
    assert Piece(items, text, cuts, 0);
    Rising(items, text, cuts, |items|);
    var rest := seq(|items|, (k: nat) requires k < |items| => cuts[k + 1] - n);
    forall k: nat | k < |items| - 1
      ensures Piece(items[1..], text[n..], rest, k)
    {
      assert items[1..][k] == items[k + 1];
      assert Piece(items, text, cuts, k + 1);
    }
    assert Split(items[1..], text[n..], rest);
    assert HeadTakes(items, text, n);
  }

  lemma {:induction false} Rising(items: seq<Item>, text: string, cuts: seq<nat>, m: nat)
    requires Split(items, text, cuts) && 1 <= m <= |items|
    ensures forall k: nat | 1 <= k <= m :: cuts[1] <= cuts[k] <= |text|
  {
    assert Piece(items, text, cuts, m - 1);
    if m > 1 {
      Rising(items, text, cuts, m - 1);
    }
  }

  /** matchstar: zero or more of c, then re. */
  method MatchStar(c: char, re: string, text: string) returns (r: bool)
    ensures r <==> MatchesPrefix([Star(c)] + Parse(re), text)
    decreases |re|, 1
  {
    var items := [Star(c)] + Parse(re);
    assert items[1..] == Parse(re);
    var i := 0;
    while true
      invariant i <= |text| && Takes(Star(c), text, 0, i)
      invariant forall n: nat | n < i :: !HeadTakes(items, text, n)
      decreases |text| - i
    {
      r := MatchHere(re, text[i..]);
      if r {
        Step(items, text, i);
        return;
      }
      if i == |text| || !(text[i] == c || c == '.') {
        break;
      }
      i := i + 1;
    }
    if MatchesPrefix(items, text) {
      Unstep(items, text);
    }
  }

  /** matchhere: re at the beginning of text. */
  method MatchHere(re: string, text: string) returns (r: bool)
    ensures r <==> MatchesPrefix(Parse(re), text)
    decreases |re|, 0
  {
    var items := Parse(re);
    if re == [] {
      assert Split(items, text, [0]);
      return true;
    }
    if |re| > 1 && re[1] == '*' {
      r := MatchStar(re[0], re[2..], text);
      return;
    }
    if re == "$" {
      EndMatches(text);
      return text == [];
    }
    assert items[0] == One(re[0]) && items[1..] == Parse(re[1..]);
    OneMatches(items, text);
    if text != [] && (re[0] == '.' || re[0] == text[0]) {
      r := MatchHere(re[1..], text[1..]);
    } else {
      r := false;
    }
  }

  lemma EndMatches(text: string)
    ensures MatchesPrefix([End], text) <==> text == []
  {
    if text == [] {
      assert Split([End], text, [0, 0]);
    }
    if MatchesPrefix([End], text) {
      Unstep([End], text);
    }
  }

  lemma OneMatches(items: seq<Item>, text: string)
    requires items != [] && items[0].One?
    ensures MatchesPrefix(items, text) <==>
            text != [] && Fits(items[0].c, text[0]) && MatchesPrefix(items[1..], text[1..])
  {
    if text != [] && Fits(items[0].c, text[0]) && MatchesPrefix(items[1..], text[1..]) {
      Step(items, text, 1);
    }
    if MatchesPrefix(items, text) {
      Unstep(items, text);
    }
  }

  /** match: re in text. */
  method Match(re: string, text: string) returns (r: bool)
    ensures r <==> MatchesLine(re, text)
  {
    if re != [] && re[0] == '^' {
      r := MatchHere(re[1..], text);
      return;
    }
    var i := 0;
    while true
      invariant i <= |text|
      invariant forall k: nat | k < i :: !MatchesPrefix(Parse(re), text[k..])
      decreases |text| - i
    {
      r := MatchHere(re, text[i..]);
      if r {
        return;
      }
      if i == |text| {
        return false;
      }
      i := i + 1;
    }
  }
}
