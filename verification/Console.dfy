/** The console's input line discipline: a 128-character ring with three free-running 32-bit
    indices, for reading, for the end of the committed lines, and for editing. */
module Console {
  import opened Blocks
  import opened Streams

  const INPUT_BUF := 128
  const CTRL_D := 4 as char
  const CTRL_H := 8 as char
  const CTRL_P := 16 as char
  const CTRL_U := 21 as char
  const DEL := 127 as char

  /** A key that ends a line. */
  predicate EndsLine(c: char) {
    c == '\n' || c == CTRL_D
  }

  /** What a reader that asks for n more characters is given of the committed text s. */
  function Taken(s: string, n: nat): (k: nat)
    ensures k <= n && k <= |s|
  {
    if n == 0 || s == [] || s[0] == CTRL_D then 0
    else if s[0] == '\n' then 1
    else 1 + Taken(s[1..], n - 1)
  }

  /** Taken is the longest stretch without ^D and with a newline at most at its end. */
  lemma {:induction false} TakenIsALine(s: string, n: nat)
    ensures forall i | 0 <= i < Taken(s, n) :: s[i] != CTRL_D && (s[i] == '\n' ==> i == Taken(s, n) - 1)
    ensures Taken(s, n) == n || Taken(s, n) == |s| || s[Taken(s, n)] == CTRL_D
            || (Taken(s, n) > 0 && s[Taken(s, n) - 1] == '\n')
  {
    if n > 0 && s != [] && s[0] != CTRL_D && s[0] != '\n' {
      TakenIsALine(s[1..], n - 1);
    }
  }

  lemma {:induction false} TakenStep(s: string, n: nat, k: nat)
    requires k < n && k < |s| && Taken(s[..k], n) == k && (k > 0 ==> s[k - 1] != '\n')
    requires forall i | 0 <= i < k :: s[i] != '\n' && s[i] != CTRL_D
    ensures s[k] == CTRL_D ==> Taken(s, n) == k
    ensures s[k] == '\n' ==> Taken(s, n) == k + 1
    ensures !EndsLine(s[k]) ==> Taken(s[..k + 1], n) == k + 1
  {
    if k > 0 {
      assert s[..k][1..] == s[1..][..k - 1] && s[..k + 1][1..] == s[1..][..k];
      TakenStep(s[1..], n - 1, k - 1);
    }
  }

  /** The counters in order; a full buffer is a committed one. */
  ghost predicate Indices(r: nat, w: nat, e: nat, typed: nat, read: nat, line: nat) {
    && read <= line <= typed <= read + INPUT_BUF && (typed == read + INPUT_BUF ==> line == typed)
    && r == read % UINT && w == line % UINT && e == typed % UINT
  }

  /** The ring holds the unread text. */
  ghost predicate Stored(buf: seq<char>, typed: string, read: nat) {
    |buf| == INPUT_BUF && forall i: nat | read <= i < |typed| :: buf[i % INPUT_BUF] == typed[i]
  }

  /** No line end beyond the committed text. */
  ghost predicate Editable(typed: string, line: nat) {
    forall i: nat | line <= i < |typed| :: !EndsLine(typed[i])
  }

  class ConsoleInput {
    const buf: array<char>
    var r: nat
    var w: nat
    var e: nat
    var asleep: set<nat>             // readers asleep on &input.r
    ghost var typed: string          // everything typed and not erased
    ghost var read: nat              // how far it has been read
    ghost var line: nat              // how far it is committed

    ghost predicate Valid()
      reads this, buf
    {
      buf.Length == INPUT_BUF && Indices(r, w, e, |typed|, read, line) && Stored(buf[..], typed, read)
      && Editable(typed, line) && (asleep != {} ==> read == line)
    }

    constructor ()
      ensures Valid() && fresh(buf) && typed == [] && asleep == {}
    {
      buf := new char[INPUT_BUF];
      r, w, e := 0, 0, 0;
      asleep := {};
      typed, read, line := [], 0, 0;
    }

    /** consoleintr on one character: process listing, line kill, backspace, or input. A full
        buffer drops the character; a buffer it fills is committed, as a line end is. */
    method Intr(c: char) returns (procdump: bool)
      requires Valid()
      modifies this, buf
      ensures Valid() && read == old(read)
      ensures procdump <==> c == CTRL_P
      ensures c == CTRL_P || c == 0 as char ==> typed == old(typed) && line == old(line)
      ensures c == CTRL_U ==> typed == old(typed[..line]) && line == old(line)
      ensures c == CTRL_H || c == DEL ==>
                && typed == (if |old(typed)| > old(line) then old(typed)[..|old(typed)| - 1] else old(typed))
                && line == old(line)
      ensures c !in {CTRL_P, CTRL_U, CTRL_H, DEL, 0 as char} ==>
                var room := |old(typed)| < read + 128;
                && typed == (if room then old(typed) + [if c == '\r' then '\n' else c] else old(typed))
                && line == if room && (EndsLine(typed[|typed| - 1]) || |typed| == read + 128)
                           then |typed| else old(line)
      ensures asleep == if line == old(line) then old(asleep) else {}
    {
      procdump := false;
      if c == CTRL_P {
        procdump := true;
      } else if c == CTRL_U {
        KillLine();
      } else if c == CTRL_H || c == DEL {
        Distance(line, |typed|, INPUT_BUF);
        if e != w {
          Erase();
        }
      } else {
        Distance(read, |typed|, INPUT_BUF);
        if c != 0 as char && (e - r) % UINT < INPUT_BUF {
          var k := if c == '\r' then '\n' else c;
          Append(k);
        }
      }
    }

    /** The line kill: back to the committed text, since no line end can lie beyond it. */
    method KillLine()
      requires Valid()
      modifies this`e, this`typed
      ensures Valid() && typed == old(typed)[..line]
    {
      Distance(line, |typed|, INPUT_BUF);
      while e != w && buf[(e - 1) % UINT % INPUT_BUF] != '\n'
        invariant Valid() && line <= |typed| <= |old(typed)| && typed == old(typed)[..|typed|]
        invariant e != w <==> line != |typed|
        decreases |typed|
      {
        Erase();
        Distance(line, |typed|, INPUT_BUF);
      }
      if e != w {
        Back(|typed|, INPUT_BUF);
      }
    }

    method Erase()
      requires Valid() && line < |typed|
      modifies this`e, this`typed
      ensures Valid() && typed == old(typed)[..|old(typed)| - 1]
    {
      Back(|typed|, INPUT_BUF);
      e := (e - 1) % UINT;
      typed := typed[..|typed| - 1];
    }

    method Append(k: char)
      requires Valid() && |typed| < read + INPUT_BUF
      modifies this`e, this`w, this`asleep, this`typed, this`line, buf
      ensures Valid() && typed == old(typed) + [k]
      ensures line == if EndsLine(k) || |typed| == read + INPUT_BUF then |typed| else old(line)
      ensures asleep == if line == old(line) then old(asleep) else {}
    {
      SlotOf(|typed|, INPUT_BUF);
      Succ(|typed|);
      StoreOne(buf[..], typed, read, k);
      hide Stored;
      ghost var b := buf[..];
      buf[e % INPUT_BUF] := k;
      assert buf[..] == b[e % INPUT_BUF := k];
      e := (e + 1) % UINT;
      typed := typed + [k];
      Distance(read, |typed|, INPUT_BUF);
      if k == '\n' || k == CTRL_D || e == (r + INPUT_BUF) % UINT {
        w := e;
        line := |typed|;
        asleep := {};
      }
    }

    /** One character off the ring; a ^D is put back if it has to be kept. */
    method Take(keep: bool) returns (c: char)
      requires Valid() && read < line
      modifies this`r, this`read
      ensures Valid() && c == typed[old(read)]
      ensures read == if c == CTRL_D && keep then old(read) else old(read) + 1
    {
      SlotOf(read, INPUT_BUF);
      Succ(read);
      Back(read + 1, INPUT_BUF);
      c := buf[r % INPUT_BUF];
      r := (r + 1) % UINT;
      if c == CTRL_D && keep {
        r := (r - 1) % UINT;
      } else {
        read := read + 1;
      }
    }

    /** consoleread, asked for n of the `target` characters of the whole call: the rest of a line,
        up to its newline or a ^D. The ^D is consumed only by a call that delivers nothing. */
    method Read(pid: nat, n: nat, target: nat, killed: bool) returns (out: string, res: Outcome)
      requires Valid() && n <= target
      modifies this`r, this`asleep, this`read
      ensures Valid() && old(read) <= read
      ensures out == typed[old(read)..line][..Taken(typed[old(read)..line], n)]
      ensures res == Done ==> |out| == n || (out != [] && out[|out| - 1] == '\n')
                              || (old(read) + |out| < line && typed[old(read) + |out|] == CTRL_D)
      ensures res != Done ==> old(read) + |out| == line && |out| < n && !(out != [] && out[|out| - 1] == '\n')
      ensures res == Failed ==> killed
      ensures res == Slept ==> !killed && asleep == old(asleep) + {pid}
      ensures read == old(read) + |out| +
                (if n == target && n > 0 && out == [] && old(read) < line && typed[old(read)] == CTRL_D then 1 else 0)
    {
      hide Taken, Stored, Editable, Partial, Indices;
      InOrder(r, w, e, |typed|, read, line);
      ghost var was := read;
      ghost var s := typed[read..line];
      out := [];
      PartialStart(s, n);
      while |out| < n
        invariant Valid() && asleep == old(asleep) && |out| <= n && read == was + |out| <= line
        invariant Partial(s, n, out)
        decreases n - |out|
      {
        InOrder(r, w, e, |typed|, read, line);
        PartialStep(s, n, out);
        if r == w {
          if killed {
            return out, Failed;
          }
          asleep := asleep + {pid};
          return out, Slept;
        }
        var c := Take(n - |out| < target);
        if c == CTRL_D {
          return out, Done;
        }
        out := out + [c];
        if c == '\n' {
          return out, Done;
        }
      }
      PartialDone(s, n, out);
      res := Done;
    }

    /** A killed process stops sleeping. */
    method Kill(pid: nat)
      requires Valid()
      modifies this`asleep
      ensures Valid() && asleep == old(asleep) - {pid}
    {
      asleep := asleep - {pid};
    }
  }

  lemma InOrder(r: nat, w: nat, e: nat, typed: nat, read: nat, line: nat)
    requires Indices(r, w, e, typed, read, line)
    ensures read <= line <= typed && (r == w <==> read == line)
  {
    Distance(read, line, INPUT_BUF);
  }

  /** A reader that has so far been given `out`, without a line end. */
  ghost predicate Partial(s: string, n: nat, out: string) {
    && |out| <= n && |out| <= |s| && out == s[..|out|] && Taken(out, n) == |out|
    && forall i | 0 <= i < |out| :: !EndsLine(out[i])
  }

  lemma PartialStart(s: string, n: nat)
    ensures Partial(s, n, [])
  {
  }

  lemma PartialStep(s: string, n: nat, out: string)
    requires Partial(s, n, out) && |out| < n
    ensures |out| <= |s| && out == s[..|out|] && !(out != [] && out[|out| - 1] == '\n')
    ensures |out| == |s| || s[|out|] == CTRL_D ==> Taken(s, n) == |out|
    ensures |out| < |s| && s[|out|] == '\n' ==> Taken(s, n) == |out| + 1 && out + [s[|out|]] == s[..|out| + 1]
    ensures |out| < |s| && !EndsLine(s[|out|]) ==> Partial(s, n, out + [s[|out|]])
  {
    if |out| < |s| {
      TakenStep(s, n, |out|);
      assert out + [s[|out|]] == s[..|out| + 1];
    } else {
      assert out == s;
    }
  }

  lemma PartialDone(s: string, n: nat, out: string)
    requires Partial(s, n, out) && |out| == n
    ensures Taken(s, n) == n && out == s[..n]
  {
    TakenAll(s, n);
  }

  lemma StoreOne(buf: seq<char>, typed: string, read: nat, k: char)
    requires Stored(buf, typed, read) && read <= |typed| < read + INPUT_BUF
    ensures Stored(buf[|typed| % INPUT_BUF := k], typed + [k], read)
  {
    forall i: nat | read <= i < |typed| ensures i % INPUT_BUF != |typed| % INPUT_BUF {
      Apart(i, |typed|, INPUT_BUF);
    }
  }

  lemma {:induction false} TakenAll(s: string, n: nat)
    requires n <= |s| && Taken(s[..n], n) == n
    ensures Taken(s, n) == n
  {
    if n > 0 {
      assert s[..n][1..] == s[1..][..n - 1];
      if s[0] != '\n' {
        TakenAll(s[1..], n - 1);
      }
    }
  }
}
