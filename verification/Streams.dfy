/** What pipes and the console share: rings of n characters addressed by free-running 32-bit
    counters, where n divides 2^32. */
module Streams {
  import opened Blocks

  /** How an attempt to read or write ends. */
  datatype Outcome = Done | Failed | Slept

  predicate RingSize(n: nat) {
    0 < n < UINT && UINT % n == 0
  }

  lemma {:induction false} AddMultiple(x: nat, k: nat, n: nat)
    requires n > 0
    ensures (k * n + x) % n == x % n
  {
    if k > 0 {
      AddMultiple(x, k - 1, n);
      AddOnce((k - 1) * n + x, n);
      assert k * n + x == (k - 1) * n + x + n;
    }
  }

  lemma AddOnce(y: nat, n: nat)
    requires n > 0
    ensures (y + n) % n == y % n
  {
    var q, r := y / n, y % n;
    var q', r' := (y + n) / n, (y + n) % n;
    assert y == q * n + r && y + n == q' * n + r';
    OneDivision(q + 1, r, q', r', n);
  }

  /** Quotient and remainder are unique. */
  lemma OneDivision(q: int, r: int, q': int, r': int, n: int)
    requires 0 <= r < n && 0 <= r' < n && q * n + r == q' * n + r'
    ensures q == q' && r == r'
  {
    AtLeast(q - q', n);
    AtLeast(q' - q, n);
    assert (q - q') * n == r' - r;
  }

  lemma AtLeast(d: int, n: int)
    requires n > 0
    ensures d > 0 ==> d * n >= n
  {
  }

  /** The slot of character number i. */
  lemma SlotOf(i: nat, n: nat)
    requires RingSize(n)
    ensures i % UINT % n == i % n
  {
    var m := UINT / n;
    assert UINT == m * n;
    assert i == i / UINT * UINT + i % UINT;
    assert i / UINT * UINT == (i / UINT * m) * n;
    AddMultiple(i % UINT, i / UINT * m, n);
  }

  /** The counter before i, and its slot. */
  lemma Back(i: nat, n: nat)
    requires i > 0 && RingSize(n)
    ensures (i % UINT - 1) % UINT == (i - 1) % UINT && (i % UINT - 1) % UINT % n == (i - 1) % n
  {
    SlotOf(i - 1, n);
    Pred(i);
  }

  lemma Pred(i: nat)
    requires i > 0
    ensures (i % UINT - 1) % UINT == (i - 1) % UINT
  {
  }

  lemma Succ(i: nat)
    ensures (i + 1) % UINT == (i % UINT + 1) % UINT
  {
  }

  /** Characters less than n apart have different slots. */
  lemma Apart(i: nat, j: nat, n: nat)
    requires n > 0 && i < j < i + n
    ensures i % n != j % n
  {
    var q, r, q', r' := i / n, i % n, j / n, j % n;
    assert i == q * n + r && j == q' * n + r';
    assert j - i == (q' - q) * n + (r' - r);
    AtLeast(q' - q, n);
    AtLeast(q - q', n);
  }

  /** The counters tell how full the ring is. */
  lemma Distance(i: nat, j: nat, n: nat)
    requires n < UINT && i <= j <= i + n
    ensures (j % UINT - i % UINT) % UINT == j - i
    ensures i % UINT == j % UINT <==> i == j
    ensures j % UINT == (i % UINT + n) % UINT <==> j == i + n
  {
  }
}
