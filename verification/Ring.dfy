/** Doubly linked circular lists with a sentinel, as index arrays.

    Node i < |next| - 1 is an element; `head` is the sentinel. `order` lists the
    linked elements starting at head.next. */
module Ring {

  /** The cycle written out, sentinel at both ends. */
  function Cycle(head: nat, order: seq<nat>): (c: seq<nat>)
    ensures |c| == |order| + 2
  {
    [head] + order + [head]
  }

  ghost predicate IsRing(next: seq<nat>, prev: seq<nat>, head: nat, order: seq<nat>) {
    && |next| == |prev| == head + 1
    && (forall i | 0 <= i < |order| :: order[i] < head)
    && (forall i, j | 0 <= i < j < |order| :: order[i] != order[j])
    && var c := Cycle(head, order);
       forall i {:trigger c[i]} | 0 <= i <= |order| :: next[c[i]] == c[i + 1] && prev[c[i + 1]] == c[i]
  }

  function Without(order: seq<nat>, k: nat): (r: seq<nat>)
    requires k < |order|
    ensures |r| == |order| - 1
  {
    order[..k] + order[k+1..]
  }

  /** One link of the ring, by position. */
  lemma RingAt(next: seq<nat>, prev: seq<nat>, head: nat, order: seq<nat>, i: nat)
    requires IsRing(next, prev, head, order) && i < |order|
    ensures |next| == |prev| == head + 1 && order[i] < head && next[order[i]] <= head && prev[order[i]] <= head
    ensures next[order[i]] == if i + 1 < |order| then order[i + 1] else head
    ensures prev[order[i]] == if i > 0 then order[i - 1] else head
  {
    var c := Cycle(head, order);
    assert c[i + 1] == order[i] && c[i + 2] == next[c[i + 1]] && prev[c[i + 1]] == c[i];
  }

  lemma RingEnds(next: seq<nat>, prev: seq<nat>, head: nat, order: seq<nat>)
    requires IsRing(next, prev, head, order)
    ensures |next| == |prev| == head + 1 && next[head] <= head && prev[head] <= head
    ensures next[head] == if |order| > 0 then order[0] else head
    ensures prev[head] == if |order| > 0 then order[|order| - 1] else head
  {
    var c := Cycle(head, order);
    assert next[c[0]] == c[1];
    assert prev[c[|order| + 1]] == c[|order|];
  }

  /** Following next returns along prev, and back. */
  lemma NextPrevInverse(next: seq<nat>, prev: seq<nat>, head: nat, order: seq<nat>, b: nat)
    requires IsRing(next, prev, head, order)
    requires b == head || b in order
    ensures next[b] <= head && prev[b] <= head
    ensures prev[next[b]] == b && next[prev[b]] == b
  {
    RingEnds(next, prev, head, order);
    if b == head {
      if |order| > 0 {
        RingAt(next, prev, head, order, 0);
        RingAt(next, prev, head, order, |order| - 1);
      }
    } else {
      var i :| 0 <= i < |order| && order[i] == b;
      RingAt(next, prev, head, order, i);
      if i > 0 { RingAt(next, prev, head, order, i - 1); }
      if i + 1 < |order| { RingAt(next, prev, head, order, i + 1); }
    }
  }

  /** The two pointer writes that take a buffer out of the list: its neighbours point at each other. */
  lemma Unlink(next: seq<nat>, prev: seq<nat>, head: nat, order: seq<nat>, k: nat,
               next': seq<nat>, prev': seq<nat>)
    requires IsRing(next, prev, head, order) && k < |order|
    requires next[order[k]] <= head && prev[order[k]] <= head
    requires prev' == prev[next[order[k]] := prev[order[k]]]
    requires next' == next[prev[order[k]] := next[order[k]]]
    ensures IsRing(next', prev', head, Without(order, k)) && order[k] !in Without(order, k)
  {
    var c, d := Cycle(head, order), Cycle(head, Without(order, k));
    forall i | 0 <= i < |order|
      ensures next'[d[i]] == d[i + 1] && prev'[d[i + 1]] == d[i]
    {
      assert c[k + 1] == order[k] && next[c[k]] == c[k + 1] && next[c[k + 1]] == c[k + 2];
      assert d[i] == if i <= k then c[i] else c[i + 1];
      assert d[i + 1] == if i + 1 <= k then c[i + 1] else c[i + 2];
      assert next[c[i]] == c[i + 1];
      assert next[c[i + 1]] == c[i + 2];
    }
  }

  /** The four pointer writes that put a buffer between the head and the first of the list. */
  lemma PushFront(next: seq<nat>, prev: seq<nat>, head: nat, order: seq<nat>, b: nat,
                  next': seq<nat>, prev': seq<nat>)
    requires IsRing(next, prev, head, order) && b < head && b !in order
    requires next[head] <= head
    requires next' == next[b := next[head]][head := b]
    requires prev' == prev[b := head][next[head] := b]
    ensures IsRing(next', prev', head, [b] + order)
  {
    var c, d := Cycle(head, order), Cycle(head, [b] + order);
    RingEnds(next, prev, head, order);
    forall i | 0 <= i <= |order| + 1
      ensures next'[d[i]] == d[i + 1] && prev'[d[i + 1]] == d[i]
    {
      if i >= 1 {
        assert d[i + 1] == c[i];
        if i >= 2 {
          assert d[i] == c[i - 1] && next[c[i - 1]] == c[i];
        }
      }
    }
  }

  /** A linked element is not its own neighbour, so unlinking does not disturb its own links. */
  lemma AroundDiffer(next: seq<nat>, prev: seq<nat>, head: nat, order: seq<nat>, k: nat)
    requires IsRing(next, prev, head, order) && k < |order|
    ensures next[order[k]] != order[k] && prev[order[k]] != order[k]
  {
    RingAt(next, prev, head, order, k);
  }
}
