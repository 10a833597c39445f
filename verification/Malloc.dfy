/** The user-level allocator: a circular list of free blocks in address order, first fit,
    coalescing on free. Addresses count header-sized units; unit 0 is the static `base`. */
module Malloc {
  import opened Params
  import opened Blocks
  import opened Counting
  import opened Options

  /** A unit of memory read as a block header. */
  datatype Header = Header(ptr: nat, size: nat)

  /** Who a unit belongs to: the list (`Free`), the caller that was given a block, or nobody here
      (`Foreign`: memory that sbrk gave to somebody else). */
  datatype Owner = Base | Free | Live(block: nat) | Foreign

  const HEADER := 8

  /** nbytes in units, one more for the header, in 32-bit arithmetic. */
  function Units(nbytes: nat): (n: nat)
    ensures n >= 1
    ensures nbytes + 7 < UINT ==> (n - 1) * HEADER >= nbytes
  {
    (nbytes + HEADER - 1) % UINT / HEADER + 1
  }

  /** The units morecore asks for. */
  function Asked(nu: nat): nat {
    if nu < 4096 then 4096 else nu
  }

  /** The argument that reaches sbrk: the byte count as a signed 32-bit number. */
  function SbrkArg(n: nat): int {
    var bytes := n * HEADER % UINT;
    if bytes < UINT / 2 then bytes else bytes - UINT
  }

  /** The units that a process of sz bytes can use after it has asked sbrk for n: sbrk grants what it
      is asked for, but a page fault above KERNBASE kills. */
  function Usable(sz: nat, n: nat): nat {
    if SbrkArg(n) < 0 || sz >= KERNBASE then 0
    else (if sz + SbrkArg(n) <= KERNBASE then SbrkArg(n) else KERNBASE - sz) / HEADER
  }

  /** The byte count reaches sbrk unharmed, and the process stays in its half. */
  predicate Backed(sz: nat, n: nat) {
    n * HEADER < UINT / 2 && sz + n * HEADER <= KERNBASE
  }

  /** sbrk is asked for the bytes of n units exactly when they are fewer than 2^31; otherwise for
      fewer than that, for none, or to shrink the process. All n are usable exactly when the process
      also stays below KERNBASE. */
  lemma BackedIff(sz: nat, n: nat)
    requires n > 0
    ensures SbrkArg(n) <= n * HEADER && (SbrkArg(n) == n * HEADER <==> n * HEADER < UINT / 2)
    ensures Usable(sz, n) <= n && (Usable(sz, n) == n <==> Backed(sz, n))
  {
  }

  /** The units a request of nbytes takes up when none are on the list, without wrapping. */
  function Wanted(nbytes: nat): nat {
    var nu := (nbytes + 7) / 8 + 1;
    if nu < 4096 then 4096 else nu
  }

  /** A block of new memory can be used, all of it, and has room for the bytes asked for exactly when
      what is wanted fits below KERNBASE, on top of the process, and is less than 2^31 bytes. */
  lemma UsableIff(sz: nat, nbytes: nat)
    requires nbytes < UINT
    ensures Backed(sz, Asked(Units(nbytes))) && (Units(nbytes) - 1) * HEADER >= nbytes
            <==> sz + Wanted(nbytes) * HEADER <= KERNBASE && Wanted(nbytes) * HEADER < UINT / 2
  {
    RoomIff(nbytes);
  }

  /** Requests for which sbrk is asked for nothing, to shrink the process, and for more than there is
      room for below KERNBASE. */
  lemma UnbackedRequests(sz: nat)
    ensures Units(0xFFFF_FFF8) == 0x2000_0000 && SbrkArg(Asked(Units(0xFFFF_FFF8))) == 0
    ensures SbrkArg(Asked(Units(0x8000_0000))) < 0
    ensures var n := Asked(Units(0x7FFF_FFF0)); SbrkArg(n) == n * HEADER && (sz > 8 ==> Usable(sz, n) < n)
  {
  }

  /** The block has room for the bytes asked for exactly when the rounding does not wrap. */
  lemma RoomIff(nbytes: nat)
    requires nbytes < UINT
    ensures (Units(nbytes) - 1) * HEADER >= nbytes <==> nbytes <= UINT - HEADER
  {
    if nbytes > UINT - HEADER {
      assert (nbytes + HEADER - 1) % UINT == nbytes + HEADER - 1 - UINT;
    }
  }

  // ----- the free list -----

  /** End of the block at a. */
  function End(mem: seq<Header>, a: nat): nat
    requires a < |mem|
  {
    a + mem[a].size
  }

  ghost predicate Within(mem: seq<Header>, ring: seq<nat>) {
    forall i: nat | i < |ring| :: ring[i] < |mem|
  }

  /** In address order. */
  ghost predicate Sorted(ring: seq<nat>) {
    forall i: nat, k: nat | i < k < |ring| :: ring[i] < ring[k]
  }

  /** A circular list through `ring`, which starts and ends at base. */
  ghost predicate Linked(mem: seq<Header>, ring: seq<nat>)
    requires Within(mem, ring)
  {
    && |ring| > 0 && ring[0] == 0 && mem[ring[|ring| - 1]].ptr == 0
    && (forall i: nat | i + 1 < |ring| :: mem[ring[i]].ptr == ring[i + 1])
  }

  /** Blocks are non-empty, but for base, and a gap follows each but possibly block j. */
  ghost predicate Spaced(mem: seq<Header>, ring: seq<nat>, j: int)
    requires Within(mem, ring)
  {
    && (forall i: nat | i < |ring| :: End(mem, ring[i]) <= |mem| && (mem[ring[i]].size == 0 <==> i == 0))
    && (forall i: nat | i + 1 < |ring| ::
      End(mem, ring[i]) <= ring[i + 1] && (End(mem, ring[i]) == ring[i + 1] ==> i == j))
  }

  ghost predicate List(mem: seq<Header>, ring: seq<nat>, j: int) {
    Within(mem, ring) && Sorted(ring) && Linked(mem, ring) && Spaced(mem, ring, j)
  }

  /** Unit c is in block i of the list. */
  ghost predicate InBlock(mem: seq<Header>, ring: seq<nat>, i: nat, c: nat) {
    0 < i < |ring| && ring[i] < |mem| && ring[i] <= c < End(mem, ring[i])
  }

  /** The free units are those of the blocks in the list. */
  ghost predicate FreeUnits(mem: seq<Header>, ring: seq<nat>, owner: seq<Owner>) {
    && |owner| == |mem| > 0 && owner[0] == Base
    && (forall i: nat, c: nat | c < |mem| && InBlock(mem, ring, i, c) :: owner[c] == Free)
    && (forall c: nat | c < |mem| && owner[c] == Free :: exists i: nat :: InBlock(mem, ring, i, c))
  }

  /** The live units are those of the live blocks, whose headers keep their sizes. */
  ghost predicate LiveUnits(mem: seq<Header>, live: map<nat, nat>, owner: seq<Owner>) {
    && |owner| == |mem|
    && (forall a | a in live :: 0 < a && 0 < live[a] && a + live[a] <= |mem| && mem[a].size == live[a])
    && (forall a, c: nat | a in live && a <= c < a + live[a] :: owner[c] == Live(a))
    && (forall c: nat | c < |mem| && owner[c].Live? ::
          owner[c].block in live && owner[c].block <= c < owner[c].block + live[owner[c].block])
  }

  ghost predicate Good(mem: seq<Header>, ring: seq<nat>, live: map<nat, nat>, owner: seq<Owner>) {
    List(mem, ring, -1) && FreeUnits(mem, ring, owner) && LiveUnits(mem, live, owner)
  }

  /** The units of [a, b) change hands. */
  ghost function Give(owner: seq<Owner>, a: nat, b: nat, to: Owner): (r: seq<Owner>)
    requires a <= b <= |owner|
    ensures |r| == |owner| && forall c: nat | c < |r| :: r[c] == if a <= c < b then to else owner[c]
  {
    seq(|owner|, (c: nat) requires c < |owner| => if a <= c < b then to else owner[c])
  }

  /** Nobody wrote into a live block, but for those in `except`. */
  ghost predicate DataKept(mem: seq<Header>, mem': seq<Header>, owner: seq<Owner>, except: set<nat>) {
    && |owner| == |mem| <= |mem'|
    && forall c: nat | c < |mem| && (owner[c].Foreign? || (owner[c].Live? && owner[c].block !in except)) ::
      mem'[c] == mem[c]
  }

  // ----- putting block b, of size n, into the list after ring[t] -----

  /** t is the last list element below b. */
  ghost predicate Spot(ring: seq<nat>, t: nat, b: nat) {
    t < |ring| && ring[t] < b && (t + 1 < |ring| ==> b < ring[t + 1])
  }

  /** A live block lies between two list elements. */
  lemma Between(mem: seq<Header>, ring: seq<nat>, live: map<nat, nat>, owner: seq<Owner>, t: nat, b: nat)
    requires Good(mem, ring, live, owner) && b in live && Spot(ring, t, b)
    ensures b < |mem| && mem[b].size == live[b] > 0 && End(mem, b) <= |mem|
    ensures ring[t] < |mem| && End(mem, ring[t]) <= b
    ensures t + 1 < |ring| ==> End(mem, b) <= ring[t + 1]
  {
    assert owner[b] == Live(b);
    assert !InBlock(mem, ring, t, b);
    assert t + 1 < |ring| && ring[t + 1] < End(mem, b) ==> owner[ring[t + 1]] == Live(b);
    assert t + 1 < |ring| ==> InBlock(mem, ring, t + 1, ring[t + 1]);
  }

  /** The list with b linked in after ring[t], swallowing ring[t + 1] if `join`. */
  ghost function Inserted(ring: seq<nat>, t: nat, b: nat, join: bool): (s: seq<nat>)
    requires t < |ring| && (join ==> t + 1 < |ring|)
    ensures |s| == |ring| + (if join then 0 else 1)
    ensures forall i: nat | i < |s| ::
      s[i] == if i <= t then ring[i] else if i == t + 1 then b else ring[if join then i else i - 1]
  {
    ring[..t + 1] + [b] + ring[if join then t + 2 else t + 1..]
  }

  /** The headers after b is put in behind p: joined with the block that follows if they touch. */
  function InsertMem(mem: seq<Header>, p: nat, b: nat): (r: seq<Header>)
    requires p < |mem| && b < |mem| && mem[p].ptr < |mem|
    ensures |r| == |mem|
  {
    var q := mem[p].ptr;
    var hb := if End(mem, b) == q then Header(mem[q].ptr, mem[b].size + mem[q].size) else Header(q, mem[b].size);
    mem[b := hb][p := mem[p].(ptr := b)]
  }

  /** What InsertMem does to the headers in the list, and to b's. */
  ghost predicate Relinked(mem: seq<Header>, u: seq<Header>, ring: seq<nat>, t: nat, b: nat, join: bool)
    requires t < |ring| && Within(mem, ring) && b < |mem| == |u|
  {
    && (join ==> t + 1 < |ring|)
    && (forall i: nat | i < |ring| && i != t :: u[ring[i]] == mem[ring[i]])
    && u[ring[t]] == mem[ring[t]].(ptr := b)
    && u[b] == (if join then Header(mem[ring[t + 1]].ptr, mem[b].size + mem[ring[t + 1]].size)
                else Header(mem[ring[t]].ptr, mem[b].size))
  }

  lemma InsertRelinks(mem: seq<Header>, ring: seq<nat>, t: nat, b: nat, join: bool)
    requires List(mem, ring, -1) && Spot(ring, t, b) && b < |mem| && mem[b].size > 0
    requires join <==> End(mem, b) == mem[ring[t]].ptr
    ensures mem[ring[t]].ptr < |mem| && Relinked(mem, InsertMem(mem, ring[t], b), ring, t, b, join)
    ensures mem[ring[t]].ptr == if t + 1 < |ring| then ring[t + 1] else 0
  {
    hide Spaced;
    assert mem[ring[t]].ptr == if t + 1 < |ring| then ring[t + 1] else 0;
    assert forall i: nat | i < |ring| && i != t :: ring[i] != ring[t] && ring[i] != b;
  }

  lemma InsertSorted(ring: seq<nat>, t: nat, b: nat, join: bool)
    requires Sorted(ring) && Spot(ring, t, b) && (join ==> t + 1 < |ring|)
    ensures Sorted(Inserted(ring, t, b, join))
  {
  }

  lemma InsertLinked(mem: seq<Header>, u: seq<Header>, ring: seq<nat>, t: nat, b: nat, join: bool)
    requires Within(mem, ring) && Linked(mem, ring) && t < |ring| && b < |mem| == |u|
    requires Relinked(mem, u, ring, t, b, join)
    ensures Within(u, Inserted(ring, t, b, join)) && Linked(u, Inserted(ring, t, b, join))
  {
    var s := Inserted(ring, t, b, join);
    assert Within(u, s);
    assert u[s[|s| - 1]].ptr == 0;
    forall i: nat | i + 1 < |s| ensures u[s[i]].ptr == s[i + 1] {
      InsertedLink(mem, u, ring, t, b, join, i);
    }
  }

  lemma InsertedLink(mem: seq<Header>, u: seq<Header>, ring: seq<nat>, t: nat, b: nat, join: bool, i: nat)
    requires Within(mem, ring) && Linked(mem, ring) && t < |ring| && b < |mem| == |u|
    requires Relinked(mem, u, ring, t, b, join) && i + 1 < |Inserted(ring, t, b, join)|
    ensures var s := Inserted(ring, t, b, join);
      s[i] < |u| && u[s[i]].ptr == s[i + 1]
  {
    var k := if i <= t || join then i else i - 1;
    assert k + 1 < |ring| ==> mem[ring[k]].ptr == ring[k + 1];
    assert t + 1 < |ring| ==> mem[ring[t]].ptr == ring[t + 1];
    assert i != t + 1 && i != t ==> u[ring[k]] == mem[ring[k]];
  }

  lemma InsertSpaced(mem: seq<Header>, u: seq<Header>, ring: seq<nat>, t: nat, b: nat, join: bool)
    requires Within(mem, ring) && Spaced(mem, ring, -1) && Spot(ring, t, b) && b < |mem| == |u|
    requires Relinked(mem, u, ring, t, b, join)
    requires mem[b].size > 0 && End(mem, b) <= |mem| && End(mem, ring[t]) <= b
    requires t + 1 < |ring| ==> End(mem, b) <= ring[t + 1] && (join <==> End(mem, b) == ring[t + 1])
    ensures Within(u, Inserted(ring, t, b, join)) && Spaced(u, Inserted(ring, t, b, join), t)
  {
    var s := Inserted(ring, t, b, join);
    assert Within(u, s);
    forall i: nat | i < |s| ensures End(u, s[i]) <= |u| && (u[s[i]].size == 0 <==> i == 0) {
      InsertedSize(mem, u, ring, t, b, join, i);
    }
    forall i: nat | i + 1 < |s| ensures End(u, s[i]) <= s[i + 1] && (End(u, s[i]) == s[i + 1] ==> i == t) {
      InsertedSize(mem, u, ring, t, b, join, i);
    }
  }

  /** Where block i of the new list ends. */
  lemma InsertedSize(mem: seq<Header>, u: seq<Header>, ring: seq<nat>, t: nat, b: nat, join: bool, i: nat)
    requires Within(mem, ring) && Spot(ring, t, b) && b < |mem| == |u| && Relinked(mem, u, ring, t, b, join)
    requires (join ==> End(mem, b) == ring[t + 1]) && i < |Inserted(ring, t, b, join)|
    ensures var s := Inserted(ring, t, b, join);
      && s[i] < |u|
      && (i <= t ==> End(u, s[i]) == End(mem, ring[i]) && u[s[i]].size == mem[ring[i]].size)
      && (i == t + 1 ==>
            End(u, s[i]) == (if join then End(mem, ring[t + 1]) else End(mem, b)) && u[s[i]].size >= mem[b].size)
      && (i > t + 1 ==> var k := if join then i else i - 1;
            End(u, s[i]) == End(mem, ring[k]) && u[s[i]].size == mem[ring[k]].size)
  {
  }

  lemma InsertKeepsList(mem: seq<Header>, ring: seq<nat>, t: nat, b: nat, join: bool)
    requires List(mem, ring, -1) && Spot(ring, t, b) && b < |mem| && mem[b].size > 0 && End(mem, b) <= |mem|
    requires End(mem, ring[t]) <= b && (t + 1 < |ring| ==> End(mem, b) <= ring[t + 1])
    requires join <==> End(mem, b) == mem[ring[t]].ptr
    ensures join ==> t + 1 < |ring|
    ensures mem[ring[t]].ptr < |mem| && List(InsertMem(mem, ring[t], b), Inserted(ring, t, b, join), t)
  {
    InsertRelinks(mem, ring, t, b, join);
    hide Sorted, Linked, Spaced, Relinked;
    var u := InsertMem(mem, ring[t], b);
    assert join ==> t + 1 < |ring|;
    InsertSorted(ring, t, b, join);
    InsertLinked(mem, u, ring, t, b, join);
    InsertSpaced(mem, u, ring, t, b, join);
  }

  lemma InsertBlocksFree(mem: seq<Header>, u: seq<Header>, ring: seq<nat>, owner: seq<Owner>, t: nat, b: nat,
                         join: bool, i: nat, c: nat)
    requires Within(mem, ring) && FreeUnits(mem, ring, owner) && Spot(ring, t, b) && b < |mem| == |u|
    requires Relinked(mem, u, ring, t, b, join)
    requires End(mem, b) <= |mem| && (join ==> End(mem, b) == ring[t + 1])
    requires c < |u| && InBlock(u, Inserted(ring, t, b, join), i, c)
    ensures Give(owner, b, End(mem, b), Free)[c] == Free
  {
    if i <= t {
      assert InBlock(mem, ring, i, c);
    } else if i > t + 1 {
      assert InBlock(mem, ring, if join then i else i - 1, c);
    } else if End(mem, b) <= c {
      assert InBlock(mem, ring, t + 1, c);
    }
  }

  ghost function BlockOf(mem: seq<Header>, ring: seq<nat>, owner: seq<Owner>, c: nat): (i: nat)
    requires FreeUnits(mem, ring, owner) && c < |mem| && owner[c] == Free
    ensures InBlock(mem, ring, i, c)
  {
    var i: nat :| InBlock(mem, ring, i, c);
    i
  }

  lemma InsertFreeInBlock(mem: seq<Header>, u: seq<Header>, ring: seq<nat>, owner: seq<Owner>, t: nat, b: nat,
                          join: bool, c: nat)
    requires Within(mem, ring) && FreeUnits(mem, ring, owner) && Spot(ring, t, b) && b < |mem| == |u|
    requires Relinked(mem, u, ring, t, b, join)
    requires End(mem, b) <= |mem| && (join ==> End(mem, b) == ring[t + 1])
    requires c < |u| && Give(owner, b, End(mem, b), Free)[c] == Free
    ensures exists i: nat :: InBlock(u, Inserted(ring, t, b, join), i, c)
  {
    var s := Inserted(ring, t, b, join);
    if b <= c < End(mem, b) {
      hide FreeUnits;
      assert InBlock(u, s, t + 1, c);
    } else {
      var i := BlockOf(mem, ring, owner, c);
      var k := if i <= t || join then i else i + 1;
      assert join ==> t + 1 < |ring|;
      hide FreeUnits, BlockOf, Give, Relinked;
      InsertedSize(mem, u, ring, t, b, join, k);
      assert InBlock(u, s, k, c);
    }
  }

  lemma InsertFreeUnits(mem: seq<Header>, u: seq<Header>, ring: seq<nat>, owner: seq<Owner>, t: nat, b: nat, join: bool)
    requires Within(mem, ring) && FreeUnits(mem, ring, owner) && Spot(ring, t, b) && b < |mem| == |u|
    requires Relinked(mem, u, ring, t, b, join)
    requires End(mem, b) <= |mem| && (join ==> End(mem, b) == ring[t + 1])
    ensures FreeUnits(u, Inserted(ring, t, b, join), Give(owner, b, End(mem, b), Free))
  {
    assert join ==> t + 1 < |ring|;
    hide Relinked, InBlock, Inserted;
    var s := Inserted(ring, t, b, join);
    var o := Give(owner, b, End(mem, b), Free);
    forall i: nat, c: nat | c < |u| && InBlock(u, s, i, c) ensures o[c] == Free {
      InsertBlocksFree(mem, u, ring, owner, t, b, join, i, c);
    }
    forall c: nat | c < |u| && o[c] == Free ensures exists i: nat :: InBlock(u, s, i, c) {
      InsertFreeInBlock(mem, u, ring, owner, t, b, join, c);
    }
  }

  lemma InsertLiveUnits(mem: seq<Header>, u: seq<Header>, live: map<nat, nat>, owner: seq<Owner>, p: nat, b: nat)
    requires LiveUnits(mem, live, owner) && b in live && p < |mem| && !owner[p].Live?
    requires |u| == |mem| && forall c: nat | c < |mem| && c != b && c != p :: u[c] == mem[c]
    ensures LiveUnits(u, live - {b}, Give(owner, b, End(mem, b), Free))
  {
    var o := Give(owner, b, End(mem, b), Free);
    assert forall a | a in live :: owner[a] == Live(a);
    forall c: nat | c < |u| && o[c].Live?
      ensures o[c].block in live - {b} && o[c].block <= c < o[c].block + live[o[c].block]
    {
      assert owner[c] == o[c];
    }
    forall a, c: nat | a in live - {b} && a <= c < a + live[a] ensures o[c] == Live(a) {
      assert owner[c] == Live(a);
    }
  }

  // ----- joining ring[t] with the block right after it -----

  function MergeMem(u: seq<Header>, p: nat, b: nat): (r: seq<Header>)
    requires p < |u| && b < |u|
    ensures |r| == |u|
  {
    u[p := Header(u[b].ptr, u[p].size + u[b].size)]
  }

  ghost function Dropped(ring: seq<nat>, t: nat): (s: seq<nat>)
    requires t < |ring|
    ensures |s| == |ring| - 1 && forall i: nat | i < |s| :: s[i] == ring[if i < t then i else i + 1]
  {
    ring[..t] + ring[t + 1..]
  }

  /** Unlinking s[k]: its predecessor takes over its pointer. */
  lemma DropLinked(u: seq<Header>, v: seq<Header>, s: seq<nat>, k: nat, j: int)
    requires List(u, s, j) && 0 < k < |s| && |v| == |u|
    requires forall i: nat | i < |s| && i != k - 1 && i != k :: v[s[i]].ptr == u[s[i]].ptr
    requires v[s[k - 1]].ptr == u[s[k]].ptr
    ensures Within(v, Dropped(s, k)) && Sorted(Dropped(s, k)) && Linked(v, Dropped(s, k))
  {
    hide Spaced;
    var r := Dropped(s, k);
    assert Within(v, r) && Sorted(r);
    assert u[s[k]].ptr == if k + 1 < |s| then s[k + 1] else 0;
    forall i: nat | i + 1 < |r| ensures v[r[i]].ptr == r[i + 1] {
      if i != k - 1 {
        var j := if i < k then i else i + 1;
        assert u[s[j]].ptr == s[j + 1];
      }
    }
  }

  lemma MergeSpaced(u: seq<Header>, v: seq<Header>, s: seq<nat>, t: nat)
    requires List(u, s, t) && t + 1 < |s| && End(u, s[t]) == s[t + 1] && |v| == |u|
    requires forall i: nat | i < |s| && i != t :: v[s[i]] == u[s[i]]
    requires v[s[t]].size == u[s[t]].size + u[s[t + 1]].size
    ensures Within(v, Dropped(s, t + 1)) && Spaced(v, Dropped(s, t + 1), -1)
  {
    hide Linked, Sorted;
    var r := Dropped(s, t + 1);
    assert Within(v, r);
    assert End(v, s[t]) == End(u, s[t + 1]);
    forall i: nat | i < |r| ensures End(v, r[i]) <= |v| && (v[r[i]].size == 0 <==> i == 0) {
    }
    forall i: nat | i + 1 < |r| ensures End(v, r[i]) < r[i + 1] {
      var j := if i <= t then i else i + 1;
      assert i != t ==> v[r[i]] == u[s[j]] && End(u, s[j]) < s[j + 1];
    }
  }

  lemma MergeKeepsList(u: seq<Header>, s: seq<nat>, t: nat)
    requires List(u, s, t) && t + 1 < |s| && End(u, s[t]) == s[t + 1]
    ensures List(MergeMem(u, s[t], s[t + 1]), Dropped(s, t + 1), -1)
  {
    hide List, MergeMem, Dropped;
    MergeHeaders(u, s, t);
    var v := MergeMem(u, s[t], s[t + 1]);
    DropLinked(u, v, s, t + 1, t);
    MergeSpaced(u, v, s, t);
    ListOf(v, Dropped(s, t + 1));
  }

  lemma MergeHeaders(u: seq<Header>, s: seq<nat>, t: nat)
    requires List(u, s, t) && t + 1 < |s|
    ensures Within(u, s)
    ensures var v := MergeMem(u, s[t], s[t + 1]);
      && v[s[t]] == Header(u[s[t + 1]].ptr, u[s[t]].size + u[s[t + 1]].size)
      && forall i: nat | i < |s| && i != t :: v[s[i]] == u[s[i]]
  {
    hide Linked, Spaced;
  }

  lemma ListOf(v: seq<Header>, r: seq<nat>)
    requires Within(v, r) && Sorted(r) && Linked(v, r) && Spaced(v, r, -1)
    ensures List(v, r, -1)
  {
  }

  lemma MergeFreeUnits(u: seq<Header>, s: seq<nat>, owner: seq<Owner>, t: nat)
    requires Within(u, s) && Sorted(s) && FreeUnits(u, s, owner) && 0 < t && t + 1 < |s| && End(u, s[t]) == s[t + 1]
    ensures FreeUnits(MergeMem(u, s[t], s[t + 1]), Dropped(s, t + 1), owner)
  {
    var v := MergeMem(u, s[t], s[t + 1]);
    var r := Dropped(s, t + 1);
    assert forall i: nat | i < |s| && i != t :: v[s[i]] == u[s[i]];
    assert End(v, s[t]) == End(u, s[t + 1]);
    hide Sorted, MergeMem;
    forall i: nat, c: nat | c < |v| && InBlock(v, r, i, c) ensures owner[c] == Free {
      var k := if i < t then i else if i > t then i + 1 else if c < s[t + 1] then t else t + 1;
      assert InBlock(u, s, k, c);
    }
    forall c: nat | c < |v| && owner[c] == Free ensures exists i: nat :: InBlock(v, r, i, c) {
      var k := BlockOf(u, s, owner, c);
      hide FreeUnits, BlockOf;
      assert InBlock(v, r, if k <= t then k else k - 1, c);
    }
  }

  // ----- taking a block, or the tail of one, out of the list -----

  lemma EndsBefore(mem: seq<Header>, ring: seq<nat>, j: int, i: nat, k: nat)
    requires List(mem, ring, j) && i < k < |ring|
    ensures End(mem, ring[i]) <= ring[k]
  {
    hide Linked;
    assert End(mem, ring[i]) <= ring[i + 1];
    assert i + 1 == k || ring[i + 1] < ring[k];
  }

  lemma OneBlock(mem: seq<Header>, ring: seq<nat>, i: nat, k: nat, c: nat)
    requires List(mem, ring, -1) && InBlock(mem, ring, i, c) && InBlock(mem, ring, k, c)
    ensures i == k
  {
    hide List;
    if i < k {
      EndsBefore(mem, ring, -1, i, k);
    } else if k < i {
      EndsBefore(mem, ring, -1, k, i);
    }
  }

  lemma RemoveFreeUnits(mem: seq<Header>, v: seq<Header>, ring: seq<nat>, owner: seq<Owner>, k: nat)
    requires List(mem, ring, -1) && FreeUnits(mem, ring, owner) && 0 < k < |ring| && |v| == |mem|
    requires Within(mem, ring) && forall i: nat | i < |ring| :: v[ring[i]].size == mem[ring[i]].size
    ensures End(mem, ring[k]) <= |mem|
    ensures FreeUnits(v, Dropped(ring, k), Give(owner, ring[k], End(mem, ring[k]), Live(ring[k])))
  {
    hide List;
    BlockFacts(mem, ring, owner, k);
    var r := Dropped(ring, k);
    var o := Give(owner, ring[k], End(mem, ring[k]), Live(ring[k]));
    forall i: nat, c: nat | c < |v| && InBlock(v, r, i, c) ensures o[c] == Free {
      RemovedBlock(mem, v, ring, owner, k, i, c);
    }
    forall c: nat | c < |v| && o[c] == Free ensures exists i: nat :: InBlock(v, r, i, c) {
      var j := BlockOf(mem, ring, owner, c);
      hide FreeUnits, BlockOf;
      assert InBlock(v, r, if j < k then j else j - 1, c);
    }
  }

  lemma RemovedBlock(mem: seq<Header>, v: seq<Header>, ring: seq<nat>, owner: seq<Owner>, k: nat, i: nat, c: nat)
    requires List(mem, ring, -1) && FreeUnits(mem, ring, owner) && 0 < k < |ring| && |v| == |mem|
    requires Within(mem, ring) && forall i: nat | i < |ring| :: v[ring[i]].size == mem[ring[i]].size
    requires c < |v| && InBlock(v, Dropped(ring, k), i, c)
    ensures owner[c] == Free && !(ring[k] <= c < End(mem, ring[k]))
  {
    hide List;
    var j := if i < k then i else i + 1;
    assert InBlock(mem, ring, j, c);
    if ring[k] <= c < End(mem, ring[k]) {
      OneBlock(mem, ring, j, k, c);
    }
  }

  lemma RemoveSpaced(mem: seq<Header>, v: seq<Header>, ring: seq<nat>, k: nat)
    requires List(mem, ring, -1) && 0 < k < |ring| && |v| == |mem|
    requires forall i: nat | i < |ring| :: v[ring[i]].size == mem[ring[i]].size
    ensures Within(v, Dropped(ring, k)) && Spaced(v, Dropped(ring, k), -1)
  {
    hide Linked;
    var r := Dropped(ring, k);
    forall i: nat | i + 1 < |r| ensures End(v, r[i]) < r[i + 1] {
      var j := if i < k then i else i + 1;
      assert End(mem, ring[j]) < ring[j + 1];
      assert j + 1 == k ==> ring[k] < ring[k + 1];
    }
  }

  lemma AllocLiveUnits(mem: seq<Header>, v: seq<Header>, live: map<nat, nat>, owner: seq<Owner>, a: nat, n: nat)
    requires LiveUnits(mem, live, owner) && 0 < a && 0 < n && a + n <= |mem| == |v| && v[a].size == n
    requires forall c: nat | a <= c < a + n :: owner[c] == Free
    requires forall c: nat | c < |mem| && owner[c].Live? :: v[c] == mem[c]
    ensures a !in live && LiveUnits(v, live[a := n], Give(owner, a, a + n, Live(a)))
  {
    assert forall b | b in live :: owner[b] == Live(b);
    assert owner[a] == Free;
    var o := Give(owner, a, a + n, Live(a));
    forall b, c: nat | b in live && b <= c < b + live[b] ensures o[c] == Live(b) {
      assert owner[c] == Live(b);
    }
  }

  lemma BlockFacts(mem: seq<Header>, ring: seq<nat>, owner: seq<Owner>, k: nat)
    requires List(mem, ring, -1) && FreeUnits(mem, ring, owner) && 0 < k < |ring|
    ensures 0 < ring[k] < |mem| && mem[ring[k]].size > 0 && End(mem, ring[k]) <= |mem| && ring[k - 1] < ring[k]
    ensures forall c: nat | ring[k] <= c < End(mem, ring[k]) :: owner[c] == Free
    ensures |owner| == |mem| && !owner[ring[k - 1]].Live?
  {
    hide Linked;
    ListOwners(mem, ring, owner);
    assert ring[0] == 0 && ring[0] < ring[k] && ring[k - 1] < ring[k] by { ListStart(mem, ring, -1); }
    forall c: nat | ring[k] <= c < End(mem, ring[k]) ensures owner[c] == Free {
      assert InBlock(mem, ring, k, c);
    }
  }

  lemma ListStart(mem: seq<Header>, ring: seq<nat>, j: int)
    requires List(mem, ring, j)
    ensures |ring| > 0 && ring[0] == 0
  {
  }

  /** Block k leaves the list as a live block. */
  lemma TakeWhole(mem: seq<Header>, v: seq<Header>, ring: seq<nat>, live: map<nat, nat>, owner: seq<Owner>, k: nat)
    requires Good(mem, ring, live, owner) && 0 < k < |ring| && ring[k - 1] < |mem| && ring[k] < |mem|
    requires v == mem[ring[k - 1] := mem[ring[k - 1]].(ptr := mem[ring[k]].ptr)]
    ensures End(mem, ring[k]) <= |mem| && ring[k] !in live
    ensures Good(v, Dropped(ring, k), live[ring[k] := mem[ring[k]].size],
            Give(owner, ring[k], End(mem, ring[k]), Live(ring[k])))
  {
    hide List, FreeUnits, LiveUnits;
    BlockFacts(mem, ring, owner, k);
    TakeLinks(mem, v, ring, k);
    RemoveFreeUnits(mem, v, ring, owner, k);
    AllocLiveUnits(mem, v, live, owner, ring[k], mem[ring[k]].size);
  }

  lemma TakeLinks(mem: seq<Header>, v: seq<Header>, ring: seq<nat>, k: nat)
    requires List(mem, ring, -1) && 0 < k < |ring| && ring[k - 1] < |mem| && ring[k] < |mem|
    requires v == mem[ring[k - 1] := mem[ring[k - 1]].(ptr := mem[ring[k]].ptr)]
    ensures List(v, Dropped(ring, k), -1) && forall i: nat | i < |ring| ::
            ring[i] < |mem| && v[ring[i]].size == mem[ring[i]].size
  {
    assert forall i: nat | i < |ring| && i != k - 1 :: v[ring[i]] == mem[ring[i]];
    hide Linked, Spaced;
    DropLinked(mem, v, ring, k, -1);
    RemoveSpaced(mem, v, ring, k);
  }

  /** Units in the list belong to it. */
  lemma ListOwners(mem: seq<Header>, ring: seq<nat>, owner: seq<Owner>)
    requires List(mem, ring, -1) && FreeUnits(mem, ring, owner)
    ensures forall i: nat | i < |ring| :: ring[i] < |mem| && owner[ring[i]] == if i == 0 then Base else Free
  {
    hide Sorted;
    forall i: nat | 0 < i < |ring| ensures owner[ring[i]] == Free {
      assert InBlock(mem, ring, i, ring[i]);
    }
  }

  /** The list is coalesced: a free unit next to a free unit is in the same block. */
  lemma Coalesced(mem: seq<Header>, ring: seq<nat>, owner: seq<Owner>, i: nat, c: nat)
    requires List(mem, ring, -1) && FreeUnits(mem, ring, owner) && c + 1 < |mem|
    requires InBlock(mem, ring, i, c) && owner[c + 1] == Free
    ensures InBlock(mem, ring, i, c + 1)
  {
    var k: nat :| InBlock(mem, ring, k, c + 1);
    assert i + 1 < |ring| ==> End(mem, ring[i]) < ring[i + 1];
    hide List;
    if k < i {
      EndsBefore(mem, ring, -1, k, i);
    }
  }

  lemma NotInside(mem: seq<Header>, ring: seq<nat>, k: nat, a: nat, i: nat)
    requires List(mem, ring, -1) && InBlock(mem, ring, k, a) && a != ring[k] && i < |ring|
    ensures ring[i] != a
  {
    if i > 0 && ring[i] == a {
      assert InBlock(mem, ring, i, a);
      OneBlock(mem, ring, i, k, a);
    }
  }

  /** The last n units of block k become a live block. */
  lemma TakeTail(mem: seq<Header>, v: seq<Header>, ring: seq<nat>, live: map<nat, nat>, owner: seq<Owner>, k: nat,
                 a: nat, n: nat)
    requires Good(mem, ring, live, owner) && 0 < k < |ring| && ring[k] < |mem| && 0 < n < mem[ring[k]].size
    requires a == End(mem, ring[k]) - n && a < |mem|
    requires v == mem[ring[k] := mem[ring[k]].(size := mem[ring[k]].size - n)][a := mem[a].(size := n)]
    ensures a + n <= |mem| && a !in live
    ensures Good(v, ring, live[a := n], Give(owner, a, a + n, Live(a)))
  {
    hide List, FreeUnits, LiveUnits;
    BlockFacts(mem, ring, owner, k);
    TailLinks(mem, v, ring, k, a, n);
    TailFreeUnits(mem, v, ring, owner, k, a, n);
    AllocLiveUnits(mem, v, live, owner, a, n);
  }

  ghost predicate Shrunk(mem: seq<Header>, v: seq<Header>, ring: seq<nat>, k: nat, n: nat)
    requires k < |ring| && Within(mem, ring)
  {
    && |v| == |mem| && 0 < n < mem[ring[k]].size
    && (forall i: nat | i < |ring| && i != k :: v[ring[i]] == mem[ring[i]])
    && v[ring[k]] == mem[ring[k]].(size := mem[ring[k]].size - n)
  }

  lemma TailLinks(mem: seq<Header>, v: seq<Header>, ring: seq<nat>, k: nat, a: nat, n: nat)
    requires List(mem, ring, -1) && 0 < k < |ring| && 0 < n < mem[ring[k]].size
    requires a == End(mem, ring[k]) - n && a < |mem|
    requires v == mem[ring[k] := mem[ring[k]].(size := mem[ring[k]].size - n)][a := mem[a].(size := n)]
    ensures Within(mem, ring) && Shrunk(mem, v, ring, k, n) && List(v, ring, -1)
  {
    assert InBlock(mem, ring, k, a);
    forall i: nat | i < |ring| && i != k ensures v[ring[i]] == mem[ring[i]] {
      NotInside(mem, ring, k, a, i);
    }
    assert v[ring[k]].size == mem[ring[k]].size - n && v[ring[k]].ptr == mem[ring[k]].ptr;
    assert Linked(v, ring);
    assert Spaced(v, ring, -1);
  }

  lemma TailFreeUnits(mem: seq<Header>, v: seq<Header>, ring: seq<nat>, owner: seq<Owner>, k: nat, a: nat, n: nat)
    requires List(mem, ring, -1) && FreeUnits(mem, ring, owner) && 0 < k < |ring| && Within(mem, ring)
    requires Shrunk(mem, v, ring, k, n) && a == End(mem, ring[k]) - n && a + n <= |mem|
    ensures FreeUnits(v, ring, Give(owner, a, a + n, Live(a)))
  {
    hide List;
    var o := Give(owner, a, a + n, Live(a));
    assert End(v, ring[k]) == a && a > 0;
    forall i: nat, c: nat | c < |v| && InBlock(v, ring, i, c) ensures o[c] == Free {
      assert InBlock(mem, ring, i, c);
      if a <= c < a + n {
        OneBlock(mem, ring, i, k, c);
      }
    }
    forall c: nat | c < |v| && o[c] == Free ensures exists i: nat :: InBlock(v, ring, i, c) {
      var i: nat :| InBlock(mem, ring, i, c);
      assert InBlock(v, ring, i, c);
    }
  }

  // ----- free as a whole -----

  /** Freeing live block b, whose place is after ring[t]. */
  lemma FreeKeeps(mem: seq<Header>, ring: seq<nat>, live: map<nat, nat>, owner: seq<Owner>, t: nat, b: nat, join: bool)
    requires Good(mem, ring, live, owner) && b in live && Spot(ring, t, b) && b < |mem| && ring[t] < |mem|
    requires mem[ring[t]].ptr < |mem| && (join <==> End(mem, b) == mem[ring[t]].ptr)
    ensures End(mem, b) <= |mem| == |owner| && (join ==> t + 1 < |ring|)
    ensures var u, s := InsertMem(mem, ring[t], b), Inserted(ring, t, b, join);
      var o := Give(owner, b, End(mem, b), Free);
      && List(u, s, t) && FreeUnits(u, s, o) && LiveUnits(u, live - {b}, o) && DataKept(mem, u, owner, {b})
  {
    hide List, FreeUnits, LiveUnits, Inserted;
    Between(mem, ring, live, owner, t, b);
    TakesListUnit(mem, ring, owner, t);
    InsertKeepsList(mem, ring, t, b, join);
    InsertUnits(mem, ring, owner, t, b, join);
    InsertLiveUnits(mem, InsertMem(mem, ring[t], b), live, owner, ring[t], b);
    LiveHead(mem, live, owner, b);
  }

  lemma TakesListUnit(mem: seq<Header>, ring: seq<nat>, owner: seq<Owner>, t: nat)
    requires List(mem, ring, -1) && FreeUnits(mem, ring, owner) && t < |ring|
    ensures |owner| == |mem| && ring[t] < |mem| && (owner[ring[t]] == Base || owner[ring[t]] == Free)
  {
    hide List;
    ListOwners(mem, ring, owner);
  }

  lemma LiveHead(mem: seq<Header>, live: map<nat, nat>, owner: seq<Owner>, b: nat)
    requires LiveUnits(mem, live, owner) && b in live
    ensures |owner| == |mem| && b < |mem| && owner[b] == Live(b)
  {
  }

  lemma InsertUnits(mem: seq<Header>, ring: seq<nat>, owner: seq<Owner>, t: nat, b: nat, join: bool)
    requires List(mem, ring, -1) && FreeUnits(mem, ring, owner) && Spot(ring, t, b) && b < |mem| && mem[b].size > 0
    requires End(mem, b) <= |mem| && (join <==> End(mem, b) == mem[ring[t]].ptr) && mem[ring[t]].ptr < |mem|
    ensures |owner| == |mem| && (join ==> t + 1 < |ring|)
    ensures FreeUnits(InsertMem(mem, ring[t], b), Inserted(ring, t, b, join), Give(owner, b, End(mem, b), Free))
  {
    InsertRelinks(mem, ring, t, b, join);
    hide InsertMem, Relinked, Linked, Spaced, Sorted, Inserted;
    assert |owner| == |mem|;
    assert join ==> t + 1 < |ring| by { RelinkedJoin(mem, InsertMem(mem, ring[t], b), ring, t, b, join); }
    InsertFreeUnits(mem, InsertMem(mem, ring[t], b), ring, owner, t, b, join);
  }

  lemma RelinkedJoin(mem: seq<Header>, u: seq<Header>, ring: seq<nat>, t: nat, b: nat, join: bool)
    requires t < |ring| && Within(mem, ring) && b < |mem| == |u| && Relinked(mem, u, ring, t, b, join)
    ensures join ==> t + 1 < |ring|
  {
  }

  /** The second half of free: ring[t] takes in b if they touch. */
  lemma MergeKeeps(mem: seq<Header>, u: seq<Header>, s: seq<nat>, live: map<nat, nat>, owner: seq<Owner>, o: seq<Owner>,
                   t: nat, b: nat)
    requires List(u, s, t) && FreeUnits(u, s, o) && LiveUnits(u, live, o) && t + 1 < |s| && s[t] < |u| && s[t + 1] == b
    requires End(u, s[t]) == b && b < |u| && DataKept(mem, u, owner, {b}) && s[t] < |owner|
             && (owner[s[t]] == Base || owner[s[t]] == Free)
    ensures Good(MergeMem(u, s[t], b), Dropped(s, t + 1), live, o)
    ensures DataKept(mem, MergeMem(u, s[t], b), owner, {b})
  {
    hide List, FreeUnits, LiveUnits, Dropped;
    MergedOwner(u, s, o, t);
    MergeKeepsList(u, s, t);
    MergeFreeUnits(u, s, o, t);
    OutsideLive(u, MergeMem(u, s[t], b), live, o, s[t]);
  }

  /** Writing outside the live blocks. */
  lemma OutsideLive(u: seq<Header>, v: seq<Header>, live: map<nat, nat>, owner: seq<Owner>, p: nat)
    requires LiveUnits(u, live, owner) && p < |u| == |v| && !owner[p].Live?
    requires forall c: nat | c < |u| && c != p :: v[c] == u[c]
    ensures LiveUnits(v, live, owner)
  {
    assert forall a | a in live :: owner[a] == Live(a);
  }

  lemma MergedOwner(u: seq<Header>, s: seq<nat>, o: seq<Owner>, t: nat)
    requires List(u, s, t) && FreeUnits(u, s, o) && t + 1 < |s| && End(u, s[t]) == s[t + 1]
    ensures 0 < t && o[s[t]] == Free && Within(u, s) && Sorted(s)
  {
    assert s[t] < s[t + 1];
    assert InBlock(u, s, t, s[t]);
  }

  lemma ListTight(u: seq<Header>, s: seq<nat>, t: nat)
    requires List(u, s, t) && t + 1 < |s| && s[t] < |u| && End(u, s[t]) != s[t + 1]
    ensures List(u, s, -1)
  {
    hide Linked, Sorted;
  }

  // ----- growing the heap -----

  ghost function Grown(owner: seq<Owner>, gap: nat, n: nat, to: Owner): (r: seq<Owner>)
    ensures |r| == |owner| + gap + n
    ensures forall c: nat | c < |r| ::
            r[c] == if c < |owner| then owner[c] else if c < |owner| + gap then Foreign else to
  {
    owner + seq(gap, _ => Foreign) + seq(n, _ => to)
  }

  /** More memory from sbrk, handed over as one live block at its top end. */
  lemma GrowKeeps(mem: seq<Header>, v: seq<Header>, ring: seq<nat>, live: map<nat, nat>, owner: seq<Owner>, gap: nat,
                  n: nat)
    requires Good(mem, ring, live, owner) && n > 0 && |v| == |mem| + gap + n
    requires v[..|mem|] == mem && v[|mem| + gap].size == n
    ensures Good(v, ring, live[|mem| + gap := n], Grown(owner, gap, n, Live(|mem| + gap)))
    ensures |mem| + gap !in live && DataKept(mem, v, owner, {})
  {
    GrowList(mem, v, ring);
    hide List;
    var h := |mem| + gap;
    var o := Grown(owner, gap, n, Live(h));
    assert forall c: nat | c < |mem| :: v[c] == mem[c];
    GrowFreeUnits(mem, v, ring, owner, gap, n);
    assert LiveUnits(v, live[h := n], o) by { hide FreeUnits; }
  }

  lemma GrowList(mem: seq<Header>, v: seq<Header>, ring: seq<nat>)
    requires List(mem, ring, -1) && |v| >= |mem| && v[..|mem|] == mem
    ensures List(v, ring, -1) && Within(mem, ring)
  {
    assert forall c: nat | c < |mem| :: v[c] == mem[c];
    assert Linked(v, ring);
  }

  lemma GrowFreeUnits(mem: seq<Header>, v: seq<Header>, ring: seq<nat>, owner: seq<Owner>, gap: nat, n: nat)
    requires Within(mem, ring) && List(mem, ring, -1) && FreeUnits(mem, ring, owner)
    requires |v| == |mem| + gap + n && forall c: nat | c < |mem| :: v[c] == mem[c]
    ensures FreeUnits(v, ring, Grown(owner, gap, n, Live(|mem| + gap)))
  {
    assert forall i: nat | i < |ring| :: End(mem, ring[i]) <= |mem|;
    hide List;
    var o := Grown(owner, gap, n, Live(|mem| + gap));
    forall i: nat, c: nat | c < |v| && InBlock(v, ring, i, c) ensures o[c] == Free {
      assert InBlock(mem, ring, i, c);
    }
    forall c: nat | c < |v| && o[c] == Free ensures exists i: nat :: InBlock(v, ring, i, c) {
      var i: nat :| InBlock(mem, ring, i, c);
      assert InBlock(v, ring, i, c);
    }
  }

  // ----- counting units -----

  /** The units that came from sbrk for this allocator. */
  ghost function Ours(owner: seq<Owner>): set<nat> {
    set c: nat | c < |owner| && (owner[c].Free? || owner[c].Live?)
  }

  lemma GiveOurs(owner: seq<Owner>, a: nat, b: nat, to: Owner)
    requires a <= b <= |owner| && (to.Free? || to.Live?) && forall c: nat | a <= c < b :: c in Ours(owner)
    ensures Ours(Give(owner, a, b, to)) == Ours(owner)
  {
  }

  lemma GrownOurs(owner: seq<Owner>, gap: nat, n: nat, to: Owner)
    requires to.Free? || to.Live?
    ensures |Ours(Grown(owner, gap, n, to))| == |Ours(owner)| + n
  {
    var more := Interval(|owner| + gap, |owner| + gap + n);
    hide Interval, Grown;
    assert Ours(Grown(owner, gap, n, to)) == Ours(owner) + more;
  }

  /** The sizes of the first k blocks of the list. */
  ghost function ListTotal(mem: seq<Header>, ring: seq<nat>, k: nat): nat
    requires k <= |ring| && Within(mem, ring)
  {
    if k == 0 then 0 else ListTotal(mem, ring, k - 1) + mem[ring[k - 1]].size
  }

  ghost predicate InFirst(mem: seq<Header>, ring: seq<nat>, k: nat, c: nat) {
    exists i: nat :: i < k && InBlock(mem, ring, i, c)
  }

  ghost function FirstUnits(mem: seq<Header>, ring: seq<nat>, k: nat): set<nat> {
    set c: nat | c < |mem| && InFirst(mem, ring, k, c)
  }

  lemma {:induction false} ListCount(mem: seq<Header>, ring: seq<nat>, k: nat)
    requires List(mem, ring, -1) && k <= |ring| && Within(mem, ring)
    ensures |FirstUnits(mem, ring, k)| == ListTotal(mem, ring, k)
  {
    if k == 0 {
      assert FirstUnits(mem, ring, k) == {};
    } else {
      ListCount(mem, ring, k - 1);
      LastUnits(mem, ring, k - 1);
    }
  }

  lemma LastUnits(mem: seq<Header>, ring: seq<nat>, k: nat)
    requires List(mem, ring, -1) && k < |ring| && Within(mem, ring)
    ensures |FirstUnits(mem, ring, k + 1)| == |FirstUnits(mem, ring, k)| + mem[ring[k]].size
  {
    hide List;
    BlockSize(mem, ring, k);
    var block := Interval(ring[k], End(mem, ring[k]));
    hide Interval;
    forall c: nat | c < |mem| ensures InFirst(mem, ring, k + 1, c) <==> InFirst(mem, ring, k, c) || c in block {
      InNext(mem, ring, k, c);
    }
    forall c: nat | c in block ensures !InFirst(mem, ring, k, c) {
      NotBefore(mem, ring, k, c);
    }
    hide InFirst;
    assert FirstUnits(mem, ring, k + 1) == FirstUnits(mem, ring, k) + block;
  }

  lemma BlockSize(mem: seq<Header>, ring: seq<nat>, k: nat)
    requires List(mem, ring, -1) && k < |ring| && Within(mem, ring)
    ensures End(mem, ring[k]) <= |mem| && (mem[ring[k]].size == 0 <==> k == 0)
  {
  }

  lemma NotBefore(mem: seq<Header>, ring: seq<nat>, k: nat, c: nat)
    requires List(mem, ring, -1) && k < |ring| && Within(mem, ring) && ring[k] <= c < End(mem, ring[k])
    ensures !InFirst(mem, ring, k, c)
  {
    hide List;
    BlockSize(mem, ring, k);
    assert InBlock(mem, ring, k, c);
    if InFirst(mem, ring, k, c) {
      var i: nat :| i < k && InBlock(mem, ring, i, c);
      OneBlock(mem, ring, i, k, c);
    }
  }

  lemma InNext(mem: seq<Header>, ring: seq<nat>, k: nat, c: nat)
    requires k < |ring| && ring[k] < |mem| && (k == 0 ==> mem[ring[k]].size == 0)
    ensures InFirst(mem, ring, k + 1, c) <==> InFirst(mem, ring, k, c) || ring[k] <= c < End(mem, ring[k])
  {
    if InFirst(mem, ring, k, c) {
      var i: nat :| i < k && InBlock(mem, ring, i, c);
      assert i < k + 1;
    }
    if ring[k] <= c < End(mem, ring[k]) {
      assert InBlock(mem, ring, k, c);
    }
  }

  ghost function LiveTotal(live: map<nat, nat>): nat {
    if live == map[] then 0 else var a :| a in live; live[a] + LiveTotal(live - {a})
  }

  ghost predicate InLive(live: map<nat, nat>, c: nat) {
    exists a :: a in live && a <= c < a + live[a]
  }

  ghost function UnitsOf(live: map<nat, nat>, n: nat): set<nat> {
    set c: nat | c < n && InLive(live, c)
  }

  /** Every unit of every block is the block's. */
  ghost predicate Labelled(live: map<nat, nat>, owner: seq<Owner>) {
    && (forall a | a in live :: a + live[a] <= |owner|)
    && (forall a, c: nat | a in live && a <= c < a + live[a] :: owner[c] == Live(a))
  }

  lemma {:induction false} LiveCount(live: map<nat, nat>, owner: seq<Owner>)
    requires Labelled(live, owner)
    ensures |UnitsOf(live, |owner|)| == LiveTotal(live)
    decreases |live|
  {
    if live == map[] {
      assert UnitsOf(live, |owner|) == {};
    } else {
      var a :| a in live && LiveTotal(live) == live[a] + LiveTotal(live - {a});
      hide UnitsOf, LiveTotal;
      assert (live - {a}).Keys == live.Keys - {a};
      LiveCount(live - {a}, owner);
      OneMoreLive(live, owner, a);
    }
  }

  lemma OneMoreLive(live: map<nat, nat>, owner: seq<Owner>, a: nat)
    requires Labelled(live, owner) && a in live
    ensures |UnitsOf(live, |owner|)| == |UnitsOf(live - {a}, |owner|)| + live[a]
  {
    var block := Interval(a, a + live[a]);
    hide Interval, InLive;
    forall c: nat | c < |owner|
      ensures InLive(live, c) <==> InLive(live - {a}, c) || a <= c < a + live[a]
      ensures !(InLive(live - {a}, c) && a <= c < a + live[a])
    {
      LiveOrNot(live, owner, a, c);
    }
    assert forall c | c in block :: c < |owner|;
    assert UnitsOf(live, |owner|) == UnitsOf(live - {a}, |owner|) + block;
  }

  lemma LiveOrNot(live: map<nat, nat>, owner: seq<Owner>, a: nat, c: nat)
    requires Labelled(live, owner) && a in live && c < |owner|
    ensures InLive(live, c) <==> InLive(live - {a}, c) || a <= c < a + live[a]
    ensures !(InLive(live - {a}, c) && a <= c < a + live[a])
  {
    var rest := live - {a};
    if InLive(live, c) && !(a <= c < a + live[a]) {
      var b :| b in live && b <= c < b + live[b];
      assert b in rest && rest[b] == live[b];
    }
    if InLive(rest, c) {
      var b :| b in rest && b <= c < b + rest[b];
      assert b in live && rest[b] == live[b] && owner[c] == Live(b);
    }
  }

  /** Conservation: the units from sbrk are those of the blocks in the list and of the live blocks. */
  lemma UnitsConserved(mem: seq<Header>, ring: seq<nat>, live: map<nat, nat>, owner: seq<Owner>)
    requires Good(mem, ring, live, owner) && Within(mem, ring)
    ensures |Ours(owner)| == ListTotal(mem, ring, |ring|) + LiveTotal(live)
  {
    hide List, FreeUnits, LiveUnits, ListTotal, LiveTotal, InFirst, InLive, Within;
    ListCount(mem, ring, |ring|);
    BlocksLabelled(mem, live, owner);
    LiveCount(live, owner);
    forall c: nat | c < |owner|
      ensures InFirst(mem, ring, |ring|, c) <==> owner[c].Free?
      ensures InLive(live, c) <==> owner[c].Live?
    {
      OwnersOf(mem, ring, live, owner, c);
    }
    assert Ours(owner) == FirstUnits(mem, ring, |ring|) + UnitsOf(live, |owner|);
    assert FirstUnits(mem, ring, |ring|) !! UnitsOf(live, |owner|);
  }

  lemma BlocksLabelled(mem: seq<Header>, live: map<nat, nat>, owner: seq<Owner>)
    requires LiveUnits(mem, live, owner)
    ensures Labelled(live, owner) && |owner| == |mem|
  {
  }

  lemma OwnersOf(mem: seq<Header>, ring: seq<nat>, live: map<nat, nat>, owner: seq<Owner>, c: nat)
    requires Good(mem, ring, live, owner) && c < |owner|
    ensures |owner| == |mem|
    ensures InFirst(mem, ring, |ring|, c) <==> owner[c].Free?
    ensures InLive(live, c) <==> owner[c].Live?
  {
    hide List;
    if owner[c].Free? {
      var i := BlockOf(mem, ring, owner, c);
      assert i < |ring| && InBlock(mem, ring, i, c);
    }
  }

  // ----- the allocator -----

  /** What sbrk answers: no, or `memory` for a process of sz bytes, on top of a gap that went to
      others. */
  datatype Grant = Refused | Granted(sz: nat, gap: seq<Header>, memory: seq<Header>)

  /** The memory is what the process can use of the units it asked for. */
  predicate Answers(sbrk: Grant, n: nat) {
    sbrk.Granted? ==> |sbrk.memory| == Usable(sbrk.sz, n)
  }

  /** Unbacked: morecore would put a block into the list that reaches past the process's memory.
      Nothing is promised of the heap from there on, and the model stops. */
  datatype Core = NoCore | MoreCore | UnbackedCore

  datatype Got = Null | At(p: nat) | Unbacked

  /** Block i is on the way round the list from block f, exclusive, to block k, exclusive. */
  predicate Passed(f: nat, k: nat, i: nat) {
    if f < k then f < i < k else f < i || i < k
  }

  /** Before the first malloc(): nothing handed out, base not set up. */
  ghost predicate Untouched(mem: seq<Header>, live: map<nat, nat>, owner: seq<Owner>) {
    live == map[] && |owner| == |mem| > 0 && owner[0] == Base && forall c: nat | 0 < c < |mem| :: owner[c] == Foreign
  }

  class Heap {
    var mem: seq<Header>
    var freep: Option<nat>
    ghost var ring: seq<nat>
    ghost var live: map<nat, nat>
    ghost var owner: seq<Owner>

    ghost predicate Valid()
      reads this
    {
      if freep.None? then Untouched(mem, live, owner)
      else Good(mem, ring, live, owner) && freep.value in ring
    }

    /** The loop of free(): the place of bp in the circular list, from wherever freep is. */
    method FindSpot(bp: nat) returns (p: nat, ghost t: nat)
      requires Valid() && freep.Some? && 0 < bp && bp !in ring
      ensures t < |ring| && ring[t] == p && Spot(ring, t, bp)
      ensures p in ring && p < bp && forall a | a in ring && a < bp :: a <= p
    {
      hide List, FreeUnits, LiveUnits;
      Lookup(mem, ring);
      ghost var i: nat := IndexOf(ring, freep.value);
      t := SpotOf(ring, bp);
      hide Good, IndexOf, SpotOf;
      p := freep.value;
      while !(bp > p && bp < mem[p].ptr)
        invariant i < |ring| && p == ring[i] && p < |mem|
        decreases if i <= t then t - i else |ring| - i + t
      {
        Successor(mem, ring, live, owner, i);
        if p >= mem[p].ptr && (bp > p || bp < mem[p].ptr) {
          break;
        }
        p := mem[p].ptr;
        i := if i + 1 < |ring| then i + 1 else 0;
      }
      Successor(mem, ring, live, owner, i);
      t := i;
      LastBelow(ring, t, bp);
    }

    /** free: the block's units go back to the list, joined with the free blocks they touch. */
    method Free(ap: nat)
      requires Valid() && ap > 0 && ap - 1 in live
      modifies this
      ensures Valid() && freep.Some? && |mem| == |old(mem)|
      ensures live == old(live) - {ap - 1}
      ensures ap - 1 + old(live)[ap - 1] <= |old(owner)|
      ensures owner == Give(old(owner), ap - 1, ap - 1 + old(live)[ap - 1], Owner.Free)
      ensures DataKept(old(mem), mem, old(owner), {ap - 1})
      ensures Ours(owner) == Ours(old(owner))
    {
      hide Good, Spot, Ours, DataKept, InsertMem, MergeMem, Inserted;
      var bp := ap - 1;
      NotListed(mem, ring, live, owner, bp);
      var p, t := FindSpot(bp);
      Successor(mem, ring, live, owner, t);
      var next := mem[p].ptr;
      ghost var m, r, l, o := mem, ring, live, owner;
      ghost var join := End(mem, bp) == next;
      if bp + mem[bp].size == next {
        mem := mem[bp := Header(mem[next].ptr, mem[bp].size + mem[next].size)];
      } else {
        mem := mem[bp := mem[bp].(ptr := next)];
      }
      ghost var m' := mem;
      if p + mem[p].size == bp {
        mem := mem[p := Header(mem[bp].ptr, mem[p].size + mem[bp].size)];
      } else {
        mem := mem[p := mem[p].(ptr := bp)];
      }
      freep := Some(p);
      FreedMem(m, m', mem, p, bp);
      ring := FreedRing(m, r, l, o, t, bp, join);
      FreedGood(m, mem, r, l, o, t, bp, join);
      live := live - {bp};
      owner := Give(owner, bp, bp + l[bp], Owner.Free);
      FreedOurs(m, r, l, o, bp);
    }

    /** morecore: at least 4096 units from sbrk, put into the list by free(). */
    method Morecore(nu: nat, sbrk: Grant) returns (r: Core)
      requires Valid() && freep.Some? && nu > 0 && Answers(sbrk, Asked(nu))
      modifies this
      ensures Valid() && freep.Some? && live == old(live)
      ensures r == NoCore <==> sbrk.Refused?
      ensures r == MoreCore <==> sbrk.Granted? && Backed(sbrk.sz, Asked(nu))
      ensures sbrk.Granted? ==> (r == UnbackedCore <==> |sbrk.memory| < Asked(nu))
      ensures r != MoreCore ==> mem == old(mem) && ring == old(ring) && owner == old(owner)
      ensures r == MoreCore ==>
                && |sbrk.memory| == Asked(nu) && owner == Grown(old(owner), |sbrk.gap|, |sbrk.memory|, Owner.Free)
                && exists i: nat :: HasRoom(mem, ring, i, nu)
      ensures DataKept(old(mem), mem, old(owner), {})
    {
      hide Good, DataKept, Grown, Ours, SbrkArg, Usable;
      var n := if nu < 4096 then 4096 else nu;
      NothingWritten(mem, ring, live, owner);
      if sbrk.Refused? {
        return NoCore;
      }
      BackedIff(sbrk.sz, n);
      if !Backed(sbrk.sz, n) {
        return UnbackedCore;
      }
      var hp := |mem| + |sbrk.gap|;
      ghost var m, g, o, l := mem, ring, owner, live;
      mem := mem + sbrk.gap + sbrk.memory[0 := sbrk.memory[0].(size := n)];
      GrowKeeps(m, mem, ring, live, owner, |sbrk.gap|, n);
      live := live[hp := n];
      owner := Grown(owner, |sbrk.gap|, n, Live(hp));
      ghost var m', o' := mem, owner;
      Free(hp + 1);
      GrownFreed(m, m', mem, g, l, o, |sbrk.gap|, n);
      Roomy(mem, ring, live, owner, hp, nu);
      r := MoreCore;
    }

    /** One way round the list from freep, up to the first block that fits. */
    method Search(n: nat) returns (prevp: nat, p: nat, fits: bool, ghost f: nat, ghost k: nat)
      requires Valid() && freep.Some? && n > 0
      ensures f < |ring| && ring[f] == freep.value && k < |ring| && ring[k] == p
      ensures fits ==> HasRoom(mem, ring, k, n) && 0 < k && prevp == ring[k - 1]
                       && forall i: nat | i < |ring| && Passed(f, k, i) :: !HasRoom(mem, ring, i, n)
      ensures !fits ==> forall i: nat :: !HasRoom(mem, ring, i, n)
    {
      hide Good, IndexOf, Sorted;
      f := IndexOf(ring, freep.value);
      Successor(mem, ring, live, owner, f);
      prevp := freep.value;
      p := mem[prevp].ptr;
      k := if f + 1 < |ring| then f + 1 else 0;
      ghost var j: nat := f;
      while mem[p].size < n && p != freep.value
        invariant j < |ring| && prevp == ring[j] && k == (if j + 1 < |ring| then j + 1 else 0) && p == ring[k]
        invariant forall i: nat | i < |ring| && Passed(f, k, i) :: !HasRoom(mem, ring, i, n)
        decreases if f < k then |ring| + f - k else f - k
      {
        Successor(mem, ring, live, owner, k);
        prevp := p;
        p := mem[p].ptr;
        j := k;
        k := if k + 1 < |ring| then k + 1 else 0;
      }
      Successor(mem, ring, live, owner, k);
      fits := mem[p].size >= n;
    }

    /** Cutting n units off the end of block p, or taking all of it. */
    method Carve(prevp: nat, p: nat, n: nat, ghost k: nat) returns (a: nat)
      requires Valid() && freep.Some? && n > 0 && HasRoom(mem, ring, k, n) && 0 < k
      requires p == ring[k] && prevp == ring[k - 1]
      modifies this
      ensures Valid() && freep.Some? && a !in old(live) && live == old(live)[a := n]
      ensures Run(old(owner), a, n) && owner == Give(old(owner), a, a + n, Live(a))
      ensures DataKept(old(mem), mem, old(owner), {}) && Ours(owner) == Ours(old(owner))
    {
      hide Ours, Good, LiveUnits, DataKept, Dropped;
      ghost var m, r, l, o := mem, ring, live, owner;
      RunInBlock(mem, ring, live, owner, k, n);
      if mem[p].size == n {
        mem := mem[prevp := mem[prevp].(ptr := mem[p].ptr)];
        a := p;
        TakeWhole(m, mem, ring, live, owner, k);
        ring := Dropped(ring, k);
        DroppedHas(r, k);
      } else {
        mem := mem[p := mem[p].(size := mem[p].size - n)];
        a := p + mem[p].size;
        mem := mem[a := mem[a].(size := n)];
        TakeTail(m, mem, ring, live, owner, k, a, n);
      }
      freep := Some(prevp);
      live := live[a := n];
      owner := Give(owner, a, a + n, Live(a));
      CarveKeeps(m, mem, r, l, o, k, a, n);
      RunOurs(o, a, n);
    }

    /** malloc: a block of exactly the units asked for, out of free units if there are enough in a
        row, and out of new memory otherwise. It fails only when both do. */
    method Malloc(nbytes: nat, sbrk: Grant) returns (r: Got)
      requires Valid() && nbytes < UINT && Answers(sbrk, Asked(Units(nbytes)))
      modifies this
      ensures Valid()
      ensures r.Null? <==> sbrk.Refused? && !exists h: nat :: Run(old(owner), h, Units(nbytes))
      ensures r.Unbacked? <==>
                && sbrk.Granted? && !Backed(sbrk.sz, Asked(Units(nbytes)))
                && !exists h: nat :: Run(old(owner), h, Units(nbytes))
      ensures !r.At? ==> live == old(live) && owner == old(owner)
      ensures r.At? ==> r.p > 0 && r.p - 1 !in old(live) && live == old(live)[r.p - 1 := Units(nbytes)]
      ensures r.At? ==>
        var before := if exists h: nat :: Run(old(owner), h, Units(nbytes)) then old(owner)
                      else if sbrk.Granted? then Grown(old(owner), |sbrk.gap|, |sbrk.memory|, Owner.Free) else [];
        && Run(before, r.p - 1, Units(nbytes))
        && owner == Give(before, r.p - 1, r.p - 1 + Units(nbytes), Live(r.p - 1))
      ensures DataKept(old(mem), mem, old(owner), {})
      ensures |Ours(owner)| == |Ours(old(owner))| +
                if r.At? && !exists h: nat :: Run(old(owner), h, Units(nbytes)) then Asked(Units(nbytes)) else 0
    {
      hide Good, DataKept, Units, Ours, Grown, SbrkArg, Usable, Answers, Backed;
      ghost var m, o := mem, owner;
      var n := Units(nbytes);
      if freep.None? {
        InitGood(mem, live, owner);
        mem := mem[0 := Header(0, 0)];
        freep := Some(0);
        ring := [0];
      }
      KeptSoFar(m, mem, ring, live, owner);
      RoomIffRun(mem, ring, live, owner, n);
      var prevp, p, fits, f, k := Search(n);
      if !fits {
        ghost var m' := mem;
        var core := Morecore(n, sbrk);
        if core != MoreCore {
          return if core == NoCore then Null else Unbacked;
        }
        KeptTwice(m, m', mem, o, o);
        GrownOurs(o, |sbrk.gap|, |sbrk.memory|, Owner.Free);
        prevp, p, fits, f, k := Search(n);
      }
      ghost var m'', o'' := mem, owner;
      var a := Carve(prevp, p, n, k);
      KeptTwice(m, m'', mem, o, o'');
      r := At(a + 1);
    }

    /** The caller writes into a block it was given: the allocator does not depend on it. */
    method Store(a: nat, c: nat, h: Header)
      requires Valid() && a in live && a < c < a + live[a] && c < |mem|
      modifies this`mem
      ensures Valid() && mem == old(mem)[c := h]
    {
      StoreKeeps(mem, ring, live, owner, a, c, h);
      hide Good, Untouched;
      mem := mem[c := h];
    }
  }

  /** n free units in a row, from h. */
  ghost predicate Run(owner: seq<Owner>, h: nat, n: nat) {
    h + n <= |owner| && forall c: nat | h <= c < h + n :: owner[c] == Free
  }

  lemma RunInBlock(mem: seq<Header>, ring: seq<nat>, live: map<nat, nat>, owner: seq<Owner>, k: nat, n: nat)
    requires Good(mem, ring, live, owner) && HasRoom(mem, ring, k, n) && 0 < k
    ensures ring[k - 1] < ring[k] < |mem| == |owner| && End(mem, ring[k]) <= |mem|
    ensures Run(owner, ring[k], mem[ring[k]].size) && Run(owner, End(mem, ring[k]) - n, n)
  {
    BlockFacts(mem, ring, owner, k);
  }

  lemma RoomIffRun(mem: seq<Header>, ring: seq<nat>, live: map<nat, nat>, owner: seq<Owner>, n: nat)
    requires Good(mem, ring, live, owner) && n > 0
    ensures (exists i: nat :: HasRoom(mem, ring, i, n)) <==> exists h: nat :: Run(owner, h, n)
  {
    if i: nat :| HasRoom(mem, ring, i, n) {
      RunInBlock(mem, ring, live, owner, i, n);
    }
    if h: nat :| Run(owner, h, n) {
      Roomy(mem, ring, live, owner, h, n);
    }
  }

  lemma DroppedHas(ring: seq<nat>, k: nat)
    requires 0 < k < |ring|
    ensures ring[k - 1] in Dropped(ring, k)
  {
    assert Dropped(ring, k)[k - 1] == ring[k - 1];
  }

  lemma RunOurs(owner: seq<Owner>, a: nat, n: nat)
    requires Run(owner, a, n)
    ensures Ours(Give(owner, a, a + n, Live(a))) == Ours(owner)
  {
    GiveOurs(owner, a, a + n, Live(a));
  }

  lemma CarveKeeps(mem: seq<Header>, v: seq<Header>, ring: seq<nat>, live: map<nat, nat>, owner: seq<Owner>, k: nat,
                   a: nat, n: nat)
    requires Good(mem, ring, live, owner) && 0 < k < |ring| && |v| == |mem| && Run(owner, a, n) && n > 0
    requires forall c: nat | c < |mem| && c != ring[k - 1] && c != ring[k] && c != a :: v[c] == mem[c]
    ensures DataKept(mem, v, owner, {})
  {
    ListOwners(mem, ring, owner);
  }

  lemma InitGood(mem: seq<Header>, live: map<nat, nat>, owner: seq<Owner>)
    requires Untouched(mem, live, owner)
    ensures Good(mem[0 := Header(0, 0)], [0], live, owner) && DataKept(mem, mem[0 := Header(0, 0)], owner, {})
  {
  }

  lemma KeptSoFar(m: seq<Header>, mem: seq<Header>, ring: seq<nat>, live: map<nat, nat>, owner: seq<Owner>)
    requires Good(mem, ring, live, owner) && (m == mem || DataKept(m, mem, owner, {}))
    ensures |owner| == |mem| && DataKept(m, mem, owner, {})
  {
  }

  lemma KeptTwice(m: seq<Header>, m': seq<Header>, m'': seq<Header>, o: seq<Owner>, o': seq<Owner>)
    requires DataKept(m, m', o, {}) && DataKept(m', m'', o', {})
    requires |o'| >= |o| && forall c: nat | c < |o| :: o'[c] == o[c]
    ensures DataKept(m, m'', o, {})
  {
  }

  lemma SameList(mem: seq<Header>, v: seq<Header>, ring: seq<nat>, owner: seq<Owner>)
    requires List(mem, ring, -1) && FreeUnits(mem, ring, owner) && |v| == |mem|
    requires forall i: nat | i < |ring| :: ring[i] < |mem| && v[ring[i]] == mem[ring[i]]
    ensures List(v, ring, -1) && FreeUnits(v, ring, owner)
  {
    assert Linked(v, ring) by { hide FreeUnits, Spaced; }
    assert Spaced(v, ring, -1) by { hide FreeUnits, Linked; }
    hide List;
    assert forall i: nat, c: nat :: InBlock(v, ring, i, c) <==> InBlock(mem, ring, i, c);
    forall c: nat | c < |v| && owner[c] == Free ensures exists i: nat :: InBlock(v, ring, i, c) {
      var i: nat :| InBlock(mem, ring, i, c);
      assert InBlock(v, ring, i, c);
    }
  }

  lemma StoreKeeps(mem: seq<Header>, ring: seq<nat>, live: map<nat, nat>, owner: seq<Owner>, a: nat, c: nat, h: Header)
    requires Good(mem, ring, live, owner) && a in live && a < c < a + live[a] && c < |mem|
    ensures Good(mem[c := h], ring, live, owner)
  {
    hide List, FreeUnits;
    assert owner[c] == Live(a);
    assert forall b | b in live :: owner[b] == Live(b);
    ListOwners(mem, ring, owner);
    SameList(mem, mem[c := h], ring, owner);
  }

  /** Nothing is lost to fragmentation: once every unit is free again, the list is one block. */
  lemma AllFreed(mem: seq<Header>, ring: seq<nat>, live: map<nat, nat>, owner: seq<Owner>)
    requires Good(mem, ring, live, owner) && |mem| > 1 && forall c: nat | 0 < c < |mem| :: owner[c] == Free
    ensures ring == [0, 1] && mem[1].size == |mem| - 1
  {
    assert owner[1] == Free;
    var i: nat :| InBlock(mem, ring, i, 1);
    var first, at := ring[1], ring[i];
    assert ring[0] < first && (i == 1 || first < at);
    if |ring| > 2 {
      NotLast(mem, ring, 1);
    }
    Spans(mem, ring, owner, 1, 1, |mem| - 1);
  }

  lemma NotLast(mem: seq<Header>, ring: seq<nat>, k: nat)
    requires List(mem, ring, -1) && k + 1 < |ring|
    ensures End(mem, ring[k]) < |mem|
  {
    assert ring[k + 1] < |mem|;
  }

  /** Block i of the list has n units or more. */
  ghost predicate HasRoom(mem: seq<Header>, ring: seq<nat>, i: nat, n: nat) {
    i < |ring| && ring[i] < |mem| && mem[ring[i]].size >= n
  }

  lemma NothingWritten(mem: seq<Header>, ring: seq<nat>, live: map<nat, nat>, owner: seq<Owner>)
    requires Good(mem, ring, live, owner)
    ensures |owner| == |mem| && DataKept(mem, mem, owner, {})
  {
  }

  lemma GrownFreed(m: seq<Header>, m': seq<Header>, v: seq<Header>, ring: seq<nat>, live: map<nat, nat>, o: seq<Owner>,
                   gap: nat, n: nat)
    requires Good(m, ring, live, o) && |m'| == |m| + gap + n && |m| + gap !in live
    requires DataKept(m, m', o, {}) && DataKept(m', v, Grown(o, gap, n, Live(|m| + gap)), {|m| + gap})
    ensures DataKept(m, v, o, {})
    ensures Give(Grown(o, gap, n, Live(|m| + gap)), |m| + gap, |m| + gap + n, Free) == Grown(o, gap, n, Free)
    ensures live[|m| + gap := n] - {|m| + gap} == live
  {
  }

  lemma {:induction false} Spans(mem: seq<Header>, ring: seq<nat>, owner: seq<Owner>, i: nat, c: nat, d: nat)
    requires List(mem, ring, -1) && FreeUnits(mem, ring, owner) && InBlock(mem, ring, i, c) && c <= d < |mem|
    requires forall e: nat | c <= e <= d :: owner[e] == Free
    ensures InBlock(mem, ring, i, d)
    decreases d - c
  {
    if c < d {
      Spans(mem, ring, owner, i, c, d - 1);
      Coalesced(mem, ring, owner, i, d - 1);
    }
  }

  lemma Roomy(mem: seq<Header>, ring: seq<nat>, live: map<nat, nat>, owner: seq<Owner>, h: nat, n: nat)
    requires Good(mem, ring, live, owner) && n > 0 && h + n <= |mem|
    requires forall c: nat | h <= c < h + n :: c < |owner| && owner[c] == Free
    ensures exists i: nat :: HasRoom(mem, ring, i, n)
  {
    assert owner[h] == Free;
    var i: nat :| InBlock(mem, ring, i, h);
    Spans(mem, ring, owner, i, h, h + n - 1);
    assert HasRoom(mem, ring, i, n);
  }

  lemma FreedOurs(mem: seq<Header>, ring: seq<nat>, live: map<nat, nat>, owner: seq<Owner>, b: nat)
    requires Good(mem, ring, live, owner) && b in live && b + live[b] <= |owner|
    ensures Ours(Give(owner, b, b + live[b], Free)) == Ours(owner)
  {
    hide List, FreeUnits;
    assert forall c: nat | b <= c < b + live[b] :: owner[c] == Live(b);
    GiveOurs(owner, b, b + live[b], Free);
  }

  lemma NotListed(mem: seq<Header>, ring: seq<nat>, live: map<nat, nat>, owner: seq<Owner>, b: nat)
    requires Good(mem, ring, live, owner) && b in live
    ensures b !in ring && 0 < b < |mem| == |owner| && mem[b].size == live[b] && b + live[b] <= |mem|
  {
    LiveHead(mem, live, owner, b);
    ListOwners(mem, ring, owner);
  }

  /** The two header updates of free, put together. */
  lemma FreedMem(m: seq<Header>, m': seq<Header>, v: seq<Header>, p: nat, b: nat)
    requires p < |m| && b < |m| && p != b && m[p].ptr < |m|
    requires m' == if End(m, b) == m[p].ptr then m[b := Header(m[m[p].ptr].ptr, m[b].size + m[m[p].ptr].size)]
                   else m[b := m[b].(ptr := m[p].ptr)]
    requires v == if End(m', p) == b then m'[p := Header(m'[b].ptr, m'[p].size + m'[b].size)]
                  else m'[p := m'[p].(ptr := b)]
    ensures v == if End(m, p) == b then MergeMem(InsertMem(m, p, b), p, b) else InsertMem(m, p, b)
  {
  }

  /** The list after free(b). */
  ghost function FreedRing(mem: seq<Header>, ring: seq<nat>, live: map<nat, nat>, owner: seq<Owner>, t: nat, b: nat,
                           join: bool): (s: seq<nat>)
    requires t < |ring| && ring[t] < |mem| && (join ==> t + 1 < |ring|)
  {
    var s := Inserted(ring, t, b, join);
    if End(mem, ring[t]) == b then Dropped(s, t + 1) else s
  }

  lemma FreedGood(mem: seq<Header>, v: seq<Header>, ring: seq<nat>, live: map<nat, nat>, owner: seq<Owner>, t: nat,
                  b: nat, join: bool)
    requires Good(mem, ring, live, owner) && b in live && b < |mem| == |owner| && Spot(ring, t, b) && ring[t] < |mem|
    requires mem[ring[t]].ptr < |mem| && (join <==> End(mem, b) == mem[ring[t]].ptr)
    requires var u := InsertMem(mem, ring[t], b);
      v == if End(mem, ring[t]) == b then MergeMem(u, ring[t], b) else u
    ensures (join ==> t + 1 < |ring|) && b + live[b] <= |mem|
    ensures Good(v, FreedRing(mem, ring, live, owner, t, b, join), live - {b}, Give(owner, b, b + live[b], Free))
    ensures ring[t] in FreedRing(mem, ring, live, owner, t, b, join)
    ensures DataKept(mem, v, owner, {b})
  {
    hide List, FreeUnits, LiveUnits, DataKept, Dropped;
    NotListed(mem, ring, live, owner, b);
    FreeKeeps(mem, ring, live, owner, t, b, join);
    TakesListUnit(mem, ring, owner, t);
    var s := Inserted(ring, t, b, join);
    var u := InsertMem(mem, ring[t], b);
    var o := Give(owner, b, End(mem, b), Free);
    assert s[t] == ring[t] && s[t + 1] == b && u[ring[t]].size == mem[ring[t]].size;
    if End(mem, ring[t]) == b {
      MergeKeeps(mem, u, s, live - {b}, owner, o, t, b);
      assert Dropped(s, t + 1)[t] == ring[t];
    } else {
      ListTight(u, s, t);
    }
  }

  lemma LastBelow(ring: seq<nat>, t: nat, b: nat)
    requires Sorted(ring) && Spot(ring, t, b)
    ensures forall a | a in ring && a < b :: a <= ring[t]
  {
    forall a | a in ring && a < b ensures a <= ring[t] {
      var i: nat :| i < |ring| && ring[i] == a;
    }
  }

  lemma Lookup(mem: seq<Header>, ring: seq<nat>)
    requires List(mem, ring, -1)
    ensures |ring| > 0 && ring[0] == 0 && Sorted(ring) && forall i: nat | i < |ring| :: ring[i] < |mem|
  {
  }

  ghost function IndexOf(ring: seq<nat>, a: nat): (i: nat)
    requires a in ring
    ensures i < |ring| && ring[i] == a
  {
    var i: nat :| i < |ring| && ring[i] == a;
    i
  }

  ghost function SpotOf(ring: seq<nat>, b: nat): (t: nat)
    requires |ring| > 0 && ring[0] < b && b !in ring
    ensures Spot(ring, t, b)
  {
    if ring[|ring| - 1] < b then |ring| - 1 else SpotOf(ring[..|ring| - 1], b)
  }

  lemma Successor(mem: seq<Header>, ring: seq<nat>, live: map<nat, nat>, owner: seq<Owner>, i: nat)
    requires Good(mem, ring, live, owner) && i < |ring|
    ensures ring[i] < |mem| && mem[ring[i]].ptr == (if i + 1 < |ring| then ring[i + 1] else 0)
    ensures ring[0] == 0 && Sorted(ring) && forall i: nat | i < |ring| :: ring[i] < |mem|
    ensures mem[ring[i]].size == 0 <==> i == 0
  {
  }
}
