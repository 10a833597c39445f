/** Three runs of the memory system on which it does not do what its callers count on. */
module VmRuns {
  import opened Options
  import opened Params
  import opened Blocks
  import opened Counting
  import opened PageTables
  import opened Vm

  const PHYSTOP := 0x2000_0000

  /** A kernel map of one line: the first `size` bytes of memory, at KERNBASE. */
  function OneLine(size: Word): (kmap: seq<Kmap>)
    requires 0 < size <= KERNBASE
    ensures |kmap| == 1 && kmap[0].Valid() && kmap[0].virt / PGSIZE == USERPAGES
    ensures kmap[0].Last() == USERPAGES + (size - 1) / PGSIZE
  {
    [Kmap(KERNBASE, 0, size, 2)]
  }

  lemma OneLineRequests(size: Word)
    requires 0 < size <= KERNBASE
    ensures var reqs := Requests(OneLine(size));
            && |reqs| == (size - 1) / PGSIZE + 1 && ClashAt(reqs) == |reqs|
            && forall j | 0 <= j < |reqs| :: reqs[j].v == USERPAGES + j
  {
    hide ClashAt, PagesOf, Fresh;
    var kmap := OneLine(size);
    ClashIffOverlap(kmap);
    assert kmap[..0] == [];
    assert Requests(kmap) == kmap[0].Line();
  }

  lemma FreeCount(m: Memory)
    requires m.Valid() && m.first <= |m.mem| && forall f: nat :: f in m.free <==> m.first <= f < |m.mem|
    ensures |m.free| == |m.mem| - m.first
  {
    hide Owned;
    DistinctSize(m.free);
    assert ToSet(m.free) == Interval(m.first, |m.mem|);
  }

  /** What setupkvm leaves of the user half: nothing. */
  lemma NoUserPage(mem: seq<Frame>, d: nat, reqs: seq<Request>, v: nat)
    requires KernelMap(mem, d, reqs) && v < USERPAGES
    ensures !Mapped(mem, d, v) && v / ENTRIES !in Slots(mem, d)
  {
    hide Pte, Entry, Present, Slots;
    assert v / ENTRIES < USERPAGES / ENTRIES;
    assert forall i | i in SlotsOf(reqs) :: i >= USERPAGES / ENTRIES;
  }

  /** Page 0 is there, and with one frame left a copy of it stops between page and page table. */
  lemma OnePage(mem0: seq<Frame>, owner0: Owner, free0: seq<nat>, mem: seq<Frame>, owner: Owner, free: seq<nat>, d: nat)
    requires PageAdded(mem0, owner0, free0, mem, owner, free, d, 0)
    requires 0 !in Slots(mem0, d) && |Slots(mem0, d)| == 1
    ensures |free| == |free0| - 2 && LosesSome(mem, d, 1)
  {
    hide Pte, Present, Slots, SameExcept, Grows, Filled;
    assert Slots(mem, d) == Slots(mem0, d) + {0};
    assert Mapped(mem, d, 0);
    assert PresentBelow(mem, d, 0) == {} && TablesFor({}) == {};
    assert LosesFrame(mem, d, 1, 0);
  }

  lemma OneSlot(reqs: seq<Request>)
    requires |reqs| == 1 && reqs[0].v == USERPAGES
    ensures SlotsOf(reqs) == {USERPAGES / ENTRIES} && |SlotsOf(reqs)| == 1
  {
    assert reqs[0].v / ENTRIES in SlotsOf(reqs);
  }

  lemma SlotsAre(mem: seq<Frame>, d: nat, reqs: seq<Request>)
    requires KernelMap(mem, d, reqs)
    ensures d < |mem| && Slots(mem, d) == SlotsOf(reqs)
  {
  }

  lemma SlotPresent(mem: seq<Frame>, d: nat, i: nat)
    requires d < |mem| && i < ENTRIES
    ensures i in Slots(mem, d) <==> Present(mem[d][i])
  {
  }

  /** copyuvm loses a frame: of seven, a process with one page has four, and a copy of it uses two
      for its directory and the kernel's page table and the last one for the page. */
  method LostFrame() returns (m: Memory, r: Option<nat>, ghost leaked: set<nat>)
    ensures r.None? && |leaked| == 1
  {
    hide Owned, FreeList, Spawned, SameSpaces, SameView, ClashAt, PagesOf, Fresh, SamePage, Requests, KernelMap;
    hide SlotsOf, KernelHalf;
    hide Memory.Frames, ToSet, OnlyIn, Pte, PageAdded, Slots, LosesSome, CopyCost, Kmap.Valid, Kmap.Last, Present;
    m := new Memory(1, 8);
    FreeCount(m);
    var kmap := OneLine(PGSIZE);
    OneLineRequests(PGSIZE);
    OneSlot(Requests(kmap));
    ghost var mem1, owner1 := m.mem, m.owner;
    var d, panicked := m.Setupkvm(kmap);
    SpawnedDir(mem1, owner1, m.mem, m.owner, d.value);
    SlotsAre(m.mem, d.value, Requests(kmap));
    NoUserPage(m.mem, d.value, Requests(kmap), 0);
    SlotPresent(m.mem, d.value, 0);
    ghost var mem0, owner0, free0 := m.mem, m.owner, m.free;
    var killed := m.PageFault(d.value, PGSIZE, 0);
    OnePage(mem0, owner0, free0, m.mem, m.owner, m.free, d.value);
    r, leaked, panicked := m.Copyuvm(d.value, kmap);
  }

  lemma GrowsByOne(mem: seq<Frame>, d: nat, lo: nat, hi: nat)
    requires d < |mem| && lo < hi <= USERPAGES
    ensures GrowNeed(mem, d, lo, hi) >= 1
  {
    hide Slots;
  }

  /** allocuvm loses a page: the process has stored a word on its first page, its size ends within
      that page, and no frame is left for a second. */
  method LostPage() returns (m: Memory, d: nat, ghost before: seq<Frame>)
    ensures d < |before| && Page(before, d, 0)[0] == 1
    ensures d < |m.mem| && Page(m.mem, d, 0)[0] == 0
  {
    hide Owned, FreeList, Spawned, SameSpaces, SameView, ClashAt, PagesOf, Fresh, Requests, KernelMap, SlotsOf, Reach;
    hide Memory.Frames, ToSet, OnlyIn, Pte, Slots, Kmap.Valid, Kmap.Last, Present, GrowNeed, Writable, KernelHalf;
    m := new Memory(1, 5);
    FreeCount(m);
    var kmap := OneLine(PGSIZE);
    OneLineRequests(PGSIZE);
    OneSlot(Requests(kmap));
    ghost var mem0, owner0 := m.mem, m.owner;
    var s, panicked := m.Setupkvm(kmap);
    d := s.value;
    SpawnedDir(mem0, owner0, m.mem, m.owner, d);
    SlotsAre(m.mem, d, Requests(kmap));
    NoUserPage(m.mem, d, Requests(kmap), 0);
    SlotPresent(m.mem, d, 0);
    ghost var slots := Slots(m.mem, d);
    var killed := m.Store(d, PGSIZE, 0, 1);
    assert Slots(m.mem, d) == slots + {0} && |slots + {0}| == 2;
    before := m.mem;
    GrowsByOne(m.mem, d, 1, 2);
    ghost var failed;
    var r;
    r, failed, panicked := m.Allocuvm(d, 4, 2 * PGSIZE);
    NotThere(m.mem, d, 0);
  }

  lemma NotThere(mem: seq<Frame>, d: nat, v: nat)
    requires d < |mem| && v < USERPAGES && !Mapped(mem, d, v)
    ensures Page(mem, d, v) == Filled(0)
  {
  }

  lemma SlotsBelow(reqs: seq<Request>, n: nat)
    requires forall j | 0 <= j < |reqs| :: reqs[j].v / ENTRIES < n
    ensures |SlotsOf(reqs)| <= n
  {
    SubsetSize(SlotsOf(reqs), Range(n));
  }

  lemma MappedRequest(mem: seq<Frame>, d: nat, reqs: seq<Request>, j: nat)
    requires KernelMap(mem, d, reqs) && j < |reqs|
    ensures reqs[j].v < PAGES && Mapped(mem, d, reqs[j].v)
  {
    hide Pte;
  }

  lemma NoUserFrames(mem: seq<Frame>, owner: Owner, first: nat, d: nat, lo: nat, hi: nat)
    requires Owned(mem, owner, first) && lo >= USERPAGES
    ensures InRange(owner, d, lo, hi) == {}
  {
  }

  /** sbrk takes a kernel frame: two calls grow the size past KERNBASE, which nothing checks, and a
      third shrinks it by one page. The free list does not come out as the same frames once each. */
  method SbrkFreesKernel() returns (m: Memory, sz: Word, w: Walk, ghost before: set<nat>)
    ensures sz == 0x8FFF_F000 && !(w.Through? && Distinct(m.free) && ToSet(m.free) == before)
  {
    hide Owned, FreeList, Spawned, SameSpaces, ClashAt, PagesOf, Fresh, Requests, KernelMap, SlotsOf, KernelHalf;
    hide Memory.Frames, ToSet, Pte, Kmap.Valid, Kmap.Last, Present, InRange, Distinct;
    m := new Memory(1024, PHYSTOP / PGSIZE);
    FreeCount(m);
    var kmap := OneLine(PHYSTOP);
    OneLineRequests(PHYSTOP);
    SlotsBelow(Requests(kmap), ENTRIES);
    ghost var mem0, owner0 := m.mem, m.owner;
    var d, panicked := m.Setupkvm(kmap);
    SpawnedDir(mem0, owner0, m.mem, m.owner, d.value);
    MappedRequest(m.mem, d.value, Requests(kmap), 0xFFFF);
    before := ToSet(m.free);
    var r;
    r, sz, w := m.Sbrk(d.value, 0, 0x7FFF_F000);
    r, sz, w := m.Sbrk(d.value, sz, 0x1000_1000);
    NoUserFrames(m.mem, m.owner, m.first, d.value, 0x8FFFF, 0x90000);
    assert before + {} == before;
    r, sz, w := m.Sbrk(d.value, sz, -PGSIZE);
  }
}
