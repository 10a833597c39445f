/** Page frames and address spaces: the frame allocator, page tables, growing and shrinking, lazy
    allocation on page faults, and copying an address space for fork. */
module Vm {
  import opened Options
  import opened Params
  import opened Blocks
  import opened Counting
  import opened PageTables

  const PGSIZE := 4096
  const PERM_WU := 6               // PTE_W | PTE_U

  /** mappages: 0, -1, or panic("remap"). */
  datatype MapResult = Done | NoMemory | Remap

  ghost predicate FreeList(mem: seq<Frame>, owner: Owner, first: nat, free: seq<nat>) {
    Distinct(free) && forall f | f in free :: first <= f < |mem| && f !in owner
  }

  class Memory {
    const first: nat                 // first frame the allocator manages
    var mem: seq<Frame>
    var free: seq<nat>               // kmem.freelist, head first
    ghost var owner: Owner

    constructor (first: nat, frames: nat)
      requires 0 < first <= frames <= PAGES
      ensures Valid() && this.first == first && |mem| == frames && owner == map[]
      ensures forall f: nat :: f in free <==> first <= f < frames
      ensures forall f | first <= f < frames :: mem[f] == Filled(0x0101_0101)
    {
      this.first := first;
      mem := seq(frames, _ => Filled(0));
      free := [];
      owner := map[];
      new;
      EmptyOwned(mem, first);
      Freerange(first, frames);
    }

    /** freerange: every frame from lo up to hi, the last one first. */
    method Freerange(lo: nat, hi: nat)
      requires Valid() && first <= lo <= hi <= |mem|
      requires forall f | lo <= f < hi :: f !in free && f !in owner
      modifies this`mem, this`free
      ensures Valid() && |mem| == |old(mem)| && SameSpaces(old(mem), mem, owner)
      ensures forall f: nat :: f in free <==> lo <= f < hi || f in old(free)
      ensures |free| == hi - lo + |old(free)| && free[hi - lo..] == old(free)
      ensures forall k | 0 <= k < hi - lo :: free[k] == hi - 1 - k
      ensures forall f | 0 <= f < |mem| :: mem[f] == if lo <= f < hi then Filled(0x0101_0101) else old(mem)[f]
    {
      hide Owned, FreeList, SameSpaces, ToSet, Filled, Memory.Frames;
      SpacesSelf(mem, owner, first);
      var p := lo;
      while p < hi
        invariant lo <= p <= hi && Valid() && |mem| == |old(mem)| && SameSpaces(old(mem), mem, owner)
        invariant forall f: nat :: f in free <==> lo <= f < p || f in old(free)
        invariant |free| == p - lo + |old(free)| && free[p - lo..] == old(free)
        invariant forall k | 0 <= k < p - lo :: free[k] == p - 1 - k
        invariant forall f | 0 <= f < |mem| :: mem[f] == if lo <= f < p then Filled(0x0101_0101) else old(mem)[f]
      {
        ghost var mem1 := mem;
        Kfree(p);
        SpacesTwice(old(mem), mem1, mem, owner);
        p := p + 1;
      }
    }

    ghost predicate Valid()
      reads this
    {
      |mem| <= PAGES && Owned(mem, owner, first) && FreeList(mem, owner, first, free)
    }

    /** The frames accounted for: free, or part of an address space. */
    ghost function Frames(): (s: set<nat>)
      reads this`free, this`owner
    {
      ToSet(free) + owner.Keys
    }

    /** What is accounted for and in no space is free. */
    lemma FreeIsRest()
      requires Valid()
      ensures ToSet(free) == Frames() - owner.Keys
    {
      hide ToSet, Owned;
    }

    /** kfree: a frame nobody owns goes to the head of the free list. */
    method Kfree(f: nat)
      requires Valid() && first <= f < |mem| && f !in owner && f !in free
      modifies this`mem, this`free
      ensures Valid() && free == [f] + old(free) && mem == old(mem)[f := Filled(JUNK)]
      ensures forall w | 0 <= w < 1024 :: mem[f][w] == 0x0101_0101
      ensures SameSpaces(old(mem), mem, owner) && Frames() == old(Frames()) + {f}
    {
      hide ToSet, Owned, SameSpaces;
      UnusedFrame(mem, owner, first, f, Filled(JUNK));
      mem := mem[f := Filled(JUNK)];
      free := [f] + free;
    }

    /** kalloc: the head of the free list. */
    method Kalloc() returns (r: Option<nat>)
      requires Valid()
      modifies this`free
      ensures Valid()
      ensures r.None? <==> old(free) == []
      ensures r.None? ==> free == old(free)
      ensures r.Some? ==>
                && old(free) == [r.value] + free && r.value !in free
                && first <= r.value < |mem| && r.value !in owner && r.value in old(Frames())
                && Frames() == old(Frames()) - {r.value}
    {
      hide Owned, ToSet, FreeList;
      if free == [] {
        return None;
      }
      FreePop(mem, owner, first, free);
      r := Some(free[0]);
      free := free[1..];
    }

    /** walkpgdir: the page table of virtual page v, made on demand if alloc. */
    method Walkpgdir(d: nat, v: nat, alloc: bool) returns (r: Option<nat>)
      requires Valid() && IsDir(owner, d) && d < |mem| && v < PAGES
      modifies this`mem, this`free, this`owner
      ensures Valid() && d < |mem| && |mem| == |old(mem)| && SameSpaces(old(mem), mem, old(owner))
              && Frames() == old(Frames())
      ensures forall f: nat | f in free :: f in old(free)
      ensures forall f: nat | f < |mem| && f !in old(free) && f !in old(owner) :: f !in owner && mem[f] == old(mem)[f]
      ensures IsDir(owner, d) && Extends(old(owner), owner, d, v)
      ensures r.None? <==> !Present(old(mem)[d][v / ENTRIES]) && (!alloc || old(free) == [])
      ensures r.None? || Present(old(mem)[d][v / ENTRIES]) ==>
              mem == old(mem) && free == old(free) && owner == old(owner)
      ensures r.Some? ==> Present(mem[d][v / ENTRIES]) && Ppn(mem[d][v / ENTRIES]) == r.value < |mem|
      ensures r.Some? && !Present(old(mem)[d][v / ENTRIES]) ==> old(free) == [r.value] + free
      ensures r.Some? && alloc ==> TableThere(old(mem), |old(free)|, mem, |free|, d, v / ENTRIES)
    {
      hide Owned, SameSpaces, ToSet, Filled, Entry, Present, Ppn, FreeList;
      SpacesSelf(mem, owner, first);
      var pde := mem[d][v / ENTRIES];
      TableCost(mem, mem, |free|, d, v / ENTRIES);
      if Present(pde) {
        TableOwned(mem, owner, first, d, v / ENTRIES);
        return Some(Ppn(pde));
      }
      if !alloc {
        return None;
      }
      r := Kalloc();
      if r.Some? {
        ghost var mem0 := mem;
        AddPageTable(d, v, r.value);
        TableCost(mem0, mem, |free| + 1, d, v / ENTRIES);
      }
    }

    /** The new page table of walkpgdir: zeroed, and entered in the directory. */
    method AddPageTable(d: nat, v: nat, t: nat)
      requires Valid() && IsDir(owner, d) && d < |mem| && v < PAGES && !Present(mem[d][v / ENTRIES])
      requires first <= t < |mem| && t !in owner && t !in free
      modifies this`mem, this`owner
      ensures Valid() && |mem| == |old(mem)| && SameSpaces(old(mem), mem, old(owner)) && Frames() == old(Frames()) + {t}
      ensures owner == old(owner)[t := Table(d, v / ENTRIES)]
      ensures d < |mem| && Present(mem[d][v / ENTRIES]) && Ppn(mem[d][v / ENTRIES]) == t
      ensures forall f: nat | f < |mem| && f != t && f != d :: mem[f] == old(mem)[f]
      ensures forall i | 0 <= i < ENTRIES && i != v / ENTRIES :: mem[d][i] == old(mem)[d][i]
    {
      hide Owned, SameSpaces, ToSet, Filled, Entry, Present, Ppn;
      AddTable(mem, owner, first, d, v / ENTRIES, t);
      mem := mem[t := Filled(0)];
      mem := mem[d := mem[d][v / ENTRIES := Entry(t, 7)]];
      owner := owner[t := Table(d, v / ENTRIES)];
    }

    /** One turn of mappages' loop: enter frame ppn at virtual page v. A user page takes over a frame
        that is in transit: neither free nor in any space. */
    method MapPage(d: nat, v: nat, ppn: nat, perm: nat) returns (r: MapResult)
      requires Valid() && IsDir(owner, d) && d < |mem| && v < PAGES && ppn < PAGES && perm < 4096
      requires v < USERPAGES ==> first <= ppn < |mem| && ppn !in owner && ppn !in free
      modifies this`mem, this`free, this`owner
      ensures Valid() && IsDir(owner, d) && d < |mem| && |mem| == |old(mem)|
      ensures forall f: nat | f in free :: f in old(free)
      ensures r.NoMemory? <==> !Present(old(mem)[d][v / ENTRIES]) && old(free) == []
      ensures r.NoMemory? ==> mem == old(mem) && free == old(free) && owner == old(owner)
      ensures r.Remap? <==> Mapped(old(mem), d, v)
      ensures r.Remap? ==> mem == old(mem) && free == old(free) && owner == old(owner)
      ensures r.Done? ==>
                && Pte(mem, d, v) == Entry(ppn, perm)
                && SameExcept(old(mem), mem, old(owner), d, v)
                && (v < USERPAGES ==> mem[ppn] == old(mem)[ppn] && Grows(old(owner), owner, d, v, ppn)
                                      && Frames() == old(Frames()) + {ppn})
                && (v >= USERPAGES ==> Extends(old(owner), owner, d, v) && Frames() == old(Frames()))
                && TableThere(old(mem), |old(free)|, mem, |free|, d, v / ENTRIES)
    {
      hide Owned, SameSpaces, SameExcept, ToSet, Entry, Present, Ppn, FreeList, Slots;
      ghost var mem0, owner0 := mem, owner;
      var t := Walkpgdir(d, v, true);
      if t.None? {
        NoTable(mem0, d, v);
        return NoMemory;
      }
      PteIs(mem, d, v);
      SamePte(mem0, mem, owner0, d, v);
      if Present(mem[t.value][v % ENTRIES]) {
        MappedHasTable(mem0, d, v);
        return Remap;
      }
      ghost var mem1, owner1 := mem, owner;
      Enter(d, v, ppn, perm);
      SameSlots(mem1, mem, d);
      ExceptAfter(mem0, mem1, mem, owner0, owner1, d, v);
      return Done;
    }

    /** Write the entry of page v, whose page table is there and whose entry is not in use. */
    method Enter(d: nat, v: nat, ppn: nat, perm: nat)
      requires Valid() && IsDir(owner, d) && d < |mem| && v < PAGES && ppn < PAGES && perm < 4096
      requires v < USERPAGES ==> first <= ppn < |mem| && ppn !in owner && ppn !in free
      requires Present(mem[d][v / ENTRIES]) && Ppn(mem[d][v / ENTRIES]) < |mem| && !Mapped(mem, d, v)
      modifies this`mem, this`owner
      ensures Valid() && |mem| == |old(mem)|
      ensures Pte(mem, d, v) == Entry(ppn, perm) && SameExcept(old(mem), mem, old(owner), d, v)
      ensures v < USERPAGES ==>
              mem[ppn] == old(mem)[ppn] && owner == old(owner)[ppn := User(d, v)] && Frames() == old(Frames()) + {ppn}
      ensures v >= USERPAGES ==> owner == old(owner)
      ensures mem[d] == old(mem)[d]
    {
      hide Owned, SameExcept, ToSet, Entry, Present, Ppn;
      var t := Ppn(mem[d][v / ENTRIES]);
      TableOwned(mem, owner, first, d, v / ENTRIES);
      if v < USERPAGES {
        MapUser(mem, owner, first, d, v, ppn, perm);
        owner := owner[ppn := User(d, v)];
      } else {
        MapKernel(mem, owner, first, d, v, Entry(ppn, perm));
      }
      mem := mem[t := mem[t][v % ENTRIES := Entry(ppn, perm)]];
    }

    /** A frame from kalloc, filled with zeros. */
    method ZeroFrame() returns (r: Option<nat>)
      requires Valid()
      modifies this`free, this`mem
      ensures Valid() && |mem| == |old(mem)| && SameSpaces(old(mem), mem, owner)
      ensures r.None? <==> old(free) == []
      ensures r.None? ==> free == old(free) && mem == old(mem)
      ensures r.Some? ==>
                && old(free) == [r.value] + free && r.value !in free
                && first <= r.value < |mem| && r.value !in owner && r.value in old(Frames())
                && mem == old(mem)[r.value := Filled(0)] && Frames() == old(Frames()) - {r.value}
    {
      hide Owned, ToSet, FreeList, SameSpaces;
      SpacesSelf(mem, owner, first);
      r := Kalloc();
      if r.Some? {
        UnusedFrame(mem, owner, first, r.value, Filled(0));
        FreeAnyway(mem, mem[r.value := Filled(0)], owner, first, free);
        mem := mem[r.value := Filled(0)];
      }
    }

    /** A page fault at va: the process is killed if the address is in the kernel half, its memory is
        gone, the page is already there, or memory is short; otherwise the page becomes present.
        Either way every process sees the memory contents it saw before. */
    method PageFault(d: nat, sz: Word, va: Word) returns (killed: bool)
      requires Valid() && IsDir(owner, d) && d < |mem|
      modifies this`mem, this`free, this`owner
      ensures Valid() && IsDir(owner, d) && |mem| == |old(mem)| && Frames() == old(Frames())
      ensures SameView(old(mem), mem, old(owner)) && OnlyIn(old(owner), owner, d)
      ensures killed <==>
                || va >= KERNBASE || sz == 0 || Mapped(old(mem), d, va / PGSIZE)
                || |old(free)| < (if Present(old(mem)[d][va / PGSIZE / ENTRIES]) then 1 else 2)
      ensures killed ==> owner == old(owner) && SameSpaces(old(mem), mem, owner)
      ensures !killed ==> PageAdded(old(mem), old(owner), old(free), mem, owner, free, d, va / PGSIZE)
      ensures !killed ==> Writable(Pte(mem, d, va / PGSIZE)) && Flags(Pte(mem, d, va / PGSIZE)) == 7
    {
      hide Owned, FreeList, SameSpaces, SameView, Pte, Present, OnlyIn, PageAdded, Memory.Frames;
      SpacesSelf(mem, owner, first);
      SpacesView(mem, mem, owner);
      OnlyInSelf(owner, d);
      var v := va / PGSIZE;
      if va >= KERNBASE || sz == 0 {
        return true;
      }
      var t := Walkpgdir(d, v, false);
      if t.Some? {
        PteIs(mem, d, v);
        if Present(mem[t.value][v % ENTRIES]) {
          return true;
        }
      } else {
        NoTable(mem, d, v);
      }
      killed := FaultIn(d, v);
    }

    /** The rest of the page fault, for a page that is not there. */
    method FaultIn(d: nat, v: nat) returns (killed: bool)
      requires Valid() && IsDir(owner, d) && d < |mem| && v < USERPAGES && !Mapped(mem, d, v)
      modifies this`mem, this`free, this`owner
      ensures Valid() && IsDir(owner, d) && |mem| == |old(mem)| && Frames() == old(Frames())
      ensures SameView(old(mem), mem, old(owner)) && OnlyIn(old(owner), owner, d)
      ensures killed <==> |old(free)| < (if Present(old(mem)[d][v / ENTRIES]) then 1 else 2)
      ensures killed ==> owner == old(owner) && SameSpaces(old(mem), mem, owner)
      ensures !killed ==> PageAdded(old(mem), old(owner), old(free), mem, owner, free, d, v)
      ensures !killed ==> Writable(Pte(mem, d, v)) && Flags(Pte(mem, d, v)) == 7
    {
      hide Owned, ToSet, FreeList, SameSpaces, SameExcept, SameView, Grows, Entry, Pte, Present, Space, TableThere;
      hide Memory.Frames, OnlyIn, Filled;
      SpacesSelf(mem, owner, first);
      ghost var mem0, owner0 := mem, owner;
      SpacesView(mem0, mem, owner);
      OnlyInSelf(owner, d);
      var g := MapZero(d, v);
      if g.Short? {
        killed := true;
      } else if g.Stuck? {
        ghost var mem1 := mem;
        Kfree(g.f);
        SpacesTwice(mem0, mem1, mem, owner);
        SpacesView(mem0, mem, owner);
        killed := true;
      } else {
        ZeroPageView(mem0, mem, owner0, first, d, v, g.f);
        OnlySpace(owner0, owner, d, v);
        UserEntry(g.f);
        killed := false;
      }
    }

    /** A process stores a word at an aligned address: if the page is absent the fault brings it in
        first. Exactly that word of that process's memory changes; no other process sees anything. */
    method Store(d: nat, sz: Word, va: Word, w: Word) returns (killed: bool)
      requires Valid() && IsDir(owner, d) && d < |mem| && va % 4 == 0
      modifies this`mem, this`free, this`owner
      ensures Valid() && IsDir(owner, d) && |mem| == |old(mem)| && Frames() == old(Frames())
      ensures OnlyIn(old(owner), owner, d)
      ensures killed <==>
                || va >= KERNBASE
                || (if Mapped(old(mem), d, va / PGSIZE) then !Writable(Pte(old(mem), d, va / PGSIZE))
                    else sz == 0 || |old(free)| < (if Present(old(mem)[d][va / PGSIZE / ENTRIES]) then 1 else 2))
      ensures killed ==> SameView(old(mem), mem, old(owner))
      ensures !killed ==> Mapped(mem, d, va / PGSIZE) && Writable(Pte(mem, d, va / PGSIZE))
      ensures !killed ==> var e := Flags(Pte(mem, d, va / PGSIZE)); e / 2 % 2 == 1 && e / 4 % 2 == 1
      ensures !killed ==> WordStored(old(mem), mem, old(owner), d, va / PGSIZE, va % PGSIZE / 4, w)
      ensures !killed && Mapped(old(mem), d, va / PGSIZE) ==> |free| == |old(free)|
      ensures !killed && !Mapped(old(mem), d, va / PGSIZE) ==>
                TableThere(old(mem), |old(free)| - 1, mem, |free|, d, va / PGSIZE / ENTRIES)
    {
      hide Owned, FreeList, SameSpaces, SameView, Pte, Present, OnlyIn, PageAdded, Memory.Frames, WordStored, Slots;
      ViewSelf(mem, owner, first);
      OnlyInSelf(owner, d);
      var v := va / PGSIZE;
      ghost var mem0, owner0, free0 := mem, owner, free;
      if va >= KERNBASE || !Mapped(mem, d, v) || !Writable(Pte(mem, d, v)) {
        killed := PageFault(d, sz, va);
        if killed {
          return;
        }
        PageIn(mem0, owner0, free0, mem, owner, free, d, v);
      }
      ghost var mem1 := mem;
      StoreWord(mem, owner, first, d, v, va % PGSIZE / 4, w);
      FreeAnyway(mem, mem[Ppn(Pte(mem, d, v)) := mem[Ppn(Pte(mem, d, v))][va % PGSIZE / 4 := w]], owner, first, free);
      var f := Ppn(Pte(mem, d, v));
      SlotsAfterStore(mem, owner, first, d, v, va % PGSIZE / 4, w);
      mem := mem[f := mem[f][va % PGSIZE / 4 := w]];
      StoredAfter(mem0, owner0, mem1, owner, mem, d, v, va % PGSIZE / 4, w);
      killed := false;
    }

    /** A zeroed frame mapped at a user page; Stuck is a frame that could not be mapped for want of
        a page table, Clash the panic on a page that is already there. */
    method MapZero(d: nat, v: nat) returns (g: Grab)
      requires Valid() && IsDir(owner, d) && d < |mem| && v < USERPAGES
      modifies this`mem, this`free, this`owner
      ensures Valid() && IsDir(owner, d) && |mem| == |old(mem)|
      ensures g.Short? <==> old(free) == []
      ensures g.Stuck? <==> |old(free)| == 1 && !Present(old(mem)[d][v / ENTRIES])
      ensures g.Clash? <==> old(free) != [] && Mapped(old(mem), d, v)
      ensures g.Short? ==> mem == old(mem) && owner == old(owner) && free == old(free)
      ensures g.Stuck? ==>
                && owner == old(owner) && SameSpaces(old(mem), mem, owner) && old(free) == [g.f] && free == []
                && first <= g.f < |mem| && g.f !in owner && g.f in old(Frames()) && Frames() == old(Frames()) - {g.f}
      ensures g.Got? ==>
                && SameExcept(old(mem), mem, old(owner), d, v) && Frames() == old(Frames())
                && g.f in old(free) && g.f < |mem| && mem[g.f] == Filled(0)
                && Pte(mem, d, v) == Entry(g.f, PERM_WU)
                && Grows(old(owner), owner, d, v, g.f)
                && TableThere(old(mem), |old(free)| - 1, mem, |free|, d, v / ENTRIES)
    {
      hide Owned, ToSet, FreeList, SameSpaces, SameExcept, Grows, Entry, Pte, Present, Slots;
      ghost var mem0, owner0 := mem, owner;
      MappedTable(mem, d, v);
      var f := ZeroFrame();
      if f.None? {
        return Short;
      }
      SamePte(mem0, mem, owner, d, v);
      SameSlots(mem0, mem, d);
      ghost var mem1 := mem;
      var r := MapPage(d, v, f.value, PERM_WU);
      if r.NoMemory? {
        return Stuck(f.value);
      }
      if r.Remap? {
        return Clash;
      }
      ExceptAfter(mem0, mem1, mem, owner0, owner0, d, v);
      return Got(f.value);
    }

    /** deallocuvm: every page from the one containing newsz up to oldsz is unmapped and its frame
        freed; no other page of any space changes. The loop does not stop at the kernel half. So
        the free list ends up with its old frames and those of the user pages, each once, exactly
        when the range holds no kernel page. */
    method Deallocuvm(d: nat, oldsz: Word, newsz: Word) returns (r: nat, w: Walk)
      requires Valid() && IsDir(owner, d) && d < |mem|
      modifies this`mem, this`free, this`owner
      ensures |mem| == |old(mem)| && r == if newsz >= oldsz then oldsz else newsz
      ensures newsz >= oldsz ==> w.Through? && mem == old(mem) && owner == old(owner) && free == old(free)
      ensures newsz < oldsz ==>
                (Shrinkable(old(mem), d, newsz, oldsz) <==>
                   && w.Through? && Distinct(free)
                   && ToSet(free) == ToSet(old(free)) + InRange(old(owner), d, newsz / PGSIZE, Pages(oldsz)))
      ensures Shrinkable(old(mem), d, newsz, oldsz) ==>
                && w.Through? && Valid() && IsDir(owner, d) && Frames() == old(Frames())
                && TransitKept(|mem|, old(owner), old(free), owner, free) && OnlyIn(old(owner), owner, d)
                && (newsz < oldsz ==>
                      RangeFreed(old(mem), old(owner), mem, owner, d, newsz / PGSIZE, Pages(oldsz)))
    {
      hide RangeFreed, Owned, FreeList, TransitKept, Memory.Frames, KernelClear, ToSet, Distinct, InRange;
      if newsz >= oldsz {
        TransitSelf(|mem|, owner, free);
        return oldsz, Through;
      }
      r := newsz;
      ghost var mem0, owner0, free0 := mem, owner, free;
      var lo, hi := newsz / PGSIZE, (oldsz + PGSIZE - 1) / PGSIZE;
      var mid := if lo >= USERPAGES then lo else if hi <= USERPAGES then hi else USERPAGES;
      FreeUserPages(d, lo, mid, hi);
      ghost var mem1, owner1, free1 := mem, owner, free;
      if hi <= USERPAGES {
        NoKernelPages(mem0, d, lo, hi);
        return newsz, Through;
      }
      RangeKernel(mem0, owner0, mem, owner, d, lo, mid, hi);
      w := FreeKernelPages(d, mid, hi);
      MoreFrames(mem1, owner1, first, free1, free);
      if oldsz > UINT - PGSIZE {
        w := if w.Through? then Lost else w;
      }
    }

    /** The part of deallocuvm's range that lies in the user half. */
    method FreeUserPages(d: nat, lo: nat, mid: nat, ghost hi: nat)
      requires Valid() && IsDir(owner, d) && d < |mem| && lo <= mid <= hi
      requires mid == if lo >= USERPAGES then lo else if hi <= USERPAGES then hi else USERPAGES
      modifies this`mem, this`free, this`owner
      ensures Valid() && IsDir(owner, d) && d < |mem| && |mem| == |old(mem)| && Frames() == old(Frames())
      ensures TransitKept(|mem|, old(owner), old(free), owner, free) && OnlyIn(old(owner), owner, d)
      ensures RangeFreed(old(mem), old(owner), mem, owner, d, lo, hi)
      ensures forall u: nat | USERPAGES <= u < PAGES :: Pte(mem, d, u) == Pte(old(mem), d, u)
      ensures Distinct(free) && ToSet(free) == ToSet(old(free)) + InRange(old(owner), d, lo, hi)
    {
      hide RangeFreed, Owned, TransitKept, ToSet, InRange, Distinct, Pte, FreeList;
      ghost var mem0, owner0, free0 := mem, owner, free;
      FreeIsRest();
      if lo < USERPAGES {
        FreePages(d, lo, mid);
      } else {
        RangeEmpty(mem, owner, first, d, lo);
        TransitSelf(|mem|, owner, free);
      }
      RangeWider(mem0, owner0, mem, owner, first, d, lo, mid, hi);
      RangeOnlyIn(mem0, owner0, mem, owner, d, lo, hi);
      FreeIsRest();
      RangeFrames(mem0, owner0, free0, mem, owner, free, first, d, lo, hi);
    }

    /** One page of the kernel half, if its entry is present: the frame goes to the free list, filled
        with junk, and then the entry is cleared, though the frame may have been its page table. A
        frame outside the allocator's is kfree's panic. */
    method FreeKernelPage(d: nat, v: nat) returns (w: Walk, struck: bool)
      requires d < |mem| && v < PAGES
      modifies this`mem, this`free
      ensures |mem| == |old(mem)|
      ensures !struck ==> mem == old(mem) && free == old(free)
      ensures var t := Ppn(old(mem)[d][v / 1024]);
              if !Present(old(mem)[d][v / 1024]) then w.Through? && !struck
              else if t >= |mem| then w.Lost? && !struck
              else
                var f := Ppn(old(mem)[t][v % 1024]);
                if !Present(old(mem)[t][v % 1024]) then w.Through? && !struck
                else if f < first || f >= |mem| then w.KfreePanic? && !struck
                else
                  && w.Through? && struck && free == [f] + old(free)
                  && var mem1 := old(mem)[f := Filled(0x0101_0101)];
                     mem == mem1[t := mem1[t][v % 1024 := 0]]
    {
      hide Present, Ppn, Filled;
      var pde := mem[d][v / ENTRIES];
      if !Present(pde) {
        return Through, false;
      }
      var t := Ppn(pde);
      if t >= |mem| {
        return Lost, false;
      }
      var pte := mem[t][v % ENTRIES];
      if !Present(pte) {
        return Through, false;
      }
      var f := Ppn(pte);
      if f < first || f >= |mem| {
        return KfreePanic, false;
      }
      mem := mem[f := Filled(JUNK)];
      free := [f] + free;
      mem := mem[t := mem[t][v % ENTRIES := 0]];
      return Through, true;
    }

    /** The part of deallocuvm's range that lies in the kernel half, as the machine runs it: page
        tables are read through whatever the frames hold by then. */
    method FreeKernelPages(d: nat, lo: nat, hi: nat) returns (w: Walk)
      requires Valid() && IsDir(owner, d) && d < |mem| && USERPAGES <= lo <= hi <= PAGES
      modifies this`mem, this`free
      ensures |mem| == |old(mem)|
      ensures KernelClear(old(mem), d, lo, hi) ==> w.Through? && mem == old(mem) && free == old(free)
      ensures !KernelClear(old(mem), d, lo, hi) ==> !w.Through? || |free| > |old(free)|
    {
      hide Owned, FreeList, Memory.Frames, Present, Ppn, Filled;
      ghost var mem0, free0, any := mem, free, false;
      var v := lo;
      while v < hi
        invariant lo <= v <= hi && |mem| == |mem0|
        invariant !any ==> mem == mem0 && free == free0 && KernelClear(mem0, d, lo, v)
        invariant any ==> |free| > |free0| && !KernelClear(mem0, d, lo, hi)
      {
        KernelEntry(mem0, owner, first, d, v);
        var struck;
        w, struck := FreeKernelPage(d, v);
        if !w.Through? {
          return;
        }
        any := any || struck;
        v := v + 1;
      }
      w := Through;
    }

    /** sys_sbrk: the size moves by n in 32-bit arithmetic; shrinking first gives the pages back. The
        old size comes back as an int, so that at the largest size success looks like failure. */
    method Sbrk(d: nat, sz: Word, n: int) returns (r: int, sz': Word, w: Walk)
      requires Valid() && IsDir(owner, d) && d < |mem| && -0x8000_0000 <= n < 0x8000_0000
      modifies this`mem, this`free, this`owner
      ensures var refused := n < 0 && (sz == 0 || sz + n == 0);
              && r == (if refused then -1 else Signed(sz)) && sz' == (if refused then sz else (sz + n) % UINT)
              && (r == -1 <==> refused || sz == UINT - 1)
      ensures n >= 0 || sz + n < 0 ==> w.Through? && mem == old(mem) && free == old(free) && owner == old(owner)
      ensures n < 0 <= sz + n ==>
                (Shrinkable(old(mem), d, sz + n, sz) <==>
                   && w.Through? && Distinct(free)
                   && ToSet(free) == ToSet(old(free)) + InRange(old(owner), d, (sz + n) / PGSIZE, Pages(sz)))
      ensures |mem| == |old(mem)|
      ensures n >= 0 || sz + n < 0 || Shrinkable(old(mem), d, sz + n, sz) ==>
                Valid() && IsDir(owner, d) && Frames() == old(Frames())
    {
      hide RangeFreed, Owned, FreeList, TransitKept, Memory.Frames, Shrinkable, ToSet, Distinct, InRange;
      w := Through;
      if n < 0 {
        var size;
        size, w := Deallocuvm(d, sz, (sz + n) % UINT);
        if size == 0 {
          return -1, sz, w;
        }
      }
      return Signed(sz), (sz + n) % UINT, w;
    }

    /** deallocuvm's loop, by page number: a < oldsz means that page a / PGSIZE starts below oldsz. */
    method FreePages(d: nat, lo: nat, hi: nat)
      requires Valid() && IsDir(owner, d) && d < |mem| && lo <= hi <= USERPAGES
      modifies this`mem, this`free, this`owner
      ensures Valid() && IsDir(owner, d) && d < |mem| && |mem| == |old(mem)| && Frames() == old(Frames())
      ensures TransitKept(|mem|, old(owner), old(free), owner, free)
      ensures RangeFreed(old(mem), old(owner), mem, owner, d, lo, hi)
    {
      hide Owned, ToSet, FreeList, RangeFreed, OneFreed, Memory.Frames, TransitKept;
      ghost var (mem0, owner0, free0) := (mem, owner, free);
      RangeEmpty(mem, owner, first, d, lo);
      TransitSelf(|mem|, owner, free);
      var v := lo;
      while v < hi
        invariant lo <= v <= hi
        invariant Valid() && IsDir(owner, d) && d < |mem| && |mem| == |mem0| && Frames() == old(Frames())
        invariant TransitKept(|mem|, owner0, free0, owner, free)
        invariant RangeFreed(mem0, owner0, mem, owner, d, lo, v)
      {
        ghost var (mem1, owner1, free1) := (mem, owner, free);
        FreePage(d, v);
        TransitTwice(|mem|, owner0, free0, owner1, free1, owner, free);
        RangeMore(mem0, owner0, mem1, owner1, mem, owner, d, lo, v);
        v := v + 1;
      }
    }

    /** freevm: every frame of the space, user page, page table and directory alike, is freed once;
        no other space changes. */
    method Freevm(d: nat)
      requires Valid() && IsDir(owner, d) && d < |mem|
      modifies this`mem, this`free, this`owner
      ensures Valid() && |mem| == |old(mem)| && Frames() == old(Frames())
      ensures owner == old(owner) - Space(old(owner), d)
      ensures ToSet(free) == ToSet(old(free)) + Space(old(owner), d)
      ensures SameSpaces(old(mem), mem, owner)
      ensures TransitKept(|mem|, old(owner), old(free), owner, free)
    {
      hide Owned, ToSet, FreeList, RangeFreed, TransitKept, SameSpaces, Space;
      ghost var (mem0, owner0, free0) := (mem, owner, free);
      FreePages(d, 0, USERPAGES);
      ghost var (mem1, owner1, free1) := (mem, owner, free);
      NoUserLeft(mem0, owner0, mem1, owner1, first, d);
      FreeTables(d);
      SpacesAfterRange(mem0, owner0, mem1, owner1, mem, owner, d);
      TransitAfter(|mem|, owner0, free0, owner1, free1, owner, free, d);
      FreedFrames(mem0, owner0, free0, owner1, free1, mem, owner, free, first, d);
    }

    /** freevm's loop over the directory, and the directory itself. */
    method FreeTables(d: nat)
      requires Valid() && IsDir(owner, d) && d < |mem|
      requires forall f | f in owner :: owner[f].User? ==> owner[f].dir != d
      modifies this`mem, this`free, this`owner
      ensures Valid() && |mem| == |old(mem)|
      ensures owner == old(owner) - Space(old(owner), d)
      ensures ToSet(free) == ToSet(old(free)) + Space(old(owner), d)
      ensures SameSpaces(old(mem), mem, owner)
    {
      hide Owned, ToSet, SameSpaces, Filled, FreeList, Space, TablesBelow;
      ghost var mem0, owner0, free0 := mem, owner, free;
      SpaceIn(owner, d);
      DropSpace(mem, mem, owner, first, d);
      owner := owner - Space(owner, d);
      FreeFewer(mem, owner0, owner, first, free);
      DirLast(mem0, owner0, first, free0, d);
      TableLoop(d, owner0);
      NotFree(d, free, free0, TablesBelow(owner0, d, ENTRIES));
      Release(d, mem0);
    }

    /** freevm's loop over the directory: the page tables, which no longer belong to a space. */
    method TableLoop(d: nat, ghost owner0: Owner)
      requires Valid() && IsDir(owner0, d) && d < |mem| && Owned(mem, owner0, first)
               && FreeList(mem, owner0, first, free)
      requires owner == owner0 - Space(owner0, d)
      modifies this`mem, this`free
      ensures Valid() && |mem| == |old(mem)| && ToSet(free) == ToSet(old(free)) + TablesBelow(owner0, d, ENTRIES)
      ensures SameSpaces(old(mem), mem, owner)
    {
      hide Owned, ToSet, SameSpaces, Present, Ppn, Filled, FreeList, Space, TablesBelow;
      ghost var mem0, free0 := mem, free;
      TablesBelowNone(owner0, d);
      SpacesSelf(mem, owner, first);
      var i := 0;
      while i < ENTRIES
        invariant 0 <= i <= ENTRIES
        invariant Valid() && |mem| == |mem0| && SameSpaces(mem0, mem, owner) && mem[d] == mem0[d]
        invariant ToSet(free) == ToSet(free0) + TablesBelow(owner0, d, i)
      {
        TableStep(mem0, owner0, first, free0, d, i);
        if Present(mem[d][i]) {
          var t := Ppn(mem[d][i]);
          NotFree(t, free, free0, TablesBelow(owner0, d, i));
          Release(t, mem0);
        }
        i := i + 1;
      }
    }

    /** kfree of a frame that has left its space. */
    method Release(f: nat, ghost mem0: seq<Frame>)
      requires Valid() && first <= f < |mem| == |mem0| && f !in owner && f !in free && SameSpaces(mem0, mem, owner)
      modifies this`mem, this`free
      ensures Valid() && |mem| == |old(mem)| && ToSet(free) == ToSet(old(free)) + {f}
      ensures SameSpaces(mem0, mem, owner) && forall g: nat | g < |mem| && g != f :: mem[g] == old(mem)[g]
    {
      hide Owned, ToSet, SameSpaces, Filled, FreeList;
      ghost var mem1, free1 := mem, free;
      Kfree(f);
      ToSetCons(f, free1);
      SpacesTwice(mem0, mem1, mem, owner);
    }

    /** One turn of deallocuvm's loop. */
    method FreePage(d: nat, v: nat)
      requires Valid() && IsDir(owner, d) && d < |mem| && v < USERPAGES
      modifies this`mem, this`free, this`owner
      ensures Valid() && IsDir(owner, d) && d < |mem| && |mem| == |old(mem)| && Frames() == old(Frames())
      ensures TransitKept(|mem|, old(owner), old(free), owner, free)
      ensures OneFreed(old(mem), old(owner), mem, owner, d, v)
    {
      hide Owned, ToSet, FreeList, SameSpaces, SameExcept, Present, Ppn, Pte, OneFreed, Filled;
      ghost var (mem0, owner0) := (mem, owner);
      NothingFreed(mem, owner, first, d, v);
      var t := Walkpgdir(d, v, false);
      if t.None? {
        NoTable(mem, d, v);
        return;
      }
      PteIs(mem, d, v);
      var pte := mem[t.value][v % ENTRIES];
      if Present(pte) {
        Unmap(d, v);
        ghost var mem1 := mem;
        Kfree(Ppn(pte));
        FreedAfter(mem0, mem1, mem, owner0, owner, first, d, v);
      }
    }

    /** Clear the entry of a mapped page; its frame is then in transit. */
    method Unmap(d: nat, v: nat)
      requires Valid() && IsDir(owner, d) && d < |mem| && v < USERPAGES && Mapped(mem, d, v)
      modifies this`mem, this`owner
      ensures Valid() && IsDir(owner, d) && |mem| == |old(mem)|
      ensures var f := Ppn(Pte(old(mem), d, v));
              && first <= f < |mem| && f in old(owner) && old(owner)[f] == User(d, v)
              && owner == old(owner) - {f} && f !in free && Frames() == old(Frames()) - {f}
      ensures SameExcept(old(mem), mem, old(owner), d, v) && Pte(mem, d, v) == 0
    {
      hide Owned, ToSet, SameExcept, Present, Ppn;
      PageOwned(mem, owner, first, d, v);
      UnmapUser(mem, owner, first, d, v, mem[Ppn(Pte(mem, d, v))]);
      var t := Ppn(mem[d][v / ENTRIES]);
      ghost var f := Ppn(Pte(mem, d, v));
      assert mem[f := mem[f]] == mem;
      mem := mem[t := mem[t][v % ENTRIES := 0]];
      owner := owner - {f};
    }

    /** mappages over a range of kernel pages, requests base .. of the whole map: they are not owned,
        so only page tables are used up. It stops at request n when it cannot go on. */
    method MapKernelRange(d: nat, k: Kmap, ghost reqs: seq<Request>, ghost base: nat, ghost budget: nat,
                          ghost mem0: seq<Frame>, ghost owner0: Owner)
      returns (r: MapResult, ghost n: nat)
      requires Valid() && Spawned(mem0, owner0, mem, owner, d) && d < |mem| && k.Valid()
      requires base + |k.Line()| <= |reqs| && reqs[base..base + |k.Line()|] == k.Line()
      requires Laid(mem, |free|, d, reqs, base, budget)
      modifies this`mem, this`free, this`owner
      ensures Valid() && Spawned(mem0, owner0, mem, owner, d) && |mem| == |old(mem)| && Frames() == old(Frames())
      ensures Laid(mem, |free|, d, reqs, n, budget)
      ensures r.Done? ==> n == base + |k.Line()|
      ensures !r.Done? ==> StopsAt(reqs, n, |free|, r)
    {
      hide Owned, ToSet, FreeList, Spawned, Laid, Memory.Frames, SameExcept, Entry, Present, Pte, Slots, Kmap.Line;
      var v, last, p := k.virt / PGSIZE, k.Last(), k.physStart / PGSIZE;
      n := base;
      LineAt(k, reqs, base, 0);
      while true
        invariant USERPAGES <= v <= last < PAGES && 0 <= p && p + last - v < PAGES
        invariant base <= n < base + |k.Line()| <= |reqs| && n - base == v - k.virt / PGSIZE == p - k.physStart / PGSIZE
        invariant reqs[n] == Request(v, p, k.perm)
        invariant Valid() && Spawned(mem0, owner0, mem, owner, d) && d < |mem| == |old(mem)|
                  && Frames() == old(Frames())
        invariant Laid(mem, |free|, d, reqs, n, budget)
        decreases last - v
      {
        SpawnedDir(mem0, owner0, mem, owner, d);
        ghost var mem1, owner1, free1 := mem, owner, |free|;
        LaidPage(mem, |free|, d, reqs, n, budget);
        r := MapPage(d, v, p, k.perm);
        if !r.Done? {
          return;
        }
        SpawnedStep(mem0, owner0, mem1, owner1, mem, owner, d, v);
        LaidMore(mem1, free1, mem, |free|, owner1, d, reqs, n, budget);
        n := n + 1;
        if v == last {
          break;
        }
        v, p := v + 1, p + 1;
        LineAt(k, reqs, base, n - base);
      }
      r := Done;
    }

    /** setupkvm: a new address space whose present pages are exactly the kernel's, mapped as the
        kernel's memory map says. It panics exactly when two pages of the map fall together, and
        fails exactly when there are too few frames for the directory and its page tables; then
        everything taken is given back. */
    method Setupkvm(kmap: seq<Kmap>) returns (r: Option<nat>, panicked: bool)
      requires Valid() && forall k | 0 <= k < |kmap| :: kmap[k].Valid()
      modifies this`mem, this`free, this`owner
      ensures Valid() && |mem| == |old(mem)| && Frames() == old(Frames())
      ensures var reqs := Requests(kmap); var c := ClashAt(reqs);
              && (r.Some? <==> c == |reqs| && |old(free)| > |SlotsOf(reqs)|)
              && (panicked <==> c < |reqs| && |old(free)| > |SlotsOf(reqs[..c])|)
      ensures !panicked && r.None? ==>
                owner == old(owner) && ToSet(free) == ToSet(old(free)) && SameSpaces(old(mem), mem, owner)
      ensures r.Some? ==>
                && r.value < |mem| && Spawned(old(mem), old(owner), mem, owner, r.value)
                && KernelMap(mem, r.value, Requests(kmap)) && KernelHalf(mem, r.value, kmap)
                && |free| + 1 + |SlotsOf(Requests(kmap))| == |old(free)|
    {
      hide Owned, ToSet, FreeList, Spawned, SameSpaces, Kmap.Valid, TransitKept, Filled, Memory.Frames;
      hide ClashAt, KernelMap, SlotsOf, PagesOf, Requests, Fresh, KernelHalf;
      panicked := false;
      ghost var mem0, owner0 := mem, owner;
      FreeIsRest();
      var d := ZeroFrame();
      if d.None? {
        SpacesSelf(mem, owner, first);
        return None, false;
      }
      StartSpace(d.value, mem0);
      assert Frames() == old(Frames());
      var m := FillDirectory(d.value, kmap, mem0, owner0);
      if m.Done? {
        KernelPages(mem, d.value, kmap);
        return d, false;
      }
      panicked := m.Remap?;
      if m.NoMemory? {
        Abandon(d.value, mem0, owner0);
      }
      r := None;
    }

    /** The kernel's mappings for a new directory. */
    method FillDirectory(d: nat, kmap: seq<Kmap>, ghost mem0: seq<Frame>, ghost owner0: Owner) returns (r: MapResult)
      requires Valid() && Spawned(mem0, owner0, mem, owner, d) && d < |mem| && mem[d] == Filled(0)
      requires forall k | 0 <= k < |kmap| :: kmap[k].Valid()
      modifies this`mem, this`free, this`owner
      ensures Valid() && Spawned(mem0, owner0, mem, owner, d) && |mem| == |old(mem)| && Frames() == old(Frames())
      ensures var reqs := Requests(kmap); var c := ClashAt(reqs);
              && (r.Done? <==> c == |reqs| && |old(free)| >= |SlotsOf(reqs)|)
              && (r.Remap? <==> c < |reqs| && |old(free)| >= |SlotsOf(reqs[..c])|)
              && (r.Done? ==> KernelMap(mem, d, reqs) && |free| + |SlotsOf(reqs)| == |old(free)|)
    {
      hide Owned, FreeList, Spawned, Kmap.Valid, Filled, Memory.Frames;
      hide Laid, ClashAt, KernelMap, SlotsOf, PagesOf, Requests, Fresh, StopsAt;
      LaidNone(mem, |free|, d, Requests(kmap));
      ghost var n;
      r, n := MapKernelAll(d, kmap, |free|, mem0, owner0);
      Outcome(mem, |free|, d, Requests(kmap), n, |old(free)|, r);
    }

    /** setupkvm's loop over the kernel's memory map. */
    method MapKernelAll(d: nat, kmap: seq<Kmap>, ghost budget: nat, ghost mem0: seq<Frame>, ghost owner0: Owner)
      returns (r: MapResult, ghost n: nat)
      requires Valid() && Spawned(mem0, owner0, mem, owner, d) && d < |mem|
      requires forall k | 0 <= k < |kmap| :: kmap[k].Valid()
      requires Laid(mem, |free|, d, Requests(kmap), 0, budget)
      modifies this`mem, this`free, this`owner
      ensures Valid() && Spawned(mem0, owner0, mem, owner, d) && |mem| == |old(mem)| && Frames() == old(Frames())
      ensures Laid(mem, |free|, d, Requests(kmap), n, budget)
      ensures r.Done? ==> n == |Requests(kmap)|
      ensures !r.Done? ==> StopsAt(Requests(kmap), n, |free|, r)
    {
      hide Owned, ToSet, FreeList, Spawned, Kmap.Valid, Memory.Frames, Laid, Requests, Kmap.Line;
      ghost var reqs := Requests(kmap);
      var k := 0;
      n := 0;
      RequestsAt(kmap, 0);
      while k < |kmap|
        invariant 0 <= k <= |kmap| && d < |mem| == |old(mem)| && n == |Requests(kmap[..k])|
        invariant Valid() && Spawned(mem0, owner0, mem, owner, d) && Frames() == old(Frames())
        invariant Laid(mem, |free|, d, reqs, n, budget)
      {
        RequestsAt(kmap, k);
        r, n := MapKernelRange(d, kmap[k], reqs, n, budget, mem0, owner0);
        if !r.Done? {
          return;
        }
        k := k + 1;
      }
      assert kmap[..k] == kmap;
      r := Done;
    }

    /** freevm on a space under construction: everything is as before it was started. */
    method Abandon(d: nat, ghost mem0: seq<Frame>, ghost owner0: Owner)
      requires Valid() && Spawned(mem0, owner0, mem, owner, d) && d < |mem| == |mem0|
      modifies this`mem, this`free, this`owner
      ensures Valid() && |mem| == |old(mem)| && Frames() == old(Frames())
      ensures owner == owner0 && SameSpaces(mem0, mem, owner) && ToSet(free) == old(Frames()) - owner.Keys
      ensures TransitKept(|mem|, old(owner), old(free), owner, free)
    {
      hide Owned, ToSet, FreeList, Spawned, SameSpaces, Space, TransitKept, Memory.Frames;
      SpawnedDir(mem0, owner0, mem, owner, d);
      ghost var (mem1, owner1) := (mem, owner);
      Freevm(d);
      Unspawned(mem0, owner0, mem1, owner1, mem, owner, d);
      FreeIsRest();
    }

    /** The zeroed frame becomes a page directory. */
    method StartSpace(d: nat, ghost mem0: seq<Frame>)
      requires Valid() && first <= d < |mem| && d !in owner && d !in free
      requires |mem0| == |mem| && Owned(mem0, owner, first) && mem == mem0[d := Filled(0)]
      modifies this`owner
      ensures Valid() && Spawned(mem0, old(owner), mem, owner, d) && mem[d] == Filled(0)
              && Frames() == old(Frames()) + {d}
    {
      hide Owned, ToSet, Pte, Page;
      NewDir(mem0, owner, first, d);
      ghost var owner0 := owner;
      owner := owner[d := Dir];
      assert Space(owner, d) == {d} by { NoStrangers(mem0, owner0, first, d); }
      AbsentZero();
    }

    /** copyuvm: a child space with the same pages, permissions and contents as the parent, on frames
        of its own. It fails exactly when the free list is shorter than the directory, the kernel's
        page tables, the pages to copy and the page tables for them; the half-made child is then
        taken down again. A frame is lost on the way exactly when the list runs down to one frame
        at a page whose page table the child does not have yet. */
    method Copyuvm(d: nat, kmap: seq<Kmap>) returns (r: Option<nat>, ghost leaked: set<nat>, panicked: bool)
      requires Valid() && IsDir(owner, d) && d < |mem| && forall k | 0 <= k < |kmap| :: kmap[k].Valid()
      modifies this`mem, this`free, this`owner
      ensures Valid() && |mem| == |old(mem)| && Frames() == old(Frames()) - leaked
      ensures var reqs := Requests(kmap); var c := ClashAt(reqs);
              && (panicked <==> c < |reqs| && |old(free)| > |SlotsOf(reqs[..c])|)
              && (r.Some? <==> c == |reqs| && |old(free)| >= 1 + |SlotsOf(reqs)| + CopyCost(old(mem), d, USERPAGES))
              && (leaked != {} <==>
                    c == |reqs| && LosesSome(old(mem), d, |old(free)| - 1 - |SlotsOf(reqs)|))
      ensures r.Some? ==>
                && leaked == {} && r.value < |mem| && r.value != d
                && Spawned(old(mem), old(owner), mem, owner, r.value)
                && KernelHalf(mem, r.value, kmap)
                && forall u: nat | u < USERPAGES :: SamePage(old(mem), d, mem, r.value, u)
      ensures !panicked && r.None? ==>
                && owner == old(owner) && SameSpaces(old(mem), mem, owner)
                && |leaked| <= 1 && ToSet(free) == ToSet(old(free)) - leaked
    {
      hide Owned, ToSet, FreeList, Spawned, SameSpaces, Kmap.Valid, Memory.Frames, CopiedBelow, SamePage, TransitKept;
      hide ClashAt, KernelMap, SlotsOf, PagesOf, Requests, Fresh, CopyPaid, LosesSome, CopyCost, KernelHalf, KernelSame;
      ghost var mem0, owner0, free0, reqs := mem, owner, |free|, Requests(kmap);
      FreeIsRest();
      leaked := {};
      r, panicked := Setupkvm(kmap);
      if r.None? {
        NothingLost(mem0, d, free0 - 1 - |SlotsOf(reqs)|);
        return;
      }
      var c := r.value;
      CopiedNone(mem0, owner0, mem, owner, d, c, reqs);
      CopyPaidNone(mem0, mem, |free|, d, c, reqs);
      ghost var mem1 := mem;
      var ok;
      ok, leaked := CopyPages(d, c, reqs, |free|, mem0, owner0);
      if !ok {
        Abandon(c, mem0, owner0);
        assert old(Frames()) - leaked - owner.Keys == old(Frames()) - owner.Keys - leaked;
        return None, leaked, false;
      }
      CopiedAll(mem0, owner0, d, mem, owner, c);
      KernelKept(mem1, mem, c, kmap);
    }

    /** copyuvm's loop. */
    method CopyPages(d: nat, c: nat, ghost reqs: seq<Request>, ghost budget: nat, ghost mem0: seq<Frame>,
                     ghost owner0: Owner)
      returns (ok: bool, ghost leaked: set<nat>)
      requires Valid() && IsDir(owner0, d) && c < |mem| == |mem0|
      requires Spawned(mem0, owner0, mem, owner, c) && CopiedBelow(mem0, d, mem, c, 0)
      requires CopyPaid(mem0, mem, |free|, d, c, reqs, 0, budget)
      modifies this`mem, this`free, this`owner
      ensures Valid() && Spawned(mem0, owner0, mem, owner, c) && |mem| == |old(mem)| && d < |mem0|
      ensures Frames() == old(Frames()) - leaked && |leaked| <= 1
      ensures ok <==> budget >= CopyCost(mem0, d, USERPAGES)
      ensures leaked != {} <==> LosesSome(mem0, d, budget)
      ensures ok ==> leaked == {} && CopiedBelow(mem0, d, mem, c, USERPAGES) && KernelSame(old(mem), mem, c)
    {
      hide Owned, ToSet, FreeList, Spawned, SameSpaces, Memory.Frames, CopiedBelow, CopyPaid, LosesSome, CopyCost, Pte;
      hide KernelSame;
      KernelSelf(mem, c);
      SpawnedOld(mem0, owner0, mem, owner, c, d, 0);
      leaked := {};
      var v := 0;
      while v < USERPAGES
        invariant 0 <= v <= USERPAGES && c < |mem| == |mem0| && leaked == {}
        invariant Valid() && Spawned(mem0, owner0, mem, owner, c) && Frames() == old(Frames())
        invariant CopiedBelow(mem0, d, mem, c, v) && CopyPaid(mem0, mem, |free|, d, c, reqs, v, budget)
        invariant KernelSame(old(mem), mem, c)
      {
        ghost var mem1, free1 := mem, |free|;
        CopyPaidPage(mem0, mem, |free|, d, c, reqs, v, budget);
        ok, leaked := CopyPage(d, c, v, mem0, owner0);
        if !ok {
          return;
        }
        CopyPaidMore(mem0, mem1, free1, mem, |free|, d, c, reqs, v, budget);
        KernelTwice(old(mem), mem1, mem, c);
        v := v + 1;
      }
      CopyPaidAll(mem0, mem, |free|, d, c, reqs, budget);
      ok := true;
    }

    /** One turn of copyuvm's loop. */
    method CopyPage(d: nat, c: nat, v: nat, ghost mem0: seq<Frame>, ghost owner0: Owner)
      returns (ok: bool, ghost leaked: set<nat>)
      requires Valid() && IsDir(owner0, d) && d < |mem0| && c < |mem| == |mem0| && v < USERPAGES
      requires Spawned(mem0, owner0, mem, owner, c) && CopiedBelow(mem0, d, mem, c, v)
      modifies this`mem, this`free, this`owner
      ensures Valid() && Spawned(mem0, owner0, mem, owner, c) && |mem| == |old(mem)|
      ensures Frames() == old(Frames()) - leaked && |leaked| <= 1
      ensures var table := if v / ENTRIES in Slots(old(mem), c) then 0 else 1;
              && (ok <==> Mapped(mem0, d, v) ==> |old(free)| >= 1 + table)
              && (leaked != {} <==> Mapped(mem0, d, v) && |old(free)| == 1 == table)
      ensures ok ==> leaked == {} && CopiedBelow(mem0, d, mem, c, v + 1) && KernelSame(old(mem), mem, c)
      ensures ok && Mapped(mem0, d, v) ==> TableThere(old(mem), |old(free)| - 1, mem, |free|, c, v / ENTRIES)
      ensures !Mapped(mem0, d, v) ==> mem == old(mem) && free == old(free)
    {
      hide Owned, ToSet, FreeList, Spawned, SameSpaces, Memory.Frames, CopiedBelow, SamePage, Present, Ppn, Pte, Filled;
      hide Entry, KernelSame;
      KernelSelf(mem, c);
      leaked := {};
      SpawnedOld(mem0, owner0, mem, owner, c, d, v);
      var t := Walkpgdir(d, v, false);
      if t.None? {
        NoTable(mem, d, v);
        CopiedSkip(mem0, owner0, d, mem, owner, c, v);
        return true, {};
      }
      PteIs(mem, d, v);
      var pte := mem[t.value][v % ENTRIES];
      if !Present(pte) {
        CopiedSkip(mem0, owner0, d, mem, owner, c, v);
        return true, {};
      }
      PageOwned(mem, owner, first, d, v);
      var f := Kalloc();
      if f.None? {
        return false, {};
      }
      ok := CopyInto(d, c, v, f.value, pte, mem0, owner0);
      if !ok {
        leaked := {f.value};
      }
    }

    /** memmove into the new frame and mappages it into the child. */
    method CopyInto(d: nat, c: nat, v: nat, f: nat, pte: Word, ghost mem0: seq<Frame>, ghost owner0: Owner)
      returns (ok: bool)
      requires Valid() && IsDir(owner0, d) && c < |mem| == |mem0| && v < USERPAGES
      requires Spawned(mem0, owner0, mem, owner, c) && CopiedBelow(mem0, d, mem, c, v)
      requires IsDir(owner, d) && d < |mem| && Pte(mem, d, v) == pte && Present(pte) && Ppn(pte) < |mem|
      requires first <= f < |mem| && f !in owner && f !in free
      modifies this`mem, this`free, this`owner
      ensures Valid() && Spawned(mem0, owner0, mem, owner, c) && |mem| == |old(mem)|
      ensures ok <==> old(free) != [] || v / ENTRIES in Slots(old(mem), c)
      ensures ok ==> Frames() == old(Frames()) + {f} && CopiedBelow(mem0, d, mem, c, v + 1)
      ensures ok ==> KernelSame(old(mem), mem, c)
      ensures ok ==> TableThere(old(mem), |old(free)|, mem, |free|, c, v / ENTRIES)
      ensures !ok ==> Frames() == old(Frames())
    {
      hide Owned, ToSet, FreeList, Spawned, SameSpaces, SameExcept, CopiedBelow, SamePage, Present, Ppn, Pte, Entry;
      hide Grows, Memory.Frames, Slots;
      var pa := Ppn(pte);
      ghost var mem1 := mem;
      UnusedFrame(mem, owner, first, f, mem[pa]);
      FreeAnyway(mem, mem[f := mem[pa]], owner, first, free);
      mem := mem[f := mem[pa]];
      SpawnedFrame(mem0, owner0, mem1, mem, owner, c);
      ghost var mem2, owner2 := mem, owner;
      SpawnedDir(mem0, owner0, mem, owner, c);
      SameSlots(mem1, mem, c);
      NotYetCopied(mem0, d, mem1, mem, owner, c, v);
      CopySource(mem0, owner0, mem1, owner, first, c, d, v, pte, f);
      var r := MapPage(c, v, f, Flags(pte));
      if r.NoMemory? {
        return false;
      }
      SpawnedStep(mem0, owner0, mem2, owner2, mem, owner, c, v);
      CopiedMore(mem0, d, mem2, mem, owner2, c, v, f, pte);
      KernelAside(mem1, mem2, mem, owner2, c, v);
      return true;
    }

    /** allocuvm: 0 if the new size reaches the kernel half or memory runs out, the old size if the
        new one is smaller, otherwise the new size with every page up to it present; it panics on a
        page that is there already. Memory runs out exactly when the free list is shorter than
        GrowNeed. Growing changes nothing that any process sees. A failed attempt is rolled back
        with deallocuvm, which starts at the page that contains oldsz: so what the process sees
        survives exactly when everything from that page up to newsz was zeros. */
    method Allocuvm(d: nat, oldsz: Word, newsz: Word) returns (r: nat, ghost failed: bool, panicked: bool)
      requires Valid() && IsDir(owner, d) && d < |mem|
      modifies this`mem, this`free, this`owner
      ensures failed <==> oldsz < newsz < KERNBASE
                          && |old(free)| < GrowNeed(old(mem), d, Pages(oldsz), Pages(newsz))
      ensures panicked <==> oldsz < newsz < KERNBASE && !failed
                            && Reach(old(mem), d, Pages(oldsz), Pages(newsz)) < Pages(newsz)
      ensures r == if newsz >= KERNBASE || failed then 0 else if newsz < oldsz then oldsz else newsz
      ensures |mem| == |old(mem)|
      ensures !panicked ==> Valid() && IsDir(owner, d) && Frames() == old(Frames()) && OnlyIn(old(owner), owner, d)
      ensures !panicked && !failed ==> SameView(old(mem), mem, old(owner))
      ensures !panicked && !failed && newsz < KERNBASE ==>
                forall u: nat | Pages(oldsz) <= u < Pages(newsz) ::
                  Mapped(mem, d, u) && Writable(Pte(mem, d, u)) && Flags(Pte(mem, d, u)) == 7
      ensures failed ==> (SameView(old(mem), mem, old(owner)) <==>
                            forall u: nat | oldsz / PGSIZE <= u < Pages(newsz) :: Page(old(mem), d, u) == Filled(0))
      ensures failed ==> forall u: nat | oldsz / PGSIZE <= u < Pages(newsz) :: !Mapped(mem, d, u)
      ensures failed ==> RolledBack(old(mem), old(owner), mem, owner, d, oldsz / PGSIZE, Pages(newsz))
    {
      hide RolledBack;
      hide Owned, ToSet, FreeList, SameView, Alloced, Memory.Frames, Page, Pte, Filled, Space, Reach, GrowCost, Present;
      ghost var mem0, owner0 := mem, owner;
      ViewSelf(mem, owner, first);
      if newsz >= KERNBASE {
        return 0, false, false;
      }
      if newsz < oldsz {
        return oldsz, false, false;
      }
      NothingToDo(mem, d, oldsz, newsz);
      var g, v := AllocPages(d, Pages(oldsz), Pages(newsz));
      if g.Clash? {
        return newsz, false, true;
      }
      AllocedFacts(mem0, owner0, mem, owner, d, Pages(oldsz), v);
      if g.Got? {
        return newsz, false, false;
      }
      Rollback(d, oldsz, newsz, v, g, mem0, owner0);
      return 0, true, false;
    }

    /** What allocuvm does when memory runs out. */
    method Rollback(d: nat, oldsz: Word, newsz: Word, v: nat, g: Grab, ghost mem0: seq<Frame>, ghost owner0: Owner)
      requires Valid() && IsDir(owner, d) && d < |mem| == |mem0| && oldsz < newsz < KERNBASE && v <= Pages(newsz)
      requires Alloced(mem0, owner0, mem, owner, d, Pages(oldsz), v)
      requires g.Short? || (g.Stuck? && first <= g.f < |mem| && g.f !in owner && g.f !in free)
      modifies this`mem, this`free, this`owner
      ensures Valid() && IsDir(owner, d) && |mem| == |old(mem)|
      ensures Frames() == if g.Stuck? then old(Frames()) + {g.f} else old(Frames())
      ensures OnlyIn(owner0, owner, d)
      ensures SameView(mem0, mem, owner0) <==>
                forall u: nat | oldsz / PGSIZE <= u < Pages(newsz) :: Page(mem0, d, u) == Filled(0)
      ensures forall u: nat | oldsz / PGSIZE <= u < Pages(newsz) :: !Mapped(mem, d, u)
      ensures RolledBack(mem0, owner0, mem, owner, d, oldsz / PGSIZE, Pages(newsz))
    {
      hide Owned, ToSet, FreeList, SameView, Alloced, RangeFreed, Memory.Frames, Page, Pte, TransitKept, RolledBack;
      hide SameSpaces, Filled, OnlyIn;
      ghost var mem1, owner1, free1 := mem, owner, free;
      NoKernelPages(mem, d, oldsz / PGSIZE, Pages(newsz));
      var s, w := Deallocuvm(d, newsz, oldsz);
      RollsBack(mem0, owner0, mem1, owner1, mem, owner, d, Pages(oldsz), v, oldsz / PGSIZE, Pages(newsz));
      if g.Stuck? {
        ghost var mem2 := mem;
        TransitFrame(|mem|, owner1, free1, owner, free, g.f);
        Kfree(g.f);
        RolledOn(mem0, owner0, mem2, mem, owner, d, oldsz / PGSIZE, Pages(newsz));
      }
      RollbackMeaning(mem0, owner0, mem, owner, d, oldsz, newsz);
    }

    /** allocuvm's loop; stops at page v when it cannot go on. */
    method AllocPages(d: nat, lo: nat, hi: nat) returns (g: Grab, v: nat)
      requires Valid() && IsDir(owner, d) && d < |mem| && lo <= hi <= USERPAGES
      modifies this`mem, this`free, this`owner
      ensures Valid() && IsDir(owner, d) && d < |mem| == |old(mem)| && lo <= v <= hi
      ensures g.Got? <==> Reach(old(mem), d, lo, hi) == hi && |old(free)| >= GrowNeed(old(mem), d, lo, hi)
      ensures g.Clash? <==> Reach(old(mem), d, lo, hi) < hi && |old(free)| >= GrowNeed(old(mem), d, lo, hi)
      ensures !g.Clash? ==> Alloced(old(mem), old(owner), mem, owner, d, lo, v)
      ensures g.Got? || g.Short? ==> Frames() == old(Frames())
      ensures g.Got? ==> v == hi
      ensures g.Stuck? ==>
                && first <= g.f < |mem| && g.f !in owner && g.f !in free
                && g.f in old(Frames()) && Frames() == old(Frames()) - {g.f}
    {
      hide Owned, ToSet, FreeList, Alloced, Memory.Frames, Page, Pte, SameExcept, SameSpaces, Grows;
      hide Slots, Present, Reach, GrowNeed, Paid;
      ghost var mem0, owner0, free0 := mem, owner, |free|;
      AllocedNone(mem, owner, first, d, lo);
      PaidNone(mem, |free|, d, lo, hi);
      v := lo;
      g := Got(0);
      while v < hi
        invariant lo <= v <= hi && g.Got?
        invariant Valid() && IsDir(owner, d) && d < |mem| == |mem0| && Frames() == old(Frames())
        invariant Alloced(mem0, owner0, mem, owner, d, lo, v) && Paid(mem0, free0, mem, |free|, d, lo, v, hi)
      {
        ghost var mem1, owner1, free1 := mem, owner, |free|;
        AllocedAhead(mem0, owner0, mem, owner, d, lo, v);
        PaidPage(mem0, free0, mem, |free|, d, lo, v, hi);
        g := MapZero(d, v);
        match g
        case Short =>
          return;
        case Clash =>
          return;
        case Stuck(f) =>
          AllocedStuck(mem0, owner0, mem1, mem, owner, d, lo, v);
          return;
        case Got(f) =>
          AllocedMore(mem0, owner0, mem1, owner1, mem, owner, first, d, lo, v, f);
          PaidMore(mem0, free0, mem1, free1, mem, |free|, d, lo, v, hi);
          v := v + 1;
      }
      PaidAll(mem0, free0, mem, |free|, d, lo, hi);
    }

    /** One thing that can happen to an address space while its process lives. */
    method Happen(d: nat, op: Op) returns (halted: bool)
      requires Valid() && IsDir(owner, d) && d < |mem|
      modifies this`mem, this`free, this`owner
      ensures halted <==> OpHalts(old(mem), |old(free)|, d, op)
      ensures |mem| == |old(mem)|
      ensures !halted ==>
                && Valid() && IsDir(owner, d) && Frames() == old(Frames()) && OnlyIn(old(owner), owner, d)
                && OthersSame(old(mem), old(owner), mem, d) && OpEffect(old(mem), mem, d, op)
    {
      hide Owned, FreeList, SameView, Memory.Frames, OnlyIn, Page, Pte, RangeFreed, GrowNeed, Reach, ToSet, InRange;
      hide KernelClear, TransitKept, OthersSame, OpEffect, WordStored, RolledBack, SameSpaces, PageAdded, Slots;
      ghost var mem0, owner0 := mem, owner;
      ViewSelf(mem, owner, first);
      OnlyInSelf(owner, d);
      halted := false;
      match op
      case Grow(oldsz, newsz) =>
        ghost var failed;
        var r;
        r, failed, halted := Allocuvm(d, oldsz, newsz);
        if !halted {
          GrowEffect(mem0, owner0, mem, owner, d, oldsz, newsz, failed);
        }
      case Shrink(oldsz, newsz) =>
        var clear := Shrinkable(mem, d, newsz, oldsz);
        var r, w := Deallocuvm(d, oldsz, newsz);
        halted := !clear;
        if clear {
          ShrinkEffect(mem0, owner0, mem, owner, d, oldsz, newsz);
        }
      case Fault(sz, va) =>
        var killed := PageFault(d, sz, va);
        ViewEffect(mem0, owner0, mem, d, op);
      case Put(sz, va, w) =>
        var killed := Store(d, sz, va, w);
        if killed {
          ViewEffect(mem0, owner0, mem, d, op);
        } else {
          PutEffect(mem0, owner0, mem, d, sz, va, w);
        }
    }

    /** One step of a system with the address spaces `live`. An event of a space that is not there
        does not happen. */
    method Step(kmap: seq<Kmap>, live: set<nat>, e: Event)
      returns (live': set<nat>, ghost leaked: set<nat>, halted: bool)
      requires Valid() && (forall k | 0 <= k < |kmap| :: kmap[k].Valid()) && forall d | d in live :: IsDir(owner, d)
      modifies this`mem, this`free, this`owner
      ensures halted <==> Halts(kmap, Snap(old(mem), |old(free)|, live), e)
      ensures |leaked| <= if e.Fork? then 1 else 0
      ensures !halted ==>
                && Valid() && (forall d | d in live' :: IsDir(owner, d)) && Frames() == old(Frames()) - leaked
                && Rest(owner, live') == Rest(old(owner), live)
                && Follows(Snap(old(mem), |old(free)|, live), e, Snap(mem, |free|, live'))
    {
      hide Owned, FreeList, Memory.Frames, OnlyIn, Space, Spawned, SameSpaces, KernelMap, SlotsOf, Requests, ToSet;
      hide PagesOf, Fresh, ClashAt, Rest, SamePage, CopyCost, LosesSome, Kmap.Valid, TransitKept, Follows, OpHalts;
      hide OthersSame, OpEffect;
      live', leaked, halted := live, {}, false;
      ghost var mem0, owner0, free0 := mem, owner, |free|;
      SpacesSelf(mem, owner, first);
      NothingHappened(mem, owner, free0, live, e);
      match e
      case Start =>
        var c;
        c, halted := Setupkvm(kmap);
        if c.Some? {
          RestSpawned(mem0, owner0, mem, owner, first, live, c.value);
          live' := live + {c.value};
          StartFollows(mem0, owner0, free0, mem, owner, |free|, live, c.value, Requests(kmap));
        } else if !halted {
          NoneFollows(mem0, owner0, free0, mem, |free|, live, e);
        }
      case Fork(d) =>
        if d in live {
          DirInMemory(mem, owner, first, d);
          var c;
          c, leaked, halted := Copyuvm(d, kmap);
          if c.Some? {
            RestSpawned(mem0, owner0, mem, owner, first, live, c.value);
            live' := live + {c.value};
            ForkFollows(mem0, owner0, free0, mem, owner, |free|, live, d, c.value);
          } else if !halted {
            NoneFollows(mem0, owner0, free0, mem, |free|, live, e);
          }
        }
      case Act(d, op) =>
        if d in live {
          DirInMemory(mem, owner, first, d);
          halted := Happen(d, op);
          if !halted {
            RestOnlyIn(owner0, owner, live, d);
            ActFollows(mem0, owner0, free0, mem, |free|, live, d, op);
          }
        }
      case Exit(d) =>
        if d in live {
          DirInMemory(mem, owner, first, d);
          Freevm(d);
          RestGone(owner0, owner, live, d);
          live' := live - {d};
          ExitFollows(mem0, owner, free0, mem, |free|, live, d);
        }
    }

    /** Any run of any number of address spaces, whatever interleaving of setupkvm, copyuvm, growing,
        shrinking, page faults, stores and freevm takes place, failed or not. Step by step, each
        process sees what its own events did to its memory and nothing else. Once all spaces are
        gone exactly those frames are free that were free, less the ones that failed copies lost.
        The run stops early exactly at an event that Halts says. */
    method Lifetimes(kmap: seq<Kmap>, events: seq<Event>)
      returns (halted: bool, ghost leaked: set<nat>, ghost trace: seq<Snap>)
      requires Valid() && forall k | 0 <= k < |kmap| :: kmap[k].Valid()
      modifies this`mem, this`free, this`owner
      ensures IsTrace(kmap, events, trace) && trace[0] == Snap(old(mem), |old(free)|, {})
      ensures halted <==> |trace| <= |events| && Halts(kmap, trace[|trace| - 1], events[|trace| - 1])
      ensures !halted ==> |trace| == |events| + 1
      ensures |leaked| <= Forks(events)
      ensures !halted ==> Valid() && owner == old(owner) && ToSet(free) == ToSet(old(free)) - leaked
    {
      hide Owned, FreeList, Memory.Frames, ToSet, Rest, Kmap.Valid, Halts, Forks, IsTrace;
      FreeIsRest();
      ghost var owner0 := owner;
      var live;
      live, halted, leaked, trace := RunEvents(kmap, events);
      if halted {
        return;
      }
      FreeAll(live, owner0);
      FreeIsRest();
      LostBoth(old(Frames()), leaked, owner.Keys);
      LostBoth(old(Frames()), owner.Keys, leaked);
    }

    /** The events one after the other, from no spaces on. */
    method RunEvents(kmap: seq<Kmap>, events: seq<Event>)
      returns (live: set<nat>, halted: bool, ghost leaked: set<nat>, ghost trace: seq<Snap>)
      requires Valid() && forall k | 0 <= k < |kmap| :: kmap[k].Valid()
      modifies this`mem, this`free, this`owner
      ensures IsTrace(kmap, events, trace) && trace[0] == Snap(old(mem), |old(free)|, {})
      ensures halted <==> |trace| <= |events| && Halts(kmap, trace[|trace| - 1], events[|trace| - 1])
      ensures !halted ==> |trace| == |events| + 1
      ensures |leaked| <= Forks(events)
      ensures !halted ==>
                && Valid() && (forall d | d in live :: IsDir(owner, d))
                && Frames() == old(Frames()) - leaked && Rest(owner, live) == old(owner)
    {
      hide Owned, FreeList, Memory.Frames, Rest, Kmap.Valid, Halts, Forks, Follows, IsTrace;
      NoForks(events);
      TraceStart(kmap, events, Snap(mem, |free|, {}));
      RestNone(owner);
      ghost var owner0 := owner;
      live := {};
      leaked, trace := {}, [Snap(mem, |free|, live)];
      var k := 0;
      while k < |events|
        invariant 0 <= k <= |events| && Valid() && (forall d | d in live :: IsDir(owner, d))
        invariant Frames() == old(Frames()) - leaked && Rest(owner, live) == owner0 && |leaked| <= Forks(events[..k])
        invariant IsTrace(kmap, events, trace) && |trace| == k + 1
        invariant trace[0] == Snap(old(mem), |old(free)|, {}) && trace[k] == Snap(mem, |free|, live)
      {
        ghost var lost;
        live, lost, halted := Step(kmap, live, events[k]);
        ForksNext(events, k);
        ForksMore(events, k + 1);
        LostBoth(old(Frames()), leaked, lost);
        leaked := leaked + lost;
        if halted {
          return;
        }
        TraceMore(kmap, events, trace, Snap(mem, |free|, live));
        trace := trace + [Snap(mem, |free|, live)];
        k := k + 1;
      }
      assert events[..k] == events;
      halted := false;
    }

    /** freevm of every space that is left. */
    method FreeAll(all: set<nat>, ghost owner0: Owner)
      requires Valid() && (forall d | d in all :: IsDir(owner, d)) && Rest(owner, all) == owner0
      modifies this`mem, this`free, this`owner
      ensures Valid() && owner == owner0 && Frames() == old(Frames())
    {
      hide Owned, FreeList, Memory.Frames, Space, SameSpaces, ToSet, Rest, TransitKept;
      var live := all;
      while live != {}
        invariant Valid() && (forall d | d in live :: IsDir(owner, d))
        invariant Frames() == old(Frames()) && Rest(owner, live) == owner0
        decreases |live|
      {
        var d :| d in live;
        ghost var owner1 := owner;
        DirInMemory(mem, owner, first, d);
        Freevm(d);
        RestGone(owner1, owner, live, d);
        live := live - {d};
      }
      RestNone(owner);
    }
  }

  type Aligned = a: int | 0 <= a < UINT && a % 4 == 0

  /** growing, shrinking, a page fault, and a store, by the process of a space. */
  datatype Op =
    | Grow(oldsz: Word, newsz: Word)
    | Shrink(oldsz: Word, newsz: Word)
    | Fault(sz: Word, va: Word)
    | Put(sz: Word, at: Aligned, w: Word)

  /** A new space, a copy of one, something happening in one, or the end of one. */
  datatype Event = Start | Fork(d: nat) | Act(d: nat, op: Op) | Exit(d: nat)

  /** Memory, the length of the free list, and the spaces there are. */
  datatype Snap = Snap(mem: seq<Frame>, free: nat, live: set<nat>)

  /** The operation stops the kernel, or leaves it with a broken free list: growing onto a page that
      is there, with frames enough to get to it, and shrinking over kernel pages. */
  ghost predicate OpHalts(mem: seq<Frame>, free: nat, d: nat, op: Op)
    requires d < |mem|
  {
    match op
    case Grow(oldsz, newsz) =>
      && oldsz < newsz < KERNBASE && free >= GrowNeed(mem, d, Pages(oldsz), Pages(newsz))
      && Reach(mem, d, Pages(oldsz), Pages(newsz)) < Pages(newsz)
    case Shrink(oldsz, newsz) => !Shrinkable(mem, d, newsz, oldsz)
    case Fault(_, _) => false
    case Put(_, _, _) => false
  }

  /** setupkvm meets two requests for one page before it runs out of frames. */
  ghost predicate MapPanics(kmap: seq<Kmap>, free: nat)
    requires forall k | 0 <= k < |kmap| :: kmap[k].Valid()
  {
    var reqs := Requests(kmap);
    ClashAt(reqs) < |reqs| && free > |SlotsOf(reqs[..ClashAt(reqs)])|
  }

  ghost predicate Halts(kmap: seq<Kmap>, s: Snap, e: Event)
    requires forall k | 0 <= k < |kmap| :: kmap[k].Valid()
  {
    match e
    case Start => MapPanics(kmap, s.free)
    case Fork(d) => d in s.live && MapPanics(kmap, s.free)
    case Act(d, op) => d in s.live && d < |s.mem| && OpHalts(s.mem, s.free, d, op)
    case Exit(_) => false
  }

  /** What processes that stay within bounds cannot meet: a map with overlapping lines, growing onto a
      page that is there, shrinking from above KERNBASE. */
  lemma {:induction false} HaltsOnly(kmap: seq<Kmap>, s: Snap, e: Event)
    requires (forall k | 0 <= k < |kmap| :: kmap[k].Valid()) && Halts(kmap, s, e)
    ensures e.Start? || e.Fork? ==> !Apart(kmap)
    ensures e.Act? && e.op.Grow? ==>
              exists u: nat :: Pages(e.op.oldsz) <= u < Pages(e.op.newsz) && u < USERPAGES && Mapped(s.mem, e.d, u)
    ensures e.Act? ==> (e.op.Grow? || e.op.Shrink?) && (e.op.Shrink? ==> e.op.oldsz > KERNBASE)
    ensures !e.Exit?
  {
    ClashIffOverlap(kmap);
    hide ClashAt, SlotsOf, PagesOf, Fresh, Pte, Requests;
    if e.Act? && e.op.Grow? {
      assert Mapped(s.mem, e.d, Reach(s.mem, e.d, Pages(e.op.oldsz), Pages(e.op.newsz)));
    }
    if e.Act? && e.op.Shrink? && e.op.oldsz <= KERNBASE {
      NoKernelPages(s.mem, e.d, e.op.newsz / PGSIZE, Pages(e.op.oldsz));
    }
  }

  /** No space but d sees a difference. */
  ghost predicate OthersSame(mem: seq<Frame>, owner: Owner, mem': seq<Frame>, d: nat) {
    && |mem'| == |mem| && (forall e: nat | IsDir(owner, e) :: e < |mem|)
    && forall e: nat, v: nat | IsDir(owner, e) && e != d && v < USERPAGES :: Page(mem', e, v) == Page(mem, e, v)
  }

  /** What the process itself sees of its operation. */
  ghost predicate OpEffect(mem: seq<Frame>, mem': seq<Frame>, d: nat, op: Op)
    requires d < |mem| == |mem'|
  {
    match op
    case Grow(oldsz, newsz) =>
      forall v: nat | v < USERPAGES :: Page(mem', d, v) == Page(mem, d, v)
        || (oldsz < newsz && oldsz / PGSIZE <= v < Pages(newsz) && Page(mem', d, v) == Filled(0))
    case Shrink(oldsz, newsz) =>
      forall v: nat | v < USERPAGES ::
        Page(mem', d, v) == if newsz < oldsz && newsz / PGSIZE <= v < Pages(oldsz) then Filled(0) else Page(mem, d, v)
    case Fault(_, _) =>
      forall v: nat | v < USERPAGES :: Page(mem', d, v) == Page(mem, d, v)
    case Put(_, va, w) =>
      || (forall v: nat | v < USERPAGES :: Page(mem', d, v) == Page(mem, d, v))
      || (va < KERNBASE && forall v: nat | v < USERPAGES ::
            Page(mem', d, v) == if v == va / PGSIZE then Page(mem, d, v)[va % PGSIZE / 4 := w] else Page(mem, d, v))
  }

  /** The spaces in `live` see no difference. */
  ghost predicate SameFor(mem: seq<Frame>, mem': seq<Frame>, live: set<nat>) {
    && |mem'| == |mem| && (forall e | e in live :: e < |mem|)
    && forall e: nat, v: nat | e in live && v < USERPAGES :: Page(mem', e, v) == Page(mem, e, v)
  }

  /** Space c is new in t and shows what space d showed in s, or nothing but zeros. */
  ghost predicate Born(s: Snap, t: Snap, c: nat, from: Option<nat>) {
    && c !in s.live && t.live == s.live + {c} && c < |t.mem| && (from.Some? ==> from.value < |s.mem|)
    && forall v: nat | v < USERPAGES ::
         Page(t.mem, c, v) == if from.Some? then Page(s.mem, from.value, v) else Filled(0)
  }

  /** What event e does to the memories that the processes see. */
  ghost predicate Follows(s: Snap, e: Event, t: Snap) {
    && SameFor(s.mem, t.mem, s.live - if e.Act? || e.Exit? then {e.d} else {})
    && match e
       case Start => t.live == s.live || exists c: nat :: Born(s, t, c, None)
       case Fork(d) => t.live == s.live || (d in s.live && exists c: nat :: Born(s, t, c, Some(d)))
       case Act(d, op) => t.live == s.live && (d in s.live ==> d < |s.mem| == |t.mem| && OpEffect(s.mem, t.mem, d, op))
       case Exit(d) => t.live == s.live - {d}
  }

  /** A run of the first |trace| - 1 events. */
  ghost predicate IsTrace(kmap: seq<Kmap>, events: seq<Event>, trace: seq<Snap>)
    requires forall k | 0 <= k < |kmap| :: kmap[k].Valid()
    ensures IsTrace(kmap, events, trace) ==> 0 < |trace| <= |events| + 1
  {
    && 0 < |trace| <= |events| + 1
    && forall k | 0 <= k < |trace| - 1 ::
         !Halts(kmap, trace[k], events[k]) && Follows(trace[k], events[k], trace[k + 1])
  }

  lemma TraceStart(kmap: seq<Kmap>, events: seq<Event>, s: Snap)
    requires forall k | 0 <= k < |kmap| :: kmap[k].Valid()
    ensures IsTrace(kmap, events, [s])
  {
  }

  lemma {:induction false} TraceMore(kmap: seq<Kmap>, events: seq<Event>, trace: seq<Snap>, t: Snap)
    requires (forall k | 0 <= k < |kmap| :: kmap[k].Valid()) && IsTrace(kmap, events, trace) && |trace| <= |events|
    requires var k := |trace| - 1; !Halts(kmap, trace[k], events[k]) && Follows(trace[k], events[k], t)
    ensures IsTrace(kmap, events, trace + [t])
  {
    hide Halts, Follows;
    var all := trace + [t];
    forall k | 0 <= k < |all| - 1 ensures !Halts(kmap, all[k], events[k]) && Follows(all[k], events[k], all[k + 1]) {
      if k < |trace| - 1 {
        assert Follows(trace[k], events[k], trace[k + 1]);
      }
    }
  }

  lemma GrowEffect(mem: seq<Frame>, owner: Owner, mem': seq<Frame>, owner': Owner, d: nat, oldsz: Word, newsz: Word,
                   failed: bool)
    requires IsDir(owner, d) && d < |mem| == |mem'|
    requires if failed then oldsz < newsz && RolledBack(mem, owner, mem', owner', d, oldsz / PGSIZE, Pages(newsz))
             else SameView(mem, mem', owner)
    ensures OthersSame(mem, owner, mem', d) && OpEffect(mem, mem', d, Grow(oldsz, newsz))
  {
    hide Pte, Present;
    if failed {
      forall v: nat | oldsz / PGSIZE <= v < Pages(newsz) && v < USERPAGES ensures Page(mem', d, v) == Filled(0) {
        assert !Mapped(mem', d, v);
      }
    }
    hide Page;
  }

  lemma ShrinkEffect(mem: seq<Frame>, owner: Owner, mem': seq<Frame>, owner': Owner, d: nat, oldsz: Word, newsz: Word)
    requires IsDir(owner, d) && d < |mem| == |mem'| && SameView(mem, mem, owner)
    requires if newsz >= oldsz then mem' == mem
             else RangeFreed(mem, owner, mem', owner', d, newsz / PGSIZE, Pages(oldsz))
    ensures OthersSame(mem, owner, mem', d) && OpEffect(mem, mem', d, Shrink(oldsz, newsz))
  {
    hide Pte, Present;
    if newsz < oldsz {
      forall v: nat | newsz / PGSIZE <= v < Pages(oldsz) && v < USERPAGES ensures Page(mem', d, v) == Filled(0) {
        assert !Mapped(mem', d, v);
      }
    }
    hide Page;
  }

  lemma ViewEffect(mem: seq<Frame>, owner: Owner, mem': seq<Frame>, d: nat, op: Op)
    requires IsDir(owner, d) && d < |mem| == |mem'| && SameView(mem, mem', owner) && (op.Fault? || op.Put?)
    ensures OthersSame(mem, owner, mem', d) && OpEffect(mem, mem', d, op)
  {
    hide Page;
  }

  lemma PutEffect(mem: seq<Frame>, owner: Owner, mem': seq<Frame>, d: nat, sz: Word, va: Aligned, w: Word)
    requires IsDir(owner, d) && d < |mem| == |mem'| && va < KERNBASE
    requires WordStored(mem, mem', owner, d, va / PGSIZE, va % PGSIZE / 4, w)
    ensures OthersSame(mem, owner, mem', d) && OpEffect(mem, mem', d, Put(sz, va, w))
  {
    hide Page;
  }

  lemma NothingHappened(mem: seq<Frame>, owner: Owner, free: nat, live: set<nat>, e: Event)
    requires SameSpaces(mem, mem, owner) && forall d | d in live :: IsDir(owner, d)
    ensures (e.Fork? || e.Act? || e.Exit?) && e.d !in live ==> Follows(Snap(mem, free, live), e, Snap(mem, free, live))
  {
    hide Page, Pte;
  }

  lemma NoneFollows(mem: seq<Frame>, owner: Owner, free: nat, mem': seq<Frame>, free': nat, live: set<nat>, e: Event)
    requires SameSpaces(mem, mem', owner) && (forall d | d in live :: IsDir(owner, d)) && (e.Start? || e.Fork?)
    ensures Follows(Snap(mem, free, live), e, Snap(mem', free', live))
  {
    hide Page, Pte;
  }

  lemma StartFollows(mem: seq<Frame>, owner: Owner, free: nat, mem': seq<Frame>, owner': Owner, free': nat,
                     live: set<nat>, c: nat, reqs: seq<Request>)
    requires Spawned(mem, owner, mem', owner', c) && KernelMap(mem', c, reqs) && forall d | d in live :: IsDir(owner, d)
    ensures Follows(Snap(mem, free, live), Start, Snap(mem', free', live + {c}))
  {
    hide Pte, Space, Slots, Entry;
    forall v: nat | v < USERPAGES ensures Page(mem', c, v) == Filled(0) {
      assert !Mapped(mem', c, v);
    }
    hide Page, KernelMap;
    assert Born(Snap(mem, free, live), Snap(mem', free', live + {c}), c, None);
  }

  lemma ForkFollows(mem: seq<Frame>, owner: Owner, free: nat, mem': seq<Frame>, owner': Owner, free': nat,
                    live: set<nat>, d: nat, c: nat)
    requires Spawned(mem, owner, mem', owner', c) && d in live && forall d | d in live :: IsDir(owner, d)
    requires d < |mem| && c < |mem'| && forall u: nat | u < USERPAGES :: SamePage(mem, d, mem', c, u)
    ensures Follows(Snap(mem, free, live), Fork(d), Snap(mem', free', live + {c}))
  {
    hide Pte, Space, Page;
    forall v: nat | v < USERPAGES ensures Page(mem', c, v) == Page(mem, d, v) {
      assert SamePage(mem, d, mem', c, v);
    }
    hide SamePage;
    assert Born(Snap(mem, free, live), Snap(mem', free', live + {c}), c, Some(d));
  }

  lemma ActFollows(mem: seq<Frame>, owner: Owner, free: nat, mem': seq<Frame>, free': nat, live: set<nat>,
                   d: nat, op: Op)
    requires OthersSame(mem, owner, mem', d) && d < |mem| == |mem'| && OpEffect(mem, mem', d, op)
    requires d in live && forall e | e in live :: IsDir(owner, e)
    ensures Follows(Snap(mem, free, live), Act(d, op), Snap(mem', free', live))
  {
    hide Page, OpEffect;
  }

  lemma ExitFollows(mem: seq<Frame>, owner': Owner, free: nat, mem': seq<Frame>, free': nat, live: set<nat>, d: nat)
    requires SameSpaces(mem, mem', owner') && forall e | e in live - {d} :: IsDir(owner', e)
    ensures Follows(Snap(mem, free, live), Exit(d), Snap(mem', free', live - {d}))
  {
    hide Page, Pte;
  }

  ghost function Forks(events: seq<Event>): nat {
    if events == [] then 0 else Forks(events[..|events| - 1]) + if events[|events| - 1].Fork? then 1 else 0
  }

  lemma NoForks(events: seq<Event>)
    ensures Forks(events[..0]) == 0
  {
  }

  lemma ForksNext(events: seq<Event>, k: nat)
    requires k < |events|
    ensures Forks(events[..k + 1]) == Forks(events[..k]) + if events[k].Fork? then 1 else 0
  {
    assert events[..k + 1][..k] == events[..k];
  }

  lemma {:induction false} ForksMore(events: seq<Event>, k: nat)
    requires k <= |events|
    ensures Forks(events[..k]) <= Forks(events)
    decreases |events| - k
  {
    if k < |events| {
      ForksNext(events, k);
      ForksMore(events, k + 1);
    } else {
      assert events[..k] == events;
    }
  }

  lemma LostBoth(all: set<nat>, a: set<nat>, b: set<nat>)
    ensures all - a - b == all - (a + b) == all - (b + a) && |a + b| <= |a| + |b|
  {
    assert all - a - b == all - (a + b);
    assert a + b == b + a;
    assert a + b == a + (b - a);
    SubsetSize(b - a, b);
  }

  /** What belongs to no live space. */
  ghost function Rest(owner: Owner, live: set<nat>): Owner {
    map f | f in owner && SpaceOf(owner, f) !in live :: owner[f]
  }

  lemma RestNone(owner: Owner)
    ensures Rest(owner, {}) == owner
  {
  }

  lemma DirInMemory(mem: seq<Frame>, owner: Owner, first: nat, d: nat)
    requires Owned(mem, owner, first) && IsDir(owner, d)
    ensures d < |mem|
  {
  }

  lemma RestOnlyIn(owner: Owner, owner': Owner, live: set<nat>, d: nat)
    requires OnlyIn(owner, owner', d) && d in live && IsDir(owner', d) && forall e | e in live :: IsDir(owner, e)
    ensures Rest(owner', live) == Rest(owner, live) && forall e | e in live :: IsDir(owner', e)
  {
    var a, b := owner - Space(owner, d), owner' - Space(owner', d);
    forall f ensures f in Rest(owner, live) <==> f in Rest(owner', live) {
      assert f in a <==> f in b;
    }
    forall f | f in Rest(owner, live) ensures owner'[f] == owner[f] {
      assert a[f] == b[f];
    }
    forall e | e in live && e != d ensures IsDir(owner', e) {
      assert e in a && a[e] == b[e];
    }
  }

  lemma RestSpawned(mem: seq<Frame>, owner: Owner, mem': seq<Frame>, owner': Owner, first: nat, live: set<nat>, c: nat)
    requires Owned(mem, owner, first) && Spawned(mem, owner, mem', owner', c) && forall e | e in live :: IsDir(owner, e)
    ensures Rest(owner', live + {c}) == Rest(owner, live) && forall e | e in live + {c} :: IsDir(owner', e)
  {
    NoStrangers(mem, owner, first, c);
    hide Owned, SameSpaces;
    var b := owner' - Space(owner', c);
    forall f ensures f in Rest(owner, live) <==> f in Rest(owner', live + {c}) {
      assert f in owner <==> f in b;
      assert f in owner ==> f !in Space(owner, c);
    }
    forall f | f in Rest(owner, live) ensures owner'[f] == owner[f] {
      assert owner[f] == b[f];
    }
    forall e | e in live ensures IsDir(owner', e) {
      assert e in b && b[e] == owner[e];
    }
  }

  lemma RestGone(owner: Owner, owner': Owner, live: set<nat>, d: nat)
    requires owner' == owner - Space(owner, d) && d in live && forall e | e in live :: IsDir(owner, e)
    ensures Rest(owner', live - {d}) == Rest(owner, live) && forall e | e in live - {d} :: IsDir(owner', e)
  {
  }

  lemma OnlyInSelf(owner: Owner, d: nat)
    ensures OnlyIn(owner, owner, d)
  {
  }

  /** PGROUNDUP, in pages. */
  function Pages(size: nat): (n: nat)
    ensures 4096 * (n - 1) < size <= 4096 * n
  {
    (size + PGSIZE - 1) / PGSIZE
  }

  /** Pages lo .. v - 1 of space d, absent before, now hold fresh zeros; nothing else has changed. */
  ghost predicate Alloced(mem0: seq<Frame>, owner0: Owner, mem: seq<Frame>, owner: Owner, d: nat, lo: nat, v: nat) {
    && SameView(mem0, mem, owner0) && IsDir(owner0, d) && OnlyIn(owner0, owner, d)
    && (forall e: nat | IsDir(owner0, e) :: IsDir(owner, e))
    && (forall e: nat, u: nat | IsDir(owner0, e) && u < PAGES && !(e == d && lo <= u < v) ::
      Pte(mem, e, u) == Pte(mem0, e, u))
    && (forall u: nat | lo <= u < v && u < USERPAGES :: Mapped(mem, d, u) && Flags(Pte(mem, d, u)) == PERM_WU + 1)
  }

  lemma ViewSelf(mem: seq<Frame>, owner: Owner, first: nat)
    requires Owned(mem, owner, first)
    ensures SameView(mem, mem, owner)
  {
    hide Page;
  }

  lemma AllocedNone(mem: seq<Frame>, owner: Owner, first: nat, d: nat, lo: nat)
    requires Owned(mem, owner, first) && IsDir(owner, d)
    ensures Alloced(mem, owner, mem, owner, d, lo, lo)
  {
    hide Page, Pte;
  }

  lemma AllocedFacts(mem0: seq<Frame>, owner0: Owner, mem: seq<Frame>, owner: Owner, d: nat, lo: nat, v: nat)
    requires Alloced(mem0, owner0, mem, owner, d, lo, v) && v <= USERPAGES
    ensures d < |mem| && SameView(mem0, mem, owner0) && OnlyIn(owner0, owner, d)
    ensures forall u: nat | lo <= u < v ::
              Mapped(mem, d, u) && Writable(Pte(mem, d, u)) && Flags(Pte(mem, d, u)) == 7
  {
    hide Page, Pte;
  }

  /** Pages from v on are as they were. */
  lemma AllocedAhead(mem0: seq<Frame>, owner0: Owner, mem: seq<Frame>, owner: Owner, d: nat, lo: nat, v: nat)
    requires Alloced(mem0, owner0, mem, owner, d, lo, v) && v < USERPAGES
    ensures d < |mem| == |mem0| && (Mapped(mem, d, v) <==> Mapped(mem0, d, v))
  {
    hide Page, Pte;
    assert Pte(mem, d, v) == Pte(mem0, d, v);
  }

  lemma AllocedStuck(mem0: seq<Frame>, owner0: Owner, mem1: seq<Frame>, mem: seq<Frame>, owner: Owner, d: nat, lo: nat,
                     v: nat)
    requires Alloced(mem0, owner0, mem1, owner, d, lo, v) && SameSpaces(mem1, mem, owner) && v < USERPAGES
    ensures Alloced(mem0, owner0, mem, owner, d, lo, v)
  {
    hide Page, Pte;
    forall e: nat, u: nat | IsDir(owner0, e) && u < USERPAGES ensures Page(mem, e, u) == Page(mem0, e, u) {
      assert Page(mem1, e, u) == Page(mem0, e, u);
    }
    forall e: nat, u: nat | IsDir(owner0, e) && u < PAGES && !(e == d && lo <= u < v)
      ensures Pte(mem, e, u) == Pte(mem0, e, u)
    {
      assert Pte(mem1, e, u) == Pte(mem0, e, u);
    }
    forall u: nat | lo <= u < v ensures Mapped(mem, d, u) && Flags(Pte(mem, d, u)) == PERM_WU + 1 {
      assert Mapped(mem1, d, u) && Pte(mem, d, u) == Pte(mem1, d, u);
    }
  }

  lemma AllocedMore(mem0: seq<Frame>, owner0: Owner, mem1: seq<Frame>, owner1: Owner, mem: seq<Frame>, owner: Owner,
                    first: nat,
                    d: nat, lo: nat, v: nat, f: nat)
    requires Alloced(mem0, owner0, mem1, owner1, d, lo, v) && lo <= v < USERPAGES && |mem| <= PAGES
    requires d < |mem1| && !Mapped(mem1, d, v) && SameExcept(mem1, mem, owner1, d, v) && Grows(owner1, owner, d, v, f)
    requires f < |mem| && mem[f] == Filled(0) && Pte(mem, d, v) == Entry(f, PERM_WU)
    ensures Alloced(mem0, owner0, mem, owner, d, lo, v + 1)
  {
    ZeroPageView(mem1, mem, owner1, first, d, v, f);
    assert Flags(Entry(f, PERM_WU)) == PERM_WU + 1 by { EntryParts(f, PERM_WU + 1); }
    hide Page, Pte, Entry, Flags, Filled;
    assert forall e: nat | IsDir(owner1, e) :: IsDir(owner, e);
    OnlySpace(owner1, owner, d, v);
    forall e: nat, u: nat | IsDir(owner0, e) && u < USERPAGES ensures Page(mem, e, u) == Page(mem0, e, u) {
      assert Page(mem1, e, u) == Page(mem0, e, u);
    }
    forall e: nat, u: nat | IsDir(owner0, e) && u < PAGES && !(e == d && lo <= u < v + 1)
      ensures Pte(mem, e, u) == Pte(mem0, e, u)
    {
      assert Pte(mem1, e, u) == Pte(mem0, e, u);
    }
    forall u: nat | lo <= u < v + 1 ensures Mapped(mem, d, u) && Flags(Pte(mem, d, u)) == PERM_WU + 1 {
      if u < v {
        assert Mapped(mem1, d, u) && Pte(mem, d, u) == Pte(mem1, d, u);
      }
    }
  }

  /** Relative to mem0, pages lo .. hi - 1 of space d are gone and no other page looks different. */
  ghost predicate RolledBack(mem0: seq<Frame>, owner0: Owner, mem: seq<Frame>, owner: Owner, d: nat, lo: nat, hi: nat) {
    && |mem| == |mem0| && IsDir(owner0, d) && OnlyIn(owner0, owner, d)
    && (forall e: nat | IsDir(owner0, e) :: IsDir(owner, e) && e < |mem|)
    && (forall e: nat, u: nat | IsDir(owner0, e) && u < USERPAGES && !(e == d && lo <= u < hi) ::
      Page(mem, e, u) == Page(mem0, e, u))
    && (forall u: nat | lo <= u < hi && u < USERPAGES :: !Mapped(mem, d, u))
  }

  lemma RollsBack(mem0: seq<Frame>, owner0: Owner, mem1: seq<Frame>, owner1: Owner, mem2: seq<Frame>, owner2: Owner,
                  d: nat, up: nat, v: nat, lo: nat, hi: nat)
    requires Alloced(mem0, owner0, mem1, owner1, d, up, v) && RangeFreed(mem1, owner1, mem2, owner2, d, lo, hi)
    ensures RolledBack(mem0, owner0, mem2, owner2, d, lo, hi)
  {
    hide Page, Pte;
    RangeOnlyIn(mem1, owner1, mem2, owner2, d, lo, hi);
    forall e: nat | IsDir(owner0, e) ensures IsDir(owner2, e) && e < |mem2| {
    }
    forall e: nat, u: nat | IsDir(owner0, e) && u < USERPAGES && !(e == d && lo <= u < hi)
      ensures Page(mem2, e, u) == Page(mem0, e, u)
    {
      assert Page(mem1, e, u) == Page(mem0, e, u);
    }
  }

  lemma RolledOn(mem0: seq<Frame>, owner0: Owner, mem1: seq<Frame>, mem2: seq<Frame>, owner: Owner, d: nat, lo: nat,
                 hi: nat)
    requires RolledBack(mem0, owner0, mem1, owner, d, lo, hi) && SameSpaces(mem1, mem2, owner)
    ensures RolledBack(mem0, owner0, mem2, owner, d, lo, hi)
  {
    hide Page, Pte, Present;
    forall e: nat, u: nat | IsDir(owner0, e) && u < USERPAGES && !(e == d && lo <= u < hi)
      ensures Page(mem2, e, u) == Page(mem0, e, u)
    {
      assert Page(mem1, e, u) == Page(mem0, e, u);
    }
    forall u: nat | lo <= u < hi && u < USERPAGES ensures !Mapped(mem2, d, u) {
      assert !Mapped(mem1, d, u);
    }
  }

  lemma TransitFrame(n: nat, owner: Owner, free: seq<nat>, owner': Owner, free': seq<nat>, f: nat)
    requires TransitKept(n, owner, free, owner', free') && f < n && f !in owner && f !in free
    ensures f !in owner' && f !in free'
  {
  }

  lemma RollbackMeaning(mem0: seq<Frame>, owner0: Owner, mem: seq<Frame>, owner: Owner, d: nat, oldsz: nat, newsz: nat)
    requires RolledBack(mem0, owner0, mem, owner, d, oldsz / PGSIZE, Pages(newsz)) && oldsz < newsz < KERNBASE
    ensures OnlyIn(owner0, owner, d)
    ensures SameView(mem0, mem, owner0) <==>
              forall u: nat | oldsz / PGSIZE <= u < Pages(newsz) :: Page(mem0, d, u) == Filled(0)
    ensures forall u: nat | oldsz / PGSIZE <= u < Pages(newsz) :: !Mapped(mem, d, u)
  {
    hide Pte;
    forall u: nat | oldsz / PGSIZE <= u < Pages(newsz) ensures Page(mem, d, u) == Filled(0) {
      assert !Mapped(mem, d, u);
    }
    hide Page, Present;
  }

  /** The present user pages below v. */
  ghost function PresentBelow(mem: seq<Frame>, d: nat, v: nat): (s: set<nat>)
    requires d < |mem|
  {
    set u: nat | u < v && u < USERPAGES && Mapped(mem, d, u)
  }

  /** The page tables that a set of pages needs. */
  ghost function TablesFor(pages: set<nat>): (s: set<nat>) {
    set u | u in pages :: u / ENTRIES
  }

  /** The frames it takes to copy the pages below v: the pages, and page tables for them. */
  ghost function CopyCost(mem: seq<Frame>, d: nat, v: nat): nat
    requires d < |mem|
  {
    |PresentBelow(mem, d, v)| + |TablesFor(PresentBelow(mem, d, v))|
  }

  /** With this budget, one frame is left for page v, which needs a page table as well. */
  ghost predicate LosesFrame(mem: seq<Frame>, d: nat, budget: int, v: nat)
    requires d < |mem|
  {
    && v < USERPAGES && Mapped(mem, d, v) && v / ENTRIES !in TablesFor(PresentBelow(mem, d, v))
    && budget == CopyCost(mem, d, v) + 1
  }

  ghost predicate LosesSome(mem: seq<Frame>, d: nat, budget: int)
    requires d < |mem|
  {
    exists v: nat :: LosesFrame(mem, d, budget, v)
  }

  lemma CopyCostNext(mem: seq<Frame>, d: nat, v: nat)
    requires d < |mem| && v < USERPAGES
    ensures !Mapped(mem, d, v) ==> PresentBelow(mem, d, v + 1) == PresentBelow(mem, d, v)
    ensures Mapped(mem, d, v) ==>
              var tables := TablesFor(PresentBelow(mem, d, v));
              && TablesFor(PresentBelow(mem, d, v + 1)) == tables + {v / ENTRIES}
              && CopyCost(mem, d, v + 1) == CopyCost(mem, d, v) + 1 + if v / ENTRIES in tables then 0 else 1
  {
    hide Pte, Present;
    var a, b := PresentBelow(mem, d, v), PresentBelow(mem, d, v + 1);
    if Mapped(mem, d, v) {
      assert b == a + {v};
      forall i ensures i in TablesFor(b) <==> i in TablesFor(a) + {v / ENTRIES} {
        if i in TablesFor(b) {
          var u :| u in b && u / ENTRIES == i;
        }
        assert v in b;
      }
      OneMoreTable(TablesFor(a), {}, v / ENTRIES);
      assert TablesFor(a) - {} == TablesFor(a) && TablesFor(a) + {v / ENTRIES} - {} == TablesFor(b);
    } else {
      assert b == a;
    }
  }

  lemma CopyCostMono(mem: seq<Frame>, d: nat, v: nat, w: nat)
    requires d < |mem| && v <= w
    ensures CopyCost(mem, d, v) <= CopyCost(mem, d, w)
  {
    hide Pte, Present;
    SubsetSize(PresentBelow(mem, d, v), PresentBelow(mem, d, w));
    SubsetSize(TablesFor(PresentBelow(mem, d, v)), TablesFor(PresentBelow(mem, d, w)));
  }

  /** A page that loses its frame is where the copy stops: neither before nor past it does the
      budget run down that way. */
  lemma LostHere(mem: seq<Frame>, d: nat, budget: int, v: nat, w: nat)
    requires d < |mem| && LosesFrame(mem, d, budget, v) && w <= USERPAGES
    ensures w > v ==> budget < CopyCost(mem, d, w)
    ensures w < v && Mapped(mem, d, w) ==> budget > CopyCost(mem, d, w) + 1
  {
    hide Pte, Present, CopyCost, PresentBelow, TablesFor;
    CopyCostNext(mem, d, v);
    if w > v {
      CopyCostMono(mem, d, v + 1, w);
    } else if w < v && Mapped(mem, d, w) {
      CopyCostNext(mem, d, w);
      CopyCostMono(mem, d, w + 1, v);
    }
  }

  lemma NothingLost(mem: seq<Frame>, d: nat, budget: int)
    requires d < |mem|
    ensures budget <= 0 ==> !LosesSome(mem, d, budget)
  {
  }

  /** The child's page tables are the kernel's and those of the pages copied so far, and the budget
      has been spent on the latter. */
  ghost predicate CopyPaid(mem0: seq<Frame>, mem: seq<Frame>, free: nat, d: nat, c: nat, reqs: seq<Request>, v: nat,
                           budget: nat) {
    && d < |mem0| && c < |mem| && v <= USERPAGES
    && (forall i | i in SlotsOf(reqs) :: i >= USERPAGES / ENTRIES)
    && Slots(mem, c) == SlotsOf(reqs) + TablesFor(PresentBelow(mem0, d, v))
    && free + CopyCost(mem0, d, v) == budget
  }

  lemma CopyPaidNone(mem0: seq<Frame>, mem: seq<Frame>, free: nat, d: nat, c: nat, reqs: seq<Request>)
    requires d < |mem0| && KernelMap(mem, c, reqs)
    ensures CopyPaid(mem0, mem, free, d, c, reqs, 0, free)
  {
    hide Pte, Present;
    assert PresentBelow(mem0, d, 0) == {};
    assert TablesFor({}) == {};
  }

  /** At page v: whether it can be had, and what is lost if not. */
  lemma CopyPaidPage(mem0: seq<Frame>, mem: seq<Frame>, free: nat, d: nat, c: nat, reqs: seq<Request>, v: nat,
                     budget: nat)
    requires CopyPaid(mem0, mem, free, d, c, reqs, v, budget) && v < USERPAGES
    ensures var table := if v / ENTRIES in Slots(mem, c) then 0 else 1;
            Mapped(mem0, d, v) && free < 1 + table ==>
              && budget < CopyCost(mem0, d, USERPAGES)
              && (free == 1 == table <==> LosesSome(mem0, d, budget))
  {
    hide Pte, Present, CopyCost, PresentBelow, TablesFor, Slots, SlotsOf;
    assert v / ENTRIES < USERPAGES / ENTRIES;
    CopyCostNext(mem0, d, v);
    CopyCostMono(mem0, d, v + 1, USERPAGES);
    if w: nat :| LosesFrame(mem0, d, budget, w) {
      LostHere(mem0, d, budget, w, v);
    }
    assert Mapped(mem0, d, v) && free == 1 && v / ENTRIES !in Slots(mem, c) ==> LosesFrame(mem0, d, budget, v);
  }

  lemma CopyPaidMore(mem0: seq<Frame>, mem1: seq<Frame>, free1: nat, mem: seq<Frame>, free: nat, d: nat, c: nat,
                     reqs: seq<Request>, v: nat, budget: nat)
    requires CopyPaid(mem0, mem1, free1, d, c, reqs, v, budget) && v < USERPAGES && c < |mem|
    requires if Mapped(mem0, d, v) then free1 > 0 && TableThere(mem1, free1 - 1, mem, free, c, v / ENTRIES)
             else mem == mem1 && free == free1
    ensures CopyPaid(mem0, mem, free, d, c, reqs, v + 1, budget)
  {
    hide Pte, Present, PresentBelow, TablesFor, Slots, SlotsOf;
    CopyCostNext(mem0, d, v);
    if Mapped(mem0, d, v) {
      var k, t, i := SlotsOf(reqs), TablesFor(PresentBelow(mem0, d, v)), v / ENTRIES;
      assert i < USERPAGES / ENTRIES;
      OneMoreTable(k + t, {}, i);
      assert k + t - {} == k + t && k + t + {i} - {} == k + (t + {i});
    }
  }

  lemma CopyPaidAll(mem0: seq<Frame>, mem: seq<Frame>, free: nat, d: nat, c: nat, reqs: seq<Request>, budget: nat)
    requires CopyPaid(mem0, mem, free, d, c, reqs, USERPAGES, budget)
    ensures budget >= CopyCost(mem0, d, USERPAGES)
    ensures !LosesSome(mem0, d, budget)
  {
    hide Pte, Present, CopyCost, PresentBelow, TablesFor, Slots, SlotsOf;
    if v: nat :| LosesFrame(mem0, d, budget, v) {
      LostHere(mem0, d, budget, v, USERPAGES);
    }
  }

  /** Page v of space c in mem' is a copy of page v of space d in mem. */
  ghost predicate SamePage(mem: seq<Frame>, d: nat, mem': seq<Frame>, c: nat, v: nat)
    requires d < |mem| && c < |mem'| && v < USERPAGES
  {
    && (Mapped(mem', c, v) <==> Mapped(mem, d, v))
    && (Mapped(mem, d, v) ==>
      Flags(Pte(mem', c, v)) == Flags(Pte(mem, d, v)) && Ppn(Pte(mem', c, v)) != Ppn(Pte(mem, d, v)))
    && Page(mem', c, v) == Page(mem, d, v)
  }

  ghost predicate CopiedBelow(mem: seq<Frame>, d: nat, mem': seq<Frame>, c: nat, v: nat) {
    && d < |mem| && c < |mem'|
    && (forall u: nat | u < v && u < USERPAGES :: SamePage(mem, d, mem', c, u))
    && (forall u: nat | v <= u < USERPAGES :: !Mapped(mem', c, u))
  }

  lemma CopiedNone(mem0: seq<Frame>, owner0: Owner, mem: seq<Frame>, owner: Owner, d: nat, c: nat, reqs: seq<Request>)
    requires Spawned(mem0, owner0, mem, owner, c) && KernelMap(mem, c, reqs) && IsDir(owner0, d)
    ensures CopiedBelow(mem0, d, mem, c, 0)
  {
    hide Pte, Page;
  }

  lemma CopiedAll(mem0: seq<Frame>, owner0: Owner, d: nat, mem: seq<Frame>, owner: Owner, c: nat)
    requires Spawned(mem0, owner0, mem, owner, c) && IsDir(owner0, d) && CopiedBelow(mem0, d, mem, c, USERPAGES)
    ensures c != d && d < |mem0| && c < |mem| && forall u: nat | u < USERPAGES :: SamePage(mem0, d, mem, c, u)
  {
    hide SamePage, SameSpaces;
  }

  lemma SpawnedOld(mem0: seq<Frame>, owner0: Owner, mem: seq<Frame>, owner: Owner, c: nat, d: nat, v: nat)
    requires Spawned(mem0, owner0, mem, owner, c) && IsDir(owner0, d) && v < USERPAGES
    ensures IsDir(owner, d) && d != c && d < |mem| == |mem0|
    ensures Pte(mem, d, v) == Pte(mem0, d, v) && Page(mem, d, v) == Page(mem0, d, v)
  {
    hide Pte, Page;
    assert d in owner - Space(owner, c);
  }

  lemma CopiedSkip(mem0: seq<Frame>, owner0: Owner, d: nat, mem: seq<Frame>, owner: Owner, c: nat, v: nat)
    requires Spawned(mem0, owner0, mem, owner, c) && IsDir(owner0, d) && CopiedBelow(mem0, d, mem, c, v)
             && v < USERPAGES
    requires d < |mem| && !Mapped(mem, d, v)
    ensures CopiedBelow(mem0, d, mem, c, v + 1)
  {
    SpawnedOld(mem0, owner0, mem, owner, c, d, v);
    hide Pte, Spawned;
    assert !Mapped(mem, c, v);
  }

  lemma SpawnedFrame(mem0: seq<Frame>, owner0: Owner, mem1: seq<Frame>, mem2: seq<Frame>, owner: Owner, c: nat)
    requires Spawned(mem0, owner0, mem1, owner, c) && SameSpaces(mem1, mem2, owner)
    ensures Spawned(mem0, owner0, mem2, owner, c)
  {
    hide Pte, Page;
    forall e: nat | IsDir(owner0, e) ensures IsDir(owner, e) {
      assert e in owner - Space(owner, c);
    }
    SpacesTwice(mem0, mem1, mem2, owner0);
  }

  lemma NotYetCopied(mem0: seq<Frame>, d: nat, mem1: seq<Frame>, mem2: seq<Frame>, owner: Owner, c: nat, v: nat)
    requires CopiedBelow(mem0, d, mem1, c, v) && SameSpaces(mem1, mem2, owner) && IsDir(owner, c) && v < USERPAGES
    ensures CopiedBelow(mem0, d, mem2, c, v) && !Mapped(mem2, c, v)
  {
    hide Pte, Page, Present;
    forall u: nat | u < v ensures SamePage(mem0, d, mem2, c, u) {
      assert SamePage(mem0, d, mem1, c, u);
    }
    forall u: nat | v <= u < USERPAGES ensures !Mapped(mem2, c, u) {
      assert !Mapped(mem1, c, u);
    }
  }

  /** The parent's frame: what it holds, and that it is not the new one. */
  lemma CopySource(mem0: seq<Frame>, owner0: Owner, mem: seq<Frame>, owner: Owner, first: nat, c: nat, d: nat, v: nat,
                   pte: Word, f: nat)
    requires Owned(mem, owner, first) && Spawned(mem0, owner0, mem, owner, c) && IsDir(owner0, d) && IsDir(owner, d)
    requires v < USERPAGES && d < |mem| && Pte(mem, d, v) == pte && Present(pte) && f !in owner
    ensures d < |mem0| && Ppn(pte) < |mem| && Ppn(pte) != f
    ensures Pte(mem0, d, v) == pte && Page(mem0, d, v) == mem[Ppn(pte)]
  {
    SpawnedOld(mem0, owner0, mem, owner, c, d, v);
    PageOwned(mem, owner, first, d, v);
    hide Pte, Ppn, Present;
  }

  lemma CopiedMore(mem0: seq<Frame>, d: nat, mem2: seq<Frame>, mem3: seq<Frame>, owner: Owner, c: nat, v: nat, f: nat,
                   pte: Word)
    requires CopiedBelow(mem0, d, mem2, c, v) && SameExcept(mem2, mem3, owner, c, v) && IsDir(owner, c) && v < USERPAGES
    requires f < |mem3| && f < PAGES && Pte(mem3, c, v) == Entry(f, Flags(pte))
    requires Pte(mem0, d, v) == pte && Present(pte) && Ppn(pte) != f && Page(mem0, d, v) == mem3[f]
    ensures CopiedBelow(mem0, d, mem3, c, v + 1)
  {
    OddFlags(pte);
    assert SamePage(mem0, d, mem3, c, v) by { hide Pte, Present, Ppn, Flags, Entry; }
    hide Pte, Page, Present;
    forall u: nat | u < v ensures SamePage(mem0, d, mem3, c, u) {
      assert SamePage(mem0, d, mem2, c, u);
    }
    forall u: nat | v < u < USERPAGES ensures !Mapped(mem3, c, u) {
      assert !Mapped(mem2, c, u);
    }
  }

  /** PTE_P is among the flags. */
  lemma OddFlags(pte: Word)
    requires Present(pte)
    ensures Flags(pte) % 2 == 1 && Flags(pte) < 4096
  {
    EntryParts(pte / 4096, pte % 4096);
    assert pte == pte / 4096 * 4096 + pte % 4096;
  }

  /** A line of the kernel's memory map. */
  datatype Kmap = Kmap(virt: Word, physStart: Word, physEnd: Word, perm: nat) {
    /** The last page: PGROUNDDOWN(virt + size - 1), with 32-bit arithmetic. */
    function Last(): nat {
      (virt + (physEnd - physStart) % UINT - 1) % UINT / PGSIZE
    }

    /** A non-empty range of kernel pages that does not wrap around. */
    ghost predicate Valid() {
      && (physEnd - physStart) % UINT > 0 && perm < 4096 && virt >= KERNBASE
      && virt / PGSIZE <= Last() < PAGES && physStart / PGSIZE + Last() - virt / PGSIZE < PAGES
    }

    /** From the page of the first byte to the page of the last. */
    predicate Covers(v: nat) {
      virt / 4096 <= v <= (virt + (physEnd - physStart) % UINT - 1) % UINT / 4096
    }

    /** What mappages is asked to enter for this line, page by page. */
    ghost function Line(): (reqs: seq<Request>)
      requires Valid()
      ensures |reqs| == Last() - virt / PGSIZE + 1
    {
      seq(Last() - virt / PGSIZE + 1, j requires 0 <= j => Request(virt / PGSIZE + j, physStart / PGSIZE + j, perm))
    }
  }

  /** One page to be mapped: virtual page, frame and permissions. */
  datatype Request = Request(v: nat, ppn: nat, perm: nat) {
    ghost predicate Valid() {
      USERPAGES <= v < PAGES && ppn < PAGES && perm < 4096
    }
  }

  /** Everything setupkvm asks mappages for, in order. */
  ghost function Requests(kmap: seq<Kmap>): (reqs: seq<Request>)
    requires forall k | 0 <= k < |kmap| :: kmap[k].Valid()
    ensures forall j | 0 <= j < |reqs| :: reqs[j].Valid()
  {
    if kmap == [] then [] else Requests(kmap[..|kmap| - 1]) + kmap[|kmap| - 1].Line()
  }

  ghost function PagesOf(reqs: seq<Request>): (s: set<nat>) {
    set j | 0 <= j < |reqs| :: reqs[j].v
  }

  /** The page tables the requests need. */
  ghost function SlotsOf(reqs: seq<Request>): (s: set<nat>) {
    set j | 0 <= j < |reqs| :: reqs[j].v / ENTRIES
  }

  /** The first request for a page that has been asked for before, or the number of requests. */
  ghost function ClashAt(reqs: seq<Request>): (n: nat)
    ensures n <= |reqs| && Fresh(reqs, n) && (n < |reqs| ==> reqs[n].v in PagesOf(reqs[..n]))
  {
    if reqs == [] then 0 else
      var m := |reqs| - 1;
      assert forall j | 0 <= j < m :: reqs[..m][..j] == reqs[..j];
      var n := ClashAt(reqs[..m]);
      if n < m || reqs[m].v in PagesOf(reqs[..m]) then n else |reqs|
  }

  /** The first n requests are for different pages. */
  ghost predicate Fresh(reqs: seq<Request>, n: nat)
    requires n <= |reqs|
  {
    forall j | 0 <= j < n :: reqs[j].v !in PagesOf(reqs[..j])
  }

  /** The present pages of space d are exactly the ones asked for, mapped as asked. */
  ghost predicate KernelMap(mem: seq<Frame>, d: nat, reqs: seq<Request>) {
    && d < |mem| && Slots(mem, d) == SlotsOf(reqs)
    && (forall j | 0 <= j < |reqs| ::
          reqs[j].Valid() && Pte(mem, d, reqs[j].v) == Entry(reqs[j].ppn, reqs[j].perm))
    && (forall v: nat | v < PAGES && Mapped(mem, d, v) :: v in PagesOf(reqs))
  }

  /** The kernel half of space d: each page of each line of the map is present, with the frame the
      line gives it and the line's permissions, and no other kernel page is. */
  ghost predicate KernelHalf(mem: seq<Frame>, d: nat, kmap: seq<Kmap>) {
    && d < |mem|
    && (forall k: nat, v: nat | k < |kmap| && kmap[k].Covers(v) && v < PAGES ::
          && Mapped(mem, d, v) && Ppn(Pte(mem, d, v)) == kmap[k].physStart / PGSIZE + v - kmap[k].virt / PGSIZE
          && Flags(Pte(mem, d, v)) == if kmap[k].perm % 2 == 1 then kmap[k].perm else kmap[k].perm + 1)
    && (forall v: nat | USERPAGES <= v < PAGES && Mapped(mem, d, v) :: exists k: nat :: k < |kmap| && kmap[k].Covers(v))
  }

  /** The kernel half of space c has not changed. */
  ghost predicate KernelSame(mem: seq<Frame>, mem': seq<Frame>, c: nat) {
    c < |mem| == |mem'| && forall u: nat | USERPAGES <= u < PAGES :: Pte(mem', c, u) == Pte(mem, c, u)
  }

  lemma KernelSelf(mem: seq<Frame>, c: nat)
    requires c < |mem|
    ensures KernelSame(mem, mem, c)
  {
  }

  lemma KernelTwice(mem0: seq<Frame>, mem1: seq<Frame>, mem2: seq<Frame>, c: nat)
    requires KernelSame(mem0, mem1, c) && KernelSame(mem1, mem2, c)
    ensures KernelSame(mem0, mem2, c)
  {
    hide Pte;
  }

  lemma KernelAside(mem0: seq<Frame>, mem1: seq<Frame>, mem2: seq<Frame>, owner: Owner, c: nat, v: nat)
    requires SameSpaces(mem0, mem1, owner) && SameExcept(mem1, mem2, owner, c, v) && IsDir(owner, c) && v < USERPAGES
    ensures KernelSame(mem0, mem2, c)
  {
    hide Pte, Page;
    forall u: nat | USERPAGES <= u < PAGES ensures Pte(mem2, c, u) == Pte(mem0, c, u) {
      assert Pte(mem1, c, u) == Pte(mem0, c, u);
    }
  }

  lemma {:induction false} KernelKept(mem: seq<Frame>, mem': seq<Frame>, c: nat, kmap: seq<Kmap>)
    requires KernelHalf(mem, c, kmap) && KernelSame(mem, mem', c) && forall k | 0 <= k < |kmap| :: kmap[k].Valid()
    ensures KernelHalf(mem', c, kmap)
  {
    hide Pte, Present;
    forall k: nat, v: nat | k < |kmap| && kmap[k].Covers(v) && v < PAGES ensures Pte(mem', c, v) == Pte(mem, c, v) {
    }
    forall v: nat | USERPAGES <= v < PAGES && Mapped(mem', c, v)
      ensures exists k: nat :: k < |kmap| && kmap[k].Covers(v)
    {
      assert Mapped(mem, c, v);
    }
  }

  /** What setupkvm was asked for is what the lines say. */
  lemma {:induction false} KernelPages(mem: seq<Frame>, d: nat, kmap: seq<Kmap>)
    requires (forall k | 0 <= k < |kmap| :: kmap[k].Valid()) && KernelMap(mem, d, Requests(kmap))
    ensures KernelHalf(mem, d, kmap)
  {
    hide Pte, Present, KernelMap, Requests, Kmap.Valid, Kmap.Last, Kmap.Covers, Ppn, Flags;
    KernelOnly(mem, d, kmap);
    forall k: nat, v: nat | k < |kmap| && kmap[k].Covers(v) && v < PAGES
      ensures && Mapped(mem, d, v) && Ppn(Pte(mem, d, v)) == kmap[k].physStart / PGSIZE + v - kmap[k].virt / PGSIZE
              && Flags(Pte(mem, d, v)) == if kmap[k].perm % 2 == 1 then kmap[k].perm else kmap[k].perm + 1
    {
      KernelPageAt(mem, d, kmap, k, v);
    }
  }

  lemma {:induction false} KernelOnly(mem: seq<Frame>, d: nat, kmap: seq<Kmap>)
    requires (forall k | 0 <= k < |kmap| :: kmap[k].Valid()) && KernelMap(mem, d, Requests(kmap))
    ensures d < |mem|
    ensures forall v: nat | USERPAGES <= v < PAGES && Mapped(mem, d, v) ::
              exists k: nat :: k < |kmap| && kmap[k].Covers(v)
  {
    hide Pte, Entry, Present, Slots, SlotsOf, PagesOf, Requests, Kmap.Valid;
    MapPages(kmap);
    forall v: nat | USERPAGES <= v < PAGES && Mapped(mem, d, v)
      ensures exists k: nat :: k < |kmap| && kmap[k].Covers(v)
    {
      var i :| 0 <= i < |kmap| && kmap[i].virt / PGSIZE <= v <= kmap[i].Last();
      assert kmap[i].Covers(v);
    }
  }

  lemma {:induction false} KernelPageAt(mem: seq<Frame>, d: nat, kmap: seq<Kmap>, k: nat, v: nat)
    requires (forall k | 0 <= k < |kmap| :: kmap[k].Valid()) && KernelMap(mem, d, Requests(kmap))
    requires k < |kmap| && kmap[k].Covers(v) && v < PAGES
    ensures Mapped(mem, d, v) && Ppn(Pte(mem, d, v)) == kmap[k].physStart / PGSIZE + v - kmap[k].virt / PGSIZE
    ensures Flags(Pte(mem, d, v)) == if kmap[k].perm % 2 == 1 then kmap[k].perm else kmap[k].perm + 1
  {
    hide Requests, Kmap.Line, Pte, Entry, Slots, SlotsOf;
    RequestsAt(kmap, k);
    var reqs, base, i := Requests(kmap), |Requests(kmap[..k])|, v - kmap[k].virt / PGSIZE;
    LineAt(kmap[k], reqs, base, i);
    assert reqs[base + i].v == v;
  }

  /** The first n requests have been met out of a budget of frames. */
  ghost predicate Laid(mem: seq<Frame>, free: nat, d: nat, reqs: seq<Request>, n: nat, budget: nat) {
    && n <= |reqs| && Fresh(reqs, n) && (forall j | 0 <= j < |reqs| :: reqs[j].Valid())
    && KernelMap(mem, d, reqs[..n]) && free + |SlotsOf(reqs[..n])| == budget
  }

  /** Request n cannot be met: its page is there, or there is no frame for its page table. */
  ghost predicate StopsAt(reqs: seq<Request>, n: nat, free: nat, r: MapResult) {
    && n < |reqs|
    && (r.Remap? ==> reqs[n].v in PagesOf(reqs[..n]))
    && (r.NoMemory? ==> free == 0 && reqs[n].v / ENTRIES !in SlotsOf(reqs[..n]) && reqs[n].v !in PagesOf(reqs[..n]))
  }

  lemma LineAt(k: Kmap, reqs: seq<Request>, base: nat, i: nat)
    requires k.Valid() && base + |k.Line()| <= |reqs| && reqs[base..base + |k.Line()|] == k.Line() && i < |k.Line()|
    ensures reqs[base + i] == Request(k.virt / PGSIZE + i, k.physStart / PGSIZE + i, k.perm)
  {
    assert reqs[base..base + |k.Line()|][i] == k.Line()[i];
  }

  /** Line k of the map follows the lines before it. */
  lemma {:induction false} RequestsAt(kmap: seq<Kmap>, k: nat)
    requires k <= |kmap| && forall i | 0 <= i < |kmap| :: kmap[i].Valid()
    ensures k == 0 ==> Requests(kmap[..k]) == []
    ensures k < |kmap| ==>
              var base := |Requests(kmap[..k])|;
              && |Requests(kmap[..k + 1])| == base + |kmap[k].Line()| <= |Requests(kmap)|
              && Requests(kmap)[base..base + |kmap[k].Line()|] == kmap[k].Line()
  {
    if k < |kmap| {
      hide Kmap.Line, Kmap.Valid;
      assert kmap[..k + 1][..k] == kmap[..k];
      var before, line, all := Requests(kmap[..k]), kmap[k].Line(), Requests(kmap);
      assert Requests(kmap[..k + 1]) == before + line;
      RequestsPrefix(kmap, k + 1);
      hide Requests;
      assert all[|before|..|before| + |line|] == all[..|before + line|][|before|..];
    }
  }

  lemma {:induction false} RequestsPrefix(kmap: seq<Kmap>, k: nat)
    requires k <= |kmap| && forall i | 0 <= i < |kmap| :: kmap[i].Valid()
    ensures Requests(kmap[..k]) <= Requests(kmap)
    decreases |kmap|
  {
    hide Kmap.Line, Kmap.Valid;
    if k == |kmap| {
      assert kmap[..k] == kmap;
    } else {
      var m := |kmap| - 1;
      RequestsPrefix(kmap[..m], k);
      assert kmap[..m][..k] == kmap[..k];
    }
  }

  lemma SlotsOfNone(reqs: seq<Request>)
    ensures SlotsOf(reqs[..0]) == {} && PagesOf(reqs[..0]) == {}
  {
  }

  lemma LaidNone(mem: seq<Frame>, free: nat, d: nat, reqs: seq<Request>)
    requires d < |mem| && mem[d] == Filled(0) && forall j | 0 <= j < |reqs| :: reqs[j].Valid()
    ensures Laid(mem, free, d, reqs, 0, free)
  {
    AbsentZero();
    SlotsOfNone(reqs);
    assert Slots(mem, d) == {};
  }

  lemma LaidPage(mem: seq<Frame>, free: nat, d: nat, reqs: seq<Request>, n: nat, budget: nat)
    requires Laid(mem, free, d, reqs, n, budget) && n < |reqs|
    ensures d < |mem| && reqs[n].Valid()
    ensures Mapped(mem, d, reqs[n].v) <==> reqs[n].v in PagesOf(reqs[..n])
    ensures Present(mem[d][reqs[n].v / ENTRIES]) <==> reqs[n].v / ENTRIES in SlotsOf(reqs[..n])
    ensures reqs[n].v in PagesOf(reqs[..n]) ==> reqs[n].v / ENTRIES in SlotsOf(reqs[..n])
  {
    hide Pte, Entry, Present;
    assert reqs[n].v / ENTRIES in Slots(mem, d) <==> Present(mem[d][reqs[n].v / ENTRIES]);
  }

  lemma LaidMore(mem1: seq<Frame>, free1: nat, mem: seq<Frame>, free: nat, owner: Owner, d: nat,
                 reqs: seq<Request>, n: nat, budget: nat)
    requires Laid(mem1, free1, d, reqs, n, budget) && n < |reqs| && reqs[n].v !in PagesOf(reqs[..n])
    requires reqs[n].Valid() && d < |mem| && IsDir(owner, d) && SameExcept(mem1, mem, owner, d, reqs[n].v)
    requires Pte(mem, d, reqs[n].v) == Entry(reqs[n].ppn, reqs[n].perm)
    requires TableThere(mem1, free1, mem, free, d, reqs[n].v / ENTRIES)
    ensures Laid(mem, free, d, reqs, n + 1, budget)
  {
    hide Pte, Entry, Slots, Page, Present;
    var v, done := reqs[n].v, reqs[..n];
    assert reqs[..n + 1] == done + [reqs[n]];
    OneMoreRequest(done, reqs[n]);
    forall j | 0 <= j < n + 1 ensures Pte(mem, d, reqs[j].v) == Entry(reqs[j].ppn, reqs[j].perm) {
      if j < n {
        assert done[j] == reqs[j] && reqs[j].v in PagesOf(done);
        assert Pte(mem1, d, reqs[j].v) == Entry(done[j].ppn, done[j].perm);
      }
    }
    forall u: nat | u < PAGES && Mapped(mem, d, u) ensures u in PagesOf(reqs[..n + 1]) {
      if u != v {
        assert Mapped(mem1, d, u);
      }
    }
  }

  lemma OneMoreRequest(done: seq<Request>, q: Request)
    ensures PagesOf(done + [q]) == PagesOf(done) + {q.v}
    ensures SlotsOf(done + [q]) == SlotsOf(done) + {q.v / ENTRIES}
  {
    var all := done + [q];
    forall x ensures x in PagesOf(all) <==> x in PagesOf(done) + {q.v} {
      if x in PagesOf(done) {
        var j :| 0 <= j < |done| && done[j].v == x;
        assert all[j].v == x;
      }
      assert all[|done|].v == q.v;
    }
    forall x ensures x in SlotsOf(all) <==> x in SlotsOf(done) + {q.v / ENTRIES} {
      if x in SlotsOf(done) {
        var j :| 0 <= j < |done| && done[j].v / ENTRIES == x;
        assert all[j].v / ENTRIES == x;
      }
      assert all[|done|].v / ENTRIES == q.v / ENTRIES;
    }
  }

  lemma SlotsGrow(reqs: seq<Request>, n: nat, m: nat)
    requires n <= m <= |reqs|
    ensures SlotsOf(reqs[..n]) <= SlotsOf(reqs[..m]) && |SlotsOf(reqs[..n])| <= |SlotsOf(reqs[..m])|
  {
    forall x | x in SlotsOf(reqs[..n]) ensures x in SlotsOf(reqs[..m]) {
      var j :| 0 <= j < n && reqs[..n][j].v / ENTRIES == x;
      assert reqs[..m][j].v / ENTRIES == x;
    }
    SubsetSize(SlotsOf(reqs[..n]), SlotsOf(reqs[..m]));
  }

  /** Where the loop stopped decides between success, panic and failure. */
  lemma Outcome(mem: seq<Frame>, free: nat, d: nat, reqs: seq<Request>, n: nat, budget: nat, r: MapResult)
    requires Laid(mem, free, d, reqs, n, budget)
    requires if r.Done? then n == |reqs| else StopsAt(reqs, n, free, r)
    ensures var c := ClashAt(reqs);
            && (r.Done? <==> c == |reqs| && budget >= |SlotsOf(reqs)|)
            && (r.Remap? <==> c < |reqs| && budget >= |SlotsOf(reqs[..c])|)
            && (r.Done? ==> KernelMap(mem, d, reqs) && free + |SlotsOf(reqs)| == budget)
  {
    hide KernelMap, SlotsOf, PagesOf, ClashAt, Fresh;
    ClashAfter(reqs, n);
    assert reqs[..|reqs|] == reqs;
    if r.NoMemory? {
      OneMoreRequest(reqs[..n], reqs[n]);
      assert reqs[..n + 1] == reqs[..n] + [reqs[n]];
      SlotsGrow(reqs, n + 1, ClashAt(reqs));
    }
  }

  /** No two lines of the map have a page in common. */
  ghost predicate Apart(kmap: seq<Kmap>) {
    forall i, j | 0 <= i < j < |kmap| ::
      kmap[i].Last() < kmap[j].virt / PGSIZE || kmap[j].Last() < kmap[i].virt / PGSIZE
  }

  /** Requests fall together exactly when lines of the map overlap. */
  lemma {:induction false} ClashIffOverlap(kmap: seq<Kmap>)
    requires forall k | 0 <= k < |kmap| :: kmap[k].Valid()
    ensures ClashAt(Requests(kmap)) == |Requests(kmap)| <==> Apart(kmap)
  {
    hide ClashAt, PagesOf, Kmap.Line, Kmap.Valid, Kmap.Last;
    AllFresh(Requests(kmap));
    if kmap != [] {
      hide Fresh, Apart;
      var m := |kmap| - 1;
      var init, line := kmap[..m], kmap[m];
      ClashIffOverlap(init);
      AllFresh(Requests(init));
      LineFresh(line);
      FreshAppend(Requests(init), line.Line());
      PagesApart(init, line);
      ApartMore(kmap, m);
      assert forall i | 0 <= i < m :: init[i] == kmap[i];
    }
  }

  lemma {:induction false} PagesApart(kmap: seq<Kmap>, line: Kmap)
    requires line.Valid() && forall k | 0 <= k < |kmap| :: kmap[k].Valid()
    ensures PagesOf(Requests(kmap)) !! PagesOf(line.Line()) <==>
              forall i | 0 <= i < |kmap| :: kmap[i].Last() < line.virt / PGSIZE || line.Last() < kmap[i].virt / PGSIZE
  {
    MapPages(kmap);
    LinePages(line);
    hide PagesOf, Kmap.Line, Requests;
    if i :| 0 <= i < |kmap| && !(kmap[i].Last() < line.virt / PGSIZE || line.Last() < kmap[i].virt / PGSIZE) {
      var v := if kmap[i].virt / PGSIZE < line.virt / PGSIZE then line.virt / PGSIZE else kmap[i].virt / PGSIZE;
      assert v in PagesOf(Requests(kmap)) && v in PagesOf(line.Line());
    }
  }

  lemma AllFresh(reqs: seq<Request>)
    ensures ClashAt(reqs) == |reqs| <==> Fresh(reqs, |reqs|)
  {
    hide PagesOf, ClashAt;
  }

  lemma LineFresh(k: Kmap)
    requires k.Valid()
    ensures Fresh(k.Line(), |k.Line()|)
  {
  }

  lemma LinePages(k: Kmap)
    requires k.Valid()
    ensures forall v: nat :: v in PagesOf(k.Line()) <==> k.virt / PGSIZE <= v <= k.Last()
  {
    forall v: nat | k.virt / PGSIZE <= v <= k.Last() ensures v in PagesOf(k.Line()) {
      assert k.Line()[v - k.virt / PGSIZE].v == v;
    }
  }

  lemma FreshAppend(a: seq<Request>, b: seq<Request>)
    requires Fresh(b, |b|)
    ensures Fresh(a + b, |a + b|) <==> Fresh(a, |a|) && PagesOf(a) !! PagesOf(b)
  {
    var all := a + b;
    forall j | 0 <= j < |a| ensures all[..j] == a[..j] {
    }
    forall j | 0 <= j < |b| ensures PagesOf(all[..|a| + j]) == PagesOf(a) + PagesOf(b[..j]) {
      assert all[..|a| + j] == a + b[..j];
      PagesAppend(a, b[..j]);
    }
    if Fresh(all, |all|) {
      forall j | 0 <= j < |a| ensures a[j].v !in PagesOf(a[..j]) {
        assert all[j].v !in PagesOf(all[..j]);
      }
      forall v | v in PagesOf(b) ensures v !in PagesOf(a) {
        var j :| 0 <= j < |b| && b[j].v == v;
        assert all[|a| + j].v !in PagesOf(all[..|a| + j]);
      }
    }
    if Fresh(a, |a|) && PagesOf(a) !! PagesOf(b) {
      forall j | 0 <= j < |all| ensures all[j].v !in PagesOf(all[..j]) {
        if j >= |a| {
          assert b[j - |a|].v in PagesOf(b) && b[j - |a|].v !in PagesOf(b[..j - |a|]);
        }
      }
    }
  }

  lemma PagesAppend(a: seq<Request>, b: seq<Request>)
    ensures PagesOf(a + b) == PagesOf(a) + PagesOf(b)
  {
    forall v ensures v in PagesOf(a + b) <==> v in PagesOf(a) + PagesOf(b) {
      if v in PagesOf(a) {
        var j :| 0 <= j < |a| && a[j].v == v;
        assert (a + b)[j].v == v;
      }
      if v in PagesOf(b) {
        var j :| 0 <= j < |b| && b[j].v == v;
        assert (a + b)[|a| + j].v == v;
      }
    }
  }

  lemma {:induction false} MapPages(kmap: seq<Kmap>)
    requires forall k | 0 <= k < |kmap| :: kmap[k].Valid()
    ensures forall v: nat :: v in PagesOf(Requests(kmap)) <==>
              exists i :: 0 <= i < |kmap| && kmap[i].virt / PGSIZE <= v <= kmap[i].Last()
  {
    if kmap != [] {
      hide PagesOf, Kmap.Line, Kmap.Valid;
      var m := |kmap| - 1;
      MapPages(kmap[..m]);
      LinePages(kmap[m]);
      PagesAppend(Requests(kmap[..m]), kmap[m].Line());
      assert forall i | 0 <= i < m :: kmap[..m][i] == kmap[i];
    }
  }

  lemma {:induction false} ApartMore(kmap: seq<Kmap>, m: nat)
    requires |kmap| == m + 1 && forall k | 0 <= k < |kmap| :: kmap[k].Valid()
    ensures Apart(kmap) <==>
              Apart(kmap[..m]) && forall i | 0 <= i < m ::
                kmap[i].Last() < kmap[m].virt / PGSIZE || kmap[m].Last() < kmap[i].virt / PGSIZE
  {
    hide Kmap.Valid;
    if Apart(kmap[..m]) {
      forall i, j | 0 <= i < j < m
        ensures kmap[i].Last() < kmap[j].virt / PGSIZE || kmap[j].Last() < kmap[i].virt / PGSIZE
      {
        assert kmap[..m][i] == kmap[i] && kmap[..m][j] == kmap[j];
      }
    }
  }

  lemma ClashAfter(reqs: seq<Request>, n: nat)
    requires n <= |reqs| && Fresh(reqs, n)
    ensures n <= ClashAt(reqs)
    ensures n < |reqs| ==> (reqs[n].v in PagesOf(reqs[..n]) <==> ClashAt(reqs) == n)
  {
    hide PagesOf, ClashAt;
  }

  /** d is a new space; the spaces of owner0 are all there and have not changed. */
  ghost predicate Spawned(mem0: seq<Frame>, owner0: Owner, mem: seq<Frame>, owner: Owner, d: nat) {
    d !in owner0 && IsDir(owner, d) && owner - Space(owner, d) == owner0 && SameSpaces(mem0, mem, owner0)
  }

  lemma SpawnedDir(mem0: seq<Frame>, owner0: Owner, mem: seq<Frame>, owner: Owner, d: nat)
    requires Spawned(mem0, owner0, mem, owner, d)
    ensures IsDir(owner, d)
  {
  }

  /** No frame belongs to a space that does not exist. */
  lemma NoStrangers(mem: seq<Frame>, owner: Owner, first: nat, d: nat)
    requires Owned(mem, owner, first) && d !in owner
    ensures Space(owner, d) == {}
  {
    hide Pte;
  }

  lemma SpawnedStep(mem0: seq<Frame>, owner0: Owner, mem1: seq<Frame>, owner1: Owner, mem2: seq<Frame>, owner2: Owner,
                    d: nat, v: nat)
    requires Spawned(mem0, owner0, mem1, owner1, d) && SameExcept(mem1, mem2, owner1, d, v) && IsDir(owner2, d)
    requires Extends(owner1, owner2, d, v) || exists f: nat :: Grows(owner1, owner2, d, v, f)
    ensures Spawned(mem0, owner0, mem2, owner2, d)
  {
    hide Pte, Page;
    forall e: nat | IsDir(owner0, e) ensures IsDir(owner1, e) && e != d {
      assert e in owner1 - Space(owner1, d);
    }
    forall e: nat, u: nat | IsDir(owner0, e) && u < PAGES ensures Pte(mem2, e, u) == Pte(mem0, e, u) {
      assert Pte(mem1, e, u) == Pte(mem0, e, u);
    }
    forall e: nat, u: nat | IsDir(owner0, e) && u < USERPAGES ensures Page(mem2, e, u) == Page(mem0, e, u) {
      assert Page(mem1, e, u) == Page(mem0, e, u);
    }
    assert owner2 - Space(owner2, d) == owner1 - Space(owner1, d) by {
      hide SameExcept, SameSpaces;
      OnlySpace(owner1, owner2, d, v);
    }
  }

  /** Only the frames of space d have changed hands. */
  ghost predicate OnlyIn(owner: Owner, owner': Owner, d: nat) {
    owner' - Space(owner', d) == owner - Space(owner, d)
  }

  lemma OnlySpace(owner1: Owner, owner2: Owner, d: nat, v: nat)
    requires Extends(owner1, owner2, d, v) || exists f: nat :: Grows(owner1, owner2, d, v, f)
    ensures OnlyIn(owner1, owner2, d)
  {
  }

  lemma Unspawned(mem0: seq<Frame>, owner0: Owner, mem1: seq<Frame>, owner1: Owner, mem2: seq<Frame>, owner2: Owner,
                  d: nat)
    requires Spawned(mem0, owner0, mem1, owner1, d) && owner2 == owner1 - Space(owner1, d)
             && SameSpaces(mem1, mem2, owner2)
    ensures owner2 == owner0 && SameSpaces(mem0, mem2, owner0)
  {
    SpacesTwice(mem0, mem1, mem2, owner0);
  }

  /** The page tables of space d for directory entries below i. */
  ghost function TablesBelow(owner: Owner, d: nat, i: nat): (s: set<nat>) {
    set f | f in owner && owner[f].Table? && owner[f].dir == d && owner[f].i < i
  }

  lemma SpaceIn(owner: Owner, d: nat)
    ensures forall f | f in owner - Space(owner, d) :: f in owner
  {
  }

  lemma NotFree(t: nat, free: seq<nat>, free0: seq<nat>, s: set<nat>)
    requires ToSet(free) == ToSet(free0) + s && t !in free0 && t !in s
    ensures t !in free
  {
    hide ToSet;
    assert t !in ToSet(free);
  }

  lemma TablesBelowNone(owner: Owner, d: nat)
    ensures TablesBelow(owner, d, 0) == {}
  {
  }

  lemma FreeFewer(mem: seq<Frame>, owner: Owner, owner': Owner, first: nat, free: seq<nat>)
    requires FreeList(mem, owner, first, free) && forall f | f in owner' :: f in owner
    ensures FreeList(mem, owner', first, free)
  {
  }

  /** Directory entry i adds its table, if any, to those to be freed. */
  lemma TableStep(mem: seq<Frame>, owner: Owner, first: nat, free: seq<nat>, d: nat, i: nat)
    requires Owned(mem, owner, first) && FreeList(mem, owner, first, free) && IsDir(owner, d) && i < ENTRIES
    ensures !Present(mem[d][i]) ==> TablesBelow(owner, d, i + 1) == TablesBelow(owner, d, i)
    ensures Present(mem[d][i]) ==>
              var t := Ppn(mem[d][i]);
              && first <= t < |mem| && t != d && t in Space(owner, d) && t !in free && t !in TablesBelow(owner, d, i)
              && TablesBelow(owner, d, i + 1) == TablesBelow(owner, d, i) + {t}
  {
    hide Ppn, Present;
    if Present(mem[d][i]) {
      TableOwned(mem, owner, first, d, i);
    }
    forall f | f in owner && owner[f] == Table(d, i) ensures Present(mem[d][i]) && Ppn(mem[d][i]) == f {
    }
  }

  lemma DirLast(mem: seq<Frame>, owner: Owner, first: nat, free: seq<nat>, d: nat)
    requires Owned(mem, owner, first) && FreeList(mem, owner, first, free) && IsDir(owner, d)
    requires forall f | f in owner :: owner[f].User? ==> owner[f].dir != d
    ensures first <= d < |mem| && d !in free && d !in TablesBelow(owner, d, ENTRIES) && d in Space(owner, d)
    ensures Space(owner, d) == TablesBelow(owner, d, ENTRIES) + {d}
  {
  }

  lemma NoUserLeft(mem0: seq<Frame>, owner0: Owner, mem1: seq<Frame>, owner1: Owner, first: nat, d: nat)
    requires Owned(mem0, owner0, first) && RangeFreed(mem0, owner0, mem1, owner1, d, 0, USERPAGES)
    ensures forall f | f in owner1 :: owner1[f].User? ==> owner1[f].dir != d
    ensures owner1 - Space(owner1, d) == owner0 - Space(owner0, d)
  {
  }

  lemma TransitAfter(n: nat, owner0: Owner, free0: seq<nat>, owner1: Owner, free1: seq<nat>, owner2: Owner,
                     free2: seq<nat>, d: nat)
    requires TransitKept(n, owner0, free0, owner1, free1)
    requires ToSet(free2) == ToSet(free1) + Space(owner1, d) && owner2 == owner1 - Space(owner1, d)
    ensures TransitKept(n, owner0, free0, owner2, free2)
  {
    hide ToSet;
    forall f: nat | f < n && f !in owner0 && f !in free0 ensures f !in owner2 && f !in free2 {
      assert f !in ToSet(free2);
    }
  }

  /** The frames that left the space are the frames that became free. */
  lemma FreedFrames(mem0: seq<Frame>, owner0: Owner, free0: seq<nat>, owner1: Owner, free1: seq<nat>,
                    mem2: seq<Frame>, owner2: Owner, free2: seq<nat>, first: nat, d: nat)
    requires FreeList(mem0, owner0, first, free0) && FreeList(mem2, owner2, first, free2)
    requires ToSet(free1) + owner1.Keys == ToSet(free0) + owner0.Keys
    requires ToSet(free2) == ToSet(free1) + Space(owner1, d) && owner2 == owner1 - Space(owner1, d)
    requires owner2 == owner0 - Space(owner0, d)
    ensures ToSet(free2) + owner2.Keys == ToSet(free0) + owner0.Keys
    ensures ToSet(free2) == ToSet(free0) + Space(owner0, d)
  {
    hide ToSet;
    assert owner2.Keys == owner0.Keys - Space(owner0, d) && Space(owner0, d) <= owner0.Keys;
    assert owner2.Keys == owner1.Keys - Space(owner1, d) && Space(owner1, d) <= owner1.Keys;
    assert ToSet(free0) !! owner0.Keys;
    assert ToSet(free2) !! owner2.Keys;
    hide Space, FreeList;
    MovedFrames(ToSet(free0), owner0.Keys, ToSet(free1), owner1.Keys, ToSet(free2), owner2.Keys, Space(owner0, d),
      Space(owner1, d));
  }

  lemma MovedFrames(f0: set<nat>, k0: set<nat>, f1: set<nat>, k1: set<nat>, f2: set<nat>, k2: set<nat>, s0: set<nat>,
                    s1: set<nat>)
    requires f1 + k1 == f0 + k0 && f2 == f1 + s1 && k2 == k1 - s1 && k2 == k0 - s0 && s0 <= k0 && s1 <= k1
    requires f0 !! k0 && f2 !! k2
    ensures f2 + k2 == f0 + k0 && f2 == f0 + s0
  {
    assert f2 + k2 == f1 + k1;
    forall x ensures x in f2 <==> x in f0 + s0 {
      assert x in f2 + k2 <==> x in f0 + k0;
    }
  }

  lemma ToSetCons(f: nat, s: seq<nat>)
    ensures ToSet([f] + s) == ToSet(s) + {f}
  {
    hide ToSet;
  }

  lemma SpacesAfterRange(mem0: seq<Frame>, owner0: Owner, mem1: seq<Frame>, owner1: Owner, mem2: seq<Frame>,
                         owner2: Owner, d: nat)
    requires RangeFreed(mem0, owner0, mem1, owner1, d, 0, USERPAGES)
    requires owner2 == owner0 - Space(owner0, d) && SameSpaces(mem1, mem2, owner2)
    ensures SameSpaces(mem0, mem2, owner2)
  {
    hide Pte, Page;
    assert forall e: nat | IsDir(owner2, e) :: IsDir(owner0, e) && e != d;
    forall e: nat, v: nat | IsDir(owner2, e) && v < PAGES ensures Pte(mem2, e, v) == Pte(mem0, e, v) {
      assert Pte(mem1, e, v) == Pte(mem0, e, v);
    }
    forall e: nat, v: nat | IsDir(owner2, e) && v < USERPAGES ensures Page(mem2, e, v) == Page(mem0, e, v) {
      assert Page(mem1, e, v) == Page(mem0, e, v);
    }
  }

  /** The frames holding user pages lo .. hi - 1 of space d. */
  ghost function InRange(owner: Owner, d: nat, lo: nat, hi: nat): (s: set<nat>) {
    set f | f in owner && owner[f].User? && owner[f].dir == d && lo <= owner[f].v < hi
  }

  /** User page v of space d is gone, if it was there; nothing else has changed. */
  ghost predicate OneFreed(mem: seq<Frame>, owner: Owner, mem': seq<Frame>, owner': Owner, d: nat, v: nat) {
    RangeFreed(mem, owner, mem', owner', d, v, v + 1)
  }

  /** User pages lo .. hi - 1 of space d are gone; nothing else has changed. */
  ghost predicate RangeFreed(mem: seq<Frame>, owner: Owner, mem': seq<Frame>, owner': Owner, d: nat, lo: nat, hi: nat) {
    && |mem'| == |mem| && IsDir(owner, d) && (forall e: nat | IsDir(owner, e) :: e < |mem|)
    && owner' == owner - InRange(owner, d, lo, hi)
    && (forall e: nat, u: nat | IsDir(owner, e) && u < PAGES && !(e == d && lo <= u < hi) ::
      Pte(mem', e, u) == Pte(mem, e, u))
    && (forall e: nat, u: nat | IsDir(owner, e) && u < USERPAGES && !(e == d && lo <= u < hi) ::
      Page(mem', e, u) == Page(mem, e, u))
    && (forall u: nat | lo <= u < hi && u < USERPAGES :: !Mapped(mem', d, u))
  }

  /** Frames held by nobody in particular stay that way. */
  ghost predicate TransitKept(n: nat, owner: Owner, free: seq<nat>, owner': Owner, free': seq<nat>) {
    forall f: nat | f < n && f !in owner && f !in free :: f !in owner' && f !in free'
  }

  lemma TransitSelf(n: nat, owner: Owner, free: seq<nat>)
    ensures TransitKept(n, owner, free, owner, free)
  {
  }

  lemma TransitTwice(n: nat, owner0: Owner, free0: seq<nat>, owner1: Owner, free1: seq<nat>, owner2: Owner,
                     free2: seq<nat>)
    requires TransitKept(n, owner0, free0, owner1, free1) && TransitKept(n, owner1, free1, owner2, free2)
    ensures TransitKept(n, owner0, free0, owner2, free2)
  {
  }

  lemma RangeOnlyIn(mem: seq<Frame>, owner: Owner, mem': seq<Frame>, owner': Owner, d: nat, lo: nat, hi: nat)
    requires RangeFreed(mem, owner, mem', owner', d, lo, hi)
    ensures OnlyIn(owner, owner', d)
  {
  }

  lemma RangeEmpty(mem: seq<Frame>, owner: Owner, first: nat, d: nat, lo: nat)
    requires Owned(mem, owner, first) && IsDir(owner, d)
    ensures RangeFreed(mem, owner, mem, owner, d, lo, lo)
  {
    hide Pte, Page;
    assert InRange(owner, d, lo, lo) == {};
  }

  /** A page that is not mapped has no frame. */
  lemma NothingFreed(mem: seq<Frame>, owner: Owner, first: nat, d: nat, v: nat)
    requires Owned(mem, owner, first) && IsDir(owner, d) && v < USERPAGES
    ensures !Mapped(mem, d, v) ==> OneFreed(mem, owner, mem, owner, d, v)
  {
    hide Pte, Page;
    if !Mapped(mem, d, v) {
      assert InRange(owner, d, v, v + 1) == {};
    }
  }

  lemma FreedAfter(mem0: seq<Frame>, mem1: seq<Frame>, mem2: seq<Frame>, owner0: Owner, owner1: Owner, first: nat,
                   d: nat, v: nat)
    requires SameExcept(mem0, mem1, owner0, d, v) && SameSpaces(mem1, mem2, owner1) && IsDir(owner0, d) && v < USERPAGES
    requires Pte(mem1, d, v) == 0
    requires Mapped(mem0, d, v)
    requires var f := Ppn(Pte(mem0, d, v)); f in owner0 && owner0[f] == User(d, v) && owner1 == owner0 - {f}
    requires Owned(mem0, owner0, first)
    ensures OneFreed(mem0, owner0, mem2, owner1, d, v)
  {
    AbsentZero();
    hide Pte, Page, Present, Ppn;
    var f := Ppn(Pte(mem0, d, v));
    assert InRange(owner0, d, v, v + 1) == {f};
    assert forall e: nat | IsDir(owner0, e) :: IsDir(owner1, e);
    forall e: nat, u: nat | IsDir(owner0, e) && u < PAGES && !(e == d && v <= u < v + 1)
      ensures Pte(mem2, e, u) == Pte(mem0, e, u)
    {
      assert Pte(mem2, e, u) == Pte(mem1, e, u);
    }
    forall e: nat, u: nat | IsDir(owner0, e) && u < USERPAGES && !(e == d && v <= u < v + 1)
      ensures Page(mem2, e, u) == Page(mem0, e, u)
    {
      assert Page(mem2, e, u) == Page(mem1, e, u);
    }
    assert Pte(mem2, d, v) == Pte(mem1, d, v);
  }

  lemma RangeMore(mem0: seq<Frame>, owner0: Owner, mem1: seq<Frame>, owner1: Owner, mem2: seq<Frame>, owner2: Owner,
                  d: nat, lo: nat, v: nat)
    requires RangeFreed(mem0, owner0, mem1, owner1, d, lo, v) && OneFreed(mem1, owner1, mem2, owner2, d, v)
             && lo <= v < USERPAGES
    ensures RangeFreed(mem0, owner0, mem2, owner2, d, lo, v + 1)
  {
    hide Pte, Page;
    assert InRange(owner0, d, lo, v + 1) == InRange(owner0, d, lo, v) + InRange(owner1, d, v, v + 1);
    assert forall e: nat | IsDir(owner0, e) :: IsDir(owner1, e);
    forall e: nat, u: nat | IsDir(owner0, e) && u < PAGES && !(e == d && lo <= u < v + 1)
      ensures Pte(mem2, e, u) == Pte(mem0, e, u)
    {
      assert Pte(mem1, e, u) == Pte(mem0, e, u);
    }
    forall e: nat, u: nat | IsDir(owner0, e) && u < USERPAGES && !(e == d && lo <= u < v + 1)
      ensures Page(mem2, e, u) == Page(mem0, e, u)
    {
      assert Page(mem1, e, u) == Page(mem0, e, u);
    }
    forall u: nat | lo <= u < v ensures !Mapped(mem2, d, u) {
      assert Pte(mem2, d, u) == Pte(mem1, d, u);
      assert !Mapped(mem1, d, u);
    }
  }

  /** A uint read as an int. */
  function Signed(x: Word): (r: int)
    ensures -UINT / 2 <= r < UINT / 2 && r % UINT == x
  {
    if x < UINT / 2 then x else x - UINT
  }

  /** How deallocuvm's walk ends: at the end of the range, in kfree's panic, or nowhere, when it reads
      a page table outside physical memory or its 32-bit address comes round to 0. */
  datatype Walk = Through | KfreePanic | Lost

  /** No kernel page from lo up to hi is present. */
  predicate KernelClear(mem: seq<Frame>, d: nat, lo: nat, hi: nat)
    requires d < |mem|
  {
    forall u: nat | lo <= u < hi && USERPAGES <= u < PAGES :: !Mapped(mem, d, u)
  }

  /** Shrinking from oldsz to newsz stays clear of the kernel's pages, and of the last page of all,
      after which the address comes round to 0. */
  predicate Shrinkable(mem: seq<Frame>, d: nat, newsz: nat, oldsz: nat)
    requires d < |mem|
  {
    newsz >= oldsz || (Pages(oldsz) < PAGES && KernelClear(mem, d, newsz / PGSIZE, Pages(oldsz)))
  }

  /** A size within the user half can always be shrunk. */
  lemma NoKernelPages(mem: seq<Frame>, d: nat, lo: nat, hi: nat)
    requires d < |mem| && hi <= USERPAGES
    ensures KernelClear(mem, d, lo, hi)
  {
  }

  lemma KernelEntry(mem: seq<Frame>, owner: Owner, first: nat, d: nat, v: nat)
    requires Owned(mem, owner, first) && IsDir(owner, d) && v < PAGES
    ensures d < |mem| && (Present(mem[d][v / ENTRIES]) ==> Ppn(mem[d][v / ENTRIES]) < |mem|)
    ensures Mapped(mem, d, v) <==>
              Present(mem[d][v / ENTRIES]) && Present(mem[Ppn(mem[d][v / ENTRIES])][v % ENTRIES])
  {
    AbsentZero();
    if Present(mem[d][v / ENTRIES]) {
      TableOwned(mem, owner, first, d, v / ENTRIES);
    }
    hide Present, Ppn, Owned;
  }

  /** User pages end at USERPAGES, so a range may be extended beyond. */
  lemma RangeWider(mem: seq<Frame>, owner: Owner, mem': seq<Frame>, owner': Owner, first: nat, d: nat, lo: nat,
                   mid: nat, hi: nat)
    requires Owned(mem, owner, first) && RangeFreed(mem, owner, mem', owner', d, lo, mid) && lo <= mid <= hi
    requires mid < hi ==> mid >= USERPAGES
    requires mid == if lo >= USERPAGES then lo else if hi <= USERPAGES then hi else USERPAGES
    ensures RangeFreed(mem, owner, mem', owner', d, lo, hi)
    ensures forall u: nat | USERPAGES <= u < PAGES :: Pte(mem', d, u) == Pte(mem, d, u)
  {
    hide Pte, Page;
    assert InRange(owner, d, lo, hi) == InRange(owner, d, lo, mid);
  }

  lemma RangeKernel(mem: seq<Frame>, owner: Owner, mem': seq<Frame>, owner': Owner, d: nat, lo: nat, mid: nat, hi: nat)
    requires d < |mem| && d < |mem'| && lo <= mid && (mid == lo || mid == USERPAGES)
    requires forall u: nat | USERPAGES <= u < PAGES :: Pte(mem', d, u) == Pte(mem, d, u)
    ensures KernelClear(mem', d, mid, hi) <==> KernelClear(mem, d, lo, hi)
  {
    hide Pte, Present;
    if KernelClear(mem', d, mid, hi) {
      forall u: nat | lo <= u < hi && USERPAGES <= u < PAGES ensures !Mapped(mem, d, u) {
        assert !Mapped(mem', d, u);
      }
    }
    if KernelClear(mem, d, lo, hi) {
      forall u: nat | mid <= u < hi && USERPAGES <= u < PAGES ensures !Mapped(mem', d, u) {
        assert !Mapped(mem, d, u);
      }
    }
  }

  /** The frames that left the space are now free. */
  lemma RangeFrames(mem0: seq<Frame>, owner0: Owner, free0: seq<nat>, mem: seq<Frame>, owner: Owner, free: seq<nat>,
                    first: nat, d: nat, lo: nat, hi: nat)
    requires RangeFreed(mem0, owner0, mem, owner, d, lo, hi) && FreeList(mem, owner, first, free)
    requires FreeList(mem0, owner0, first, free0)
    requires ToSet(free) + owner.Keys == ToSet(free0) + owner0.Keys
    ensures Distinct(free) && ToSet(free) == ToSet(free0) + InRange(owner0, d, lo, hi)
  {
    hide ToSet, Distinct, Pte, Page;
    assert ToSet(free0) !! owner0.Keys && ToSet(free) !! owner.Keys;
    var gone := InRange(owner0, d, lo, hi);
    assert gone <= owner0.Keys && owner.Keys == owner0.Keys - gone;
    hide InRange, RangeFreed, FreeList;
    forall x ensures x in ToSet(free) <==> x in ToSet(free0) + gone {
      assert x in ToSet(free) + owner.Keys <==> x in ToSet(free0) + owner0.Keys;
    }
  }

  /** A longer free list cannot hold the same frames once each. */
  lemma MoreFrames(mem: seq<Frame>, owner: Owner, first: nat, free0: seq<nat>, free: seq<nat>)
    requires FreeList(mem, owner, first, free0)
    ensures |free| > |free0| ==> !(Distinct(free) && ToSet(free) == ToSet(free0))
  {
    DistinctSize(free0);
    if Distinct(free) {
      DistinctSize(free);
    }
  }

  /** The directory entries that have a page table. */
  ghost function Slots(mem: seq<Frame>, d: nat): (s: set<nat>)
    requires d < |mem|
    ensures forall i: nat :: i in s <==> i < ENTRIES && Present(mem[d][i])
  {
    set i: nat | i < ENTRIES && Present(mem[d][i])
  }

  /** Space d now has the page table of directory entry i, at the cost of one free frame if it did
      not have it before. */
  ghost predicate TableThere(mem: seq<Frame>, free: nat, mem': seq<Frame>, free': nat, d: nat, i: nat)
    requires d < |mem| && d < |mem'|
  {
    Slots(mem', d) == Slots(mem, d) + {i} && free' + |Slots(mem', d)| == free + |Slots(mem, d)|
  }

  lemma TableCost(mem: seq<Frame>, mem': seq<Frame>, free: nat, d: nat, i: nat)
    requires d < |mem| && d < |mem'| && i < ENTRIES
    requires forall j | 0 <= j < ENTRIES && j != i :: mem'[d][j] == mem[d][j]
    ensures Present(mem[d][i]) && Present(mem'[d][i]) ==> TableThere(mem, free, mem', free, d, i)
    ensures !Present(mem[d][i]) && Present(mem'[d][i]) && free > 0 ==> TableThere(mem, free, mem', free - 1, d, i)
  {
    if Present(mem'[d][i]) {
      assert Slots(mem', d) == Slots(mem, d) + {i};
      if Present(mem[d][i]) {
        assert Slots(mem', d) == Slots(mem, d);
      } else {
        assert i !in Slots(mem, d);
      }
    }
  }

  lemma SameSlots(mem: seq<Frame>, mem': seq<Frame>, d: nat)
    requires d < |mem| && d < |mem'| && mem'[d] == mem[d]
    ensures Slots(mem', d) == Slots(mem, d)
  {
  }

  /** The directory entries that pages lo .. hi - 1 fall under. */
  ghost function Touched(lo: nat, hi: nat): (s: set<nat>) {
    set u: nat | lo <= u < hi :: u / ENTRIES
  }

  /** The frames it takes to make absent pages lo .. hi - 1 present: the pages themselves, and the
      page tables that are missing. */
  ghost function GrowCost(mem: seq<Frame>, d: nat, lo: nat, hi: nat): nat
    requires d < |mem| && lo <= hi
  {
    hi - lo + |Touched(lo, hi) - Slots(mem, d)|
  }

  /** The first page from lo up to hi that is there already, or hi. */
  ghost function Reach(mem: seq<Frame>, d: nat, lo: nat, hi: nat): (r: nat)
    requires d < |mem| && lo <= hi <= USERPAGES
    ensures lo <= r <= hi && (r < hi ==> Mapped(mem, d, r))
    ensures forall u: nat | lo <= u < r :: !Mapped(mem, d, u)
    decreases hi - lo
  {
    if lo == hi || Mapped(mem, d, lo) then lo else Reach(mem, d, lo + 1, hi)
  }

  /** The frames allocuvm asks for: up to and including one for a page that is there already. */
  ghost function GrowNeed(mem: seq<Frame>, d: nat, lo: nat, hi: nat): nat
    requires d < |mem| && lo <= hi <= USERPAGES
  {
    GrowCost(mem, d, lo, Reach(mem, d, lo, hi)) + if Reach(mem, d, lo, hi) < hi then 1 else 0
  }

  lemma GrowCostNone(mem: seq<Frame>, d: nat, lo: nat)
    requires d < |mem|
    ensures GrowCost(mem, d, lo, lo) == 0 && Slots(mem, d) + Touched(lo, lo) == Slots(mem, d)
  {
    assert Touched(lo, lo) == {};
    assert Touched(lo, lo) - Slots(mem, d) == {};
  }

  lemma TouchedNext(lo: nat, v: nat)
    requires lo <= v
    ensures Touched(lo, v + 1) == Touched(lo, v) + {v / ENTRIES}
  {
    forall i: nat ensures i in Touched(lo, v + 1) <==> i in Touched(lo, v) + {v / ENTRIES} {
      if i in Touched(lo, v + 1) {
        var u: nat :| lo <= u < v + 1 && u / ENTRIES == i;
      }
    }
  }

  lemma GrowCostMono(mem: seq<Frame>, d: nat, lo: nat, v: nat, w: nat)
    requires d < |mem| && lo <= v <= w
    ensures GrowCost(mem, d, lo, v) + w - v <= GrowCost(mem, d, lo, w)
  {
    SubsetSize(Touched(lo, v) - Slots(mem, d), Touched(lo, w) - Slots(mem, d));
  }

  /** Of free0 frames, pages lo .. v - 1 have been paid for; none of them was there before. */
  ghost predicate Paid(mem0: seq<Frame>, free0: nat, mem: seq<Frame>, free: nat, d: nat, lo: nat, v: nat, hi: nat) {
    && d < |mem0| && d < |mem| && lo <= v <= hi <= USERPAGES && v <= Reach(mem0, d, lo, hi)
    && Slots(mem, d) == Slots(mem0, d) + Touched(lo, v)
    && free + GrowCost(mem0, d, lo, v) == free0
  }

  lemma PaidNone(mem: seq<Frame>, free: nat, d: nat, lo: nat, hi: nat)
    requires d < |mem| && lo <= hi <= USERPAGES
    ensures Paid(mem, free, mem, free, d, lo, lo, hi)
  {
    GrowCostNone(mem, d, lo);
  }

  /** One more page adds its directory entry, if that is new. */
  lemma OneMoreTable(touched: set<nat>, slots: set<nat>, i: nat)
    ensures |touched + {i} - slots| == |touched - slots| + if i in slots + touched then 0 else 1
  {
    if i in slots + touched {
      assert touched + {i} - slots == touched - slots;
    } else {
      assert touched + {i} - slots == touched - slots + {i};
    }
  }

  lemma GrowCostStep(mem0: seq<Frame>, mem: seq<Frame>, d: nat, lo: nat, v: nat)
    requires d < |mem0| && d < |mem| && lo <= v < USERPAGES && Slots(mem, d) == Slots(mem0, d) + Touched(lo, v)
    ensures GrowCost(mem0, d, lo, v + 1)
            == GrowCost(mem0, d, lo, v) + 1 + if Present(mem[d][v / ENTRIES]) then 0 else 1
  {
    hide Touched;
    TouchedNext(lo, v);
    OneMoreTable(Touched(lo, v), Slots(mem0, d), v / ENTRIES);
    assert v / ENTRIES in Slots(mem, d) <==> Present(mem[d][v / ENTRIES]);
  }

  /** At page v: whether it can be had decides whether the whole range can. */
  lemma PaidPage(mem0: seq<Frame>, free0: nat, mem: seq<Frame>, free: nat, d: nat, lo: nat, v: nat, hi: nat)
    requires Paid(mem0, free0, mem, free, d, lo, v, hi) && v < hi
    requires Mapped(mem, d, v) <==> Mapped(mem0, d, v)
    ensures free == 0 || (free == 1 && !Present(mem[d][v / ENTRIES])) ==> free0 < GrowNeed(mem0, d, lo, hi)
    ensures Mapped(mem, d, v) ==> Present(mem[d][v / ENTRIES]) && Reach(mem0, d, lo, hi) == v
    ensures Mapped(mem, d, v) && free > 0 ==> free0 >= GrowNeed(mem0, d, lo, hi)
  {
    hide Slots, Present, GrowCost, Pte, Touched;
    MappedTable(mem, d, v);
    GrowCostStep(mem0, mem, d, lo, v);
    var reach := Reach(mem0, d, lo, hi);
    assert v < reach ==> !Mapped(mem0, d, v);
    hide Reach;
    if v < reach {
      GrowCostMono(mem0, d, lo, v + 1, reach);
    }
  }

  lemma PaidMore(mem0: seq<Frame>, free0: nat, mem1: seq<Frame>, free1: nat, mem: seq<Frame>, free: nat,
                 d: nat, lo: nat, v: nat, hi: nat)
    requires Paid(mem0, free0, mem1, free1, d, lo, v, hi) && v < hi && Reach(mem0, d, lo, hi) != v
    requires d < |mem| && free1 > 0 && TableThere(mem1, free1 - 1, mem, free, d, v / ENTRIES)
    ensures Paid(mem0, free0, mem, free, d, lo, v + 1, hi)
  {
    hide Touched, Slots, Reach;
    TouchedNext(lo, v);
    var s0, t, i := Slots(mem0, d), Touched(lo, v), v / ENTRIES;
    OneMoreTable(t, s0, i);
    OneMoreTable(s0 + t, {}, i);
    assert s0 + t - {} == s0 + t && s0 + t + {i} - {} == s0 + (t + {i});
    assert Slots(mem, d) == s0 + (t + {i});
  }

  lemma PaidAll(mem0: seq<Frame>, free0: nat, mem: seq<Frame>, free: nat, d: nat, lo: nat, hi: nat)
    requires Paid(mem0, free0, mem, free, d, lo, hi, hi)
    ensures Reach(mem0, d, lo, hi) == hi && free0 >= GrowNeed(mem0, d, lo, hi)
  {
    hide GrowCost, Slots;
  }

  lemma NothingToDo(mem: seq<Frame>, d: nat, oldsz: nat, newsz: nat)
    requires d < |mem| && oldsz <= newsz < KERNBASE
    ensures Pages(oldsz) <= Pages(newsz) <= USERPAGES
    ensures oldsz == newsz ==> GrowNeed(mem, d, Pages(oldsz), Pages(newsz)) == 0
                               && Reach(mem, d, Pages(oldsz), Pages(newsz)) == Pages(newsz)
  {
    GrowCostNone(mem, d, Pages(oldsz));
  }

  /** Page v of space d has been given a zeroed frame from the free list, and a page table if it had
      none; no other page of any space has changed. */
  ghost predicate PageAdded(mem: seq<Frame>, owner: Owner, free: seq<nat>, mem': seq<Frame>, owner': Owner,
                            free': seq<nat>,
                            d: nat, v: nat) {
    && d < |mem| == |mem'| <= PAGES && v < USERPAGES && free != []
    && SameExcept(mem, mem', owner, d, v)
    && TableThere(mem, |free| - 1, mem', |free'|, d, v / ENTRIES)
    && exists f: nat ::
         && f in free && f < |mem| && mem'[f] == Filled(0)
         && Pte(mem', d, v) == Entry(f, PERM_WU) && Grows(owner, owner', d, v, f)
  }

  /** An entry for a user page: present, and the process may read and write. */
  lemma UserEntry(f: nat)
    requires f < PAGES
    ensures Present(Entry(f, PERM_WU)) && Writable(Entry(f, PERM_WU)) && Flags(Entry(f, PERM_WU)) == 7
  {
    hide Entry;
  }

  /** After the fault the page is there, and reads as it did. */
  lemma PageIn(mem: seq<Frame>, owner: Owner, free: seq<nat>, mem': seq<Frame>, owner': Owner, free': seq<nat>,
               d: nat, v: nat)
    requires PageAdded(mem, owner, free, mem', owner', free', d, v)
    ensures d < |mem| == |mem'| && v < USERPAGES && Mapped(mem', d, v)
    ensures TableThere(mem, |free| - 1, mem', |free'|, d, v / ENTRIES)
    ensures forall e: nat | IsDir(owner, e) :: IsDir(owner', e)
  {
    hide Pte, Page, SameExcept, TableThere, Filled;
  }

  /** The store touches no directory. */
  lemma SlotsAfterStore(mem: seq<Frame>, owner: Owner, first: nat, d: nat, v: nat, j: nat, w: Word)
    requires Owned(mem, owner, first) && IsDir(owner, d) && v < USERPAGES && Mapped(mem, d, v) && j < ENTRIES
    ensures var f := Ppn(Pte(mem, d, v)); f < |mem| && Slots(mem[f := mem[f][j := w]], d) == Slots(mem, d)
  {
    PageOwned(mem, owner, first, d, v);
    hide Pte, Ppn;
  }

  lemma StoredAfter(mem0: seq<Frame>, owner0: Owner, mem1: seq<Frame>, owner1: Owner, mem2: seq<Frame>,
                    d: nat, v: nat, j: nat, w: Word)
    requires SameView(mem0, mem1, owner0) && WordStored(mem1, mem2, owner1, d, v, j, w) && IsDir(owner0, d)
    requires forall e: nat | IsDir(owner0, e) :: IsDir(owner1, e)
    ensures WordStored(mem0, mem2, owner0, d, v, j, w)
  {
    hide Page;
    forall e: nat, u: nat | IsDir(owner0, e) && u < USERPAGES && !(e == d && u == v)
      ensures Page(mem2, e, u) == Page(mem0, e, u)
    {
      assert Page(mem1, e, u) == Page(mem0, e, u);
    }
  }

  /** Outcome of mapping a zeroed frame. */
  datatype Grab = Got(f: nat) | Short | Stuck(f: nat) | Clash

  /** Every process sees the same words everywhere in its user memory. */
  ghost predicate SameView(mem: seq<Frame>, mem': seq<Frame>, owner: Owner) {
    |mem| == |mem'| && (forall d: nat | IsDir(owner, d) :: d < |mem|)
    && forall d: nat, v: nat | IsDir(owner, d) && v < USERPAGES :: Page(mem', d, v) == Page(mem, d, v)
  }

  lemma SpacesView(mem: seq<Frame>, mem': seq<Frame>, owner: Owner)
    requires SameSpaces(mem, mem', owner)
    ensures SameView(mem, mem', owner)
  {
    hide Page, Pte;
  }

  lemma FreeAnyway(mem: seq<Frame>, mem': seq<Frame>, owner: Owner, first: nat, free: seq<nat>)
    requires FreeList(mem, owner, first, free) && |mem'| == |mem|
    ensures FreeList(mem', owner, first, free)
  {
  }

  /** An unmapped page reads as zeros, and so does a fresh zeroed frame. */
  lemma ZeroPageView(mem: seq<Frame>, mem': seq<Frame>, owner: Owner, first: nat, d: nat, v: nat, f: nat)
    requires SameExcept(mem, mem', owner, d, v) && IsDir(owner, d) && v < USERPAGES && f < |mem| <= PAGES
    requires !Mapped(mem, d, v) && Pte(mem', d, v) == Entry(f, PERM_WU) && mem'[f] == Filled(0)
    ensures SameView(mem, mem', owner)
  {
    hide Pte, Entry;
    forall e: nat, u: nat | IsDir(owner, e) && u < USERPAGES ensures Page(mem', e, u) == Page(mem, e, u) {
    }
  }

  /** At most the page table for virtual page v has been added to space d. */
  ghost predicate Extends(owner: Owner, owner': Owner, d: nat, v: nat) {
    owner' == owner || exists t: nat :: t !in owner && owner' == owner[t := Table(d, v / ENTRIES)]
  }

  /** Space d has gained user page v in frame f, and at most the page table for it. */
  ghost predicate Grows(owner: Owner, owner': Owner, d: nat, v: nat, f: nat) {
    f !in owner && exists mid: Owner :: Extends(owner, mid, d, v) && f !in mid && owner' == mid[f := User(d, v)]
  }

  lemma SamePte(mem: seq<Frame>, mem': seq<Frame>, owner: Owner, d: nat, v: nat)
    requires SameSpaces(mem, mem', owner) && IsDir(owner, d) && v < PAGES
    ensures d < |mem| && Pte(mem', d, v) == Pte(mem, d, v)
  {
  }

  lemma ExceptAfter(mem0: seq<Frame>, mem1: seq<Frame>, mem2: seq<Frame>, owner0: Owner, owner1: Owner, d: nat, v: nat)
    requires SameSpaces(mem0, mem1, owner0) && SameExcept(mem1, mem2, owner1, d, v)
    requires forall e: nat | IsDir(owner0, e) :: IsDir(owner1, e)
    ensures SameExcept(mem0, mem2, owner0, d, v)
  {
    hide Pte, Page;
    forall e: nat, u: nat | IsDir(owner0, e) && u < PAGES && !(e == d && u == v)
      ensures Pte(mem2, e, u) == Pte(mem0, e, u)
    {
      assert Pte(mem1, e, u) == Pte(mem0, e, u);
    }
    forall e: nat, u: nat | IsDir(owner0, e) && u < USERPAGES && !(e == d && u == v)
      ensures Page(mem2, e, u) == Page(mem0, e, u)
    {
      assert Page(mem1, e, u) == Page(mem0, e, u);
    }
  }

  lemma NoTable(mem: seq<Frame>, d: nat, v: nat)
    requires d < |mem| && v < PAGES && !Present(mem[d][v / ENTRIES])
    ensures !Mapped(mem, d, v)
  {
  }

  lemma MappedTable(mem: seq<Frame>, d: nat, v: nat)
    requires d < |mem| && v < PAGES
    ensures Mapped(mem, d, v) ==> Present(mem[d][v / ENTRIES])
  {
    AbsentZero();
  }

  lemma FreePop(mem: seq<Frame>, owner: Owner, first: nat, free: seq<nat>)
    requires FreeList(mem, owner, first, free) && free != []
    ensures FreeList(mem, owner, first, free[1..])
    ensures first <= free[0] < |mem| && free[0] !in owner && free[0] !in free[1..] && free == [free[0]] + free[1..]
    ensures ToSet(free[1..]) + owner.Keys == ToSet(free) + owner.Keys - {free[0]}
  {
    hide ToSet, Distinct;
    PopDistinct(free);
    assert ToSet(free[1..]) == ToSet(free) - {free[0]};
  }

  lemma PopDistinct(free: seq<nat>)
    requires Distinct(free) && free != []
    ensures Distinct(free[1..]) && free[0] in free && free[0] !in free[1..] && free == [free[0]] + free[1..]
    ensures forall f :: f in free <==> f == free[0] || f in free[1..]
  {
    assert free == [free[0]] + free[1..];
  }

  lemma EmptyOwned(mem: seq<Frame>, first: nat)
    requires 0 < first <= |mem| <= PAGES
    ensures Owned(mem, map[], first)
  {
  }

  lemma SpacesSelf(mem: seq<Frame>, owner: Owner, first: nat)
    requires Owned(mem, owner, first)
    ensures SameSpaces(mem, mem, owner)
  {
    hide Pte, Page;
  }

  lemma SpacesTwice(mem0: seq<Frame>, mem1: seq<Frame>, mem2: seq<Frame>, owner: Owner)
    requires SameSpaces(mem0, mem1, owner) && SameSpaces(mem1, mem2, owner)
    ensures SameSpaces(mem0, mem2, owner)
  {
    hide Pte, Page;
    forall d: nat, v: nat | IsDir(owner, d) && v < PAGES ensures Pte(mem2, d, v) == Pte(mem0, d, v) {
      assert Pte(mem1, d, v) == Pte(mem0, d, v);
    }
    forall d: nat, v: nat | IsDir(owner, d) && v < USERPAGES ensures Page(mem2, d, v) == Page(mem0, d, v) {
      assert Page(mem1, d, v) == Page(mem0, d, v);
    }
  }

  /** A frame in no space can be overwritten. */
  lemma UnusedFrame(mem: seq<Frame>, owner: Owner, first: nat, f: nat, x: Frame)
    requires Owned(mem, owner, first) && f !in owner && f < |mem|
    ensures Owned(mem[f := x], owner, first) && SameSpaces(mem, mem[f := x], owner)
  {
    hide Page, Pte, Ppn, Present;
    SpacesFrame(mem, mem[f := x], owner, first);
  }
}
