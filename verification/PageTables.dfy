/** Two-level page tables in physical memory, and who owns every page frame.

    Memory is a sequence of 4096-byte frames, each read as 1024 little-endian words; the user part
    of an address space is virtual pages 0 .. USERPAGES - 1. */
module PageTables {
  import opened Blocks

  const ENTRIES := 1024
  const USERPAGES := 524288        // KERNBASE / PGSIZE
  const PAGES := 1048576
  const JUNK := 0x0101_0101        // what kfree fills a page with

  type Frame = f: seq<Word> | |f| == ENTRIES witness seq(ENTRIES, _ => 0)

  function Filled(w: Word): (f: Frame)
    ensures forall j | 0 <= j < ENTRIES :: f[j] == w
  {
    seq(ENTRIES, _ => w)
  }

  // ----- entries: frame number and flags -----

  predicate Present(e: Word) {
    e % 2 == 1
  }

  function Ppn(e: Word): (p: nat) {
    e / 4096
  }

  function Flags(e: Word): (f: nat) {
    e % 4096
  }

  /** PTE_W and PTE_U are set: the process may write. */
  predicate Writable(e: Word) {
    Flags(e) / 2 % 2 == 1 && Flags(e) / 4 % 2 == 1
  }

  /** A present entry for a frame, with the given permissions. */
  function Entry(ppn: nat, perm: nat): (e: Word)
    requires ppn < PAGES && perm < 4096
    ensures Present(e) && Ppn(e) == ppn
    ensures Flags(e) == if perm % 2 == 1 then perm else perm + 1
  {
    EntryParts(ppn, if perm % 2 == 1 then perm else perm + 1);
    ppn * 4096 + if perm % 2 == 1 then perm else perm + 1
  }

  lemma EntryParts(ppn: nat, flags: nat)
    requires flags < 4096
    ensures (ppn * 4096 + flags) / 4096 == ppn && (ppn * 4096 + flags) % 4096 == flags
    ensures (ppn * 4096 + flags) % 2 == flags % 2
  {
    assert ppn * 4096 + flags == 2 * (ppn * 2048) + flags;
  }

  /** The page table entry of virtual page v, 0 where there is no page table. */
  function Pte(mem: seq<Frame>, d: nat, v: nat): (e: Word)
    requires d < |mem| && v < PAGES
  {
    if Present(mem[d][v / ENTRIES]) && Ppn(mem[d][v / ENTRIES]) < |mem|
    then mem[Ppn(mem[d][v / ENTRIES])][v % ENTRIES]
    else 0
  }

  predicate Mapped(mem: seq<Frame>, d: nat, v: nat)
    requires d < |mem| && v < PAGES
  {
    Present(Pte(mem, d, v))
  }

  /** The words of user page v as the process sees them: zeros until the page exists. */
  function Page(mem: seq<Frame>, d: nat, v: nat): (f: Frame)
    requires d < |mem| && v < USERPAGES
  {
    if Mapped(mem, d, v) && Ppn(Pte(mem, d, v)) < |mem| then mem[Ppn(Pte(mem, d, v))] else Filled(0)
  }

  // ----- ownership -----

  /** What a frame is used for: a page directory, table i of one, or its user page v. */
  datatype Role = Dir | Table(dir: nat, i: nat) | User(dir: nat, v: nat)

  type Owner = map<nat, Role>

  ghost predicate IsDir(owner: Owner, d: nat) {
    d in owner && owner[d] == Dir
  }

  /** A present directory entry points to the frame owned as that table. */
  ghost predicate DirsPoint(mem: seq<Frame>, owner: Owner) {
    forall d: nat, i: nat | IsDir(owner, d) && d < |mem| && i < ENTRIES && Present(mem[d][i]) ::
      Ppn(mem[d][i]) in owner && owner[Ppn(mem[d][i])] == Table(d, i)
  }

  /** A present entry of a user page table points to the frame owned as that page. */
  ghost predicate TablesPoint(mem: seq<Frame>, owner: Owner) {
    forall f, j: nat | f in owner && f < |mem| && owner[f].Table? && owner[f].i < USERPAGES / ENTRIES
                       && j < ENTRIES && Present(mem[f][j]) ::
      Ppn(mem[f][j]) in owner && owner[Ppn(mem[f][j])] == User(owner[f].dir, owner[f].i * ENTRIES + j)
  }

  /** A frame owned as a table is the one its directory entry points to. */
  ghost predicate TablesPointed(mem: seq<Frame>, owner: Owner) {
    forall f | f in owner && owner[f].Table? ::
      IsDir(owner, owner[f].dir) && owner[f].dir < |mem| && owner[f].i < ENTRIES
      && Present(mem[owner[f].dir][owner[f].i]) && Ppn(mem[owner[f].dir][owner[f].i]) == f
  }

  /** A frame owned as a user page is the one its page table entry points to. */
  ghost predicate PagesPointed(mem: seq<Frame>, owner: Owner) {
    forall f | f in owner && owner[f].User? ::
      IsDir(owner, owner[f].dir) && owner[f].dir < |mem| && owner[f].v < USERPAGES
      && Mapped(mem, owner[f].dir, owner[f].v) && Ppn(Pte(mem, owner[f].dir, owner[f].v)) == f
  }

  /** Every entry that is present points to a frame owned for exactly that entry, and every owned
      frame is pointed to by the entry it is owned for. */
  ghost predicate Owned(mem: seq<Frame>, owner: Owner, first: nat) {
    && 0 < first <= |mem| <= PAGES
    && (forall f | f in owner :: first <= f < |mem|)
    && DirsPoint(mem, owner) && TablesPoint(mem, owner)
    && TablesPointed(mem, owner) && PagesPointed(mem, owner)
  }

  /** The address space a frame belongs to. */
  ghost function SpaceOf(owner: Owner, f: nat): nat
    requires f in owner
  {
    match owner[f] case Dir => f case Table(d, _) => d case User(d, _) => d
  }

  /** All frames of an address space. */
  ghost function Space(owner: Owner, d: nat): (s: set<nat>) {
    set f | f in owner && SpaceOf(owner, f) == d
  }

  lemma TableOwned(mem: seq<Frame>, owner: Owner, first: nat, d: nat, i: nat)
    requires Owned(mem, owner, first) && IsDir(owner, d) && i < ENTRIES && Present(mem[d][i])
    ensures first <= Ppn(mem[d][i]) < |mem|
    ensures Ppn(mem[d][i]) in owner && owner[Ppn(mem[d][i])] == Table(d, i)
  {
  }

  lemma PageOwned(mem: seq<Frame>, owner: Owner, first: nat, d: nat, v: nat)
    requires Owned(mem, owner, first) && IsDir(owner, d) && v < USERPAGES && Mapped(mem, d, v)
    ensures first <= Ppn(Pte(mem, d, v)) < |mem|
    ensures Ppn(Pte(mem, d, v)) in owner && owner[Ppn(Pte(mem, d, v))] == User(d, v)
  {
    TableOwned(mem, owner, first, d, v / ENTRIES);
    var t := Ppn(mem[d][v / ENTRIES]);
    assert v == v / ENTRIES * ENTRIES + v % ENTRIES;
    assert Present(mem[t][v % ENTRIES]);
  }

  /** The tables and user pages of all spaces look the same in mem' as in mem. */
  ghost predicate SameSpaces(mem: seq<Frame>, mem': seq<Frame>, owner: Owner) {
    |mem| == |mem'| && (forall d: nat | IsDir(owner, d) :: d < |mem|)
    && (forall d: nat, v: nat | IsDir(owner, d) && v < PAGES :: Pte(mem', d, v) == Pte(mem, d, v))
    && (forall d: nat, v: nat | IsDir(owner, d) && v < USERPAGES :: Page(mem', d, v) == Page(mem, d, v))
  }

  /** Frames that are not part of any space can change without anyone noticing. */
  lemma SpacesFrame(mem: seq<Frame>, mem': seq<Frame>, owner: Owner, first: nat)
    requires Owned(mem, owner, first) && |mem'| == |mem|
    requires forall d: nat, i: nat | IsDir(owner, d) && i < ENTRIES && Present(mem[d][i]) :: mem'[d][i] == mem[d][i]
    requires forall d: nat, i: nat | IsDir(owner, d) && i < ENTRIES && !Present(mem[d][i]) && Present(mem'[d][i]) ::
               first <= Ppn(mem'[d][i]) < |mem| && mem'[Ppn(mem'[d][i])] == Filled(0)
    requires forall f | f in owner && !owner[f].Dir? :: mem'[f] == mem[f]
    ensures SameSpaces(mem, mem', owner)
  {
    forall e: nat, v: nat | IsDir(owner, e) && v < PAGES ensures Pte(mem', e, v) == Pte(mem, e, v) {
      if Present(mem[e][v / ENTRIES]) {
        TableOwned(mem, owner, first, e, v / ENTRIES);
      }
    }
    forall e: nat, v: nat | IsDir(owner, e) && v < USERPAGES ensures Page(mem', e, v) == Page(mem, e, v) {
      if Mapped(mem, e, v) {
        PageOwned(mem, owner, first, e, v);
      }
    }
  }

  /** walkpgdir's new page table: nothing that was visible changes. */
  lemma AddTable(mem: seq<Frame>, owner: Owner, first: nat, d: nat, i: nat, f: nat)
    requires Owned(mem, owner, first) && IsDir(owner, d) && i < ENTRIES && !Present(mem[d][i])
    requires f !in owner && first <= f < |mem|
    ensures f != d
    ensures var mem' := mem[f := Filled(0)][d := mem[d][i := Entry(f, 7)]];
            && Owned(mem', owner[f := Table(d, i)], first)
            && SameSpaces(mem, mem', owner)
  {
    hide Page, Ppn, Entry, Present, Pte;
    AbsentZero();
    var mem' := mem[f := Filled(0)][d := mem[d][i := Entry(f, 7)]];
    SpacesFrame(mem, mem', owner, first);
    var owner' := owner[f := Table(d, i)];
    assert forall e: nat :: IsDir(owner', e) <==> IsDir(owner, e);
    assert DirsPoint(mem', owner') by { hide TablesPoint, PagesPointed, TablesPointed, SameSpaces; }
    assert TablesPoint(mem', owner') by { hide DirsPoint, PagesPointed, TablesPointed, SameSpaces; }
    assert TablesPointed(mem', owner') by { hide DirsPoint, PagesPointed, TablesPoint, SameSpaces; }
    assert PagesPointed(mem', owner') by { hide DirsPoint, TablesPointed, TablesPoint; }
  }

  lemma AbsentZero()
    ensures !Present(0)
  {
  }

  /** All spaces look the same except at virtual page v of space d. */
  ghost predicate SameExcept(mem: seq<Frame>, mem': seq<Frame>, owner: Owner, d: nat, v: nat) {
    |mem| == |mem'| && (forall e: nat | IsDir(owner, e) :: e < |mem|)
    && (forall e: nat, u: nat | IsDir(owner, e) && u < PAGES && !(e == d && u == v) ::
      Pte(mem', e, u) == Pte(mem, e, u))
    && (forall e: nat, u: nat | IsDir(owner, e) && u < USERPAGES && !(e == d && u == v) ::
      Page(mem', e, u) == Page(mem, e, u))
  }

  /** One word of the table behind (d, v) is changed, and frame f, which nobody else has. */
  lemma OneEntry(mem: seq<Frame>, mem': seq<Frame>, owner: Owner, first: nat, d: nat, v: nat, f: nat, e: Word)
    requires Owned(mem, owner, first) && IsDir(owner, d) && v < PAGES && Present(mem[d][v / ENTRIES])
    requires f < |mem| && (f in owner ==> owner[f] == User(d, v))
    requires var t := Ppn(mem[d][v / ENTRIES]);
             && t < |mem| && f != t && |mem'| == |mem| && mem'[t] == mem[t][v % ENTRIES := e]
             && forall g | 0 <= g < |mem| && g != t && g != f :: mem'[g] == mem[g]
    ensures Pte(mem', d, v) == e
    ensures SameExcept(mem, mem', owner, d, v)
  {
    hide Present, Ppn;
    var t := Ppn(mem[d][v / ENTRIES]);
    TableOwned(mem, owner, first, d, v / ENTRIES);
    forall c: nat, u: nat | IsDir(owner, c) && u < PAGES && !(c == d && u == v)
      ensures Pte(mem', c, u) == Pte(mem, c, u)
    {
      if Present(mem[c][u / ENTRIES]) {
        TableOwned(mem, owner, first, c, u / ENTRIES);
        assert u == u / ENTRIES * ENTRIES + u % ENTRIES && v == v / ENTRIES * ENTRIES + v % ENTRIES;
      }
    }
    forall c: nat, u: nat | IsDir(owner, c) && u < USERPAGES && !(c == d && u == v)
      ensures Page(mem', c, u) == Page(mem, c, u)
    {
      if Mapped(mem, c, u) {
        PageOwned(mem, owner, first, c, u);
      }
    }
  }

  /** mappages on a user page: it gets the fresh frame f; every other page of every space stays. */
  lemma MapUser(mem: seq<Frame>, owner: Owner, first: nat, d: nat, v: nat, f: nat, perm: nat)
    requires Owned(mem, owner, first) && IsDir(owner, d) && v < USERPAGES && perm < 4096
    requires Present(mem[d][v / ENTRIES]) && !Mapped(mem, d, v)
    requires f !in owner && first <= f < |mem|
    ensures var t := Ppn(mem[d][v / ENTRIES]);
            && t < |mem| && t != f
            && var mem' := mem[t := mem[t][v % ENTRIES := Entry(f, perm)]];
               && Owned(mem', owner[f := User(d, v)], first)
               && SameExcept(mem, mem', owner, d, v)
               && Pte(mem', d, v) == Entry(f, perm) && mem'[f] == mem[f]
  {
    hide Page, Ppn, Present, Entry, Pte;
    var t := Ppn(mem[d][v / ENTRIES]);
    TableOwned(mem, owner, first, d, v / ENTRIES);
    PteIs(mem, d, v);
    var mem' := mem[t := mem[t][v % ENTRIES := Entry(f, perm)]];
    var owner' := owner[f := User(d, v)];
    OneEntry(mem, mem', owner, first, d, v, f, Entry(f, perm));
    assert v == v / ENTRIES * ENTRIES + v % ENTRIES;
    assert forall e: nat :: IsDir(owner', e) <==> IsDir(owner, e);
    assert DirsPoint(mem', owner') by { hide TablesPoint, PagesPointed, TablesPointed, SameExcept; }
    assert TablesPoint(mem', owner') by { hide DirsPoint, PagesPointed, TablesPointed, SameExcept; }
    assert TablesPointed(mem', owner') by { hide DirsPoint, PagesPointed, TablesPoint, SameExcept; }
    assert PagesPointed(mem', owner') by { hide DirsPoint, TablesPointed, TablesPoint; }
  }

  lemma PteIs(mem: seq<Frame>, d: nat, v: nat)
    requires d < |mem| && v < PAGES && Present(mem[d][v / ENTRIES]) && Ppn(mem[d][v / ENTRIES]) < |mem|
    ensures Pte(mem, d, v) == mem[Ppn(mem[d][v / ENTRIES])][v % ENTRIES]
  {
  }

  /** Every page of every space is as it was, except that word j of page v of space d is now w. */
  ghost predicate WordStored(mem: seq<Frame>, mem': seq<Frame>, owner: Owner, d: nat, v: nat, j: nat, w: Word) {
    && |mem| == |mem'| && (forall e: nat | IsDir(owner, e) :: e < |mem|) && d < |mem| && v < USERPAGES && j < ENTRIES
    && (forall e: nat, u: nat | IsDir(owner, e) && u < USERPAGES && !(e == d && u == v) ::
          Page(mem', e, u) == Page(mem, e, u))
    && Page(mem', d, v) == Page(mem, d, v)[j := w]
  }

  /** A store to a user page: no other page shares its frame, and no table lies in it. */
  lemma StoreWord(mem: seq<Frame>, owner: Owner, first: nat, d: nat, v: nat, j: nat, w: Word)
    requires Owned(mem, owner, first) && IsDir(owner, d) && v < USERPAGES && Mapped(mem, d, v) && j < ENTRIES
    ensures var f := Ppn(Pte(mem, d, v));
            && f < |mem|
            && var mem' := mem[f := mem[f][j := w]];
               && Owned(mem', owner, first) && WordStored(mem, mem', owner, d, v, j, w)
               && forall e: nat, u: nat | IsDir(owner, e) && u < PAGES :: Pte(mem', e, u) == Pte(mem, e, u)
  {
    PageOwned(mem, owner, first, d, v);
    var f := Ppn(Pte(mem, d, v));
    var mem' := mem[f := mem[f][j := w]];
    forall e: nat, u: nat | IsDir(owner, e) && u < PAGES ensures Pte(mem', e, u) == Pte(mem, e, u) {
      if Present(mem[e][u / ENTRIES]) {
        TableOwned(mem, owner, first, e, u / ENTRIES);
      }
    }
    forall e: nat, u: nat | IsDir(owner, e) && u < USERPAGES && !(e == d && u == v)
      ensures Page(mem', e, u) == Page(mem, e, u)
    {
      if Mapped(mem, e, u) {
        PageOwned(mem, owner, first, e, u);
      }
    }
    StoreKeepsOwned(mem, owner, first, f, mem');
  }

  lemma StoreKeepsOwned(mem: seq<Frame>, owner: Owner, first: nat, f: nat, mem': seq<Frame>)
    requires Owned(mem, owner, first) && f in owner && owner[f].User? && |mem'| == |mem|
    requires forall g: nat | g < |mem| && g != f :: mem'[g] == mem[g]
    requires forall e: nat, u: nat | IsDir(owner, e) && e < |mem| && u < PAGES :: Pte(mem', e, u) == Pte(mem, e, u)
    ensures Owned(mem', owner, first)
  {
    hide Pte, Present, Ppn;
    assert DirsPoint(mem', owner) by { hide TablesPoint, PagesPointed, TablesPointed; }
    assert TablesPoint(mem', owner) by { hide DirsPoint, PagesPointed, TablesPointed; }
    assert TablesPointed(mem', owner) by { hide DirsPoint, PagesPointed, TablesPoint; }
    assert PagesPointed(mem', owner) by { hide DirsPoint, TablesPointed, TablesPoint; }
  }

  /** mappages on a kernel page: it is not owned by the space. */
  lemma MapKernel(mem: seq<Frame>, owner: Owner, first: nat, d: nat, v: nat, e: Word)
    requires Owned(mem, owner, first) && IsDir(owner, d) && USERPAGES <= v < PAGES && Present(mem[d][v / ENTRIES])
    ensures var t := Ppn(mem[d][v / ENTRIES]);
            && t < |mem|
            && var mem' := mem[t := mem[t][v % ENTRIES := e]];
               && Owned(mem', owner, first)
               && SameExcept(mem, mem', owner, d, v)
               && Pte(mem', d, v) == e
  {
    hide Page, Ppn, Present, Pte;
    var t := Ppn(mem[d][v / ENTRIES]);
    TableOwned(mem, owner, first, d, v / ENTRIES);
    var mem' := mem[t := mem[t][v % ENTRIES := e]];
    OneEntry(mem, mem', owner, first, d, v, 0, e);
    assert DirsPoint(mem', owner) by { hide TablesPoint, PagesPointed, TablesPointed, SameExcept; }
    assert TablesPoint(mem', owner) by { hide DirsPoint, PagesPointed, TablesPointed, SameExcept; }
    assert TablesPointed(mem', owner) by { hide DirsPoint, PagesPointed, TablesPoint, SameExcept; }
    assert PagesPointed(mem', owner) by { hide DirsPoint, TablesPointed, TablesPoint; }
  }

  /** deallocuvm on a mapped page: its frame is nobody's any more. */
  lemma UnmapUser(mem: seq<Frame>, owner: Owner, first: nat, d: nat, v: nat, junk: Frame)
    requires Owned(mem, owner, first) && IsDir(owner, d) && v < USERPAGES && Mapped(mem, d, v)
    ensures Present(mem[d][v / ENTRIES])
    ensures var (t, f) := (Ppn(mem[d][v / ENTRIES]), Ppn(Pte(mem, d, v)));
            && t < |mem| && first <= f < |mem| && t != f && f in owner && owner[f] == User(d, v)
            && var mem' := mem[f := junk][t := mem[t][v % ENTRIES := 0]];
               && Owned(mem', owner - {f}, first)
               && SameExcept(mem, mem', owner, d, v)
               && Pte(mem', d, v) == 0
  {
    hide Page, Ppn, Present, Pte, DirsPoint, TablesPoint, TablesPointed, PagesPointed, SameExcept;
    PageOwned(mem, owner, first, d, v);
    MappedHasTable(mem, d, v);
    var t, f := Ppn(mem[d][v / ENTRIES]), Ppn(Pte(mem, d, v));
    TableOwned(mem, owner, first, d, v / ENTRIES);
    PteIs(mem, d, v);
    var mem' := mem[f := junk][t := mem[t][v % ENTRIES := 0]];
    OneEntry(mem, mem', owner, first, d, v, f, 0);
    UnmapDirs(mem, mem', owner, first, d, v, t, f);
    UnmapTables(mem, mem', owner, first, d, v, t, f);
    UnmapPages(mem, mem', owner, first, d, v, t, f);
  }

  lemma MappedHasTable(mem: seq<Frame>, d: nat, v: nat)
    requires d < |mem| && v < PAGES && Mapped(mem, d, v)
    ensures Present(mem[d][v / ENTRIES])
  {
    AbsentZero();
  }

  /** The entry for page v of space d, in table t, is cleared and its frame f let go. */
  ghost predicate Unmapping(mem: seq<Frame>, mem': seq<Frame>, owner: Owner, first: nat, d: nat, v: nat, t: nat,
                            f: nat) {
    && Owned(mem, owner, first) && IsDir(owner, d) && v < USERPAGES && d < |mem|
    && t in owner && owner[t] == Table(d, v / ENTRIES) && f in owner && owner[f] == User(d, v)
    && t < |mem| && f < |mem| == |mem'| && Present(mem[d][v / ENTRIES]) && Ppn(mem[d][v / ENTRIES]) == t
    && mem'[t] == mem[t][v % ENTRIES := 0]
    && (forall g | 0 <= g < |mem| && g != t && g != f :: mem'[g] == mem[g])
  }

  lemma UnmapDirs(mem: seq<Frame>, mem': seq<Frame>, owner: Owner, first: nat, d: nat, v: nat, t: nat, f: nat)
    requires Unmapping(mem, mem', owner, first, d, v, t, f)
    ensures DirsPoint(mem', owner - {f}) && TablesPointed(mem', owner - {f})
  {
    hide Ppn, Present, TablesPoint, PagesPointed;
    assert forall e: nat :: IsDir(owner - {f}, e) <==> IsDir(owner, e);
  }

  lemma UnmapTables(mem: seq<Frame>, mem': seq<Frame>, owner: Owner, first: nat, d: nat, v: nat, t: nat, f: nat)
    requires Unmapping(mem, mem', owner, first, d, v, t, f)
    ensures TablesPoint(mem', owner - {f})
  {
    AbsentZero();
    hide Ppn, Present, DirsPoint, PagesPointed;
    assert v == v / ENTRIES * ENTRIES + v % ENTRIES;
  }

  lemma UnmapPages(mem: seq<Frame>, mem': seq<Frame>, owner: Owner, first: nat, d: nat, v: nat, t: nat, f: nat)
    requires Unmapping(mem, mem', owner, first, d, v, t, f) && SameExcept(mem, mem', owner, d, v)
    ensures PagesPointed(mem', owner - {f})
  {
    hide Ppn, Present, Pte, DirsPoint, TablesPoint, TablesPointed;
    assert forall e: nat :: IsDir(owner - {f}, e) <==> IsDir(owner, e);
  }

  /** setupkvm's new, empty page directory. */
  lemma NewDir(mem: seq<Frame>, owner: Owner, first: nat, f: nat)
    requires Owned(mem, owner, first) && f !in owner && first <= f < |mem|
    ensures var mem' := mem[f := Filled(0)];
            && Owned(mem', owner[f := Dir], first)
            && SameSpaces(mem, mem', owner)
            && forall v: nat | v < PAGES :: Pte(mem', f, v) == 0
  {
    hide Page, Ppn, Present;
    AbsentZero();
    var mem' := mem[f := Filled(0)];
    var owner' := owner[f := Dir];
    SpacesFrame(mem, mem', owner, first);
    assert forall v: nat | v < PAGES :: Pte(mem', f, v) == 0;
    hide Pte;
    assert forall e: nat :: IsDir(owner', e) <==> IsDir(owner, e) || e == f;
    assert DirsPoint(mem', owner') by { hide TablesPoint, PagesPointed, TablesPointed, SameSpaces; }
    assert TablesPoint(mem', owner') by { hide DirsPoint, PagesPointed, TablesPointed, SameSpaces; }
    assert TablesPointed(mem', owner') by { hide DirsPoint, PagesPointed, TablesPoint, SameSpaces; }
    assert PagesPointed(mem', owner') by { hide DirsPoint, TablesPointed, TablesPoint; }
  }

  /** freevm: when all frames of a space are gone, the others are as they were. */
  lemma DropSpace(mem: seq<Frame>, mem': seq<Frame>, owner: Owner, first: nat, d: nat)
    requires Owned(mem, owner, first) && IsDir(owner, d) && |mem'| == |mem|
    requires forall f | f in owner && SpaceOf(owner, f) != d :: mem'[f] == mem[f]
    ensures Owned(mem', owner - Space(owner, d), first)
    ensures SameSpaces(mem, mem', owner - Space(owner, d))
  {
    var owner' := owner - Space(owner, d);
    assert forall e: nat :: IsDir(owner', e) <==> IsDir(owner, e) && e != d;
    forall e: nat, v: nat | IsDir(owner', e) && v < PAGES ensures Pte(mem', e, v) == Pte(mem, e, v) {
      if Present(mem[e][v / ENTRIES]) {
        TableOwned(mem, owner, first, e, v / ENTRIES);
      }
    }
    forall e: nat, v: nat | IsDir(owner', e) && v < USERPAGES ensures Page(mem', e, v) == Page(mem, e, v) {
      if Mapped(mem, e, v) {
        PageOwned(mem, owner, first, e, v);
      }
    }
    hide Page, Ppn, Present, Pte;
    assert DirsPoint(mem', owner') by { hide TablesPoint, PagesPointed, TablesPointed, SameSpaces; }
    assert TablesPoint(mem', owner') by { hide DirsPoint, PagesPointed, SameSpaces; }
    assert TablesPointed(mem', owner') by { hide DirsPoint, PagesPointed, TablesPoint, SameSpaces; }
    assert PagesPointed(mem', owner') by { hide DirsPoint, TablesPointed, TablesPoint; }
  }
}
