/** The map of physical memory in the boot page tables (boot/src/paging.c): one set of 2 MiB pages,
    reachable both at address 0 and at RKHV_PHYSICAL_MEMORY_BASE. */
module BootPhysicalMap {
  import opened Bits
  import opened Paging
  import opened PageTableEntries
  import opened PhysicalMemory
  import opened RadixTree
  import opened Outcomes
  import opened BootPool
  import opened AddressMap
  import opened BootPaging

  /** The address space that a PML4 entry covers: 512 GiB. */
  const PML4E_SPAN: nat := 0x80_0000_0000

  // --- the tables ------------------------------------------------------------------------------------

  ghost predicate DirectoryDone(m: Memory, pd: nat, i: nat, entries: nat)
    requires i < PAGE_TABLE_ENTRIES && entries <= PAGE_TABLE_ENTRIES
  {
    forall j: nat {:trigger At(m, pd)[j]} :: j < entries ==> At(m, pd)[j] == LargeEntry(i * PAGE_TABLE_ENTRIES + j)
  }

  ghost predicate PointersDone(m: Memory, pdpt: nat, pds: nat, entries: nat)
    requires entries <= PAGE_TABLE_ENTRIES
  {
    forall i: nat {:trigger At(m, pdpt)[i]} :: i < entries ==>
      At(m, pdpt)[i] == TableEntry(pds + i * PAGE_SIZE) && DirectoryDone(m, pds + i * PAGE_SIZE, i, PAGE_TABLE_ENTRIES)
  }

  /** The two new tables and nothing else may have changed. */
  ghost predicate OutsideSame(m: Memory, m': Memory, pdpt: nat, pds: nat) {
    forall p: nat :: p != pdpt && !InRun(pds, PAGE_TABLE_ENTRIES, p) ==> SameAt(m, m', p)
  }

  lemma PointersKept(m: Memory, m': Memory, pdpt: nat, pds: nat, entries: nat, pd: nat)
    requires entries < PAGE_TABLE_ENTRIES && PointersDone(m, pdpt, pds, entries)
    requires pds % PAGE_SIZE == 0 && pd == pds + entries * PAGE_SIZE && !InRun(pds, PAGE_TABLE_ENTRIES, pdpt)
    requires forall p: nat :: p != pdpt && p != pd ==> SameAt(m, m', p)
    requires forall i: nat :: i < entries ==> At(m', pdpt)[i] == At(m, pdpt)[i]
    ensures PointersDone(m', pdpt, pds, entries)
  {
    hide TableEntry, LargeEntry;
    forall i: nat | i < entries
      ensures At(m', pdpt)[i] == TableEntry(pds + i * PAGE_SIZE)
              && DirectoryDone(m', pds + i * PAGE_SIZE, i, PAGE_TABLE_ENTRIES)
    {
      assert At(m', pdpt)[i] == At(m, pdpt)[i];
      assert InRun(pds, PAGE_TABLE_ENTRIES, pds + i * PAGE_SIZE);
      assert SameAt(m, m', pds + i * PAGE_SIZE);
    }
  }

  /** The nested loops of paging_map_physical. */
  method FillDirectories(pages: PagePool, pdpt: nat, pds: nat)
    requires RunOk(pds, PAGE_TABLE_ENTRIES) && !InRun(pds, PAGE_TABLE_ENTRIES, pdpt)
    modifies pages`memory
    ensures PointersDone(pages.memory, pdpt, pds, PAGE_TABLE_ENTRIES)
    ensures OutsideSame(old(pages.memory), pages.memory, pdpt, pds)
  {
    hide TableEntry, LargeEntry;
    for pdptIndex := 0 to PAGE_TABLE_ENTRIES
      invariant PointersDone(pages.memory, pdpt, pds, pdptIndex)
      invariant OutsideSame(old(pages.memory), pages.memory, pdpt, pds)
    {
      FillDirectory(pages, pdpt, pds, pdptIndex);
    }
  }

  ghost predicate OnlyAt(m: Memory, m': Memory, pd: nat) {
    forall p: nat :: p != pd ==> SameAt(m, m', p)
  }

  lemma DirectoryStarts(m: Memory, pdpt: nat, i: nat, e: u64, pd: nat)
    requires i < PAGE_TABLE_ENTRIES
    ensures var m1 := WriteWord(m, pdpt, i, e); DirectoryDone(m1, pd, i, 0) && OnlyAt(m1, m1, pd)
  {
  }

  lemma DirectoryStep(m: Memory, m1: Memory, pd: nat, i: nat, j: nat)
    requires i < PAGE_TABLE_ENTRIES && j < PAGE_TABLE_ENTRIES && DirectoryDone(m1, pd, i, j) && OnlyAt(m, m1, pd)
    ensures var m2 := WriteWord(m1, pd, j, LargeEntry(i * PAGE_TABLE_ENTRIES + j));
            DirectoryDone(m2, pd, i, j + 1) && OnlyAt(m, m2, pd)
  {
    hide LargeEntry;
    var m2 := WriteWord(m1, pd, j, LargeEntry(i * PAGE_TABLE_ENTRIES + j));
    forall p: nat | p != pd
      ensures SameAt(m, m2, p)
    {
      assert SameAt(m, m1, p);
    }
  }

  lemma SamePages(m: Memory, m1: Memory, m2: Memory, pdpt: nat, pd: nat)
    requires OnlyAt(m1, m2, pd) && pdpt != pd && forall p: nat :: p != pdpt ==> SameAt(m, m1, p)
    ensures SameAt(m1, m2, pdpt) && forall p: nat :: p != pdpt && p != pd ==> SameAt(m, m2, p)
  {
    forall p: nat | p != pdpt && p != pd
      ensures SameAt(m, m2, p)
    {
      assert SameAt(m, m1, p) && SameAt(m1, m2, p);
    }
  }

  /** One round of the outer loop: the entry of the PDPT and the directory it points to. */
  method FillDirectory(pages: PagePool, pdpt: nat, pds: nat, pdptIndex: nat)
    requires RunOk(pds, PAGE_TABLE_ENTRIES) && !InRun(pds, PAGE_TABLE_ENTRIES, pdpt) && pdptIndex < PAGE_TABLE_ENTRIES
    requires PointersDone(pages.memory, pdpt, pds, pdptIndex)
    modifies pages`memory
    ensures PointersDone(pages.memory, pdpt, pds, pdptIndex + 1)
    ensures OutsideSame(old(pages.memory), pages.memory, pdpt, pds)
  {
    hide TableEntry, LargeEntry, PointersDone, DirectoryDone, OnlyAt;
    DirectoryStarts(pages.memory, pdpt, pdptIndex, TableEntry(pds + pdptIndex * PAGE_SIZE),
                    pds + pdptIndex * PAGE_SIZE);
    var pdBase := pdptIndex * PAGE_TABLE_ENTRIES;
    // &pds[pd_base]: the entries are eight bytes long.
    var pd := pds + pdBase * 8;
    assert InRun(pds, PAGE_TABLE_ENTRIES, pd);
    ghost var m := pages.memory;
    pages.memory := WriteWord(pages.memory, pdpt, pdptIndex, TableEntry(pd));
    ghost var m1 := pages.memory;
    for pdIndex := 0 to PAGE_TABLE_ENTRIES
      invariant DirectoryDone(pages.memory, pd, pdptIndex, pdIndex)
      invariant OnlyAt(m1, pages.memory, pd)
    {
      DirectoryStep(m1, pages.memory, pd, pdptIndex, pdIndex);
      pages.memory := WriteWord(pages.memory, pd, pdIndex, LargeEntry(pdBase + pdIndex));
    }
    SamePages(m, m1, pages.memory, pdpt, pd);
    PointersKept(m, pages.memory, pdpt, pds, pdptIndex, pd);
    PointersStep(pages.memory, pdpt, pds, pdptIndex);
  }

  lemma PointersStep(m: Memory, pdpt: nat, pds: nat, i: nat)
    requires i < PAGE_TABLE_ENTRIES && PointersDone(m, pdpt, pds, i)
    requires At(m, pdpt)[i] == TableEntry(pds + i * PAGE_SIZE)
    requires DirectoryDone(m, pds + i * PAGE_SIZE, i, PAGE_TABLE_ENTRIES)
    ensures PointersDone(m, pdpt, pds, i + 1)
  {
    hide TableEntry, DirectoryDone;
    forall k: nat | k < i + 1
      ensures At(m, pdpt)[k] == TableEntry(pds + k * PAGE_SIZE)
              && DirectoryDone(m, pds + k * PAGE_SIZE, k, PAGE_TABLE_ENTRIES)
    {
    }
  }

  // --- the translation -----------------------------------------------------------------------------

  /** The addresses that paging_map_physical maps: the PML4 entries 0 and 2. */
  predicate InPhysicalMap(a: nat) {
    a / PML4E_SPAN == 0 || a / PML4E_SPAN == 2
  }

  function PhysicalHit(a: nat): Hit {
    Hit(1, LargeEntry(a % PML4E_SPAN / 0x20_0000), true, false)
  }

  /** Both places translate to the physical address. */
  lemma PhysicalTarget(a: nat)
    requires a < SPACE && InPhysicalMap(a)
    ensures Target(PhysicalHit(a), a) == a % PML4E_SPAN
  {
    hide LargeEntry;
    var b := a % PML4E_SPAN;
    var k := b / 0x20_0000;
    assert a == a / PML4E_SPAN * PML4E_SPAN + b;
    assert a == (a / PML4E_SPAN * 0x4_0000 + k) * 0x20_0000 + b % 0x20_0000;
    RemainderIs(a, 0x20_0000, a / PML4E_SPAN * 0x4_0000 + k, b % 0x20_0000);
    assert BaseAt(LargeEntry(k), 1) == k * 0x20_0000;
  }

  lemma PhysicalIndices(a: nat)
    requires a < SPACE
    ensures Index(a, 3) == a / PML4E_SPAN
    ensures a % PML4E_SPAN / 0x20_0000 == Index(a, 2) * PAGE_TABLE_ENTRIES + Index(a, 1) < 0x4_0000
  {
    var q, b := a / PML4E_SPAN, a % PML4E_SPAN;
    assert a == q * PML4E_SPAN + b;
    assert a / 0x4000_0000 == q * 512 + b / 0x4000_0000;
    RemainderIs(a / 0x4000_0000, 512, q, b / 0x4000_0000);
    assert a / 0x20_0000 == (q * 512 + b / 0x4000_0000) * 512 + b % 0x4000_0000 / 0x20_0000;
    RemainderIs(a / 0x20_0000, 512, q * 512 + b / 0x4000_0000, b % 0x4000_0000 / 0x20_0000);
    assert b / 0x20_0000 == b / 0x4000_0000 * 512 + b % 0x4000_0000 / 0x20_0000;
  }

  /** The walk through the new tables. */
  lemma PhysicalWalk(m: Memory, pml4: nat, pdpt: nat, pds: nat, a: nat)
    requires a < SPACE && InPhysicalMap(a) && IsPage(pdpt) && RunOk(pds, PAGE_TABLE_ENTRIES)
    requires At(m, pml4)[0] == TableEntry(pdpt) && At(m, pml4)[2] == TableEntry(pdpt)
    requires PointersDone(m, pdpt, pds, PAGE_TABLE_ENTRIES)
    ensures Lookup(m, pml4, a) == Some(PhysicalHit(a))
  {
    hide TableEntry, LargeEntry;
    PhysicalIndices(a);
    var i, j := Index(a, 2), Index(a, 1);
    var pd := pds + i * PAGE_SIZE;
    PageBase(pdpt);
    PageBase(pd);
    assert At(m, pdpt)[i] == TableEntry(pd) && DirectoryDone(m, pd, i, PAGE_TABLE_ENTRIES);
    assert At(m, pd)[j] == LargeEntry(i * PAGE_TABLE_ENTRIES + j);
    var leaf := Hit(1, LargeEntry(i * PAGE_TABLE_ENTRIES + j), true, false);
    assert Walk(m, pd, 1, a) == Some(leaf);
    assert Walk(m, pdpt, 2, a) == Some(leaf);
    assert Walk(m, pml4, 3, a) == Some(leaf);
  }

  /** Below the root, a lookup depends on the tables below the root only. */
  lemma {:induction false} WalkBelowRoot(m: Memory, m': Memory, tables: map<Node, nat>, a: nat, level: nat)
    requires Tree(m, tables) && a < SPACE && level <= 2 && NodeOf(a, level) in tables
    requires forall n :: n in tables && n != ROOT ==> SameAt(m, m', tables[n])
    ensures Walk(m', tables[NodeOf(a, level)], level, a) == Walk(m, tables[NodeOf(a, level)], level, a)
  {
    assert SameAt(m, m', tables[NodeOf(a, level)]);
    if level > 0 {
      WalkStep(m, tables, a, level);
      if NodeOf(a, level - 1) in tables {
        WalkBelowRoot(m, m', tables, a, level - 1);
      }
    }
  }

  /** Addresses whose PML4 entry stays translate as before. */
  lemma OtherEntriesKeep(m: Memory, m': Memory, tables: map<Node, nat>, a: nat)
    requires Tree(m, tables) && a < SPACE && !InPhysicalMap(a)
    requires forall n :: n in tables && n != ROOT ==> SameAt(m, m', tables[n])
    requires forall i :: 0 <= i < PAGE_TABLE_ENTRIES && i != 0 && i != 2 ==>
               At(m', tables[ROOT])[i] == At(m, tables[ROOT])[i]
    ensures Lookup(m', tables[ROOT], a) == Lookup(m, tables[ROOT], a)
  {
    assert NodeOf(a, 3) == ROOT;
    PhysicalIndices(a);
    WalkStep(m, tables, a, 3);
    if NodeOf(a, 2) in tables {
      WalkBelowRoot(m, m', tables, a, 2);
    }
  }

  // --- reporting -----------------------------------------------------------------------------------------

  /** Every table that a walk can reach is a reported page. */
  ghost predicate AllReported(m: Memory, table: nat, level: nat, reported: set<nat>)
    requires level <= 3
    decreases level
  {
    && table in reported
    && (level > 0 ==> forall i: nat {:trigger At(m, table)[i]} :: i < PAGE_TABLE_ENTRIES ==>
          EntryReported(m, At(m, table)[i], level, reported))
  }

  ghost predicate EntryReported(m: Memory, e: u64, level: nat, reported: set<nat>)
    requires 0 < level <= 3
    decreases level, 0
  {
    Present(e) && !IsLeaf(e, level) ==> AllReported(m, Base(e), level - 1, reported)
  }

  /** The tables of a tree are all that a walk can reach. m may differ from the tree's memory in the root. */
  lemma {:induction false} TreeReported(m: Memory, m': Memory, tables: map<Node, nat>, n: Node, reported: set<nat>)
    requires Tree(m, tables) && n in tables && n.level <= 3
    requires forall k :: k in tables ==> tables[k] in reported
    requires SameAt(m, m', tables[n]) && forall k :: k in tables && k != ROOT ==> SameAt(m, m', tables[k])
    ensures AllReported(m', tables[n], n.level, reported)
    decreases n.level
  {
    if n.level > 0 {
      forall i: nat | i < PAGE_TABLE_ENTRIES
        ensures EntryReported(m', At(m', tables[n])[i], n.level, reported)
      {
        assert SlotOk(m, tables, n, i) && SameAt(m, m', tables[n]);
        if Child(n, i) in tables {
          TreeReported(m, m', tables, Child(n, i), reported);
        }
      }
    }
  }

  /** A filled directory links no tables. */
  lemma DirectoryReported(m: Memory, pd: nat, i: nat, reported: set<nat>)
    requires i < PAGE_TABLE_ENTRIES && DirectoryDone(m, pd, i, PAGE_TABLE_ENTRIES) && pd in reported
    ensures AllReported(m, pd, 1, reported)
  {
    hide LargeEntry, BaseAt;
    forall j: nat | j < PAGE_TABLE_ENTRIES
      ensures EntryReported(m, At(m, pd)[j], 1, reported)
    {
    }
  }

  lemma PointerReported(m: Memory, pdpt: nat, pds: nat, i: nat, reported: set<nat>)
    requires i < PAGE_TABLE_ENTRIES && RunOk(pds, PAGE_TABLE_ENTRIES) && PointersDone(m, pdpt, pds, PAGE_TABLE_ENTRIES)
    requires forall p: nat :: InRun(pds, PAGE_TABLE_ENTRIES, p) ==> p in reported
    ensures EntryReported(m, At(m, pdpt)[i], 2, reported)
  {
    hide TableEntry, AllReported, DirectoryDone, BaseAt;
    var pd := pds + i * PAGE_SIZE;
    assert InRun(pds, PAGE_TABLE_ENTRIES, pd);
    assert At(m, pdpt)[i] == TableEntry(pd) && DirectoryDone(m, pd, i, PAGE_TABLE_ENTRIES);
    PageBase(pd);
    DirectoryReported(m, pd, i, reported);
  }

  /** The new tables are reported too. */
  lemma PhysicalReported(m: Memory, pdpt: nat, pds: nat, reported: set<nat>)
    requires IsPage(pdpt) && RunOk(pds, PAGE_TABLE_ENTRIES) && PointersDone(m, pdpt, pds, PAGE_TABLE_ENTRIES)
    requires pdpt in reported && forall p: nat :: InRun(pds, PAGE_TABLE_ENTRIES, p) ==> p in reported
    ensures EntryReported(m, TableEntry(pdpt), 3, reported)
  {
    hide TableEntry, InRun, BaseAt, DirectoryDone, PointersDone;
    PageBase(pdpt);
    forall i: nat | i < PAGE_TABLE_ENTRIES
      ensures EntryReported(m, At(m, pdpt)[i], 2, reported)
    {
      PointerReported(m, pdpt, pds, i, reported);
    }
  }

  lemma AllStillReported(m: Memory, m': Memory, tables: map<Node, nat>, pdpt: nat, pds: nat, reported: set<nat>)
    requires Tree(m, tables) && forall n :: n in tables ==> tables[n] in reported
    requires forall n :: n in tables && n != ROOT ==> SameAt(m, m', tables[n])
    requires At(m', tables[ROOT]) == At(m, tables[ROOT])[0 := TableEntry(pdpt)][2 := TableEntry(pdpt)]
    requires EntryReported(m', TableEntry(pdpt), 3, reported)
    ensures AllReported(m', tables[ROOT], 3, reported)
  {
    hide TableEntry, AllReported;
    var root := tables[ROOT];
    forall i: nat | i < PAGE_TABLE_ENTRIES
      ensures EntryReported(m', At(m', root)[i], 3, reported)
    {
      assert SlotOk(m, tables, ROOT, i);
      if i != 0 && i != 2 && Child(ROOT, i) in tables {
        TreeReported(m, m', tables, Child(ROOT, i), reported);
      }
    }
    AllReportedAt(m', root, reported);
  }

  lemma AllReportedAt(m: Memory, root: nat, reported: set<nat>)
    requires root in reported
    requires forall i: nat {:trigger At(m, root)[i]} :: i < PAGE_TABLE_ENTRIES ==>
               EntryReported(m, At(m, root)[i], 3, reported)
    ensures AllReported(m, root, 3, reported)
  {
  }

  // --- paging_map_physical -----------------------------------------------------------------------------

  /** All of the above together. */
  lemma PhysicalMapDone(m: Memory, m1: Memory, m2: Memory, m3: Memory, tables: map<Node, nat>, pdpt: nat, pds: nat,
                         reported: set<nat>)
    requires Tree(m, tables) && RunOk(pdpt, 1) && RunOk(pds, PAGE_TABLE_ENTRIES)
    requires forall n :: n in tables ==> tables[n] != pdpt && !InRun(pds, PAGE_TABLE_ENTRIES, tables[n])
    requires forall n :: n in tables ==> tables[n] in reported
    requires pdpt in reported && forall p: nat :: InRun(pds, PAGE_TABLE_ENTRIES, p) ==> p in reported
    requires OutsideSame(m, m1, pdpt, pds) && OutsideSame(m2, m3, pdpt, pds)
    requires m2 == WriteWord(WriteWord(m1, tables[ROOT], 0, TableEntry(pdpt)), tables[ROOT], 2, TableEntry(pdpt))
    requires PointersDone(m3, pdpt, pds, PAGE_TABLE_ENTRIES)
    ensures forall a: nat :: a < SPACE ==>
              Lookup(m3, tables[ROOT], a)
              == if InPhysicalMap(a) then Some(PhysicalHit(a)) else Lookup(m, tables[ROOT], a)
    ensures AllReported(m3, tables[ROOT], 3, reported)
  {
    hide AllReported, EntryReported, Walk, Lookup, TableEntry, LargeEntry, PhysicalHit, InPhysicalMap, InRun,
      PointersDone;
    OnePage(pdpt);
    var root := tables[ROOT];
    assert SameAt(m, m1, root) && SameAt(m2, m3, root);
    assert At(m3, root) == At(m, root)[0 := TableEntry(pdpt)][2 := TableEntry(pdpt)];
    forall n | n in tables && n != ROOT
      ensures SameAt(m, m3, tables[n])
    {
      assert tables[n] != root;
      assert SameAt(m, m1, tables[n]) && SameAt(m2, m3, tables[n]);
    }
    forall a: nat | a < SPACE
      ensures Lookup(m3, root, a) == if InPhysicalMap(a) then Some(PhysicalHit(a)) else Lookup(m, root, a)
    {
      if InPhysicalMap(a) {
        PhysicalWalk(m3, root, pdpt, pds, a);
      } else {
        OtherEntriesKeep(m, m3, tables, a);
      }
    }
    PhysicalReported(m3, pdpt, pds, reported);
    AllStillReported(m, m3, tables, pdpt, pds, reported);
  }

  /** One page for the PDPT, then 512 consecutive ones for the directories. */
  method AllocateTables(pt: PageTables, pml4: nat) returns (status: EfiStatus, pdpt: nat, pds: nat)
    requires pt.Valid(pml4)
    modifies pt.pages`size, pt.pages`memory, pt.pages`reported, pt.pages.pool, pt.pages.firmware
    ensures pt.Valid(pml4) && OnlyNewPages(old(StateOf(pt.pages)), StateOf(pt.pages))
    ensures forall a: nat :: a < SPACE ==> Lookup(pt.pages.memory, pml4, a) == old(Lookup(pt.pages.memory, pml4, a))
    ensures status in {EfiSuccess, FirmwareError, EfiBufferTooSmall} && pt.pages.Explained(status)
    ensures status.EfiSuccess? ==>
              && NewTables(pt.pages.reported, pdpt, pds)
              && OutsideSame(old(pt.pages.memory), pt.pages.memory, pdpt, pds)
              && forall n :: n in pt.tables ==> pt.tables[n] != pdpt && !InRun(pds, PAGE_TABLE_ENTRIES, pt.tables[n])
  {
    hide PoolOk, Lookup, Tree, InRun, OnlyNewPages;
    var pages := pt.pages;
    ghost var m, s := pages.memory, StateOf(pages);
    status, pdpt := pages.AllocatePage(1);
    ghost var s1 := StateOf(pages);
    UntouchedTables(m, pages.memory, pt.tables);
    pds := 0;
    if !status.EfiSuccess? {
      return;
    }
    OnePage(pdpt);
    status, pds := pages.AllocatePage(PAGE_TABLE_ENTRIES);
    OnlyNewChain(s, s1, StateOf(pages));
    UntouchedTables(m, pages.memory, pt.tables);
  }

  /** Two reported runs of pages, apart from each other. */
  ghost predicate NewTables(reported: set<nat>, pdpt: nat, pds: nat) {
    && RunOk(pdpt, 1) && RunOk(pds, PAGE_TABLE_ENTRIES) && !InRun(pds, PAGE_TABLE_ENTRIES, pdpt)
    && pdpt in reported && forall p: nat :: InRun(pds, PAGE_TABLE_ENTRIES, p) ==> p in reported
  }

  lemma TablesReported(reported: set<nat>, pdpt: nat, pds: nat)
    requires NewTables(reported, pdpt, pds)
    ensures RunOk(pdpt, 1) && RunOk(pds, PAGE_TABLE_ENTRIES) && !InRun(pds, PAGE_TABLE_ENTRIES, pdpt)
    ensures pdpt in reported && forall p: nat :: InRun(pds, PAGE_TABLE_ENTRIES, p) ==> p in reported
  {
  }

  /** paging_map_physical. Only entry 0 of the PML4 is checked; entry 2 is overwritten whatever it was. */
  method MapPhysical(pt: PageTables, pml4: nat) returns (status: EfiStatus)
    requires pt.Valid(pml4)
    modifies pt.pages`size, pt.pages`memory, pt.pages`reported, pt.pages.pool, pt.pages.firmware
    ensures pt.pages.Valid() && OnlyNewPages(old(StateOf(pt.pages)), StateOf(pt.pages))
    ensures status.EfiSuccess? ==>
              forall a: nat :: a < SPACE ==>
                Lookup(pt.pages.memory, pml4, a)
                == if InPhysicalMap(a) then Some(PhysicalHit(a)) else old(Lookup(pt.pages.memory, pml4, a))
    ensures status.EfiSuccess? ==> AllReported(pt.pages.memory, pml4, 3, pt.pages.reported)
    ensures !status.EfiSuccess? ==>
              && pt.Valid(pml4)
              && forall a: nat :: a < SPACE ==>
                   Lookup(pt.pages.memory, pml4, a) == old(Lookup(pt.pages.memory, pml4, a))
    ensures status.EfiOutOfResources? <==> Present(old(At(pt.pages.memory, pml4))[0])
    ensures !status.EfiUnsupported? && pt.pages.Explained(status)
  {
    hide AllReported, PoolOk, Walk, Lookup, And, Tree, TableEntry, InRun, PhysicalHit, InPhysicalMap, NewTables,
      OutsideSame, PointersDone, OnlyNewPages;
    var pages := pt.pages;
    ghost var m, s := pages.memory, StateOf(pages);
    NothingNew(s);
    RootIsOnPath(m, pt.tables, 0);
    FlagTests(At(pages.memory, pml4)[0]);
    if And(At(pages.memory, pml4)[0], PTE_PRESENT) != 0 {
      return EfiOutOfResources;
    }

    var pdpt, pds;
    status, pdpt, pds := AllocateTables(pt, pml4);
    if !status.EfiSuccess? {
      return;
    }
    TablesReported(pages.reported, pdpt, pds);
    ghost var m1, s1 := pages.memory, StateOf(pages);
    pages.memory := WriteWord(pages.memory, pml4, GetPml4(0), TableEntry(pdpt));
    pages.memory := WriteWord(pages.memory, pml4, GetPml4(RKHV_PHYSICAL_MEMORY_BASE), TableEntry(pdpt));
    ghost var m2 := pages.memory;
    FillDirectories(pages, pdpt, pds);
    PhysicalMapDone(m, m1, m2, pages.memory, pt.tables, pdpt, pds, pages.reported);
    OnlyNewTables(s, s1, m2, StateOf(pages), pml4, pdpt, pds);
    return EfiSuccess;
  }

  lemma NothingNew(s: PoolState)
    ensures OnlyNewPages(s, s)
  {
  }

  /** The writes go to the root and to the new tables, all of them reported. */
  lemma OnlyNewTables(s: PoolState, s1: PoolState, m2: Memory, s3: PoolState, pml4: nat, pdpt: nat, pds: nat)
    requires OnlyNewPages(s, s1) && s3.inUse == s1.inUse && s3.reported == s1.reported
    requires pml4 in s1.reported && NewTables(s1.reported, pdpt, pds)
    requires forall p: nat :: p != pml4 ==> SameAt(s1.memory, m2, p)
    requires OutsideSame(m2, s3.memory, pdpt, pds)
    ensures OnlyNewPages(s, s3)
  {
    forall p: nat | p !in s3.reported
      ensures SameAt(s.memory, s3.memory, p)
    {
      assert SameAt(s.memory, s1.memory, p) && SameAt(s1.memory, m2, p) && SameAt(m2, s3.memory, p);
    }
  }

  /** Allocations leave the tables alone. */
  lemma UntouchedTables(m: Memory, m': Memory, tables: map<Node, nat>)
    requires Tree(m, tables) && forall n :: n in tables ==> SameAt(m, m', tables[n])
    ensures Tree(m', tables)
    ensures forall a: nat :: a < SPACE ==> Lookup(m', tables[ROOT], a) == Lookup(m, tables[ROOT], a)
  {
    TreeFrame(m, m', tables);
  }
}
