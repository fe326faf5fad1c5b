/** Construction of the boot page tables (boot/src/paging.c): 4-level paging (section 4.5 of the Intel
    SDM, volume 3), with failure returns in place of PANIC. */
module BootPaging {
  import opened Bits
  import opened Paging
  import opened PageTableEntries
  import opened PhysicalMemory
  import opened RadixTree
  import opened Outcomes
  import opened BootPool

  // --- entries ---------------------------------------------------------------------------------------

  datatype Permission = RX | RO | RW

  /** PERMISSION_MASK. */
  function PermissionMask(p: Permission): nat {
    match p
    case RX => 0
    case RO => PTE_EXECUTE_DISABLE
    case RW => Or(PTE_EXECUTE_DISABLE, PTE_READ_WRITE)
  }

  lemma MasksAre()
    ensures PermissionMask(RX) == 0
    ensures PermissionMask(RO) == 0x8000_0000_0000_0000
    ensures PermissionMask(RW) == 0x8000_0000_0000_0002
  {
    hide Or, Pow2;
    PowersOfTwo();
    TopBit();
    OrDisjoint(PTE_EXECUTE_DISABLE, PTE_READ_WRITE, 12);
  }

  /** Combining an aligned base and the present bit with a permission mask adds the numbers. */
  lemma OrPermission(x: nat, p: Permission)
    requires x % PAGE_SIZE == 1 && x < 0x10_0000_0000_0000
    ensures Or(x, PermissionMask(p)) == x + PermissionMask(p)
  {
    hide PermissionMask, Pow2;
    MasksAre();
    TopBit();
    match p
    case RX =>
    case RO => OrDisjoint(0x8000_0000_0000_0000, x, 63);
    case RW => OrReadWrite(x);
  }

  lemma OrReadWrite(x: nat)
    requires x % PAGE_SIZE == 1 && x < 0x10_0000_0000_0000
    ensures Or(x, 0x8000_0000_0000_0002) == x + 0x8000_0000_0000_0002
  {
    hide Or, Pow2;
    TopBit();
    Pow2Adds(61, 2);
    Pow2Is4();
    assert x / 2 / 2 == x / 4 && x % 2 == 1 && x / 2 % 2 == 0;
    OrDisjoint(0x2000_0000_0000_0000, x / 4, 61);
    OrStep(x / 2, 0x4000_0000_0000_0001);
    OrStep(x, 0x8000_0000_0000_0002);
  }

  lemma Pow2Is4()
    ensures Pow2(2) == 4
  {
  }

  /** PRESENT | (physical address & PHYSICAL_ADDRESS) | permission: it decodes to the page and to exactly
      the requested permission. */
  function LeafEntry(pa: nat, p: Permission): (e: u64)
    ensures Present(e) && Base(e) == Base(pa)
    ensures (Writable(e) <==> p.RW?) && (NoExecute(e) <==> !p.RX?)
  {
    LeafEncodes(pa, p);
    Or(Or(PTE_PRESENT, And(pa, PTE_PHYSICAL_ADDRESS_PAGE)), PermissionMask(p))
  }

  lemma LeafEncodes(pa: nat, p: Permission)
    ensures var e := Or(Or(PTE_PRESENT, And(pa, PTE_PHYSICAL_ADDRESS_PAGE)), PermissionMask(p));
            && e < TWO_64 && Present(e) && Base(e) == Base(pa)
            && (Writable(e) <==> p.RW?) && (NoExecute(e) <==> !p.RX?)
  {
    hide Or, And;
    EntryEncodes(1, pa, 0);
    BaseIsAligned(pa, 0);
    OrPermission(1 + BaseAt(pa, 0), p);
    MasksAre();
    var q := BaseAt(pa, 0) / PAGE_SIZE;
    assert BaseAt(pa, 0) == PAGE_SIZE * q;
    match p
    case RX =>
    case RO => Sums(q, 0);
    case RW => Sums(q, 2);
  }

  lemma Sums(q: nat, flag: nat)
    requires q < 0x100_0000_0000 && flag in {0, 2}
    ensures var e := 1 + q * PAGE_SIZE + (0x8000_0000_0000_0000 + flag);
            && Present(e) && NoExecute(e) && (Writable(e) <==> flag == 2) && BaseAt(e, 0) == q * PAGE_SIZE
  {
    var e := 1 + q * PAGE_SIZE + (0x8000_0000_0000_0000 + flag);
    RemainderIs(e, 2, q * 0x800 + 0x4000_0000_0000_0000 + flag / 2, 1);
    RemainderIs(q * 0x800 + 0x4000_0000_0000_0000 + flag / 2, 2, q * 0x400 + 0x2000_0000_0000_0000, flag / 2);
    RemainderIs(e, 0x1000, q + 0x8_0000_0000_0000, 1 + flag);
    RemainderIs(q + 0x8_0000_0000_0000, 0x100_0000_0000, 0x800, q);
    RemainderIs(e, 0x8000_0000_0000_0000, 1, 1 + q * PAGE_SIZE + flag);
  }

  // --- the tables being built --------------------------------------------------------------------------

  class PageTables {
    const pages: PagePool
    ghost var tables: map<Node, nat>

    constructor (pages: PagePool)
      ensures this.pages == pages && tables == map[]
    {
      this.pages := pages;
      tables := map[];
    }

    /** The tree below pml4; its tables are reported to the hypervisor. */
    ghost predicate Valid(pml4: nat)
      reads this, pages, pages.pool, pages.firmware
    {
      && pages.Valid() && Tree(pages.memory, tables) && tables[ROOT] == pml4
      && forall n :: n in tables ==> tables[n] in pages.reported
    }

    /** paging_allocate_pml4: an empty address space. */
    method AllocatePml4() returns (status: EfiStatus, pml4: nat)
      requires pages.Valid()
      modifies this, pages, pages.pool, pages.firmware
      ensures pages.Valid() && status in {EfiSuccess, FirmwareError, EfiBufferTooSmall} && pages.Explained(status)
      ensures OnlyNewPages(old(StateOf(pages)), StateOf(pages))
      ensures status.EfiSuccess? ==>
                Valid(pml4) && AllZero(At(pages.memory, pml4)) && forall a: nat :: Lookup(pages.memory, pml4, a) == None
    {
      hide PoolOk;
      status, pml4 := pages.AllocatePage(1);
      if status.EfiSuccess? {
        assert InRun(pml4, 1, pml4);
        EmptyTree(pages.memory, pml4);
        tables := map[ROOT := pml4];
      }
    }

    /** The table below entry i of the table at node n: the one linked there, or a new one. Every lookup is
        as before, on success and on failure. */
    method NextTable(pml4: nat, ghost n: Node, table: nat, i: nat, checkLarge: bool)
      returns (status: EfiStatus, next: nat)
      requires Valid(pml4) && n in tables && tables[n] == table && 0 < n.level <= 3 && i < PAGE_TABLE_ENTRIES
      requires checkLarge <==> n.level <= 2
      modifies this`tables, pages`size, pages`memory, pages`reported, pages.pool, pages.firmware
      ensures Valid(pml4)
      ensures forall a: nat :: a < SPACE ==> Lookup(pages.memory, pml4, a) == old(Lookup(pages.memory, pml4, a))
      ensures status.EfiSuccess? ==>
                && Child(n, i) in tables && tables[Child(n, i)] == next
                && forall n' :: n' in old(tables) ==> n' in tables && tables[n'] == old(tables)[n']
      ensures OnlyNewPages(old(StateOf(pages)), StateOf(pages))
      ensures forall k :: k in old(tables) && k != n ==> SameAt(old(pages.memory), pages.memory, old(tables)[k])
      ensures forall j :: 0 <= j < PAGE_TABLE_ENTRIES && j != i ==>
                At(pages.memory, table)[j] == old(At(pages.memory, table))[j]
      ensures status.EfiUnsupported? ==> var e := At(old(pages.memory), table)[i]; Present(e) && IsLeaf(e, n.level)
      ensures !status.EfiSuccess? && !status.EfiUnsupported? ==>
                && (status.FirmwareError? || status.EfiBufferTooSmall?) && pages.Explained(status)
                && !Present(At(old(pages.memory), table)[i])
    {
      hide PoolOk, Tree, Walk, And, Or, Lookup, InRun;
      var e := At(pages.memory, table)[i];
      EntryDecodes(e);
      SlotAt(pages.memory, tables, n, i);
      if And(e, PTE_PRESENT) != 0 {
        if checkLarge && And(e, PDE_PAGE_SIZE) != 0 {
          return EfiUnsupported, 0;
        }
        return EfiSuccess, And(e, PTE_PHYSICAL_ADDRESS_PAGE);
      }
      ghost var m := pages.memory;
      status, next := pages.AllocatePage(1);
      if !status.EfiSuccess? {
        return;
      }
      OnePage(next);
      FreshTable(m, pages.memory, tables, n, i, next);
      pages.memory := WriteWord(pages.memory, table, i, TableEntry(next));
      tables := tables[Child(n, i) := next];
    }

    /** One level of the descent towards address a. */
    method NextOnPath(pml4: nat, ghost a: nat, ghost level: nat, table: nat, i: nat, checkLarge: bool)
      returns (status: EfiStatus, next: nat)
      requires Valid(pml4) && a < SPACE && 0 < level <= 3 && NodeOf(a, level) in tables
               && tables[NodeOf(a, level)] == table
      requires i == Index(a, level) && (checkLarge <==> level <= 2)
      modifies this`tables, pages`size, pages`memory, pages`reported, pages.pool, pages.firmware
      ensures Valid(pml4)
      ensures forall b: nat :: b < SPACE ==> Lookup(pages.memory, pml4, b) == old(Lookup(pages.memory, pml4, b))
      ensures status.EfiSuccess? ==> NodeOf(a, level - 1) in tables && tables[NodeOf(a, level - 1)] == next
      ensures OnlyNewPages(old(StateOf(pages)), StateOf(pages))
      ensures OtherRootEntriesSame(old(pages.memory), pages.memory, pml4, Index(a, 3))
      ensures status.EfiUnsupported? ==> var was := old(Lookup(pages.memory, pml4, a)); was.Some? && was.value.level > 0
      ensures !status.EfiSuccess? && !status.EfiUnsupported? ==>
                && (status.FirmwareError? || status.EfiBufferTooSmall?) && pages.Explained(status)
                && old(Lookup(pages.memory, pml4, a)) == None
    {
      hide PoolOk, Tree, Walk, And, Or, Lookup, InRun, TableEntry;
      ChildOnPath(a, level);
      MappingDecided(pages.memory, tables, a, level);
      RootIsOnPath(pages.memory, tables, a);
      ghost var m := pages.memory;
      status, next := NextTable(pml4, NodeOf(a, level), table, i, checkLarge);
      assert level < 3 ==> SameAt(m, pages.memory, pml4);
    }

    /** paging_map_page: on success the page of the virtual address, which was not mapped, translates to
        the physical page with exactly the requested permission, and every other address translates as
        before; on any failure every address does, even when tables were linked. */
    method MapPage(pml4: nat, physicalAddress: u64, virtualAddress: u64, permission: Permission)
      returns (status: EfiStatus)
      requires Valid(pml4)
      modifies this`tables, pages`size, pages`memory, pages`reported, pages.pool, pages.firmware
      ensures Valid(pml4)
      ensures status.EfiSuccess? ==>
                forall a: nat :: a < SPACE ==>
                  Lookup(pages.memory, pml4, a)
                  == if a / PAGE_SIZE == virtualAddress % SPACE / PAGE_SIZE then
                       Some(LeafHit(LeafEntry(physicalAddress, permission)))
                     else old(Lookup(pages.memory, pml4, a))
      ensures !status.EfiSuccess? ==>
                forall a: nat :: a < SPACE ==> Lookup(pages.memory, pml4, a) == old(Lookup(pages.memory, pml4, a))
      ensures OnlyNewPages(old(StateOf(pages)), StateOf(pages))
      ensures OtherRootEntriesSame(old(pages.memory), pages.memory, pml4, Index(virtualAddress, 3))
      ensures var was := old(Lookup(pages.memory, pml4, virtualAddress % SPACE));
              && (status.EfiUnsupported? <==> was.Some? && was.value.level > 0)
              && (status.EfiOutOfResources? <==> was.Some? && was.value.level == 0)
              && (was == None <==> status.EfiSuccess? || status.FirmwareError? || status.EfiBufferTooSmall?)
      ensures pages.Explained(status)
    {
      hide PoolOk, Tree, Walk, And, Or, Lookup, TableEntry, LeafEntry, OnlyNewPages, OtherRootEntriesSame;
      ghost var a, s := virtualAddress % SPACE, StateOf(pages);
      IndexWraps(virtualAddress);
      RootIsOnPath(pages.memory, tables, a);
      var pml4Index, pdptIndex := GetPml4(virtualAddress), GetDirectoryPtr(virtualAddress);
      var pdIndex, ptIndex := GetDirectory(virtualAddress), GetTable(virtualAddress);

      var pdpt, pd, pt;
      status, pdpt := NextOnPath(pml4, a, 3, pml4, pml4Index, false);
      if !status.EfiSuccess? {
        return;
      }
      ghost var s1 := StateOf(pages);
      status, pd := NextOnPath(pml4, a, 2, pdpt, pdptIndex, true);
      StepsCompose(s, s1, StateOf(pages), pml4, Index(a, 3));
      if !status.EfiSuccess? {
        return;
      }
      ghost var s2 := StateOf(pages);
      status, pt := NextOnPath(pml4, a, 1, pd, pdIndex, true);
      StepsCompose(s, s2, StateOf(pages), pml4, Index(a, 3));
      if !status.EfiSuccess? {
        return;
      }
      var e := At(pages.memory, pt)[ptIndex];
      FlagTests(e);
      MappingDecided(pages.memory, tables, a, 0);
      if And(e, PTE_PRESENT) != 0 {
        return EfiOutOfResources;
      }
      SpanStep(a, 0);
      LeafChangesOnePage(pages.memory, tables, NodeOf(a, 0), ptIndex, LeafEntry(physicalAddress, permission));
      PageTableIsNotRoot(pages.memory, tables, NodeOf(a, 0));
      LeafStep(s, StateOf(pages), pml4, Index(a, 3), pt, ptIndex, LeafEntry(physicalAddress, permission));
      pages.memory := WriteWord(pages.memory, pt, ptIndex, LeafEntry(physicalAddress, permission));
      return EfiSuccess;
    }
  }

  /** The PML4 changed in one entry at most. */
  ghost predicate OtherRootEntriesSame(m: Memory, m': Memory, pml4: nat, i: nat) {
    forall j :: 0 <= j < PAGE_TABLE_ENTRIES && j != i ==> At(m', pml4)[j] == At(m, pml4)[j]
  }

  lemma StepsCompose(s: PoolState, s1: PoolState, s2: PoolState, pml4: nat, i: nat)
    requires OnlyNewPages(s, s1) && OnlyNewPages(s1, s2)
    requires OtherRootEntriesSame(s.memory, s1.memory, pml4, i) && OtherRootEntriesSame(s1.memory, s2.memory, pml4, i)
    ensures OnlyNewPages(s, s2) && OtherRootEntriesSame(s.memory, s2.memory, pml4, i)
  {
    OnlyNewChain(s, s1, s2);
  }

  lemma LeafStep(s: PoolState, s1: PoolState, pml4: nat, i: nat, p: nat, j: nat, e: u64)
    requires OnlyNewPages(s, s1) && OtherRootEntriesSame(s.memory, s1.memory, pml4, i)
    requires p in s1.reported && p != pml4 && j < PAGE_TABLE_ENTRIES
    ensures var s2 := s1.(memory := WriteWord(s1.memory, p, j, e));
            OnlyNewPages(s, s2) && OtherRootEntriesSame(s.memory, s2.memory, pml4, i)
  {
    ReportedWritten(s, s1, s1.(memory := WriteWord(s1.memory, p, j, e)), p);
  }

  lemma OnePage(start: nat)
    requires RunOk(start, 1)
    ensures IsPage(start) && forall p: nat :: InRun(start, 1, p) <==> p == start
  {
    RunStep(start, 0);
  }

  lemma SlotAt(m: Memory, tables: map<Node, nat>, n: Node, i: nat)
    requires Tree(m, tables) && n in tables && 0 < n.level && i < PAGE_TABLE_ENTRIES
    ensures SlotOk(m, tables, n, i) && ROOT in tables
  {
  }

  /** A zeroed page outside the tree can be linked where nothing is. */
  lemma FreshTable(m: Memory, m1: Memory, tables: map<Node, nat>, n: Node, i: nat, page: nat)
    requires Tree(m, tables) && n in tables && 0 < n.level <= 3 && i < PAGE_TABLE_ENTRIES
             && !Present(At(m, tables[n])[i])
    requires IsPage(page) && forall k :: k in tables ==> tables[k] != page
    requires forall p: nat :: At(m1, p) == if p == page then ZERO_PAGE else At(m, p)
    ensures var m2 := WriteWord(m1, tables[n], i, TableEntry(page));
            && Tree(m2, tables[Child(n, i) := page])
            && (forall a: nat :: a < SPACE ==> Lookup(m2, tables[ROOT], a) == Lookup(m, tables[ROOT], a))
            && (forall k :: k in tables && k != n ==> SameAt(m, m2, tables[k]))
            && (forall j :: 0 <= j < PAGE_TABLE_ENTRIES && j != i ==> At(m2, tables[n])[j] == At(m, tables[n])[j])
  {
    hide Walk, TableEntry, Lookup;
    forall k | k in tables
      ensures SameAt(m, m1, tables[k])
    {
    }
    TreeFrame(m, m1, tables);
    PageBase(page);
    LinkKeepsLookups(m1, tables, n, i, TableEntry(page));
  }

  lemma PageTableIsNotRoot(m: Memory, tables: map<Node, nat>, n: Node)
    requires Tree(m, tables) && n in tables && n.level == 0
    ensures tables[n] != tables[ROOT]
  {
  }

  lemma RootIsOnPath(m: Memory, tables: map<Node, nat>, a: nat)
    requires Tree(m, tables) && a < SPACE
    ensures NodeOf(a, 3) == ROOT && ROOT in tables
  {
  }
}
