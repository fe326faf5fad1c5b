/** The address space that the boot loader hands to the hypervisor (boot/src/main.c): four sections of
    256 pages at fixed addresses, then the map of physical memory. */
module BootAddressSpace {
  import opened Bits
  import opened Paging
  import opened PageTableEntries
  import opened PhysicalMemory
  import opened RadixTree
  import opened Outcomes
  import opened Chainload
  import opened BootPool
  import opened AddressMap
  import opened BootPaging
  import opened BootPhysicalMap

  /** SECTION_PAGES and STACK_PAGES: 1 MiB. */
  const SECTION_PAGES: nat := 256

  function VirtualAddress(section: nat): u64
    requires section < RKHV_MAX_SECTIONS
  {
    if section == 0 then RKHV_RX_BASE
    else if section == 1 then RKHV_RO_BASE
    else if section == 2 then RKHV_RW_BASE
    else RKHV_STACK_BASE
  }

  function PermissionOf(section: nat): Permission
    requires section < RKHV_MAX_SECTIONS
  {
    if section == 0 then RX else if section == 1 then RO else RW
  }

  /** sections_physical_addresses: whole runs of pages, which the firmware allocated. */
  predicate LoadedOk(loaded: seq<u64>) {
    && |loaded| == RKHV_MAX_SECTIONS
    && forall s :: 0 <= s < |loaded| ==> RunOk(loaded[s], SECTION_PAGES)
  }

  // --- the specification: what the first n iterations of the loop map --------------------------------------

  /** The number of the first page of a section in the 48-bit address space. */
  function FirstPage(section: nat): (r: nat)
    requires section < RKHV_MAX_SECTIONS
    ensures r == if section == 0 then 0xf_f000_0000 else if section == 1 then 0xf_f000_0100
              else if section == 2 then 0xf_f000_0200 else 0xf_ffff_ff00
    ensures VirtualAddress(section) % SPACE == r * PAGE_SIZE
    ensures VirtualAddress(section) + SECTION_PAGES * PAGE_SIZE <= TWO_64
  {
    VirtualAddress(section) % SPACE / PAGE_SIZE
  }

  /** The number of page k of a section. */
  function PageNumber(section: nat, k: nat): nat
    requires section < RKHV_MAX_SECTIONS
  {
    FirstPage(section) + k
  }

  function SectionHit(loaded: seq<u64>, section: nat, k: nat): Hit
    requires LoadedOk(loaded) && section < RKHV_MAX_SECTIONS && k < SECTION_PAGES
  {
    LeafHit(LeafEntry(loaded[section] + k * PAGE_SIZE, PermissionOf(section)))
  }

  function Built(loaded: seq<u64>, n: nat, a: nat): Option<Hit>
    requires LoadedOk(loaded) && n <= RKHV_MAX_SECTIONS * SECTION_PAGES
  {
    if n == 0 then None
    else
      var s, k := (n - 1) / SECTION_PAGES, (n - 1) % SECTION_PAGES;
      if a / PAGE_SIZE == PageNumber(s, k) then Some(SectionHit(loaded, s, k)) else Built(loaded, n - 1, a)
  }

  /** No two of the pages share an address, and none lies in the map of physical memory. */
  lemma PagesApart(s: nat, k: nat, s': nat, k': nat)
    requires s < RKHV_MAX_SECTIONS && s' < RKHV_MAX_SECTIONS && k < SECTION_PAGES && k' < SECTION_PAGES
    ensures PageNumber(s, k) == PageNumber(s', k') ==> s == s' && k == k'
    ensures 510 * 0x800_0000 <= PageNumber(s, k) < 512 * 0x800_0000
  {
    hide FirstPage, VirtualAddress;
  }

  lemma {:induction false} BuiltIs(loaded: seq<u64>, n: nat, s: nat, k: nat, a: nat)
    requires LoadedOk(loaded) && n <= RKHV_MAX_SECTIONS * SECTION_PAGES
    requires s < RKHV_MAX_SECTIONS && k < SECTION_PAGES && a / PAGE_SIZE == PageNumber(s, k)
    ensures Built(loaded, n, a) == if s * SECTION_PAGES + k < n then Some(SectionHit(loaded, s, k)) else None
  {
    hide PageNumber, SectionHit;
    if n > 0 {
      BuiltIs(loaded, n - 1, s, k, a);
      PagesApart(s, k, (n - 1) / SECTION_PAGES, (n - 1) % SECTION_PAGES);
    }
  }

  /** The 48-bit address of byte b of a section. */
  function SectionByte(s: nat, b: nat): nat
    requires s < RKHV_MAX_SECTIONS
  {
    (VirtualAddress(s) + b) % SPACE
  }

  /** A byte of a section lies in the page that is mapped for it. */
  lemma ByteOfSection(s: nat, b: nat)
    requires s < RKHV_MAX_SECTIONS && b < SECTION_PAGES * PAGE_SIZE
    ensures SectionByte(s, b) < SPACE && SectionByte(s, b) / PAGE_SIZE == PageNumber(s, b / PAGE_SIZE)
    ensures SectionByte(s, b) % PAGE_SIZE == b % PAGE_SIZE && !InPhysicalMap(SectionByte(s, b))
  {
    hide VirtualAddress;
    var va, first := VirtualAddress(s), FirstPage(s);
    hide FirstPage;
    assert va == va / SPACE * SPACE + first * PAGE_SIZE;
    RemainderIs(va + b, SPACE, va / SPACE, first * PAGE_SIZE + b);
  }

  // --- the loop --------------------------------------------------------------------------------------------

  lemma AddressOfPage(section: nat, k: nat)
    requires section < RKHV_MAX_SECTIONS && k < SECTION_PAGES
    ensures VirtualAddress(section) + k * PAGE_SIZE < TWO_64
    ensures (VirtualAddress(section) + k * PAGE_SIZE) % SPACE / PAGE_SIZE == PageNumber(section, k)
  {
    hide VirtualAddress;
    ByteOfSection(section, k * PAGE_SIZE);
  }

  /** The section loop of efi_main: the address space translates the pages of the sections and nothing else;
      it fails only when the firmware has no pages left or the pool is full. */
  method MapSections(pt: PageTables, pml4: nat, loaded: seq<u64>) returns (status: EfiStatus)
    requires LoadedOk(loaded) && pt.Valid(pml4) && !Present(At(pt.pages.memory, pml4)[0])
    requires forall a: nat :: a < SPACE ==> Lookup(pt.pages.memory, pml4, a) == None
    modifies pt`tables, pt.pages`size, pt.pages`memory, pt.pages`reported, pt.pages.pool, pt.pages.firmware
    ensures pt.Valid(pml4) && !Present(At(pt.pages.memory, pml4)[0])
    ensures OnlyNewPages(old(StateOf(pt.pages)), StateOf(pt.pages))
    ensures status.EfiSuccess? ==>
              Maps(pt.pages.memory, pml4, loaded, RKHV_MAX_SECTIONS * SECTION_PAGES)
    ensures status in {EfiSuccess, FirmwareError, EfiBufferTooSmall} && pt.pages.Explained(status)
  {
    hide PageTables.Valid, Lookup, Built;
    BuiltNothing(loaded);
    assert Maps(pt.pages.memory, pml4, loaded, 0);
    ghost var s := StateOf(pt.pages);
    NothingNew(s);
    hide Maps, OnlyNewPages;
    for sectionIndex := 0 to RKHV_MAX_SECTIONS
      invariant pt.Valid(pml4) && !Present(At(pt.pages.memory, pml4)[0])
      invariant OnlyNewPages(s, StateOf(pt.pages))
      invariant Maps(pt.pages.memory, pml4, loaded, sectionIndex * SECTION_PAGES)
    {
      for pageIndex := 0 to SECTION_PAGES
        invariant pt.Valid(pml4) && !Present(At(pt.pages.memory, pml4)[0])
        invariant OnlyNewPages(s, StateOf(pt.pages))
        invariant Maps(pt.pages.memory, pml4, loaded, sectionIndex * SECTION_PAGES + pageIndex)
      {
        ghost var s1 := StateOf(pt.pages);
        status := MapSectionPage(pt, pml4, loaded, sectionIndex, pageIndex);
        OnlyNewChain(s, s1, StateOf(pt.pages));
        if !status.EfiSuccess? {
          return;
        }
      }
    }
    return EfiSuccess;
  }

  ghost predicate Maps(m: Memory, pml4: nat, loaded: seq<u64>, n: nat)
    requires LoadedOk(loaded) && n <= RKHV_MAX_SECTIONS * SECTION_PAGES
  {
    forall a: nat :: a < SPACE ==> Lookup(m, pml4, a) == Built(loaded, n, a)
  }

  lemma BuiltNothing(loaded: seq<u64>)
    requires LoadedOk(loaded)
    ensures forall a: nat :: Built(loaded, 0, a) == None
  {
  }

  lemma BuiltOneMore(loaded: seq<u64>, s: nat, k: nat)
    requires LoadedOk(loaded) && s < RKHV_MAX_SECTIONS && k < SECTION_PAGES
    ensures var n := s * SECTION_PAGES + k;
            forall a: nat ::
              Built(loaded, n + 1, a)
              == if a / PAGE_SIZE == PageNumber(s, k) then Some(SectionHit(loaded, s, k)) else Built(loaded, n, a)
  {
    hide SectionHit, PageNumber;
    var next := s * SECTION_PAGES + k + 1;
    assert (next - 1) / SECTION_PAGES == s && (next - 1) % SECTION_PAGES == k;
    forall a: nat
      ensures Built(loaded, next, a)
              == if a / PAGE_SIZE == PageNumber(s, k) then Some(SectionHit(loaded, s, k))
                 else Built(loaded, next - 1, a)
    {
    }
  }

  lemma NotInFirstEntry(a: nat)
    requires a < SPACE && 510 * 0x800_0000 <= a / PAGE_SIZE
    ensures Index(a, 3) != 0
  {
  }

  /** The sections do not touch the lowest 512 GiB, which paging_map_physical needs free. */
  lemma EntryOf(s: nat, k: nat)
    requires s < RKHV_MAX_SECTIONS && k < SECTION_PAGES
    ensures Index(VirtualAddress(s) + k * PAGE_SIZE, 3) != 0
  {
    hide VirtualAddress;
    AddressOfPage(s, k);
    var va := VirtualAddress(s) + k * PAGE_SIZE;
    IndexWraps(va);
    PagesApart(s, k, s, k);
    hide PageNumber;
    NotInFirstEntry(va % SPACE);
  }

  /** The body of the loop. */
  method MapSectionPage(pt: PageTables, pml4: nat, loaded: seq<u64>, s: nat, k: nat) returns (status: EfiStatus)
    requires LoadedOk(loaded) && pt.Valid(pml4) && s < RKHV_MAX_SECTIONS && k < SECTION_PAGES
    requires Maps(pt.pages.memory, pml4, loaded, s * SECTION_PAGES + k) && !Present(At(pt.pages.memory, pml4)[0])
    modifies pt`tables, pt.pages`size, pt.pages`memory, pt.pages`reported, pt.pages.pool, pt.pages.firmware
    ensures pt.Valid(pml4) && !Present(At(pt.pages.memory, pml4)[0])
    ensures OnlyNewPages(old(StateOf(pt.pages)), StateOf(pt.pages))
    ensures status.EfiSuccess? ==> Maps(pt.pages.memory, pml4, loaded, s * SECTION_PAGES + k + 1)
    ensures status in {EfiSuccess, FirmwareError, EfiBufferTooSmall} && pt.pages.Explained(status)
  {
    hide PageTables.Valid, Lookup, Built, LeafEntry, VirtualAddress, PageNumber, FirstPage, Maps, SectionHit, Index,
      OnlyNewPages;
    ghost var m := pt.pages.memory;
    AddressOfPage(s, k);
    EntryOf(s, k);
    var virtualAddress := VirtualAddress(s) + k * PAGE_SIZE;
    NotYetMapped(m, pml4, loaded, s, k, virtualAddress % SPACE);
    status := pt.MapPage(pml4, loaded[s] + k * PAGE_SIZE, virtualAddress, PermissionOf(s));
    if status.EfiSuccess? {
      MapsOneMore(m, pt.pages.memory, pml4, loaded, s, k);
    }
  }

  lemma NotYetMapped(m: Memory, pml4: nat, loaded: seq<u64>, s: nat, k: nat, a: nat)
    requires LoadedOk(loaded) && s < RKHV_MAX_SECTIONS && k < SECTION_PAGES && a < SPACE
             && a / PAGE_SIZE == PageNumber(s, k)
    requires Maps(m, pml4, loaded, s * SECTION_PAGES + k)
    ensures Lookup(m, pml4, a) == None && RunOk(loaded[s], SECTION_PAGES)
  {
    hide Lookup, Built, PageNumber;
    BuiltIs(loaded, s * SECTION_PAGES + k, s, k, a);
  }

  lemma MapsOneMore(m: Memory, m': Memory, pml4: nat, loaded: seq<u64>, s: nat, k: nat)
    requires LoadedOk(loaded) && s < RKHV_MAX_SECTIONS && k < SECTION_PAGES
    requires Maps(m, pml4, loaded, s * SECTION_PAGES + k)
    requires forall a: nat :: a < SPACE ==>
               Lookup(m', pml4, a)
               == if a / PAGE_SIZE == PageNumber(s, k) then
                    Some(LeafHit(LeafEntry(loaded[s] + k * PAGE_SIZE, PermissionOf(s))))
                                      else Lookup(m, pml4, a)
    ensures Maps(m', pml4, loaded, s * SECTION_PAGES + k + 1)
  {
    hide Lookup, Built, PageNumber, LeafEntry, LeafHit;
    BuiltOneMore(loaded, s, k);
    var n := s * SECTION_PAGES + k;
    forall a: nat | a < SPACE
      ensures Lookup(m', pml4, a) == Built(loaded, n + 1, a)
    {
      assert Lookup(m, pml4, a) == Built(loaded, n, a);
    }
  }

  // --- the result --------------------------------------------------------------------------------------------

  /** Page-table construction in efi_main. Pages that were in use before keep their content: the loaded
      sections, the attachments and the chainload page survive. */
  method BuildAddressSpace(firmware: Firmware, memory: Memory, loaded: seq<u64>)
    returns (status: EfiStatus, pml4: nat, pages: PagePool)
    requires LoadedOk(loaded)
    modifies firmware
    ensures fresh(pages) && pages.Valid() && pages.firmware == firmware
    ensures status in {EfiSuccess, FirmwareError, EfiBufferTooSmall} && pages.Explained(status)
    ensures status.EfiSuccess? ==>
              BootSpace(pages.memory, pml4, loaded) && AllReported(pages.memory, pml4, 3, pages.reported)
    ensures forall p: nat :: p in old(firmware.inUse) ==> p !in pages.reported && SameAt(memory, pages.memory, p)
  {
    hide OnlyNewPages, PagePool.Valid, PageTables.Valid, Lookup, Maps, AllReported, PhysicalHit, InPhysicalMap;
    pages := new PagePool(firmware, memory);
    var pt := new PageTables(pages);
    ghost var s := StateOf(pages);
    status, pml4 := AllocateRoot(pt);
    ghost var s1 := StateOf(pages);
    OldPagesKept(s, s1);
    if !status.EfiSuccess? {
      return;
    }
    status := MapSections(pt, pml4, loaded);
    PoolPart(pt, pml4);
    ghost var s2 := StateOf(pages);
    OnlyNewChain(s, s1, s2);
    OldPagesKept(s, s2);
    if !status.EfiSuccess? {
      return;
    }
    ghost var m := pages.memory;
    status := MapPhysical(pt, pml4);
    OnlyNewChain(s, s2, StateOf(pages));
    OldPagesKept(s, StateOf(pages));
    if status.EfiSuccess? {
      SpaceBuilt(m, pages.memory, pml4, loaded);
    }
  }

  lemma OldPagesKept(s: PoolState, s': PoolState)
    requires s.reported == {} && OnlyNewPages(s, s')
    ensures forall p: nat :: p in s.inUse ==> p !in s'.reported && SameAt(s.memory, s'.memory, p)
  {
  }

  method AllocateRoot(pt: PageTables) returns (status: EfiStatus, pml4: nat)
    requires pt.pages.Valid()
    modifies pt, pt.pages, pt.pages.pool, pt.pages.firmware
    ensures pt.pages.Valid() && status in {EfiSuccess, FirmwareError, EfiBufferTooSmall}
    ensures pt.pages.Explained(status)
    ensures OnlyNewPages(old(StateOf(pt.pages)), StateOf(pt.pages))
    ensures status.EfiSuccess? ==>
              && pt.Valid(pml4) && !Present(At(pt.pages.memory, pml4)[0])
              && forall a: nat :: Lookup(pt.pages.memory, pml4, a) == None
  {
    status, pml4 := pt.AllocatePml4();
  }

  lemma PoolPart(pt: PageTables, pml4: nat)
    requires pt.Valid(pml4)
    ensures pt.pages.Valid()
  {
  }

  /** What the hypervisor finds: every byte of every section at its place, with the permission of the section;
      physical memory below 512 GiB both at its own address and at P2V of it; nothing anywhere else. */
  ghost predicate BootSpace(m: Memory, pml4: nat, loaded: seq<u64>)
    requires LoadedOk(loaded)
  {
    && (forall s: nat, b: nat {:trigger loaded[s], SectionByte(s, b)} ::
        s < RKHV_MAX_SECTIONS && b < SECTION_PAGES * PAGE_SIZE ==>
          SectionMapped(Lookup(m, pml4, SectionByte(s, b)), loaded, s, b))
    && (forall pa: nat :: pa < PML4E_SPAN ==> PhysicalMapped(m, pml4, pa, pa) && PhysicalMapped(m, pml4, P2V(pa), pa))
    && (forall a: nat :: a < SPACE && !InPhysicalMap(a) && !InSection(a) ==> Lookup(m, pml4, a) == None)
  }

  predicate SectionMapped(w: Option<Hit>, loaded: seq<u64>, s: nat, b: nat)
    requires LoadedOk(loaded) && s < RKHV_MAX_SECTIONS
  {
    && w.Some? && w.value.level == 0 && Target(w.value, SectionByte(s, b)) == loaded[s] + b
    // Code is executed and not written, constants are neither, data and the stack are written.
    && (w.value.writable <==> s >= 2) && (w.value.noExecute <==> s != 0)
  }

  predicate PhysicalMapped(m: Memory, pml4: nat, va: nat, pa: nat) {
    Translate(m, pml4, va) == Some(pa) && Lookup(m, pml4, va).value.writable && !Lookup(m, pml4, va).value.noExecute
  }

  ghost predicate InSection(a: nat) {
    exists s: nat, k: nat :: s < RKHV_MAX_SECTIONS && k < SECTION_PAGES && a / PAGE_SIZE == PageNumber(s, k)
  }

  lemma {:induction false} BuiltInSection(loaded: seq<u64>, n: nat, a: nat)
    requires LoadedOk(loaded) && n <= RKHV_MAX_SECTIONS * SECTION_PAGES
    ensures Built(loaded, n, a).Some? ==> InSection(a)
  {
    if n > 0 {
      BuiltInSection(loaded, n - 1, a);
      var s, k := (n - 1) / SECTION_PAGES, (n - 1) % SECTION_PAGES;
      assert a / PAGE_SIZE == PageNumber(s, k) ==> InSection(a);
    }
  }

  lemma SectionIsMapped(loaded: seq<u64>, s: nat, b: nat, w: Option<Hit>)
    requires LoadedOk(loaded) && s < RKHV_MAX_SECTIONS && b < SECTION_PAGES * PAGE_SIZE
    requires w == Built(loaded, RKHV_MAX_SECTIONS * SECTION_PAGES, SectionByte(s, b))
    ensures SectionMapped(w, loaded, s, b)
  {
    hide Built, LeafEntry, SectionByte;
    ByteOfSection(s, b);
    var k := b / PAGE_SIZE;
    BuiltIs(loaded, RKHV_MAX_SECTIONS * SECTION_PAGES, s, k, SectionByte(s, b));
    assert RunOk(loaded[s], SECTION_PAGES);
    PageBase(loaded[s] + k * PAGE_SIZE);
  }

  lemma PhysicalIsMapped(m: Memory, pml4: nat, pa: nat)
    requires pa < PML4E_SPAN
    requires forall a: nat :: a < SPACE && InPhysicalMap(a) ==> Lookup(m, pml4, a) == Some(PhysicalHit(a))
    ensures PhysicalMapped(m, pml4, pa, pa) && PhysicalMapped(m, pml4, P2V(pa), pa)
  {
    hide Lookup, Target, LargeEntry;
    assert P2V(pa) == 2 * PML4E_SPAN + pa;
    PhysicalTarget(pa);
    PhysicalTarget(P2V(pa));
  }

  lemma SpaceBuilt(m: Memory, m': Memory, pml4: nat, loaded: seq<u64>)
    requires LoadedOk(loaded)
    requires Maps(m, pml4, loaded, RKHV_MAX_SECTIONS * SECTION_PAGES)
    requires forall a: nat :: a < SPACE ==>
               Lookup(m', pml4, a) == if InPhysicalMap(a) then Some(PhysicalHit(a)) else Lookup(m, pml4, a)
    ensures BootSpace(m', pml4, loaded)
  {
    hide Lookup, Built, PhysicalHit, InPhysicalMap, SectionByte, InSection, SectionMapped, PhysicalMapped, P2V;
    forall s: nat, b: nat | s < RKHV_MAX_SECTIONS && b < SECTION_PAGES * PAGE_SIZE
      ensures SectionMapped(Lookup(m', pml4, SectionByte(s, b)), loaded, s, b)
    {
      ByteOfSection(s, b);
      SectionIsMapped(loaded, s, b, Lookup(m', pml4, SectionByte(s, b)));
    }
    forall pa: nat | pa < PML4E_SPAN
      ensures PhysicalMapped(m', pml4, pa, pa) && PhysicalMapped(m', pml4, P2V(pa), pa)
    {
      PhysicalIsMapped(m', pml4, pa);
    }
    forall a: nat | a < SPACE && !InPhysicalMap(a) && !InSection(a)
      ensures Lookup(m', pml4, a) == None
    {
      BuiltInSection(loaded, RKHV_MAX_SECTIONS * SECTION_PAGES, a);
    }
  }

  // --- what the hypervisor keeps away from -----------------------------------------------------------------

  /** The table that the walk of a uses at a level. */
  function TableOnWalk(m: Memory, table: nat, from: nat, to: nat, a: nat): Option<nat>
    requires to <= from <= 3
    decreases from
  {
    if from == to then Some(table)
    else
      var e := At(m, table)[Index(a, from)];
      if !Present(e) || IsLeaf(e, from) then None else TableOnWalk(m, Base(e), from - 1, to, a)
  }

  lemma {:induction false} WalkedTableIsReported(m: Memory, table: nat, from: nat, to: nat, a: nat, reported: set<nat>)
    requires to <= from <= 3 && AllReported(m, table, from, reported)
    ensures TableOnWalk(m, table, from, to, a).Some? ==> TableOnWalk(m, table, from, to, a).value in reported
    decreases from
  {
    if from > to {
      var e := At(m, table)[Index(a, from)];
      assert EntryReported(m, e, from, reported);
      if Present(e) && !IsLeaf(e, from) {
        WalkedTableIsReported(m, Base(e), from - 1, to, a, reported);
      }
    }
  }

  /** Every table that a walk in the boot address space uses lies in a region that mm_page_used_by_chainload
      finds, so the page allocator of the hypervisor never returns it. */
  lemma LiveTablesAreInUse(c: ChainloadPage, size: nat, m: Memory, pml4: nat, reported: set<nat>, a: nat, level: nat)
    requires PoolOk(c.pageTableRegions, size, reported) && AllReported(m, pml4, 3, reported) && level <= 3
    ensures TableOnWalk(m, pml4, 3, level, a).Some? ==> InChainload(c, TableOnWalk(m, pml4, 3, level, a).value)
  {
    hide TableOnWalk, AllReported, PoolOk, InChainload;
    WalkedTableIsReported(m, pml4, 3, level, a, reported);
    if TableOnWalk(m, pml4, 3, level, a).Some? {
      ReportedPagesAreInUse(c, size, reported, TableOnWalk(m, pml4, 3, level, a).value);
    }
  }
}
