/** The guest's own page tables (hv/src/vmm/vm_guest_paging.c): the initial identity mapping and
    the walk that resolves a guest-linear address, every table of which is read through the EPT.

    The walk is 4-level paging as in section 4.5 of the Intel SDM, volume 3. */
module GuestPaging {
  import opened Bits
  import opened Paging
  import opened PageTableEntries
  import opened PhysicalMemory
  import opened RadixTree
  import opened Outcomes
  import opened Chainload
  import opened EptMapping
  import opened GuestMemoryAllocation

  // --- the EPT as the guest sees it -----------------------------------------------------------

  lemma TranslateWraps(m: Memory, root: nat, g: nat)
    ensures Translate(m, root, g) == Translate(m, root, g % SPACE)
  {
    IndexWraps(g);
    OffsetsWrap(g);
    WalkWraps(m, root, 3, g);
  }

  lemma OffsetsWrap(g: nat)
    ensures g % SPACE % 0x1000 == g % 0x1000 && g % SPACE % 0x20_0000 == g % 0x20_0000
    ensures g % SPACE % 0x4000_0000 == g % 0x4000_0000
  {
    var q, r := g / SPACE, g % SPACE;
    RemainderIs(g, 0x1000, q * 0x10_0000_0000 + r / 0x1000, r % 0x1000);
    RemainderIs(g, 0x20_0000, q * 0x800_0000 + r / 0x20_0000, r % 0x20_0000);
    RemainderIs(g, 0x4000_0000, q * 0x4_0000 + r / 0x4000_0000, r % 0x4000_0000);
  }

  lemma IndexWrapsAt(g: nat, level: nat)
    requires level <= 3
    ensures Index(g % SPACE, level) == Index(g, level)
  {
    IndexWraps(g);
  }

  lemma {:induction false} WalkWraps(m: Memory, table: nat, level: nat, g: nat)
    requires level <= 3
    ensures Walk(m, table, level, g % SPACE) == Walk(m, table, level, g)
    decreases level
  {
    hide Index, BaseAt;
    IndexWrapsAt(g, level);
    if level > 0 {
      WalkWraps(m, Base(At(m, table)[Index(g, level)]), level - 1, g);
    }
  }

  /** The EPT lookup keeps the offset in the page, so a table address stays page aligned. */
  lemma HostKeepsOffset(m: Memory, initialized: bool, eptp: nat, g: nat)
    ensures GetHostPhysicalAddress(m, initialized, eptp, g).Some? ==>
              GetHostPhysicalAddress(m, initialized, eptp, g).value % PAGE_SIZE == g % PAGE_SIZE
  {
    if initialized {
      LookupWalksTheTree(m, eptp, g);
      var w := Lookup(m, eptp, g);
      if w.Some? {
        TargetKeepsOffset(w.value, g);
      }
    }
  }

  lemma TargetKeepsOffset(h: Hit, g: nat)
    requires h.level <= 2
    ensures Target(h, g) % PAGE_SIZE == g % PAGE_SIZE
  {
    hide BaseAt;
    BaseIsAligned(h.entry, h.level);
    AddAligned(BaseAt(h.entry, h.level), g % Span(h.level));
    OffsetInSpan(g, h.level);
  }

  lemma AddAligned(base: nat, offset: nat)
    requires base % PAGE_SIZE == 0
    ensures (base + offset) % PAGE_SIZE == offset % PAGE_SIZE
  {
  }

  lemma OffsetInSpan(g: nat, level: nat)
    requires level <= 2
    ensures g % Span(level) % PAGE_SIZE == g % PAGE_SIZE
  {
  }

  /** On a machine whose guest memory is ready the EPT leads to the host pages and nowhere else. */
  lemma HostOfReady(id: nat, hosts: seq<nat>, s: Snapshot, g: nat)
    requires GuestReady(id, hosts, s)
    ensures GetHostPhysicalAddress(s.memory, s.initialized, s.eptp, g)
            == if g % SPACE / PAGE_SIZE < |hosts| then Some(hosts[g % SPACE / PAGE_SIZE] + g % PAGE_SIZE) else None
  {
    hide Lookup, EptEntry, GetHostPhysicalAddress, Translate;
    var a := g % SPACE;
    assert Mapping(s, a) == if a / PAGE_SIZE < |hosts| then Some(LeafHit(EptEntry(hosts[a / PAGE_SIZE]))) else None;
    if s.initialized {
      LookupWalksTheTree(s.memory, s.eptp, g);
      TranslateWraps(s.memory, s.eptp, g);
      if a / PAGE_SIZE < |hosts| {
        TranslateLeaf(s.memory, s.eptp, a, hosts[a / PAGE_SIZE]);
        OffsetsWrap(g);
      } else {
        TranslateNone(s.memory, s.eptp, a);
      }
    } else {
      NoEptNoHost(s.memory, s.eptp, g);
    }
  }

  lemma TranslateLeaf(m: Memory, root: nat, a: nat, h: nat)
    requires IsPage(h) && Lookup(m, root, a) == Some(LeafHit(EptEntry(h)))
    ensures Translate(m, root, a) == Some(h + a % PAGE_SIZE)
  {
    hide Lookup, EptEntry;
    PageBase(h);
  }

  lemma TranslateNone(m: Memory, root: nat, a: nat)
    requires Lookup(m, root, a) == None
    ensures Translate(m, root, a) == None
  {
  }

  lemma NoEptNoHost(m: Memory, eptp: nat, g: nat)
    ensures GetHostPhysicalAddress(m, false, eptp, g) == None
  {
  }

  // --- the guest walk ---------------------------------------------------------------------------

  /** The table page at a guest-physical address, or nothing when the EPT does not map it. */
  function GuestTable(m: Memory, initialized: bool, eptp: nat, g: nat): Option<Page> {
    match GetHostPhysicalAddress(m, initialized, eptp, g)
    case None => None
    case Some(pa) => Some(At(m, pa))
  }

  /** vm_guest_paging_get_guest_physical_address. */
  function GetGuestPhysicalAddress(m: Memory, initialized: bool, eptp: nat, cr3: nat, la: nat): Option<nat> {
    var pml4 := GuestTable(m, initialized, eptp, And(cr3, PAGE_MASK));
    if pml4.None? then None else
    var pml4e := pml4.value[GetPml4(la)];
    if And(pml4e, PTE_PRESENT) == 0 then None else
    var pdpt := GuestTable(m, initialized, eptp, And(pml4e, PTE_PHYSICAL_ADDRESS_PAGE));
    if pdpt.None? then None else
    var pdpte := pdpt.value[GetDirectoryPtr(la)];
    if And(pdpte, PTE_PRESENT) == 0 then None else
    if And(pdpte, PDE_PAGE_SIZE) != 0 then
      Some(Or(And(pdpte, PDPTE_PHYSICAL_ADDRESS_PAGE), And(la, OffsetMask(2)))) else
    var pd := GuestTable(m, initialized, eptp, And(pdpte, PTE_PHYSICAL_ADDRESS_PAGE));
    if pd.None? then None else
    var pde := pd.value[GetDirectory(la)];
    if And(pde, PTE_PRESENT) == 0 then None else
    if And(pde, PDE_PAGE_SIZE) != 0 then
      Some(Or(And(pde, PDE_PHYSICAL_ADDRESS_PAGE), And(la, OffsetMask(1)))) else
    var pt := GuestTable(m, initialized, eptp, And(pde, PTE_PHYSICAL_ADDRESS_PAGE));
    if pt.None? then None else
    var pte := pt.value[GetTable(la)];
    if And(pte, PTE_PRESENT) == 0 then None else
    Some(Or(And(pte, PTE_PHYSICAL_ADDRESS_PAGE), GetOffset(la)))
  }

  /** Nested paging, level by level: the reference the unrolled walk is measured against. */
  function NestedWalk(m: Memory, initialized: bool, eptp: nat, table: nat, level: nat, la: nat): Option<nat>
    requires level <= 3
    decreases level
  {
    var page := GuestTable(m, initialized, eptp, table);
    if page.None? then None else
    var e := page.value[Index(la, level)];
    if !Present(e) then None
    else if IsLeaf(e, level) then Some(BaseAt(e, level) + la % Span(level))
    else NestedWalk(m, initialized, eptp, Base(e), level - 1, la)
  }

  /** The rights of a linear address (section 4.6 of the Intel SDM, volume 3): every entry on the way lets the guest
      write, and none forbids execution. */
  predicate FullAccess(m: Memory, initialized: bool, eptp: nat, table: nat, level: nat, la: nat)
    requires level <= 3
    decreases level
  {
    var page := GuestTable(m, initialized, eptp, table);
    page.Some?
    && var e := page.value[Index(la, level)];
       && Present(e) && Writable(e) && !NoExecute(e)
       && (IsLeaf(e, level) || FullAccess(m, initialized, eptp, Base(e), level - 1, la))
  }

  lemma AccessStep(m: Memory, initialized: bool, eptp: nat, table: nat, level: nat, la: nat)
    requires level <= 3
    ensures var page := GuestTable(m, initialized, eptp, table);
            FullAccess(m, initialized, eptp, table, level, la)
            <==> page.Some?
                 && var e := page.value[Index(la, level)];
                    && Present(e) && Writable(e) && !NoExecute(e)
                    && (IsLeaf(e, level) || FullAccess(m, initialized, eptp, Base(e), level - 1, la))
  {
  }

  /** One level of nested paging. */
  lemma NestedStep(m: Memory, initialized: bool, eptp: nat, table: nat, level: nat, la: nat)
    requires level <= 3
    ensures var page := GuestTable(m, initialized, eptp, table);
            NestedWalk(m, initialized, eptp, table, level, la)
            == if page.None? || !Present(page.value[Index(la, level)]) then None
               else if IsLeaf(page.value[Index(la, level)], level) then
                 Some(BaseAt(page.value[Index(la, level)], level) + la % Span(level))
               else NestedWalk(m, initialized, eptp, Base(page.value[Index(la, level)]), level - 1, la)
  {
  }

  /** The walk of the source is nested paging from CR3 with its low 12 bits cleared. */
  lemma GuestWalkIsNested(m: Memory, initialized: bool, eptp: nat, cr3: u64, la: nat)
    ensures GetGuestPhysicalAddress(m, initialized, eptp, cr3, la)
            == NestedWalk(m, initialized, eptp, cr3 - cr3 % PAGE_SIZE, 3, la)
  {
    hide And, Or, OffsetMask, GuestTable, BaseAt, Index, Present, Large, NestedWalk;
    PageMaskAligns(cr3);
    var t3 := GuestTable(m, initialized, eptp, cr3 - cr3 % PAGE_SIZE);
    NestedStep(m, initialized, eptp, cr3 - cr3 % PAGE_SIZE, 3, la);
    if t3.Some? {
      var e3 := t3.value[Index(la, 3)];
      EntryDecodes(e3);
      NestedStep(m, initialized, eptp, Base(e3), 2, la);
      var t2 := GuestTable(m, initialized, eptp, Base(e3));
      if t2.Some? {
        var e2 := t2.value[Index(la, 2)];
        EntryDecodes(e2);
        LeafTarget2(e2, la);
        NestedStep(m, initialized, eptp, Base(e2), 1, la);
        var t1 := GuestTable(m, initialized, eptp, Base(e2));
        if t1.Some? {
          var e1 := t1.value[Index(la, 1)];
          EntryDecodes(e1);
          LeafTarget1(e1, la);
          NestedStep(m, initialized, eptp, Base(e1), 0, la);
          var t0 := GuestTable(m, initialized, eptp, Base(e1));
          if t0.Some? {
            EntryDecodes(t0.value[Index(la, 0)]);
            LeafTarget0(t0.value[Index(la, 0)], la);
          }
        }
      }
    }
  }

  // --- addresses in one page ----------------------------------------------------------------------

  lemma SamePage(a: nat, j: nat, level: nat)
    requires a % PAGE_SIZE + j < PAGE_SIZE && level <= 3
    ensures Index(a + j, level) == Index(a, level) && (a + j) % Span(level) == a % Span(level) + j
  {
    SpanFits(a, j, level);
    RemainderIs(a + j, Span(level), a / Span(level), a % Span(level) + j);
  }

  lemma SpanFits(a: nat, j: nat, level: nat)
    requires a % PAGE_SIZE + j < PAGE_SIZE && level <= 3
    ensures a % Span(level) + j < Span(level)
  {
    var span, r := Span(level), a % Span(level);
    assert span % PAGE_SIZE == 0;
    OffsetOfRemainder(a, level);
    assert r == r / PAGE_SIZE * PAGE_SIZE + r % PAGE_SIZE;
  }

  lemma OffsetOfRemainder(a: nat, level: nat)
    requires level <= 3
    ensures a % Span(level) % PAGE_SIZE == a % PAGE_SIZE
  {
    var span, r := Span(level), a % Span(level);
    assert span == span / PAGE_SIZE * PAGE_SIZE;
    assert a == a / span * span + r;
    assert a / span * span == a / span * (span / PAGE_SIZE) * PAGE_SIZE;
    RemainderIs(a, PAGE_SIZE, a / span * (span / PAGE_SIZE) + r / PAGE_SIZE, r % PAGE_SIZE);
  }

  lemma {:induction false} WalkInPage(m: Memory, table: nat, level: nat, a: nat, j: nat)
    requires a % PAGE_SIZE + j < PAGE_SIZE && level <= 3
    ensures Walk(m, table, level, a + j) == Walk(m, table, level, a)
    decreases level
  {
    hide Index, Base;
    SamePage(a, j, level);
    if level > 0 {
      WalkInPage(m, Base(At(m, table)[Index(a, level)]), level - 1, a, j);
    }
  }

  /** Both stages of nested paging keep the offset in the page. */
  lemma TranslateInPage(m: Memory, root: nat, a: nat, j: nat)
    requires a % PAGE_SIZE + j < PAGE_SIZE
    ensures Translate(m, root, a + j)
            == match Translate(m, root, a) case None => None case Some(pa) => Some(pa + j)
  {
    hide Walk, BaseAt;
    WalkInPage(m, root, 3, a, j);
    if h: Hit :| Lookup(m, root, a) == Some(h) {
      SamePage(a, j, h.level);
    }
  }

  lemma {:induction false} NestedInPage(m: Memory, initialized: bool, eptp: nat, table: nat, level: nat, la: nat,
                                        j: nat)
    requires la % PAGE_SIZE + j < PAGE_SIZE && level <= 3
    ensures NestedWalk(m, initialized, eptp, table, level, la + j)
            == match NestedWalk(m, initialized, eptp, table, level, la) case None => None case Some(g) => Some(g + j)
    decreases level
  {
    hide Index, BaseAt, GuestTable, NestedWalk, Present, Large;
    SamePage(la, j, level);
    NestedStep(m, initialized, eptp, table, level, la);
    NestedStep(m, initialized, eptp, table, level, la + j);
    var page := GuestTable(m, initialized, eptp, table);
    if page.Some? && level > 0 {
      NestedInPage(m, initialized, eptp, Base(page.value[Index(la, level)]), level - 1, la, j);
    }
  }

  lemma {:induction false} NestedKeepsOffset(m: Memory, initialized: bool, eptp: nat, table: nat, level: nat, la: nat)
    requires level <= 3
    ensures var g := NestedWalk(m, initialized, eptp, table, level, la);
            g.Some? ==> g.value % PAGE_SIZE == la % PAGE_SIZE
    decreases level
  {
    hide Index, BaseAt, GuestTable;
    var page := GuestTable(m, initialized, eptp, table);
    if page.Some? {
      var e := page.value[Index(la, level)];
      if IsLeaf(e, level) {
        BaseIsAligned(e, level);
        AddAligned(BaseAt(e, level), la % Span(level));
        OffsetOfRemainder(la, level);
      } else {
        NestedKeepsOffset(m, initialized, eptp, Base(e), level - 1, la);
      }
    }
  }

  /** Physical addresses have 52 bits, so that no conversion of one wraps around. */
  lemma TranslateBound(m: Memory, root: nat, a: nat)
    ensures var pa := Translate(m, root, a);
            pa.Some? ==> pa.value < 0x20_0000_0000_0000 && pa.value % PAGE_SIZE == a % PAGE_SIZE
  {
    hide Walk, BaseAt;
    if h: Hit :| Lookup(m, root, a) == Some(h) {
      BaseIsAligned(h.entry, h.level);
      TargetKeepsOffset(h, a);
      assert a % Span(h.level) < Span(h.level) <= 0x4000_0000;
    }
  }
}
