/** Construction and lookup of a machine's extended page tables (hv/src/vmm/vmx_ept.c).

    The translation is the one of section 29.3.2 of the Intel SDM, volume 3. */
module EptMapping {
  import opened Bits
  import opened Paging
  import opened PageTableEntries
  import opened PhysicalMemory
  import opened RadixTree
  import opened PageList
  import opened Outcomes
  import opened Arena
  import opened VirtualMachine
  import opened Chainload
  import opened PageScan
  import opened HypervisorState
  import opened VmManager

  // --- the lookup ------------------------------------------------------------------------

  /** The low bits of an address that a large page of the level keeps. */
  function OffsetMask(level: nat): nat
    requires 1 <= level <= 2
  {
    if level == 1 then Or(LINEAR_ADDRESS_TABLE_MASK, LINEAR_ADDRESS_OFFSET_MASK)
    else Or(Or(LINEAR_ADDRESS_D_MASK, LINEAR_ADDRESS_TABLE_MASK), LINEAR_ADDRESS_OFFSET_MASK)
  }

  /** vmx_ept_get_host_physical_address. */
  function GetHostPhysicalAddress(m: Memory, initialized: bool, eptp: nat, g: nat): Option<nat> {
    if !initialized then None else
    var pml4e := At(m, eptp)[GetPml4(g)];
    if And(pml4e, EPT_READ) == 0 then None else
    var pdpte := At(m, And(pml4e, PTE_PHYSICAL_ADDRESS_PAGE))[GetDirectoryPtr(g)];
    if And(pdpte, EPT_READ) == 0 then None else
    if And(pdpte, PDE_PAGE_SIZE) != 0 then
      Some(Or(And(pdpte, PDPTE_PHYSICAL_ADDRESS_PAGE), And(g, OffsetMask(2)))) else
    var pde := At(m, And(pdpte, PTE_PHYSICAL_ADDRESS_PAGE))[GetDirectory(g)];
    if And(pde, EPT_READ) == 0 then None else
    if And(pde, PDE_PAGE_SIZE) != 0 then
      Some(Or(And(pde, PDE_PHYSICAL_ADDRESS_PAGE), And(g, OffsetMask(1)))) else
    var pte := At(m, And(pde, PTE_PHYSICAL_ADDRESS_PAGE))[GetTable(g)];
    if And(pte, EPT_READ) == 0 then None else
    Some(Or(And(pte, PTE_PHYSICAL_ADDRESS_PAGE), GetOffset(g)))
  }

  lemma OffsetMask1()
    ensures OffsetMask(1) == 0x1f_ffff
  {
    hide Pow2, Or;
    PowersOfTwo();
    OrDisjoint(LINEAR_ADDRESS_TABLE_MASK, LINEAR_ADDRESS_OFFSET_MASK, 12);
  }

  lemma OffsetMask2()
    ensures OffsetMask(2) == 0x3fff_ffff
  {
    hide Pow2, Or;
    PowersOfTwo();
    OrDisjoint(LINEAR_ADDRESS_D_MASK, LINEAR_ADDRESS_TABLE_MASK, 21);
    OrDisjoint(LINEAR_ADDRESS_D_MASK + LINEAR_ADDRESS_TABLE_MASK, LINEAR_ADDRESS_OFFSET_MASK, 12);
  }

  /** base | offset, for a base aligned to 2^k and an offset below it. */
  lemma BaseOrOffset(q: nat, offset: nat, unit: nat, k: nat)
    requires unit == Pow2(k) && offset < unit
    ensures Or(q * unit, offset) == q * unit + offset
  {
    RemainderIs(q * unit, unit, q, 0);
    OrDisjoint(q * unit, offset, k);
  }

  /** (entry & page mask) | (address & offset mask) is the target of a leaf, at each level. */
  lemma LeafTarget0(e: nat, g: nat)
    ensures Or(And(e, PTE_PHYSICAL_ADDRESS_PAGE), GetOffset(g)) == BaseAt(e, 0) + g % Span(0)
  {
    hide Pow2, And, Or;
    AddressMasks(e);
    PowersOfTwo();
    BaseOrOffset(e / 0x1000 % 0x100_0000_0000, g % 0x1000, 0x1000, 12);
  }

  lemma LeafTarget1(e: nat, g: nat)
    ensures Or(And(e, PDE_PHYSICAL_ADDRESS_PAGE), And(g, OffsetMask(1))) == BaseAt(e, 1) + g % Span(1)
  {
    hide Pow2, And, Or, OffsetMask;
    AddressMasks(e);
    PowersOfTwo();
    OffsetMask1();
    AndLow(g, 21);
    BaseOrOffset(e / 0x20_0000 % 0x8000_0000, g % 0x20_0000, 0x20_0000, 21);
  }

  lemma LeafTarget2(e: nat, g: nat)
    ensures Or(And(e, PDPTE_PHYSICAL_ADDRESS_PAGE), And(g, OffsetMask(2))) == BaseAt(e, 2) + g % Span(2)
  {
    hide Pow2, And, Or, OffsetMask;
    AddressMasks(e);
    PowersOfTwo();
    OffsetMask2();
    AndLow(g, 30);
    BaseOrOffset(e / 0x4000_0000 % 0x40_0000, g % 0x4000_0000, 0x4000_0000, 30);
  }

  /** The unrolled lookup with its masks and shifts is the lookup in the radix tree. */
  lemma LookupWalksTheTree(m: Memory, eptp: nat, g: nat)
    ensures GetHostPhysicalAddress(m, true, eptp, g) == Translate(m, eptp, g)
  {
    hide And, Or, OffsetMask, Walk, Target, BaseAt, At, Index, Present, Large;
    var e3 := At(m, eptp)[Index(g, 3)];
    var e2 := At(m, Base(e3))[Index(g, 2)];
    var e1 := At(m, Base(e2))[Index(g, 1)];
    var e0 := At(m, Base(e1))[Index(g, 0)];
    EntryDecodes(e3);
    EntryDecodes(e2);
    EntryDecodes(e1);
    EntryDecodes(e0);
    LeafTarget2(e2, g);
    LeafTarget1(e1, g);
    LeafTarget0(e0, g);
    WalkTarget(m, eptp, 3, g);
    WalkTarget(m, Base(e3), 2, g);
    WalkTarget(m, Base(e2), 1, g);
    WalkTarget(m, Base(e1), 0, g);
    TranslateTarget(m, eptp, g);
  }

  // --- the rights of an address --------------------------------------------------------------

  function Both(r: Rights, q: Rights): Rights {
    Rights(r.read && q.read, r.write && q.write, r.execute && q.execute)
  }

  /** The rights that an EPT gives a guest-physical address: each is given only if all entries on the way give it. */
  function RightsAt(m: Memory, table: nat, level: nat, a: nat): Rights
    requires level <= 3
    decreases level
  {
    var e := At(m, table)[Index(a, level)];
    if IsLeaf(e, level) then EntryRights(e) else Both(EntryRights(e), RightsAt(m, Base(e), level - 1, a))
  }

  lemma {:induction false} PathGrants(m: Memory, tables: map<Node, nat>, a: nat, level: nat)
    requires Tree(m, tables) && Grants(m, tables) && level <= 3 && NodeOf(a, level) in tables
    requires Walk(m, tables[NodeOf(a, level)], level, a).Some?
    ensures RightsAt(m, tables[NodeOf(a, level)], level, a) == ALL_RIGHTS
    decreases level
  {
    hide EntryRights, Tree, NodeOf, At, Index;
    var e := At(m, tables[NodeOf(a, level)])[Index(a, level)];
    if level > 0 {
      WalkStep(m, tables, a, level);
      if NodeOf(a, level - 1) in tables {
        PathGrants(m, tables, a, level - 1);
      }
    }
  }

  /** A guest may read, write and execute whatever its EPT translates. */
  lemma TranslatedIsGranted(hv: Hypervisor, vm: Vm, a: nat)
    requires hv.Valid() && vm in hv.vms && vm.eptInitialized && a < SPACE && Translate(hv.memory, vm.eptp, a).Some?
    ensures RightsAt(hv.memory, vm.eptp, 3, a) == ALL_RIGHTS
  {
    hide Hypervisor.Valid, Tree, Grants, Walk, RightsAt, ReservedIsZero;
    PartsOf(hv, vm);
    assert NodeOf(a, 3) == ROOT;
    PathGrants(hv.memory, vm.tables, a, 3);
  }

  // --- the state of one machine's EPT ------------------------------------------------------

  /** What building an EPT changes: the machine's root and tables, who owns which page, memory,
      and the number of pages left in the reserved pool. */
  datatype Snapshot = Snapshot(initialized: bool, eptp: nat, tables: map<Node, nat>,
                               owner: map<nat, Owner>, memory: Memory, pool: nat)

  ghost function Snap(hv: Hypervisor, vm: Vm): Snapshot
    reads hv`owner, hv`memory, vm`eptInitialized, vm`eptp, vm`tables, vm`trackedPages
  {
    Snapshot(vm.eptInitialized, vm.eptp, vm.tables, hv.owner, hv.memory, PoolSize(vm))
  }

  /** The lookup of a guest-physical address below 2^48. */
  ghost function Mapping(s: Snapshot, a: nat): (r: Option<Hit>)
    ensures r.Some? ==> r.value.level <= 2
  {
    if s.initialized then Lookup(s.memory, s.eptp, a) else None
  }

  ghost predicate SameMappings(s: Snapshot, s': Snapshot) {
    forall a: nat :: a < SPACE ==> Mapping(s', a) == Mapping(s, a)
  }

  /** The mappings after g was mapped to h. */
  ghost predicate MapsOneMore(s: Snapshot, s': Snapshot, g: nat, h: nat) {
    forall a: nat :: a < SPACE ==>
      Mapping(s', a) == if a / PAGE_SIZE == g / PAGE_SIZE then Some(LeafHit(EptEntry(h))) else Mapping(s, a)
  }

  /** p, from the reserved pool when that has pages and free otherwise, becomes a live EPT page. */
  ghost predicate PageTaken(id: nat, p: nat, s: Snapshot, s': Snapshot) {
    && s'.owner == s.owner[p := LiveEpt(id)]
    && (forall q: nat :: q != p ==> SameAt(s.memory, s'.memory, q))
    && (if s.pool > 0 then Owns(s.owner, ReservedEpt(id), p) && s'.pool == s.pool - 1
        else p !in s.owner && s'.pool == 0)
  }

  /** Node n gets the table page p (both may already be there); only live EPT pages are written to. */
  ghost predicate TableAdded(id: nat, n: Node, p: nat, s: Snapshot, s': Snapshot) {
    && s'.tables == s.tables[n := p] && s'.owner == s.owner[p := LiveEpt(id)]
    && (forall q: nat :: !Owns(s'.owner, LiveEpt(id), q) ==> SameAt(s.memory, s'.memory, q))
    && (if n in s.tables then s.tables[n] == p && Owns(s.owner, LiveEpt(id), p) && s'.pool == s.pool
        else if s.pool > 0 then Owns(s.owner, ReservedEpt(id), p) && s'.pool == s.pool - 1
        else p !in s.owner && s'.pool == 0)
  }

  /** The EPT got cost new tables: they come from the reserved pool as long as it has pages, and
      only live EPT pages are written to. */
  ghost predicate EptGrew(id: nat, cost: nat, s: Snapshot, s': Snapshot) {
    && s'.pool == (if cost <= s.pool then s.pool - cost else 0)
    && (forall q: nat :: q in s'.owner ==>
          || Owns(s.owner, s'.owner[q], q)
          || (s'.owner[q] == LiveEpt(id) && (Owns(s.owner, ReservedEpt(id), q) || (q !in s.owner && cost > s.pool))))
    && (forall q: nat :: q in s.owner ==>
        q in s'.owner && (s.owner[q] != ReservedEpt(id) ==> s'.owner[q] == s.owner[q]))
    && (forall q: nat :: !Owns(s'.owner, LiveEpt(id), q) ==> SameAt(s.memory, s'.memory, q))
  }

  /** Every live EPT page is the page of some table. */
  ghost predicate NoLeak(id: nat, s: Snapshot) {
    forall q: nat :: Owns(s.owner, LiveEpt(id), q) ==> q in s.tables.Values
  }

  lemma TableAddedKeepsNoLeak(id: nat, n: Node, p: nat, s: Snapshot, s': Snapshot)
    requires TableAdded(id, n, p, s, s') && NoLeak(id, s)
    ensures NoLeak(id, s')
  {
    forall q: nat | Owns(s'.owner, LiveEpt(id), q)
      ensures q in s'.tables.Values
    {
      if q == p {
        assert s'.tables[n] == p;
      } else {
        assert Owns(s.owner, LiveEpt(id), q);
        var k :| k in s.tables && s.tables[k] == q;
        assert s'.tables[k] == q;
      }
    }
  }

  /** Pages with any other owner keep owner and content, and pages that have no owner afterwards had none and
      keep their content. */
  ghost predicate KeepsOthers(id: nat, s: Snapshot, s': Snapshot) {
    && (forall p: nat :: p in s.owner && s.owner[p] != LiveEpt(id) && s.owner[p] != ReservedEpt(id) ==>
          Owns(s'.owner, s.owner[p], p) && SameAt(s.memory, s'.memory, p))
    && (forall p: nat :: p !in s'.owner ==> p !in s.owner && SameAt(s.memory, s'.memory, p))
  }

  lemma KeepsOthersChain(id: nat, s: Snapshot, s1: Snapshot, s2: Snapshot)
    requires KeepsOthers(id, s, s1) && KeepsOthers(id, s1, s2)
    ensures KeepsOthers(id, s, s2)
  {
    forall p: nat | p in s.owner && s.owner[p] != LiveEpt(id) && s.owner[p] != ReservedEpt(id)
      ensures Owns(s2.owner, s.owner[p], p) && SameAt(s.memory, s2.memory, p)
    {
      assert Owns(s1.owner, s.owner[p], p) && SameAt(s.memory, s1.memory, p);
    }
    forall p: nat | p !in s2.owner
      ensures p !in s.owner && SameAt(s.memory, s2.memory, p)
    {
      assert p !in s1.owner && SameAt(s.memory, s1.memory, p) && SameAt(s1.memory, s2.memory, p);
    }
  }

  lemma GrewKeepsOthers(id: nat, cost: nat, s: Snapshot, s': Snapshot)
    requires EptGrew(id, cost, s, s')
    ensures KeepsOthers(id, s, s')
  {
  }

  function IsMissing(tables: map<Node, nat>, n: Node): nat {
    if n in tables then 0 else 1
  }

  /** The nodes of the path of a from the root down to a level. */
  ghost function PathDown(a: nat, level: nat): set<Node>
    requires level <= 3
    decreases 3 - level
  {
    {NodeOf(a, level)} + if level == 3 then {} else PathDown(a, level + 1)
  }

  /** The number of tables missing on that path. */
  function Missing(tables: map<Node, nat>, a: nat, level: nat): nat
    requires level <= 3
    decreases 3 - level
  {
    IsMissing(tables, NodeOf(a, level)) + if level == 3 then 0 else Missing(tables, a, level + 1)
  }

  /** The descent towards a has reached a level, creating what was missing. */
  ghost predicate Reached(id: nat, a: nat, level: nat, s: Snapshot, s': Snapshot)
    requires level <= 3
  {
    && s'.initialized && NodeOf(a, level) in s'.tables
    && s'.tables.Keys == s.tables.Keys + PathDown(a, level)
    && SameMappings(s, s')
    && EptGrew(id, Missing(s.tables, a, level), s, s')
    && (NoLeak(id, s) ==> NoLeak(id, s'))
  }

  lemma GrewByTable(id: nat, cost: nat, n: Node, p: nat, s: Snapshot, s1: Snapshot, s2: Snapshot)
    requires EptGrew(id, cost, s, s1) && TableAdded(id, n, p, s1, s2)
    ensures EptGrew(id, cost + IsMissing(s1.tables, n), s, s2)
  {
    forall q: nat | !Owns(s2.owner, LiveEpt(id), q)
      ensures SameAt(s.memory, s2.memory, q)
    {
      assert SameAt(s1.memory, s2.memory, q) && !Owns(s1.owner, LiveEpt(id), q);
    }
  }

  lemma {:induction false} HigherOnPath(a: nat, low: nat, level: nat)
    requires low < level <= 3
    ensures NodeOf(a, low) !in PathDown(a, level)
    decreases 3 - level
  {
    if level < 3 {
      HigherOnPath(a, low, level + 1);
    }
  }

  lemma ReachedRoot(id: nat, a: nat, p: nat, s: Snapshot, s': Snapshot)
    requires a < SPACE && s'.initialized && SameMappings(s, s') && TableAdded(id, ROOT, p, s, s')
    ensures Reached(id, a, 3, s, s')
  {
    assert NodeOf(a, 3) == ROOT;
    assert EptGrew(id, 0, s, s);
    if NoLeak(id, s) {
      TableAddedKeepsNoLeak(id, ROOT, p, s, s');
    }
    GrewByTable(id, 0, ROOT, p, s, s, s');
  }

  lemma ReachedNext(id: nat, a: nat, level: nat, p: nat, s: Snapshot, s1: Snapshot, s2: Snapshot)
    requires 0 < level <= 3 && Reached(id, a, level, s, s1)
    requires s2.initialized && SameMappings(s1, s2) && TableAdded(id, NodeOf(a, level - 1), p, s1, s2)
    ensures Reached(id, a, level - 1, s, s2)
    ensures IsMissing(s1.tables, NodeOf(a, level - 1)) == IsMissing(s.tables, NodeOf(a, level - 1))
  {
    hide Mapping, EptGrew, NoLeak;
    if NoLeak(id, s) {
      TableAddedKeepsNoLeak(id, NodeOf(a, level - 1), p, s1, s2);
    }
    HigherOnPath(a, level - 1, level);
    GrewByTable(id, Missing(s.tables, a, level), NodeOf(a, level - 1), p, s, s1, s2);
  }

  // --- construction ------------------------------------------------------------------------

  /** Writing to a page that one machine owns leaves the other machines as they were. */
  lemma OwnWrite(vms: seq<Vm>, vm: Vm, m: Memory, m': Memory, owner: map<nat, Owner>, page: nat)
    requires forall i :: 0 <= i < |vms| ==> vms[i].id == |vms| - 1 - i
    requires vm in vms && page in owner && OfSomeVm(owner[page]) && owner[page].vm == vm.id
    requires forall q: nat :: q != page ==> SameAt(m, m', q)
    requires forall v :: v in vms && v != vm ==> VmOk(v, m, owner)
    ensures forall v :: v in vms && v != vm ==> VmOk(v, m', owner)
  {
    DistinctIds(vms, vm);
    forall v | v in vms && v != vm
      ensures VmOk(v, m', owner)
    {
      VmFrame(v, m, owner, m', owner);
    }
  }

  /** Linking a page the machine owns as a live table, but does not use yet, into its tree. */
  lemma LinkKeepsEpt(m: Memory, tables: map<Node, nat>, eptp: nat, id: nat, owner: map<nat, Owner>, n: Node, i: nat,
                     p: nat)
    requires EptOk(true, eptp, tables, id, m, owner) && ReservedIsZero(id, m, owner)
    requires n in tables && 0 < n.level <= 3 && i < PAGE_TABLE_ENTRIES && !Present(At(m, tables[n])[i])
    requires Owns(owner, LiveEpt(id), p) && IsPage(p) && p !in tables.Values && AllZero(At(m, p))
    ensures var m' := WriteWord(m, tables[n], i, EptEntry(p));
            && EptOk(true, eptp, tables[Child(n, i) := p], id, m', owner) && ReservedIsZero(id, m', owner)
            && forall a: nat :: a < SPACE ==> Lookup(m', eptp, a) == Lookup(m, eptp, a)
  {
    hide EptEntry, Grants;
    PageBase(p);
    LinkKeepsLookups(m, tables, n, i, EptEntry(p));
    TreeNodes(m, tables);
    GrantsWrite(m, tables, n, i, EptEntry(p));
    GrantsMore(WriteWord(m, tables[n], i, EptEntry(p)), tables, Child(n, i), p);
  }

  /** An empty table has no entry that could withhold a right. */
  lemma GrantsMore(m: Memory, tables: map<Node, nat>, n: Node, p: nat)
    requires Grants(m, tables) && AllZero(At(m, p))
    ensures Grants(m, tables[n := p])
  {
    hide EntryRights;
  }

  /** A zeroed page for a new table, tracked as a live EPT page: from the reserved pool if
      possible, otherwise from the page allocator. */
  method NewTable(hv: Hypervisor, vm: Vm) returns (r: Outcome<nat>)
    requires hv.Valid() && vm in hv.vms
    modifies vm`trackedPages, hv`owner, hv`memory, hv`lastReturned, hv.arenas`headers, hv.arenas`blocks
    ensures r.Ok? ==>
              && hv.Valid() && IsPage(r.value) && r.value !in vm.tables.Values && AllZero(At(hv.memory, r.value))
              && PageTaken(vm.id, r.value, old(Snap(hv, vm)), Snap(hv, vm))
    ensures r.Panic? ==> r.reason == ArenaFull || (NoPage(r.reason, hv.boot.mmap) && old(PoolSize(vm)) == 0)
    ensures r.Panic? ==> hv.Valid() && hv.Exhausted(r.reason) && r.reason != AlreadyMapped
    ensures old(PoolSize(vm)) > 0 ==>
              if r.Ok? then Spared(old(MeansOf(hv, vm)), MeansOf(hv, vm)) else old(MeansOf(hv, vm)).slack < 0
  {
    hide Hypervisor.Valid, Tree, Walk, AllZero, Size, Tracked, Untracked, Popped, Recorded, HasPlace, Pot, RunsOk,
      NoPage, Disjoint, Hypervisor.Exhausted, Hypervisor.AllLookUsed, Hypervisor.RoomLeft, Hypervisor.Supplies;
    PartsOf(hv, vm);
    ghost var runs, pool, room := vm.trackedPages, PoolSize(vm), hv.RoomLeft();
    ListsOf(hv, vm);
    var page := TakeEptPage(hv, vm);
    if page.Panic? {
      return page;
    }
    ghost var runs1 := vm.trackedPages;
    var tracked := TrackFreePage(hv, vm, page.value, Ept, false);
    if tracked.Panic? {
      if pool > 0 {
        TableUnpaid(runs, runs1, page.value, room);
      }
      return tracked.PropagateFailure();
    }
    if pool > 0 {
      TablePaid(runs, runs1, vm.trackedPages, page.value, room, hv.RoomLeft());
    }
    return page;
  }

  lemma ListsOf(hv: Hypervisor, vm: Vm)
    requires hv.Valid() && vm in hv.vms
    ensures RunsOk(vm.trackedPages) && Disjoint(vm.trackedPages)
  {
    hide Tree, Lookup;
    VmParts(vm, hv.memory, hv.owner);
  }

  /** When the table at node n exists already or the pool has a page for it, getting it costs the machine nothing,
      and fails only if less was set aside than the pool needs. */
  ghost predicate Paid(n: Node, s: Snapshot, w: Means, ok: bool, w': Means) {
    n in s.tables || s.pool > 0 ==> if ok then Spared(w, w') else w.slack < 0
  }

  /** The PML4: the machine's own, or a new empty table. */
  method RootTable(hv: Hypervisor, vm: Vm) returns (r: Outcome<nat>)
    requires hv.Valid() && vm in hv.vms
    modifies vm`trackedPages, vm`tables, vm`eptp, vm`eptInitialized
    modifies hv`owner, hv`memory, hv`lastReturned, hv.arenas`headers, hv.arenas`blocks
    ensures r.Ok? ==>
              && hv.Valid() && vm.eptInitialized && ROOT in vm.tables && r.value == vm.tables[ROOT] == vm.eptp
              && SameMappings(old(Snap(hv, vm)), Snap(hv, vm))
              && TableAdded(vm.id, ROOT, r.value, old(Snap(hv, vm)), Snap(hv, vm))
    ensures r.Panic? ==>
              && !old(vm.eptInitialized) && old(vm.tables) == map[]
              && (r.reason == ArenaFull || (NoPage(r.reason, hv.boot.mmap) && old(PoolSize(vm)) == 0))
              && hv.Valid() && hv.Exhausted(r.reason)
    ensures Paid(ROOT, old(Snap(hv, vm)), old(MeansOf(hv, vm)), r.Ok?, MeansOf(hv, vm))
  {
    hide Hypervisor.Valid, Tree, Walk, AllZero, Hypervisor.Exhausted, Hypervisor.AllLookUsed, Hypervisor.RoomLeft;
    PartsOf(hv, vm);
    if vm.eptInitialized {
      return Ok(vm.eptp);
    }
    var page := NewTable(hv, vm);
    if page.Panic? {
      return page;
    }
    SetRoot(hv, vm, page.value);
    return page;
  }

  /** The machine starts using the empty table p as its PML4. */
  method SetRoot(hv: Hypervisor, vm: Vm, p: nat)
    requires hv.Valid() && vm in hv.vms && !vm.eptInitialized
    requires Owns(hv.owner, LiveEpt(vm.id), p) && IsPage(p) && AllZero(At(hv.memory, p))
    modifies vm`tables, vm`eptp, vm`eptInitialized
    ensures hv.Valid() && vm.eptInitialized && vm.eptp == p && vm.tables == map[ROOT := p]
    ensures forall a: nat :: a < SPACE ==> Mapping(Snap(hv, vm), a) == None
  {
    hide InChainload, BootOk, ArenaList.Valid, OwnersOk, ArenaOwners, ListsMatch, Tree, Walk, AllZero, VmOk, GuestMapOk;
    VmParts(vm, hv.memory, hv.owner);
    EmptyTree(hv.memory, p);
    GrantsMore(hv.memory, map[], ROOT, p);
    NothingMapped(vm.guest, vm.eptp, p, vm.id, hv.memory, hv.owner);
    vm.eptp := p;
    vm.eptInitialized := true;
    vm.tables := map[ROOT := p];
    VmFromParts(vm, hv.memory, hv.owner);
  }

  lemma NothingMapped(guest: GuestMap, eptp: nat, root: nat, id: nat, m: Memory, owner: map<nat, Owner>)
    requires GuestMapOk(guest, false, eptp, id, m, owner)
    requires forall a: nat :: a < SPACE ==> Lookup(m, root, a) == None
    ensures GuestMapOk(guest, true, root, id, m, owner)
  {
    hide Lookup, HostHit;
    if guest.Exactly? {
      forall a: nat | a < SPACE
        ensures Lookup(m, root, a) == HostHit(guest.hosts, a)
      {
      }
    }
  }

  /** As long as lookups stay, what they lead to stays guest memory. */
  lemma SameGuestMap(guest: GuestMap, root: nat, id: nat, m: Memory, m': Memory, owner: map<nat, Owner>)
    requires GuestMapOk(guest, true, root, id, m, owner)
    requires forall a: nat :: a < SPACE ==> Lookup(m', root, a) == Lookup(m, root, a)
    ensures GuestMapOk(guest, true, root, id, m', owner)
  {
    hide Lookup, HostHit;
    if guest.OwnPages? {
      forall a: nat | a < SPACE
        ensures MapsOwnMemory(Lookup(m', root, a), id, owner)
      {
        assert MapsOwnMemory(Lookup(m, root, a), id, owner);
      }
    } else if guest.Exactly? {
      forall a: nat | a < SPACE
        ensures Lookup(m', root, a) == HostHit(guest.hosts, a)
      {
      }
    }
  }

  /** What is known of an EPT after guest page number page was mapped to h. */
  ghost function NextGuest(guest: GuestMap, id: nat, owner: map<nat, Owner>, page: nat, h: nat): GuestMap {
    if guest.Anything? || !Owns(owner, GuestMemory(id), Base(h)) then Anything
    else if guest.Exactly? && page == |guest.hosts| && IsPage(h) && h !in guest.hosts then Exactly(guest.hosts + [h])
    else OwnPages
  }

  lemma GuestLeaf(guest: GuestMap, root: nat, id: nat, m: Memory, m': Memory, owner: map<nat, Owner>, page: nat, h: nat)
    requires GuestMapOk(guest, true, root, id, m, owner)
    requires forall a: nat :: a < SPACE ==>
               Lookup(m', root, a) == if a / PAGE_SIZE == page then Some(LeafHit(EptEntry(h))) else Lookup(m, root, a)
    ensures GuestMapOk(NextGuest(guest, id, owner, page, h), true, root, id, m', owner)
  {
    hide Lookup, EptEntry;
    var next := NextGuest(guest, id, owner, page, h);
    if next.Exactly? {
      PageBase(h);
      forall a: nat | a < SPACE
        ensures Lookup(m', root, a) == HostHit(next.hosts, a)
      {
      }
    } else if next.OwnPages? {
      MapsOwnPages(guest, root, id, m, owner);
      forall a: nat | a < SPACE
        ensures MapsOwnMemory(Lookup(m', root, a), id, owner)
      {
        assert MapsOwnMemory(Lookup(m, root, a), id, owner);
      }
    }
  }

  /** A present entry of a table, unless it maps a page, links a table that is already live. */
  lemma ExistingTable(s: Snapshot, id: nat, n: Node, i: nat)
    requires EptOk(s.initialized, s.eptp, s.tables, id, s.memory, s.owner)
    requires n in s.tables && 0 < n.level && i < PAGE_TABLE_ENTRIES
    ensures SlotOk(s.memory, s.tables, n, i) && Owns(s.owner, LiveEpt(id), s.tables[n])
    ensures var e := At(s.memory, s.tables[n])[i];
            Present(e) && !IsLeaf(e, n.level) ==> TableAdded(id, Child(n, i), Base(e), s, s)
    ensures SameMappings(s, s)
  {
    assert SlotOk(s.memory, s.tables, n, i);
  }

  /** Entry i of the table at n gets the page p, a live EPT page that is not a table yet. */
  method LinkPage(hv: Hypervisor, vm: Vm, ghost n: Node, table: nat, i: nat, p: nat)
    requires hv.Valid() && vm in hv.vms && vm.eptInitialized
    requires n in vm.tables && vm.tables[n] == table && 0 < n.level <= 3 && i < PAGE_TABLE_ENTRIES
    requires !Present(At(hv.memory, table)[i])
    requires Owns(hv.owner, LiveEpt(vm.id), p) && IsPage(p) && p !in vm.tables.Values && AllZero(At(hv.memory, p))
    modifies vm`tables, hv`memory
    ensures hv.Valid() && vm.tables == old(vm.tables)[Child(n, i) := p]
    ensures hv.memory == WriteWord(old(hv.memory), table, i, EptEntry(p))
    ensures SameMappings(old(Snap(hv, vm)), Snap(hv, vm))
  {
    hide InChainload, BootOk, ArenaList.Valid, OwnersOk, ArenaOwners, ListsMatch, Tree, Walk, Lookup, AllZero, VmOk,
      EptOk, ReservedIsZero, GuestMapOk, TableAdded, SlotOk, VmcsOk, Hypervisor.VmsOk;
    VmsParts(hv);
    VmParts(vm, hv.memory, hv.owner);
    ExistingTable(Snap(hv, vm), vm.id, n, i);
    LinkKeepsEpt(hv.memory, vm.tables, vm.eptp, vm.id, hv.owner, n, i, p);
    hv.memory := WriteWord(hv.memory, table, i, EptEntry(p));
    OwnWrite(hv.vms, vm, old(hv.memory), hv.memory, hv.owner, table);
    SameGuestMap(vm.guest, vm.eptp, vm.id, old(hv.memory), hv.memory, hv.owner);
    vm.tables := vm.tables[Child(n, i) := p];
    VmFromParts(vm, hv.memory, hv.owner);
    VmsFromParts(hv);
  }

  /** Taking a page and linking it below a node adds a table there. */
  lemma TakenThenLinked(id: nat, n: Node, i: nat, p: nat, s: Snapshot, s1: Snapshot, s2: Snapshot)
    requires EptOk(s.initialized, s.eptp, s.tables, id, s.memory, s.owner) && s.initialized
    requires PageTaken(id, p, s, s1) && s1.initialized && s1.eptp == s.eptp && s1.tables == s.tables
    requires n in s.tables && 0 < n.level <= 3 && i < PAGE_TABLE_ENTRIES && !Present(At(s.memory, s.tables[n])[i])
    requires p !in s.tables.Values
    requires s2 == s1.(tables := s1.tables[Child(n, i) := p],
                       memory := WriteWord(s1.memory, s.tables[n], i, EptEntry(p)))
    requires SameMappings(s1, s2)
    ensures SameMappings(s, s2) && TableAdded(id, Child(n, i), p, s, s2)
  {
    hide Lookup;
    assert SlotOk(s.memory, s.tables, n, i);
    TreeFrame(s.memory, s1.memory, s.tables);
    forall q: nat | !Owns(s2.owner, LiveEpt(id), q)
      ensures SameAt(s.memory, s2.memory, q)
    {
      assert Owns(s.owner, LiveEpt(id), s.tables[n]);
      assert SameAt(s.memory, s1.memory, q);
    }
  }

  /** The table below entry i of the table at node n: the one linked there, or a new empty one,
      or PANIC when the entry maps a large page. */
  method NextTable(hv: Hypervisor, vm: Vm, ghost n: Node, table: nat, i: nat, checkLarge: bool)
    returns (r: Outcome<nat>)
    requires hv.Valid() && vm in hv.vms && vm.eptInitialized
    requires n in vm.tables && vm.tables[n] == table && 0 < n.level <= 3 && i < PAGE_TABLE_ENTRIES
    requires checkLarge <==> n.level <= 2
    modifies vm`trackedPages, vm`tables
    modifies hv`owner, hv`memory, hv`lastReturned, hv.arenas`headers, hv.arenas`blocks
    ensures r.Ok? ==>
              && hv.Valid()
              && SameMappings(old(Snap(hv, vm)), Snap(hv, vm))
              && TableAdded(vm.id, Child(n, i), r.value, old(Snap(hv, vm)), Snap(hv, vm))
    ensures r.Panic? && r.reason == AlreadyMapped ==>
              var e := At(old(hv.memory), table)[i]; Present(e) && IsLeaf(e, n.level)
    ensures r.Panic? && r.reason != AlreadyMapped ==>
              && !Present(At(old(hv.memory), table)[i]) && Child(n, i) !in old(vm.tables)
              && (r.reason == ArenaFull || (NoPage(r.reason, hv.boot.mmap) && old(PoolSize(vm)) == 0))
              && hv.Exhausted(r.reason)
    ensures r.Panic? ==> hv.Valid()
    ensures r != Panic(AlreadyMapped) ==>
              Paid(Child(n, i), old(Snap(hv, vm)), old(MeansOf(hv, vm)), r.Ok?, MeansOf(hv, vm))
  {
    hide Hypervisor.Valid, Tree, Walk, AllZero, And;
    hide EptOk, ReservedIsZero, TableAdded, SameMappings, Hypervisor.Exhausted, MeansOf, NoPage;
    PartsOf(hv, vm);
    var e := At(hv.memory, table)[i];
    EntryDecodes(e);
    ExistingTable(Snap(hv, vm), vm.id, n, i);
    if And(e, EPT_READ) != 0 {
      if checkLarge && And(e, PDE_PAGE_SIZE) != 0 {
        return Panic(AlreadyMapped);
      }
      return Ok(And(e, PTE_PHYSICAL_ADDRESS_PAGE));
    }
    r := AddTable(hv, vm, n, table, i);
  }

  /** Its second half: a new empty table below an entry that is not present. */
  method AddTable(hv: Hypervisor, vm: Vm, ghost n: Node, table: nat, i: nat) returns (r: Outcome<nat>)
    requires hv.Valid() && vm in hv.vms && vm.eptInitialized
    requires n in vm.tables && vm.tables[n] == table && 0 < n.level <= 3 && i < PAGE_TABLE_ENTRIES
    requires !Present(At(hv.memory, table)[i])
    modifies vm`trackedPages, vm`tables
    modifies hv`owner, hv`memory, hv`lastReturned, hv.arenas`headers, hv.arenas`blocks
    ensures hv.Valid()
    ensures r.Ok? ==>
              && SameMappings(old(Snap(hv, vm)), Snap(hv, vm))
              && TableAdded(vm.id, Child(n, i), r.value, old(Snap(hv, vm)), Snap(hv, vm))
    ensures r.Panic? ==>
              && r.reason != AlreadyMapped && hv.Exhausted(r.reason)
              && (r.reason == ArenaFull || (NoPage(r.reason, hv.boot.mmap) && old(PoolSize(vm)) == 0))
    ensures Paid(Child(n, i), old(Snap(hv, vm)), old(MeansOf(hv, vm)), r.Ok?, MeansOf(hv, vm))
  {
    hide Hypervisor.Valid, Tree, Walk, AllZero;
    hide EptOk, ReservedIsZero, TableAdded, SameMappings, MeansOf, Hypervisor.Exhausted, NoPage;
    PartsOf(hv, vm);
    ghost var s := Snap(hv, vm);
    ExistingTable(s, vm.id, n, i);
    r := NewTable(hv, vm);
    if r.Panic? {
      return;
    }
    ghost var s1 := Snap(hv, vm);
    assert SameAt(s.memory, s1.memory, table);
    LinkPage(hv, vm, n, table, i, r.value);
    NotYetThere(s, vm.id, n, i);
    TakenThenLinked(vm.id, n, i, r.value, s, s1, Snap(hv, vm));
  }

  lemma NotYetThere(s: Snapshot, id: nat, n: Node, i: nat)
    requires n in s.tables && 0 < n.level && i < PAGE_TABLE_ENTRIES && SlotOk(s.memory, s.tables, n, i)
    ensures !Present(At(s.memory, s.tables[n])[i]) ==> Child(n, i) !in s.tables
  {
  }

  // --- vmx_ept_map_page ----------------------------------------------------------------------

  /** One level of the descent of vmx_ept_map_page towards address a, which started at s. */
  method NextOnPath(hv: Hypervisor, vm: Vm, ghost s: Snapshot, ghost w: Means, ghost a: nat, ghost level: nat,
                    table: nat, i: nat, checkLarge: bool)
    returns (r: Outcome<nat>)
    requires hv.Valid() && vm in hv.vms && vm.eptInitialized
    requires a < SPACE && 0 < level <= 3 && Reached(vm.id, a, level, s, Snap(hv, vm))
             && vm.tables[NodeOf(a, level)] == table
    requires i == Index(a, level) && (checkLarge <==> level <= 2)
    requires PathPaid(a, s, w, true, MeansOf(hv, vm))
    modifies vm`trackedPages, vm`tables
    modifies hv`owner, hv`memory, hv`lastReturned, hv.arenas`headers, hv.arenas`blocks
    ensures r.Ok? ==>
              && hv.Valid() && Reached(vm.id, a, level - 1, s, Snap(hv, vm))
              && vm.tables[NodeOf(a, level - 1)] == r.value
    ensures r.Panic? ==> Refused(r.reason, hv.boot.mmap, s, a) && hv.Valid() && Truthful(hv, r.reason)
    ensures r != Panic(AlreadyMapped) ==> PathPaid(a, s, w, r.Ok?, MeansOf(hv, vm))
  {
    hide Hypervisor.Valid, Tree, Walk, AllZero, Lookup;
    hide TableAdded, EptGrew, SameMappings, NoLeak, Hypervisor.Exhausted, MeansOf;
    PartsOf(hv, vm);
    ChildOnPath(a, level);
    MappingDecided(hv.memory, vm.tables, a, level);
    ghost var s1 := Snap(hv, vm);
    assert Mapping(s1, a) == Mapping(s, a) by {
      MappingKept(s, s1, a);
    }
    ghost var w1 := MeansOf(hv, vm);
    r := NextTable(hv, vm, NodeOf(a, level), table, i, checkLarge);
    if r != Panic(AlreadyMapped) {
      PaidOnPath(vm.id, a, level, s, s1, w, w1, r.Ok?, MeansOf(hv, vm));
    }
    if r.Ok? {
      NowOnPath(vm.id, NodeOf(a, level - 1), r.value, s1, Snap(hv, vm));
      ReachedNext(vm.id, a, level, r.value, s, s1, Snap(hv, vm));
    } else if r.reason != AlreadyMapped {
      StillMissing(vm.id, a, level, s, s1);
    }
  }

  /** A panic of the descent is a remap or true of the state that it leaves. */
  ghost predicate Truthful(hv: Hypervisor, reason: PanicReason)
    reads hv, hv.vms`trackedPages, hv.arenas`headers
  {
    reason == AlreadyMapped || hv.Exhausted(reason)
  }

  /** The same for all tables on the path of an address. */
  ghost predicate PathPaid(a: nat, s: Snapshot, w: Means, ok: bool, w': Means) {
    Missing(s.tables, a, 0) <= s.pool ==> if ok then Spared(w, w') else w.slack < 0
  }

  lemma PaidOnPath(id: nat, a: nat, level: nat, s: Snapshot, s1: Snapshot, w: Means, w1: Means, ok: bool, w2: Means)
    requires 0 < level <= 3 && Reached(id, a, level, s, s1)
    requires PathPaid(a, s, w, true, w1) && Paid(NodeOf(a, level - 1), s1, w1, ok, w2)
    ensures PathPaid(a, s, w, ok, w2)
  {
    if NodeOf(a, level - 1) !in s1.tables {
      StillMissing(id, a, level, s, s1);
    }
  }

  lemma MappingKept(s: Snapshot, s': Snapshot, a: nat)
    requires SameMappings(s, s') && a < SPACE
    ensures Mapping(s', a) == Mapping(s, a)
  {
  }

  lemma NowOnPath(id: nat, n: Node, p: nat, s: Snapshot, s': Snapshot)
    requires TableAdded(id, n, p, s, s')
    ensures n in s'.tables && s'.tables[n] == p
  {
  }

  lemma StillMissing(id: nat, a: nat, level: nat, s: Snapshot, s1: Snapshot)
    requires 0 < level <= 3 && Reached(id, a, level, s, s1) && NodeOf(a, level - 1) !in s1.tables
    ensures s1.pool == 0 ==> s.pool < Missing(s.tables, a, 0)
  {
    assert Missing(s.tables, a, level - 1) == Missing(s.tables, a, level) + 1;
    MissingGrows(s.tables, a, level - 1);
  }

  lemma {:induction false} MissingGrows(tables: map<Node, nat>, a: nat, level: nat)
    requires level <= 3
    ensures Missing(tables, a, level) <= Missing(tables, a, 0)
    decreases level
  {
    if level > 0 {
      MissingGrows(tables, a, level - 1);
    }
  }

  /** Why mapping address a panics: a remap exactly when it is mapped; memory runs out only when the
      reserved pool cannot provide the missing tables. */
  ghost predicate Refused(reason: PanicReason, mmap: seq<MmapDescriptor>, s: Snapshot, a: nat) {
    if reason == AlreadyMapped then Mapping(s, a).Some?
    else
      && Mapping(s, a).None?
      && (reason == ArenaFull || (NoPage(reason, mmap) && s.pool < Missing(s.tables, a, 0)))
  }

  lemma RootRefused(reason: PanicReason, mmap: seq<MmapDescriptor>, s: Snapshot, a: nat)
    requires !s.initialized && s.tables == map[] && (reason == ArenaFull || (NoPage(reason, mmap) && s.pool == 0))
    ensures Refused(reason, mmap, s, a)
  {
    MissingGrows(s.tables, a, 3);
  }

  lemma RootPaid(a: nat, s: Snapshot, w: Means, ok: bool, w': Means)
    requires a < SPACE && Paid(ROOT, s, w, ok, w')
    ensures PathPaid(a, s, w, ok, w')
  {
    RootOfPath(a);
    MissingGrows(s.tables, a, 3);
  }

  lemma RootOfPath(a: nat)
    requires a < SPACE
    ensures NodeOf(a, 3) == ROOT
  {
  }

  /** The page table of g, with all the tables on the way to it. */
  method PathTo(hv: Hypervisor, vm: Vm, g: u64) returns (r: Outcome<nat>)
    requires hv.Valid() && vm in hv.vms
    modifies vm`trackedPages, vm`tables, vm`eptp, vm`eptInitialized
    modifies hv`owner, hv`memory, hv`lastReturned, hv.arenas`headers, hv.arenas`blocks
    ensures r.Ok? ==>
              && hv.Valid() && vm.eptInitialized
              && Reached(vm.id, g % SPACE, 0, old(Snap(hv, vm)), Snap(hv, vm))
              && r.value == vm.tables[NodeOf(g % SPACE, 0)]
    ensures r.Panic? ==>
              Refused(r.reason, hv.boot.mmap, old(Snap(hv, vm)), g % SPACE) && hv.Valid() && Truthful(hv, r.reason)
    ensures r != Panic(AlreadyMapped) ==>
              PathPaid(g % SPACE, old(Snap(hv, vm)), old(MeansOf(hv, vm)), r.Ok?, MeansOf(hv, vm))
  {
    hide Hypervisor.Valid, Tree, Walk, AllZero, Lookup;
    hide EptGrew, TableAdded, SameMappings, NoLeak, Mapping, Size, Missing, Refused, Reached, Hypervisor.Exhausted,
      MeansOf, PathPaid, Paid;
    ghost var a, s, w := g % SPACE, Snap(hv, vm), MeansOf(hv, vm);
    IndexWraps(g);
    RootOfPath(a);
    var pml4 := RootTable(hv, vm);
    RootPaid(a, s, w, pml4.Ok?, MeansOf(hv, vm));
    if pml4.Panic? {
      RootRefused(pml4.reason, hv.boot.mmap, s, a);
      return pml4;
    }
    ReachedRoot(vm.id, a, pml4.value, s, Snap(hv, vm));
    var pdpt :- NextOnPath(hv, vm, s, w, a, 3, pml4.value, GetPml4(g), false);
    var pd :- NextOnPath(hv, vm, s, w, a, 2, pdpt, GetDirectoryPtr(g), true);
    var pt :- NextOnPath(hv, vm, s, w, a, 1, pd, GetDirectory(g), true);
    return Ok(pt);
  }

  /** Entry i of a page table gets the host page. */
  method SetLeaf(hv: Hypervisor, vm: Vm, ghost n: Node, table: nat, i: nat, h: nat)
    requires hv.Valid() && vm in hv.vms && vm.eptInitialized
    requires n in vm.tables && vm.tables[n] == table && n.level == 0 && i < PAGE_TABLE_ENTRIES
    modifies hv`memory, vm`guest
    ensures hv.Valid()
    ensures vm.guest == NextGuest(old(vm.guest), vm.id, hv.owner, n.prefix * PAGE_TABLE_ENTRIES + i, h)
    ensures hv.memory == WriteWord(old(hv.memory), table, i, EptEntry(h)) && Owns(hv.owner, LiveEpt(vm.id), table)
    ensures forall a: nat :: a < SPACE ==>
              Lookup(hv.memory, vm.eptp, a)
              == if a / PAGE_SIZE == n.prefix * PAGE_TABLE_ENTRIES + i then Some(LeafHit(EptEntry(h)))
                 else Lookup(old(hv.memory), vm.eptp, a)
    ensures forall a: nat :: a < SPACE && a / PAGE_SIZE == n.prefix * PAGE_TABLE_ENTRIES + i ==>
              RightsAt(hv.memory, vm.eptp, 3, a) == ALL_RIGHTS
  {
    hide InChainload, BootOk, ArenaList.Valid, OwnersOk, ArenaOwners, ListsMatch, Tree, Walk, AllZero, VmOk, Lookup,
      GuestMapOk, NextGuest, Hypervisor.VmsOk, Grants, NodesOk, EntryRights;
    VmsParts(hv);
    VmParts(vm, hv.memory, hv.owner);
    TreeNodes(hv.memory, vm.tables);
    GrantsWrite(hv.memory, vm.tables, n, i, EptEntry(h));
    LeafChangesOnePage(hv.memory, vm.tables, n, i, EptEntry(h));
    hv.memory := WriteWord(hv.memory, table, i, EptEntry(h));
    assert Owns(hv.owner, LiveEpt(vm.id), table);
    OwnWrite(hv.vms, vm, old(hv.memory), hv.memory, hv.owner, table);
    GuestLeaf(vm.guest, vm.eptp, vm.id, old(hv.memory), hv.memory, hv.owner,
                 n.prefix * PAGE_TABLE_ENTRIES + i, h);
    vm.guest := NextGuest(vm.guest, vm.id, hv.owner, n.prefix * PAGE_TABLE_ENTRIES + i, h);
    VmFromParts(vm, hv.memory, hv.owner);
    VmsFromParts(hv);
    PageIsGranted(hv.memory, vm.tables, n.prefix * PAGE_TABLE_ENTRIES + i);
  }

  lemma PageIsGranted(m: Memory, tables: map<Node, nat>, page: nat)
    requires Tree(m, tables) && Grants(m, tables)
    requires forall a: nat :: a < SPACE && a / PAGE_SIZE == page ==> Lookup(m, tables[ROOT], a).Some?
    ensures forall a: nat :: a < SPACE && a / PAGE_SIZE == page ==> RightsAt(m, tables[ROOT], 3, a) == ALL_RIGHTS
  {
    hide Tree, Grants, Walk, RightsAt;
    TreeNodes(m, tables);
    forall a: nat | a < SPACE && a / PAGE_SIZE == page
      ensures RightsAt(m, tables[ROOT], 3, a) == ALL_RIGHTS
    {
      assert Lookup(m, tables[ROOT], a).Some?;
      assert NodeOf(a, 3) == ROOT;
      PathGrants(m, tables, a, 3);
    }
  }

  /** The descent followed by the leaf maps one page more. */
  lemma ReachedThenSet(id: nat, a: nat, h: nat, s: Snapshot, s1: Snapshot, s2: Snapshot)
    requires a < SPACE && Reached(id, a, 0, s, s1)
    requires s2 == s1.(memory := WriteWord(s1.memory, s1.tables[NodeOf(a, 0)], Index(a, 0), EptEntry(h)))
    requires Owns(s1.owner, LiveEpt(id), s1.tables[NodeOf(a, 0)])
    requires forall b: nat :: b < SPACE ==>
               Lookup(s2.memory, s2.eptp, b)
               == if b / PAGE_SIZE == NodeOf(a, 0).prefix * PAGE_TABLE_ENTRIES + Index(a, 0) then
                    Some(LeafHit(EptEntry(h)))
                  else Lookup(s1.memory, s1.eptp, b)
    ensures MapsOneMore(s, s2, a, h)
    ensures EptGrew(id, Missing(s.tables, a, 0), s, s2)
    ensures NoLeak(id, s) ==> NoLeak(id, s2)
  {
    hide Lookup;
    SpanStep(a, 0);
    forall q: nat | !Owns(s2.owner, LiveEpt(id), q)
      ensures SameAt(s.memory, s2.memory, q)
    {
      assert SameAt(s.memory, s1.memory, q);
    }
  }

  lemma PathPage(a: nat)
    ensures NodeOf(a, 0).prefix * PAGE_TABLE_ENTRIES + Index(a, 0) == a / PAGE_SIZE
  {
    SpanStep(a, 0);
  }

  /** The end of vmx_ept_map_page: the entry in the page table, unless there is one. */
  method MapLeaf(hv: Hypervisor, vm: Vm, ghost s: Snapshot, ghost a: nat, pt: nat, i: nat, h: u64)
    returns (r: Outcome<()>)
    requires hv.Valid() && vm in hv.vms && vm.eptInitialized
    requires a < SPACE && Reached(vm.id, a, 0, s, Snap(hv, vm)) && vm.tables[NodeOf(a, 0)] == pt && i == Index(a, 0)
    modifies hv`memory, vm`guest
    ensures hv.Valid() && r == if Mapping(s, a).Some? then Panic(AlreadyMapped) else Ok(())
    ensures r.Ok? ==>
              && MapsOneMore(s, Snap(hv, vm), a, h)
              && EptGrew(vm.id, Missing(s.tables, a, 0), s, Snap(hv, vm))
              && (NoLeak(vm.id, s) ==> NoLeak(vm.id, Snap(hv, vm)))
              && vm.guest == NextGuest(old(vm.guest), vm.id, hv.owner, a / PAGE_SIZE, h)
              && (forall b: nat :: b < SPACE && b / PAGE_SIZE == a / PAGE_SIZE ==>
                    RightsAt(hv.memory, vm.eptp, 3, b) == ALL_RIGHTS)
  {
    hide Hypervisor.Valid, Tree, Walk, AllZero, Lookup, And;
    hide EptGrew, Missing, SameMappings, MapsOneMore, PathDown, NoLeak, NextGuest, EptEntry, RightsAt;
    ghost var s1 := Snap(hv, vm);
    PathPage(a);
    var e := At(hv.memory, pt)[i];
    EntryDecodes(e);
    PartsOf(hv, vm);
    MappingDecided(hv.memory, vm.tables, a, 0);
    MappingKept(s, s1, a);
    if And(e, EPT_READ) != 0 {
      return Panic(AlreadyMapped);
    }
    SetLeaf(hv, vm, NodeOf(a, 0), pt, i, h);
    ReachedThenSet(vm.id, a, h, s, s1, Snap(hv, vm));
    return Ok(());
  }

  /** vmx_ept_map_page: guest page g translates to host page h and every other guest-physical
      address below 2^48 translates as before, whichever tables had to be created; PANIC on a
      remap exactly when g already translates. */
  method MapPage(hv: Hypervisor, vm: Vm, g: u64, h: u64) returns (r: Outcome<()>)
    requires hv.Valid() && vm in hv.vms
    modifies vm`trackedPages, vm`tables, vm`eptp, vm`eptInitialized, vm`guest
    modifies hv`owner, hv`memory, hv`lastReturned, hv.arenas`headers, hv.arenas`blocks
    ensures r.Ok? ==>
              && hv.Valid() && vm.eptInitialized
              && MapsOneMore(old(Snap(hv, vm)), Snap(hv, vm), g % SPACE, h)
              && vm.tables.Keys == old(vm.tables).Keys + PathDown(g % SPACE, 0)
              && EptGrew(vm.id, Missing(old(vm.tables), g % SPACE, 0), old(Snap(hv, vm)), Snap(hv, vm))
              && (NoLeak(vm.id, old(Snap(hv, vm))) ==> NoLeak(vm.id, Snap(hv, vm)))
              && vm.guest == NextGuest(old(vm.guest), vm.id, hv.owner, g % SPACE / PAGE_SIZE, h)
              && (forall a: nat :: a < SPACE && a / PAGE_SIZE == g % SPACE / PAGE_SIZE ==>
                    RightsAt(hv.memory, vm.eptp, 3, a) == ALL_RIGHTS)
    ensures r == Panic(AlreadyMapped) <==> Mapping(old(Snap(hv, vm)), g % SPACE).Some?
    ensures r.Panic? ==>
              Refused(r.reason, hv.boot.mmap, old(Snap(hv, vm)), g % SPACE) && hv.Valid() && Truthful(hv, r.reason)
    ensures r != Panic(AlreadyMapped) ==>
              PathPaid(g % SPACE, old(Snap(hv, vm)), old(MeansOf(hv, vm)), r.Ok?, MeansOf(hv, vm))
  {
    hide Hypervisor.Valid, EptGrew, Missing, MapsOneMore, PathDown, NoLeak, NextGuest, Hypervisor.Exhausted, MeansOf,
      PathPaid, RightsAt, Mapping;
    ghost var s := Snap(hv, vm);
    var pt :- PathTo(hv, vm, g);
    IndexWraps(g);
    r := MapLeaf(hv, vm, s, g % SPACE, pt, GetTable(g), h);
  }
}
