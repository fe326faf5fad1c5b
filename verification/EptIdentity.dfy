/** The identity EPT of 1 GiB pages (vmx_ept_create_identity_mapping in hv/src/vmm/vmx_ept.c). */
module EptIdentity {
  import opened Bits
  import opened Paging
  import opened PageTableEntries
  import opened PhysicalMemory
  import opened RadixTree
  import opened PageList
  import opened Outcomes
  import opened Arena
  import opened VirtualMachine
  import opened Chainload
  import opened HypervisorState
  import opened EptMapping

  /** READ | WRITE | EXECUTE | PAGE_SIZE | ((i << 30) & PHYSICAL_ADDRESS_PAGE). */
  function GigabyteEntry(i: nat): (e: u64)
    requires i < PAGE_TABLE_ENTRIES
    ensures Present(e) && Large(e) && Writable(e) && !NoExecute(e) && BaseAt(e, 2) == i * 0x4000_0000
    ensures EntryRights(e) == ALL_RIGHTS
  {
    GigabyteEncodes(i);
    Or(Or(Or(Or(EPT_READ, EPT_WRITE), EPT_EXECUTE), PDE_PAGE_SIZE), And(ShiftLeft(i, 30), PDPTE_PHYSICAL_ADDRESS_PAGE))
  }

  lemma GigabyteFlags()
    ensures Or(Or(Or(EPT_READ, EPT_WRITE), EPT_EXECUTE), PDE_PAGE_SIZE) == 0x87
  {
    EptFlags();
    assert Or(7, PDE_PAGE_SIZE) == 0x87;
  }

  lemma GigabyteEncodes(i: nat)
    requires i < PAGE_TABLE_ENTRIES
    ensures var e := Or(Or(Or(Or(EPT_READ, EPT_WRITE), EPT_EXECUTE), PDE_PAGE_SIZE),
                        And(ShiftLeft(i, 30), PDPTE_PHYSICAL_ADDRESS_PAGE));
            && e < TWO_64 && Present(e) && Large(e) && Writable(e) && !NoExecute(e) && BaseAt(e, 2) == i * 0x4000_0000
            && EntryRights(e) == ALL_RIGHTS
  {
    hide Or, And, Pow2;
    FlagsAreRights(0x87, i * 0x4000_0000, 2);
    GigabyteFlags();
    ShiftLeftMultiplies(i, 30);
    PowersOfTwo();
    EntryEncodes(0x87, i * 0x4000_0000, 2);
    assert BaseAt(i * 0x4000_0000, 2) == i * 0x4000_0000;
  }

  /** The first i entries of the table at pdpt are the gigabyte entries. */
  ghost predicate Filled(m: Memory, pdpt: nat, i: nat) {
    forall k :: 0 <= k < i <= PAGE_TABLE_ENTRIES ==> At(m, pdpt)[k] == GigabyteEntry(k)
  }

  /** One entry of a live EPT page that the machine's tree does not use yet. */
  method WriteUnlinked(hv: Hypervisor, vm: Vm, p: nat, i: nat, e: u64)
    requires hv.Valid() && vm in hv.vms && !vm.eptInitialized && Owns(hv.owner, LiveEpt(vm.id), p)
             && i < PAGE_TABLE_ENTRIES
    modifies hv`memory
    ensures hv.Valid() && hv.memory == WriteWord(old(hv.memory), p, i, e)
  {
    hide InChainload, BootOk, ArenaList.Valid, OwnersOk, ArenaOwners, ListsMatch, VmOk, Grants;
    VmParts(vm, hv.memory, hv.owner);
    hv.memory := WriteWord(hv.memory, p, i, e);
    OwnWrite(hv.vms, vm, old(hv.memory), hv.memory, hv.owner, p);
    VmFromParts(vm, hv.memory, hv.owner);
  }

  /** The loop that fills the table. */
  method FillGigabytes(hv: Hypervisor, vm: Vm, pdpt: nat)
    requires hv.Valid() && vm in hv.vms && !vm.eptInitialized && Owns(hv.owner, LiveEpt(vm.id), pdpt)
    modifies hv`memory
    ensures hv.Valid() && Filled(hv.memory, pdpt, PAGE_TABLE_ENTRIES)
    ensures forall q: nat :: q != pdpt ==> SameAt(old(hv.memory), hv.memory, q)
  {
    hide Hypervisor.Valid, GigabyteEntry;
    for i := 0 to PAGE_TABLE_ENTRIES
      invariant hv.Valid() && Filled(hv.memory, pdpt, i)
      invariant forall q: nat :: q != pdpt ==> SameAt(old(hv.memory), hv.memory, q)
    {
      ghost var m := hv.memory;
      WriteUnlinked(hv, vm, pdpt, i, GigabyteEntry(i));
      forall q: nat | q != pdpt
        ensures SameAt(old(hv.memory), hv.memory, q)
      {
        assert SameAt(old(hv.memory), m, q);
      }
    }
  }

  /** A PML4 whose only entry links a table of gigabyte entries is a tree that maps the first
      512 GiB to themselves and nothing else. */
  lemma GigabytesAreIdentity(m: Memory, pml4: nat, pdpt: nat)
    requires IsPage(pml4) && IsPage(pdpt) && pml4 != pdpt && Filled(m, pdpt, PAGE_TABLE_ENTRIES)
    requires forall k :: 0 <= k < PAGE_TABLE_ENTRIES ==> At(m, pml4)[k] == if k == 0 then EptEntry(pdpt) else 0
    ensures Tree(m, map[ROOT := pml4, Node(2, 0) := pdpt]) && Grants(m, map[ROOT := pml4, Node(2, 0) := pdpt])
    ensures forall a: nat :: a < SPACE ==> Translate(m, pml4, a) == if a < Span(3) then Some(a) else None
  {
    var tables := map[ROOT := pml4, Node(2, 0) := pdpt];
    PageBase(pdpt);
    assert NodesOk(tables);
    forall n, i: nat | n in tables && n.level > 0 && i < PAGE_TABLE_ENTRIES
      ensures SlotOk(m, tables, n, i)
    {
      assert n == ROOT ==> At(m, pml4)[i] == if i == 0 then EptEntry(pdpt) else 0;
      assert n != ROOT ==> At(m, pdpt)[i] == GigabyteEntry(i);
    }
    GigabyteGrants(m, pml4, pdpt);
    forall a: nat | a < SPACE
      ensures Translate(m, pml4, a) == if a < Span(3) then Some(a) else None
    {
      GigabyteWalk(m, pml4, pdpt, a);
    }
  }

  lemma GigabyteGrants(m: Memory, pml4: nat, pdpt: nat)
    requires Filled(m, pdpt, PAGE_TABLE_ENTRIES)
    requires forall k :: 0 <= k < PAGE_TABLE_ENTRIES ==> At(m, pml4)[k] == if k == 0 then EptEntry(pdpt) else 0
    ensures Grants(m, map[ROOT := pml4, Node(2, 0) := pdpt])
  {
    hide EptEntry, GigabyteEntry, EntryRights;
    var tables := map[ROOT := pml4, Node(2, 0) := pdpt];
    forall n, i: nat | n in tables && i < PAGE_TABLE_ENTRIES && Present(At(m, tables[n])[i])
      ensures EntryRights(At(m, tables[n])[i]) == ALL_RIGHTS
    {
      assert n == ROOT ==> At(m, pml4)[i] == if i == 0 then EptEntry(pdpt) else 0;
      assert n != ROOT ==> At(m, pdpt)[i] == GigabyteEntry(i);
    }
  }

  lemma LowHalfTerabyte(a: nat)
    requires a < SPACE
    ensures if a < Span(3) then Index(a, 3) == 0 && Index(a, 2) * 0x4000_0000 + a % 0x4000_0000 == a
            else Index(a, 3) != 0
  {
  }

  lemma GigabyteWalk(m: Memory, pml4: nat, pdpt: nat, a: nat)
    requires IsPage(pdpt) && Filled(m, pdpt, PAGE_TABLE_ENTRIES) && a < SPACE
    requires forall k :: 0 <= k < PAGE_TABLE_ENTRIES ==> At(m, pml4)[k] == if k == 0 then EptEntry(pdpt) else 0
    ensures Translate(m, pml4, a) == if a < Span(3) then Some(a) else None
  {
    hide Walk, Target, EptEntry, GigabyteEntry, BaseAt, Translate, Index, Large;
    LowHalfTerabyte(a);
    PageBase(pdpt);
    WalkTarget(m, pml4, 3, a);
    TranslateTarget(m, pml4, a);
    if a < Span(3) {
      var k := Index(a, 2);
      assert At(m, pml4)[Index(a, 3)] == EptEntry(pdpt);
      WalkTarget(m, pdpt, 2, a);
      assert At(m, pdpt)[k] == GigabyteEntry(k);
    } else {
      assert At(m, pml4)[Index(a, 3)] == 0;
    }
  }

  /** The pages owned afterwards are live tables of the machine or have their owner from before. */
  ghost predicate OnlyTakes(id: nat, s: Snapshot, s': Snapshot) {
    && KeepsOthers(id, s, s')
    && forall p: nat :: p in s'.owner && s'.owner[p] != LiveEpt(id) ==> Owns(s.owner, s'.owner[p], p)
  }

  /** The first half: the table of gigabyte entries. */
  method NewGigabyteTable(hv: Hypervisor, vm: Vm) returns (r: Outcome<nat>)
    requires hv.Valid() && vm in hv.vms && !vm.eptInitialized
    modifies vm`trackedPages, hv`owner, hv`memory, hv`lastReturned, hv.arenas`headers, hv.arenas`blocks
    ensures r.Ok? ==>
              && hv.Valid() && IsPage(r.value) && Owns(hv.owner, LiveEpt(vm.id), r.value)
              && Filled(hv.memory, r.value, PAGE_TABLE_ENTRIES)
              && OnlyTakes(vm.id, old(Snap(hv, vm)), Snap(hv, vm))
    ensures r.Panic? ==> r.reason != EptAlreadyInitialized && hv.Valid() && hv.Exhausted(r.reason)
  {
    hide Hypervisor.Valid, AllZero, Filled, Tree, Mapping, Size, OnlyTakes;
    var pdpt := NewTable(hv, vm);
    if pdpt.Panic? {
      return pdpt;
    }
    ghost var s1 := Snap(hv, vm);
    FillGigabytes(hv, vm, pdpt.value);
    OnlyTakesPage(vm.id, pdpt.value, old(Snap(hv, vm)), s1, Snap(hv, vm));
    return pdpt;
  }

  /** The second half: the PML4 that links it, adopted by the machine. */
  method LinkGigabyteTable(hv: Hypervisor, vm: Vm, pdpt: nat) returns (r: Outcome<()>)
    requires hv.Valid() && vm in hv.vms && !vm.eptInitialized && vm.tables == map[]
    requires IsPage(pdpt) && Owns(hv.owner, LiveEpt(vm.id), pdpt) && Filled(hv.memory, pdpt, PAGE_TABLE_ENTRIES)
    modifies vm`trackedPages, vm`tables, vm`eptp, vm`eptInitialized, vm`guest
    modifies hv`owner, hv`memory, hv`lastReturned, hv.arenas`headers, hv.arenas`blocks
    ensures r.Ok? ==>
              && hv.Valid() && vm.eptInitialized
              && (forall a: nat :: a < SPACE ==>
                  Translate(hv.memory, vm.eptp, a) == if a < Span(3) then Some(a) else None)
              && OnlyTakes(vm.id, old(Snap(hv, vm)), Snap(hv, vm))
    ensures r.Panic? ==> r.reason != EptAlreadyInitialized && hv.Valid() && hv.Exhausted(r.reason)
  {
    hide Hypervisor.Valid, AllZero, Filled, Translate, Tree, EptEntry, Mapping, Size, OnlyTakes, Grants;
    ghost var s, m := Snap(hv, vm), hv.memory;
    var pml4 := NewTable(hv, vm);
    if pml4.Panic? {
      return pml4.PropagateFailure();
    }
    ghost var s1 := Snap(hv, vm);
    TakenIsNew(vm.id, pml4.value, pdpt, s, s1);
    KeptFilled(m, hv.memory, pdpt);
    LinkAndAdopt(hv, vm, pml4.value, pdpt);
    OnlyTakesPage(vm.id, pml4.value, s, s1, Snap(hv, vm));
    return Ok(());
  }

  /** The PML4 gets its entry. */
  method LinkAndAdopt(hv: Hypervisor, vm: Vm, pml4: nat, pdpt: nat)
    requires hv.Valid() && vm in hv.vms && !vm.eptInitialized && pml4 != pdpt
    requires IsPage(pdpt) && Owns(hv.owner, LiveEpt(vm.id), pdpt) && Filled(hv.memory, pdpt, PAGE_TABLE_ENTRIES)
    requires IsPage(pml4) && Owns(hv.owner, LiveEpt(vm.id), pml4) && AllZero(At(hv.memory, pml4))
    modifies vm`tables, vm`eptp, vm`eptInitialized, vm`guest, hv`memory
    ensures hv.Valid() && vm.eptInitialized
    ensures forall a: nat :: a < SPACE ==> Translate(hv.memory, vm.eptp, a) == if a < Span(3) then Some(a) else None
    ensures forall q: nat :: q != pml4 ==> SameAt(old(hv.memory), hv.memory, q)
  {
    hide Hypervisor.Valid, AllZero, Filled, Translate, Tree, EptEntry, Grants;
    WriteUnlinked(hv, vm, pml4, 0, EptEntry(pdpt));
    KeptFilled(old(hv.memory), hv.memory, pdpt);
    OneEntry(old(hv.memory), pml4, EptEntry(pdpt));
    GigabytesAreIdentity(hv.memory, pml4, pdpt);
    AdoptTree(hv, vm, pml4, map[ROOT := pml4, Node(2, 0) := pdpt]);
  }

  lemma TakenIsNew(id: nat, p: nat, q: nat, s: Snapshot, s1: Snapshot)
    requires PageTaken(id, p, s, s1) && Owns(s.owner, LiveEpt(id), q)
    ensures p != q && SameAt(s.memory, s1.memory, q) && Owns(s1.owner, LiveEpt(id), q) && Owns(s1.owner, LiveEpt(id), p)
  {
  }

  /** vmx_ept_create_identity_mapping: the first 512 GiB translate to themselves and nothing else does;
      pages of other owners keep owner and content. */
  method CreateIdentityMapping(hv: Hypervisor, vm: Vm) returns (r: Outcome<()>)
    requires hv.Valid() && vm in hv.vms
    modifies vm`trackedPages, vm`tables, vm`eptp, vm`eptInitialized, vm`guest
    modifies hv`owner, hv`memory, hv`lastReturned, hv.arenas`headers, hv.arenas`blocks
    ensures r.Ok? ==>
              && hv.Valid() && vm.eptInitialized
              && (forall a: nat :: a < SPACE ==>
                  Translate(hv.memory, vm.eptp, a) == if a < Span(3) then Some(a) else None)
              && OnlyTakes(vm.id, old(Snap(hv, vm)), Snap(hv, vm))
    ensures r.Ok? ==> forall a: nat :: a < Span(3) ==> RightsAt(hv.memory, vm.eptp, 3, a) == ALL_RIGHTS
    ensures r == Panic(EptAlreadyInitialized) <==> old(vm.eptInitialized)
    ensures r.Panic? && r.reason != EptAlreadyInitialized ==> hv.Valid() && hv.Exhausted(r.reason)
  {
    hide Hypervisor.Valid, Filled, Translate, Tree, OnlyTakes, Mapping, Size, RightsAt;
    if vm.eptInitialized {
      return Panic(EptAlreadyInitialized);
    }
    PartsOf(hv, vm);
    ghost var s := Snap(hv, vm);
    var pdpt := NewGigabyteTable(hv, vm);
    if pdpt.Panic? {
      return pdpt.PropagateFailure();
    }
    ghost var s1 := Snap(hv, vm);
    r := LinkGigabyteTable(hv, vm, pdpt.value);
    if r.Ok? {
      OnlyTakesChain(vm.id, s, s1, Snap(hv, vm));
      forall a: nat | a < Span(3)
        ensures RightsAt(hv.memory, vm.eptp, 3, a) == ALL_RIGHTS
      {
        TranslatedIsGranted(hv, vm, a);
      }
    }
  }

  lemma OnlyTakesChain(id: nat, s: Snapshot, s1: Snapshot, s2: Snapshot)
    requires OnlyTakes(id, s, s1) && OnlyTakes(id, s1, s2)
    ensures OnlyTakes(id, s, s2)
  {
    KeepsOthersChain(id, s, s1, s2);
    forall p: nat | p in s2.owner && s2.owner[p] != LiveEpt(id)
      ensures Owns(s.owner, s2.owner[p], p)
    {
      assert Owns(s1.owner, s2.owner[p], p);
    }
  }

  /** Taking a page and writing to it leaves the pages of other owners alone. */
  lemma OnlyTakesPage(id: nat, p: nat, s: Snapshot, s1: Snapshot, s2: Snapshot)
    requires PageTaken(id, p, s, s1) && s2.owner == s1.owner
    requires forall q: nat :: q != p ==> SameAt(s1.memory, s2.memory, q)
    ensures OnlyTakes(id, s, s2)
  {
    forall q: nat | q in s.owner && s.owner[q] != LiveEpt(id) && s.owner[q] != ReservedEpt(id)
      ensures Owns(s2.owner, s.owner[q], q) && SameAt(s.memory, s2.memory, q)
    {
      assert q != p && SameAt(s.memory, s1.memory, q) && SameAt(s1.memory, s2.memory, q);
    }
    forall q: nat | q !in s2.owner
      ensures q !in s.owner && SameAt(s.memory, s2.memory, q)
    {
      assert q != p && SameAt(s.memory, s1.memory, q) && SameAt(s1.memory, s2.memory, q);
    }
  }

  lemma OneEntry(m: Memory, p: nat, e: u64)
    requires AllZero(At(m, p))
    ensures forall k :: 0 <= k < PAGE_TABLE_ENTRIES ==> At(WriteWord(m, p, 0, e), p)[k] == if k == 0 then e else 0
  {
  }

  lemma KeptFilled(m: Memory, m': Memory, pdpt: nat)
    requires Filled(m, pdpt, PAGE_TABLE_ENTRIES) && SameAt(m, m', pdpt)
    ensures Filled(m', pdpt, PAGE_TABLE_ENTRIES)
  {
  }

  /** The machine starts using a tree of live pages. */
  method AdoptTree(hv: Hypervisor, vm: Vm, root: nat, ghost tables: map<Node, nat>)
    requires hv.Valid() && vm in hv.vms && Tree(hv.memory, tables) && Grants(hv.memory, tables) && tables[ROOT] == root
    requires forall n :: n in tables ==> Owns(hv.owner, LiveEpt(vm.id), tables[n])
    modifies vm`tables, vm`eptp, vm`eptInitialized, vm`guest
    ensures hv.Valid() && vm.eptInitialized && vm.eptp == root && vm.tables == tables
  {
    hide InChainload, BootOk, ArenaList.Valid, OwnersOk, ArenaOwners, ListsMatch, VmOk, Tree, ReservedIsZero,
      Grants;
    VmParts(vm, hv.memory, hv.owner);
    vm.eptp := root;
    vm.eptInitialized := true;
    vm.tables := tables;
    vm.guest := Anything;
    VmFromParts(vm, hv.memory, hv.owner);
  }
}
