/** The identity mapping a guest starts with (vm_guest_paging_setup_identity in
    hv/src/vmm/vm_guest_paging.c): 514 tables at the end of guest memory, written through the EPT. */
module GuestIdentity {
  import opened Bits
  import opened Paging
  import opened PageTableEntries
  import opened PhysicalMemory
  import opened RadixTree
  import opened Outcomes
  import opened Arena
  import opened VirtualMachine
  import opened Chainload
  import opened HypervisorState
  import opened EptMapping
  import opened GuestMemoryAllocation
  import opened GuestPaging

  /** Entry k of the i-th page directory. */
  function DirectoryEntry(i: nat, k: nat): (e: u64)
    requires i < PAGE_TABLE_ENTRIES && k < PAGE_TABLE_ENTRIES
    ensures Present(e) && Large(e) && Writable(e) && !NoExecute(e)
    ensures BaseAt(e, 1) == (i * PAGE_TABLE_ENTRIES + k) * 0x20_0000
  {
    LargeEntry(i * PAGE_TABLE_ENTRIES + k)
  }

  // --- the tables in guest memory ------------------------------------------------------------------

  /** The first k entries of the i-th page directory. */
  ghost predicate DirectoryFilled(m: Memory, pd: nat, i: nat, k: nat)
    requires i < PAGE_TABLE_ENTRIES && k <= PAGE_TABLE_ENTRIES
  {
    forall j :: 0 <= j < k ==> At(m, pd)[j] == DirectoryEntry(i, j)
  }

  /** The i-th page directory is filled, and the directory pointer table links it. */
  ghost predicate DirectoryLinked(m: Memory, hosts: seq<nat>, i: nat)
    requires i < PAGE_TABLE_ENTRIES && i + 3 <= |hosts|
  {
    && DirectoryFilled(m, hosts[|hosts| - 3 - i], i, PAGE_TABLE_ENTRIES)
    && At(m, hosts[|hosts| - 2])[i] == TableEntry((|hosts| - 3 - i) * PAGE_SIZE)
  }

  /** The first i directories are filled and linked. */
  ghost predicate DirectoriesDone(m: Memory, hosts: seq<nat>, i: nat)
    requires i <= PAGE_TABLE_ENTRIES && i + 2 <= |hosts|
  {
    forall j: nat :: j < i ==> DirectoryLinked(m, hosts, j)
  }

  /** The PML4 page holds one link, to the directory pointer table below it. */
  ghost predicate RootDone(m: Memory, hosts: seq<nat>)
    requires |hosts| >= 2
  {
    At(m, hosts[|hosts| - 1]) == ZERO_PAGE[0 := TableEntry((|hosts| - 2) * PAGE_SIZE)]
  }

  /** Guest pages below first, and every page that is not the guest's, are as before. */
  ghost predicate TailOnly(m: Memory, m': Memory, hosts: seq<nat>, first: nat)
    requires first <= |hosts|
  {
    forall p: nat :: p !in hosts[first..] ==> SameAt(m, m', p)
  }

  // --- writing to guest memory ------------------------------------------------------------------------

  /** Writes to guest pages disturb no machine's EPT. */
  lemma GuestWrites(vms: seq<Vm>, m: Memory, m': Memory, owner: map<nat, Owner>)
    requires forall q: nat :: q in owner && !owner[q].GuestMemory? ==> SameAt(m, m', q)
    requires forall v :: v in vms ==> VmOk(v, m, owner)
    ensures forall v :: v in vms ==> VmOk(v, m', owner)
  {
    forall v | v in vms
      ensures SameFor(v.id, m, owner, m', owner)
    {
    }
    VmsFrame(vms, m, owner, m', owner);
  }

  /** Storing a page of guest memory: nothing else changes, and every mapping stays. */
  method StorePage(hv: Hypervisor, vm: Vm, p: nat, page: Page)
    requires hv.Valid() && vm in hv.vms && Owns(hv.owner, GuestMemory(vm.id), p)
    modifies hv`memory
    ensures hv.Valid() && hv.memory == old(hv.memory)[p := page]
    ensures SameMappings(old(Snap(hv, vm)), Snap(hv, vm))
  {
    hide InChainload, BootOk, ArenaList.Valid, OwnersOk, ArenaOwners, ListsMatch, VmOk, Lookup, Tree;
    PartsOf(hv, vm);
    hv.memory := hv.memory[p := page];
    GuestWrites(hv.vms, old(hv.memory), hv.memory, hv.owner);
    if vm.eptInitialized {
      TreeFrame(old(hv.memory), hv.memory, vm.tables);
    }
  }

  /** StorePage, on a machine whose guest memory is ready. */
  method StoreGuestPage(hv: Hypervisor, vm: Vm, p: nat, page: Page, ghost hosts: seq<nat>)
    requires hv.Valid() && vm in hv.vms && p in hosts && GuestReady(vm.id, hosts, Snap(hv, vm))
    modifies hv`memory
    ensures hv.Valid() && hv.memory == old(hv.memory)[p := page] && GuestReady(vm.id, hosts, Snap(hv, vm))
  {
    hide Hypervisor.Valid, Mapping, EptEntry;
    assert Owns(hv.owner, GuestMemory(vm.id), p);
    StorePage(hv, vm, p, page);
  }

  /** The inner loop: one page directory. */
  method FillDirectory(hv: Hypervisor, vm: Vm, pd: nat, i: nat, ghost hosts: seq<nat>)
    requires hv.Valid() && vm in hv.vms && pd in hosts && i < PAGE_TABLE_ENTRIES
             && GuestReady(vm.id, hosts, Snap(hv, vm))
    modifies hv`memory
    ensures hv.Valid() && GuestReady(vm.id, hosts, Snap(hv, vm))
    ensures DirectoryFilled(hv.memory, pd, i, PAGE_TABLE_ENTRIES)
    ensures forall q: nat :: q != pd ==> SameAt(old(hv.memory), hv.memory, q)
  {
    hide Hypervisor.Valid, GuestReady, DirectoryEntry;
    for k := 0 to PAGE_TABLE_ENTRIES
      invariant hv.Valid() && GuestReady(vm.id, hosts, Snap(hv, vm))
      invariant DirectoryFilled(hv.memory, pd, i, k)
      invariant forall q: nat :: q != pd ==> SameAt(old(hv.memory), hv.memory, q)
    {
      ghost var m := hv.memory;
      StoreGuestPage(hv, vm, pd, At(hv.memory, pd)[k := DirectoryEntry(i, k)], hosts);
      forall q: nat | q != pd
        ensures SameAt(old(hv.memory), hv.memory, q)
      {
        assert SameAt(old(hv.memory), m, q);
      }
    }
  }

  // --- framing the tables -------------------------------------------------------------------------------

  ghost predicate Distinct(hosts: seq<nat>) {
    forall j, k :: 0 <= j < k < |hosts| ==> hosts[j] != hosts[k]
  }

  lemma ReadyIsDistinct(id: nat, hosts: seq<nat>, s: Snapshot)
    requires GuestReady(id, hosts, s)
    ensures Distinct(hosts)
  {
    hide Mapping, EptEntry;
  }

  lemma ReadyOwns(id: nat, hosts: seq<nat>, s: Snapshot, k: nat)
    requires GuestReady(id, hosts, s) && k < |hosts|
    ensures Owns(s.owner, GuestMemory(id), hosts[k]) && IsPage(hosts[k])
  {
    hide Mapping, EptEntry;
  }

  /** Directory i was filled, then linked; the earlier ones are untouched. */
  lemma DirectoryAdded(m: Memory, m1: Memory, m2: Memory, hosts: seq<nat>, i: nat)
    requires Distinct(hosts) && i < PAGE_TABLE_ENTRIES && i + 3 <= |hosts|
    requires DirectoriesDone(m, hosts, i)
    requires DirectoryFilled(m1, hosts[|hosts| - 3 - i], i, PAGE_TABLE_ENTRIES)
    requires forall q: nat :: q != hosts[|hosts| - 3 - i] ==> SameAt(m, m1, q)
    requires m2 == WriteWord(m1, hosts[|hosts| - 2], i, TableEntry((|hosts| - 3 - i) * PAGE_SIZE))
    ensures DirectoriesDone(m2, hosts, i + 1)
  {
    hide TableEntry, DirectoryEntry;
    forall j: nat | j < i + 1
      ensures DirectoryLinked(m2, hosts, j)
    {
      assert SameAt(m, m1, hosts[|hosts| - 2]);
      if j < i {
        assert DirectoryLinked(m, hosts, j);
        assert SameAt(m, m1, hosts[|hosts| - 3 - j]);
      }
    }
  }

  lemma TailGrows(m0: Memory, m: Memory, m': Memory, hosts: seq<nat>, first: nat, first': nat, p: nat)
    requires first' <= first <= |hosts| && TailOnly(m0, m, hosts, first)
    requires p in hosts[first'..] && forall q: nat :: q != p ==> SameAt(m, m', q)
    ensures TailOnly(m0, m', hosts, first')
  {
    forall q: nat | q !in hosts[first'..]
      ensures SameAt(m0, m', q)
    {
      assert hosts[first..] == hosts[first'..][first - first'..];
      assert SameAt(m0, m, q) && SameAt(m, m', q);
    }
  }

  /** One turn of the outer loop. */
  method AddDirectory(hv: Hypervisor, vm: Vm, pd: nat, pdpt: nat, gpa: nat, i: nat, ghost hosts: seq<nat>,
                      ghost m0: Memory)
    requires hv.Valid() && vm in hv.vms && i < PAGE_TABLE_ENTRIES && GuestReady(vm.id, hosts, Snap(hv, vm))
    requires i + 3 <= |hosts| && pd == hosts[|hosts| - 3 - i] && pdpt == hosts[|hosts| - 2]
             && gpa == (|hosts| - 3 - i) * PAGE_SIZE
    requires DirectoriesDone(hv.memory, hosts, i) && TailOnly(m0, hv.memory, hosts, |hosts| - 2 - i)
    modifies hv`memory
    ensures hv.Valid() && GuestReady(vm.id, hosts, Snap(hv, vm))
    ensures DirectoriesDone(hv.memory, hosts, i + 1) && TailOnly(m0, hv.memory, hosts, |hosts| - 3 - i)
  {
    hide Hypervisor.Valid, GuestReady, TableEntry, DirectoryFilled, DirectoriesDone, TailOnly;
    ReadyIsDistinct(vm.id, hosts, Snap(hv, vm));
    ghost var m := hv.memory;
    FillDirectory(hv, vm, pd, i, hosts);
    ghost var m1 := hv.memory;
    StoreGuestPage(hv, vm, pdpt, At(hv.memory, pdpt)[i := TableEntry(gpa)], hosts);
    DirectoryAdded(m, m1, hv.memory, hosts, i);
    assert hosts[|hosts| - 3 - i..][0] == pd && hosts[|hosts| - 3 - i..][i + 1] == pdpt;
    TailGrows(m0, m, m1, hosts, |hosts| - 2 - i, |hosts| - 3 - i, pd);
    TailGrows(m0, m1, hv.memory, hosts, |hosts| - 3 - i, |hosts| - 3 - i, pdpt);
  }

  // --- vm_guest_paging_setup_identity ------------------------------------------------------------------------

  /** The host page behind a guest-physical page, or the PANIC of EPT_GET_HOSTVA. */
  method HostPage(hv: Hypervisor, vm: Vm, g: nat, ghost hosts: seq<nat>) returns (r: Outcome<nat>)
    requires hv.Valid() && vm in hv.vms && GuestReady(vm.id, hosts, Snap(hv, vm))
    requires g % PAGE_SIZE == 0
    ensures r == if g % SPACE / PAGE_SIZE < |hosts| then Ok(hosts[g % SPACE / PAGE_SIZE]) else Panic(EptWalkFailed)
  {
    hide Hypervisor.Valid, GuestReady;
    HostOfReady(vm.id, hosts, Snap(hv, vm), g);
    match GetHostPhysicalAddress(hv.memory, vm.eptInitialized, vm.eptp, g)
    case None => r := Panic(EptWalkFailed);
    case Some(pa) => r := Ok(pa);
  }

  /** The pages of guest memory counted from its end, as the source computes their addresses. */
  lemma TailAddresses(n: nat, back: nat)
    requires 0 < n <= MAX_PAGES && 0 < back <= 514
    ensures (n - back) * PAGE_SIZE % TWO_64 % SPACE / PAGE_SIZE
            == (if back <= n then n - back else MAX_PAGES + n - back)
    ensures (n - back) * PAGE_SIZE % TWO_64 % PAGE_SIZE == 0
  {
  }

  /** The root page was cleared and linked after the directories. */
  lemma RootAdded(m0: Memory, m: Memory, m1: Memory, m2: Memory, hosts: seq<nat>)
    requires Distinct(hosts) && |hosts| >= 514
    requires DirectoriesDone(m, hosts, PAGE_TABLE_ENTRIES) && TailOnly(m0, m, hosts, |hosts| - 514)
    requires m1 == m[hosts[|hosts| - 1] := ZERO_PAGE]
    requires m2 == m1[hosts[|hosts| - 1] := At(m1, hosts[|hosts| - 1])[0 := TableEntry((|hosts| - 2) * PAGE_SIZE)]]
    ensures RootDone(m2, hosts) && DirectoriesDone(m2, hosts, PAGE_TABLE_ENTRIES)
            && TailOnly(m0, m2, hosts, |hosts| - 514)
  {
    hide TableEntry, DirectoryEntry;
    var root := hosts[|hosts| - 1];
    forall j: nat | j < PAGE_TABLE_ENTRIES
      ensures DirectoryLinked(m2, hosts, j)
    {
      assert DirectoryLinked(m, hosts, j);
    }
    assert hosts[|hosts| - 514..][513] == root;
    TailGrows(m0, m, m2, hosts, |hosts| - 514, |hosts| - 514, root);
  }

  /** What the finished tables are. */
  ghost predicate IdentityBuilt(id: nat, hosts: seq<nat>, s: Snapshot) {
    && GuestReady(id, hosts, s) && 514 <= |hosts| <= MAX_PAGES
    && RootDone(s.memory, hosts) && DirectoriesDone(s.memory, hosts, PAGE_TABLE_ENTRIES)
  }

  lemma DirectoryWalk(id: nat, hosts: seq<nat>, s: Snapshot, i: nat, la: nat)
    requires IdentityBuilt(id, hosts, s) && i < PAGE_TABLE_ENTRIES
    ensures NestedWalk(s.memory, s.initialized, s.eptp, (|hosts| - 3 - i) * PAGE_SIZE, 1, la)
            == Some((i * PAGE_TABLE_ENTRIES + Index(la, 1)) * 0x20_0000 + la % 0x20_0000)
    ensures FullAccess(s.memory, s.initialized, s.eptp, (|hosts| - 3 - i) * PAGE_SIZE, 1, la)
  {
    hide GuestReady, DirectoryEntry, NestedWalk, DirectoriesDone, RootDone, BaseAt, Present, Large, Writable, NoExecute,
      Index, GuestTable, FullAccess;
    var k := |hosts| - 3 - i;
    DirectoryAt(s.memory, hosts, i);
    TableAt(id, hosts, s, k);
    NestedStep(s.memory, s.initialized, s.eptp, k * PAGE_SIZE, 1, la);
    AccessStep(s.memory, s.initialized, s.eptp, k * PAGE_SIZE, 1, la);
    assert At(s.memory, hosts[k])[Index(la, 1)] == DirectoryEntry(i, Index(la, 1));
  }

  lemma PointerWalk(id: nat, hosts: seq<nat>, s: Snapshot, la: nat)
    requires IdentityBuilt(id, hosts, s)
    ensures NestedWalk(s.memory, s.initialized, s.eptp, (|hosts| - 2) * PAGE_SIZE, 2, la)
            == Some((Index(la, 2) * PAGE_TABLE_ENTRIES + Index(la, 1)) * 0x20_0000 + la % 0x20_0000)
    ensures FullAccess(s.memory, s.initialized, s.eptp, (|hosts| - 2) * PAGE_SIZE, 2, la)
  {
    hide GuestReady, DirectoryEntry, TableEntry, NestedWalk, DirectoriesDone, RootDone, BaseAt, Present, Large,
      Writable, NoExecute, Index, GuestTable, FullAccess;
    var k, i := |hosts| - 2, Index(la, 2);
    DirectoryAt(s.memory, hosts, i);
    TableAt(id, hosts, s, k);
    NestedStep(s.memory, s.initialized, s.eptp, k * PAGE_SIZE, 2, la);
    AccessStep(s.memory, s.initialized, s.eptp, k * PAGE_SIZE, 2, la);
    PageBase((|hosts| - 3 - i) * PAGE_SIZE);
    DirectoryWalk(id, hosts, s, i, la);
  }

  /** The walk through the tables: the first 512 GiB of linear addresses map to themselves, with all rights. */
  lemma IdentityWalk(id: nat, hosts: seq<nat>, s: Snapshot, la: nat)
    requires IdentityBuilt(id, hosts, s) && la < SPACE
    ensures GetGuestPhysicalAddress(s.memory, s.initialized, s.eptp, (|hosts| - 1) * PAGE_SIZE, la)
            == if la < Span(3) then Some(la) else None
    ensures la < Span(3) ==> FullAccess(s.memory, s.initialized, s.eptp, (|hosts| - 1) * PAGE_SIZE, 3, la)
  {
    hide GuestReady, TableEntry, NestedWalk, DirectoriesDone, RootDone, BaseAt, GetGuestPhysicalAddress, Large,
      Writable, NoExecute, Index, GuestTable, FullAccess;
    var k := |hosts| - 1;
    GuestWalkIsNested(s.memory, s.initialized, s.eptp, k * PAGE_SIZE, la);
    TableAt(id, hosts, s, k);
    NestedStep(s.memory, s.initialized, s.eptp, k * PAGE_SIZE, 3, la);
    AccessStep(s.memory, s.initialized, s.eptp, k * PAGE_SIZE, 3, la);
    RootEntry(s.memory, hosts, Index(la, 3));
    PageBase((k - 1) * PAGE_SIZE);
    PointerWalk(id, hosts, s, la);
    LinearParts(la);
  }

  lemma LinearParts(la: nat)
    requires la < SPACE
    ensures if la < Span(3) then
              Index(la, 3) == 0 && (Index(la, 2) * PAGE_TABLE_ENTRIES + Index(la, 1)) * 0x20_0000 + la % 0x20_0000 == la
            else Index(la, 3) != 0
  {
    SpanStep(la, 1);
    SpanStep(la, 2);
  }

  lemma TableAt(id: nat, hosts: seq<nat>, s: Snapshot, k: nat)
    requires GuestReady(id, hosts, s) && k < |hosts| <= MAX_PAGES
    ensures GuestTable(s.memory, s.initialized, s.eptp, k * PAGE_SIZE) == Some(At(s.memory, hosts[k]))
  {
    hide GuestReady, GetHostPhysicalAddress;
    PageNumber(k);
    HostOfReady(id, hosts, s, k * PAGE_SIZE);
  }

  lemma PageNumber(k: nat)
    requires k < MAX_PAGES
    ensures k * PAGE_SIZE % SPACE / PAGE_SIZE == k && k * PAGE_SIZE % PAGE_SIZE == 0
  {
  }

  lemma RootEntry(m: Memory, hosts: seq<nat>, k: nat)
    requires |hosts| >= 2 && RootDone(m, hosts) && k < PAGE_TABLE_ENTRIES
    ensures At(m, hosts[|hosts| - 1])[k] == if k == 0 then TableEntry((|hosts| - 2) * PAGE_SIZE) else 0
    ensures !Present(0)
  {
  }

  lemma DirectoryAt(m: Memory, hosts: seq<nat>, i: nat)
    requires |hosts| >= 514 && DirectoriesDone(m, hosts, PAGE_TABLE_ENTRIES) && i < PAGE_TABLE_ENTRIES
    ensures DirectoryLinked(m, hosts, i)
  {
  }

  /** vm_guest_paging_setup_identity, on a machine with n guest pages: it succeeds exactly when
      n >= 514 and nothing was set up before; then the walk from the returned CR3 maps the first
      512 GiB of linear addresses to themselves and no other, the setup counter is 514, and only
      the last 514 guest pages were written. */
  method SetupIdentity(hv: Hypervisor, vm: Vm, ghost hosts: seq<nat>) returns (r: Outcome<nat>)
    requires hv.Valid() && vm in hv.vms
    requires GuestReady(vm.id, hosts, Snap(hv, vm)) && |hosts| == vm.guestPhysicalPages <= MAX_PAGES
    modifies hv`memory, vm`usedByInitialSetup
    ensures r.Ok? <==> vm.guestPhysicalPages >= 514 && old(vm.usedByInitialSetup) == 0
    ensures r == Panic(NoGuestMemory) <==> vm.guestPhysicalPages == 0
    ensures r == Panic(SetupAlreadyStarted) <==> vm.guestPhysicalPages != 0 && old(vm.usedByInitialSetup) != 0
    ensures r.Panic? ==> r.reason in {NoGuestMemory, SetupAlreadyStarted, EptWalkFailed}
    ensures r.Ok? ==>
              && hv.Valid() && IdentityBuilt(vm.id, hosts, Snap(hv, vm))
              && r.value == (vm.guestPhysicalPages - 1) * PAGE_SIZE && vm.usedByInitialSetup == 514
              && TailOnly(old(hv.memory), hv.memory, hosts, |hosts| - 514)
              && (forall la: nat :: la < SPACE ==>
                    GetGuestPhysicalAddress(hv.memory, vm.eptInitialized, vm.eptp, r.value, la)
                    == if la < Span(3) then Some(la) else None)
              && forall la: nat :: la < Span(3) ==>
                   FullAccess(hv.memory, vm.eptInitialized, vm.eptp, r.value, 3, la)
  {
    hide Hypervisor.Valid, GuestReady, GetGuestPhysicalAddress, FullAccess, DirectoriesDone, RootDone, TailOnly,
      IdentityBuilt;
    if vm.guestPhysicalPages == 0 {
      return Panic(NoGuestMemory);
    }
    if vm.usedByInitialSetup != 0 {
      return Panic(SetupAlreadyStarted);
    }
    ghost var n, m0 := |hosts|, hv.memory;

    var pml4Gpa := (vm.guestPhysicalPages - 1) * PAGE_SIZE % TWO_64;
    vm.usedByInitialSetup := vm.usedByInitialSetup + 1;
    TailAddresses(n, 1);
    var root := HostPage(hv, vm, pml4Gpa, hosts);
    if root.Panic? {
      return root;
    }
    var pml4 := root.value;

    var pdptGpa := Sub64(pml4Gpa, PAGE_SIZE);
    vm.usedByInitialSetup := vm.usedByInitialSetup + 1;
    TailAddresses(n, 2);
    var pdpt :- HostPage(hv, vm, pdptGpa, hosts);

    var _ :- AddDirectories(hv, vm, pdptGpa, pdpt, hosts);
    LinkRoot(hv, vm, pml4, pdptGpa, hosts, m0);
    IdentityWalks(vm.id, hosts, Snap(hv, vm), pml4Gpa);
    return Ok(pml4Gpa);
  }

  lemma IdentityWalks(id: nat, hosts: seq<nat>, s: Snapshot, cr3: nat)
    requires IdentityBuilt(id, hosts, s) && cr3 == (|hosts| - 1) * PAGE_SIZE
    ensures forall la: nat :: la < SPACE ==>
              GetGuestPhysicalAddress(s.memory, s.initialized, s.eptp, cr3, la)
              == if la < Span(3) then Some(la) else None
    ensures forall la: nat :: la < Span(3) ==> FullAccess(s.memory, s.initialized, s.eptp, cr3, 3, la)
  {
    hide IdentityBuilt, GetGuestPhysicalAddress, FullAccess;
    forall la: nat | la < SPACE
      ensures GetGuestPhysicalAddress(s.memory, s.initialized, s.eptp, cr3, la)
                == if la < Span(3) then Some(la) else None
      ensures la < Span(3) ==> FullAccess(s.memory, s.initialized, s.eptp, cr3, 3, la)
    {
      IdentityWalk(id, hosts, s, la);
    }
  }

  /** The outer loop. */
  method AddDirectories(hv: Hypervisor, vm: Vm, pdptGpa: u64, pdpt: nat, ghost hosts: seq<nat>) returns (r: Outcome<()>)
    requires hv.Valid() && vm in hv.vms && GuestReady(vm.id, hosts, Snap(hv, vm))
    requires 2 <= |hosts| <= MAX_PAGES && vm.usedByInitialSetup == 2
    requires pdptGpa == (|hosts| - 2) * PAGE_SIZE && pdpt == hosts[|hosts| - 2]
    modifies hv`memory, vm`usedByInitialSetup
    ensures r == if |hosts| >= 514 then Ok(()) else Panic(EptWalkFailed)
    ensures r.Ok? ==>
              && hv.Valid() && GuestReady(vm.id, hosts, Snap(hv, vm)) && vm.usedByInitialSetup == 514
              && DirectoriesDone(hv.memory, hosts, PAGE_TABLE_ENTRIES)
              && TailOnly(old(hv.memory), hv.memory, hosts, |hosts| - 514)
  {
    hide Hypervisor.Valid, GuestReady, DirectoriesDone, TailOnly;
    ghost var n := |hosts|;
    DirectoriesStart(hv.memory, hosts);
    for i := 0 to PAGE_TABLE_ENTRIES
      invariant i + 2 <= n && vm.usedByInitialSetup == i + 2
      invariant hv.Valid() && vm in hv.vms && GuestReady(vm.id, hosts, Snap(hv, vm))
      invariant DirectoriesDone(hv.memory, hosts, i) && TailOnly(old(hv.memory), hv.memory, hosts, n - 2 - i)
    {
      var pdGpa := Sub64(pdptGpa, (i + 1) * PAGE_SIZE);
      vm.usedByInitialSetup := vm.usedByInitialSetup + 1;
      TailAddresses(n, i + 3);
      var pd :- HostPage(hv, vm, pdGpa, hosts);
      AddDirectory(hv, vm, pd, pdpt, pdGpa, i, hosts, old(hv.memory));
    }
    return Ok(());
  }

  /** Clearing the PML4 page and setting its only entry. */
  method LinkRoot(hv: Hypervisor, vm: Vm, pml4: nat, pdptGpa: nat, ghost hosts: seq<nat>, ghost m0: Memory)
    requires hv.Valid() && vm in hv.vms && GuestReady(vm.id, hosts, Snap(hv, vm))
    requires 514 <= |hosts| <= MAX_PAGES && pml4 == hosts[|hosts| - 1] && pdptGpa == (|hosts| - 2) * PAGE_SIZE
    requires DirectoriesDone(hv.memory, hosts, PAGE_TABLE_ENTRIES) && TailOnly(m0, hv.memory, hosts, |hosts| - 514)
    modifies hv`memory
    ensures hv.Valid() && IdentityBuilt(vm.id, hosts, Snap(hv, vm)) && TailOnly(m0, hv.memory, hosts, |hosts| - 514)
  {
    hide Hypervisor.Valid, GuestReady, TableEntry, DirectoriesDone, RootDone, TailOnly;
    ghost var m := hv.memory;
    StoreGuestPage(hv, vm, pml4, ZERO_PAGE, hosts);
    ghost var m1 := hv.memory;
    StoreGuestPage(hv, vm, pml4, At(hv.memory, pml4)[0 := TableEntry(pdptGpa)], hosts);
    ReadyIsDistinct(vm.id, hosts, Snap(hv, vm));
    RootAdded(m0, m, m1, hv.memory, hosts);
  }

  lemma DirectoriesStart(m: Memory, hosts: seq<nat>)
    requires |hosts| >= 2
    ensures DirectoriesDone(m, hosts, 0) && TailOnly(m, m, hosts, |hosts| - 2)
  {
  }
}
