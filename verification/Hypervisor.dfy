/** The state of the hypervisor's memory management: physical memory, who owns each page, the
    page allocator (hv/src/memory_management/memory_management.c) and the structures that
    claim pages (hv/src/memory_management/vmm_vmx_pages.c, vmm_vm_manager.c).

    owner is ghost: it names the structure that claims a page. A page outside owner that the
    boot loader does not occupy is free. Every structure owns exactly the pages the map gives
    it, so no page ever has two owners, with one exception that the owner BitmapsAndVmcs records:
    vmx_create_initialized_vmcs may put the VMCS region of a machine on the MSR bitmap page. */
module HypervisorState {
  import opened Bits
  import opened Paging
  import opened PageTableEntries
  import opened PhysicalMemory
  import opened RadixTree
  import opened PageList
  import opened Outcomes
  import opened Arena
  import opened VirtualMachine
  import opened Chainload
  import opened PageScan
  import opened PageSupply
  import opened AddressMap

  datatype Owner =
    | ArenaPage
    | VmxonRegion
    | MsrBitmaps
    | Vmcs(vm: nat)
    | BitmapsAndVmcs(vm: nat)
    | LiveEpt(vm: nat)
    | ReservedEpt(vm: nat)
    | GuestMemory(vm: nat)

  predicate OfSomeVm(o: Owner) {
    !o.ArenaPage? && !o.VmxonRegion? && !o.MsrBitmaps?
  }

  predicate Owns(owner: map<nat, Owner>, o: Owner, p: nat) {
    p in owner && owner[p] == o
  }

  ghost predicate ListsMatch(runs: seq<PageRun>, id: nat, owner: map<nat, Owner>) {
    && RunsOk(runs) && Disjoint(runs)
    && (forall p: nat :: Holds(runs, Ept, false, p) <==> Owns(owner, LiveEpt(id), p))
    && (forall p: nat :: Holds(runs, Ept, true, p) <==> Owns(owner, ReservedEpt(id), p))
    && (forall p: nat :: Holds(runs, GuestPhysical, false, p) <==> Owns(owner, GuestMemory(id), p))
    && (forall p: nat :: !Holds(runs, GuestPhysical, true, p))
  }

  /** Every present entry of a table gives all rights. */
  ghost predicate Grants(m: Memory, tables: map<Node, nat>) {
    forall n, i: nat :: n in tables && i < PAGE_TABLE_ENTRIES && Present(At(m, tables[n])[i]) ==>
      EntryRights(At(m, tables[n])[i]) == ALL_RIGHTS
  }

  /** The EPT of a machine: a tree of pages that the machine owns as live tables. */
  ghost predicate EptOk(initialized: bool, eptp: nat, tables: map<Node, nat>, id: nat, m: Memory,
                        owner: map<nat, Owner>)
  {
    && (if initialized then Tree(m, tables) && eptp == tables[ROOT] && Grants(m, tables) else tables == map[])
    && forall n :: n in tables ==> Owns(owner, LiveEpt(id), tables[n])
  }

  ghost predicate ReservedIsZero(id: nat, m: Memory, owner: map<nat, Owner>) {
    forall p: nat :: Owns(owner, ReservedEpt(id), p) ==> AllZero(At(m, p))
  }

  ghost predicate VmcsOk(initialized: bool, region: nat, id: nat, owner: map<nat, Owner>) {
    forall p: nat :: HasVmcs(owner, id, p) <==> initialized && p == region
  }

  /** The page is the VMCS region of the machine. */
  predicate HasVmcs(owner: map<nat, Owner>, id: nat, p: nat) {
    Owns(owner, Vmcs(id), p) || Owns(owner, BitmapsAndVmcs(id), p)
  }

  /** The page holds the MSR bitmaps. */
  predicate HasBitmaps(owner: map<nat, Owner>, p: nat) {
    p in owner && (owner[p].MsrBitmaps? || owner[p].BitmapsAndVmcs?)
  }

  /** What the EPT of a machine is known to map. */
  ghost predicate GuestMapOk(guest: GuestMap, initialized: bool, eptp: nat, id: nat, m: Memory,
                             owner: map<nat, Owner>)
  {
    match guest
    case Anything => true
    case OwnPages => initialized ==> forall a: nat :: a < SPACE ==> MapsOwnMemory(Lookup(m, eptp, a), id, owner)
    case Exactly(hosts) =>
      && HostsOk(hosts, id, owner)
      && forall a: nat :: a < SPACE ==> (if initialized then Lookup(m, eptp, a) else None) == HostHit(hosts, a)
  }

  /** Distinct pages of the machine's guest memory. */
  ghost predicate HostsOk(hosts: seq<nat>, id: nat, owner: map<nat, Owner>) {
    && (forall j, k :: 0 <= j < k < |hosts| ==> hosts[j] != hosts[k])
    && (forall k :: 0 <= k < |hosts| ==> IsPage(hosts[k]) && Owns(owner, GuestMemory(id), hosts[k]))
  }

  /** Guest page k is host page k of the list. */
  function HostHit(hosts: seq<nat>, a: nat): Option<Hit> {
    if a / PAGE_SIZE < |hosts| then Some(LeafHit(EptEntry(hosts[a / PAGE_SIZE]))) else None
  }

  ghost predicate MapsOwnMemory(w: Option<Hit>, id: nat, owner: map<nat, Owner>) {
    w.Some? ==> w.value.level == 0 && Owns(owner, GuestMemory(id), Base(w.value.entry))
  }

  ghost predicate VmOk(vm: Vm, m: Memory, owner: map<nat, Owner>)
    reads vm`trackedPages, vm`eptInitialized, vm`eptp, vm`tables, vm`guest, vm`vmcsInitialized, vm`vmcsRegion
  {
    && ListsMatch(vm.trackedPages, vm.id, owner)
    && EptOk(vm.eptInitialized, vm.eptp, vm.tables, vm.id, m, owner)
    && GuestMapOk(vm.guest, vm.eptInitialized, vm.eptp, vm.id, m, owner)
    && ReservedIsZero(vm.id, m, owner)
    && VmcsOk(vm.vmcsInitialized, vm.vmcsRegion, vm.id, owner)
  }

  lemma GrantsFrame(m: Memory, m': Memory, tables: map<Node, nat>)
    requires Grants(m, tables) && forall n :: n in tables ==> SameAt(m, m', tables[n])
    ensures Grants(m', tables)
  {
  }

  /** Linking an empty table, or mapping a page, with an entry that gives all rights. */
  lemma GrantsWrite(m: Memory, tables: map<Node, nat>, n: Node, i: nat, e: u64)
    requires NodesOk(tables) && Grants(m, tables) && n in tables && i < PAGE_TABLE_ENTRIES
    requires EntryRights(e) == ALL_RIGHTS
    ensures Grants(WriteWord(m, tables[n], i, e), tables)
  {
    hide EntryRights;
    forall n', j: nat | n' in tables && j < PAGE_TABLE_ENTRIES
      ensures At(WriteWord(m, tables[n], i, e), tables[n'])[j] == if n' == n && j == i then e else At(m, tables[n'])[j]
    {
      WordsAfterWrite(m, tables, n, i, e, n', j);
    }
  }

  lemma VmParts(vm: Vm, m: Memory, owner: map<nat, Owner>)
    requires VmOk(vm, m, owner)
    ensures EptOk(vm.eptInitialized, vm.eptp, vm.tables, vm.id, m, owner) && ReservedIsZero(vm.id, m, owner)
    ensures ListsMatch(vm.trackedPages, vm.id, owner) && VmcsOk(vm.vmcsInitialized, vm.vmcsRegion, vm.id, owner)
    ensures GuestMapOk(vm.guest, vm.eptInitialized, vm.eptp, vm.id, m, owner)
    ensures vm.eptInitialized ==> ROOT in vm.tables && vm.tables[ROOT] == vm.eptp
  {
  }

  /** In the second and third case every page that is mapped is the machine's own. */
  lemma MapsOwnPages(guest: GuestMap, eptp: nat, id: nat, m: Memory, owner: map<nat, Owner>)
    requires GuestMapOk(guest, true, eptp, id, m, owner) && !guest.Anything?
    ensures forall a: nat :: a < SPACE ==> MapsOwnMemory(Lookup(m, eptp, a), id, owner)
  {
    hide Lookup, EptEntry;
    if guest.Exactly? {
      forall a: nat | a < SPACE
        ensures MapsOwnMemory(Lookup(m, eptp, a), id, owner)
      {
        if a / PAGE_SIZE < |guest.hosts| {
          PageBase(guest.hosts[a / PAGE_SIZE]);
        }
      }
    }
  }

  lemma VmFromParts(vm: Vm, m: Memory, owner: map<nat, Owner>)
    requires EptOk(vm.eptInitialized, vm.eptp, vm.tables, vm.id, m, owner) && ReservedIsZero(vm.id, m, owner)
    requires ListsMatch(vm.trackedPages, vm.id, owner) && VmcsOk(vm.vmcsInitialized, vm.vmcsRegion, vm.id, owner)
    requires GuestMapOk(vm.guest, vm.eptInitialized, vm.eptp, vm.id, m, owner)
    ensures VmOk(vm, m, owner)
  {
  }

  /** The inner loop of mm_page_used_by_vm_manager. */
  method TestRuns(runs: seq<PageRun>, p: nat) returns (used: bool)
    requires RunsOk(runs) && IsPage(p)
    ensures used <==> HeldByAny(runs, p) || HasEmptyAtZero(runs)
  {
    for k := 0 to |runs|
      invariant forall j :: 0 <= j < k ==> !Covers(runs[j], p) && !EmptyAtZero(runs[j])
    {
      TestRunExact(runs[k], p);
      if TestRun(runs[k], p) {
        return true;
      }
    }
    return false;
  }

  lemma OwnersOfVm(owner: map<nat, Owner>, id: nat, p: nat)
    ensures p in owner && OfSomeVm(owner[p]) && owner[p].vm == id
            <==> HasVmcs(owner, id, p) || Owns(owner, LiveEpt(id), p) || Owns(owner, ReservedEpt(id), p)
                 || Owns(owner, GuestMemory(id), p)
  {
    if p in owner {
      match owner[p]
      case Vmcs(_) =>
      case BitmapsAndVmcs(_) =>
      case LiveEpt(_) =>
      case ReservedEpt(_) =>
      case GuestMemory(_) =>
      case _ =>
    }
  }

  lemma HeldMeansOwned(runs: seq<PageRun>, id: nat, owner: map<nat, Owner>, p: nat)
    requires ListsMatch(runs, id, owner)
    ensures HeldByAny(runs, p)
            <==> Owns(owner, LiveEpt(id), p) || Owns(owner, ReservedEpt(id), p) || Owns(owner, GuestMemory(id), p)
  {
    if HeldByAny(runs, p) {
      var k :| 0 <= k < |runs| && Covers(runs[k], p);
      assert OfClass(runs[k], runs[k].pageType, runs[k].reservedPool);
      assert Holds(runs, runs[k].pageType, runs[k].reservedPool, p);
    }
  }

  ghost predicate OwnersOk(boot: ChainloadPage, owner: map<nat, Owner>, vmxon: Option<nat>, msr: Option<nat>, vms: nat)
  {
    && (forall p: nat :: p in owner ==> IsFrame(p) && !InChainload(boot, p))
    && (forall p: nat :: Owns(owner, VmxonRegion, p) <==> vmxon == Some(p))
    && (forall p: nat :: HasBitmaps(owner, p) <==> msr == Some(p))
    && (forall p: nat :: p in owner && OfSomeVm(owner[p]) ==> owner[p].vm < vms)
  }

  ghost predicate ArenaOwners(owner: map<nat, Owner>, live: seq<nat>) {
    forall p: nat :: Owns(owner, ArenaPage, p) <==> p in live
  }

  /** A free page gets an owner. */
  lemma ClaimKeepsOwners(boot: ChainloadPage, owner: map<nat, Owner>, vmxon: Option<nat>, msr: Option<nat>, vms: nat,
                         live: seq<nat>, p: nat, o: Owner)
    requires OwnersOk(boot, owner, vmxon, msr, vms) && ArenaOwners(owner, live)
    requires p !in owner && IsFrame(p) && !InChainload(boot, p) && !o.BitmapsAndVmcs?
    requires o.VmxonRegion? ==> vmxon == None
    requires o.MsrBitmaps? ==> msr == None
    requires OfSomeVm(o) ==> o.vm < vms
    ensures OwnersOk(boot, owner[p := o], if o.VmxonRegion? then Some(p) else vmxon,
                     if o.MsrBitmaps? then Some(p) else msr, vms)
    ensures ArenaOwners(owner[p := o], if o.ArenaPage? then [p] + live else live)
  {
  }

  /** The MSR bitmap page becomes the VMCS region of a machine as well. */
  lemma ShareKeepsOwners(boot: ChainloadPage, owner: map<nat, Owner>, vmxon: Option<nat>, msr: Option<nat>, vms: nat,
                         live: seq<nat>, p: nat, id: nat)
    requires OwnersOk(boot, owner, vmxon, msr, vms) && ArenaOwners(owner, live)
    requires Owns(owner, MsrBitmaps, p) && id < vms
    ensures OwnersOk(boot, owner[p := BitmapsAndVmcs(id)], vmxon, msr, vms)
    ensures ArenaOwners(owner[p := BitmapsAndVmcs(id)], live)
  {
  }

  /** A machine does not notice what happens to pages that are not its own. */
  ghost predicate SameFor(id: nat, m: Memory, owner: map<nat, Owner>, m': Memory, owner': map<nat, Owner>) {
    && (forall p: nat, o :: o in {Vmcs(id), BitmapsAndVmcs(id), LiveEpt(id), ReservedEpt(id), GuestMemory(id)} ==>
          (Owns(owner', o, p) <==> Owns(owner, o, p)))
    && (forall p: nat :: Owns(owner, LiveEpt(id), p) || Owns(owner, ReservedEpt(id), p) ==> SameAt(m, m', p))
  }

  lemma VmFrame(vm: Vm, m: Memory, owner: map<nat, Owner>, m': Memory, owner': map<nat, Owner>)
    requires VmOk(vm, m, owner) && SameFor(vm.id, m, owner, m', owner')
    ensures VmOk(vm, m', owner')
    ensures vm.eptInitialized ==> forall a: nat :: a < SPACE ==> Lookup(m', vm.eptp, a) == Lookup(m, vm.eptp, a)
  {
    hide Lookup, Grants;
    if vm.eptInitialized {
      TreeFrame(m, m', vm.tables);
      GrantsFrame(m, m', vm.tables);
    }
    SameOwned(vm.id, m, owner, m', owner');
  }

  lemma SameOwned(id: nat, m: Memory, owner: map<nat, Owner>, m': Memory, owner': map<nat, Owner>)
    requires SameFor(id, m, owner, m', owner')
    ensures forall p: nat :: HasVmcs(owner', id, p) <==> HasVmcs(owner, id, p)
    ensures forall p: nat :: Owns(owner', LiveEpt(id), p) <==> Owns(owner, LiveEpt(id), p)
    ensures forall p: nat :: Owns(owner', ReservedEpt(id), p) <==> Owns(owner, ReservedEpt(id), p)
    ensures forall p: nat :: Owns(owner', GuestMemory(id), p) <==> Owns(owner, GuestMemory(id), p)
  {
  }

  lemma VmsFrame(vms: seq<Vm>, m: Memory, owner: map<nat, Owner>, m': Memory, owner': map<nat, Owner>)
    requires forall v :: v in vms ==> VmOk(v, m, owner) && SameFor(v.id, m, owner, m', owner')
    ensures forall v :: v in vms ==> VmOk(v, m', owner')
  {
    forall v | v in vms
      ensures VmOk(v, m', owner')
    {
      VmFrame(v, m, owner, m', owner');
    }
  }

  /** Claiming or releasing a page, and writing to pages nobody owned, concerns only the claimant. */
  lemma OthersUnaffected(id: nat, m: Memory, owner: map<nat, Owner>, m': Memory, owner': map<nat, Owner>, p: nat)
    requires forall q: nat :: q != p ==> (q in owner <==> q in owner') && (q in owner ==> owner[q] == owner'[q])
    requires p in owner && OfSomeVm(owner[p]) ==> owner[p].vm != id
    requires p in owner' && OfSomeVm(owner'[p]) ==> owner'[p].vm != id
    requires forall q: nat :: q in owner && q != p ==> SameAt(m, m', q)
    ensures SameFor(id, m, owner, m', owner')
  {
  }

  class Hypervisor {
    const boot: ChainloadPage
    /** The VMCS revision identifier that IA32_VMX_BASIC reports, and the MSR bitmaps. */
    const vmcsRevision: u64
    const msrBitmaps: Page
    const arenas: ArenaList

    var memory: Memory
    // The static cursor of mm_get_free_page.
    var lastReturned: Option<Cursor>
    // The statics of vmm_vmx_pages.c: an address and its valid flag.
    var vmxonRegion: Option<nat>
    var msrBitmapsPage: Option<nat>
    // The statics of vm_manager.c.
    var vmManagerArena: Option<nat>
    var vms: seq<Vm>
    ghost var owner: map<nat, Owner>

    /** mm_setup, before anything is allocated. */
    constructor (boot: ChainloadPage, vmcsRevision: u64, msrBitmaps: Page, memory: Memory)
      requires BootOk(boot)
      ensures Valid() && owner == map[] && vms == [] && msrBitmapsPage == None && fresh(arenas)
      ensures lastReturned == None && vmxonRegion == None && vmManagerArena == None
      ensures this.boot == boot && this.memory == memory
      ensures this.vmcsRevision == vmcsRevision && this.msrBitmaps == msrBitmaps
    {
      this.boot, this.vmcsRevision, this.msrBitmaps, this.memory := boot, vmcsRevision, msrBitmaps, memory;
      arenas := new ArenaList();
      lastReturned, vmxonRegion, msrBitmapsPage, vmManagerArena := None, None, None, None;
      vms := [];
      owner := map[];
    }

    ghost predicate Valid()
      reads `lastReturned, `owner, `memory, `vmxonRegion, `msrBitmapsPage, `vmManagerArena, `vms, arenas
      reads vms`trackedPages, vms`eptInitialized, vms`eptp, vms`tables, vms`guest, vms`vmcsInitialized
      reads vms`vmcsRegion
    {
      ValidFor(memory)
    }

    /** The invariant, for a given content of memory. */
    ghost predicate ValidFor(m: Memory)
      reads `lastReturned, `owner, `vmxonRegion, `msrBitmapsPage, `vmManagerArena, `vms, arenas
      reads vms`trackedPages, vms`eptInitialized, vms`eptp, vms`tables, vms`guest, vms`vmcsInitialized
      reads vms`vmcsRegion
    {
      && BootOk(boot)
      && (lastReturned.Some? ==> CursorOk(boot.mmap, lastReturned.value))
      && OwnersOk(boot, owner, vmxonRegion, msrBitmapsPage, |vms|)
      && arenas.Valid() && ArenaOwners(owner, arenas.live)
      && (vmManagerArena.Some? ==> vmManagerArena.value in arenas.live)
      && (vms != [] ==> vmManagerArena.Some?)
      && VmsOk(m)
    }

    ghost predicate VmsOk(m: Memory)
      reads `owner, `vms
      reads vms`trackedPages, vms`eptInitialized, vms`eptp, vms`tables, vms`guest, vms`vmcsInitialized
      reads vms`vmcsRegion
    {
      && (forall i :: 0 <= i < |vms| ==> vms[i].id == |vms| - 1 - i)
      && (forall v :: v in vms ==> VmOk(v, m, owner))
    }

    /** Some list has an empty run at address 0: the allocator then takes every page for used. */
    ghost predicate AllLookUsed()
      reads `vms, vms`trackedPages
    {
      exists v :: v in vms && HasEmptyAtZero(v.trackedPages)
    }

    ghost predicate LooksUsed(p: nat)
      reads `owner, `vms, vms`trackedPages
    {
      InUse(p) || AllLookUsed()
    }

    ghost predicate InUse(p: nat)
      reads `owner
    {
      p in owner || InChainload(boot, p)
    }

    /** mm_page_used_by_vmx. */
    method UsedByVmx(p: nat) returns (used: bool)
      ensures used <==> vmxonRegion == Some(p) || msrBitmapsPage == Some(p)
    {
      if vmxonRegion.Some? && p == vmxonRegion.value {
        return true;
      }
      if msrBitmapsPage.Some? && p == msrBitmapsPage.value {
        return true;
      }
      return false;
    }

    /** mm_page_used_by_vm_manager: its interval tests decide membership in the lists of all machines,
        unless one of these has an empty run at address 0. */
    method UsedByVmManager(p: nat) returns (used: bool)
      requires Valid() && IsPage(p)
      ensures used <==> (p in owner && OfSomeVm(owner[p])) || AllLookUsed()
    {
      hide VmOk, ArenaList.Valid, InChainload, HasEmptyAtZero;
      for i := 0 to |vms|
        invariant forall id: nat :: |vms| - i <= id < |vms| ==> !UsedByVm(id, p)
        invariant forall j :: 0 <= j < i ==> !HasEmptyAtZero(vms[j].trackedPages)
      {
        used := UsedByMachine(vms[i], p);
        if used {
          return true;
        }
      }
      assert p in owner && OfSomeVm(owner[p]) ==> UsedByVm(owner[p].vm, p);
      return false;
    }

    /** The body of its loop. */
    method UsedByMachine(vm: Vm, p: nat) returns (used: bool)
      requires VmOk(vm, memory, owner) && IsPage(p)
      ensures used <==> UsedByVm(vm.id, p) || HasEmptyAtZero(vm.trackedPages)
    {
      hide EptOk, GuestMapOk, ReservedIsZero, HasEmptyAtZero;
      OwnersOfVm(owner, vm.id, p);
      HeldMeansOwned(vm.trackedPages, vm.id, owner, p);
      if vm.vmcsInitialized && vm.vmcsRegion == p {
        assert HasVmcs(owner, vm.id, p);
        return true;
      }
      used := TestRuns(vm.trackedPages, p);
    }

    ghost predicate UsedByVm(id: nat, p: nat)
      reads `owner
    {
      p in owner && OfSomeVm(owner[p]) && owner[p].vm == id
    }

    /** mm_page_is_free: the four tests together decide ownership, with the same exception. */
    method PageIsFree(p: nat) returns (free: bool)
      requires Valid() && IsPage(p)
      ensures free <==> !LooksUsed(p)
    {
      hide VmOk, InChainload, AllLookUsed, VmsOk;
      var used := UsedByChainload(boot, p);
      if used {
        return false;
      }
      used := arenas.UsedBy(p);
      if used {
        return false;
      }
      used := UsedByVmx(p);
      if used {
        return false;
      }
      used := UsedByVmManager(p);
      return !used;
    }

    /** The cursor the next scan starts from: the page returned last, or the topmost usable page. */
    ghost predicate ScanStart(c: Cursor)
      reads `lastReturned
    {
      StartsAt(boot.mmap, lastReturned, c)
    }

    /** The page that mm_get_free_page returned last. */
    ghost function LastPage(): nat
      requires lastReturned.Some? && lastReturned.value.region < |boot.mmap|
      reads `lastReturned
    {
      PageAt(boot.mmap, lastReturned.value)
    }

    /** The first part of mm_get_free_page: None when the search for the topmost usable page runs past the start
        of the map. */
    method StartOfScan() returns (start: Option<Cursor>)
      requires BootOk(boot) && (lastReturned.Some? ==> CursorOk(boot.mmap, lastReturned.value))
      ensures start.Some? ==> ScanStart(start.value)
      ensures start.None? ==> !BottomUsable(boot.mmap) && forall c :: !CursorOk(boot.mmap, c)
    {
      var mmap := boot.mmap;
      if lastReturned.Some? {
        return lastReturned;
      }
      var i := SearchDown(mmap, RKHV_MAX_EFI_MMAP_DESCRIPTORS);
      if i.None? {
        return None;
      }
      GapIsEmpty(mmap, i.value + 1, |mmap|);
      return Some(Cursor(i.value, mmap[i.value].pages - 1));
    }

    /** Every usable page from a cursor down to the lowest one looks used. */
    ghost predicate UsedFrom(start: Cursor)
      reads `owner, `vms, vms`trackedPages
    {
      forall c :: CursorOk(boot.mmap, c) && CursorOk(boot.mmap, start)
                  && Rank(boot.mmap, c) <= Rank(boot.mmap, start) ==>
                    LooksUsed(PageAt(boot.mmap, c))
    }

    /** The page allocator hands out these pages next, when each is claimed before the next one is asked for. */
    ghost predicate Supplies(cs: seq<Cursor>)
      reads `lastReturned, `owner
    {
      SupplyFrom(boot, lastReturned, owner.Keys, cs)
    }

    /** The first page of a supply was found: once it is claimed, the others come next. */
    ghost predicate Found(cs: seq<Cursor>)
      reads `lastReturned, `owner
    {
      && cs != [] && CursorOk(boot.mmap, cs[0]) && lastReturned == Some(cs[0])
      && Supply(boot, owner.Keys + {PageAt(boot.mmap, cs[0])}, cs[0], cs[1..])
    }

    /** The bytes left in the arena that holds the machines and their page runs. */
    ghost function RoomLeft(): int
      reads `vmManagerArena, arenas`headers
    {
      if vmManagerArena.Some? then arenas.Room(vmManagerArena.value) else 0
    }

    /** The state that a lack of memory stands for: every usable page looks used; or, on a map whose descriptor 0 is
        not usable, every usable page that a scan reaches; the page that was found cannot be accessed; the arena has
        no room for another page run. */
    ghost predicate Exhausted(reason: PanicReason)
      reads `lastReturned, `owner, `vms, vms`trackedPages, `vmManagerArena, arenas`headers
    {
      match reason
      case OutOfMemory =>
        BottomUsable(boot.mmap) && forall c :: CursorOk(boot.mmap, c) ==> LooksUsed(PageAt(boot.mmap, c))
      case SearchUnderflow => !BottomUsable(boot.mmap) && forall start :: ScanStart(start) ==> UsedFrom(start)
      case PageFault =>
        lastReturned.Some? && lastReturned.value.region < |boot.mmap| && !IsFrame(LastPage()) && !LooksUsed(LastPage())
      case ArenaFull => RoomLeft() < SIZEOF_PAGE_RUN
      case _ => false
    }

    /** The two static variables. */
    method Remember(c: Cursor)
      requires Valid() && CursorOk(boot.mmap, c)
      modifies this`lastReturned
      ensures Valid() && lastReturned == Some(c)
    {
      hide VmOk, ArenaList.Valid, OwnersOk, ArenaOwners;
      lastReturned := Some(c);
    }

    /** mm_get_free_page: the first free page of the scan, or PANIC exactly when every usable page looks used.
        When descriptor 0 is not usable, the scan instead runs past the start of the map, exactly when the pages
        from its start down to the lowest usable one look used. */
    method GetFreePage() returns (r: Outcome<nat>, ghost visited: seq<Cursor>)
      requires Valid()
      modifies this`lastReturned
      ensures Valid()
      ensures visited == [] ==> r == Panic(SearchUnderflow) && forall c :: !CursorOk(boot.mmap, c)
      ensures visited != [] ==> old(ScanStart(visited[0])) && ScanPath(boot.mmap, visited[0], visited)
      ensures forall c :: c in visited[..if visited == [] then 0 else |visited| - 1] ==> LooksUsed(PageAt(boot.mmap, c))
      ensures r.Ok? ==>
                && visited != []
                && r.value == PageAt(boot.mmap, visited[|visited| - 1]) && !InUse(r.value) && !AllLookUsed()
                && IsPage(r.value)
                && lastReturned == Some(visited[|visited| - 1])
      ensures visited != [] && !LooksUsed(PageAt(boot.mmap, visited[0])) ==> r == Ok(PageAt(boot.mmap, visited[0]))
      ensures r.Panic? ==> NoPage(r.reason, boot.mmap) && r != Panic(PageFault) && lastReturned == old(lastReturned)
      ensures BottomUsable(boot.mmap) ==> r != Panic(SearchUnderflow)
      ensures BottomUsable(boot.mmap) ==>
                (r == Panic(OutOfMemory) <==> forall c :: CursorOk(boot.mmap, c) ==> LooksUsed(PageAt(boot.mmap, c)))
      ensures !BottomUsable(boot.mmap) ==> r != Panic(OutOfMemory)
      ensures !BottomUsable(boot.mmap) && visited != [] ==> (r == Panic(SearchUnderflow) <==> UsedFrom(visited[0]))
    {
      hide Valid, ScanPath, LooksUsed, InUse, AllLookUsed, UsedFrom, ScanStart, BottomUsable;
      BootIsOk();
      var mmap := boot.mmap;
      var start := StartOfScan();
      if start.None? {
        return Panic(SearchUnderflow), [];
      }
      StartIsUsable(start.value);
      var found;
      found, visited := Scan(start.value);
      if found.Panic? {
        StartLooksUsed(start.value);
        return found.PropagateFailure(), visited;
      }
      FoundFree(start.value, visited);
      assert UsableOk(mmap[found.value.region]);
      Remember(found.value);
      return Ok(PageAt(mmap, found.value)), visited;
    }

    /** mm_get_free_page and the first access to the page, through P2V, which every caller makes before anything
        else. A page behind the map of physical memory faults. */
    method GetFrame() returns (r: Outcome<nat>)
      requires Valid()
      modifies this`lastReturned
      ensures Valid()
      ensures r.Ok? ==>
                && IsFrame(r.value) && !InUse(r.value) && !AllLookUsed()
                && lastReturned.Some? && LastPage() == r.value
                && (old(lastReturned).Some? && old(!InUse(LastPage())) ==> r.value == old(LastPage()))
      ensures r.Panic? ==> NoPage(r.reason, boot.mmap) && Exhausted(r.reason) && r.reason != ArenaFull
      ensures forall cs: seq<Cursor> :: cs != [] && old(Supplies(cs)) && !AllLookUsed() ==>
                Found(cs) && r == Ok(PageAt(boot.mmap, cs[0]))
      ensures old(lastReturned).Some? && old(!LooksUsed(LastPage()) && IsFrame(LastPage())) ==> r == Ok(old(LastPage()))
      ensures forall c :: old(ScanStart(c)) && !LooksUsed(PageAt(boot.mmap, c)) ==>
                r == if IsFrame(PageAt(boot.mmap, c)) then Ok(PageAt(boot.mmap, c)) else Panic(PageFault)
    {
      hide Valid, InChainload, ScanPath, InUse, AllLookUsed, UsedFrom, ScanStart, BottomUsable, NextFree, Supply,
        StartsAt, WithinPhysicalMap, CursorOk;
      BootIsOk();
      LastIsStart();
      StartIsOnly();
      var page, visited := GetFreePage();
      forall cs: seq<Cursor> | cs != [] && old(Supplies(cs)) && !AllLookUsed()
        ensures cs[0].region < |boot.mmap|
        ensures Found(cs) && page == Ok(PageAt(boot.mmap, cs[0])) && IsFrame(PageAt(boot.mmap, cs[0]))
      {
        ghost var start :| StartsAt(boot.mmap, old(lastReturned), start) && Supply(boot, owner.Keys, start, cs);
        SupplyIsUsable(start, cs);
        if visited != [] {
          SupplyFound(start, visited, cs);
        }
      }
      if page.Panic? {
        return page;
      }
      BootIsOk();
      if !IsFrame(page.value) {
        ScannedPagesAreFrames(boot.mmap);
        return Panic(PageFault);
      }
      return page;
    }

    /** The scan loop of mm_get_free_page. */
    method Scan(start: Cursor) returns (found: Outcome<Cursor>, ghost visited: seq<Cursor>)
      requires Valid() && CursorOk(boot.mmap, start)
      ensures visited != [] && visited[0] == start && ScanPath(boot.mmap, start, visited)
      ensures forall c :: c in visited[..|visited| - 1] ==> LooksUsed(PageAt(boot.mmap, c))
      ensures found.Ok? ==> found.value == visited[|visited| - 1] && !LooksUsed(PageAt(boot.mmap, found.value))
      ensures found.Ok? && !BottomUsable(boot.mmap) ==> !UsedFrom(start)
      ensures found.Panic? ==>
                if BottomUsable(boot.mmap) then
                  found.reason == OutOfMemory && forall c :: CursorOk(boot.mmap, c) ==> LooksUsed(PageAt(boot.mmap, c))
                else
                  found.reason == SearchUnderflow && UsedFrom(start)
    {
      hide Valid, LooksUsed, UsedFrom, Rank, OnPath, ScanPath, BottomUsable, Total, BootOk, UsableOk;
      BootIsOk();
      MapIsOk();
      var mmap := boot.mmap;
      var current := start;
      var complete: Option<Cursor> := None;
      PathBegins(mmap, start);
      visited := [];
      while complete != Some(current)
        invariant OnPath(mmap, start, visited, current)
        invariant complete == if visited == [] then None else Some(start)
        invariant visited == [] ==> current == start
        invariant forall c :: c in visited ==> CursorOk(mmap, c) && LooksUsed(PageAt(mmap, c))
        decreases Total(mmap) - |visited|
      {
        PathVisits(mmap, start, visited, current);
        if complete.None? {
          complete := Some(current);
        }

        var free := PageIsFree(PageAt(mmap, current));
        ghost var before := visited;
        visited := visited + [current];
        assert visited[..|visited| - 1] == before;
        if free {
          if !BottomUsable(mmap) {
            FoundBelow(start, current);
          }
          return Ok(current), visited;
        }
        var next := NextCursor(mmap, current);
        if next.None? {
          UsedToTheBottom(start, visited);
          return Panic(SearchUnderflow), visited;
        }
        PathGoesOn(mmap, start, before, current, next.value);
        current := next.value;
      }
      PathCloses(mmap, start, visited);
      PathIsScanned(start, visited, current);
      UsedAllAround(start, visited);
      return Panic(OutOfMemory), visited;
    }

    lemma MapIsOk()
      requires BootOk(boot)
      ensures |boot.mmap| == RKHV_MAX_EFI_MMAP_DESCRIPTORS
      ensures forall c :: CursorOk(boot.mmap, c) ==> IsPage(PageAt(boot.mmap, c)) && boot.mmap[c.region].pages < TWO_64
    {
      forall c | CursorOk(boot.mmap, c)
        ensures IsPage(PageAt(boot.mmap, c)) && boot.mmap[c.region].pages < TWO_64
      {
        assert UsableOk(boot.mmap[c.region]);
      }
    }

    lemma PathIsScanned(start: Cursor, visited: seq<Cursor>, current: Cursor)
      requires OnPath(boot.mmap, start, visited, current) && visited != []
      ensures ScanPath(boot.mmap, start, visited) && visited[0] == start
    {
    }

    lemma BootIsOk()
      requires Valid()
      ensures BootOk(boot) && (lastReturned.Some? ==> CursorOk(boot.mmap, lastReturned.value))
    {
    }

    lemma StartLooksUsed(start: Cursor)
      requires CursorOk(boot.mmap, start)
      requires UsedFrom(start) || forall c :: CursorOk(boot.mmap, c) ==> LooksUsed(PageAt(boot.mmap, c))
      ensures LooksUsed(PageAt(boot.mmap, start))
    {
      hide LooksUsed;
    }

    lemma StartIsUsable(start: Cursor)
      requires ScanStart(start)
      ensures CursorOk(boot.mmap, start) && (lastReturned.Some? ==> start == lastReturned.value)
    {
    }

    lemma LastIsStart()
      requires Valid()
      ensures lastReturned.Some? ==> ScanStart(lastReturned.value)
    {
      hide VmOk, ArenaList.Valid, OwnersOk, ArenaOwners;
    }

    lemma StartIsOnly()
      ensures forall c, c' :: ScanStart(c) && ScanStart(c') ==> c == c'
      ensures forall c :: ScanStart(c) ==> CursorOk(boot.mmap, c)
      ensures forall c :: StartsAt(boot.mmap, lastReturned, c) ==> ScanStart(c)
    {
      forall c, c' | ScanStart(c) && ScanStart(c')
        ensures c == c'
      {
        RankInjective(boot.mmap, c, c');
      }
    }

    /** The first page of a scan that does not look used is not in use; a first page that is free is taken. */
    lemma FoundFree(start: Cursor, visited: seq<Cursor>)
      requires visited != [] && ScanPath(boot.mmap, start, visited)
      requires forall c :: c in visited[..|visited| - 1] ==> LooksUsed(PageAt(boot.mmap, c))
      requires !LooksUsed(PageAt(boot.mmap, visited[|visited| - 1]))
      ensures CursorOk(boot.mmap, visited[|visited| - 1])
      ensures !InUse(PageAt(boot.mmap, visited[|visited| - 1])) && !AllLookUsed()
      ensures !LooksUsed(PageAt(boot.mmap, visited[0])) ==> visited == [visited[0]]
    {
      hide InUse, AllLookUsed;
      assert VisitAt(boot.mmap, start, visited[|visited| - 1], |visited| - 1);
      if |visited| > 1 {
        assert visited[0] == visited[..|visited| - 1][0];
      }
    }

    lemma SupplyIsUsable(start: Cursor, cs: seq<Cursor>)
      requires Supply(boot, owner.Keys, start, cs) && cs != [] && !AllLookUsed()
      ensures CursorOk(boot.mmap, cs[0]) && cs[0].region < |boot.mmap|
      ensures !LooksUsed(PageAt(boot.mmap, cs[0])) && IsFrame(PageAt(boot.mmap, cs[0]))
      ensures !BottomUsable(boot.mmap) ==> !UsedFrom(start)
      ensures Supply(boot, owner.Keys + {PageAt(boot.mmap, cs[0])}, cs[0], cs[1..])
    {
      hide InChainload, AllLookUsed, Total, BottomUsable, Supply;
      SupplyBegins(boot, owner.Keys, start, cs);
    }

    /** A scan ends on the first page of the supply. */
    lemma SupplyFound(start: Cursor, visited: seq<Cursor>, cs: seq<Cursor>)
      requires Supply(boot, owner.Keys, start, cs) && cs != [] && !AllLookUsed()
      requires visited != [] && ScanPath(boot.mmap, start, visited)
      requires forall c :: c in visited[..|visited| - 1] ==> LooksUsed(PageAt(boot.mmap, c))
      ensures !LooksUsed(PageAt(boot.mmap, visited[|visited| - 1])) ==> visited[|visited| - 1] == cs[0]
    {
      hide InChainload, AllLookUsed, ScanPath, NextFree, Supply;
      PathIsUsable(boot.mmap, start, visited);
      assert visited[|visited| - 1] in visited;
      SupplyBegins(boot, owner.Keys, start, cs);
      if !LooksUsed(PageAt(boot.mmap, visited[|visited| - 1])) {
        ScanFindsNext(boot, owner.Keys, start, visited, cs[0]);
      }
    }

    lemma UsedAllAround(start: Cursor, visited: seq<Cursor>)
      requires ScanPath(boot.mmap, start, visited) && |visited| == Total(boot.mmap)
      requires forall c :: c in visited ==> LooksUsed(PageAt(boot.mmap, c))
      ensures forall c :: CursorOk(boot.mmap, c) ==> LooksUsed(PageAt(boot.mmap, c))
    {
      hide LooksUsed;
      forall c | CursorOk(boot.mmap, c)
        ensures LooksUsed(PageAt(boot.mmap, c))
      {
        PathIsComplete(boot.mmap, start, visited, c);
      }
    }

    lemma FoundBelow(start: Cursor, c: Cursor)
      requires CursorOk(boot.mmap, start) && CursorOk(boot.mmap, c) && Rank(boot.mmap, c) <= Rank(boot.mmap, start)
      requires !LooksUsed(PageAt(boot.mmap, c))
      ensures !UsedFrom(start)
    {
      hide LooksUsed;
    }

    lemma UsedToTheBottom(start: Cursor, visited: seq<Cursor>)
      requires ScanPath(boot.mmap, start, visited) && |visited| == Rank(boot.mmap, start) + 1
      requires forall c :: c in visited ==> LooksUsed(PageAt(boot.mmap, c))
      ensures UsedFrom(start)
    {
      hide LooksUsed;
      forall c | CursorOk(boot.mmap, c) && Rank(boot.mmap, c) <= Rank(boot.mmap, start)
        ensures LooksUsed(PageAt(boot.mmap, c))
      {
        PathReaches(boot.mmap, start, visited, c);
      }
    }
  }

  lemma SupplyGoesOn(hv: Hypervisor, before: map<nat, Owner>, cs: seq<Cursor>)
    requires cs != [] && CursorOk(hv.boot.mmap, cs[0]) && hv.lastReturned == Some(cs[0])
    requires Supply(hv.boot, before.Keys + {PageAt(hv.boot.mmap, cs[0])}, cs[0], cs[1..])
    requires hv.owner.Keys == before.Keys + {PageAt(hv.boot.mmap, cs[0])}
    ensures hv.Supplies(cs[1..])
  {
    hide Supply;
    assert StartsAt(hv.boot.mmap, hv.lastReturned, cs[0]);
  }

  /** The part of the invariant that concerns the machines. */
  lemma VmsParts(hv: Hypervisor)
    requires hv.VmsOk(hv.memory)
    ensures forall i :: 0 <= i < |hv.vms| ==> hv.vms[i].id == |hv.vms| - 1 - i
    ensures forall v :: v in hv.vms ==> VmOk(v, hv.memory, hv.owner)
  {
    hide VmOk;
  }

  lemma VmsFromParts(hv: Hypervisor)
    requires forall i :: 0 <= i < |hv.vms| ==> hv.vms[i].id == |hv.vms| - 1 - i
    requires forall v :: v in hv.vms ==> VmOk(v, hv.memory, hv.owner)
    ensures hv.VmsOk(hv.memory)
  {
    hide VmOk;
  }

  /** The same for a machine of the hypervisor. */
  lemma PartsOf(hv: Hypervisor, vm: Vm)
    requires hv.Valid() && vm in hv.vms
    ensures EptOk(vm.eptInitialized, vm.eptp, vm.tables, vm.id, hv.memory, hv.owner)
            && ReservedIsZero(vm.id, hv.memory, hv.owner)
    ensures vm.eptInitialized ==> ROOT in vm.tables && vm.tables[ROOT] == vm.eptp && Tree(hv.memory, vm.tables)
  {
    hide Tree;
    VmParts(vm, hv.memory, hv.owner);
  }
}
