/** Creation of machines and the tracking of their pages (hv/src/vmm/vm_manager.c). */
module VmManager {
  import opened Paging
  import opened PhysicalMemory
  import opened RadixTree
  import opened PageList
  import opened Outcomes
  import opened Arena
  import opened VirtualMachine
  import opened Chainload
  import opened PageScan
  import opened PageSupply
  import opened AddressMap
  import opened HypervisorState
  import opened VmxPages

  const SIZEOF_VM: nat := 272

  function Label(t: PageType, reserved: bool, id: nat): Owner {
    match t
    case Ept => if reserved then ReservedEpt(id) else LiveEpt(id)
    case GuestPhysical => GuestMemory(id)
  }

  // --- one machine's view of a claim or a release --------------------------------------

  lemma TrackedMatches(runs: seq<PageRun>, runs': seq<PageRun>, id: nat, owner: map<nat, Owner>, p: nat, t: PageType,
                       reserved: bool)
    requires ListsMatch(runs, id, owner) && p !in owner
    requires Tracked(runs, runs', p, t, reserved) && (t == GuestPhysical ==> !reserved)
    ensures ListsMatch(runs', id, owner[p := Label(t, reserved, id)])
    ensures GrowsBy(runs, runs', t, reserved)
  {
    HeldMeansOwned(runs, id, owner, p);
  }

  lemma UntrackedMatches(runs: seq<PageRun>, runs': seq<PageRun>, id: nat, owner: map<nat, Owner>, p: nat)
    requires ListsMatch(runs, id, owner) && Untracked(runs, runs', p, Ept)
    ensures Owns(owner, ReservedEpt(id), p) && ListsMatch(runs', id, owner - {p})
  {
  }

  /** What a machine needs beside its lists. */
  ghost predicate StructuresOk(vm: Vm, m: Memory, owner: map<nat, Owner>)
    reads vm`vmcsInitialized, vm`vmcsRegion, vm`eptInitialized, vm`eptp, vm`tables, vm`guest
  {
    && EptOk(vm.eptInitialized, vm.eptp, vm.tables, vm.id, m, owner)
    && GuestMapOk(vm.guest, vm.eptInitialized, vm.eptp, vm.id, m, owner)
    && ReservedIsZero(vm.id, m, owner)
    && VmcsOk(vm.vmcsInitialized, vm.vmcsRegion, vm.id, owner)
  }

  lemma GuestMapKept(guest: GuestMap, initialized: bool, eptp: nat, id: nat, m: Memory, owner: map<nat, Owner>,
                     owner': map<nat, Owner>)
    requires GuestMapOk(guest, initialized, eptp, id, m, owner)
    requires forall p: nat :: Owns(owner, GuestMemory(id), p) ==> Owns(owner', GuestMemory(id), p)
    ensures GuestMapOk(guest, initialized, eptp, id, m, owner')
  {
    hide Lookup, HostHit;
    if guest.OwnPages? && initialized {
      forall a: nat | a < SPACE
        ensures MapsOwnMemory(Lookup(m, eptp, a), id, owner')
      {
        assert MapsOwnMemory(Lookup(m, eptp, a), id, owner);
      }
    }
  }

  lemma ClaimKeepsVm(vm: Vm, m: Memory, owner: map<nat, Owner>, p: nat, o: Owner)
    requires StructuresOk(vm, m, owner) && p !in owner && !o.Vmcs? && !o.BitmapsAndVmcs?
    requires o == ReservedEpt(vm.id) ==> AllZero(At(m, p))
    ensures StructuresOk(vm, m, owner[p := o])
  {
    hide Lookup;
    var owner' := owner[p := o];
    GuestMapKept(vm.guest, vm.eptInitialized, vm.eptp, vm.id, m, owner, owner');
    forall q: nat
      ensures HasVmcs(owner', vm.id, q) <==> vm.vmcsInitialized && q == vm.vmcsRegion
    {
      assert HasVmcs(owner, vm.id, q) <==> vm.vmcsInitialized && q == vm.vmcsRegion;
    }
  }

  lemma ReleaseKeepsVm(vm: Vm, m: Memory, owner: map<nat, Owner>, p: nat)
    requires StructuresOk(vm, m, owner) && Owns(owner, ReservedEpt(vm.id), p)
    ensures StructuresOk(vm, m, owner - {p})
  {
    hide Lookup;
    var owner' := owner - {p};
    GuestMapKept(vm.guest, vm.eptInitialized, vm.eptp, vm.id, m, owner, owner');
    forall q: nat
      ensures HasVmcs(owner', vm.id, q) <==> vm.vmcsInitialized && q == vm.vmcsRegion
    {
      assert HasVmcs(owner, vm.id, q) <==> vm.vmcsInitialized && q == vm.vmcsRegion;
    }
  }

  lemma NoNewEmpties(was: seq<PageRun>, runs: seq<PageRun>, p: nat, t: PageType, reserved: bool)
    requires Tracked(was, runs, p, t, reserved)
    ensures HasEmptyAtZero(runs) ==> HasEmptyAtZero(was)
  {
  }

  lemma EmptiesAfter(was: seq<PageRun>, runs: seq<PageRun>, p: nat)
    requires Untracked(was, runs, p, Ept)
    ensures HasEmptyAtZero(runs) <==> HasEmptyAtZero(was) || p == 0
  {
  }

  /** The machine after it tracked a page. */
  lemma TrackedVm(vm: Vm, was: seq<PageRun>, m: Memory, owner: map<nat, Owner>, p: nat, t: PageType, reserved: bool)
    requires ListsMatch(was, vm.id, owner) && StructuresOk(vm, m, owner)
    requires Tracked(was, vm.trackedPages, p, t, reserved) && p !in owner
    requires (t == GuestPhysical ==> !reserved) && (t == Ept && reserved ==> AllZero(At(m, p)))
    ensures VmOk(vm, m, owner[p := Label(t, reserved, vm.id)]) && GrowsBy(was, vm.trackedPages, t, reserved)
  {
    hide ListsMatch, Tracked, EptOk, ReservedIsZero, VmcsOk, GuestMapOk;
    TrackedMatches(was, vm.trackedPages, vm.id, owner, p, t, reserved);
    ClaimKeepsVm(vm, m, owner, p, Label(t, reserved, vm.id));
  }

  /** The machine after it took a page from its reserved pool. */
  lemma UntrackedVm(vm: Vm, was: seq<PageRun>, m: Memory, owner: map<nat, Owner>, p: nat)
    requires ListsMatch(was, vm.id, owner) && StructuresOk(vm, m, owner)
    requires Untracked(was, vm.trackedPages, p, Ept)
    ensures Owns(owner, ReservedEpt(vm.id), p) && VmOk(vm, m, owner - {p}) && AllZero(At(m, p))
    ensures Size(vm.trackedPages, Ept, true) == Size(was, Ept, true) - 1
  {
    hide ListsMatch, EptOk, VmcsOk, GuestMapOk;
    UntrackedMatches(was, vm.trackedPages, vm.id, owner, p);
    ReleaseKeepsVm(vm, m, owner, p);
  }

  /** The parts of a machine before its lists change. */
  lemma VmStructures(hv: Hypervisor, vm: Vm)
    requires hv.Valid() && vm in hv.vms
    ensures ListsMatch(vm.trackedPages, vm.id, hv.owner) && StructuresOk(vm, hv.memory, hv.owner)
            && RunsOk(vm.trackedPages)
  {
    hide EptOk, ReservedIsZero, VmcsOk, GuestMapOk, InChainload;
    VmParts(vm, hv.memory, hv.owner);
  }

  lemma ReleaseKeepsOwners(boot: ChainloadPage, owner: map<nat, Owner>, vmxon: Option<nat>, msr: Option<nat>, vms: nat,
                           live: seq<nat>, p: nat)
    requires OwnersOk(boot, owner, vmxon, msr, vms) && ArenaOwners(owner, live)
    requires p in owner && OfSomeVm(owner[p]) && !owner[p].BitmapsAndVmcs?
    ensures OwnersOk(boot, owner - {p}, vmxon, msr, vms) && ArenaOwners(owner - {p}, live)
    ensures IsFrame(p) && !InChainload(boot, p)
  {
  }

  // --- operations ------------------------------------------------------------------------

  /** The identifiers of the machines are distinct. */
  lemma DistinctIds(vms: seq<Vm>, v: Vm)
    requires forall i :: 0 <= i < |vms| ==> vms[i].id == |vms| - 1 - i
    requires v in vms
    ensures v.id < |vms| && forall w :: w in vms && w != v ==> w.id != v.id
  {
  }

  /** When one machine claims or releases a page, the other machines stay as they were. */
  lemma OthersKept(vms: seq<Vm>, vm: Vm, m: Memory, owner: map<nat, Owner>, owner': map<nat, Owner>, p: nat)
    requires forall i :: 0 <= i < |vms| ==> vms[i].id == |vms| - 1 - i
    requires vm in vms && forall v :: v in vms && v != vm ==> VmOk(v, m, owner)
    requires forall q: nat :: q != p ==> (q in owner <==> q in owner') && (q in owner ==> owner[q] == owner'[q])
    requires p in owner && OfSomeVm(owner[p]) ==> owner[p].vm == vm.id
    requires p in owner' && OfSomeVm(owner'[p]) ==> owner'[p].vm == vm.id
    ensures vm.id < |vms| && forall v :: v in vms && v != vm ==> VmOk(v, m, owner')
  {
    hide VmOk;
    DistinctIds(vms, vm);
    forall v | v in vms && v != vm
      ensures VmOk(v, m, owner')
    {
      OthersUnaffected(v.id, m, owner, m, owner', p);
      VmFrame(v, m, owner, m, owner');
    }
  }

  /** The bytes of the arena that recording a page takes. */
  ghost function CostOf(vm: Vm, p: nat, t: PageType, reserved: bool): nat
    reads vm`trackedPages
  {
    if HasPlace(vm.trackedPages, p, t, reserved) then 0 else SIZEOF_PAGE_RUN
  }

  /** vm_manager_track_page for a page that is still free. */
  method TrackFreePage(hv: Hypervisor, vm: Vm, p: nat, t: PageType, reserved: bool) returns (r: Outcome<()>)
    requires hv.Valid() && vm in hv.vms
    requires !hv.InUse(p) && IsFrame(p)
    requires t == GuestPhysical ==> !reserved
    requires t == Ept && reserved ==> AllZero(At(hv.memory, p))
    modifies vm`trackedPages, hv`owner, hv.arenas`headers, hv.arenas`blocks
    ensures r.Ok? ==>
              && hv.Valid()
              && hv.owner == old(hv.owner)[p := Label(t, reserved, vm.id)]
              && GrowsBy(old(vm.trackedPages), vm.trackedPages, t, reserved)
              && (hv.AllLookUsed() ==> old(hv.AllLookUsed()))
              && Tracked(old(vm.trackedPages), vm.trackedPages, p, t, reserved)
              && Recorded(old(vm.trackedPages), vm.trackedPages, p, t, reserved)
              && hv.RoomLeft() == old(hv.RoomLeft() - CostOf(vm, p, t, reserved))
    ensures r.Panic? <==> old(!HasPlace(vm.trackedPages, p, t, reserved) && hv.RoomLeft() < SIZEOF_PAGE_RUN)
    ensures r.Panic? ==>
              && r.reason == ArenaFull && hv.Valid() && hv.Exhausted(ArenaFull)
              && vm.trackedPages == old(vm.trackedPages) && hv.owner == old(hv.owner)
    ensures forall cs: seq<Cursor> :: old(hv.Found(cs)) && PageAt(hv.boot.mmap, cs[0]) == p && r.Ok? ==>
              hv.Supplies(cs[1..])
  {
    hide InChainload, BootOk, ArenaList.Valid, OwnersOk, ArenaOwners, VmOk, StructuresOk, ListsMatch, Tracked,
      GrowsBy, HasEmptyAtZero, Recorded, HasPlace, ArenaList.Room, Hypervisor.Supplies, Supply, AdjoinsClass;
    ghost var o, before := Label(t, reserved, vm.id), hv.owner;
    VmStructures(hv, vm);
    r := vm.TrackPage(hv.arenas, hv.vmManagerArena.value, p, t, reserved);
    if r.Panic? {
      return;
    }
    hv.owner := before[p := o];
    NoNewEmpties(old(vm.trackedPages), vm.trackedPages, p, t, reserved);
    TrackedVm(vm, old(vm.trackedPages), hv.memory, before, p, t, reserved);
    DistinctIds(hv.vms, vm);
    ClaimKeepsOwners(hv.boot, before, hv.vmxonRegion, hv.msrBitmapsPage, |hv.vms|, hv.arenas.live, p, o);
    OthersKept(hv.vms, vm, hv.memory, before, hv.owner, p);
    forall cs: seq<Cursor> | old(hv.Found(cs)) && PageAt(hv.boot.mmap, cs[0]) == p
      ensures hv.Supplies(cs[1..])
    {
      SupplyGoesOn(hv, before, cs);
    }
  }

  /** The page for a new EPT table: the last page of the reserved pool, or a free page, zeroed,
      when the pool is empty. Until it is tracked again the page belongs to nobody. */
  method TakeEptPage(hv: Hypervisor, vm: Vm) returns (r: Outcome<nat>)
    requires hv.Valid() && vm in hv.vms
    modifies vm`trackedPages, hv`owner, hv`memory, hv`lastReturned
    ensures r.Ok? ==>
              && hv.Valid() && !hv.InUse(r.value) && IsFrame(r.value)
              && AllZero(At(hv.memory, r.value))
    ensures r.Ok? && old(PoolSize(vm)) > 0 ==>
              && old(Owns(hv.owner, ReservedEpt(vm.id), r.value))
              && hv.owner == old(hv.owner) - {r.value} && hv.memory == old(hv.memory)
              && PoolSize(vm) == old(PoolSize(vm)) - 1
    ensures r.Ok? && old(PoolSize(vm)) == 0 ==>
              && old(!hv.InUse(r.value)) && vm.trackedPages == old(vm.trackedPages)
              && hv.owner == old(hv.owner) && hv.memory == old(hv.memory)[r.value := ZERO_PAGE]
    ensures r.Panic? ==> NoPage(r.reason, hv.boot.mmap) && old(PoolSize(vm)) == 0 && r.reason != AlreadyMapped
    ensures r.Panic? ==> hv.Valid() && hv.Exhausted(r.reason)
    ensures old(PoolSize(vm)) > 0 ==>
              && r.Ok? && hv.lastReturned == old(hv.lastReturned)
              && Untracked(old(vm.trackedPages), vm.trackedPages, r.value, Ept)
              && Popped(old(vm.trackedPages), vm.trackedPages, r.value)
              && (hv.AllLookUsed() ==> old(hv.AllLookUsed()) || r.value == 0)
  {
    hide Hypervisor.Valid, Size, Untracked, Popped, Hypervisor.Exhausted, Hypervisor.AllLookUsed, Hypervisor.Supplies,
      Hypervisor.Found, NextReserved;
    var reserved := TakeReservedPage(hv, vm);
    if reserved.None? {
      r := GetZeroedPage(hv);
      return;
    }
    return Ok(reserved.value);
  }

  /** vm_manager_untrack_page_from_reserved_pool for EPT pages. Taking page 0, and nothing else, leaves an
      empty run at address 0, which makes the allocator take every page for used. */
  method TakeReservedPage(hv: Hypervisor, vm: Vm) returns (page: Option<nat>)
    requires hv.Valid() && vm in hv.vms
    modifies vm`trackedPages, hv`owner
    ensures hv.Valid() && (page.Some? <==> old(PoolSize(vm)) > 0)
    ensures page == old(NextReserved(vm.trackedPages, Ept))
    ensures page.None? ==> vm.trackedPages == old(vm.trackedPages) && hv.owner == old(hv.owner)
    ensures page.Some? ==>
              && !hv.InUse(page.value) && IsFrame(page.value) && AllZero(At(hv.memory, page.value))
              && old(Owns(hv.owner, ReservedEpt(vm.id), page.value)) && hv.owner == old(hv.owner) - {page.value}
              && PoolSize(vm) == old(PoolSize(vm)) - 1
              && Untracked(old(vm.trackedPages), vm.trackedPages, page.value, Ept)
              && Popped(old(vm.trackedPages), vm.trackedPages, page.value)
    ensures hv.AllLookUsed() <==> old(hv.AllLookUsed() || NextReserved(vm.trackedPages, Ept) == Some(0))
  {
    hide HasEmptyAtZero, InChainload, BootOk, ArenaList.Valid, OwnersOk, ArenaOwners, VmOk, StructuresOk, ListsMatch,
      Untracked, Popped, Size, AllZero, NextReserved;
    ghost var before := hv.owner;
    VmStructures(hv, vm);
    page := vm.UntrackFromReservedPool(Ept);
    if page.None? {
      return;
    }
    ghost var p := page.value;
    hv.owner := before - {p};
    EmptiesAfter(old(vm.trackedPages), vm.trackedPages, p);
    UntrackedVm(vm, old(vm.trackedPages), hv.memory, before, p);
    DistinctIds(hv.vms, vm);
    ReleaseKeepsOwners(hv.boot, before, hv.vmxonRegion, hv.msrBitmapsPage, |hv.vms|, hv.arenas.live, p);
    OthersKept(hv.vms, vm, hv.memory, before, hv.owner, p);
  }

  /** The number of pages left in the reserved EPT pool. */
  function PoolSize(vm: Vm): nat
    reads vm`trackedPages
  {
    Size(vm.trackedPages, Ept, true)
  }

  // --- what a machine has at hand ------------------------------------------------------------

  /** What a machine relies on while its EPT grows: where the page allocator continues, the bytes that the arena has
      more than the pages of the reserved pool may need as table pages, and whether the allocator takes every page for
      used or may come to do so, because page 0 is reserved. */
  datatype Means = Means(last: Option<Cursor>, slack: int, risk: bool)

  ghost function MeansOf(hv: Hypervisor, vm: Vm): Means
    reads hv`lastReturned, hv`vmManagerArena, hv.arenas`headers, hv`owner, hv`vms, hv.vms`trackedPages, vm`trackedPages
  {
    Means(hv.lastReturned, hv.RoomLeft() - SIZEOF_PAGE_RUN * Pot(vm.trackedPages),
          hv.AllLookUsed() || Owns(hv.owner, ReservedEpt(vm.id), 0))
  }

  ghost predicate Spared(w: Means, w': Means) {
    w'.last == w.last && w'.slack >= w.slack && (w'.risk ==> w.risk)
  }

  /** A table page from the pool costs nothing that was not set aside for it. */
  lemma TablePaid(runs: seq<PageRun>, runs1: seq<PageRun>, runs2: seq<PageRun>, p: nat, room: int, room': int)
    requires RunsOk(runs) && Disjoint(runs) && Untracked(runs, runs1, p, Ept) && Popped(runs, runs1, p)
    requires Tracked(runs1, runs2, p, Ept, false) && Recorded(runs1, runs2, p, Ept, false)
    requires room' == room - if HasPlace(runs1, p, Ept, false) then 0 else SIZEOF_PAGE_RUN
    ensures room' - SIZEOF_PAGE_RUN * Pot(runs2) >= room - SIZEOF_PAGE_RUN * Pot(runs)
  {
    hide Pot, Popped, Untracked, Tracked, Recorded, HasPlace, RunsOk, Disjoint;
    PopAndTrack(runs, runs1, p);
  }

  lemma TableUnpaid(runs: seq<PageRun>, runs1: seq<PageRun>, p: nat, room: int)
    requires RunsOk(runs) && Disjoint(runs) && Untracked(runs, runs1, p, Ept) && Popped(runs, runs1, p)
    requires !HasPlace(runs1, p, Ept, false) && room < SIZEOF_PAGE_RUN
    ensures room - SIZEOF_PAGE_RUN * Pot(runs) < 0
  {
    hide Pot, Popped, Untracked, Tracked, Recorded, HasPlace, RunsOk, Disjoint;
    PopAndTrack(runs, runs1, p);
  }

  /** vm_manager_create_vmx_machine: the first call creates the arena of all machines; the new
      machine goes to the front of the list and owns nothing. */
  method CreateVm(hv: Hypervisor) returns (r: Outcome<Vm>)
    requires hv.Valid()
    modifies hv`lastReturned, hv`owner, hv`vmManagerArena, hv`vms, hv.arenas
    ensures r.Ok? ==>
              && hv.Valid() && fresh(r.value) && hv.vms == [r.value] + old(hv.vms)
              && hv.memory == old(hv.memory)
              && !r.value.eptInitialized && !r.value.vmcsInitialized && r.value.trackedPages == []
              && r.value.guest == Exactly([])
              && r.value.guestPhysicalPages == 0 && r.value.usedByInitialSetup == 0 && r.value.cr3 == 0
              && hv.vmManagerArena.Some?
              && (if old(hv.vmManagerArena).Some? then hv.owner == old(hv.owner)
                  else
                    && hv.vmManagerArena.value !in old(hv.owner) && !InChainload(hv.boot, hv.vmManagerArena.value)
                    && hv.owner == old(hv.owner)[hv.vmManagerArena.value := ArenaPage])
    ensures r == Panic(ArenaFull) <==> old(hv.vmManagerArena).Some? && old(hv.RoomLeft()) < SIZEOF_VM
    ensures r == Panic(ArenaFull) ==> hv.Valid() && hv.RoomLeft() < SIZEOF_VM
    ensures r.Panic? && r.reason != ArenaFull ==> hv.Valid() && hv.Exhausted(r.reason) && old(hv.vmManagerArena).None?
    ensures r.Ok? ==>
              && (hv.AllLookUsed() ==> old(hv.AllLookUsed()))
              && hv.RoomLeft() == (if old(hv.vmManagerArena).Some? then old(hv.RoomLeft()) else ARENA_ROOM) - SIZEOF_VM
    ensures old(hv.vmManagerArena).None? ==>
              forall cs: seq<Cursor> :: cs != [] && old(hv.Supplies(cs) && !hv.AllLookUsed()) ==>
                r.Ok? && hv.Supplies(cs[1..])
  {
    hide InChainload, BootOk, ArenaList.Valid, OwnersOk, ArenaOwners, VmOk, Hypervisor.AllLookUsed, ArenaList.Room,
      Hypervisor.VmsOk, Supply;
    if hv.vmManagerArena.None? {
      var arena :- CreateArena(hv);
      hv.vmManagerArena := Some(arena);
    }
    r := PushVm(hv);
  }

  /** The room of an arena without blocks. */
  const ARENA_ROOM: nat := PAGE_SIZE - SIZEOF_HEADER

  /** The second half of vm_manager_create_vmx_machine. */
  method PushVm(hv: Hypervisor) returns (r: Outcome<Vm>)
    requires hv.Valid() && hv.vmManagerArena.Some?
    modifies hv`vms, hv.arenas`headers, hv.arenas`blocks
    ensures r.Ok? ==>
              && hv.Valid() && fresh(r.value) && hv.vms == [r.value] + old(hv.vms)
              && !r.value.eptInitialized && !r.value.vmcsInitialized && r.value.trackedPages == []
              && r.value.guest == Exactly([])
              && r.value.guestPhysicalPages == 0 && r.value.usedByInitialSetup == 0 && r.value.cr3 == 0
              && (hv.AllLookUsed() ==> old(hv.AllLookUsed()))
              && hv.RoomLeft() == old(hv.RoomLeft()) - SIZEOF_VM
    ensures if old(hv.RoomLeft()) < SIZEOF_VM then r == Panic(ArenaFull) else r.Ok?
    ensures r.Panic? ==> hv.Valid() && hv.RoomLeft() == old(hv.RoomLeft())
  {
    hide Hypervisor.Valid, Hypervisor.AllLookUsed, Hypervisor.RoomLeft;
    var block := AllocateVm(hv);
    if block.Panic? {
      return block.PropagateFailure();
    }
    var vm := new Vm(|hv.vms|);
    AddVm(hv, vm);
    return Ok(vm);
  }

  /** Its bytes in the arena of the machines. */
  method AllocateVm(hv: Hypervisor) returns (r: Outcome<nat>)
    requires hv.Valid() && hv.vmManagerArena.Some?
    modifies hv.arenas`headers, hv.arenas`blocks
    ensures hv.Valid()
    ensures if old(hv.RoomLeft()) < SIZEOF_VM then r == Panic(ArenaFull) else r.Ok?
    ensures hv.RoomLeft() == old(hv.RoomLeft()) - if r.Ok? then SIZEOF_VM else 0
  {
    hide InChainload, BootOk, ArenaList.Valid, OwnersOk, ArenaOwners, VmOk, Hypervisor.VmsOk, ArenaList.Room;
    r := hv.arenas.Allocate(hv.vmManagerArena.value, SIZEOF_VM);
  }

  /** The machine goes to the front of the list. */
  method AddVm(hv: Hypervisor, vm: Vm)
    requires hv.Valid() && hv.vmManagerArena.Some?
    requires vm.id == |hv.vms| && !vm.eptInitialized && !vm.vmcsInitialized && vm.trackedPages == []
    requires vm.tables == map[] && vm.guest == Exactly([])
    modifies hv`vms
    ensures hv.Valid() && hv.vms == [vm] + old(hv.vms) && (hv.AllLookUsed() ==> old(hv.AllLookUsed()))
  {
    hide InChainload, BootOk, ArenaList.Valid, OwnersOk, ArenaOwners, VmOk, Hypervisor.VmsOk;
    VmsParts(hv);
    NewVmOk(hv.boot, hv.owner, hv.vmxonRegion, hv.msrBitmapsPage, |hv.vms|, vm, hv.memory);
    hv.vms := [vm] + hv.vms;
    PushedVms(hv, vm, old(hv.vms));
  }

  lemma PushedVms(hv: Hypervisor, vm: Vm, before: seq<Vm>)
    requires hv.vms == [vm] + before && vm.id == |before| && VmOk(vm, hv.memory, hv.owner)
    requires forall i :: 0 <= i < |before| ==> before[i].id == |before| - 1 - i
    requires forall v :: v in before ==> VmOk(v, hv.memory, hv.owner)
    ensures hv.VmsOk(hv.memory)
  {
    hide VmOk;
  }

  lemma NewVmOk(boot: ChainloadPage, owner: map<nat, Owner>, vmxon: Option<nat>, msr: Option<nat>, vms: nat, vm: Vm,
                m: Memory)
    requires OwnersOk(boot, owner, vmxon, msr, vms)
    requires vm.id == vms && !vm.eptInitialized && !vm.vmcsInitialized && vm.trackedPages == [] && vm.tables == map[]
    requires vm.guest == Exactly([])
    ensures OwnersOk(boot, owner, vmxon, msr, vms + 1) && VmOk(vm, m, owner)
  {
    assert forall p: nat :: !HasVmcs(owner, vms, p) && !Owns(owner, LiveEpt(vms), p)
                            && !Owns(owner, ReservedEpt(vms), p) && !Owns(owner, GuestMemory(vms), p);
  }

  /** arena_create on a page of the page allocator. */
  method CreateArena(hv: Hypervisor) returns (r: Outcome<nat>)
    requires hv.Valid()
    modifies hv`lastReturned, hv`owner, hv.arenas
    ensures r.Ok? ==>
              && hv.Valid() && old(!hv.InUse(r.value)) && hv.owner == old(hv.owner)[r.value := ArenaPage]
              && hv.arenas.live == [r.value] + old(hv.arenas.live) && hv.arenas.Room(r.value) == ARENA_ROOM
    ensures r.Panic? ==> hv.Valid() && hv.Exhausted(r.reason) && r.reason != ArenaFull
    ensures forall cs: seq<Cursor> :: cs != [] && old(hv.Supplies(cs)) && !hv.AllLookUsed() ==>
              r.Ok? && hv.Supplies(cs[1..])
  {
    hide Hypervisor.Valid, Hypervisor.ScanStart, Hypervisor.LooksUsed, Hypervisor.AllLookUsed, Hypervisor.Exhausted,
      Hypervisor.Supplies, Supply, InChainload, ArenaList.Room;
    var page := hv.GetFrame();
    if page.Panic? {
      return page;
    }
    ClaimArena(hv, page.value);
    forall cs: seq<Cursor> | cs != [] && old(hv.Supplies(cs)) && !hv.AllLookUsed()
      ensures hv.Supplies(cs[1..])
    {
      SupplyGoesOn(hv, old(hv.owner), cs);
    }
    return page;
  }

  /** The free page becomes an arena. */
  method ClaimArena(hv: Hypervisor, p: nat)
    requires hv.Valid() && !hv.InUse(p) && IsFrame(p)
    modifies hv`owner, hv.arenas
    ensures hv.Valid() && hv.owner == old(hv.owner)[p := ArenaPage]
    ensures hv.arenas.live == [p] + old(hv.arenas.live) && hv.arenas.Room(p) == ARENA_ROOM
  {
    hide InChainload, BootOk, ArenaList.Valid, OwnersOk, ArenaOwners, VmOk, Hypervisor.VmsOk;
    VmsParts(hv);
    FreeIsNotArena(hv.owner, hv.arenas.live, p);
    ClaimKeepsOwners(hv.boot, hv.owner, hv.vmxonRegion, hv.msrBitmapsPage, |hv.vms|, hv.arenas.live, p, ArenaPage);
    HypervisorClaims(hv.vms, hv.memory, hv.owner, hv.memory, p, ArenaPage);
    var _ := hv.arenas.Create(p);
    hv.owner := hv.owner[p := ArenaPage];
    VmsFromParts(hv);
  }

  lemma FreeIsNotArena(owner: map<nat, Owner>, live: seq<nat>, p: nat)
    requires ArenaOwners(owner, live) && p !in owner
    ensures p !in live
  {
    assert !Owns(owner, ArenaPage, p);
  }

  /** arena_destroy of an arena that is not the one holding the machines: its page is free again. */
  method DestroyArena(hv: Hypervisor, arena: nat) returns (r: Outcome<()>)
    requires hv.Valid() && arena in hv.arenas.live && hv.vmManagerArena != Some(arena)
    modifies hv`owner, hv.arenas
    ensures r.Ok? && hv.Valid() && hv.owner == old(hv.owner) - {arena} && !hv.InUse(arena)
  {
    hide InChainload, BootOk, ArenaList.Valid, VmOk, Hypervisor.VmsOk;
    VmsParts(hv);
    assert Owns(hv.owner, ArenaPage, arena);
    ghost var before := hv.owner;
    r := hv.arenas.Destroy(arena);
    hv.owner := before - {arena};
    forall v | v in hv.vms
      ensures SameFor(v.id, hv.memory, before, hv.memory, hv.owner)
    {
      OthersUnaffected(v.id, hv.memory, before, hv.memory, hv.owner, arena);
    }
    VmsFrame(hv.vms, hv.memory, before, hv.memory, hv.owner);
    VmsFromParts(hv);
  }
}
