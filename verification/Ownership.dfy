/** Ownership of physical pages over whole runs of the hypervisor: any sequence of the operations
    that claim, release and write pages keeps every page with at most one owner. */
module Ownership {
  import opened Bits
  import opened Paging
  import opened PhysicalMemory
  import opened RadixTree
  import opened PageList
  import opened Outcomes
  import opened Arena
  import opened VirtualMachine
  import opened Chainload
  import opened HypervisorState
  import opened VmxPages
  import opened VmManager
  import opened EptMapping
  import opened EptIdentity
  import opened Bytes
  import opened GuestMemoryAllocation
  import opened GuestPaging
  import opened GuestIdentity
  import opened VmcsCreation
  import opened KernelCopy
  import opened LinuxLoader

  // --- what the invariant says about the structures themselves ----------------------------------

  /** The structures that can hold a page, as the hypervisor itself sees them. A machine is named by the number
      of machines before it. */
  datatype Holder =
    | BootLoader
    | AnArena
    | TheVmxonRegion
    | TheMsrBitmaps
    | TheVmcs(vm: nat)
    | TheList(vm: nat, pageType: PageType, reserved: bool)

  function Machine(hv: Hypervisor, vm: nat): Vm
    requires vm < |hv.vms|
    reads hv`vms
  {
    hv.vms[|hv.vms| - 1 - vm]
  }

  ghost predicate HoldsPage(hv: Hypervisor, h: Holder, p: nat)
    reads hv`vmxonRegion, hv`msrBitmapsPage, hv`vms, hv.arenas`live
    reads hv.vms`vmcsInitialized, hv.vms`vmcsRegion, hv.vms`trackedPages
  {
    match h
    case BootLoader => InChainload(hv.boot, p)
    case AnArena => p in hv.arenas.live
    case TheVmxonRegion => hv.vmxonRegion == Some(p)
    case TheMsrBitmaps => hv.msrBitmapsPage == Some(p)
    case TheVmcs(vm) => vm < |hv.vms| && Machine(hv, vm).vmcsInitialized && Machine(hv, vm).vmcsRegion == p
    case TheList(vm, t, reserved) => vm < |hv.vms| && Holds(Machine(hv, vm).trackedPages, t, reserved, p)
  }

  /** The owner recorded for a page admits the holder. */
  ghost predicate Admits(o: Owner, h: Holder) {
    match h
    case BootLoader => false
    case AnArena => o.ArenaPage?
    case TheVmxonRegion => o.VmxonRegion?
    case TheMsrBitmaps => o.MsrBitmaps? || o.BitmapsAndVmcs?
    case TheVmcs(vm) => o == Vmcs(vm) || o == BitmapsAndVmcs(vm)
    case TheList(vm, t, reserved) => o == Label(t, reserved, vm)
  }

  lemma HolderIsOwner(hv: Hypervisor, h: Holder, p: nat)
    requires hv.Valid() && HoldsPage(hv, h, p)
    ensures if h.BootLoader? then p !in hv.owner else p in hv.owner && Admits(hv.owner[p], h)
    ensures h.TheList? && h.pageType == GuestPhysical ==> !h.reserved
  {
    hide InChainload, Tree, ArenaList.Valid, Holds, GuestMapOk;
    match h
    case BootLoader =>
    case AnArena => assert Owns(hv.owner, ArenaPage, p);
    case TheVmxonRegion => assert Owns(hv.owner, VmxonRegion, p);
    case TheMsrBitmaps => assert HasBitmaps(hv.owner, p);
    case TheVmcs(vm) =>
      var machine := VmWithId(hv, vm);
      VmParts(machine, hv.memory, hv.owner);
      assert HasVmcs(hv.owner, vm, p);
    case TheList(vm, t, reserved) =>
      var machine := VmWithId(hv, vm);
      ListOwner(machine, hv.memory, hv.owner, t, reserved, p);
  }

  lemma ListOwner(vm: Vm, m: Memory, owner: map<nat, Owner>, t: PageType, reserved: bool, p: nat)
    requires VmOk(vm, m, owner) && Holds(vm.trackedPages, t, reserved, p)
    ensures Owns(owner, Label(t, reserved, vm.id), p)
    ensures t == GuestPhysical ==> !reserved
  {
    hide EptOk, GuestMapOk, ReservedIsZero, VmcsOk;
    match t
    case Ept =>
    case GuestPhysical =>
  }

  /** Two holders of one page are the same, unless one machine's VMCS lies on the MSR bitmap page. */
  lemma HoldersClash(hv: Hypervisor, h: Holder, h': Holder, p: nat)
    requires hv.Valid() && HoldsPage(hv, h, p) && HoldsPage(hv, h', p) && h != h'
    ensures p in hv.owner && hv.owner[p].BitmapsAndVmcs? && BitmapsShared(hv)
    ensures (h.TheMsrBitmaps? && h'.TheVmcs?) || (h.TheVmcs? && h'.TheMsrBitmaps?)
  {
    hide Hypervisor.Valid, HoldsPage;
    HolderIsOwner(hv, h, p);
    HolderIsOwner(hv, h', p);
    BitmapsOwner(hv, p);
  }

  lemma BitmapsOwner(hv: Hypervisor, p: nat)
    requires hv.Valid()
    ensures HasBitmaps(hv.owner, p) <==> hv.msrBitmapsPage == Some(p)
  {
    hide VmOk, InChainload, ArenaList.Valid;
  }

  /** The MSR bitmap page is the VMCS region of a machine, too. */
  ghost predicate BitmapsShared(hv: Hypervisor)
    reads hv`msrBitmapsPage, hv`owner
  {
    SharedIn(hv.owner, hv.msrBitmapsPage)
  }

  ghost predicate SharedIn(owner: map<nat, Owner>, bitmaps: Option<nat>) {
    bitmaps.Some? && bitmaps.value in owner && owner[bitmaps.value].BitmapsAndVmcs?
  }

  /** No page is held twice. */
  ghost predicate Exclusive(hv: Hypervisor)
    reads hv`vmxonRegion, hv`msrBitmapsPage, hv`vms, hv.arenas`live
    reads hv.vms`vmcsInitialized, hv.vms`vmcsRegion, hv.vms`trackedPages
  {
    forall h, h', p: nat :: HoldsPage(hv, h, p) && HoldsPage(hv, h', p) ==> h == h'
  }

  /** The machine whose VMCS lies on the MSR bitmap page. */
  lemma SharedPage(hv: Hypervisor) returns (vm: nat, p: nat)
    requires hv.Valid() && BitmapsShared(hv)
    ensures HoldsPage(hv, TheVmcs(vm), p) && HoldsPage(hv, TheMsrBitmaps, p)
  {
    hide InChainload, Tree, ArenaList.Valid, GuestMapOk, ListsMatch;
    p := hv.msrBitmapsPage.value;
    vm := hv.owner[p].vm;
    var machine := VmWithId(hv, vm);
    VmParts(machine, hv.memory, hv.owner);
    assert HasVmcs(hv.owner, vm, p);
  }

  /** In a valid state that is the only way in which a page can be held twice. */
  lemma ExclusiveUnlessShared(hv: Hypervisor)
    requires hv.Valid()
    ensures Exclusive(hv) <==> !BitmapsShared(hv)
  {
    hide Hypervisor.Valid, HoldsPage;
    if BitmapsShared(hv) {
      var vm, p := SharedPage(hv);
    } else {
      forall h, h', p: nat | HoldsPage(hv, h, p) && HoldsPage(hv, h', p)
        ensures h == h'
      {
        if h != h' {
          HoldersClash(hv, h, h', p);
        }
      }
    }
  }

  /** Reserved pages are zero, and no table of any machine links them. */
  lemma ReservedPagesAreIdle(hv: Hypervisor, vm: Vm, other: Vm, p: nat)
    requires hv.Valid() && vm in hv.vms && other in hv.vms && Holds(vm.trackedPages, Ept, true, p)
    ensures AllZero(At(hv.memory, p)) && p !in other.tables.Values
  {
    hide Tree, InChainload, ArenaList.Valid, GuestMapOk;
    ListOwner(vm, hv.memory, hv.owner, Ept, true, p);
    VmParts(vm, hv.memory, hv.owner);
    VmParts(other, hv.memory, hv.owner);
    forall n | n in other.tables
      ensures other.tables[n] != p
    {
      assert Owns(hv.owner, LiveEpt(other.id), other.tables[n]);
    }
  }

  ghost predicate AllReservedIdle(hv: Hypervisor)
    reads hv`memory, hv`vms, hv.vms`trackedPages, hv.vms`tables
  {
    forall vm, other, p: nat :: vm in hv.vms && other in hv.vms && Holds(vm.trackedPages, Ept, true, p) ==>
      AllZero(At(hv.memory, p)) && p !in other.tables.Values
  }

  lemma ReservedStayIdle(hv: Hypervisor)
    requires hv.Valid()
    ensures AllReservedIdle(hv)
  {
    hide Hypervisor.Valid, Holds, AllZero;
    forall vm, other, p: nat | vm in hv.vms && other in hv.vms && Holds(vm.trackedPages, Ept, true, p)
      ensures AllZero(At(hv.memory, p)) && p !in other.tables.Values
    {
      ReservedPagesAreIdle(hv, vm, other, p);
    }
  }

  /** A page the allocator considers in use is one that some structure holds. */
  lemma InUseMeansHeld(hv: Hypervisor, p: nat)
    requires hv.Valid()
    ensures hv.InUse(p) <==> exists h :: HoldsPage(hv, h, p)
  {
    hide InChainload, ArenaList.Valid;
    if h :| HoldsPage(hv, h, p) {
      HolderIsOwner(hv, h, p);
    }
    if InChainload(hv.boot, p) {
      assert HoldsPage(hv, BootLoader, p);
    } else if p in hv.owner {
      var h := OwnerHolds(hv, p);
    }
  }

  lemma OwnerHolds(hv: Hypervisor, p: nat) returns (h: Holder)
    requires hv.Valid() && p in hv.owner
    ensures HoldsPage(hv, h, p)
  {
    hide InChainload, ArenaList.Valid, VmOk;
    match hv.owner[p]
    case ArenaPage =>
      assert Owns(hv.owner, ArenaPage, p);
      h := AnArena;
    case VmxonRegion =>
      assert Owns(hv.owner, VmxonRegion, p);
      h := TheVmxonRegion;
    case MsrBitmaps =>
      assert HasBitmaps(hv.owner, p);
      h := TheMsrBitmaps;
    case BitmapsAndVmcs(_) =>
      assert HasBitmaps(hv.owner, p);
      h := TheMsrBitmaps;
    case _ =>
      var vm := VmWithId(hv, hv.owner[p].vm);
      h := VmHolds(vm, hv.memory, hv.owner, p);
      assert Machine(hv, vm.id) == vm;
  }

  lemma VmHolds(vm: Vm, m: Memory, owner: map<nat, Owner>, p: nat) returns (h: Holder)
    requires VmOk(vm, m, owner) && p in owner
    requires owner[p] in {Vmcs(vm.id), LiveEpt(vm.id), ReservedEpt(vm.id), GuestMemory(vm.id)}
    ensures h.TheVmcs? || h.TheList?
    ensures h.vm == vm.id
    ensures h.TheVmcs? ==> vm.vmcsInitialized && vm.vmcsRegion == p
    ensures h.TheList? ==> Holds(vm.trackedPages, h.pageType, h.reserved, p)
  {
    hide Holds, EptOk, GuestMapOk, ReservedIsZero;
    assert Owns(owner, owner[p], p);
    match owner[p]
    case Vmcs(id) =>
      assert HasVmcs(owner, vm.id, p);
      h := TheVmcs(id);
    case LiveEpt(id) => h := TheList(id, Ept, false);
    case ReservedEpt(id) => h := TheList(id, Ept, true);
    case GuestMemory(id) => h := TheList(id, GuestPhysical, false);
  }

  lemma VmWithId(hv: Hypervisor, id: nat) returns (vm: Vm)
    requires hv.Valid() && id < |hv.vms|
    ensures vm in hv.vms && vm.id == id && vm == Machine(hv, id) && VmOk(vm, hv.memory, hv.owner)
  {
    hide VmOk, InChainload, ArenaList.Valid;
    vm := Machine(hv, id);
  }

  // --- a guest that writes to its memory ---------------------------------------------------------------

  /** A byte store of a running guest: the processor translates the address through the EPT. Without a translation
      the guest exits, and the hypervisor panics. On an isolated machine the store stays in guest memory of the
      machine. */
  method GuestStore(hv: Hypervisor, vm: Vm, address: u64, value: u8) returns (r: Outcome<()>)
    requires hv.Valid() && vm in hv.vms && !vm.guest.Anything?
    modifies hv`memory
    ensures r.Ok? ==> hv.Valid()
    ensures r.Ok? ==> exists p :: Owns(hv.owner, GuestMemory(vm.id), p) && OnlyPageChanges(old(hv.memory), hv.memory, p)
    ensures var pa := GetHostPhysicalAddress(old(hv.memory), vm.eptInitialized, vm.eptp, address);
            && r == (if pa.None? then Panic(EptWalkFailed) else Ok(()))
            && (r.Ok? ==>
                  forall a: nat ::
                    ByteAt(hv.memory, a) == if a == pa.value then value else ByteAt(old(hv.memory), a))
  {
    hide Hypervisor.ValidFor, WriteBytes, GetHostPhysicalAddress, PageByte;
    ghost var m := hv.memory;
    var pa := GetHostPhysicalAddress(hv.memory, vm.eptInitialized, vm.eptp, address);
    if pa.None? {
      return Panic(EptWalkFailed);
    }
    StoreGoesToGuest(hv, vm, address, pa.value);
    hv.memory := WriteBytes(hv.memory, pa.value, [value]);
    StaysInPage(m, pa.value, [value]);
    ghost var p := PageOf(pa.value);
    assert Owns(hv.owner, GuestMemory(vm.id), p) && OnlyPageChanges(m, hv.memory, p);
    GuestPageWritten(hv, m, p);
    forall a: nat
      ensures ByteAt(hv.memory, a) == if a == pa.value then value else ByteAt(m, a)
    {
      WrittenBytes(m, pa.value, [value], a);
    }
    return Ok(());
  }

  lemma MapsOwnMachine(hv: Hypervisor, vm: Vm)
    requires hv.Valid() && vm in hv.vms && !vm.guest.Anything?
    ensures vm.eptInitialized ==>
              forall a: nat :: a < SPACE ==> MapsOwnMemory(Lookup(hv.memory, vm.eptp, a), vm.id, hv.owner)
  {
    hide InChainload, ArenaList.Valid, Tree, ListsMatch, Lookup, GuestMapOk, EptOk, ReservedIsZero, VmcsOk;
    VmParts(vm, hv.memory, hv.owner);
    if vm.eptInitialized {
      MapsOwnPages(vm.guest, vm.eptp, vm.id, hv.memory, hv.owner);
    }
  }

  lemma StoreGoesToGuest(hv: Hypervisor, vm: Vm, address: u64, pa: nat)
    requires hv.Valid() && vm in hv.vms && !vm.guest.Anything?
    requires GetHostPhysicalAddress(hv.memory, vm.eptInitialized, vm.eptp, address) == Some(pa)
    ensures Owns(hv.owner, GuestMemory(vm.id), PageOf(pa)) && InOnePage(pa, 1)
  {
    hide Hypervisor.Valid, GetHostPhysicalAddress, Walk;
    MapsOwnMachine(hv, vm);
    if !vm.eptInitialized {
      NoEptNoHost(hv.memory, vm.eptp, address);
    }
    LookupWalksTheTree(hv.memory, vm.eptp, address);
    TranslateWraps(hv.memory, vm.eptp, address);
    var a := address % SPACE;
    var w := Lookup(hv.memory, vm.eptp, a);
    assert MapsOwnMemory(w, vm.id, hv.owner);
    LeafPage(w.value, a);
  }

  lemma LeafPage(h: Hit, a: nat)
    requires h.level == 0
    ensures PageOf(Target(h, a)) == Base(h.entry) && InOnePage(Target(h, a), 1)
  {
    var base := Base(h.entry);
    BaseIsAligned(h.entry, 0);
    RemainderIs(base + a % PAGE_SIZE, PAGE_SIZE, base / PAGE_SIZE, a % PAGE_SIZE);
  }

  lemma GuestPageWritten(hv: Hypervisor, m: Memory, p: nat)
    requires hv.ValidFor(m) && p in hv.owner && hv.owner[p].GuestMemory? && OnlyPageChanges(m, hv.memory, p)
    ensures hv.Valid()
  {
    hide InChainload, BootOk, ArenaList.Valid, OwnersOk, ArenaOwners, VmOk;
    GuestWrites(hv.vms, m, hv.memory, hv.owner);
  }

  // --- runs ----------------------------------------------------------------------------------------

  /** What clients of the memory management do. A machine is named by the number of machines before it. */
  datatype Operation =
    | CreateAnArena
    | AllocateInArena(arena: nat, size: nat)
    | DestroyAnArena(arena: nat)
    | GetVmxon
    | GetBitmaps
    | CreateMachine
    | AllocateGuestMemory(vm: nat, pages: u64)
    | MapGuestPage(vm: nat, g: u64, h: u64)
    | IdentityMap(vm: nat)
    | CreateVmcs(vm: nat)
    | SetUpGuestPaging(vm: nat)
    | LoadKernel(vm: nat, image: seq<u8>, header: KernelHeader, zeropage: Page, cmdline: seq<u8>)
    | GuestStores(vm: nat, address: u64, value: u8)

  /** The machine's EPT was only ever filled by the allocation of its memory. */
  predicate OnlyAllocates(run: seq<Operation>, vm: nat) {
    forall op :: op in run ==> !Maps(op, vm)
  }

  predicate Maps(op: Operation, vm: nat) {
    (op.MapGuestPage? || op.IdentityMap?) && op.vm == vm
  }

  /** The Linux loader is given what it can keep inside the guest: a command line that is not as long as its page,
      and a kernel that is placed. LinuxLoader has the inputs on which it breaks an EPT otherwise. */
  predicate StaysInGuest(op: Operation) {
    op.LoadKernel? ==>
      && |op.image| < TWO_64 && |op.cmdline| != PAGE_SIZE
      && (|| Placed(op.header.prefAddress, Sub64(|op.image|, KernelOffset(op.header)))
          || (KernelOffset(op.header) > |op.image| && op.header.prefAddress % PAGE_SIZE == 0))
  }

  /** Operations that make sense: arenas are live and the arena of the machines is not destroyed, machines exist,
      and a guest is set up and runs on memory that was allocated for it. Others are skipped. */
  ghost predicate Enabled(hv: Hypervisor, before: seq<Operation>, op: Operation)
    reads hv`vms, hv`vmManagerArena, hv.arenas`live
  {
    match op
    case AllocateInArena(arena, _) => arena in hv.arenas.live
    case DestroyAnArena(arena) => arena in hv.arenas.live && hv.vmManagerArena != Some(arena)
    case AllocateGuestMemory(vm, _) => vm < |hv.vms|
    case MapGuestPage(vm, _, _) => vm < |hv.vms|
    case IdentityMap(vm) => vm < |hv.vms|
    case CreateVmcs(vm) => vm < |hv.vms|
    case SetUpGuestPaging(vm) => vm < |hv.vms| && OnlyAllocates(before, vm)
    case LoadKernel(vm, _, _, _, _) => vm < |hv.vms| && OnlyAllocates(before, vm)
    case GuestStores(vm, _, _) => vm < |hv.vms| && OnlyAllocates(before, vm)
    case _ => true
  }

  // The same on operations alone: how many machines exist, whether the MSR bitmap page was obtained, and whether a
  // VMCS was created before that.

  function Machines(run: seq<Operation>): nat {
    if run == [] then 0 else Machines(run[..|run| - 1]) + if run[|run| - 1].CreateMachine? then 1 else 0
  }

  predicate CreatesVmcs(before: seq<Operation>, op: Operation) {
    op.CreateVmcs? && op.vm < Machines(before)
  }

  predicate BitmapsObtained(run: seq<Operation>) {
    run != [] &&
    var before, op := run[..|run| - 1], run[|run| - 1];
    BitmapsObtained(before) || op.GetBitmaps? || CreatesVmcs(before, op)
  }

  predicate EarlyVmcs(run: seq<Operation>) {
    run != [] &&
    var before, op := run[..|run| - 1], run[|run| - 1];
    EarlyVmcs(before) || (CreatesVmcs(before, op) && !BitmapsObtained(before))
  }

  /** What a run so far means for the state. */
  ghost predicate Reflects(hv: Hypervisor, run: seq<Operation>)
    reads hv`vms, hv`msrBitmapsPage, hv`owner, hv.vms`guest, hv.vms`guestPhysicalPages
  {
    && |hv.vms| == Machines(run)
    && (hv.msrBitmapsPage.Some? <==> BitmapsObtained(run))
    && (BitmapsShared(hv) <==> EarlyVmcs(run))
    && forall v :: v in hv.vms && OnlyAllocates(run, v.id) ==>
              v.guest.Exactly? && |v.guest.hosts| == v.guestPhysicalPages
  }

  lemma RunGrows(before: seq<Operation>, op: Operation)
    ensures var run := before + [op];
            && Machines(run) == Machines(before) + (if op.CreateMachine? then 1 else 0)
            && (BitmapsObtained(run) <==> BitmapsObtained(before) || op.GetBitmaps? || CreatesVmcs(before, op))
            && (EarlyVmcs(run) <==> EarlyVmcs(before) || (CreatesVmcs(before, op) && !BitmapsObtained(before)))
            && forall vm: nat :: OnlyAllocates(run, vm) <==> OnlyAllocates(before, vm) && !Maps(op, vm)
  {
    var run := before + [op];
    assert run[..|run| - 1] == before && run[|run| - 1] == op;
    forall vm: nat
      ensures OnlyAllocates(run, vm) <==> OnlyAllocates(before, vm) && !Maps(op, vm)
    {
      assert forall x :: x in run <==> x in before || x == op;
    }
  }

  /** The pages the boot loader left (sections, chainload page, attachments, page tables) keep their content. */
  ghost predicate ImageKept(boot: ChainloadPage, m: Memory, m': Memory) {
    forall p: nat :: InChainload(boot, p) ==> SameAt(m, m', p)
  }

  lemma ImageKeptChain(boot: ChainloadPage, m: Memory, m1: Memory, m2: Memory)
    requires ImageKept(boot, m, m1) && ImageKept(boot, m1, m2)
    ensures ImageKept(boot, m, m2)
  {
    hide InChainload;
    forall p: nat | InChainload(boot, p)
      ensures SameAt(m, m2, p)
    {
      assert SameAt(m, m1, p) && SameAt(m1, m2, p);
    }
  }

  /** Pages of the image have no owner. */
  lemma UnownedKept(hv: Hypervisor, m: Memory)
    requires hv.Valid() && forall p: nat :: p !in hv.owner ==> SameAt(m, hv.memory, p)
    ensures ImageKept(hv.boot, m, hv.memory)
  {
    hide VmOk, InChainload, ArenaList.Valid;
  }

  lemma OthersKeptImage(hv: Hypervisor, id: nat, s: Snapshot, s': Snapshot)
    requires hv.Valid() && KeepsOthers(id, s, s') && s'.memory == hv.memory && s'.owner == hv.owner
    ensures ImageKept(hv.boot, s.memory, hv.memory)
  {
    hide Hypervisor.Valid;
    UnownedKept(hv, s.memory);
  }

  // The owner of the MSR bitmap page stays what it was, whatever else is claimed or released.

  lemma BitmapsHaveOwner(hv: Hypervisor)
    requires hv.Valid()
    ensures hv.msrBitmapsPage.Some? ==> HasBitmaps(hv.owner, hv.msrBitmapsPage.value)
  {
    hide VmOk, InChainload, ArenaList.Valid;
  }

  lemma ClaimKeepsShared(owner: map<nat, Owner>, p: nat, o: Owner, bitmaps: Option<nat>)
    requires p !in owner && (bitmaps.Some? ==> HasBitmaps(owner, bitmaps.value))
    ensures SharedIn(owner[p := o], bitmaps) <==> SharedIn(owner, bitmaps)
  {
  }

  lemma GrowthKeepsShared(id: nat, s: Snapshot, s': Snapshot, bitmaps: Option<nat>)
    requires KeepsOthers(id, s, s') && (bitmaps.Some? ==> HasBitmaps(s.owner, bitmaps.value))
    ensures SharedIn(s'.owner, bitmaps) <==> SharedIn(s.owner, bitmaps)
  {
    if bitmaps.Some? {
      assert Owns(s'.owner, s.owner[bitmaps.value], bitmaps.value);
    }
  }

  lemma ArenaIsNotBitmaps(hv: Hypervisor, arena: nat)
    requires hv.Valid() && arena in hv.arenas.live
    ensures hv.msrBitmapsPage != Some(arena)
  {
    hide VmOk, InChainload, ArenaList.Valid;
    assert Owns(hv.owner, ArenaPage, arena);
  }

  /** Why an operation may end in a PANIC: memory is lacking in the state that it leaves, or what it was asked for had
      been done before. */
  ghost predicate Refuses(hv: Hypervisor, op: Operation, reason: PanicReason)
    reads hv, hv.vms`trackedPages, hv.arenas`headers
  {
    hv.Exhausted(reason)
    || match op
       case AllocateInArena(arena, size) => reason == ArenaFull && hv.arenas.Room(arena) < size
       case CreateMachine => reason == ArenaFull && hv.RoomLeft() < SIZEOF_VM
       case AllocateGuestMemory(_, _) => reason in {GuestMemoryAlreadyAllocated, AlreadyMapped}
       case MapGuestPage(_, _, _) => reason == AlreadyMapped
       case IdentityMap(_) => reason == EptAlreadyInitialized
       case CreateVmcs(_) => reason == VmcsAlreadyInitialized
       case SetUpGuestPaging(_) => reason in {NoGuestMemory, SetupAlreadyStarted, EptWalkFailed}
       case GuestStores(_, _, _) => reason == EptWalkFailed
       case LoadKernel(_, _, _, _, _) => LoaderPanic(reason)
       case _ => false
  }

  /** One operation: the state stays valid, and reflects the longer run. */
  method Perform(hv: Hypervisor, ghost before: seq<Operation>, op: Operation, behind: nat -> u8)
    returns (r: Outcome<()>)
    requires hv.Valid() && Enabled(hv, before, op) && Reflects(hv, before) && StaysInGuest(op)
    modifies hv, hv.arenas, hv.vms
    ensures r.Ok? ==> hv.Valid() && Reflects(hv, before + [op]) && ImageKept(hv.boot, old(hv.memory), hv.memory)
    ensures r.Ok? ==> fresh((set v | v in hv.vms) - (set v | v in old(hv.vms)))
    ensures r.Panic? ==> Refuses(hv, op, r.reason)
  {
    hide Hypervisor.Valid, Refuses;
    match op {
      case CreateAnArena => r := PerformOnArenas(hv, before, op);
      case AllocateInArena(_, _) => r := PerformOnArenas(hv, before, op);
      case DestroyAnArena(_) => r := PerformOnArenas(hv, before, op);
      case GetVmxon => r := PerformOnPages(hv, before, op);
      case GetBitmaps => r := PerformOnPages(hv, before, op);
      case CreateMachine => r := PerformCreation(hv, before);
      case CreateVmcs(_) => r := PerformVmcs(hv, before, op);
      case AllocateGuestMemory(_, _) => r := PerformAllocation(hv, before, op);
      case MapGuestPage(_, _, _) => r := PerformMapping(hv, before, op);
      case IdentityMap(_) => r := PerformIdentityMap(hv, before, op);
      case SetUpGuestPaging(_) => r := PerformSetUp(hv, before, op);
      case LoadKernel(_, _, _, _, _) => r := PerformLoad(hv, before, op, behind);
      case GuestStores(_, _, _) => r := PerformStore(hv, before, op);
    }
  }

  method PerformOnArenas(hv: Hypervisor, ghost before: seq<Operation>, op: Operation) returns (r: Outcome<()>)
    requires hv.Valid() && Enabled(hv, before, op) && Reflects(hv, before)
    requires op.CreateAnArena? || op.AllocateInArena? || op.DestroyAnArena?
    modifies hv`lastReturned, hv`owner, hv.arenas
    ensures r.Ok? ==> hv.Valid() && Reflects(hv, before + [op]) && ImageKept(hv.boot, old(hv.memory), hv.memory)
    ensures r.Panic? ==> Refuses(hv, op, r.reason)
  {
    hide Hypervisor.Valid, OnlyAllocates, Machines, BitmapsObtained, EarlyVmcs;
    RunGrows(before, op);
    BitmapsHaveOwner(hv);
    match op
    case CreateAnArena =>
      var arena :- CreateArena(hv);
      ClaimKeepsShared(old(hv.owner), arena, ArenaPage, hv.msrBitmapsPage);
      return Ok(());
    case AllocateInArena(arena, size) =>
      var _ :- AllocateBlock(hv, arena, size);
      return Ok(());
    case DestroyAnArena(arena) =>
      ArenaIsNotBitmaps(hv, arena);
      r := DestroyArena(hv, arena);
  }

  method PerformOnPages(hv: Hypervisor, ghost before: seq<Operation>, op: Operation) returns (r: Outcome<()>)
    requires hv.Valid() && Reflects(hv, before) && (op.GetVmxon? || op.GetBitmaps?)
    modifies hv`lastReturned, hv`memory, hv`vmxonRegion, hv`msrBitmapsPage, hv`owner
    ensures r.Ok? ==> hv.Valid() && Reflects(hv, before + [op]) && ImageKept(hv.boot, old(hv.memory), hv.memory)
    ensures r.Panic? ==> Refuses(hv, op, r.reason)
  {
    hide Hypervisor.Valid, OnlyAllocates, Machines, BitmapsObtained, EarlyVmcs;
    RunGrows(before, op);
    BitmapsHaveOwner(hv);
    if op.GetVmxon? {
      var page :- GetVmxonRegion(hv);
      if old(hv.vmxonRegion).None? {
        ClaimKeepsShared(old(hv.owner), page, VmxonRegion, hv.msrBitmapsPage);
      }
    } else {
      var _ :- GetMsrBitmapsPage(hv);
    }
    UnownedKept(hv, old(hv.memory));
    return Ok(());
  }

  method PerformCreation(hv: Hypervisor, ghost before: seq<Operation>) returns (r: Outcome<()>)
    requires hv.Valid() && Reflects(hv, before)
    modifies hv`lastReturned, hv`owner, hv`vmManagerArena, hv`vms, hv.arenas
    ensures r.Ok? ==>
              && hv.Valid() && Reflects(hv, before + [CreateMachine])
              && ImageKept(hv.boot, old(hv.memory), hv.memory)
    ensures r.Ok? ==> fresh((set v | v in hv.vms) - (set v | v in old(hv.vms)))
    ensures r.Panic? ==> Refuses(hv, CreateMachine, r.reason)
  {
    hide Hypervisor.Valid, OnlyAllocates, Machines, BitmapsObtained, EarlyVmcs;
    RunGrows(before, CreateMachine);
    BitmapsHaveOwner(hv);
    var _ :- CreateVm(hv);
    if old(hv.vmManagerArena).None? {
      ClaimKeepsShared(old(hv.owner), hv.vmManagerArena.value, ArenaPage, hv.msrBitmapsPage);
    }
    return Ok(());
  }

  method PerformVmcs(hv: Hypervisor, ghost before: seq<Operation>, op: Operation) returns (r: Outcome<()>)
    requires hv.Valid() && Reflects(hv, before) && op.CreateVmcs? && op.vm < |hv.vms|
    modifies hv`lastReturned, hv`memory, hv`msrBitmapsPage, hv`owner, hv.vms`vmcsRegion, hv.vms`vmcsInitialized
    ensures r.Ok? ==> hv.Valid() && Reflects(hv, before + [op]) && ImageKept(hv.boot, old(hv.memory), hv.memory)
    ensures r.Panic? ==> Refuses(hv, op, r.reason)
  {
    hide Hypervisor.Valid, OnlyAllocates, Machines, BitmapsObtained, EarlyVmcs;
    RunGrows(before, op);
    BitmapsHaveOwner(hv);
    var vm := Machine(hv, op.vm);
    r := CreateInitializedVmcs(hv, vm);
    if r.Ok? {
      UnownedKept(hv, old(hv.memory));
    }
    if r.Ok? && old(hv.msrBitmapsPage).Some? {
      ClaimKeepsShared(old(hv.owner), vm.vmcsRegion, Vmcs(vm.id), hv.msrBitmapsPage);
    }
  }

  method PerformAllocation(hv: Hypervisor, ghost before: seq<Operation>, op: Operation) returns (r: Outcome<()>)
    requires hv.Valid() && Reflects(hv, before) && op.AllocateGuestMemory? && op.vm < |hv.vms|
    modifies hv`lastReturned, hv`memory, hv`owner, hv.arenas, hv.vms
    ensures r.Ok? ==> hv.Valid() && Reflects(hv, before + [op]) && ImageKept(hv.boot, old(hv.memory), hv.memory)
    ensures r.Panic? ==> Refuses(hv, op, r.reason)
  {
    hide Hypervisor.Valid, OnlyAllocates, Machines, BitmapsObtained, EarlyVmcs;
    hide GuestReady, Zeroed, ReservedPages, PoolSize, KeepsOthers, SharedIn;
    RunGrows(before, op);
    BitmapsHaveOwner(hv);
    var vm := Machine(hv, op.vm);
    ghost var s := Snap(hv, vm);
    ghost var hosts, reserve;
    r, hosts, reserve := AllocateGuestPhysicalMemory(hv, vm, op.pages, []);
    if r.Ok? {
      GrowthKeepsShared(vm.id, s, Snap(hv, vm), hv.msrBitmapsPage);
      OthersKeptImage(hv, vm.id, s, Snap(hv, vm));
    }
  }

  method PerformMapping(hv: Hypervisor, ghost before: seq<Operation>, op: Operation) returns (r: Outcome<()>)
    requires hv.Valid() && Reflects(hv, before) && op.MapGuestPage? && op.vm < |hv.vms|
    modifies hv`lastReturned, hv`memory, hv`owner, hv.arenas, hv.vms
    ensures r.Ok? ==> hv.Valid() && Reflects(hv, before + [op]) && ImageKept(hv.boot, old(hv.memory), hv.memory)
    ensures r.Panic? ==> Refuses(hv, op, r.reason)
  {
    hide Hypervisor.Valid, OnlyAllocates, Machines, BitmapsObtained, EarlyVmcs;
    hide EptGrew, MapsOneMore, NoLeak, PathDown, Missing, PoolSize, KeepsOthers, SharedIn, Mapping, Refused, RightsAt,
      MeansOf, PathPaid, NextGuest, Hypervisor.Exhausted;
    RunGrows(before, op);
    BitmapsHaveOwner(hv);
    var vm := Machine(hv, op.vm);
    ghost var named := VmWithId(hv, op.vm);
    ghost var s := Snap(hv, vm);
    r := MapPage(hv, vm, op.g, op.h);
    if r.Ok? {
      GrewKeepsOthers(vm.id, Missing(s.tables, op.g % SPACE, 0), s, Snap(hv, vm));
      GrowthKeepsShared(vm.id, s, Snap(hv, vm), hv.msrBitmapsPage);
      OthersKeptImage(hv, vm.id, s, Snap(hv, vm));
    }
  }

  method PerformIdentityMap(hv: Hypervisor, ghost before: seq<Operation>, op: Operation) returns (r: Outcome<()>)
    requires hv.Valid() && Reflects(hv, before) && op.IdentityMap? && op.vm < |hv.vms|
    modifies hv`lastReturned, hv`memory, hv`owner, hv.arenas, hv.vms
    ensures r.Ok? ==> hv.Valid() && Reflects(hv, before + [op]) && ImageKept(hv.boot, old(hv.memory), hv.memory)
    ensures r.Panic? ==> Refuses(hv, op, r.reason)
  {
    hide Hypervisor.Valid, OnlyAllocates, Machines, BitmapsObtained, EarlyVmcs, PoolSize, KeepsOthers, SharedIn,
      Translate;
    RunGrows(before, op);
    BitmapsHaveOwner(hv);
    var vm := Machine(hv, op.vm);
    ghost var named := VmWithId(hv, op.vm);
    ghost var s := Snap(hv, vm);
    r := CreateIdentityMapping(hv, vm);
    if r.Ok? {
      GrowthKeepsShared(vm.id, s, Snap(hv, vm), hv.msrBitmapsPage);
      OthersKeptImage(hv, vm.id, s, Snap(hv, vm));
    }
  }

  method PerformStore(hv: Hypervisor, ghost before: seq<Operation>, op: Operation) returns (r: Outcome<()>)
    requires hv.Valid() && Enabled(hv, before, op) && Reflects(hv, before) && op.GuestStores?
    modifies hv`memory
    ensures r.Ok? ==> hv.Valid() && Reflects(hv, before + [op]) && ImageKept(hv.boot, old(hv.memory), hv.memory)
    ensures r.Panic? ==> Refuses(hv, op, r.reason)
  {
    hide Hypervisor.Valid, OnlyAllocates, Machines, BitmapsObtained, EarlyVmcs, SharedIn, GetHostPhysicalAddress,
      ByteAt, Hypervisor.Exhausted;
    RunGrows(before, op);
    var vm := Machine(hv, op.vm);
    ghost var named := VmWithId(hv, op.vm);
    r := GuestStore(hv, vm, op.address, op.value);
    if r.Ok? {
      UnownedKept(hv, old(hv.memory));
    }
  }

  method PerformSetUp(hv: Hypervisor, ghost before: seq<Operation>, op: Operation) returns (r: Outcome<()>)
    requires hv.Valid() && Enabled(hv, before, op) && Reflects(hv, before) && op.SetUpGuestPaging?
    modifies hv`memory, hv.vms`usedByInitialSetup
    ensures r.Ok? ==> hv.Valid() && Reflects(hv, before + [op]) && ImageKept(hv.boot, old(hv.memory), hv.memory)
    ensures r.Panic? ==> Refuses(hv, op, r.reason)
  {
    hide Hypervisor.Valid, OnlyAllocates, Machines, BitmapsObtained, EarlyVmcs, SharedIn, GuestReady, IdentityBuilt,
      GetGuestPhysicalAddress;
    RunGrows(before, op);
    var vm := Machine(hv, op.vm);
    ghost var named := VmWithId(hv, op.vm);
    ghost var hosts := vm.guest.hosts;
    ExactlyIsReady(hv, vm);
    FewHosts(hv, vm, hosts);
    var cr3 :- SetupIdentity(hv, vm, hosts);
    OwnPagesWritten(hv, vm, hosts, old(hv.memory));
    return Ok(());
  }

  method PerformLoad(hv: Hypervisor, ghost before: seq<Operation>, op: Operation, behind: nat -> u8)
    returns (r: Outcome<()>)
    requires hv.Valid() && Enabled(hv, before, op) && Reflects(hv, before) && op.LoadKernel? && StaysInGuest(op)
    modifies hv`memory, hv.vms`usedByInitialSetup, hv.vms`cr3
    ensures r.Ok? ==> hv.Valid() && Reflects(hv, before + [op]) && ImageKept(hv.boot, old(hv.memory), hv.memory)
    ensures r.Panic? ==> Refuses(hv, op, r.reason)
  {
    hide Hypervisor.Valid, OnlyAllocates, Machines, BitmapsObtained, EarlyVmcs, SharedIn, GuestReady, IdentityBuilt,
      LinuxLoaded, CopyPages, WithSetup, TailOnly, Placed, Fits, CheckPasses, KernelOf;
    RunGrows(before, op);
    var vm := Machine(hv, op.vm);
    ghost var named := VmWithId(hv, op.vm);
    ghost var hosts := vm.guest.hosts;
    ExactlyIsReady(hv, vm);
    FewHosts(hv, vm, hosts);
    ghost var built;
    r, built := LoadLinux(hv, vm, op.image, behind, op.header, op.zeropage, op.cmdline, hosts);
    if r.Ok? {
      LoadedIntoHosts(vm.id, hosts, old(hv.memory), Snap(hv, vm), vm.cr3, op.header.prefAddress,
                      KernelOf(op.image, op.header, behind), op.zeropage, op.cmdline);
      OwnPagesWritten(hv, vm, hosts, old(hv.memory));
    }
  }

  lemma LoadedIntoHosts(id: nat, hosts: seq<nat>, m0: Memory, s: Snapshot, cr3: u64, address: u64, kernel: seq<u8>,
                        zeropage: Page, cmdline: seq<u8>)
    requires |cmdline| < PAGE_SIZE && LinuxLoaded(id, hosts, m0, s, cr3, address, kernel, zeropage, cmdline)
    ensures forall p: nat :: p !in hosts ==> SameAt(m0, s.memory, p)
  {
    hide GuestReady, ReadableUpTo, SetupIntact, RunsOn;
  }

  /** Writing to a machine's own guest pages leaves the boot image alone. */
  lemma OwnPagesWritten(hv: Hypervisor, vm: Vm, hosts: seq<nat>, m: Memory)
    requires hv.Valid() && HostsOk(hosts, vm.id, hv.owner)
    requires forall p: nat :: p !in hosts ==> SameAt(m, hv.memory, p)
    ensures ImageKept(hv.boot, m, hv.memory)
  {
    hide Hypervisor.Valid;
    forall p: nat | p !in hv.owner
      ensures SameAt(m, hv.memory, p)
    {
      assert p in hosts ==> Owns(hv.owner, GuestMemory(vm.id), p);
    }
    UnownedKept(hv, m);
  }

  /** arena_allocate on behalf of a client. */
  method AllocateBlock(hv: Hypervisor, arena: nat, size: nat) returns (r: Outcome<nat>)
    requires hv.Valid() && arena in hv.arenas.live
    modifies hv.arenas`headers, hv.arenas`blocks
    ensures r.Ok? ==> hv.Valid()
    ensures r.Panic? ==> r.reason == ArenaFull && hv.arenas.Room(arena) < size
  {
    hide VmOk, OwnersOk, ArenaOwners, InChainload, Linked, BlocksOk, ArenaList.Room;
    r := hv.arenas.Allocate(arena, size);
  }

  method IsEnabled(hv: Hypervisor, before: seq<Operation>, op: Operation) returns (enabled: bool)
    requires hv.Valid()
    ensures enabled <==> Enabled(hv, before, op)
  {
    hide VmOk, OwnersOk, ArenaOwners, InChainload, Linked, BlocksOk;
    match op
    case AllocateInArena(arena, _) =>
      enabled := hv.arenas.UsedBy(arena);
    case DestroyAnArena(arena) =>
      enabled := hv.arenas.UsedBy(arena);
      enabled := enabled && hv.vmManagerArena != Some(arena);
    case AllocateGuestMemory(vm, _) => enabled := vm < |hv.vms|;
    case MapGuestPage(vm, _, _) => enabled := vm < |hv.vms|;
    case IdentityMap(vm) => enabled := vm < |hv.vms|;
    case CreateVmcs(vm) => enabled := vm < |hv.vms|;
    case SetUpGuestPaging(vm) => enabled := vm < |hv.vms| && OnlyAllocates(before, vm);
    case LoadKernel(vm, _, _, _, _) => enabled := vm < |hv.vms| && OnlyAllocates(before, vm);
    case GuestStores(vm, _, _) => enabled := vm < |hv.vms| && OnlyAllocates(before, vm);
    case _ => enabled := true;
  }

  /** A skipped operation changes neither the state nor what it reflects. */
  lemma SkippedReflects(hv: Hypervisor, before: seq<Operation>, op: Operation)
    requires Reflects(hv, before) && !Enabled(hv, before, op)
    ensures Reflects(hv, before + [op])
  {
    hide OnlyAllocates, Machines, BitmapsObtained, EarlyVmcs;
    RunGrows(before, op);
  }

  /** The EPT of the machine leads to guest memory of the machine only. */
  ghost predicate Isolated(hv: Hypervisor, vm: Vm)
    reads hv`memory, hv`owner, vm`eptInitialized, vm`eptp
  {
    vm.eptInitialized ==> forall a: nat :: a < SPACE ==> MapsOwnMemory(Lookup(hv.memory, vm.eptp, a), vm.id, hv.owner)
  }

  lemma IsolatedInState(hv: Hypervisor, vm: Vm)
    requires hv.Valid() && vm in hv.vms && !vm.guest.Anything?
    ensures Isolated(hv, vm)
  {
    hide Lookup;
    MapsOwnMachine(hv, vm);
  }

  /** A whole run from the start of the hypervisor, on any memory map. After any sequence of operations, guest
      set-up and guest stores among them, every page has at most one holder if and only if no VMCS was created before
      the MSR bitmap page was obtained; reserved pages are zero and linked from no table; a machine whose EPT was
      filled by the allocation of its memory only reaches its own memory; and what the boot loader left in memory is
      as it was. A PANIC ends the run. */
  method Run(hv: Hypervisor, ops: seq<Operation>, behind: nat -> u8) returns (r: Outcome<()>)
    requires hv.Valid() && hv.vms == [] && hv.msrBitmapsPage == None
    requires forall op :: op in ops ==> StaysInGuest(op)
    modifies hv, hv.arenas
    ensures r.Ok? ==> hv.Valid() && Reflects(hv, ops) && fresh(hv.vms)
    ensures r.Ok? ==> (Exclusive(hv) <==> !EarlyVmcs(ops))
    ensures r.Ok? ==> AllReservedIdle(hv)
    ensures r.Ok? ==> forall vm :: vm in hv.vms && OnlyAllocates(ops, vm.id) ==> Isolated(hv, vm)
    ensures r.Ok? ==> ImageKept(hv.boot, old(hv.memory), hv.memory)
    ensures r.Panic? ==> exists op :: op in ops && Refuses(hv, op, r.reason)
  {
    hide Hypervisor.Valid, Refuses, HoldsPage, AllReservedIdle, Enabled, Reflects, Exclusive, Isolated, ImageKept,
      StaysInGuest;
    NothingReflected(hv);
    ImageStarts(hv.boot, hv.memory);
    assert ops[..0] == [];
    for i := 0 to |ops|
      invariant hv.Valid() && fresh(hv.vms)
      invariant Reflects(hv, ops[..i]) && ImageKept(hv.boot, old(hv.memory), hv.memory)
    {
      var enabled := IsEnabled(hv, ops[..i], ops[i]);
      assert ops[..i] + [ops[i]] == ops[..i + 1];
      if enabled {
        ghost var m := hv.memory;
        r := Perform(hv, ops[..i], ops[i], behind);
        if r.Panic? {
          return;
        }
        ImageKeptChain(hv.boot, old(hv.memory), m, hv.memory);
      } else {
        SkippedReflects(hv, ops[..i], ops[i]);
      }
    }
    assert ops[..|ops|] == ops;
    ReflectsShared(hv, ops);
    ExclusiveUnlessShared(hv);
    ReservedStayIdle(hv);
    forall vm | vm in hv.vms && OnlyAllocates(ops, vm.id)
      ensures Isolated(hv, vm)
    {
      IsolatedInState(hv, vm);
    }
    r := Ok(());
  }

  lemma ImageStarts(boot: ChainloadPage, m: Memory)
    ensures ImageKept(boot, m, m)
  {
    hide InChainload;
  }

  lemma NothingReflected(hv: Hypervisor)
    requires hv.vms == [] && hv.msrBitmapsPage == None
    ensures Reflects(hv, [])
  {
  }

  lemma ReflectsShared(hv: Hypervisor, run: seq<Operation>)
    requires Reflects(hv, run)
    ensures (BitmapsShared(hv) <==> EarlyVmcs(run)) && |hv.vms| == Machines(run)
    ensures forall v :: v in hv.vms && OnlyAllocates(run, v.id) ==>
              v.guest.Exactly? && |v.guest.hosts| == v.guestPhysicalPages
  {
  }
}
