/** hvmain (hv/src/main.c) up to the launch of the guest. */
module HypervisorMain {
  import opened Bits
  import opened Paging
  import opened PhysicalMemory
  import opened Bytes
  import opened RadixTree
  import opened Outcomes
  import opened VirtualMachine
  import opened Chainload
  import opened PageScan
  import opened PageSupply
  import opened HypervisorState
  import opened VmxPages
  import opened VmManager
  import opened EptMapping
  import opened GuestMemoryAllocation
  import opened GuestPaging
  import opened GuestIdentity
  import opened KernelCopy
  import opened LinuxLoader
  import opened VmcsCreation
  import opened Ownership

  /** cmdline_default. */
  const CMDLINE_TEXT: string := "earlyprintk=serial,ttyS0 console=ttyS0 nokaslr noapic nolapic"

  function Cmdline(): (r: seq<u8>)
    ensures |r| == |CMDLINE_TEXT| == 61 && forall k :: 0 <= k < |r| ==> r[k] == CMDLINE_TEXT[k] as nat % 256
  {
    seq(|CMDLINE_TEXT|, k requires 0 <= k < |CMDLINE_TEXT| => CMDLINE_TEXT[k] as nat % 256)
  }

  /** 64 MiB. */
  const GUEST_PAGES: nat := 16384

  /** Where the guest without Linux starts. */
  const GUEST_RIP: nat := 0x7c00

  /** The VMCS takes a page that nobody owned: the machine and its memory stay as they were. */
  ghost predicate Undisturbed(s: Snapshot, s': Snapshot) {
    && s'.initialized == s.initialized && s'.eptp == s.eptp && s'.tables == s.tables
    && forall p: nat :: p in s.owner ==> Owns(s'.owner, s.owner[p], p) && SameAt(s.memory, s'.memory, p)
  }

  lemma UndisturbedIsReady(id: nat, hosts: seq<nat>, s: Snapshot, s': Snapshot)
    requires EptIs(id, s) && GuestReady(id, hosts, s) && Undisturbed(s, s')
    ensures GuestReady(id, hosts, s') && forall k :: 0 <= k < |hosts| ==> SameAt(s.memory, s'.memory, hosts[k])
  {
    hide Lookup, Tree, HostHit;
    if s.initialized {
      forall n | n in s.tables
        ensures SameAt(s.memory, s'.memory, s.tables[n])
      {
        assert Owns(s.owner, LiveEpt(id), s.tables[n]);
      }
      TreeFrame(s.memory, s'.memory, s.tables);
    }
    forall a: nat | a < SPACE
      ensures Mapping(s', a) == Mapping(s, a)
    {
    }
  }

  lemma StillReadable(id: nat, hosts: seq<nat>, s: Snapshot, s': Snapshot, address: u64, kernel: seq<u8>)
    requires GuestReady(id, hosts, s) && GuestReady(id, hosts, s')
    requires forall k :: 0 <= k < |hosts| ==> SameAt(s.memory, s'.memory, hosts[k])
    requires ReadableUpTo(s, address, kernel, |kernel|)
    ensures ReadableUpTo(s', address, kernel, |kernel|)
  {
    hide GuestReady, GetHostPhysicalAddress, PageByte;
    forall k: nat | k < |kernel|
      ensures GuestByte(s'.memory, s'.initialized, s'.eptp, address + k) == Some(kernel[k])
    {
      assert GuestByte(s.memory, s.initialized, s.eptp, address + k) == Some(kernel[k]);
      var g := address + k;
      HostOfReady(id, hosts, s, g);
      HostOfReady(id, hosts, s', g);
      var page := g % SPACE / PAGE_SIZE;
      if page < |hosts| {
        ReadyOwns(id, hosts, s, page);
        OffsetInPage(hosts[page], g % PAGE_SIZE);
      }
    }
  }

  lemma OffsetInPage(p: nat, offset: nat)
    requires p % PAGE_SIZE == 0 && offset < PAGE_SIZE
    ensures p + offset - (p + offset) % PAGE_SIZE == p
  {
    RemainderIs(p + offset, PAGE_SIZE, p / PAGE_SIZE, offset);
  }

  /** vmx_create_initialized_vmcs, seen from a machine's guest memory. */
  method CreateVmcsFor(hv: Hypervisor, vm: Vm, ghost hosts: seq<nat>) returns (r: Outcome<()>)
    requires hv.Valid() && vm in hv.vms && GuestReady(vm.id, hosts, Snap(hv, vm)) && hv.msrBitmapsPage == None
    modifies hv`lastReturned, hv`memory, hv`msrBitmapsPage, hv`owner, vm`vmcsRegion, vm`vmcsInitialized
    ensures r.Ok? ==>
              && hv.Valid() && vm.vmcsInitialized && hv.msrBitmapsPage == Some(vm.vmcsRegion)
              && GuestReady(vm.id, hosts, Snap(hv, vm))
              && (forall k :: 0 <= k < |hosts| ==> SameAt(old(hv.memory), hv.memory, hosts[k]))
              && ImageKept(hv.boot, old(hv.memory), hv.memory)
    ensures r.Panic? ==> r == Panic(VmcsAlreadyInitialized) || hv.Exhausted(r.reason)
    ensures r == Panic(VmcsAlreadyInitialized) <==> old(vm.vmcsInitialized)
    ensures old(!vm.vmcsInitialized && !hv.AllLookUsed()) ==>
              forall cs: seq<Cursor> :: cs != [] && old(hv.Supplies(cs)) ==> r.Ok?
  {
    hide Hypervisor.ValidFor, GuestReady, ImageKept, Hypervisor.Exhausted, Hypervisor.Supplies, Hypervisor.AllLookUsed;
    ghost var s := Snap(hv, vm);
    EptPart(hv, vm, hv.memory);
    r := CreateInitializedVmcs(hv, vm);
    if r.Ok? {
      UndisturbedIsReady(vm.id, hosts, s, Snap(hv, vm));
      UnownedKept(hv, s.memory);
    }
  }

  /** What the guest is to run: the small program of the repository, or a Linux kernel. */
  datatype Software = Program(code: seq<u8>) | Linux(address: u64, kernel: seq<u8>, zeropage: Page)

  /** The software is in guest memory, with what it needs to start. */
  ghost predicate Prepared(id: nat, hosts: seq<nat>, s: Snapshot, cr3: u64, software: Software) {
    && GuestReady(id, hosts, s) && |hosts| == GUEST_PAGES && cr3 == (GUEST_PAGES - 1) * PAGE_SIZE
    && match software
       case Program(code) => IdentityBuilt(id, hosts, s) && ReadableUpTo(s, GUEST_RIP, code, |code|)
       case Linux(address, kernel, zeropage) =>
         && ReadableUpTo(s, address, kernel, |kernel|)
         && (ClearOfSetup(GUEST_PAGES, FirstPage(address), PagesOf(|kernel|)) ==>
               SetupIntact(id, hosts, s, zeropage, Cmdline()))
  }

  /** The guest reads it, through its own tables and the EPT. */
  ghost predicate Starts(s: Snapshot, cr3: u64, software: Software) {
    match software
    case Program(code) => RunsOn(s, cr3, GUEST_RIP, code)
    case Linux(address, kernel, zeropage) =>
      && ReadableUpTo(s, address, kernel, |kernel|)
      && (ClearOfSetup(GUEST_PAGES, FirstPage(address), PagesOf(|kernel|)) ==>
            && RunsOn(s, cr3, address, kernel)
            && RunsOn(s, cr3, (GUEST_PAGES - 515) * PAGE_SIZE, PageBytes(zeropage))
            && RunsOn(s, cr3, (GUEST_PAGES - 516) * PAGE_SIZE, Cmdline() + [0]))
  }

  lemma PreparedStarts(id: nat, hosts: seq<nat>, s: Snapshot, cr3: u64, software: Software)
    requires Prepared(id, hosts, s, cr3, software)
    ensures Starts(s, cr3, software)
  {
    hide GuestReady, IdentityBuilt, ReadableUpTo, RunsOn, HoldsString, PageBytes;
    match software
    case Program(code) => ReadsThroughOwnTables(id, hosts, s, GUEST_RIP, code);
    case Linux(address, kernel, zeropage) =>
      if ClearOfSetup(GUEST_PAGES, FirstPage(address), PagesOf(|kernel|)) {
        ReadsThroughOwnTables(id, hosts, s, address, kernel);
        SetupIsRead(id, hosts, s, zeropage, Cmdline());
      }
  }

  lemma StillPrepared(id: nat, hosts: seq<nat>, s: Snapshot, s': Snapshot, cr3: u64, software: Software)
    requires Prepared(id, hosts, s, cr3, software) && GuestReady(id, hosts, s')
    requires forall k :: 0 <= k < |hosts| ==> SameAt(s.memory, s'.memory, hosts[k])
    ensures Prepared(id, hosts, s', cr3, software)
  {
    hide GuestReady, IdentityBuilt, ReadableUpTo, SetupIntact;
    match software
    case Program(code) =>
      IdentityFrame(id, hosts, s, s');
      StillReadable(id, hosts, s, s', GUEST_RIP, code);
    case Linux(address, kernel, zeropage) =>
      StillReadable(id, hosts, s, s', address, kernel);
      if ClearOfSetup(GUEST_PAGES, FirstPage(address), PagesOf(|kernel|)) {
        SetupFrame(id, hosts, s, s', zeropage, Cmdline());
      }
  }

  /** The code of the small program, copied to its host page. */
  method StoreCode(hv: Hypervisor, vm: Vm, code: seq<u8>, ghost hosts: seq<nat>) returns (r: Outcome<()>)
    requires hv.Valid() && vm in hv.vms && IdentityBuilt(vm.id, hosts, Snap(hv, vm))
    requires |hosts| == GUEST_PAGES && 0 < |code| <= PAGE_SIZE - GUEST_RIP % PAGE_SIZE
    modifies hv`memory
    ensures r.Ok? ==>
              && hv.Valid() && ImageKept(hv.boot, old(hv.memory), hv.memory)
              && IdentityBuilt(vm.id, hosts, Snap(hv, vm)) && ReadableUpTo(Snap(hv, vm), GUEST_RIP, code, |code|)
    ensures r.Ok?
  {
    hide Hypervisor.ValidFor, GuestReady, IdentityBuilt, GetHostPhysicalAddress, ImageKept, CopyPages, WriteBytes,
      ReadableUpTo, KernelPage, OnlyKernelPages;
    ghost var s := Snap(hv, vm);
    BuiltIsReady(vm.id, hosts, s);
    HostOfReady(vm.id, hosts, s, GUEST_RIP);
    var host := GetHostPhysicalAddress(hv.memory, vm.eptInitialized, vm.eptp, GUEST_RIP);
    // Guest page 7 exists.
    assert host.Some?;
    hv.memory := WriteBytes(hv.memory, host.value, code);
    FirstTurn(s.memory, vm.eptInitialized, vm.eptp, GUEST_RIP, code);
    assert KernelPage(code, 0) == code;
    KernelCopied(hv, vm, s.memory, code, GUEST_RIP, hosts);
    CodeIsClear(vm.id, hosts, s, Snap(hv, vm));
    ReadyHosts(vm.id, hosts, s);
    OwnPagesWritten(hv, vm, hosts, s.memory);
    return Ok(());
  }

  /** The guest that starts without Linux: identity paging, and its code at GUEST_RIP. */
  method SetUpProgram(hv: Hypervisor, vm: Vm, code: seq<u8>, ghost hosts: seq<nat>) returns (r: Outcome<()>)
    requires hv.Valid() && vm in hv.vms && GuestReady(vm.id, hosts, Snap(hv, vm))
    requires |hosts| == vm.guestPhysicalPages == GUEST_PAGES && 0 < |code| <= PAGE_SIZE - GUEST_RIP % PAGE_SIZE
    modifies hv`memory, vm`usedByInitialSetup, vm`cr3
    ensures r.Ok? ==>
              && hv.Valid() && ImageKept(hv.boot, old(hv.memory), hv.memory)
              && Prepared(vm.id, hosts, Snap(hv, vm), vm.cr3, Program(code))
    ensures r.Ok? <==> old(vm.usedByInitialSetup) == 0
  {
    hide Hypervisor.Valid, GuestReady, IdentityBuilt, GetGuestPhysicalAddress, ImageKept, ReadableUpTo, TailOnly;
    ghost var m := hv.memory;
    ReadyHosts(vm.id, hosts, Snap(hv, vm));
    var cr3 := SetupIdentity(hv, vm, hosts);
    if cr3.Panic? {
      return cr3.PropagateFailure();
    }
    vm.cr3 := cr3.value;
    ghost var m1 := hv.memory;
    TailInHosts(m, m1, hosts);
    OwnPagesWritten(hv, vm, hosts, m);
    r := StoreCode(hv, vm, code, hosts);
    if r.Ok? {
      BuiltIsReady(vm.id, hosts, Snap(hv, vm));
      ImageKeptChain(hv.boot, m, m1, hv.memory);
    }
  }

  lemma BuiltIsReady(id: nat, hosts: seq<nat>, s: Snapshot)
    requires IdentityBuilt(id, hosts, s)
    ensures GuestReady(id, hosts, s)
  {
  }

  lemma ReadyHosts(id: nat, hosts: seq<nat>, s: Snapshot)
    requires GuestReady(id, hosts, s)
    ensures HostsOk(hosts, id, s.owner)
  {
    hide Mapping, HostHit;
  }

  lemma TailInHosts(m: Memory, m': Memory, hosts: seq<nat>)
    requires |hosts| >= 514 && TailOnly(m, m', hosts, |hosts| - 514)
    ensures forall p: nat :: p !in hosts ==> SameAt(m, m', p)
  {
  }

  lemma CodeIsClear(id: nat, hosts: seq<nat>, s: Snapshot, s': Snapshot)
    requires IdentityBuilt(id, hosts, s) && GuestReady(id, hosts, s') && |hosts| == GUEST_PAGES
    requires OnlyKernelPages(s.memory, s'.memory, hosts, 7, 1)
    ensures IdentityBuilt(id, hosts, s') && forall p: nat :: p !in hosts ==> SameAt(s.memory, s'.memory, p)
  {
    hide GuestReady, RootDone, DirectoriesDone;
    ReadyIsDistinct(id, hosts, s');
    forall k | |hosts| - 514 <= k < |hosts|
      ensures SameAt(s.memory, s'.memory, hosts[k])
    {
      assert !KernelHost(hosts, 7, 1, hosts[k]);
    }
    IdentityFrame(id, hosts, s, s');
  }

  /** The guest that starts with Linux. */
  method SetUpLinux(hv: Hypervisor, vm: Vm, image: seq<u8>, behind: nat -> u8, h: KernelHeader, zeropage: Page,
                    ghost hosts: seq<nat>)
    returns (r: Outcome<()>)
    requires hv.Valid() && vm in hv.vms && GuestReady(vm.id, hosts, Snap(hv, vm))
    requires |hosts| == vm.guestPhysicalPages == GUEST_PAGES
    requires |image| < TWO_64 && StaysInGuest(LoadKernel(0, image, h, zeropage, Cmdline()))
    modifies hv`memory, vm`usedByInitialSetup, vm`cr3
    ensures r.Ok? ==>
              && hv.Valid() && ImageKept(hv.boot, old(hv.memory), hv.memory)
              && Prepared(vm.id, hosts, Snap(hv, vm), vm.cr3,
                          Linux(h.prefAddress, KernelOf(image, h, behind), zeropage))
    ensures old(vm.cr3) == 0 && old(vm.usedByInitialSetup) == 0 ==> (r.Ok? <==> LoaderAccepts(|image|, h))
  {
    hide Hypervisor.ValidFor, GuestReady, IdentityBuilt, ImageKept, LinuxLoaded, CopyPages, WithSetup, TailOnly, Placed,
      Fits, CheckPasses, KernelOf, Prepared;
    ReadyHosts(vm.id, hosts, Snap(hv, vm));
    ghost var m, kernel := hv.memory, KernelOf(image, h, behind);
    WhenAccepted(image, behind, h, zeropage);
    ghost var built;
    r, built := LoadLinux(hv, vm, image, behind, h, zeropage, Cmdline(), hosts);
    if r.Ok? {
      LoadedIntoHosts(vm.id, hosts, m, Snap(hv, vm), vm.cr3, h.prefAddress, kernel, zeropage, Cmdline());
      OwnPagesWritten(hv, vm, hosts, m);
      LoadedIsPrepared(vm.id, hosts, m, Snap(hv, vm), vm.cr3, h.prefAddress, kernel, zeropage);
    }
  }

  lemma WhenAccepted(image: seq<u8>, behind: nat -> u8, h: KernelHeader, zeropage: Page)
    requires |image| < TWO_64 && StaysInGuest(LoadKernel(0, image, h, zeropage, Cmdline()))
    ensures var size := |KernelOf(image, h, behind)|;
            && (KernelOffset(h) <= |image| ==> Placed(h.prefAddress, size))
            && (KernelOffset(h) > |image| ==> !Placed(h.prefAddress, size) && h.prefAddress % PAGE_SIZE == 0)
            && (LoaderAccepts(|image|, h) <==>
                  && KernelOffset(h) <= |image| && Prepares(GUEST_PAGES, 0, 0, |image|, h, |Cmdline()|) && Aligned(h)
                  && Fits(GUEST_PAGES, h.prefAddress, size))
  {
    hide Contained, CheckPasses;
  }

  lemma LoadedIsPrepared(id: nat, hosts: seq<nat>, m0: Memory, s: Snapshot, cr3: u64, address: u64, kernel: seq<u8>,
                         zeropage: Page)
    requires |hosts| == GUEST_PAGES && cr3 == (GUEST_PAGES - 1) * PAGE_SIZE
    requires LinuxLoaded(id, hosts, m0, s, cr3, address, kernel, zeropage, Cmdline())
    ensures Prepared(id, hosts, s, cr3, Linux(address, kernel, zeropage))
  {
    hide GuestReady, ReadableUpTo, SetupIntact, RunsOn, OnlyLoaded;
  }

  /** What ends the start of the hypervisor before its guest has memory: a lack of memory that is true of the state,
      or an arena, created earlier, without room for a machine. */
  ghost predicate LacksMemory(hv: Hypervisor, reason: PanicReason)
    reads hv, hv.vms`trackedPages, hv.arenas`headers
  {
    hv.Exhausted(reason) || (reason == ArenaFull && hv.RoomLeft() < SIZEOF_VM)
  }

  /** The page tables of 64 MiB. */
  const TABLE_PAGES: nat := 35

  lemma TablesOfGuest()
    ensures ReservedPages(GUEST_PAGES) == TABLE_PAGES
  {
  }

  /** A hypervisor that has allocated nothing yet is about to be handed pages for the VMXON region, the arena, the
      tables, the guest and the VMCS; and the arena, after the machine, has room for the runs of those of the tables
      and of the guest. */
  ghost predicate EnoughToStart(hv: Hypervisor, supply: seq<Cursor>)
    reads hv
  {
    var mmap := hv.boot.mmap;
    && hv.vmxonRegion == None && hv.vmManagerArena == None && hv.Supplies(supply) && CursorsOk(mmap, supply)
    && 2 + TABLE_PAGES + GUEST_PAGES < |supply|
    && (forall k :: 2 <= k < 2 + TABLE_PAGES ==> PageAt(mmap, supply[k]) != 0)
    && 2 * SIZEOF_PAGE_RUN * Breaks(mmap, None, supply[2..2 + TABLE_PAGES])
       + SIZEOF_PAGE_RUN * Breaks(mmap, None, supply[2 + TABLE_PAGES..2 + TABLE_PAGES + GUEST_PAGES])
       + SIZEOF_VM <= ARENA_ROOM
  }

  /** It is enough that the topmost usable pages are free: 64 MiB, and 38 pages more. */
  lemma TopBlockSuffices(hv: Hypervisor, top: Cursor)
    requires hv.lastReturned == None && hv.owner == map[] && hv.vmxonRegion == None && hv.vmManagerArena == None
    requires CursorOk(hv.boot.mmap, top) && Rank(hv.boot.mmap, top) == Total(hv.boot.mmap) - 1
    requires 2 + TABLE_PAGES + GUEST_PAGES < top.page + 1
    requires FreeBlock(hv.boot, {}, top, 3 + TABLE_PAGES + GUEST_PAGES)
    ensures EnoughToStart(hv, Downwards(top, 3 + TABLE_PAGES + GUEST_PAGES))
  {
    hide FreeBlock, Supply, Rank, Breaks;
    var mmap, n := hv.boot.mmap, 3 + TABLE_PAGES + GUEST_PAGES;
    var supply := Downwards(top, n);
    BlockSupplies(hv.boot, {}, top, top, n);
    assert StartsAt(mmap, hv.lastReturned, top) && hv.owner.Keys == {};
    var tables, guest := Cursor(top.region, top.page - 2), Cursor(top.region, top.page - 2 - TABLE_PAGES);
    assert supply[2..2 + TABLE_PAGES] == Downwards(tables, TABLE_PAGES);
    assert supply[2 + TABLE_PAGES..2 + TABLE_PAGES + GUEST_PAGES] == Downwards(guest, GUEST_PAGES);
    BlockHasNoBreaks(mmap, None, tables, TABLE_PAGES);
    BlockHasNoBreaks(mmap, None, guest, GUEST_PAGES);
    BlockHasNoBreaks(mmap, None, top, n);
  }

  /** The first half of hvmain: the machine and its memory. */
  method CreateGuest(hv: Hypervisor, ghost supply: seq<Cursor>) returns (r: Outcome<Vm>, ghost hosts: seq<nat>)
    requires hv.Valid() && hv.vms == [] && hv.msrBitmapsPage == None
    modifies hv, hv.arenas
    ensures r.Ok? ==>
              && hv.Valid() && fresh(r.value) && hv.vms == [r.value] && hv.msrBitmapsPage == None
              && !r.value.vmcsInitialized && r.value.guestPhysicalPages == |hosts| == GUEST_PAGES
              && r.value.cr3 == 0 && r.value.usedByInitialSetup == 0
              && GuestReady(r.value.id, hosts, Snap(hv, r.value)) && ImageKept(hv.boot, old(hv.memory), hv.memory)
    ensures r.Panic? ==> LacksMemory(hv, r.reason)
    ensures old(EnoughToStart(hv, supply)) ==>
              && r.Ok? && !hv.AllLookUsed() && hv.Supplies(supply[2 + TABLE_PAGES + GUEST_PAGES..])
              && ArePages(hv.boot.mmap, hosts, supply[2 + TABLE_PAGES..][..GUEST_PAGES])
  {
    hide Hypervisor.Valid, GuestReady, ImageKept, Hypervisor.AllLookUsed, EnoughToStart, ArePages, SupplyFrom, Affords,
      LacksMemory;
    ghost var m, enough := hv.memory, EnoughToStart(hv, supply);
    hosts := [];
    if enough {
      StartBegins(hv, supply);
    }
    r := ObtainMachine(hv, supply);
    if r.Panic? {
      return;
    }
    ghost var m1 := hv.memory;
    var given;
    given, hosts := GiveMemory(hv, r.value, if enough then supply[2..] else []);
    if given.Panic? {
      r := given.PropagateFailure();
      return;
    }
    if enough {
      assert supply[2..][TABLE_PAGES..] == supply[2 + TABLE_PAGES..];
      assert supply[2..][TABLE_PAGES + GUEST_PAGES..] == supply[2 + TABLE_PAGES + GUEST_PAGES..];
    }
    ImageKeptChain(hv.boot, m, m1, hv.memory);
  }

  /** The memory of the new machine. */
  method GiveMemory(hv: Hypervisor, vm: Vm, ghost supply: seq<Cursor>) returns (r: Outcome<()>, ghost hosts: seq<nat>)
    requires hv.Valid() && vm in hv.vms
    requires vm.trackedPages == [] && !vm.eptInitialized && vm.guestPhysicalPages == 0
    modifies vm`guestPhysicalPages, vm`trackedPages, vm`tables, vm`eptp, vm`eptInitialized, vm`guest
    modifies hv`owner, hv`memory, hv`lastReturned, hv.arenas`headers, hv.arenas`blocks
    ensures r.Ok? ==>
              && hv.Valid() && vm.guestPhysicalPages == |hosts| == GUEST_PAGES
              && GuestReady(vm.id, hosts, Snap(hv, vm)) && ImageKept(hv.boot, old(hv.memory), hv.memory)
    ensures r.Panic? ==> LacksMemory(hv, r.reason)
    ensures old(Affords(hv, vm, GUEST_PAGES, supply)) ==>
              && r.Ok? && !hv.AllLookUsed() && TABLE_PAGES + GUEST_PAGES <= |supply|
              && hv.Supplies(supply[TABLE_PAGES + GUEST_PAGES..])
              && ArePages(hv.boot.mmap, hosts, supply[TABLE_PAGES..][..GUEST_PAGES])
  {
    hide Hypervisor.Valid, GuestReady, ImageKept, Zeroed, ReservedPages, AllGuestPages, KeepsOthers, NextGuest,
      Hypervisor.Exhausted, Hypervisor.RoomLeft, Hypervisor.AllLookUsed, RightsAt, ArePages, SupplyFrom, LacksMemory,
      NoPage, CursorsOk, Breaks;
    ghost var s := Snap(hv, vm);
    TablesOfGuest();
    ghost var reserve;
    r, hosts, reserve := AllocateGuestPhysicalMemory(hv, vm, GUEST_PAGES, supply);
    if r.Ok? {
      OthersKeptImage(hv, vm.id, s, Snap(hv, vm));
    } else {
      MemoryIsLacking(hv, r.reason);
    }
  }

  /** The VMXON region and the machine. */
  method ObtainMachine(hv: Hypervisor, ghost supply: seq<Cursor>) returns (r: Outcome<Vm>)
    requires hv.Valid() && hv.vms == [] && hv.msrBitmapsPage == None
    modifies hv, hv.arenas
    ensures r.Ok? ==>
              && hv.Valid() && fresh(r.value) && hv.vms == [r.value] && hv.msrBitmapsPage == None
              && !r.value.vmcsInitialized && !r.value.eptInitialized && r.value.trackedPages == []
              && r.value.guestPhysicalPages == 0 && r.value.cr3 == 0 && r.value.usedByInitialSetup == 0
              && ImageKept(hv.boot, old(hv.memory), hv.memory)
    ensures r.Panic? ==> LacksMemory(hv, r.reason)
    ensures old(EnoughToStart(hv, supply)) ==>
              r.Ok? && 2 <= |supply| && Affords(hv, r.value, GUEST_PAGES, supply[2..])
  {
    hide Hypervisor.Valid, ImageKept, Hypervisor.Exhausted, Hypervisor.RoomLeft, Hypervisor.AllLookUsed, EnoughToStart,
      EnoughPages, SupplyFrom, FirstWord, Affords;
    ghost var m, enough := hv.memory, EnoughToStart(hv, supply);
    if enough {
      StartBegins(hv, supply);
    }
    var vmxon := GetVmxonRegion(hv);
    if vmxon.Panic? {
      return vmxon.PropagateFailure();
    }
    UnownedKept(hv, m);
    r := CreateVm(hv);
    if r.Ok? && enough {
      assert supply[1..][1..] == supply[2..];
      StartAffords(hv, r.value, supply);
    }
  }

  lemma StartBegins(hv: Hypervisor, supply: seq<Cursor>)
    requires EnoughToStart(hv, supply) && hv.vms == []
    ensures hv.vmxonRegion == None && hv.vmManagerArena == None && hv.Supplies(supply) && !hv.AllLookUsed()
    ensures |supply| > 2 + TABLE_PAGES + GUEST_PAGES
    ensures EnoughPages(hv.boot.mmap, supply)
  {
    hide SupplyFrom;
  }

  /** The part of it that concerns the pages. */
  ghost predicate EnoughPages(mmap: seq<MmapDescriptor>, supply: seq<Cursor>) {
    && CursorsOk(mmap, supply) && 2 + TABLE_PAGES + GUEST_PAGES < |supply|
    && (forall k :: 2 <= k < 2 + TABLE_PAGES ==> PageAt(mmap, supply[k]) != 0)
    && 2 * SIZEOF_PAGE_RUN * Breaks(mmap, None, supply[2..2 + TABLE_PAGES])
       + SIZEOF_PAGE_RUN * Breaks(mmap, None, supply[2 + TABLE_PAGES..2 + TABLE_PAGES + GUEST_PAGES])
       + SIZEOF_VM <= ARENA_ROOM
  }

  lemma StartAffords(hv: Hypervisor, vm: Vm, supply: seq<Cursor>)
    requires EnoughPages(hv.boot.mmap, supply) && hv.Supplies(supply[2..]) && !hv.AllLookUsed()
    requires vm.guestPhysicalPages == 0 && vm.trackedPages == [] && !vm.eptInitialized
    requires hv.RoomLeft() == ARENA_ROOM - SIZEOF_VM
    ensures Affords(hv, vm, GUEST_PAGES, supply[2..])
  {
    hide SupplyFrom, Breaks, Hypervisor.RoomLeft, Hypervisor.AllLookUsed;
    TablesOfGuest();
    var rest := supply[2..];
    assert forall k :: 0 <= k < |rest| ==> rest[k] == supply[k + 2];
    assert rest[..TABLE_PAGES] == supply[2..2 + TABLE_PAGES];
    assert rest[TABLE_PAGES..TABLE_PAGES + GUEST_PAGES] == supply[2 + TABLE_PAGES..2 + TABLE_PAGES + GUEST_PAGES];
  }

  /** What the loader asks of the image: a header that fits the hypervisor's, a kernel, and memory for it. */
  predicate LoaderAccepts(imageSize: u64, h: KernelHeader) {
    && KernelOffset(h) <= imageSize
    && Prepares(GUEST_PAGES, 0, 0, imageSize, h, |Cmdline()|) && Aligned(h)
    && Fits(GUEST_PAGES, h.prefAddress, imageSize - KernelOffset(h))
  }

  /** hvmain up to the launch of the guest. When it does not panic, the invariant holds, the guest reads what it is to
      run, through its own tables and the EPT, the image that the boot loader left is as it was, and the VMCS lies on
      the page of the MSR bitmaps: it is created without that page having been obtained. With enough free pages it
      panics exactly when the loader does not accept the Linux image. */
  method HvMain(hv: Hypervisor, image: seq<u8>, behind: nat -> u8, h: KernelHeader, zeropage: Page, code: seq<u8>,
                ghost supply: seq<Cursor>)
    returns (r: Outcome<()>, vm: Vm?)
    requires hv.Valid() && hv.vms == [] && hv.msrBitmapsPage == None
    requires |image| < TWO_64 && (image != [] ==> StaysInGuest(LoadKernel(0, image, h, zeropage, Cmdline())))
    requires 0 < |code| <= PAGE_SIZE - GUEST_RIP % PAGE_SIZE
    modifies hv, hv.arenas
    ensures r.Ok? ==>
              && hv.Valid() && vm != null && hv.vms == [vm] && vm.vmcsInitialized
              && hv.msrBitmapsPage == Some(vm.vmcsRegion)
              && Starts(Snap(hv, vm), vm.cr3, if image == [] then Program(code)
                                              else Linux(h.prefAddress, KernelOf(image, h, behind), zeropage))
              && ImageKept(hv.boot, old(hv.memory), hv.memory)
    ensures r.Panic? ==> LacksMemory(hv, r.reason) || (image != [] && !LoaderAccepts(|image|, h))
    ensures old(EnoughToStart(hv, supply)) ==> (r.Ok? <==> image == [] || LoaderAccepts(|image|, h))
  {
    hide Hypervisor.Valid, GuestReady, ImageKept, Prepared, Starts, KernelOf, StaysInGuest, LacksMemory, LoaderAccepts,
      EnoughToStart, SupplyFrom, Hypervisor.AllLookUsed, Hypervisor.Exhausted, ArePages;
    ghost var m := hv.memory;
    vm := null;
    var created;
    ghost var hosts, enough := [], EnoughToStart(hv, supply);
    if enough {
      StartBegins(hv, supply);
    }
    created, hosts := CreateGuest(hv, supply);
    if created.Panic? {
      r := created.PropagateFailure();
      return;
    }
    vm := created.value;
    ghost var m1, software := hv.memory, Program(code);
    if image == [] {
      r := SetUpProgram(hv, vm, code, hosts);
    } else {
      software := Linux(h.prefAddress, KernelOf(image, h, behind), zeropage);
      r := SetUpLinux(hv, vm, image, behind, h, zeropage, hosts);
    }
    if r.Panic? {
      return;
    }
    ImageKeptChain(hv.boot, m, m1, hv.memory);
    ghost var s := Snap(hv, vm);
    PreparedIsReady(vm.id, hosts, s, vm.cr3, software);
    assert enough ==> hv.Supplies(supply[2 + TABLE_PAGES + GUEST_PAGES..]) && !hv.AllLookUsed();
    r := CreateVmcsFor(hv, vm, hosts);
    if r.Ok? {
      ImageKeptChain(hv.boot, m, s.memory, hv.memory);
      StillPrepared(vm.id, hosts, s, Snap(hv, vm), vm.cr3, software);
      PreparedStarts(vm.id, hosts, Snap(hv, vm), vm.cr3, software);
    } else {
      MemoryIsLacking(hv, r.reason);
    }
  }

  lemma MemoryIsLacking(hv: Hypervisor, reason: PanicReason)
    requires hv.Exhausted(reason)
    ensures LacksMemory(hv, reason)
  {
    hide Hypervisor.Exhausted;
  }

  lemma PreparedIsReady(id: nat, hosts: seq<nat>, s: Snapshot, cr3: u64, software: Software)
    requires Prepared(id, hosts, s, cr3, software)
    ensures GuestReady(id, hosts, s)
  {
  }

  /** For an ordinary image, one that prefers 16 MiB and passes the memory check, nothing is left open: once the guest
      starts, it reads byte k of the kernel at 16 MiB + k. */
  lemma OrdinaryLinuxStarts(s: Snapshot, cr3: u64, image: seq<u8>, kernel: seq<u8>, behind: nat -> u8, h: KernelHeader,
                            zeropage: Page, k: nat)
    requires |image| < TWO_64 && IsImage(image, h, kernel) && h.prefAddress == PREFERRED_ADDRESS
    requires CheckPasses(GUEST_PAGES, SETUP_PAGES, |image|)
    requires Starts(s, cr3, Linux(h.prefAddress, KernelOf(image, h, behind), zeropage))
    ensures StaysInGuest(LoadKernel(0, image, h, zeropage, Cmdline()))
    ensures h.hasMagic && h.is64Bit && h.cmdlineSize >= |CMDLINE_TEXT| && Aligned(h) ==> LoaderAccepts(|image|, h)
    ensures k < |kernel| ==>
              LinearByte(s.memory, s.initialized, s.eptp, cr3, PREFERRED_ADDRESS + k) == Some(kernel[k])
  {
    hide LinearByte, ReadableUpTo, CheckPasses, IsImage, KernelOf;
    KernelOfImage(image, h, kernel, behind);
    UsualKernelFits(GUEST_PAGES, |image|, |kernel|);
    SmallImage(|image|);
    assert RunsOn(s, cr3, PREFERRED_ADDRESS, kernel);
  }

  lemma SmallImage(size: u64)
    requires CheckPasses(GUEST_PAGES, SETUP_PAGES, size)
    ensures size / PAGE_SIZE < GUEST_PAGES
  {
  }
}
