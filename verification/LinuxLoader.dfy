/** Placement of a Linux kernel in guest memory (hv/src/vmm/guest_linux_loader.c): the pages used
    by the setup, the memory check, and the copy of the protected-mode kernel. */
module LinuxLoader {
  import opened Bits
  import opened Paging
  import opened PageTableEntries
  import opened PhysicalMemory
  import opened Bytes
  import opened RadixTree
  import opened Outcomes
  import opened Arena
  import opened Chainload
  import opened VirtualMachine
  import opened HypervisorState
  import opened EptMapping
  import opened GuestMemoryAllocation
  import opened GuestPaging
  import opened GuestIdentity
  import opened KernelCopy

  const PREFERRED_ADDRESS: nat := 0x100_0000
  const SETUP_PAGES: nat := 516

  /** What the loader reads from the image's setup header. */
  datatype KernelHeader = KernelHeader(hasMagic: bool, is64Bit: bool, cmdlineSize: nat, setupSectors: u8,
                                       prefAddress: u64, kernelAlignment: nat)

  // --- the memory check -------------------------------------------------------------------------

  /** The check passes; the subtraction is done in 64-bit arithmetic. */
  predicate CheckPasses(n: u64, used: u64, imageSize: u64) {
    && n > PREFERRED_ADDRESS / PAGE_SIZE
    && Sub64(Sub64(n, used), PREFERRED_ADDRESS / PAGE_SIZE) > imageSize / PAGE_SIZE
  }

  /** The kernel pages from guest page first on stay clear of the setup pages at the end. */
  predicate ClearOfSetup(n: nat, first: nat, kernelPages: nat) {
    first + kernelPages + SETUP_PAGES <= n
  }

  /** When the check passes, the kernel is clear of the setup pages exactly when the machine has at
      least 4096 + 516 pages: below that the subtraction wraps. */
  lemma CheckMeansClear(n: u64, imageSize: u64, kernelSize: nat)
    requires n <= MAX_PAGES && kernelSize <= imageSize
    requires CheckPasses(n, SETUP_PAGES, imageSize)
    ensures ClearOfSetup(n, PREFERRED_ADDRESS / PAGE_SIZE, PagesOf(kernelSize))
            <==> n >= PREFERRED_ADDRESS / PAGE_SIZE + SETUP_PAGES
  {
    assert PagesOf(kernelSize) <= imageSize / PAGE_SIZE + 1;
  }

  /** With 4200 pages every image passes the check, and none is clear of the setup pages. */
  lemma CheckWraps(imageSize: u64, kernelPages: nat)
    requires imageSize < 0x8000_0000_0000_0000
    ensures CheckPasses(4200, SETUP_PAGES, imageSize)
    ensures !ClearOfSetup(4200, PREFERRED_ADDRESS / PAGE_SIZE, kernelPages)
  {
  }

  // --- the command line -------------------------------------------------------------------------

  /** The command line and its terminating zero, stored at the start of a page. With PAGE_SIZE characters, which
      the loader accepts, the zero is the first byte of the next physical page. */
  function WithCommandLine(m: Memory, host: nat, cmdline: seq<u8>): Memory
    requires |cmdline| <= PAGE_SIZE
  {
    WriteBytes(WriteBytes(m, host, cmdline), host + |cmdline|, [0])
  }

  /** The guest finds the command line in its page, as a C string. */
  predicate HoldsString(page: Page, cmdline: seq<u8>)
    requires |cmdline| < PAGE_SIZE
  {
    (forall k :: 0 <= k < |cmdline| ==> PageByte(page, k) == cmdline[k]) && PageByte(page, |cmdline|) == 0
  }

  /** A command line shorter than its page is stored completely, and only its page changes. */
  lemma ShortCommandLine(m: Memory, host: nat, cmdline: seq<u8>)
    requires host % PAGE_SIZE == 0 && |cmdline| < PAGE_SIZE
    ensures OnlyPageChanges(m, WithCommandLine(m, host, cmdline), host)
    ensures HoldsString(At(WithCommandLine(m, host, cmdline), host), cmdline)
  {
    hide PageByte, WriteBytes;
    var m1 := WriteBytes(m, host, cmdline);
    var n := |cmdline|;
    RemainderIs(host + n, PAGE_SIZE, host / PAGE_SIZE, n);
    StaysInPage(m, host, cmdline);
    StaysInPage(m1, host + n, [0]);
    var m2 := WithCommandLine(m, host, cmdline);
    forall q: nat | q != host
      ensures SameAt(m, m2, q)
    {
      assert SameAt(m, m1, q) && SameAt(m1, m2, q);
    }
    forall k | 0 <= k <= n
      ensures PageByte(At(m2, host), k) == if k < n then cmdline[k] else 0
    {
      RemainderIs(host + k, PAGE_SIZE, host / PAGE_SIZE, k);
      WrittenBytes(m, host, cmdline, host + k);
      WrittenBytes(m1, host + n, [0], host + k);
    }
  }

  /** Storing a command line changes no other page, in every memory, exactly when it is shorter than a page. */
  lemma CommandLineStays(host: nat, n: nat)
    requires host % PAGE_SIZE == 0 && n <= PAGE_SIZE
    ensures n < PAGE_SIZE <==>
            forall m: Memory, cmdline: seq<u8> :: |cmdline| == n ==>
              OnlyPageChanges(m, WithCommandLine(m, host, cmdline), host)
  {
    hide PageByte, WriteBytes, WithCommandLine, HoldsString;
    if n < PAGE_SIZE {
      forall m: Memory, cmdline: seq<u8> | |cmdline| == n
        ensures OnlyPageChanges(m, WithCommandLine(m, host, cmdline), host)
      {
        ShortCommandLine(m, host, cmdline);
      }
    } else {
      var m: Memory, cmdline: seq<u8> := map[host + PAGE_SIZE := OnePage()], seq(n, i => 1);
      LongCommandLine(m, host, cmdline);
      assert !OnlyPageChanges(m, WithCommandLine(m, host, cmdline), host);
    }
  }

  /** A page whose first byte is 1. */
  function OnePage(): (p: Page)
    ensures PageByte(p, 0) == 1
  {
    ZERO_PAGE[0 := 1]
  }

  /** The zero behind a command line of PAGE_SIZE characters changes the next physical page. */
  lemma LongCommandLine(m: Memory, host: nat, cmdline: seq<u8>)
    requires host % PAGE_SIZE == 0 && |cmdline| == PAGE_SIZE && ByteAt(m, host + PAGE_SIZE) != 0
    ensures ByteAt(WithCommandLine(m, host, cmdline), host + PAGE_SIZE) == 0
    ensures !SameAt(m, WithCommandLine(m, host, cmdline), host + PAGE_SIZE)
  {
    hide PageByte, WriteBytes;
    var m1 := WriteBytes(m, host, cmdline);
    WrittenBytes(m, host, cmdline, host + PAGE_SIZE);
    WrittenBytes(m1, host + PAGE_SIZE, [0], host + PAGE_SIZE);
    assert (host + PAGE_SIZE) % PAGE_SIZE == 0;
  }

  // --- stores that leave the guest's memory ---------------------------------------------------------------

  /** The PML4 of a machine with guest memory links a table for guest page 0. */
  lemma RootLinksTable(id: nat, hosts: seq<nat>, s: Snapshot)
    requires EptIs(id, s) && GuestReady(id, hosts, s) && hosts != []
    ensures s.initialized && ROOT in s.tables && s.tables[ROOT] == s.eptp && Child(ROOT, 0) in s.tables
  {
    hide Lookup, EptEntry;
    assert Mapping(s, 0) == Some(LeafHit(EptEntry(hosts[0])));
    MappingDecided(s.memory, s.tables, 0, 3);
    assert SlotOk(s.memory, s.tables, ROOT, 0);
  }

  /** Without the low byte of its first entry that PML4 is broken. */
  lemma ClearedEntryBreaks(id: nat, hosts: seq<nat>, s: Snapshot, m: Memory)
    requires EptIs(id, s) && GuestReady(id, hosts, s) && hosts != [] && ByteAt(m, s.eptp) == 0
    ensures !EptIs(id, s.(memory := m))
  {
    hide GuestReady;
    RootLinksTable(id, hosts, s);
    assert IsPage(s.eptp);
    var e := At(m, s.eptp)[0];
    assert e % 256 == 0;
    assert !Present(e);
    assert Tree(m, s.tables) ==> SlotOk(m, s.tables, ROOT, 0);
  }

  /** A guest page is none of the tables. */
  lemma HostIsNoTable(id: nat, hosts: seq<nat>, s: Snapshot, k: nat)
    requires EptIs(id, s) && GuestReady(id, hosts, s) && k < |hosts|
    ensures hosts[k] != s.eptp && hosts[k] % PAGE_SIZE == 0
  {
    hide Mapping, EptEntry, Tree;
    ReadyOwns(id, hosts, s, k);
    RootLinksTable(id, hosts, s);
    assert Owns(s.owner, LiveEpt(id), s.tables[ROOT]);
  }

  /** The failing inputs for the command line: with PAGE_SIZE characters, on any machine whose PML4 lies behind the
      command line page, the zero breaks the EPT. */
  lemma CommandLineBreaksEpt(id: nat, hosts: seq<nat>, s: Snapshot, zeropage: Page, cmdline: seq<u8>)
    requires EptIs(id, s) && GuestReady(id, hosts, s) && |hosts| >= SETUP_PAGES
    requires |cmdline| == PAGE_SIZE && hosts[|hosts| - 516] + PAGE_SIZE == s.eptp
    ensures !EptIs(id, s.(memory := WithSetup(s.memory, hosts, zeropage, cmdline)))
  {
    hide EptIs, GuestReady, WriteBytes, PageByte;
    HostIsNoTable(id, hosts, s, |hosts| - 516);
    HostIsNoTable(id, hosts, s, |hosts| - 515);
    var host := hosts[|hosts| - 516];
    var m1 := WriteBytes(s.memory, host, cmdline);
    WrittenBytes(m1, host + PAGE_SIZE, [0], host + PAGE_SIZE);
    assert s.eptp % PAGE_SIZE == 0;
    ClearedEntryBreaks(id, hosts, s, WithSetup(s.memory, hosts, zeropage, cmdline));
  }

  /** The failing inputs for the copy: on any machine whose PML4 lies behind the host page of the preferred address,
      a kernel that is not contained breaks the EPT in the first turn when the byte that comes to lie there is 0. */
  lemma KernelCopyBreaksEpt(id: nat, hosts: seq<nat>, s: Snapshot, address: u64, kernel: seq<u8>)
    requires EptIs(id, s) && GuestReady(id, hosts, s) && !Contained(address, |kernel|)
    requires FirstPage(address) < |hosts| && hosts[FirstPage(address)] + PAGE_SIZE == s.eptp
    requires kernel[PAGE_SIZE - address % PAGE_SIZE] == 0
    ensures var copied := CopyPages(s.memory, s.initialized, s.eptp, address, kernel, 1);
            copied.Some? && !EptIs(id, s.(memory := copied.value))
  {
    hide EptIs, GuestReady, WriteBytes, PageByte, KernelPage, GetHostPhysicalAddress, Mapping;
    HostIsNoTable(id, hosts, s, FirstPage(address));
    HostOfReady(id, hosts, s, address);
    FirstTurn(s.memory, s.initialized, s.eptp, address, kernel);
    var offset, pa := address % PAGE_SIZE, hosts[FirstPage(address)] + address % PAGE_SIZE;
    WrittenBytes(s.memory, pa, KernelPage(kernel, 0), s.eptp);
    assert KernelPage(kernel, 0)[PAGE_SIZE - offset] == kernel[PAGE_SIZE - offset];
    ClearedEntryBreaks(id, hosts, s, WriteBytes(s.memory, pa, KernelPage(kernel, 0)));
  }

  lemma FirstTurn(m: Memory, initialized: bool, eptp: nat, address: u64, kernel: seq<u8>)
    requires kernel != [] && GetHostPhysicalAddress(m, initialized, eptp, address).Some?
    ensures CopyPages(m, initialized, eptp, address, kernel, 1)
            == Some(WriteBytes(m, GetHostPhysicalAddress(m, initialized, eptp, address).value, KernelPage(kernel, 0)))
  {
    hide KernelPage, GetHostPhysicalAddress, WriteBytes;
    PageAddressAt(address, 0);
    assert CopyPages(m, initialized, eptp, address, kernel, 0) == Some(m);
  }

  // --- vm_guest_linux_loader ------------------------------------------------------------------------

  /** Everything the loader checks before it stores anything beside the page tables, for a machine with n pages. */
  predicate Prepares(n: u64, cr3: nat, used: nat, imageSize: u64, h: KernelHeader, cmdlineLength: nat) {
    && cr3 == 0 && used == 0 && h.hasMagic && h.is64Bit
    && n >= SETUP_PAGES && CheckPasses(n, SETUP_PAGES, imageSize)
    && cmdlineLength <= h.cmdlineSize && cmdlineLength <= PAGE_SIZE
  }

  /** The PANICs of the loader, and its division by zero. */
  predicate LoaderPanic(reason: PanicReason) {
    reason in {PagingAlreadySetUp, NoGuestMemory, SetupAlreadyStarted, EptWalkFailed, BadKernelImage, KernelDoesNotFit,
               CmdlineTooLong, DivideError, MisalignedKernel}
  }

  /** The guest pages that the kernel needs exist. */
  predicate Fits(n: nat, address: u64, size: nat) {
    size == 0 || FirstPage(address) + PagesOf(size) <= n
  }

  /** The protected-mode part of the image, as the loader measures it: an image that ends before it starts gives a
      size that wraps around, and the bytes behind the image. */
  function KernelOf(image: seq<u8>, h: KernelHeader, behind: nat -> u8): (r: seq<u8>)
    requires |image| < TWO_64
    ensures |r| == Sub64(|image|, KernelOffset(h))
    ensures KernelOffset(h) <= |image| ==> r == image[KernelOffset(h)..]
  {
    seq(Sub64(|image|, KernelOffset(h)), k requires 0 <= k =>
      if KernelOffset(h) + k < |image| then image[KernelOffset(h) + k] else behind(KernelOffset(h) + k - |image|))
  }

  function KernelOffset(h: KernelHeader): nat {
    ((if h.setupSectors == 0 then 4 else h.setupSectors) + 1) * 512
  }

  /** A bzImage: a boot sector, the setup sectors, 4 when the header says 0, and the kernel. */
  ghost predicate IsImage(image: seq<u8>, h: KernelHeader, kernel: seq<u8>) {
    exists boot: seq<u8>, setup: seq<u8> ::
      && image == boot + setup + kernel && |boot| == 512
      && |setup| == 512 * if h.setupSectors == 0 then 4 else h.setupSectors
  }

  /** The loader finds the kernel of an image. */
  lemma KernelOfImage(image: seq<u8>, h: KernelHeader, kernel: seq<u8>, behind: nat -> u8)
    requires |image| < TWO_64 && IsImage(image, h, kernel)
    ensures KernelOf(image, h, behind) == kernel && KernelOffset(h) + |kernel| == |image|
  {
    var boot: seq<u8>, setup: seq<u8> :|
      && image == boot + setup + kernel && |boot| == 512
      && |setup| == 512 * if h.setupSectors == 0 then 4 else h.setupSectors;
    assert image[KernelOffset(h)..] == kernel;
  }

  /** The identity tables, the zero page and the command line are in place. */
  ghost predicate SetupIntact(id: nat, hosts: seq<nat>, s: Snapshot, zeropage: Page, cmdline: seq<u8>)
    requires |cmdline| < PAGE_SIZE
  {
    && IdentityBuilt(id, hosts, s) && |hosts| >= SETUP_PAGES
    && At(s.memory, hosts[|hosts| - 515]) == zeropage && HoldsString(At(s.memory, hosts[|hosts| - 516]), cmdline)
  }

  /** Memory after the zero page and the command line were stored. */
  function WithSetup(m: Memory, hosts: seq<nat>, zeropage: Page, cmdline: seq<u8>): Memory
    requires |hosts| >= SETUP_PAGES && |cmdline| <= PAGE_SIZE
  {
    WithCommandLine(m, hosts[|hosts| - 516], cmdline)[hosts[|hosts| - 515] := zeropage]
  }

  /** A page the loader may write: one of the n kernel pages from guest page first on, or a setup page. */
  ghost predicate LoaderPage(hosts: seq<nat>, first: nat, n: nat, p: nat) {
    exists k :: 0 <= k < |hosts| && hosts[k] == p && (first <= k < first + n || |hosts| - SETUP_PAGES <= k)
  }

  ghost predicate OnlyLoaded(m: Memory, m': Memory, hosts: seq<nat>, first: nat, n: nat) {
    forall p: nat :: !LoaderPage(hosts, first, n, p) ==> SameAt(m, m', p)
  }

  /** The tables live in the last 514 guest pages. */
  lemma IdentityFrame(id: nat, hosts: seq<nat>, s: Snapshot, s': Snapshot)
    requires IdentityBuilt(id, hosts, s) && GuestReady(id, hosts, s')
    requires forall k :: |hosts| - 514 <= k < |hosts| ==> SameAt(s.memory, s'.memory, hosts[k])
    ensures IdentityBuilt(id, hosts, s')
  {
    hide GuestReady, TableEntry, DirectoryEntry;
    forall j: nat | j < PAGE_TABLE_ENTRIES
      ensures DirectoryLinked(s'.memory, hosts, j)
    {
      assert DirectoryLinked(s.memory, hosts, j);
      assert SameAt(s.memory, s'.memory, hosts[|hosts| - 3 - j]) && SameAt(s.memory, s'.memory, hosts[|hosts| - 2]);
    }
    assert SameAt(s.memory, s'.memory, hosts[|hosts| - 1]);
  }

  /** The setup lives in the last 516 guest pages. */
  lemma SetupFrame(id: nat, hosts: seq<nat>, s: Snapshot, s': Snapshot, zeropage: Page, cmdline: seq<u8>)
    requires |cmdline| < PAGE_SIZE && SetupIntact(id, hosts, s, zeropage, cmdline) && GuestReady(id, hosts, s')
    requires forall k :: |hosts| - 516 <= k < |hosts| ==> SameAt(s.memory, s'.memory, hosts[k])
    ensures SetupIntact(id, hosts, s', zeropage, cmdline)
  {
    hide GuestReady, RootDone, DirectoriesDone, HoldsString;
    IdentityFrame(id, hosts, s, s');
    assert SameAt(s.memory, s'.memory, hosts[|hosts| - 515]) && SameAt(s.memory, s'.memory, hosts[|hosts| - 516]);
  }

  /** A copy that is clear of the setup pages leaves them intact. */
  lemma ClearCopyKeepsSetup(id: nat, hosts: seq<nat>, s: Snapshot, s': Snapshot, zeropage: Page, cmdline: seq<u8>,
                            first: nat, n: nat)
    requires |cmdline| < PAGE_SIZE && SetupIntact(id, hosts, s, zeropage, cmdline) && GuestReady(id, hosts, s')
    requires ClearOfSetup(|hosts|, first, n) && OnlyKernelPages(s.memory, s'.memory, hosts, first, n)
    ensures SetupIntact(id, hosts, s', zeropage, cmdline)
  {
    hide GuestReady, SetupIntact;
    ReadyIsDistinct(id, hosts, s');
    forall k | |hosts| - 516 <= k < |hosts|
      ensures SameAt(s.memory, s'.memory, hosts[k])
    {
      assert !KernelHost(hosts, first, n, hosts[k]);
    }
    SetupFrame(id, hosts, s, s', zeropage, cmdline);
  }

  /** One more setup page, counted down from the end of guest memory. */
  method NextSetupPage(hv: Hypervisor, vm: Vm, ghost hosts: seq<nat>) returns (r: Outcome<nat>)
    requires hv.Valid() && vm in hv.vms && GuestReady(vm.id, hosts, Snap(hv, vm))
    requires |hosts| == vm.guestPhysicalPages <= MAX_PAGES && 0 < vm.guestPhysicalPages
             && vm.usedByInitialSetup < SETUP_PAGES
    modifies vm`usedByInitialSetup
    ensures vm.usedByInitialSetup == old(vm.usedByInitialSetup) + 1
    ensures r
            == if vm.usedByInitialSetup <= |hosts| then Ok(hosts[|hosts| - vm.usedByInitialSetup])
               else Panic(EptWalkFailed)
  {
    hide Hypervisor.Valid, GuestReady;
    var gpa := (vm.guestPhysicalPages - vm.usedByInitialSetup - 1) * PAGE_SIZE % TWO_64;
    vm.usedByInitialSetup := vm.usedByInitialSetup + 1;
    SetupAddress(|hosts|, vm.usedByInitialSetup);
    r := HostPage(hv, vm, gpa, hosts);
  }

  lemma SetupAddress(n: nat, back: nat)
    requires 0 < n <= MAX_PAGES && 0 < back <= SETUP_PAGES
    ensures (n - back) * PAGE_SIZE % TWO_64 % SPACE / PAGE_SIZE
            == (if back <= n then n - back else MAX_PAGES + n - back)
    ensures (n - back) * PAGE_SIZE % TWO_64 % PAGE_SIZE == 0
  {
    if back <= n {
      InsideAddress(n - back);
    } else {
      WrappedAddress(back - n);
      assert (n - back) * PAGE_SIZE == -(back - n) * PAGE_SIZE;
    }
  }

  lemma InsideAddress(page: nat)
    requires page < MAX_PAGES
    ensures page * PAGE_SIZE % TWO_64 % SPACE / PAGE_SIZE == page && page * PAGE_SIZE % TWO_64 % PAGE_SIZE == 0
  {
    var x := page * PAGE_SIZE;
    IntRemainderIs(x, TWO_64, 0, x);
    IntRemainderIs(x, SPACE, 0, x);
    RemainderIs(x, PAGE_SIZE, page, 0);
  }

  lemma WrappedAddress(pages: int)
    requires 0 < pages <= SETUP_PAGES
    ensures -pages * PAGE_SIZE % TWO_64 % SPACE / PAGE_SIZE == MAX_PAGES - pages
    ensures -pages * PAGE_SIZE % TWO_64 % PAGE_SIZE == 0
  {
    var x: int := pages * PAGE_SIZE;
    IntRemainderIs(-x, TWO_64, -1, TWO_64 - x);
    IntRemainderIs(TWO_64 - x, SPACE, TWO_64 / SPACE - 1, SPACE - x);
    RemainderIs(TWO_64 - x, PAGE_SIZE, TWO_64 / PAGE_SIZE - pages, 0);
    RemainderIs(SPACE - x, PAGE_SIZE, MAX_PAGES - pages, 0);
  }

  lemma SetupElsewhere(m: Memory, hosts: seq<nat>, zeropage: Page, cmdline: seq<u8>, q: nat)
    requires |hosts| >= SETUP_PAGES && |cmdline| < PAGE_SIZE && hosts[|hosts| - 516] % PAGE_SIZE == 0
    requires q != hosts[|hosts| - 516] && q != hosts[|hosts| - 515]
    ensures SameAt(m, WithSetup(m, hosts, zeropage, cmdline), q)
  {
    hide WithCommandLine, HoldsString;
    ShortCommandLine(m, hosts[|hosts| - 516], cmdline);
    assert SameAt(m, WithCommandLine(m, hosts[|hosts| - 516], cmdline), q);
  }

  /** The setup after both stores, for a command line shorter than its page. */
  lemma SetupStored(id: nat, hosts: seq<nat>, s: Snapshot, s': Snapshot, zeropage: Page, cmdline: seq<u8>)
    requires IdentityBuilt(id, hosts, s) && GuestReady(id, hosts, s') && |hosts| >= SETUP_PAGES && |cmdline| < PAGE_SIZE
    requires s'.memory == WithSetup(s.memory, hosts, zeropage, cmdline)
    ensures SetupIntact(id, hosts, s', zeropage, cmdline)
  {
    hide GuestReady, TableEntry, DirectoryEntry, HoldsString, WithCommandLine;
    ReadyIsDistinct(id, hosts, s');
    ReadyOwns(id, hosts, s', |hosts| - 516);
    ShortCommandLine(s.memory, hosts[|hosts| - 516], cmdline);
    forall k | |hosts| - 514 <= k < |hosts|
      ensures SameAt(s.memory, s'.memory, hosts[k])
    {
      SetupElsewhere(s.memory, hosts, zeropage, cmdline, hosts[k]);
    }
    forall j: nat | j < PAGE_TABLE_ENTRIES
      ensures DirectoryLinked(s'.memory, hosts, j)
    {
      assert DirectoryLinked(s.memory, hosts, j);
      assert SameAt(s.memory, s'.memory, hosts[|hosts| - 3 - j]) && SameAt(s.memory, s'.memory, hosts[|hosts| - 2]);
    }
    assert SameAt(s.memory, s'.memory, hosts[|hosts| - 1]);
  }

  lemma OnlySetupWritten(m0: Memory, m: Memory, hosts: seq<nat>, zeropage: Page, cmdline: seq<u8>)
    requires |hosts| >= SETUP_PAGES && TailOnly(m0, m, hosts, |hosts| - 514) && |cmdline| < PAGE_SIZE
    requires hosts[|hosts| - 516] % PAGE_SIZE == 0
    ensures OnlyLoaded(m0, WithSetup(m, hosts, zeropage, cmdline), hosts, 0, 0)
    ensures forall p: nat :: p !in hosts ==> SameAt(m, WithSetup(m, hosts, zeropage, cmdline), p)
  {
    hide WithSetup;
    var m' := WithSetup(m, hosts, zeropage, cmdline);
    forall p: nat | p !in hosts
      ensures SameAt(m, m', p)
    {
      SetupElsewhere(m, hosts, zeropage, cmdline, p);
    }
    forall p: nat | !LoaderPage(hosts, 0, 0, p)
      ensures SameAt(m0, m', p)
    {
      assert p !in hosts[|hosts| - SETUP_PAGES..];
      assert hosts[|hosts| - 514..] == hosts[|hosts| - SETUP_PAGES..][2..];
      assert hosts[|hosts| - 516] != p && hosts[|hosts| - 515] != p;
      SetupElsewhere(m, hosts, zeropage, cmdline, p);
      assert SameAt(m0, m, p) && SameAt(m, m', p);
    }
  }

  lemma OnlyKernelWritten(m0: Memory, m: Memory, m': Memory, hosts: seq<nat>, first: nat, n: nat)
    requires OnlyLoaded(m0, m, hosts, 0, 0) && OnlyKernelPages(m, m', hosts, first, n)
    ensures OnlyLoaded(m0, m', hosts, first, n)
  {
    forall p: nat | !LoaderPage(hosts, first, n, p)
      ensures SameAt(m0, m', p)
    {
      assert !LoaderPage(hosts, 0, 0, p) && !KernelHost(hosts, first, n, p);
      assert SameAt(m0, m, p) && SameAt(m, m', p);
    }
  }

  /** Storing the zero page and the command line. The state stays valid when the command line is shorter than
      its page. */
  method StoreSetup(hv: Hypervisor, vm: Vm, cmdlineHost: nat, zeropageHost: nat, zeropage: Page, cmdline: seq<u8>,
                    ghost hosts: seq<nat>)
    requires hv.Valid() && vm in hv.vms && IdentityBuilt(vm.id, hosts, Snap(hv, vm))
    requires |hosts| >= SETUP_PAGES && cmdlineHost == hosts[|hosts| - 516] && zeropageHost == hosts[|hosts| - 515]
    requires |cmdline| <= PAGE_SIZE
    modifies hv`memory
    ensures hv.memory == WithSetup(old(hv.memory), hosts, zeropage, cmdline)
    ensures |cmdline| < PAGE_SIZE ==> hv.Valid() && SetupIntact(vm.id, hosts, Snap(hv, vm), zeropage, cmdline)
    ensures |cmdline| == PAGE_SIZE && cmdlineHost + PAGE_SIZE == vm.eptp ==> !hv.Valid()
  {
    hide Hypervisor.ValidFor, RootDone, DirectoriesDone, Mapping, WriteBytes, SetupIntact, EptEntry, OnlyLoaded;
    ghost var s := Snap(hv, vm);
    PartsOf(hv, vm);
    hv.memory := WriteBytes(hv.memory, cmdlineHost, cmdline);
    hv.memory := WriteBytes(hv.memory, cmdlineHost + |cmdline|, [0]);
    hv.memory := hv.memory[zeropageHost := zeropage];
    if |cmdline| < PAGE_SIZE {
      ReadyOwns(vm.id, hosts, s, |hosts| - 516);
      TailOfItself(s.memory, hosts);
      OnlySetupWritten(s.memory, s.memory, hosts, zeropage, cmdline);
      ReadyKept(vm.id, hosts, s, hv.memory);
      StillValid(hv, vm, s.memory, hosts);
      SetupStored(vm.id, hosts, s, Snap(hv, vm), zeropage, cmdline);
    } else if cmdlineHost + PAGE_SIZE == vm.eptp {
      EptPart(hv, vm, s.memory);
      CommandLineBreaksEpt(vm.id, hosts, s, zeropage, cmdline);
      if hv.Valid() {
        EptPart(hv, vm, hv.memory);
      }
    }
  }

  lemma TailOfItself(m: Memory, hosts: seq<nat>)
    requires |hosts| >= SETUP_PAGES
    ensures TailOnly(m, m, hosts, |hosts| - 514)
  {
  }

  /** Writes to the host pages of a machine keep the state valid. */
  lemma StillValid(hv: Hypervisor, vm: Vm, m: Memory, hosts: seq<nat>)
    requires hv.ValidFor(m) && vm in hv.vms && GuestReady(vm.id, hosts, Snap(hv, vm).(memory := m))
    requires forall p: nat :: p !in hosts ==> SameAt(m, hv.memory, p)
    ensures hv.Valid()
  {
    hide InChainload, BootOk, ArenaList.Valid, OwnersOk, ArenaOwners, VmOk, Mapping, EptEntry;
    forall p: nat | p in hv.owner && !hv.owner[p].GuestMemory?
      ensures SameAt(m, hv.memory, p)
    {
      assert p in hosts ==> Owns(hv.owner, GuestMemory(vm.id), p);
    }
    GuestWrites(hv.vms, m, hv.memory, hv.owner);
  }

  /** The first part of vm_guest_linux_loader: paging, the two setup pages and every check but the
      alignment. built is memory as the identity mapping left it. */
  method PrepareGuest(hv: Hypervisor, vm: Vm, imageSize: u64, h: KernelHeader, zeropage: Page, cmdline: seq<u8>,
                      ghost hosts: seq<nat>)
    returns (r: Outcome<()>, ghost built: Memory)
    requires hv.Valid() && vm in hv.vms && GuestReady(vm.id, hosts, Snap(hv, vm))
    requires |hosts| == vm.guestPhysicalPages <= MAX_PAGES
    modifies hv`memory, vm`usedByInitialSetup, vm`cr3
    ensures r.Ok? <==> Prepares(vm.guestPhysicalPages, old(vm.cr3), old(vm.usedByInitialSetup), imageSize, h, |cmdline|)
    ensures r.Panic? ==> LoaderPanic(r.reason)
    ensures r.Ok? ==>
              && vm.usedByInitialSetup == SETUP_PAGES && vm.cr3 == (vm.guestPhysicalPages - 1) * PAGE_SIZE
              && |hosts| >= SETUP_PAGES && IdentityBuilt(vm.id, hosts, Snap(hv, vm).(memory := built))
              && TailOnly(old(hv.memory), built, hosts, |hosts| - 514)
              && hv.memory == WithSetup(built, hosts, zeropage, cmdline)
    ensures r.Ok? && |cmdline| < PAGE_SIZE ==>
              && hv.Valid() && SetupIntact(vm.id, hosts, Snap(hv, vm), zeropage, cmdline)
              && OnlyLoaded(old(hv.memory), hv.memory, hosts, 0, 0)
  {
    hide OnlyLoaded, Hypervisor.Valid, GuestReady, SetupIntact, TailOnly, GetGuestPhysicalAddress, RootDone,
      DirectoriesDone, WithSetup;
    built := hv.memory;
    if vm.cr3 != 0 {
      r := Panic(PagingAlreadySetUp);
      return;
    }
    var cr3 := SetupIdentity(hv, vm, hosts);
    if cr3.Panic? {
      r := cr3.PropagateFailure();
      return;
    }
    vm.cr3 := cr3.value;
    if !h.hasMagic || !h.is64Bit {
      r := Panic(BadKernelImage);
      return;
    }
    var zeropageHost := NextSetupPage(hv, vm, hosts);
    if zeropageHost.Panic? {
      r := zeropageHost.PropagateFailure();
      return;
    }
    var cmdlineHost := NextSetupPage(hv, vm, hosts);
    if cmdlineHost.Panic? {
      r := cmdlineHost.PropagateFailure();
      return;
    }
    var n, used := vm.guestPhysicalPages, vm.usedByInitialSetup;
    if n <= PREFERRED_ADDRESS / PAGE_SIZE
       || Sub64(Sub64(n, used), PREFERRED_ADDRESS / PAGE_SIZE) <= imageSize / PAGE_SIZE {
      r := Panic(KernelDoesNotFit);
      return;
    }
    if |cmdline| > h.cmdlineSize || |cmdline| > PAGE_SIZE {
      r := Panic(CmdlineTooLong);
      return;
    }
    built := hv.memory;
    StoreSetup(hv, vm, cmdlineHost.value, zeropageHost.value, zeropage, cmdline, hosts);
    if |cmdline| < PAGE_SIZE {
      ReadyOwns(vm.id, hosts, Snap(hv, vm).(memory := built), |hosts| - 516);
      OnlySetupWritten(old(hv.memory), built, hosts, zeropage, cmdline);
    }
    r := Ok(());
  }

  lemma KernelCopied(hv: Hypervisor, vm: Vm, m: Memory, kernel: seq<u8>, address: u64, hosts: seq<nat>)
    requires hv.ValidFor(m) && vm in hv.vms && GuestReady(vm.id, hosts, Snap(hv, vm).(memory := m))
    requires Placed(address, |kernel|)
    ensures var copied := CopyPages(m, vm.eptInitialized, vm.eptp, address, kernel, PagesOf(|kernel|));
            && (copied.Some? <==> Fits(|hosts|, address, |kernel|))
            && (copied.Some? && hv.memory == copied.value ==>
                  && hv.Valid() && GuestReady(vm.id, hosts, Snap(hv, vm))
                  && OnlyKernelPages(m, hv.memory, hosts, FirstPage(address), PagesOf(|kernel|))
                  && ReadableUpTo(Snap(hv, vm), address, kernel, |kernel|))
  {
    hide Hypervisor.Valid, Hypervisor.ValidFor, CopyPages, GuestReady, GuestByte, FirstPage;
    var s, n := Snap(hv, vm).(memory := m), PagesOf(|kernel|);
    EptPart(hv, vm, m);
    CopySucceeds(vm.id, hosts, s, address, kernel, n);
    var copied := CopyPages(m, vm.eptInitialized, vm.eptp, address, kernel, n);
    if copied.Some? && hv.memory == copied.value {
      assert s.(memory := copied.value) == Snap(hv, vm);
      assert ReadableUpTo(Snap(hv, vm), address, kernel, |kernel|);
      forall p: nat | p !in hosts
        ensures SameAt(m, hv.memory, p)
      {
        assert !KernelHost(hosts, FirstPage(address), n, p);
      }
      StillValid(hv, vm, m, hosts);
    }
  }

  lemma EptPart(hv: Hypervisor, vm: Vm, m: Memory)
    requires hv.ValidFor(m) && vm in hv.vms
    ensures EptIs(vm.id, Snap(hv, vm).(memory := m))
  {
    hide Tree, InChainload;
    VmParts(vm, m, hv.owner);
  }

  /** The copy loop. What it leaves in memory is CopyPages; for a kernel that is placed, on a machine in a valid
      state, that is the kernel at its address and nothing else. */
  method CopyKernel(hv: Hypervisor, vm: Vm, kernel: seq<u8>, address: u64, ghost hosts: seq<nat>)
    returns (r: Outcome<()>)
    requires vm in hv.vms
    modifies hv`memory
    ensures var copied := CopyPages(old(hv.memory), vm.eptInitialized, vm.eptp, address, kernel, PagesOf(|kernel|));
            r == (if copied.Some? then Ok(()) else Panic(EptWalkFailed)) && (r.Ok? ==> hv.memory == copied.value)
    ensures old(hv.Valid() && GuestReady(vm.id, hosts, Snap(hv, vm))) && Placed(address, |kernel|) ==>
              && (r.Ok? <==> Fits(|hosts|, address, |kernel|))
              && (r.Ok? ==>
                    && hv.Valid() && GuestReady(vm.id, hosts, Snap(hv, vm))
                    && OnlyKernelPages(old(hv.memory), hv.memory, hosts, FirstPage(address), PagesOf(|kernel|))
                    && ReadableUpTo(Snap(hv, vm), address, kernel, |kernel|))
  {
    hide CopyPages, GetHostPhysicalAddress, WriteBytes, KernelPage, GuestReady, Hypervisor.ValidFor, Placed,
      ReadableUpTo, OnlyKernelPages;
    ghost var m := hv.memory;
    ghost var ready := hv.ValidFor(m) && GuestReady(vm.id, hosts, Snap(hv, vm)) && Placed(address, |kernel|);
    var pages := |kernel| / PAGE_SIZE + if |kernel| % PAGE_SIZE == 0 then 0 else 1;
    CopyStarts(m, vm.eptInitialized, vm.eptp, address, kernel);
    for page := 0 to pages
      invariant CopyPages(m, vm.eptInitialized, vm.eptp, address, kernel, page) == Some(hv.memory)
    {
      CopyGoesOn(m, vm.eptInitialized, vm.eptp, address, kernel, page, pages);
      var host := GetHostPhysicalAddress(hv.memory, vm.eptInitialized, vm.eptp, PageAddress(address, page));
      if host.None? {
        if ready {
          KernelCopied(hv, vm, m, kernel, address, hosts);
        }
        return Panic(EptWalkFailed);
      }
      hv.memory := WriteBytes(hv.memory, host.value, KernelPage(kernel, page));
    }
    if ready {
      KernelCopied(hv, vm, m, kernel, address, hosts);
    }
    return Ok(());
  }

  lemma CopyStarts(m: Memory, initialized: bool, eptp: nat, address: u64, kernel: seq<u8>)
    ensures CopyPages(m, initialized, eptp, address, kernel, 0) == Some(m)
  {
  }

  lemma {:induction false} CopyGoesOn(m: Memory, initialized: bool, eptp: nat, address: u64, kernel: seq<u8>,
                                      page: nat, pages: nat)
    requires page < pages <= PagesOf(|kernel|)
    ensures var before := CopyPages(m, initialized, eptp, address, kernel, page);
            before.Some? ==>
              var host := GetHostPhysicalAddress(before.value, initialized, eptp, PageAddress(address, page));
              if host.None? then CopyPages(m, initialized, eptp, address, kernel, pages) == None
              else CopyPages(m, initialized, eptp, address, kernel, page + 1)
                   == Some(WriteBytes(before.value, host.value, KernelPage(kernel, page)))
  {
    hide GetHostPhysicalAddress, WriteBytes, KernelPage;
    if pages > page + 1 {
      CopyGoesOn(m, initialized, eptp, address, kernel, page, pages - 1);
    }
  }

  /** The preferred address is a multiple of the alignment; dividing by zero faults. */
  predicate Aligned(h: KernelHeader) {
    h.kernelAlignment > 0 && h.prefAddress % h.kernelAlignment == 0
  }

  /** The byte the guest reads at a linear address, through its own tables and the EPT. */
  function LinearByte(m: Memory, initialized: bool, eptp: nat, cr3: u64, la: nat): Option<u8> {
    match GetGuestPhysicalAddress(m, initialized, eptp, cr3, la)
    case None => None
    case Some(g) => GuestByte(m, initialized, eptp, g)
  }

  /** The guest, once its paging is on, reads the kernel at its address. */
  ghost predicate RunsOn(s: Snapshot, cr3: u64, address: u64, kernel: seq<u8>) {
    forall k: nat :: k < |kernel| && address + k < Span(3) ==>
      LinearByte(s.memory, s.initialized, s.eptp, cr3, address + k) == Some(kernel[k])
  }

  lemma ReadsThroughOwnTables(id: nat, hosts: seq<nat>, s: Snapshot, address: u64, kernel: seq<u8>)
    requires IdentityBuilt(id, hosts, s) && ReadableUpTo(s, address, kernel, |kernel|)
    ensures RunsOn(s, (|hosts| - 1) * PAGE_SIZE, address, kernel)
  {
    hide IdentityBuilt, GuestByte, GetGuestPhysicalAddress;
    TablesExist(id, hosts, s);
    forall k: nat | k < |kernel| && address + k < Span(3)
      ensures LinearByte(s.memory, s.initialized, s.eptp, (|hosts| - 1) * PAGE_SIZE, address + k) == Some(kernel[k])
    {
      IdentityWalk(id, hosts, s, address + k);
    }
  }

  function PageBytes(page: Page): (r: seq<u8>)
    ensures |r| == PAGE_SIZE && forall k :: 0 <= k < PAGE_SIZE ==> r[k] == PageByte(page, k)
  {
    seq(PAGE_SIZE, k requires 0 <= k < PAGE_SIZE => PageByte(page, k))
  }

  /** The guest reads its page number i, or the first bytes of it. */
  lemma PageIsRead(id: nat, hosts: seq<nat>, s: Snapshot, i: nat, bytes: seq<u8>)
    requires GuestReady(id, hosts, s) && i < |hosts| <= MAX_PAGES && |bytes| <= PAGE_SIZE && i * PAGE_SIZE < TWO_64
    requires forall k :: 0 <= k < |bytes| ==> PageByte(At(s.memory, hosts[i]), k) == bytes[k]
    ensures ReadableUpTo(s, i * PAGE_SIZE, bytes, |bytes|)
  {
    hide GuestReady, GetHostPhysicalAddress, PageByte;
    ReadyOwns(id, hosts, s, i);
    forall k: nat | k < |bytes|
      ensures GuestByte(s.memory, s.initialized, s.eptp, i * PAGE_SIZE + k) == Some(bytes[k])
    {
      var g := i * PAGE_SIZE + k;
      HostOfReady(id, hosts, s, g);
      RemainderIs(g, SPACE, 0, g);
      RemainderIs(g, PAGE_SIZE, i, k);
      RemainderIs(hosts[i] + k, PAGE_SIZE, hosts[i] / PAGE_SIZE, k);
    }
  }

  /** The guest reads the zero page and the command line. */
  lemma SetupIsRead(id: nat, hosts: seq<nat>, s: Snapshot, zeropage: Page, cmdline: seq<u8>)
    requires |cmdline| < PAGE_SIZE && SetupIntact(id, hosts, s, zeropage, cmdline)
    ensures SETUP_PAGES <= |hosts| <= MAX_PAGES
    ensures RunsOn(s, (|hosts| - 1) * PAGE_SIZE, (|hosts| - 515) * PAGE_SIZE, PageBytes(zeropage))
    ensures RunsOn(s, (|hosts| - 1) * PAGE_SIZE, (|hosts| - 516) * PAGE_SIZE, cmdline + [0])
  {
    hide GuestReady, RootDone, DirectoriesDone, ReadableUpTo, RunsOn, PageByte;
    PageIsRead(id, hosts, s, |hosts| - 515, PageBytes(zeropage));
    PageIsRead(id, hosts, s, |hosts| - 516, cmdline + [0]);
    ReadsThroughOwnTables(id, hosts, s, (|hosts| - 515) * PAGE_SIZE, PageBytes(zeropage));
    ReadsThroughOwnTables(id, hosts, s, (|hosts| - 516) * PAGE_SIZE, cmdline + [0]);
  }

  lemma TablesExist(id: nat, hosts: seq<nat>, s: Snapshot)
    requires IdentityBuilt(id, hosts, s)
    ensures 514 <= |hosts| <= MAX_PAGES
  {
  }

  /** vm_guest_linux_loader. In every case memory ends as the identity mapping left it, plus the setup pages, plus
      the copy. When the command line is shorter than its page and the kernel is placed, the loader succeeds exactly
      when all its checks hold and the kernel fits; the guest then reads the kernel at its preferred address, byte by
      byte, and nothing but kernel and setup pages was written. When the kernel is clear of the setup, which for the
      usual 16 MiB address holds exactly from 4096 + 516 pages on, the setup survives, and the guest reads the kernel
      at linear addresses, too, through the CR3 it starts with. An image that ends before its kernel starts makes the
      copy run until the EPT walk fails. behind are the bytes that the loader finds behind the image. */
  method LoadLinux(hv: Hypervisor, vm: Vm, image: seq<u8>, behind: nat -> u8, h: KernelHeader, zeropage: Page,
                   cmdline: seq<u8>, ghost hosts: seq<nat>)
    returns (r: Outcome<()>, ghost built: Memory)
    requires hv.Valid() && vm in hv.vms && GuestReady(vm.id, hosts, Snap(hv, vm))
    requires |hosts| == vm.guestPhysicalPages <= MAX_PAGES && |image| < TWO_64
    modifies hv`memory, vm`usedByInitialSetup, vm`cr3
    ensures r.Ok? ==>
              && Prepares(vm.guestPhysicalPages, old(vm.cr3), old(vm.usedByInitialSetup), |image|, h, |cmdline|)
              && Aligned(h)
              && vm.usedByInitialSetup == SETUP_PAGES && vm.cr3 == (vm.guestPhysicalPages - 1) * PAGE_SIZE
              && IdentityBuilt(vm.id, hosts, Snap(hv, vm).(memory := built)) && |hosts| >= SETUP_PAGES
              && TailOnly(old(hv.memory), built, hosts, |hosts| - 514)
              && CopyPages(WithSetup(built, hosts, zeropage, cmdline), vm.eptInitialized, vm.eptp, h.prefAddress,
                           KernelOf(image, h, behind), PagesOf(|KernelOf(image, h, behind)|)) == Some(hv.memory)
    ensures |cmdline| < PAGE_SIZE && Placed(h.prefAddress, |KernelOf(image, h, behind)|) ==>
              && (r.Ok? <==>
                    && Prepares(vm.guestPhysicalPages, old(vm.cr3), old(vm.usedByInitialSetup), |image|, h, |cmdline|)
                    && Aligned(h) && Fits(vm.guestPhysicalPages, h.prefAddress, |KernelOf(image, h, behind)|))
              && (r.Ok? ==>
                    && hv.Valid()
                    && LinuxLoaded(vm.id, hosts, old(hv.memory), Snap(hv, vm), vm.cr3, h.prefAddress,
                                   KernelOf(image, h, behind), zeropage, cmdline))
    ensures r.Ok? && |cmdline| < PAGE_SIZE ==>
              forall kernel :: IsImage(image, h, kernel) && Placed(h.prefAddress, |kernel|) ==>
                forall k: nat :: k < |kernel| ==>
                  GuestByte(hv.memory, vm.eptInitialized, vm.eptp, h.prefAddress + k) == Some(kernel[k])
    ensures |cmdline| < PAGE_SIZE && KernelOffset(h) > |image| && h.prefAddress % PAGE_SIZE == 0 ==> r.Panic?
    ensures r.Panic? ==> LoaderPanic(r.reason)
  {
    hide Hypervisor.Valid, GuestReady, ReadableUpTo, SetupIntact, OnlyKernelPages, CheckPasses, CopyPages, WithSetup,
      IdentityBuilt, TailOnly, Placed, Fits, LinuxLoaded, OnlyLoaded, IsImage, GuestByte;
    var prepared;
    prepared, built := PrepareGuest(hv, vm, |image|, h, zeropage, cmdline, hosts);
    if prepared.Panic? {
      r := prepared;
      return;
    }
    if h.kernelAlignment == 0 {
      r := Panic(DivideError);
      return;
    }
    if h.prefAddress % h.kernelAlignment != 0 {
      r := Panic(MisalignedKernel);
      return;
    }
    ghost var s := Snap(hv, vm);
    if |cmdline| < PAGE_SIZE {
      SetupIsReady(vm.id, hosts, s, zeropage, cmdline);
    }
    var kernel := KernelOf(image, h, behind);
    if |cmdline| < PAGE_SIZE && KernelOffset(h) > |image| && h.prefAddress % PAGE_SIZE == 0 {
      WrappedKernelFails(hv, vm, hosts, h.prefAddress, kernel);
    }
    r := CopyKernel(hv, vm, kernel, h.prefAddress, hosts);
    if r.Ok? && |cmdline| < PAGE_SIZE && Placed(h.prefAddress, |kernel|) {
      KernelLoaded(vm.id, hosts, old(hv.memory), s, Snap(hv, vm), h.prefAddress, kernel, zeropage, cmdline);
    }
    if r.Ok? && |cmdline| < PAGE_SIZE {
      KernelIsRead(Snap(hv, vm), image, behind, h);
    }
  }

  lemma KernelIsRead(s: Snapshot, image: seq<u8>, behind: nat -> u8, h: KernelHeader)
    requires |image| < TWO_64
    requires var kernel := KernelOf(image, h, behind);
             Placed(h.prefAddress, |kernel|) ==> ReadableUpTo(s, h.prefAddress, kernel, |kernel|)
    ensures forall kernel :: IsImage(image, h, kernel) && Placed(h.prefAddress, |kernel|) ==>
              forall k: nat :: k < |kernel| ==>
                GuestByte(s.memory, s.initialized, s.eptp, h.prefAddress + k) == Some(kernel[k])
  {
    hide GuestByte, Placed, IsImage, KernelOf;
    forall kernel | IsImage(image, h, kernel) && Placed(h.prefAddress, |kernel|)
      ensures forall k: nat :: k < |kernel| ==>
                GuestByte(s.memory, s.initialized, s.eptp, h.prefAddress + k) == Some(kernel[k])
    {
      KernelOfImage(image, h, kernel, behind);
    }
  }

  /** What the loader leaves: kernel and setup in guest memory, and nothing else changed. */
  ghost predicate LinuxLoaded(id: nat, hosts: seq<nat>, m0: Memory, s: Snapshot, cr3: u64, address: u64,
                              kernel: seq<u8>, zeropage: Page, cmdline: seq<u8>)
    requires |cmdline| < PAGE_SIZE
  {
    && GuestReady(id, hosts, s) && ReadableUpTo(s, address, kernel, |kernel|)
    && OnlyLoaded(m0, s.memory, hosts, FirstPage(address), PagesOf(|kernel|))
    && (ClearOfSetup(|hosts|, FirstPage(address), PagesOf(|kernel|)) ==>
          SetupIntact(id, hosts, s, zeropage, cmdline) && RunsOn(s, cr3, address, kernel))
  }

  lemma KernelLoaded(id: nat, hosts: seq<nat>, m0: Memory, s: Snapshot, s': Snapshot, address: u64, kernel: seq<u8>,
                     zeropage: Page, cmdline: seq<u8>)
    requires |cmdline| < PAGE_SIZE && SetupIntact(id, hosts, s, zeropage, cmdline)
    requires OnlyLoaded(m0, s.memory, hosts, 0, 0)
    requires GuestReady(id, hosts, s') && ReadableUpTo(s', address, kernel, |kernel|)
    requires OnlyKernelPages(s.memory, s'.memory, hosts, FirstPage(address), PagesOf(|kernel|))
    ensures |hosts| > 0
    ensures LinuxLoaded(id, hosts, m0, s', (|hosts| - 1) * PAGE_SIZE, address, kernel, zeropage, cmdline)
  {
    hide OnlyLoaded, GuestReady, ReadableUpTo, OnlyKernelPages, IdentityBuilt, HoldsString, FirstPage, RunsOn;
    OnlyKernelWritten(m0, s.memory, s'.memory, hosts, FirstPage(address), PagesOf(|kernel|));
    if ClearOfSetup(|hosts|, FirstPage(address), PagesOf(|kernel|)) {
      ClearCopyKeepsSetup(id, hosts, s, s', zeropage, cmdline, FirstPage(address), PagesOf(|kernel|));
      ReadsThroughOwnTables(id, hosts, s', address, kernel);
    }
  }

  /** Physical memory that the hypervisor can access has 2^27 pages. */
  lemma FewHosts(hv: Hypervisor, vm: Vm, hosts: seq<nat>)
    requires hv.Valid() && vm in hv.vms && GuestReady(vm.id, hosts, Snap(hv, vm))
    ensures |hosts| <= 0x800_0000
  {
    hide InChainload, VmOk, ArenaList.Valid, Mapping;
    var numbers := seq(|hosts|, k requires 0 <= k < |hosts| => hosts[k] / PAGE_SIZE);
    forall k | 0 <= k < |hosts|
      ensures numbers[k] < 0x800_0000 && hosts[k] % PAGE_SIZE == 0
    {
      assert Owns(hv.owner, GuestMemory(vm.id), hosts[k]);
    }
    DistinctBelow(numbers, 0x800_0000);
  }

  lemma {:induction false} DistinctBelow(numbers: seq<nat>, n: nat)
    requires forall j, k :: 0 <= j < k < |numbers| ==> numbers[j] != numbers[k]
    requires forall k :: 0 <= k < |numbers| ==> numbers[k] < n
    ensures |numbers| <= n
    decreases n
  {
    if numbers == [] {
    } else {
      assert numbers[0] < n;
      if k :| 0 <= k < |numbers| && numbers[k] == n - 1 {
        DistinctBelow(numbers[..k] + numbers[k + 1..], n - 1);
      } else {
        DistinctBelow(numbers, n - 1);
      }
    }
  }

  /** A size that wrapped around is larger than any guest. */
  lemma WrappedKernelFails(hv: Hypervisor, vm: Vm, hosts: seq<nat>, address: u64, kernel: seq<u8>)
    requires hv.Valid() && vm in hv.vms && GuestReady(vm.id, hosts, Snap(hv, vm))
    requires address % PAGE_SIZE == 0 && |kernel| >= SPACE
    ensures CopyPages(hv.memory, vm.eptInitialized, vm.eptp, address, kernel, PagesOf(|kernel|)).None?
  {
    hide Hypervisor.ValidFor, CopyPages, GuestReady;
    FewHosts(hv, vm, hosts);
    EptPart(hv, vm, hv.memory);
    var placed := kernel[..SPACE - address % SPACE];
    var n := PagesOf(|placed|);
    assert FirstPage(address) + n == MAX_PAGES;
    CopySucceeds(vm.id, hosts, Snap(hv, vm), address, placed, n);
    PrefixCopies(hv.memory, vm.eptInitialized, vm.eptp, address, kernel, |placed|, n);
    CopyStops(hv.memory, vm.eptInitialized, vm.eptp, address, kernel, n, PagesOf(|kernel|));
  }

  /** The first turns copy the first pages of the kernel. */
  lemma {:induction false} PrefixCopies(m: Memory, initialized: bool, eptp: nat, address: u64, kernel: seq<u8>,
                                        size: nat, n: nat)
    requires size <= |kernel| && size % PAGE_SIZE == 0 && n <= PagesOf(size)
    ensures n <= PagesOf(|kernel|)
    ensures CopyPages(m, initialized, eptp, address, kernel[..size], n)
            == CopyPages(m, initialized, eptp, address, kernel, n)
  {
    hide GetHostPhysicalAddress, WriteBytes, KernelPage;
    if n > 0 {
      PrefixCopies(m, initialized, eptp, address, kernel, size, n - 1);
      assert KernelPage(kernel[..size], n - 1) == KernelPage(kernel, n - 1);
    }
  }

  lemma {:induction false} CopyStops(m: Memory, initialized: bool, eptp: nat, address: u64, kernel: seq<u8>, n: nat,
                                     pages: nat)
    requires n <= pages <= PagesOf(|kernel|) && CopyPages(m, initialized, eptp, address, kernel, n).None?
    ensures CopyPages(m, initialized, eptp, address, kernel, pages).None?
  {
    hide GetHostPhysicalAddress, WriteBytes, KernelPage;
    if n < pages {
      CopyStops(m, initialized, eptp, address, kernel, n, pages - 1);
    }
  }

  lemma SetupIsReady(id: nat, hosts: seq<nat>, s: Snapshot, zeropage: Page, cmdline: seq<u8>)
    requires |cmdline| < PAGE_SIZE && SetupIntact(id, hosts, s, zeropage, cmdline)
    ensures GuestReady(id, hosts, s) && |hosts| >= SETUP_PAGES
  {
  }

  /** A kernel that passes the memory check at 16 MiB is placed and fits, once the machine has 4096 + 516 pages. */
  lemma UsualKernelFits(n: u64, imageSize: u64, kernelSize: nat)
    requires n <= MAX_PAGES && kernelSize <= imageSize && CheckPasses(n, SETUP_PAGES, imageSize)
    requires n >= PREFERRED_ADDRESS / PAGE_SIZE + SETUP_PAGES
    ensures Placed(PREFERRED_ADDRESS, kernelSize) && Fits(n, PREFERRED_ADDRESS, kernelSize)
    ensures ClearOfSetup(n, FirstPage(PREFERRED_ADDRESS), PagesOf(kernelSize))
  {
    CheckMeansClear(n, imageSize, kernelSize);
  }
}
