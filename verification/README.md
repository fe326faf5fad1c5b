# Memory management of rkhv, modelled and proved in Dafny

rkhv is a small VT-x hypervisor with a UEFI boot loader. This project models the part of it that is about
memory and proves what that part is for: which structure owns each physical page, and what each page-table
tree translates. There is one physical memory, a map from page addresses to 512 words of 64 bits, and all
components below work on it. PANIC is an explicit outcome.

`dafny verify dfyconfig.toml` checks everything.

## How it is organised

- **Bits, Paging, Entries, Memory, RadixTree.** The macros are proved once to be bit fields; entries decode to
  what was encoded. `RadixTree.Walk` is the lookup in a 4-level tree, `RadixTree.Tree` the invariant of a builder
  (a page per table, no page twice). Two lemmas carry all builders: linking an empty table changes no lookup,
  setting a leaf changes one.
- **Arena, Chainload, PageScan, PageSupply, PageList, Vm, Hypervisor, VmxPages, VmManager, Vmcs.** The structures that
  claim pages and the page allocator. A ghost map names the owner of each page; every structure owns exactly what the
  map gives it. `Ownership` lifts this to whole runs. `PageSupply` says which pages the allocator will hand out next.
- **Ept, EptIdentity, GuestSupply, GuestMemory, GuestPaging, GuestIdentity.** Construction and lookup of a machine's EPT
  with its rights (section 29.3.2 of the Intel SDM, volume 3), guest memory with its exact reserve of tables, and the
  guest's own tables (section 4.5), written and walked through the EPT. `GuestSupply` keeps account of the pages and the
  bytes of the arena that guest memory still needs.
- **Bytes, KernelCopy, LinuxLoader, HvMain, AddressMap, Emulation, Msr, Uart.** State machines on top; `HvMain` goes
  from a booted hypervisor to a guest that reads what it is to run.
- **BootPool, BootPaging, BootPhysicalMap, BootAddressSpace, MemoryMap, BootHandover, BootedRun.** The boot side, with
  failure returns. `BootHandover.Boot` ends with the hypervisor in a valid state; `BootedRun` lets it run from there.

Code that updates state in place is a class or a method with a loop; pure code is functions. Methods work on
a value `Snapshot` where a lemma has to speak about two states.

A PANIC for lack of memory is true of the state that it leaves (`Hypervisor.Exhausted`), wherever it may end an
operation; and from a state with enough of it (`GuestMemoryAllocation.Affords`, `HypervisorMain.EnoughToStart`) the
operations succeed.

## What the proofs found

The hypervisor's invariant asks of the boot loader only that regions are page-aligned and below 2^52
(`Chainload.BootOk`), which `BootHandover.Boot` establishes; no operation changes a page that the boot loader left
(`Ownership.Run`), so the hypervisor keeps the address space it started in (`BootedHypervisor.BootAndRun`). Where the
code falls short of what it is for, there is the exact condition under which it does not, and the input on which it
does:

- The downward searches of the allocator have a bound check that never fails (`size_t i >= 0`). They stop from all
  their starting points exactly when descriptor 0 is usable and not empty (`PageScan.SearchesStop`); on other maps
  one call of the allocator runs past the start of the map exactly when all pages from its cursor down look used
  (`GetFreePage`, outcome `SearchUnderflow`). The model ends there, as in a PANIC.
- An emptied list node at address 0 makes the interval test of `mm_page_used_by_vm_manager` accept every page
  (`PageList.TestRunExact`). Page 0 may be offered and allocated like any other; that state begins
  exactly when page 0 is taken out of a reserved pool, where it came next (`VmManager.TakeReservedPage`).
- All page lists of all machines live in one arena of one page, which is never extended: next to one machine it has
  room for 158 list nodes. A stretch of guest pages may take a node, and a stretch of table pages two, so that how much
  memory a guest can be given depends on how scattered it is, not only on how much is free
  (`GuestMemoryAllocation.AllocateGuestPhysicalMemory`, `HypervisorMain.HvMain`).
- The boot loader maps the first 512 GiB of physical memory. The allocator scans all usable memory, from the top down,
  and every page it returns is accessed at once through that map. All accesses succeed exactly when all usable
  memory ends at or below 512 GiB (`BootHandover.AllocatorReaches`); when the topmost usable page lies behind, the
  first allocation faults (`BootedHypervisor.HighMemoryFaults`, `BootedHypervisor.HighMemoryMap`).
- A page is protected from the moment it is claimed. `vmx_create_initialized_vmcs` asks for the MSR bitmap page
  between obtaining its region and claiming it, so that both are one page exactly when the bitmap page had not
  been obtained before (`VmcsCreation.CreateInitializedVmcs`). The only call of `vmx_get_msr_bitmaps_page` in the
  repository is this one (hv/src/vmm/vmx_vmcs.c:90), so every boot that gets as far as hv/src/main.c:75 has its
  VMCS on the page of the MSR bitmaps (`HypervisorMain.HvMain`). Over whole runs this is the only way for a page to
  have two holders (`Ownership.Run`).
- The Linux loader accepts a command line of 4096 characters; its terminating zero is then the first byte of the
  next physical page (`LinuxLoader.CommandLineStays`, `LinuxLoader.CommandLineBreaksEpt`).
- It checks the preferred address against the kernel's own alignment only. At an address that is not page-aligned
  every page is copied across the end of a host page, unless the kernel ends in the page it starts in
  (`KernelCopy.ContainedCopies`, `LinuxLoader.KernelCopyBreaksEpt`).
- Its memory check subtracts 4096 from a smaller number when the machine has 4097 to 4611 pages; it then passes for
  every image, and the kernel overwrites setup pages or runs out of guest memory (`LinuxLoader.CheckMeansClear`,
  `LinuxLoader.CheckWraps`). From 4612 pages on the check does what it is for (`LinuxLoader.UsualKernelFits`).
- Page counts of the memory map have 63 bits; a longer run of pages is stored short
  (`MemoryMapCoalescing.KeptMeaning`, `MemoryMapCoalescing.HugeCountIsLost`). Usable memory never is.
- An image that ends before its protected-mode kernel starts gives the loader a size that wraps around; at a
  page-aligned address the copy then always ends in a failed EPT walk (`LinuxLoader.WrappedKernelFails`).
- `paging_map_physical` checks entry 0 of the PML4 only; entry 2 is overwritten whatever it held. In the boot
  loader neither is in use.
- The mask `CR0_PG` is an `int` whose sign extends; as a 64-bit mask it also accepts the reserved upper half of
  CR0 (`Emulation.ModeIsFourLevel`). The model has the mask as it is.
- A printed line of the emulated serial port stops at the first NUL byte, so the stream is conserved exactly
  when no NUL was flushed.

## Model

| member | source | states |
|---|---|---|
| Bits.AndField | common/include/rkhv/paging.h:8-12 | and-ing with a mask of consecutive ones keeps exactly that bit field, in place, for every word |
| Bits.FieldExtracted | common/include/rkhv/paging.h:20-24 | masking and then shifting right yields the bit field as a number |
| Bits.OrDisjoint | common/include/rkhv/paging.h:26-81 | or-ing words without common bits adds them |
| Paging.GetPml4 | common/include/rkhv/paging.h:20 | the macro selects bits 39 to 47: the index of the address in a level-4 table |
| Paging.GetDirectoryPtr | common/include/rkhv/paging.h:21 | the macro selects bits 30 to 38 |
| Paging.GetDirectory | common/include/rkhv/paging.h:22 | the macro selects bits 21 to 29 |
| Paging.GetTable | common/include/rkhv/paging.h:23 | the macro selects bits 12 to 20 |
| Paging.GetOffset | common/include/rkhv/paging.h:24 | the macro selects the offset in the page |
| Paging.IndexWraps | common/include/rkhv/paging.h:8-23 | the four indices depend on the low 48 bits of the address only |
| Paging.FlagTests | common/include/rkhv/paging.h:71-81 | each flag test of an entry is the test of one bit |
| Paging.AddressMasks | common/include/rkhv/paging.h:49-80 | each address mask yields the base address of a page of 4 KiB, 2 MiB or 1 GiB |
| Paging.EntryEncodes | common/include/rkhv/paging.h:26-81 | an entry built from flags and a masked address decodes to that base address and those flags, at every level |
| PageTableEntries.TableEntry | boot/src/paging.c:84 | a link entry is present, writable, executable, not large, and decodes to the page it was built from |
| PageTableEntries.LargeEntry | boot/src/paging.c:149-150 | the entry of the k-th 2 MiB page is present, large and writable and decodes to address k * 2 MiB |
| PageTableEntries.EptEntry | hv/src/vmm/vmx_ept.c:40-41 | the entry decodes to its page and has bits 0, 1 and 2 set: read, write and execute, as section 29.3.2 of the SDM numbers them |
| EptIdentity.GigabyteEntry | hv/src/vmm/vmx_ept.c:145-147 | the i-th entry maps i GiB as a large page and has bits 0, 1 and 2 set |
| RadixTree.LinkKeepsLookups | hv/src/vmm/vmx_ept.c:36-41 | linking an empty table where nothing was linked keeps the tree well formed and changes no lookup, at any level |
| RadixTree.LeafChangesOnePage | hv/src/vmm/vmx_ept.c:74-78 | writing a leaf changes the lookup of one page only, to exactly the entry written |
| RadixTree.TreeFrame | hv/src/vmm/vmx_ept.c:81-127 | lookups depend on the table pages only: any write elsewhere in memory leaves every lookup as it was |
| RadixTree.MappingDecided | hv/src/vmm/vmx_ept.c:45-76 | on a well-formed tree an absent or final entry found on the path decides the whole lookup |
| Arena.ArenaList.Create | hv/src/memory_management/arena.c:71-87 | the new arena is in front of the live ones, the list stays a well-formed doubly linked list of exactly the live arenas, and its corruption check cannot fail |
| Arena.ArenaList.Allocate | hv/src/memory_management/arena.c:36-45 | the block lies in its page, behind the header and all earlier blocks of the arena, and the room shrinks by its size; it panics exactly when the remaining room is too small, and that subtraction never wraps |
| Arena.ArenaList.Destroy | hv/src/memory_management/arena.c:47-69 | the list loses exactly this arena and stays well formed in both directions; none of the three corruption checks can fail |
| Arena.ArenaList.UsedBy | hv/src/memory_management/arena.c:18-33 | walking the list from its head decides membership in the set of live arenas |
| Arena.UnlinkKeepsLinked | hv/src/memory_management/arena.c:47-69 | the header updates of arena_destroy, for any position in the list, leave a doubly linked list of the others in the same order |
| Chainload.UsedByChainload | hv/src/memory_management/memory_management.c:38-82 | the tests decide whether the page lies in a section, the chainload page, an attachment before the end marker or a page-table region |
| PageScan.SearchesStop | hv/src/memory_management/memory_management.c:110-116 | the downward searches, whose bound check never fails, stop from every starting point they are used with (the end of the array, and each usable descriptor) if and only if descriptor 0 is usable and not empty |
| PageScan.NextCursor | hv/src/memory_management/memory_management.c:140-156 | one step of the scan goes to the usable page just below in the map, and from the lowest one to the topmost; it runs past the start of the map exactly at the lowest page of a map whose descriptor 0 is not usable |
| PageScan.PathIsInjective | hv/src/memory_management/memory_management.c:126-157 | no usable (region, page) pair is visited twice in one scan |
| PageScan.PathIsComplete | hv/src/memory_management/memory_management.c:126-157 | a scan that closes its circle has visited every usable page |
| PageScan.ScannedPagesAreFrames | hv/src/memory_management/memory_management.c:126-134 | every page the scan can reach lies in the map of physical memory if and only if every usable, non-empty descriptor ends at or below 512 GiB |
| PageSupply.ScanFindsNext | hv/src/memory_management/memory_management.c:126-157 | the page on which a scan ends is the free one with the fewest steps from its start |
| PageSupply.FreePagesSupply | hv/src/memory_management/memory_management.c:99-160 | with descriptor 0 usable and all usable memory below 512 GiB, the scans of one caller after the other find as many distinct pages as are free |
| PageSupply.BlockSupplies | hv/src/memory_management/memory_management.c:99-160 | a stretch of free pages at or just below the cursor is handed out from the top down |
| HypervisorState.Hypervisor.PageIsFree | hv/src/memory_management/memory_management.c:84-97 | the four "used by" tests together decide whether any structure owns the page, with the exception that an emptied list node at address 0 makes every page look used |
| HypervisorState.Hypervisor.UsedByVmx | hv/src/memory_management/vmm_vmx_pages.c:20-30 | decides membership in the pages of VMXON and MSR bitmaps, with their valid flags |
| HypervisorState.Hypervisor.UsedByVmManager | hv/src/memory_management/vmm_vm_manager.c:14-30 | the interval tests decide ownership by any machine (EPT tables, reserved pool, guest memory or a claimed VMCS), except that they accept every page once some list has an empty node at address 0 |
| HypervisorState.Hypervisor.UsedByMachine | hv/src/memory_management/vmm_vm_manager.c:14-29 | the tests on one machine decide ownership by it, with the same exception for an empty node at address 0 |
| HypervisorState.Hypervisor.Scan | hv/src/memory_management/memory_management.c:126-157 | on every memory map the loop terminates and follows the scan order from the cursor; with a usable descriptor 0 it gives up only when every usable page looks used, otherwise it runs past the start of the map only when all pages from the cursor down look used |
| HypervisorState.Hypervisor.StartOfScan | hv/src/memory_management/memory_management.c:109-124 | the scan starts from the page returned last, or else from the topmost usable page; the search runs past the start of the map only when no page is usable |
| HypervisorState.Hypervisor.GetFreePage | hv/src/memory_management/memory_management.c:99-160 | returns the first free page of the scan, page 0 included, and the page at its start whenever that looks free; with a usable descriptor 0 it panics if and only if every usable page looks used; with any other map it runs past the start of the map if and only if all pages from the start of the scan down look used |
| HypervisorState.Hypervisor.GetFrame | hv/src/memory_management/memory_management.c:99-160 | the page returned is one the hypervisor can access; a free page at the start of the scan is returned when it is one and faults otherwise; on a map that ends at or below 512 GiB no access faults; when pages are handed out from a known supply, its first page is the one returned; each failure is true of the state it leaves: every usable page looks used, or every one the scan reaches, or the page found is free and cannot be accessed |
| PageList.TestRunExact | hv/src/memory_management/vmm_vm_manager.c:22-24 | the interval test with its 64-bit subtraction is membership, except for an empty node with address 0, which accepts every page |
| PageList.SizeIsCardinality | hv/src/vmm/vm_manager.c:64-119 | for disjoint nodes the page counts of a class add up to the cardinality of the set of its pages |
| VirtualMachine.Vm.TrackPage | hv/src/vmm/vm_manager.c:64-103 | through extending a node at either end, reusing an empty node or adding a node, exactly this page joins exactly this class; nodes stay disjoint and counts grow by one when the page is new; it panics if and only if no node of the class has or adjoins the page, no node is empty and less than one node fits in the arena, and takes bytes of the arena exactly when only the first two hold |
| VirtualMachine.Vm.UntrackFromReservedPool | hv/src/vmm/vm_manager.c:105-119 | fails exactly on an empty pool; otherwise the page is the last one of the first non-empty run of the pool, and exactly it leaves the reserved class |
| VirtualMachine.PopAndTrack | hv/src/vmm/vmx_ept.c:24-39 | taking the last page of the first pool node and recording it as a table needs a new node only for the first page of that node, and none when the node held one page |
| VmManager.TrackFreePage | hv/src/vmm/vm_manager.c:64-103 | a free page, page 0 included, gets its first owner; the whole invariant of the hypervisor is kept, whatever the shape of the list; it panics exactly when the page finds no place in the list and the arena has no room for a node, and then changes nothing |
| VmManager.TakeReservedPage | hv/src/vmm/vm_manager.c:105-132 | the page leaves the reserved pool, is zero and has no owner until it is tracked again; from then on every page looks used if and only if it already did or the page next in the pool before the call was page 0 |
| VmManager.TakeEptPage | hv/src/vmm/vmx_ept.c:24-26 | the reserved pool serves as long as it has pages; after that a zeroed free page does; a failure is true of the state it leaves |
| VmManager.CreateVm | hv/src/vmm/vm_manager.c:22-40 | the new machine owns nothing and is isolated; the first call claims one free page as the arena of all machines; it fails for lack of room exactly when an arena exists with fewer bytes left than a machine takes, and otherwise only for want of a page |
| VmManager.TablePaid | hv/src/vmm/vmx_ept.c:24-39 | a table page from the pool leaves at least the bytes of the arena that the other pages of the pool may need |
| VmManager.CreateArena | hv/src/memory_management/arena.c:71-87 | the arena page was free and is now owned as an arena, every other owner as before |
| VmManager.DestroyArena | hv/src/memory_management/arena.c:47-69 | the page of the arena is free again, every other owner as before |
| VmxPages.GetZeroedPage | hv/src/memory_management/vmm_vmx_pages.c:67-73 | a free page, zeroed, with no other page of memory changed; it fails only in a state in which no usable page that the scan reaches looks free, or, on a map with usable memory behind 512 GiB, because the page found cannot be accessed |
| VmxPages.GetVmxonRegion | hv/src/memory_management/vmm_vmx_pages.c:36-46 | claimed at the first call with the revision identifier in its first half word, the same page with no effect ever after; when the page at the start of the scan is free, the call succeeds if and only if that page lies below 512 GiB, and faults otherwise |
| VmxPages.RevisionIsStored | hv/src/memory_management/vmm_vmx_pages.c:36-46 | the first four bytes of the region are the revision identifier without its bit 31, all other bytes of memory are as before |
| VmxPages.GetMsrBitmapsPage | hv/src/memory_management/vmm_vmx_pages.c:48-57 | claimed and filled at the first call; the same page ever after |
| EptMapping.LookupWalksTheTree | hv/src/vmm/vmx_ept.c:81-127 | the unrolled walk equals the recursive lookup of a 4-level radix tree, for every memory, root and address, with large pages of both sizes |
| EptMapping.NewTable | hv/src/vmm/vmx_ept.c:36-39 | a new table page is zero, was nobody's or came from the pool, and is tracked as a live table; from the pool it costs nothing that was not set aside; a panic is true of the state it leaves |
| EptMapping.NextTable | hv/src/vmm/vmx_ept.c:45-57 | following or creating the table below an entry changes no translation, on any path |
| EptMapping.PathTo | hv/src/vmm/vmx_ept.c:20-72 | the descent reaches the page table of the address, having created exactly the missing tables of its path; it panics for a remap only when the address translates, and otherwise only in a state without memory; tables that the pool provides fail only when less was set aside than the pool needs |
| EptMapping.MapPage | hv/src/vmm/vmx_ept.c:13-79 | afterwards the guest page translates to the host page with read, write and execute rights, and-ed along the walk, and every other address below 2^48 as before, whichever tables were created; it panics as a remap if and only if the page already translates, under pages of any size, and otherwise only in a state without memory; pages of other owners are untouched |
| EptMapping.TranslatedIsGranted | hv/src/vmm/vmx_ept.c:40-78 | in every valid state a guest may read, write and execute whatever the EPT of its machine translates: bits 0, 1 and 2 of all entries on the walk |
| EptMapping.MapLeaf | hv/src/vmm/vmx_ept.c:74-78 | the entry in the page table is set, unless there is one |
| EptMapping.AddTable | hv/src/vmm/vmx_ept.c:45-57 | an entry that is not present gets a new empty table, with no change of translation |
| EptIdentity.GigabytesAreIdentity | hv/src/vmm/vmx_ept.c:144-155 | a PML4 whose only entry links 512 gigabyte entries maps the first 512 GiB to themselves and nothing else |
| EptIdentity.CreateIdentityMapping | hv/src/vmm/vmx_ept.c:135-159 | the machine gets that mapping, with read, write and execute rights for every address below 512 GiB; pages of all other owners keep owner and content; it refuses exactly when an EPT exists, and fails otherwise only in a state without memory |
| GuestMemoryAllocation.CeilDivNests | hv/src/vmm/vm_manager.c:140-144 | rounding up twice is rounding up once by the product |
| GuestMemoryAllocation.ReserveGrows | hv/src/vmm/vm_manager.c:140-145 | one guest page more raises the reserve by exactly the number of tables that mapping it creates |
| GuestMemoryAllocation.MissingTables | hv/src/vmm/vmx_ept.c:20-72 | after mapping pages 0 to i - 1 in order, mapping page i misses exactly that many tables |
| GuestMemoryAllocation.NodesGrow | hv/src/vmm/vmx_ept.c:20-72 | the tables that exist after page i are those of the paths of pages 0 to i |
| GuestMemoryAllocation.FillReserve | hv/src/vmm/vm_manager.c:147-150 | the pool holds the requested number of distinct zeroed pages; it succeeds whenever the pages to come and the arena suffice, and fails only in a state without memory |
| GuestMemoryAllocation.MapNextPage | hv/src/vmm/vm_manager.c:152-156 | one turn of the loop keeps: pages mapped so far are distinct, zero and the only ones that translate, the pool holds exactly the tables still needed, and, when pages and arena sufficed before, they suffice for the remaining turns |
| GuestMemoryAllocation.AllocateGuestPhysicalMemory | hv/src/vmm/vm_manager.c:134-157 | it succeeds whenever N <= 512^4, enough pages are about to be handed out, page 0 not among those for the tables, and the arena has room for two nodes for each stretch of them and one for each stretch of guest pages; the guest pages are then the pages handed out, in order; guest pages 0 to N - 1 translate injectively to zero-filled host pages, with all rights, which are all the guest memory of the machine, no other address below 2^48 translates, the EPT uses exactly the reserved pages and the pool ends empty; pages of other owners and all pages without an owner keep their content, the boot image among them; a PANIC is true of the state it leaves |
| GuestMemoryAllocation.FreePagesAfford | hv/src/vmm/vm_manager.c:134-157 | with descriptor 0 usable, all usable memory below 512 GiB and page 0 in use, these conditions hold when as many pages are free as the guest and its tables take and the arena has room for a node for each |
| GuestMemoryAllocation.MapPages | hv/src/vmm/vm_manager.c:152-156 | the loop maps all pages whenever pages and arena suffice; each guest page is the next page that the allocator hands out |
| GuestMemoryAllocation.MapGuestPage | hv/src/vmm/vm_manager.c:155-156 | mapping one page keeps the progress of the loop and what is set aside for it |
| GuestSupply.TakeNext | hv/src/memory_management/vmm_vmx_pages.c:67-73 | the page taken is zeroed and, when the plan is covered, the first page of the plan, which then waits to be recorded; otherwise the reason of a panic is true of the state it leaves |
| GuestSupply.TrackAtHand | hv/src/vmm/vm_manager.c:64-103 | recording the next page of a plan that the arena covers succeeds and leaves the rest of the plan covered |
| GuestPaging.HostOfReady | hv/src/vmm/vm_guest_paging.c:10-23 | on a machine with ready memory the EPT leads from guest page k to its host page, offset kept, and nowhere from the others |
| GuestPaging.HostKeepsOffset | hv/src/vmm/vmx_ept.c:102-125 | the EPT walk keeps the offset in the page, in memory of any content |
| GuestPaging.GuestWalkIsNested | hv/src/vmm/vm_guest_paging.c:76-128 | it equals the recursive nested walk in which every table is read through the EPT, from CR3 with its low 12 bits cleared, for all memories and addresses |
| GuestPaging.NestedInPage | hv/src/vmm/vm_guest_paging.c:76-128 | the guest-physical address of a byte further on in the page is as much further on |
| GuestPaging.TranslateInPage | hv/src/vmm/vmx_ept.c:81-127 | the same for the EPT |
| GuestIdentity.IdentityWalk | hv/src/vmm/vm_guest_paging.c:25-65 | through the tables as built, the nested walk maps every linear address below 512 GiB to itself, writable and executable at every level, and no other below 2^48 |
| GuestIdentity.AddDirectories | hv/src/vmm/vm_guest_paging.c:45-59 | the outer loop completes if and only if there are 514 guest pages; it writes only the pages at the end of guest memory |
| GuestIdentity.SetupIdentity | hv/src/vmm/vm_guest_paging.c:25-65 | it succeeds if and only if the machine has at least 514 pages and nothing was set up before; then the walk from the returned CR3 is the identity below 512 GiB, with write and execute access, the counter is 514, and only the last 514 guest pages changed |
| Bytes.CopiedBytes | hv/src/vmm/guest_linux_loader.c:131-135 | a copy into a page at any offset replaces exactly the copied bytes, through the 64-bit words of memory |
| Bytes.WrittenBytes | hv/src/vmm/guest_linux_loader.c:131-135 | memcpy to any physical address replaces exactly the bytes from there on, across the end of the page |
| Bytes.StoreStays | hv/src/vmm/guest_linux_loader.c:131-135 | a store of n bytes changes no other page, in every memory and for all bytes, if and only if it fits in the page of its address |
| KernelCopy.ContainedCopies | hv/src/vmm/guest_linux_loader.c:119-136 | every turn of the copy loop stays in the host page it resolved if and only if the preferred address is page-aligned or the whole kernel ends in the page it starts in |
| KernelCopy.CopySucceeds | hv/src/vmm/guest_linux_loader.c:125-136 | for a placed kernel the copy gets through exactly as long as its guest pages exist; the guest then reads byte k at address + k for every k, through an unchanged EPT, and only the host pages behind the kernel were written |
| KernelCopy.EarlierByteStays | hv/src/vmm/guest_linux_loader.c:125-136 | one turn of the loop changes no byte that the guest reads from an earlier page of the kernel |
| KernelCopy.NewByteReadable | hv/src/vmm/guest_linux_loader.c:125-136 | after one turn the guest reads each byte of that page of the kernel, at any offset in the page |
| LinuxLoader.CheckMeansClear | hv/src/vmm/guest_linux_loader.c:64-67 | when the memory check passes, the kernel at 16 MiB is clear of the 516 setup pages if and only if the machine has at least 4096 + 516 pages; below that the subtraction wraps |
| LinuxLoader.CheckWraps | hv/src/vmm/guest_linux_loader.c:64-67 | with 4200 pages every image below 2^63 bytes passes the check and none is clear of the setup pages |
| LinuxLoader.CommandLineStays | hv/src/vmm/guest_linux_loader.c:69-74 | storing a command line of n characters and its terminating zero changes no other page, in every memory, if and only if n is less than the page size, although the loader accepts equality |
| LinuxLoader.CommandLineBreaksEpt | hv/src/vmm/guest_linux_loader.c:69-77 | the failing inputs: on any machine with ready guest memory whose PML4 lies behind the command line page, a command line of 4096 characters breaks the EPT |
| LinuxLoader.KernelCopyBreaksEpt | hv/src/vmm/guest_linux_loader.c:121-132 | the failing inputs: on any machine with ready guest memory whose PML4 lies behind the host page of the preferred address, every kernel that is not contained breaks the EPT in the first turn of the loop when the byte that comes to lie there is 0 |
| LinuxLoader.StoreSetup | hv/src/vmm/guest_linux_loader.c:69-77 | memory afterwards is given exactly; for a command line shorter than a page the invariant holds and identity tables, zero page and the NUL-terminated command line are in place; with 4096 characters and the PML4 behind their page the invariant fails |
| LinuxLoader.CopyKernel | hv/src/vmm/guest_linux_loader.c:125-136 | for any address, kernel and memory it ends as the turn-by-turn copy does; for a placed kernel it succeeds if and only if every kernel page is guest memory, and then the invariant holds, the guest reads the kernel at its address and nothing else was written |
| LinuxLoader.PrepareGuest | hv/src/vmm/guest_linux_loader.c:25-77 | it gets past its checks exactly when all of them hold; memory is then the identity mapping plus zero page and command line, and for a command line shorter than a page the invariant holds and no page outside the setup pages changed |
| LinuxLoader.LoadLinux | hv/src/vmm/guest_linux_loader.c:24-138 | in every case memory ends as identity mapping, setup pages and copy leave it; for a command line shorter than a page and a placed kernel it succeeds if and only if all checks hold and the kernel fits, and then the invariant holds, the guest reads the kernel at its preferred address byte by byte, nothing but kernel and setup pages was written, and, when the kernel is clear of it, the setup is intact and the guest reads the kernel through its own tables from the CR3 it starts with; for an image made of a boot sector, its setup sectors and a kernel, byte k of that kernel is what the guest reads at the preferred address + k; an image that ends before its kernel starts never succeeds at a page-aligned address |
| LinuxLoader.KernelOfImage | hv/src/vmm/guest_linux_loader.c:112-117 | what the loader takes for the kernel of an image of one boot sector, the setup sectors (4 when the header says 0) and a kernel is that kernel |
| LinuxLoader.SetupIsRead | hv/src/vmm/guest_linux_loader.c:40-77 | through its own tables the guest reads the zero page and the NUL-terminated command line in the pages 515 and 516 before the end of its memory |
| LinuxLoader.ReadsThroughOwnTables | hv/src/vmm/vm_guest_paging.c:76-128 | linear address preferred address + k, walked from CR3 through the guest tables and the EPT, reads byte k of the kernel, for every such address below 512 GiB |
| LinuxLoader.WrappedKernelFails | hv/src/vmm/guest_linux_loader.c:115-130 | a kernel size that wrapped around makes the copy end in a failed EPT walk, whatever lies behind the image |
| LinuxLoader.UsualKernelFits | hv/src/vmm/guest_linux_loader.c:56-67 | with at least 4096 + 516 pages every kernel that passes the memory check at 16 MiB is placed, fits and is clear of the setup pages |
| AddressMap.ConversionsInvert | common/include/rkhv/memory_map.h:56-57 | the two conversions invert each other on all 64-bit words and keep the offset in the page |
| Emulation.OperandInOnePage | hv/src/vmm/vm_guest_paging.c:154-161 | an operand of up to 8 bytes that is resolved lies in one page |
| Emulation.ModeIsFourLevel | hv/src/vmm/vm_guest_paging.c:133-138 | the test of the control registers is that of bit 31 of CR0, bits 5 and 12 of CR4 and bit 8 of IA32_EFER: paging on, PAE, no 57-bit addresses, long mode |
| Emulation.ResolutionIs | hv/src/vmm/vm_guest_paging.c:132-163 | an operand is resolved if and only if the control registers select 4-level long mode, the nested walk from CR3 finds a guest-physical address, the EPT translates it and the operand fits in its page; the result leads to that physical address; each of the four panics stands for the first condition that fails |
| Emulation.OperandBytes | hv/src/vmm/vm_guest_paging.c:132-163 | byte j of a resolved operand is the byte of memory behind linear address va + j, by the nested walk and then the EPT |
| Emulation.ExitState.Outs | hv/src/vmm/vm_emulated_instructions.c:78-85 | one OUTS sends the bytes that the guest has at linear address rsi, by the nested walk from CR3 and the EPT, and moves rsi by its size, or panics and changes nothing; it succeeds if and only if the four conditions of address resolution hold |
| Emulation.ExitState.RepOuts | hv/src/vmm/vm_emulated_instructions.c:104-114 | the device gets exactly the bytes that the guest has at rsi, rsi +- size, ... modulo 2^64, in order, by the nested walk from CR3 and the EPT; it completes if and only if the conditions of address resolution hold for all of them, with rcx = 0; otherwise it stopped at the first for which they do not |
| VmcsCreation.GetVmcsRegion | hv/src/memory_management/vmm_vmx_pages.c:59-65 | the region gets a page that is still free afterwards, and that the next allocation would return again |
| VmcsCreation.ClaimVmcs | hv/src/vmm/vmx_vmcs.c:236 | setting the flag claims the region and keeps the invariant, as a page of its own when it is still free and as a shared one when the MSR bitmaps took it |
| VmcsCreation.CreateInitializedVmcs | hv/src/vmm/vmx_vmcs.c:41-237 | the VMCS region and the MSR bitmaps lie on different pages if and only if the bitmap page had been obtained before; memory and owners are given exactly in both cases, and the invariant is kept in both; it succeeds when a page is free and accessible, and fails otherwise only in a state without memory or on a machine that has a VMCS |
| MsrSwitching.AllowedOne | hv/src/vmm/vmx_msr.c:23-32 | clearing one bit lets exactly one more register be written without an exit, for every register number |
| MsrSwitching.InitBitmaps | hv/src/vmm/vmx_msr.c:16-41 | every register from 0 to 1fffH and from c0000000H to c0001fffH may be read without an exit, and exactly 8bH, 1a0H, da0H, c0000080H and c0000100H to c0000102H may be written |
| MsrSwitching.BitIs | hv/src/vmm/vmx_msr.c:23-32 | bit k of a byte of the bitmaps is counted from the least significant one |
| MsrSwitching.GuestValueIsLastWrite | hv/src/vmm/vmx_msr.c:43-88 | the value specified for the guest is its own last write, whatever happened since |
| MsrSwitching.UnwrittenKeepsStart | hv/src/vmm/vmx_msr.c:43-54 | before its first write the guest has the value its run started with: the host's, or that of the VMCS guest area |
| MsrSwitching.HostValueIsLastWrite | hv/src/vmm/vmx_msr.c:56-88 | the value specified for the host, for a register the switch backs up, is its own last write |
| MsrSwitching.Processor.VmLaunch | hv/src/vmm/vmx_msr.c:43-54 | the backup holds the current value of every register the switch backs up |
| MsrSwitching.Processor.VmExit | hv/src/vmm/vmx_msr.c:56-71 | the guest's values go to the exit state and the host's come back, register by register |
| MsrSwitching.Processor.VmResume | hv/src/vmm/vmx_msr.c:73-88 | the host's values go to the backup and the guest's come back, register by register |
| MsrSwitching.Processor.Run | hv/src/vmm/vmx_msr.c:43-88 | over every interleaving of guest writes, exits, host writes and resumes after launch, the side that runs reads exactly its own values |
| SerialPort.Uart.PutC | hv/src/vmm/devices/vmd_8250uart.c:22-39 | the byte joins the stream; a line is printed exactly at a newline or with the 127th byte; the defensive reset is never reached |
| SerialPort.RestoredLine | hv/src/vmm/devices/vmd_8250uart.c:30-38 | a printed line, its newline given back unless it filled the buffer, is the flushed stretch when that holds no NUL, and differs from it otherwise |
| SerialPort.StreamIsConserved | hv/src/vmm/devices/vmd_8250uart.c:22-39 | the restored lines followed by the pending buffer are the transmitted stream if and only if no flushed byte is NUL |
| SerialPort.Uart.PutAll | hv/src/vmm/devices/vmd_8250uart.c:22-39 | the same for any stream sent to any state |
| BootPool.PagePool.Report | boot/src/paging.c:36-58 | through merging in front, merging behind or a new region, the regions stay disjoint and cover exactly the reported pages; it succeeds if and only if an entry is unused or a region is adjacent to the run, and a failure changes nothing |
| BootPool.PagePool.AllocatePage | boot/src/paging.c:29-63 | zeroed pages that nobody used, all of them reported; on failure memory and reports are unchanged, and either the firmware failed or all 16 regions of the pool are taken |
| BootPool.ReportedPagesAreInUse | hv/src/memory_management/memory_management.c:70-79 | mm_page_used_by_chainload holds for every reported page, and the pool makes it hold for no other |
| BootPaging.LeafEntry | boot/src/paging.c:116-123 | a leaf entry decodes to its page, is writable exactly for RW and not executable exactly for RO and RW |
| BootPaging.PageTables.AllocatePml4 | boot/src/paging.c:65-67 | an address space in which nothing translates |
| BootPaging.PageTables.NextTable | boot/src/paging.c:87-99 | following or creating a table changes no lookup, on success and on failure |
| BootPaging.PageTables.MapPage | boot/src/paging.c:69-125 | on success the page, not mapped before, translates with exactly the requested permission and every other address as before; every failure leaves all translations as they were; each error code is returned exactly in its case; only reported pages are written |
| BootPhysicalMap.PhysicalTarget | boot/src/paging.c:145-152 | an address below the first or the third 512 GiB boundary is translated to itself modulo 512 GiB |
| BootPhysicalMap.PhysicalWalk | boot/src/paging.c:139-152 | the walk through the shared tables ends in the 2 MiB entry of the address, writable and executable |
| BootPhysicalMap.MapPhysical | boot/src/paging.c:128-155 | on success the PML4 entries 0 and 2 map physical memory and all other addresses translate as before; on failure all do; every table a walk can reach is reported |
| BootAddressSpace.PagesApart | common/include/rkhv/memory_map.h:48-52 | the pages of the four sections are pairwise different and outside the map of physical memory |
| BootAddressSpace.MapSections | boot/src/main.c:132-145 | the pages of the sections and nothing else translate; only the firmware or a full pool can make it fail |
| BootAddressSpace.BuildAddressSpace | boot/src/main.c:123-148 | every byte of every section translates to its loaded byte, sections 2 and 3 writable and section 0 alone executable, pa and P2V(pa) translate to pa for every pa below 512 GiB, and nothing else translates; pages in use before, the loaded sections among them, keep their content; it fails only when the firmware failed or all 16 regions of the pool are taken |
| BootAddressSpace.LiveTablesAreInUse | hv/src/memory_management/memory_management.c:70-79 | every table used by any walk in the boot address space is a page that the hypervisor's allocator considers in use |
| MemoryMapCoalescing.ExpandMerge | boot/src/main.c:204-207 | merging a descriptor into the last one describes the same pages in the same order as appending it |
| MemoryMapCoalescing.Coalesce | boot/src/main.c:177-223 | the array holds the maximal runs of the descriptors that are kept, with their 63-bit counts, and is otherwise unchanged |
| MemoryMapCoalescing.RunsDescribe | boot/src/main.c:177-223 | the maximal runs of any memory map describe the same pages in the same order, modulo 2^64, and no two neighbours among them could be merged |
| MemoryMapCoalescing.KeptIs | boot/src/main.c:209-217 | when the runs of the first n descriptors fit in the array and those of the first n + 1 do not, exactly n descriptors are kept |
| MemoryMapCoalescing.KeptMeaning | boot/src/main.c:177-223 | all descriptors are kept if and only if the whole map has at most 231 runs; the kept runs, as stored, describe the pages of the kept descriptors if and only if every run has less than 2^63 pages |
| MemoryMapCoalescing.SmallMapsFit | boot/src/main.c:177-223 | when the firmware describes less than 2^63 pages, every run does |
| MemoryMapCoalescing.UsableIsStored | common/include/rkhv/chainload.h:16-23 | for usable memory below 2^52 truncation loses nothing that the allocator scans |
| MemoryMapCoalescing.StoredMeaning | common/include/rkhv/chainload.h:16-23 | truncated to the 63 bits of its field, a list of descriptors describes the same pages if and only if every count is less than 2^63 |
| MemoryMapCoalescing.HugeCountIsLost | common/include/rkhv/chainload.h:16-23 | the failing input: a descriptor of 2^63 pages is stored as an empty one |
| MemoryMapCoalescing.StoredEnd | boot/src/main.c:204-206 | the truncation never changes a merging decision: the end of a descriptor modulo 2^64 does not depend on it |
| MemoryMapCoalescing.MapIsFaithful | boot/src/main.c:177-223 | the allocator's scan over the whole array of 231 entries, zero tail included, offers exactly the pages that the kept firmware descriptors call usable, whatever the counts |
| BootHandover.DescribeMemory | boot/src/main.c:177-223 | what the page allocator scans is exactly what the kept firmware descriptors call usable |
| BootHandover.SectionsInUse | boot/src/main.c:77-78 | every page of every section is a page the hypervisor considers in use |
| BootHandover.ImageInUse | hv/src/memory_management/memory_management.c:38-82 | for a chainload page with these sections and the reported page-table regions, no page of the image and no table on any walk of the address space can be allocated |
| BootHandover.FileInUse | hv/src/memory_management/memory_management.c:55-68 | the page of every byte of a file in front of the first end marker passes for occupied |
| BootHandover.InUseIsLoaded | hv/src/memory_management/memory_management.c:38-82 | what passes for occupied and is no reported page table has loaded data: the chainload page, a section or a byte of a file |
| BootHandover.Boot | boot/src/main.c:16-225 | from firmware, loaded sections, attached files and firmware memory map to the hypervisor: the chainload page it gets satisfies its invariant, the address space is the promised one, its own sections and live page tables are in use, and so is the page of every byte of every file in front of the first end marker; of the pages in use before, those with loaded data are in use and no others; they keep their content, and its allocator scans what the kept firmware descriptors call usable; it fails only when the firmware failed or the pool of regions is full |
| BootHandover.FramesAreAccessible | common/include/rkhv/memory_map.h:56 | in the address space that the boot loader built, P2V of a physical address is canonical and leads to it if and only if the address lies below 512 GiB |
| BootHandover.AllocatorReaches | hv/src/memory_management/memory_management.c:126-134 | the hypervisor can access every page that its allocator scans if and only if all usable memory ends at or below 512 GiB |
| BootedHypervisor.HighMemoryFaults | hv/src/memory_management/vmm_vmx_pages.c:36-46 | the failing maps: when the topmost usable page is free and lies behind 512 GiB, the first allocation of the hypervisor faults |
| BootedHypervisor.HighMemoryMap | hv/src/memory_management/memory_management.c:99-134 | such a map exists: one usable page, at 512 GiB |
| BootedHypervisor.SpaceSurvives | common/include/rkhv/memory_map.h:48-57 | as long as the pages that the boot loader reported keep their content, the hypervisor's address space is the one that was built |
| BootedHypervisor.BootAndRun | boot/src/main.c:16-225 | from the firmware through the boot loader to any sequence of operations: the invariant holds, the address space is still the one that was built, and what was loaded is as it was, every byte of every attached file among it |
| Ownership.HoldersClash | hv/src/memory_management/memory_management.c:84-97 | boot loader, arenas, VMXON region, MSR bitmaps, VMCS regions and the lists of all machines are pairwise disjoint, except that one VMCS may lie on the page of the MSR bitmaps |
| Ownership.ExclusiveUnlessShared | hv/src/memory_management/memory_management.c:84-97 | no page has two holders if and only if no VMCS lies on the page of the MSR bitmaps |
| Ownership.ReservedPagesAreIdle | hv/src/vmm/vm_manager.c:147-150 | reserved pages are zero and no table of any machine links them |
| Ownership.InUseMeansHeld | hv/src/memory_management/memory_management.c:84-97 | a page counts as in use if and only if one of those structures holds it |
| Ownership.GuestStore | hv/src/vmm/vmx_ept.c:81-127 | a store of a guest at any guest-physical address, translated by the EPT of an isolated machine, changes exactly the byte at that physical address, which lies in its own guest memory, and keeps the invariant; it fails exactly when the address does not translate |
| Ownership.Perform | hv/src/memory_management/memory_management.c:84-160 | every operation of a client keeps the invariant, the boot image, and the relation between the state and the operations so far; it ends in a PANIC only in a state without memory, or when what it was asked for had been done before |
| Ownership.Run | hv/src/memory_management/memory_management.c:84-160 | after any sequence of operations from the start, on any memory map, guest set-up, Linux loading, guest stores and VMCS creation included: no page has two holders if and only if no VMCS was created before the MSR bitmap page was obtained; reserved pages are zero and unreachable; a machine whose EPT was filled by the allocation of its memory only reaches its own memory; every page of the boot image keeps its content |
| Ownership.UnownedKept | hv/src/memory_management/memory_management.c:38-82 | what leaves all pages without an owner alone leaves the boot image alone |
| HypervisorMain.HvMain | hv/src/main.c:40-75 | when it does not panic, the invariant holds, the guest reads what it is to run through its own tables and the EPT, for Linux its zero page and command line too, the boot image is as it was, and the VMCS lies on the page of the MSR bitmaps; it panics only in a state that lacks memory or for an image that the loader does not accept, and with enough free pages if and only if the loader does not accept the image |
| HypervisorMain.TopBlockSuffices | hv/src/main.c:40-75 | on a fresh hypervisor, 64 MiB and 38 pages more, free from the topmost usable page downwards, are enough |
| HypervisorMain.CreateGuest | hv/src/main.c:40-44 | the machine has its 16384 pages, the next ones that the allocator hands out, whenever there is enough to start; otherwise a panic is true of the state it leaves |
| HypervisorMain.OrdinaryLinuxStarts | hv/src/main.c:44-51 | for an image of a boot sector, its setup sectors and a kernel that prefers 16 MiB and passes the memory check, the loader accepts it, and the guest then reads byte k of the kernel at linear address 16 MiB + k |
| HypervisorMain.CreateVmcsFor | hv/src/vmm/vmx_vmcs.c:41-237 | creating the VMCS leaves guest memory, the EPT and the boot image as they were |
| HypervisorMain.SetUpProgram | hv/src/main.c:53-66 | it succeeds if and only if nothing was set up before; identity paging is built, the program is readable at 7c00H, and the tables are intact |
| Chainload.TestRegions | hv/src/memory_management/memory_management.c:45-53 | the loop over an array of regions decides whether the page lies in one of them |
| PageScan.SearchDown | hv/src/memory_management/memory_management.c:110-116 | finds the highest usable, non-empty descriptor below the starting point, or runs past the start of the map exactly when there is none |
| HypervisorState.TestRuns | hv/src/memory_management/vmm_vm_manager.c:21-27 | the inner loop decides membership in the pages of one machine's list |
| HypervisorState.HeldMeansOwned | hv/src/memory_management/vmm_vm_manager.c:21-27 | a page on a machine's list is owned by that machine as a live table, in its reserved pool or as guest memory, and conversely |
| VmManager.PushVm | hv/src/vmm/vm_manager.c:27-39 | the machine goes to the front of the list with empty lists and no flags set; it fails exactly when the arena has fewer bytes left than a machine takes |
| VmManager.OthersKept | hv/src/vmm/vm_manager.c:64-119 | what one machine claims or releases leaves the state of every other machine as it was |
| EptMapping.RootTable | hv/src/vmm/vmx_ept.c:20-30 | the machine's PML4, or a new empty one: no translation changes; a panic is true of the state it leaves |
| EptMapping.LinkPage | hv/src/vmm/vmx_ept.c:40-41 | linking a page that the machine owns but does not use yet keeps the invariant and every translation |
| EptMapping.NextOnPath | hv/src/vmm/vmx_ept.c:45-57 | one level of the descent, with the number of tables it may cost and the reasons for which it may panic |
| EptMapping.SetLeaf | hv/src/vmm/vmx_ept.c:77-78 | the entry of one page changes, and the translation of that page only, which then has all rights |
| EptIdentity.FillGigabytes | hv/src/vmm/vmx_ept.c:144-147 | the loop fills the 512 entries of one table and writes nothing else |
| EptIdentity.NewGigabyteTable | hv/src/vmm/vmx_ept.c:139-147 | a new table of gigabyte entries; pages of other owners keep owner and content; it fails only in a state without memory |
| EptIdentity.LinkGigabyteTable | hv/src/vmm/vmx_ept.c:149-158 | the PML4 that links it is adopted; the first 512 GiB translate to themselves and nothing else does; it fails only in a state without memory |
| GuestMemoryAllocation.ReservePage | hv/src/vmm/vm_manager.c:148-149 | a zeroed page that was free joins the reserved pool; as long as a plan is covered it is the next page handed out and the rest of the plan stays covered |
| GuestMemoryAllocation.GetGuestPage | hv/src/vmm/vm_manager.c:153-154 | a zeroed page that was free becomes guest memory; as long as a plan is covered it is the next page handed out and the rest of the plan stays covered |
| GuestMemoryAllocation.NestedDivisions | hv/src/vmm/vm_manager.c:140-145 | the four nested ceiling divisions are ceiling divisions by 512, 512^2, 512^3 and 512^4 |
| GuestMemoryAllocation.ProgressStep | hv/src/vmm/vm_manager.c:152-156 | one page more keeps: translations so far are exact, and the pool holds the tables that the remaining pages need |
| GuestMemoryAllocation.ExactlyIsReady | hv/src/vmm/vm_manager.c:152-156 | a machine whose EPT was filled page by page from 0 on has ready guest memory, at any later time |
| GuestIdentity.HostPage | hv/src/vmm/vm_guest_paging.c:10-23 | resolving a guest page through the EPT gives its host page, or panics exactly when the guest page does not exist |
| GuestIdentity.StorePage | hv/src/vmm/vm_guest_paging.c:51-58 | a write to guest memory keeps the invariant and every EPT translation |
| GuestIdentity.FillDirectory | hv/src/vmm/vm_guest_paging.c:51-55 | the inner loop fills one page directory and writes nothing else |
| GuestIdentity.AddDirectory | hv/src/vmm/vm_guest_paging.c:51-58 | one turn of the outer loop fills and links one directory and keeps those before |
| GuestIdentity.LinkRoot | hv/src/vmm/vm_guest_paging.c:61-63 | the cleared PML4 gets its only entry, and the directories stay as they are |
| LinuxLoader.NextSetupPage | hv/src/vmm/guest_linux_loader.c:40-45 | one more page is counted down from the end of guest memory, or the walk fails exactly when there is none |
| LinuxLoader.ClearCopyKeepsSetup | hv/src/vmm/guest_linux_loader.c:125-136 | a copy clear of the setup pages leaves the tables, the zero page and the command line as they were |
| VmcsCreation.WriteRevision | hv/src/memory_management/vmm_vmx_pages.c:61-62 | the first half word of a page that is still free changes, and the invariant is kept |
| MsrSwitching.AllowMsr | hv/src/vmm/vmx_msr.c:23-32 | the write bit of one register is cleared; no other register changes its permission to be read or written |
| MsrSwitching.Processor.Step | hv/src/vmm/vmx_msr.c:56-88 | each event keeps: the values of the running side are in the processor, those of the other side are saved |
| SerialPort.StopsAtNul | hv/src/vmm/devices/vmd_8250uart.c:30-35 | what is printed for a terminated buffer is what is printed for the bytes in front of the terminator |
| BootPool.RegionGrows | boot/src/paging.c:40-48 | a region that takes up new pages keeps the regions disjoint and the coverage exact |
| BootPaging.PageTables.NextOnPath | boot/src/paging.c:79-110 | one level of the descent: the next table is on the path of the address, no lookup changes, other PML4 entries stay |
| BootPhysicalMap.FillDirectories | boot/src/paging.c:145-152 | the nested loops write the 512 * 512 large entries and the 512 links, and nothing else |
| BootPhysicalMap.FillDirectory | boot/src/paging.c:146-151 | one turn of the outer loop writes one link and one directory and keeps those before |
| BootPhysicalMap.AllocateTables | boot/src/paging.c:139-141 | both allocations are fresh, reported and apart from all tables in use; failures leave all translations as they were |
| BootPhysicalMap.OtherEntriesKeep | boot/src/paging.c:142-143 | addresses under other PML4 entries translate as before |
| BootPhysicalMap.TreeReported | boot/src/paging.c:29-63 | every table that a walk can reach in a tree being built is a reported page |
| BootAddressSpace.MapSectionPage | boot/src/main.c:138-144 | one turn of the loop maps one more page, which was not mapped, and nothing else |
| BootAddressSpace.AllocateRoot | boot/src/main.c:129-130 | an empty PML4, or an error of the firmware or the pool |
| BootAddressSpace.EntryOf | common/include/rkhv/memory_map.h:48-52 | no page of a section lies under PML4 entry 0, which paging_map_physical requires to be free |
| BootAddressSpace.SectionIsMapped | boot/src/main.c:132-145 | what the loop leaves for byte b of a section is its loaded byte, with exactly the section's permission |
| BootAddressSpace.PhysicalIsMapped | common/include/rkhv/memory_map.h:56 | pa and P2V(pa) both translate to pa below 512 GiB |
| MemoryMapCoalescing.OfferedPages | hv/src/memory_management/memory_management.c:126-157 | the cursors of the allocator are exactly the usable pages of a memory map's expansion |
| Ownership.HolderIsOwner | hv/src/memory_management/memory_management.c:84-97 | the structure that holds a page is the owner the map records |
| Ownership.OwnerHolds | hv/src/memory_management/memory_management.c:84-97 | the owner the map records holds the page |

## Left out

- Assembly stubs, XSAVE, IDT and GDT loading, VMX instructions: foreign code. Processor state appears only where the MSR switch and address resolution read it.
- UEFI files, console, and the ExitBootServices retry: I/O. AllocatePages is a class that returns unused pages of its own choice or fails.
- The firmware's own bookkeeping of the section and attachment pages: the addresses the files were loaded at are a parameter.
- TLB, caches, several processors, access-right faults: not in the code.
- The contents of VMCS fields and of the zero page: parameters. The command line is a parameter without its terminator, which the model stores.
- The contents of the MSR bitmap page inside the ownership model: a parameter; MsrSwitching.InitBitmaps has them, byte by byte.
- INS: it writes to guest memory and may rewrite the tables it resolves through. Devices receive the trace of port writes; their dispatch by port is left out.
- CPUID, XSETBV and control-register emulation, register reads of the serial port: one-branch checks.
- Arena headers live in a dictionary keyed by page instead of the first bytes of the page; sub-arenas are never created by the source.
- A VMCS region is written with its revision identifier only; what the processor stores there is not modelled.
- Physical pages lie below 2^52; pages of memory that were never written read as zero. The first access to a page that was allocated is modelled as faulting behind 512 GiB; the accesses to the chainload page and the attachments, and a store that spills from the last page below 512 GiB, are not.
- The 63-bit and 56-bit bit fields of the chainload page are promoted to 64 bits in expressions, as clang does.
- LinuxLoader.LoadLinux: what the guest reads is stated for kernels that do not wrap around the end of the 48-bit guest space; what lies behind the image is a parameter.
- KernelCopy.CopySucceeds: speaks of placed kernels; for all others LinuxLoader.CopyKernel gives memory after the loop as the iterated store.
- Emulation.ExitState.RepOuts: the context (memory, EPT, control registers) is constant during a run, since OUTS writes no guest memory.
- MsrSwitching.Processor.Run: VM entry and exit are atomic with the switch; code that runs between the processor's exit and vmx_msr_vmexit reads the VMCS host area and the guest's other registers.
- BootHandover.Boot: one firmware memory map is handed in, usable memory in it page-aligned and below 2^52, and attachments that end below 2^52; that the firmware lists its own allocations as usable loader data is allowed and not assumed.
- GuestMemoryAllocation.AllocateGuestPhysicalMemory: the exact reserve and success are stated for a machine that tracked nothing before; on any other the invariant and the pages of all other owners are still kept. The room that success asks of the arena is what the stretches of pages take at most; where stretches happen to join, less is enough.
- Ownership.Run: says nothing about a run that ended in PANIC, which stops the hypervisor. Operations on machines or arenas that do not exist, and set-up of or stores by guests with a mapping that a client chose freely, are skipped. Linux is loaded with a command line that is not 4096 characters long and a kernel that is placed (Ownership.StaysInGuest); LinuxLoader.CommandLineBreaksEpt and LinuxLoader.KernelCopyBreaksEpt show that others break the invariant.
- HypervisorMain.HvMain: the guest registers that hvmain sets beside CR3, and the code of the small program, which is a parameter of at most 1024 bytes.
- HypervisorState.Hypervisor.GetFreePage: what the source reads in front of the array after a search has run past its start is not modelled; the outcome is SearchUnderflow.
