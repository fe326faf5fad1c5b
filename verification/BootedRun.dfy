/** The hypervisor as it was booted: its address space survives any use of the memory management, and memory
    behind the map of physical memory faults. */
module BootedHypervisor {
  import opened Bits
  import opened Paging
  import opened PhysicalMemory
  import opened Bytes
  import opened RadixTree
  import opened Outcomes
  import opened Chainload
  import opened PageScan
  import opened AddressMap
  import opened HypervisorState
  import opened VmxPages
  import opened Ownership
  import opened BootPool
  import opened BootAddressSpace
  import opened BootHandover
  import opened MemoryMapCoalescing

  // --- the address space of the hypervisor survives every run ----------------------------------------------

  /** A walk depends on the tables it uses. */
  lemma {:induction false} WalkFrame(m: Memory, m': Memory, table: nat, level: nat, a: nat)
    requires level <= 3
    requires forall to: nat :: to <= level && TableOnWalk(m, table, level, to, a).Some? ==>
               SameAt(m, m', TableOnWalk(m, table, level, to, a).value)
    ensures Walk(m', table, level, a) == Walk(m, table, level, a)
    decreases level
  {
    assert TableOnWalk(m, table, level, level, a) == Some(table);
    var e := At(m, table)[Index(a, level)];
    if level > 0 && Present(e) && !IsLeaf(e, level) {
      var next, below := Base(e), level - 1;
      forall to: nat | to <= below && TableOnWalk(m, next, below, to, a).Some?
        ensures SameAt(m, m', TableOnWalk(m, next, below, to, a).value)
      {
        assert TableOnWalk(m, table, level, to, a) == TableOnWalk(m, next, below, to, a);
      }
      WalkFrame(m, m', next, below, a);
    }
  }

  /** The boot loader's address space lies in pages it reported. */
  lemma SpaceSurvives(boot: ChainloadPage, m: Memory, m': Memory, pml4: nat, loaded: seq<u64>)
    requires LoadedOk(loaded) && BootSpace(m, pml4, loaded) && ImageKept(boot, m, m')
    requires forall level: nat, a: nat :: level <= 3 && TableOnWalk(m, pml4, 3, level, a).Some? ==>
               InChainload(boot, TableOnWalk(m, pml4, 3, level, a).value)
    ensures BootSpace(m', pml4, loaded)
  {
    hide InChainload, TableOnWalk, Walk, BootSpace;
    forall a: nat
      ensures Lookup(m', pml4, a) == Lookup(m, pml4, a)
    {
      WalkFrame(m, m', pml4, 3, a);
    }
    SameSpace(m, m', pml4, loaded);
  }

  lemma SameSpace(m: Memory, m': Memory, pml4: nat, loaded: seq<u64>)
    requires LoadedOk(loaded) && BootSpace(m, pml4, loaded)
    requires forall a: nat :: Lookup(m', pml4, a) == Lookup(m, pml4, a)
    ensures BootSpace(m', pml4, loaded)
  {
    hide Lookup, SectionMapped, SectionByte, InSection, P2V, Target;
    forall s: nat, b: nat | s < RKHV_MAX_SECTIONS && b < SECTION_PAGES * PAGE_SIZE
      ensures SectionMapped(Lookup(m', pml4, SectionByte(s, b)), loaded, s, b)
    {
      assert loaded[s] >= 0 && SectionMapped(Lookup(m, pml4, SectionByte(s, b)), loaded, s, b);
    }
    forall pa: nat | pa < PHYSICAL_MAP_SIZE
      ensures PhysicalMapped(m', pml4, pa, pa) && PhysicalMapped(m', pml4, P2V(pa), pa)
    {
      assert PhysicalMapped(m, pml4, pa, pa) && PhysicalMapped(m, pml4, P2V(pa), pa);
    }
  }

  /** From the firmware through the boot loader to any sequence of operations of the hypervisor: at the end the
      invariant holds, and the hypervisor still runs in the address space that the boot loader built. */
  method BootAndRun(firmware: Firmware, memory: Memory, loaded: seq<u64>, chainloadPage: nat,
                    attachments: seq<Attachment>, mmap: seq<EfiDescriptor>, vmcsRevision: u64, msrBitmaps: Page,
                    ops: seq<Operation>, behind: nat -> u8)
    returns (status: EfiStatus, pml4: nat, hv: Hypervisor?, r: Outcome<()>)
    requires LoadedOk(loaded) && AttachmentsOk(attachments) && FirmwareOk(mmap)
    requires forall op :: op in ops ==> StaysInGuest(op)
    modifies firmware
    ensures hv != null <==> status.EfiSuccess?
    ensures hv != null && r.Ok? ==>
              && hv.Valid() && Reflects(hv, ops) && BootSpace(hv.memory, pml4, loaded)
              && (forall p: nat :: p in old(firmware.inUse) && InChainload(hv.boot, p) ==> SameAt(memory, hv.memory, p))
              && FilesKept(memory, hv.memory, attachments, old(firmware.inUse))
              && (forall p: nat :: p in old(firmware.inUse) && Loaded(p, chainloadPage, loaded, attachments) ==>
                    SameAt(memory, hv.memory, p))
  {
    hide Loaded, FilesKept, FilesInUse, BootSpace, Hypervisor.Valid, Reflects, Exclusive, AllReservedIdle, ScansExactly,
      InChainload, TableOnWalk,
      AttachmentsOk, FirmwareOk, StaysInGuest, Kept, PlainAll;
    r := Ok(());
    ghost var inUse := firmware.inUse;
    ghost var pages;
    status, pml4, hv, pages :=
      Boot(firmware, memory, loaded, chainloadPage, attachments, mmap, vmcsRevision, msrBitmaps);
    if hv == null {
      return;
    }
    ghost var m := hv.memory;
    assert forall p: nat :: p in inUse && Loaded(p, chainloadPage, loaded, attachments) ==> InChainload(hv.boot, p);
    NothingOwnedYet(hv, pml4, loaded);
    r := Run(hv, ops, behind);
    if r.Ok? {
      SpaceSurvives(hv.boot, m, hv.memory, pml4, loaded);
      forall p: nat | p in old(firmware.inUse) && InChainload(hv.boot, p)
        ensures SameAt(memory, hv.memory, p)
      {
        assert SameAt(memory, m, p) && SameAt(m, hv.memory, p);
      }
      KeptFiles(memory, hv.memory, chainloadPage, loaded, attachments, inUse);
    }
  }

  /** Every byte of an attached file that was read into memory of the boot loader has kept its value. */
  ghost predicate FilesKept(m: Memory, m': Memory, attachments: seq<Attachment>, inUse: set<nat>) {
    forall k: nat, b: nat {:trigger FilePage(attachments[k], b)} ::
      Attached(attachments, k) && b < attachments[k].size && FilePage(attachments[k], b) in inUse ==>
        ByteAt(m', attachments[k].physicalAddress + b) == ByteAt(m, attachments[k].physicalAddress + b)
  }

  lemma KeptFiles(m: Memory, m': Memory, chainloadPage: nat, loaded: seq<u64>, attachments: seq<Attachment>,
                  inUse: set<nat>)
    requires forall p: nat :: p in inUse && Loaded(p, chainloadPage, loaded, attachments) ==> SameAt(m, m', p)
    ensures FilesKept(m, m', attachments, inUse)
  {
    hide PageByte;
    forall k: nat, b: nat | Attached(attachments, k) && b < attachments[k].size
                            && FilePage(attachments[k], b) in inUse
      ensures ByteAt(m', attachments[k].physicalAddress + b) == ByteAt(m, attachments[k].physicalAddress + b)
    {
      assert Loaded(FilePage(attachments[k], b), chainloadPage, loaded, attachments);
      assert SameAt(m, m', FilePage(attachments[k], b));
    }
  }

  lemma NothingOwnedYet(hv: Hypervisor, pml4: nat, loaded: seq<u64>)
    requires LoadedOk(loaded) && hv.owner == map[] && OwnImageInUse(hv, pml4, loaded)
    ensures forall level: nat, a: nat :: level <= 3 && TableOnWalk(hv.memory, pml4, 3, level, a).Some? ==>
              InChainload(hv.boot, TableOnWalk(hv.memory, pml4, 3, level, a).value)
  {
    hide InChainload, TableOnWalk;
  }

  // --- memory behind the map of physical memory -----------------------------------------------------------

  /** The failing maps for the page allocator: when the topmost usable page lies behind the map of physical memory
      and is free, the first thing the hypervisor does with memory faults. */
  method HighMemoryFaults(boot: ChainloadPage, vmcsRevision: u64, msrBitmaps: Page, memory: Memory, ghost top: Cursor)
    returns (r: Outcome<nat>)
    requires BootOk(boot) && CursorOk(boot.mmap, top) && Rank(boot.mmap, top) == Total(boot.mmap) - 1
    requires !InChainload(boot, PageAt(boot.mmap, top)) && !IsFrame(PageAt(boot.mmap, top))
    ensures r == Panic(PageFault)
  {
    hide Hypervisor.Valid, InChainload, BootOk, Rank;
    var hv := new Hypervisor(boot, vmcsRevision, msrBitmaps, memory);
    TopIsFree(hv, top);
    r := GetVmxonRegion(hv);
  }

  lemma TopIsFree(hv: Hypervisor, top: Cursor)
    requires hv.lastReturned == None && hv.owner == map[] && hv.vms == []
    requires CursorOk(hv.boot.mmap, top) && Rank(hv.boot.mmap, top) == Total(hv.boot.mmap) - 1
    requires !InChainload(hv.boot, PageAt(hv.boot.mmap, top))
    ensures hv.ScanStart(top) && !hv.LooksUsed(PageAt(hv.boot.mmap, top))
  {
    hide InChainload;
  }

  /** Such a map: one usable page, at 512 GiB. */
  lemma HighMemoryMap() returns (boot: ChainloadPage, top: Cursor)
    ensures BootOk(boot) && CursorOk(boot.mmap, top) && Rank(boot.mmap, top) == Total(boot.mmap) - 1
    ensures !InChainload(boot, PageAt(boot.mmap, top)) && !IsFrame(PageAt(boot.mmap, top))
    ensures !WithinPhysicalMap(boot.mmap)
  {
    var mmap := seq(RKHV_MAX_EFI_MMAP_DESCRIPTORS, k => MmapDescriptor(if k == 0 then PHYSICAL_MAP_SIZE else 0,
                                                                       if k == 0 then 1 else 0, k == 0));
    boot := ChainloadPage(seq(RKHV_MAX_SECTIONS, k => Region(0, 0)), 0,
                          seq(RKHV_MAX_ATTACHMENTS, k => Attachment(0, 0, true)),
                          seq(RKHV_MAX_PAGE_TABLE_REGIONS, k => Region(0, 0)), mmap);
    top := Cursor(0, 0);
    GapIsEmpty(mmap, 1, |mmap|);
    assert Below(mmap, 0) == 0;
  }
}
