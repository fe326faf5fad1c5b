/** From the firmware to the hypervisor (boot/src/main.c, boot/src/paging.c): the boot loader builds the
    address space, describes what it occupies and the memory map in the chainload page, and the hypervisor
    starts from that page. */
module BootHandover {
  import opened Bits
  import opened PhysicalMemory
  import opened Chainload
  import opened PageScan
  import opened HypervisorState
  import opened BootPool
  import opened BootPhysicalMap
  import opened BootAddressSpace
  import opened MemoryMapCoalescing
  import opened AddressMap
  import opened Paging
  import opened RadixTree
  import opened Outcomes

  function SectionRegions(loaded: seq<u64>): (r: seq<Region>)
    requires LoadedOk(loaded)
    ensures RegionsOk(r) && |r| == |loaded|
  {
    seq(|loaded|, s requires 0 <= s < |loaded| => Region(loaded[s], SECTION_PAGES))
  }

  /** The files that the boot loader read into whole pages. */
  predicate AttachmentsOk(attachments: seq<Attachment>) {
    |attachments| == RKHV_MAX_ATTACHMENTS
    && forall k :: 0 <= k < |attachments| ==> RegionOk(AttachmentRegion(attachments[k]))
  }

  /** The file is in front of the first end marker. */
  predicate Attached(attachments: seq<Attachment>, k: nat) {
    k < |attachments| && forall j :: 0 <= j <= k ==> !attachments[j].isEnd
  }

  /** The page of byte b of a file. */
  function FilePage(a: Attachment, b: nat): nat {
    a.physicalAddress + b - (a.physicalAddress + b) % PAGE_SIZE
  }

  /** The hypervisor never allocates a page with a byte of an attached file. */
  ghost predicate FilesInUse(hv: Hypervisor, attachments: seq<Attachment>)
    reads hv`owner
  {
    forall k: nat, b: nat {:trigger FilePage(attachments[k], b)} ::
      Attached(attachments, k) && b < attachments[k].size ==> hv.InUse(FilePage(attachments[k], b))
  }

  /** The page belongs to what was loaded: the chainload page, the sections and the files. */
  ghost predicate Loaded(p: nat, chainloadPage: nat, loaded: seq<u64>, attachments: seq<Attachment>) {
    || p == chainloadPage
    || (exists s: nat, k: nat :: s < |loaded| && k < SECTION_PAGES && p == NthPage(loaded[s], k))
    || (exists k: nat, b: nat ::
          Attached(attachments, k) && b < attachments[k].size && p == FilePage(attachments[k], b))
  }

  lemma FileInUse(c: ChainloadPage, k: nat, b: nat)
    requires AttachmentsOk(c.attachments) && Attached(c.attachments, k) && b < c.attachments[k].size
    ensures InChainload(c, FilePage(c.attachments[k], b))
  {
    hide InRegions;
    assert RegionOk(AttachmentRegion(c.attachments[k]));
    assert RegionCovers(AttachmentRegion(c.attachments[k]), FilePage(c.attachments[k], b));
  }

  lemma FilesAreInUse(hv: Hypervisor, attachments: seq<Attachment>)
    requires AttachmentsOk(attachments) && hv.boot.attachments == attachments
    ensures FilesInUse(hv, attachments)
  {
    hide InChainload;
    forall k: nat, b: nat | Attached(attachments, k) && b < attachments[k].size
      ensures hv.InUse(FilePage(attachments[k], b))
    {
      FileInUse(hv.boot, k, b);
    }
  }

  lemma LoadedIsInUse(c: ChainloadPage, loaded: seq<u64>, p: nat)
    requires LoadedOk(loaded) && c.sections == SectionRegions(loaded) && AttachmentsOk(c.attachments)
    requires Loaded(p, c.chainloadPage, loaded, c.attachments)
    ensures InChainload(c, p)
  {
    hide InChainload;
    if p != c.chainloadPage {
      if s: nat, k: nat :| s < |loaded| && k < SECTION_PAGES && p == NthPage(loaded[s], k) {
        SectionsInUse(c, loaded, s, k);
      } else {
        var k: nat, b: nat :| Attached(c.attachments, k) && b < c.attachments[k].size
                              && p == FilePage(c.attachments[k], b);
        FileInUse(c, k, b);
      }
    } else {
      ChainloadPageInUse(c);
    }
  }

  lemma ChainloadPageInUse(c: ChainloadPage)
    ensures InChainload(c, c.chainloadPage)
  {
  }

  lemma SectionIsLoaded(loaded: seq<u64>, p: nat)
    requires LoadedOk(loaded) && InRegions(SectionRegions(loaded), p)
    ensures exists s: nat, k: nat :: s < |loaded| && k < SECTION_PAGES && p == NthPage(loaded[s], k)
  {
    var s: nat :| s < |loaded| && RegionCovers(SectionRegions(loaded)[s], p);
    assert RunOk(loaded[s], SECTION_PAGES);
    assert p == NthPage(loaded[s], (p - loaded[s]) / PAGE_SIZE);
  }

  lemma FileIsLoaded(attachments: seq<Attachment>, p: nat)
    requires AttachmentsOk(attachments) && InAttachments(attachments, p)
    ensures exists k: nat, b: nat ::
              Attached(attachments, k) && b < attachments[k].size && p == FilePage(attachments[k], b)
  {
    var k: nat :| k < |attachments| && (forall j :: 0 <= j <= k ==> !attachments[j].isEnd)
                  && RegionCovers(AttachmentRegion(attachments[k]), p);
    assert RegionOk(AttachmentRegion(attachments[k]));
    assert p == FilePage(attachments[k], p - attachments[k].physicalAddress);
  }

  /** Beside these pages, only reported tables are in use. */
  lemma InUseIsLoaded(c: ChainloadPage, size: nat, loaded: seq<u64>, reported: set<nat>, p: nat)
    requires LoadedOk(loaded) && c.sections == SectionRegions(loaded) && AttachmentsOk(c.attachments)
    requires PoolOk(c.pageTableRegions, size, reported) && InChainload(c, p) && p !in reported
    ensures Loaded(p, c.chainloadPage, loaded, c.attachments)
  {
    hide InRegions, InAttachments, SectionRegions, FilePage, AttachmentsOk, RegionsOk;
    if InRegions(c.sections, p) {
      SectionIsLoaded(loaded, p);
    } else if InAttachments(c.attachments, p) {
      FileIsLoaded(c.attachments, p);
    }
  }

  /** The hypervisor never allocates the pages of its own sections, nor a table that a walk in its own
      address space uses. */
  ghost predicate OwnImageInUse(hv: Hypervisor, pml4: nat, loaded: seq<u64>)
    requires LoadedOk(loaded)
    reads hv`owner, hv`memory
  {
    && (forall s: nat, k: nat {:trigger loaded[s], NthPage(loaded[s], k)} ::
        s < RKHV_MAX_SECTIONS && k < SECTION_PAGES ==> hv.InUse(NthPage(loaded[s], k)))
    && (forall level: nat, a: nat :: level <= 3 && TableOnWalk(hv.memory, pml4, 3, level, a).Some? ==>
          hv.InUse(TableOnWalk(hv.memory, pml4, 3, level, a).value))
  }

  /** The page allocator scans exactly the pages that the first n descriptors call usable. */
  ghost predicate ScansExactly(out: seq<MmapDescriptor>, mmap: seq<EfiDescriptor>, n: nat)
    requires n <= |mmap|
  {
    forall pa: nat :: (exists c :: CursorOk(out, c) && PageAt(out, c) == pa) <==> OfferedByFirst(mmap, n, pa)
  }

  /** The memory map in the zeroed chainload page: the allocator is offered what the kept descriptors of the
      firmware call usable, whatever their page counts. */
  method DescribeMemory(mmap: seq<EfiDescriptor>) returns (out: seq<MmapDescriptor>)
    requires FirmwareOk(mmap)
    ensures |out| == RKHV_MAX_EFI_MMAP_DESCRIPTORS && forall k :: 0 <= k < |out| ==> UsableOk(out[k])
    ensures ScansExactly(out, mmap, Kept(PlainAll(mmap)))
  {
    hide Expand, PlainAll, OfferedByFirst, Runs, StoredAll, Kept;
    var efiMmapUsable := new MmapDescriptor[RKHV_MAX_EFI_MMAP_DESCRIPTORS](_ => MmapDescriptor(0, 0, false));
    Coalesce(mmap, efiMmapUsable);
    out := efiMmapUsable[..];
    ghost var n := Kept(PlainAll(mmap));
    ghost var runs := Runs(PlainAll(mmap)[..n]);
    assert out[..|runs|] == efiMmapUsable[..|runs|];
    PlainIsOk(mmap);
    RunsDescribe(PlainAll(mmap)[..n]);
    StoredIsOk(runs, out);
    forall pa: nat
      ensures (exists c :: CursorOk(out, c) && PageAt(out, c) == pa) <==> OfferedByFirst(mmap, n, pa)
    {
      MapIsFaithful(mmap, n, out, pa);
    }
  }

  lemma StoredIsOk(runs: seq<MmapDescriptor>, out: seq<MmapDescriptor>)
    requires |runs| <= |out| && out[..|runs|] == StoredAll(runs) && forall k :: 0 <= k < |runs| ==> UsableOk(runs[k])
    requires forall k :: |runs| <= k < |out| ==> out[k] == MmapDescriptor(0, 0, false)
    ensures forall k :: 0 <= k < |out| ==> UsableOk(out[k])
  {
    hide StoredAll;
    UsableIsStored(runs, Cursor(0, 0));
    forall k | 0 <= k < |out|
      ensures UsableOk(out[k])
    {
      assert k < |runs| ==> out[k] == StoredAll(runs)[k];
    }
  }

  lemma SectionsInUse(c: ChainloadPage, loaded: seq<u64>, s: nat, k: nat)
    requires LoadedOk(loaded) && c.sections == SectionRegions(loaded) && s < RKHV_MAX_SECTIONS && k < SECTION_PAGES
    ensures InChainload(c, NthPage(loaded[s], k))
  {
    assert RunOk(loaded[s], SECTION_PAGES);
    assert RegionCovers(c.sections[s], NthPage(loaded[s], k));
  }

  lemma ImageInUse(hv: Hypervisor, size: nat, pml4: nat, loaded: seq<u64>, reported: set<nat>)
    requires LoadedOk(loaded) && hv.boot.sections == SectionRegions(loaded)
    requires PoolOk(hv.boot.pageTableRegions, size, reported) && AllReported(hv.memory, pml4, 3, reported)
    ensures OwnImageInUse(hv, pml4, loaded)
  {
    hide InChainload, TableOnWalk, SectionRegions, NthPage, PoolOk, AllReported;
    forall s: nat, k: nat | s < RKHV_MAX_SECTIONS && k < SECTION_PAGES
      ensures hv.InUse(NthPage(loaded[s], k))
    {
      SectionsInUse(hv.boot, loaded, s, k);
    }
    forall level: nat, a: nat | level <= 3 && TableOnWalk(hv.memory, pml4, 3, level, a).Some?
      ensures hv.InUse(TableOnWalk(hv.memory, pml4, 3, level, a).value)
    {
      LiveTablesAreInUse(hv.boot, size, hv.memory, pml4, reported, a, level);
    }
  }

  // --- what the hypervisor can access ----------------------------------------------------------------------

  /** An address that the processor accepts: bits 47 to 63 are equal. */
  predicate Canonical(va: u64) {
    va < 0x8000_0000_0000 || va >= 0xffff_8000_0000_0000
  }

  /** P2V of the address leads to it. Any other access faults. */
  predicate Accessible(m: Memory, pml4: nat, pa: u64) {
    Canonical(P2V(pa)) && Translate(m, pml4, P2V(pa) % SPACE) == Some(pa)
  }

  /** Of physical memory the hypervisor can access the first 512 GiB and nothing else. */
  lemma FramesAreAccessible(m: Memory, pml4: nat, loaded: seq<u64>, pa: u64)
    requires LoadedOk(loaded) && BootSpace(m, pml4, loaded) && pa < 0x10_0000_0000_0000
    ensures Accessible(m, pml4, pa) <==> pa < PHYSICAL_MAP_SIZE
  {
    hide Lookup, SectionMapped, SectionByte, PhysicalMapped, Translate;
    var va := P2V(pa);
    assert va == pa + RKHV_PHYSICAL_MEMORY_BASE;
    if pa < PHYSICAL_MAP_SIZE {
      PhysicallyMapped(m, pml4, va, pa);
    } else if Canonical(va) {
      BehindTheMap(va);
      NothingThere(m, pml4, va);
    }
  }

  lemma PhysicallyMapped(m: Memory, pml4: nat, va: nat, pa: nat)
    requires PhysicalMapped(m, pml4, va, pa)
    ensures Translate(m, pml4, va) == Some(pa)
  {
    hide Translate, Lookup;
  }

  lemma BehindTheMap(va: nat)
    requires RKHV_PHYSICAL_MEMORY_BASE + PHYSICAL_MAP_SIZE <= va < 0x8000_0000_0000
    ensures !InPhysicalMap(va) && !InSection(va) && va % SPACE == va
  {
    hide PageNumber;
    forall s: nat, k: nat | s < RKHV_MAX_SECTIONS && k < SECTION_PAGES
      ensures va / PAGE_SIZE != PageNumber(s, k)
    {
      PagesApart(s, k, s, k);
    }
  }

  lemma NothingThere(m: Memory, pml4: nat, va: nat)
    requires Lookup(m, pml4, va) == None
    ensures Translate(m, pml4, va) == None
  {
    hide Lookup;
  }

  /** The hypervisor can access every page that its allocator scans exactly when all usable memory ends at or below
      512 GiB. */
  lemma AllocatorReaches(m: Memory, pml4: nat, loaded: seq<u64>, boot: ChainloadPage)
    requires LoadedOk(loaded) && BootSpace(m, pml4, loaded) && BootOk(boot)
    ensures (forall c :: CursorOk(boot.mmap, c) ==> ScanReaches(m, pml4, boot.mmap, c))
            <==> WithinPhysicalMap(boot.mmap)
  {
    hide BootSpace, Accessible, WithinPhysicalMap;
    ScannedPagesAreFrames(boot.mmap);
    forall c | CursorOk(boot.mmap, c)
      ensures ScanReaches(m, pml4, boot.mmap, c) <==> IsFrame(PageAt(boot.mmap, c))
    {
      assert UsableOk(boot.mmap[c.region]);
      FramesAreAccessible(m, pml4, loaded, PageAt(boot.mmap, c));
    }
  }

  predicate ScanReaches(m: Memory, pml4: nat, mmap: seq<MmapDescriptor>, c: Cursor)
    requires c.region < |mmap|
  {
    PageAt(mmap, c) < TWO_64 && Accessible(m, pml4, PageAt(mmap, c))
  }

  /** The part of efi_main behind the loading of the files, up to the first use of the memory management: when
      the boot succeeds, the invariant of the hypervisor holds, its address space is the promised one, its own
      image is in use, and the page allocator scans what the firmware calls usable. */
  method Boot(firmware: Firmware, memory: Memory, loaded: seq<u64>, chainloadPage: nat,
              attachments: seq<Attachment>, mmap: seq<EfiDescriptor>, vmcsRevision: u64, msrBitmaps: Page)
    returns (status: EfiStatus, pml4: nat, hv: Hypervisor?, ghost pages: PagePool)
    requires LoadedOk(loaded) && AttachmentsOk(attachments) && FirmwareOk(mmap)
    modifies firmware
    ensures status.EfiSuccess? <==> hv != null
    ensures status in {EfiSuccess, FirmwareError, EfiBufferTooSmall}
    ensures fresh(pages) && pages.Valid() && pages.firmware == firmware && pages.Explained(status)
    ensures hv != null ==>
              && fresh(hv) && fresh(hv.arenas) && hv.Valid() && hv.vms == [] && hv.msrBitmapsPage == None
              && hv.lastReturned == None && hv.vmxonRegion == None && hv.vmManagerArena == None
              && hv.vmcsRevision == vmcsRevision && hv.msrBitmaps == msrBitmaps
              && hv.owner == map[] && InChainload(hv.boot, chainloadPage)
              && BootSpace(hv.memory, pml4, loaded) && OwnImageInUse(hv, pml4, loaded)
              && ScansExactly(hv.boot.mmap, mmap, Kept(PlainAll(mmap)))
              && (forall p: nat :: p in old(firmware.inUse) ==> SameAt(memory, hv.memory, p))
              && FilesInUse(hv, attachments)
              && (forall p: nat :: p in old(firmware.inUse) ==>
                    (hv.InUse(p) <==> Loaded(p, chainloadPage, loaded, attachments)))
  {
    hide BootSpace, AllReported, Hypervisor.Valid, PlainAll, Kept, ScansExactly, PoolOk, OwnImageInUse, InRegions,
      InAttachments, Loaded, FilesInUse, SectionRegions;
    hv := null;
    var built;
    status, pml4, built := BuildAddressSpace(firmware, memory, loaded);
    pages := built;
    if !status.EfiSuccess? {
      return;
    }
    var out := DescribeMemory(mmap);
    var c := ChainloadPage(SectionRegions(loaded), chainloadPage, attachments, built.pool[..], out);
    PoolParts(c.pageTableRegions, pages.size, pages.reported);
    hv := new Hypervisor(c, vmcsRevision, msrBitmaps, built.memory);
    ImageInUse(hv, pages.size, pml4, loaded, pages.reported);
    FilesAreInUse(hv, attachments);
    forall p: nat | p in old(firmware.inUse)
      ensures hv.InUse(p) <==> Loaded(p, chainloadPage, loaded, attachments)
    {
      if hv.InUse(p) {
        InUseIsLoaded(c, pages.size, loaded, pages.reported, p);
      }
      if Loaded(p, chainloadPage, loaded, attachments) {
        LoadedIsInUse(hv.boot, loaded, p);
      }
    }
  }
}
