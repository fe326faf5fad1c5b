/** What the boot loader tells the hypervisor (common/include/rkhv/chainload.h): the pages it
    occupies and the memory map. */
module Chainload {
  import opened Bits
  import opened Paging

  const RKHV_MAX_SECTIONS: nat := 4
  const RKHV_MAX_PAGE_TABLE_REGIONS: nat := 16
  const RKHV_MAX_ATTACHMENTS: nat := 4
  const RKHV_MAX_EFI_MMAP_DESCRIPTORS: nat := 231

  datatype Region = Region(physicalAddress: nat, pages: nat)
  datatype Attachment = Attachment(physicalAddress: nat, size: nat, isEnd: bool)
  datatype MmapDescriptor = MmapDescriptor(physicalAddress: nat, pages: nat, usable: bool)

  datatype ChainloadPage = ChainloadPage(
    sections: seq<Region>,
    chainloadPage: nat,
    attachments: seq<Attachment>,
    pageTableRegions: seq<Region>,
    mmap: seq<MmapDescriptor>)

  predicate RegionCovers(r: Region, pa: nat) {
    pa % PAGE_SIZE == 0 && r.physicalAddress <= pa < r.physicalAddress + r.pages * PAGE_SIZE
  }

  ghost predicate InRegions(rs: seq<Region>, pa: nat) {
    exists k :: 0 <= k < |rs| && RegionCovers(rs[k], pa)
  }

  function AttachmentRegion(a: Attachment): Region {
    Region(a.physicalAddress, a.size / PAGE_SIZE + if a.size % PAGE_SIZE == 0 then 0 else 1)
  }

  /** The attachments in front of the first end marker. */
  ghost predicate InAttachments(as': seq<Attachment>, pa: nat) {
    exists k :: 0 <= k < |as'| && (forall j :: 0 <= j <= k ==> !as'[j].isEnd)
                && RegionCovers(AttachmentRegion(as'[k]), pa)
  }

  /** The page is occupied by what the boot loader left in memory. */
  ghost predicate InChainload(c: ChainloadPage, pa: nat) {
    || pa == c.chainloadPage
    || InRegions(c.sections, pa)
    || InAttachments(c.attachments, pa)
    || InRegions(c.pageTableRegions, pa)
  }

  predicate RegionOk(r: Region) {
    r.physicalAddress % PAGE_SIZE == 0 && r.physicalAddress + r.pages * PAGE_SIZE <= 0x10_0000_0000_0000
  }

  predicate RegionsOk(rs: seq<Region>) {
    forall k :: 0 <= k < |rs| ==> RegionOk(rs[k])
  }

  predicate UsableOk(d: MmapDescriptor) {
    d.usable ==>
      && d.physicalAddress % PAGE_SIZE == 0
      && d.physicalAddress + d.pages * PAGE_SIZE <= 0x10_0000_0000_0000
  }

  /** What the hypervisor relies on: arrays of their fixed lengths, and page-aligned regions below 2^52. */
  predicate BootOk(c: ChainloadPage) {
    && |c.sections| == RKHV_MAX_SECTIONS && RegionsOk(c.sections)
    && |c.attachments| == RKHV_MAX_ATTACHMENTS
    && (forall k :: 0 <= k < |c.attachments| ==> RegionOk(AttachmentRegion(c.attachments[k])))
    && |c.pageTableRegions| == RKHV_MAX_PAGE_TABLE_REGIONS && RegionsOk(c.pageTableRegions)
    && |c.mmap| == RKHV_MAX_EFI_MMAP_DESCRIPTORS
    && (forall k :: 0 <= k < |c.mmap| ==> UsableOk(c.mmap[k]))
  }

  /** pa & PAGE_MASK drops the offset. */
  lemma PageMaskAligns(pa: u64)
    ensures And(pa, PAGE_MASK) == pa - pa % PAGE_SIZE
  {
    hide And, Pow2;
    PowersOfTwo();
    Pow2Adds(40, 12);
    MaskIs(12, 52);
    AndField(pa, 12, 52);
  }

  /** The loop over one array of regions. */
  method TestRegions(rs: seq<Region>, pa: nat) returns (used: bool)
    requires RegionsOk(rs) && pa % PAGE_SIZE == 0
    ensures used <==> InRegions(rs, pa)
  {
    for i := 0 to |rs|
      invariant forall k :: 0 <= k < i ==> !RegionCovers(rs[k], pa)
    {
      if rs[i].pages > 0 {
        var first := rs[i].physicalAddress;
        var last := first + (rs[i].pages - 1) * PAGE_SIZE;
        if pa >= first && pa <= last {
          assert RegionCovers(rs[i], pa);
          return true;
        }
      }
    }
    return false;
  }

  /** The loop over the attachments. */
  method TestAttachments(attachments: seq<Attachment>, pa: nat) returns (used: bool)
    requires pa % PAGE_SIZE == 0
    requires forall k :: 0 <= k < |attachments| ==> RegionOk(AttachmentRegion(attachments[k]))
    ensures used <==> InAttachments(attachments, pa)
  {
    hide RegionCovers;
    var i := 0;
    while i < |attachments| && !attachments[i].isEnd
      invariant 0 <= i <= |attachments|
      invariant forall j :: 0 <= j < i ==>
                  !attachments[j].isEnd && !RegionCovers(AttachmentRegion(attachments[j]), pa)
    {
      var attachment := attachments[i];
      if attachment.size > 0 {
        var pages := attachment.size / PAGE_SIZE + if attachment.size % PAGE_SIZE == 0 then 0 else 1;
        var first := attachment.physicalAddress;
        var last := first + (pages - 1) * PAGE_SIZE;
        assert RegionOk(AttachmentRegion(attachment));
        LastOfRegion(AttachmentRegion(attachment), pa);
        if pa >= first && pa <= last {
          return true;
        }
      } else {
        NoPages(AttachmentRegion(attachment), pa);
      }
      i := i + 1;
    }
    return false;
  }

  /** An aligned page of a region lies at or below its last one. */
  lemma LastOfRegion(r: Region, pa: nat)
    requires pa % PAGE_SIZE == 0 && r.physicalAddress % PAGE_SIZE == 0 && r.pages > 0
    ensures RegionCovers(r, pa) <==> r.physicalAddress <= pa <= r.physicalAddress + (r.pages - 1) * PAGE_SIZE
  {
  }

  lemma NoPages(r: Region, pa: nat)
    requires r.pages == 0
    ensures !RegionCovers(r, pa)
  {
  }

  /** mm_page_used_by_chainload. */
  method UsedByChainload(c: ChainloadPage, address: u64) returns (used: bool)
    requires BootOk(c)
    ensures used <==> InChainload(c, address - address % PAGE_SIZE)
  {
    hide And, InRegions, InAttachments, RegionOk;
    var pa := And(address, PAGE_MASK);
    PageMaskAligns(address);
    if pa == c.chainloadPage {
      return true;
    }
    used := TestRegions(c.sections, pa);
    if used {
      return;
    }
    used := TestAttachments(c.attachments, pa);
    if used {
      return;
    }
    used := TestRegions(c.pageTableRegions, pa);
  }
}
