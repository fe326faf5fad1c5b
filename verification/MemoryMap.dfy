/** The memory map that the boot loader hands over (boot/src/main.c): the firmware's descriptors,
    consecutive ones of the same kind merged, in at most RKHV_MAX_EFI_MMAP_DESCRIPTORS entries. */
module MemoryMapCoalescing {
  import opened Bits
  import opened Paging
  import opened Chainload
  import opened PageScan

  /** EFI_MEMORY_TYPE, table 7.6 of the UEFI specification. */
  datatype EfiMemoryType =
    | EfiReservedMemoryType
    | EfiLoaderCode
    | EfiLoaderData
    | EfiBootServicesCode
    | EfiBootServicesData
    | EfiRuntimeServicesCode
    | EfiRuntimeServicesData
    | EfiConventionalMemory
    | EfiUnusableMemory
    | EfiACPIReclaimMemory
    | EfiACPIMemoryNVS
    | EfiMemoryMappedIO
    | EfiMemoryMappedIOPortSpace
    | EfiPalCode
    | OtherType(value: nat)

  datatype EfiDescriptor = EfiDescriptor(memoryType: EfiMemoryType, physicalStart: u64, numberOfPages: u64)

  /** The types that are free for use once the boot services have been left. */
  predicate Usable(t: EfiMemoryType) {
    match t
    case EfiLoaderCode => true
    case EfiLoaderData => true
    case EfiBootServicesCode => true
    case EfiBootServicesData => true
    case EfiConventionalMemory => true
    case _ => false
  }

  function Plain(d: EfiDescriptor): MmapDescriptor {
    MmapDescriptor(d.physicalStart, d.numberOfPages, Usable(d.memoryType))
  }

  function PlainAll(ds: seq<EfiDescriptor>): (r: seq<MmapDescriptor>)
    ensures |r| == |ds| && forall i :: 0 <= i < |ds| ==> r[i] == Plain(ds[i])
  {
    if ds == [] then [] else PlainAll(ds[..|ds| - 1]) + [Plain(ds[|ds| - 1])]
  }

  // --- what a memory map means ---------------------------------------------------------------------

  datatype PageInfo = PageInfo(address: nat, usable: bool)

  function PageInfoAt(d: MmapDescriptor, k: nat): PageInfo {
    PageInfo((d.physicalAddress + k * PAGE_SIZE) % TWO_64, d.usable)
  }

  function ExpandOne(d: MmapDescriptor, pages: nat): (r: seq<PageInfo>)
    ensures |r| == pages
  {
    if pages == 0 then [] else ExpandOne(d, pages - 1) + [PageInfoAt(d, pages - 1)]
  }

  /** The pages a map describes, in order. Addresses are 64-bit words. */
  function Expand(ds: seq<MmapDescriptor>): seq<PageInfo> {
    if ds == [] then []
    else Expand(ds[..|ds| - 1]) + ExpandOne(ds[|ds| - 1], ds[|ds| - 1].pages)
  }

  /** The end of a descriptor. */
  function End(d: MmapDescriptor): nat {
    (d.physicalAddress + d.pages * PAGE_SIZE) % TWO_64
  }

  /** d' continues d, so that one descriptor could stand for both. */
  predicate Mergeable(d: MmapDescriptor, d': MmapDescriptor) {
    d.usable == d'.usable && End(d) == d'.physicalAddress
  }

  lemma {:induction false} ExpandMerged(d: MmapDescriptor, d': MmapDescriptor, n: nat)
    requires Mergeable(d, d')
    ensures ExpandOne(d, d.pages + n) == ExpandOne(d, d.pages) + ExpandOne(d', n)
  {
    if n > 0 {
      ExpandMerged(d, d', n - 1);
      MergedPage(d, d', n - 1);
    }
  }

  lemma MergedPage(d: MmapDescriptor, d': MmapDescriptor, k: nat)
    requires Mergeable(d, d')
    ensures PageInfoAt(d, d.pages + k) == PageInfoAt(d', k)
  {
    var end := d.physicalAddress + d.pages * PAGE_SIZE;
    var x := d'.physicalAddress + k * PAGE_SIZE;
    assert end + k * PAGE_SIZE == end / TWO_64 * TWO_64 + x;
    RemainderIs(end + k * PAGE_SIZE, TWO_64, end / TWO_64 + x / TWO_64, x % TWO_64);
  }

  lemma {:induction false} ExpandIgnores(d: MmapDescriptor, pages: nat, n: nat)
    ensures ExpandOne(d.(pages := pages), n) == ExpandOne(d, n)
  {
    if n > 0 {
      ExpandIgnores(d, pages, n - 1);
    }
  }

  lemma ExpandPush(ds: seq<MmapDescriptor>, d: MmapDescriptor)
    ensures Expand(ds + [d]) == Expand(ds) + ExpandOne(d, d.pages)
  {
    assert (ds + [d])[..|ds|] == ds;
  }

  /** Merging d into the last descriptor describes the same pages as appending it. */
  lemma ExpandMerge(ds: seq<MmapDescriptor>, last: MmapDescriptor, d: MmapDescriptor)
    requires Mergeable(last, d)
    ensures Expand(ds + [last.(pages := last.pages + d.pages)]) == Expand(ds + [last]) + ExpandOne(d, d.pages)
  {
    hide Expand, ExpandOne;
    var merged := last.(pages := last.pages + d.pages);
    ExpandPush(ds, merged);
    ExpandPush(ds, last);
    ExpandIgnores(last, merged.pages, merged.pages);
    ExpandMerged(last, d, d.pages);
  }

  /** Fewer descriptors describe a prefix of the pages. */
  lemma {:induction false} ExpandPrefix(ds: seq<MmapDescriptor>, n: nat)
    requires n <= |ds|
    ensures Expand(ds[..n]) <= Expand(ds)
  {
    if n < |ds| {
      ExpandPrefix(ds[..|ds| - 1], n);
      assert ds[..|ds| - 1][..n] == ds[..n];
    } else {
      assert ds[..n] == ds;
    }
  }

  // --- the 63-bit page counts ------------------------------------------------------------------------

  /** The bit field for the number of pages has 63 bits. */
  const PAGES_LIMIT: nat := 0x8000_0000_0000_0000

  function Stored(d: MmapDescriptor): MmapDescriptor {
    d.(pages := d.pages % PAGES_LIMIT)
  }

  function StoredAll(ds: seq<MmapDescriptor>): (r: seq<MmapDescriptor>)
    ensures |r| == |ds| && forall i :: 0 <= i < |ds| ==> r[i] == Stored(ds[i])
  {
    if ds == [] then [] else StoredAll(ds[..|ds| - 1]) + [Stored(ds[|ds| - 1])]
  }

  /** Truncating the count moves the end by a multiple of 2^75, so merging decisions do not depend on it. */
  lemma StoredEnd(d: MmapDescriptor)
    ensures End(Stored(d)) == End(d)
  {
    var q, r := d.pages / PAGES_LIMIT, d.pages % PAGES_LIMIT;
    var x := d.physicalAddress + r * PAGE_SIZE;
    assert d.physicalAddress + d.pages * PAGE_SIZE == q * 0x800 * TWO_64 + x;
    RemainderIs(d.physicalAddress + d.pages * PAGE_SIZE, TWO_64, q * 0x800 + x / TWO_64, x % TWO_64);
  }

  lemma StoredSum(pages: nat, more: nat)
    ensures (pages % PAGES_LIMIT + more) % PAGES_LIMIT == (pages + more) % PAGES_LIMIT
  {
    var x := pages % PAGES_LIMIT + more;
    RemainderIs(pages + more, PAGES_LIMIT, pages / PAGES_LIMIT + x / PAGES_LIMIT, x % PAGES_LIMIT);
  }

  function TotalPages(ds: seq<MmapDescriptor>): nat {
    if ds == [] then 0 else TotalPages(ds[..|ds| - 1]) + ds[|ds| - 1].pages
  }

  lemma {:induction false} ExpandLength(ds: seq<MmapDescriptor>)
    ensures |Expand(ds)| == TotalPages(ds)
  {
    if ds != [] {
      ExpandLength(ds[..|ds| - 1]);
    }
  }

  lemma {:induction false} StoredLength(ds: seq<MmapDescriptor>)
    ensures TotalPages(StoredAll(ds)) <= TotalPages(ds)
    ensures (exists i :: 0 <= i < |ds| && ds[i].pages >= PAGES_LIMIT) ==> TotalPages(StoredAll(ds)) < TotalPages(ds)
  {
    if ds != [] {
      var front := ds[..|ds| - 1];
      StoredLength(front);
      assert StoredAll(ds)[..|ds| - 1] == StoredAll(front);
      if i :| 0 <= i < |ds| && ds[i].pages >= PAGES_LIMIT {
        assert i < |ds| - 1 ==> front[i].pages >= PAGES_LIMIT;
      }
    }
  }

  predicate CountsFit(ds: seq<MmapDescriptor>) {
    forall i :: 0 <= i < |ds| ==> ds[i].pages < PAGES_LIMIT
  }

  lemma StoredFits(ds: seq<MmapDescriptor>)
    requires CountsFit(ds)
    ensures StoredAll(ds) == ds
  {
    hide StoredAll;
  }

  /** The stored descriptors describe the same pages exactly when every count fits in its field. */
  lemma StoredMeaning(ds: seq<MmapDescriptor>)
    ensures Expand(StoredAll(ds)) == Expand(ds) <==> CountsFit(ds)
  {
    if CountsFit(ds) {
      StoredFits(ds);
    } else {
      hide Expand, StoredAll, TotalPages;
      ExpandLength(ds);
      ExpandLength(StoredAll(ds));
      StoredLength(ds);
    }
  }

  /** Such an input: one descriptor of 2^63 pages is stored as an empty one. */
  lemma HugeCountIsLost(d: MmapDescriptor)
    requires d.pages == PAGES_LIMIT
    ensures Expand(StoredAll([d])) == [] && |Expand([d])| == PAGES_LIMIT
  {
    ExpandLength([d]);
    ExpandLength(StoredAll([d]));
  }

  lemma {:induction false} CountBelowTotal(ds: seq<MmapDescriptor>, i: nat)
    requires i < |ds|
    ensures ds[i].pages <= TotalPages(ds)
  {
    if i < |ds| - 1 {
      CountBelowTotal(ds[..|ds| - 1], i);
    }
  }

  // --- the loop -------------------------------------------------------------------------------------

  /** What the firmware says about memory it lets the system use. */
  predicate FirmwareOk(mmap: seq<EfiDescriptor>) {
    forall d :: d in mmap ==> UsableOk(Plain(d))
  }

  /** A descriptor is merged into the last one when it continues it, and appended otherwise. */
  function AddRun(runs: seq<MmapDescriptor>, d: MmapDescriptor): seq<MmapDescriptor> {
    var last := |runs| - 1;
    if runs != [] && Mergeable(runs[last], d) then runs[last := MergedWith(runs[last], d)] else runs + [d]
  }

  function MergedWith(last: MmapDescriptor, d: MmapDescriptor): MmapDescriptor {
    last.(pages := last.pages + d.pages)
  }

  /** The maximal runs of a memory map, with their full page counts. */
  function Runs(ds: seq<MmapDescriptor>): seq<MmapDescriptor> {
    if ds == [] then [] else AddRun(Runs(ds[..|ds| - 1]), ds[|ds| - 1])
  }

  /** The number of descriptors whose runs fit in the array of the chainload page. */
  function Kept(ds: seq<MmapDescriptor>): (n: nat)
    ensures n <= |ds|
  {
    if |Runs(ds)| <= RKHV_MAX_EFI_MMAP_DESCRIPTORS then |ds| else Kept(ds[..|ds| - 1])
  }

  /** The runs describe the same pages in the same order, and no two neighbours could be merged. */
  lemma {:induction false} RunsDescribe(ds: seq<MmapDescriptor>)
    ensures Expand(Runs(ds)) == Expand(ds)
    ensures forall k :: 0 <= k < |Runs(ds)| - 1 ==> !Mergeable(Runs(ds)[k], Runs(ds)[k + 1])
    ensures (forall d :: d in ds ==> UsableOk(d)) ==> forall k :: 0 <= k < |Runs(ds)| ==> UsableOk(Runs(ds)[k])
    ensures ds != [] ==> Runs(ds) != []
  {
    hide Expand, ExpandOne, Mergeable, UsableOk;
    if ds == [] {
    } else {
      var n := |ds| - 1;
      var d := ds[n];
      RunsDescribe(ds[..n]);
      assert ds == ds[..n] + [d];
      ExpandPush(ds[..n], d);
      if Runs(ds[..n]) != [] && Mergeable(Runs(ds[..n])[|Runs(ds[..n])| - 1], d) {
        MergeKeeps(Runs(ds[..n]), d);
      } else {
        ExpandPush(Runs(ds[..n]), d);
      }
    }
  }

  lemma {:induction false} RunsGrow(ds: seq<MmapDescriptor>, n: nat)
    requires n <= |ds|
    ensures |Runs(ds[..n])| <= |Runs(ds)|
  {
    if n < |ds| {
      RunsGrow(ds[..|ds| - 1], n);
      assert ds[..|ds| - 1][..n] == ds[..n];
    } else {
      assert ds[..n] == ds;
    }
  }

  /** Where the runs stop to fit. */
  lemma {:induction false} KeptIs(ds: seq<MmapDescriptor>, n: nat)
    requires n < |ds| && |Runs(ds[..n])| <= RKHV_MAX_EFI_MMAP_DESCRIPTORS < |Runs(ds[..n + 1])|
    ensures Kept(ds) == n
  {
    hide Runs;
    RunsGrow(ds, n + 1);
    if n + 1 == |ds| {
      assert ds[..n + 1] == ds;
    } else {
      assert ds[..|ds| - 1][..n] == ds[..n] && ds[..|ds| - 1][..n + 1] == ds[..n + 1];
      KeptIs(ds[..|ds| - 1], n);
    }
  }

  /** The coalescing loop of efi_main, into the array of the chainload page: the runs of the descriptors that are
      kept, with their counts as stored. */
  method Coalesce(mmap: seq<EfiDescriptor>, out: array<MmapDescriptor>)
    requires out.Length == RKHV_MAX_EFI_MMAP_DESCRIPTORS
    modifies out
    ensures var kept := PlainAll(mmap)[..Kept(PlainAll(mmap))];
            && |Runs(kept)| <= out.Length && out[..|Runs(kept)|] == StoredAll(Runs(kept))
            && forall k :: |Runs(kept)| <= k < out.Length ==> out[k] == old(out[k])
  {
    hide Expand, ExpandOne, PlainAll, StoredAll, Usable, Mergeable, Runs, Kept;
    ghost var ds := PlainAll(mmap);
    var efiMmapIndex, outMmapIndex := 0, 0;
    NoRuns(ds);
    while efiMmapIndex < |mmap|
      invariant 0 <= efiMmapIndex <= |mmap| && |Runs(ds[..efiMmapIndex])| <= out.Length
      invariant efiMmapIndex == 0 ==> outMmapIndex == 0 && Runs(ds[..0]) == []
      invariant efiMmapIndex > 0 ==> 0 <= outMmapIndex < out.Length && |Runs(ds[..efiMmapIndex])| == outMmapIndex + 1
      invariant forall k :: |Runs(ds[..efiMmapIndex])| <= k < out.Length ==> out[k] == old(out[k])
      invariant forall k :: 0 <= k < |Runs(ds[..efiMmapIndex])| ==> out[k] == Stored(Runs(ds[..efiMmapIndex])[k])
    {
      var desc := mmap[efiMmapIndex];
      var usable := Usable(desc.memoryType);
      ghost var runs := Runs(ds[..efiMmapIndex]);
      NextRun(ds, efiMmapIndex);
      var prev := out[outMmapIndex];
      if efiMmapIndex > 0 {
        StoredEnd(runs[outMmapIndex]);
        MergeTest(runs[outMmapIndex], Plain(desc));
      }
      if efiMmapIndex != 0 && prev.usable == usable && End(prev) == desc.physicalStart {
        out[outMmapIndex] := prev.(pages := (prev.pages + desc.numberOfPages) % PAGES_LIMIT);
        StoredSum(runs[outMmapIndex].pages, desc.numberOfPages);
      } else {
        if efiMmapIndex != 0 {
          outMmapIndex := outMmapIndex + 1;
        }
        if outMmapIndex >= RKHV_MAX_EFI_MMAP_DESCRIPTORS {
          KeptIs(ds, efiMmapIndex);
          break;
        }
        out[outMmapIndex] := MmapDescriptor(desc.physicalStart, desc.numberOfPages % PAGES_LIMIT, usable);
      }
      efiMmapIndex := efiMmapIndex + 1;
    }
    if efiMmapIndex == |mmap| {
      AllKept(ds, efiMmapIndex);
    }
    assert out[..|Runs(ds[..efiMmapIndex])|] == StoredAll(Runs(ds[..efiMmapIndex]));
  }

  lemma NoRuns(ds: seq<MmapDescriptor>)
    ensures Runs(ds[..0]) == []
  {
  }

  lemma NextRun(ds: seq<MmapDescriptor>, i: nat)
    requires i < |ds|
    ensures Runs(ds[..i + 1]) == AddRun(Runs(ds[..i]), ds[i])
  {
    assert ds[..i + 1][..i] == ds[..i];
  }

  lemma AllKept(ds: seq<MmapDescriptor>, n: nat)
    requires n == |ds| && |Runs(ds[..n])| <= RKHV_MAX_EFI_MMAP_DESCRIPTORS
    ensures Kept(ds) == n
  {
    assert ds[..n] == ds;
  }

  lemma MergeTest(last: MmapDescriptor, d: MmapDescriptor)
    ensures Mergeable(last, d) <==> last.usable == d.usable && End(last) == d.physicalAddress
  {
  }

  /** Merging into the last entry. */
  lemma MergeKeeps(merged: seq<MmapDescriptor>, d: MmapDescriptor)
    requires merged != [] && Mergeable(merged[|merged| - 1], d)
    requires forall k :: 0 <= k < |merged| - 1 ==> !Mergeable(merged[k], merged[k + 1])
    ensures var last := |merged| - 1;
            var merged' := merged[last := MergedWith(merged[last], d)];
            && Expand(merged') == Expand(merged) + ExpandOne(d, d.pages)
            && (forall k :: 0 <= k < last ==> !Mergeable(merged'[k], merged'[k + 1]))
            && (UsableOk(merged[last]) && UsableOk(d) ==> UsableOk(merged'[last]))
  {
    hide Expand, ExpandOne;
    var last := |merged| - 1;
    var merged' := merged[last := MergedWith(merged[last], d)];
    assert merged == merged[..last] + [merged[last]] && merged' == merged[..last] + [merged'[last]];
    ExpandMerge(merged[..last], merged[last], d);
    forall k | 0 <= k < last
      ensures !Mergeable(merged'[k], merged'[k + 1])
    {
      assert !Mergeable(merged[k], merged[k + 1]);
    }
    if UsableOk(merged[last]) && d.usable {
      SmallEnd(merged[last]);
    }
  }

  lemma SmallEnd(d: MmapDescriptor)
    requires UsableOk(d)
    ensures d.usable ==> End(d) == d.physicalAddress + d.pages * PAGE_SIZE
  {
  }

  /** What the array means: the pages of the kept descriptors, exactly when every run has less than 2^63 pages. */
  lemma KeptMeaning(ds: seq<MmapDescriptor>)
    ensures var kept := ds[..Kept(ds)];
            Expand(StoredAll(Runs(kept))) == Expand(kept) <==> CountsFit(Runs(kept))
    ensures Expand(ds[..Kept(ds)]) <= Expand(ds)
    ensures |Runs(ds)| <= RKHV_MAX_EFI_MMAP_DESCRIPTORS <==> ds[..Kept(ds)] == ds
  {
    hide Expand, StoredAll, Runs, CountsFit;
    var kept := ds[..Kept(ds)];
    RunsDescribe(kept);
    StoredMeaning(Runs(kept));
    ExpandPrefix(ds, Kept(ds));
    KeptAll(ds);
  }

  lemma {:induction false} KeptAll(ds: seq<MmapDescriptor>)
    ensures Kept(ds) == |ds| <==> |Runs(ds)| <= RKHV_MAX_EFI_MMAP_DESCRIPTORS
  {
    hide Runs;
    assert |ds| == 0 ==> Runs(ds) == [] by {
      if |ds| == 0 {
        NoRuns(ds);
        assert ds[..0] == ds;
      }
    }
  }

  /** A map whose page counts add up to less than 2^63 is stored without loss. */
  lemma SmallMapsFit(ds: seq<MmapDescriptor>, n: nat)
    requires n <= |ds| && TotalPages(ds) < PAGES_LIMIT
    ensures CountsFit(Runs(ds[..n]))
  {
    hide Expand, Runs;
    var runs := Runs(ds[..n]);
    RunsDescribe(ds[..n]);
    ExpandPrefix(ds, n);
    ExpandLength(runs);
    ExpandLength(ds[..n]);
    ExpandLength(ds);
    forall k | 0 <= k < |runs|
      ensures runs[k].pages < PAGES_LIMIT
    {
      CountBelowTotal(runs, k);
    }
  }

  /** Of memory maps whose usable memory ends below 2^52 only the unusable part can be stored short. */
  lemma UsableIsStored(ds: seq<MmapDescriptor>, c: Cursor)
    requires forall k :: 0 <= k < |ds| ==> UsableOk(ds[k])
    ensures CursorOk(StoredAll(ds), c) <==> CursorOk(ds, c)
    ensures c.region < |ds| ==> PageAt(StoredAll(ds), c) == PageAt(ds, c)
    ensures forall k :: 0 <= k < |ds| ==> UsableOk(StoredAll(ds)[k])
  {
    hide StoredAll;
    forall k | 0 <= k < |ds|
      ensures UsableOk(Stored(ds[k])) && (ds[k].usable ==> Stored(ds[k]) == ds[k])
    {
    }
  }

  // --- the map as the allocator sees it --------------------------------------------------------------

  /** The scan of the page allocator offers exactly the usable pages of the expansion. */
  lemma {:induction false} OfferedPages(ds: seq<MmapDescriptor>, pa: nat)
    requires forall d :: d in ds ==> UsableOk(d)
    ensures PageInfo(pa, true) in Expand(ds) <==> exists c :: CursorOk(ds, c) && PageAt(ds, c) == pa
  {
    if ds != [] {
      var n := |ds| - 1;
      var front := ds[..n];
      OfferedPages(front, pa);
      ExpandedPages(ds[n], ds[n].pages, pa);
      if c :| CursorOk(front, c) && PageAt(front, c) == pa {
        assert CursorOk(ds, c) && PageAt(ds, c) == pa;
      }
      if PageInfo(pa, true) in ExpandOne(ds[n], ds[n].pages) {
        var k :| 0 <= k < ds[n].pages && pa == ds[n].physicalAddress + k * PAGE_SIZE;
        assert CursorOk(ds, Cursor(n, k)) && PageAt(ds, Cursor(n, k)) == pa;
      }
      if c :| CursorOk(ds, c) && PageAt(ds, c) == pa {
        if c.region < n {
          assert CursorOk(front, c) && PageAt(front, c) == pa;
        }
      }
    }
  }

  lemma {:induction false} ExpandedPages(d: MmapDescriptor, n: nat, pa: nat)
    requires UsableOk(d) && n <= d.pages
    ensures PageInfo(pa, true) in ExpandOne(d, n)
            <==> d.usable && exists k: nat :: k < n && pa == d.physicalAddress + k * PAGE_SIZE
  {
    if n > 0 {
      ExpandedPages(d, n - 1, pa);
      assert PageInfoAt(d, n - 1) == ExpandOne(d, n)[n - 1];
      if d.usable {
        assert PageInfoAt(d, n - 1) == PageInfo(d.physicalAddress + (n - 1) * PAGE_SIZE, true);
      }
    }
  }

  /** Code and data of the loader and of the boot services, which end with them, and conventional memory. */
  ghost predicate FirmwareOffers(d: EfiDescriptor, pa: nat) {
    && (d.memoryType in {EfiLoaderCode, EfiLoaderData, EfiBootServicesCode, EfiBootServicesData}
        || d.memoryType == EfiConventionalMemory)
    && exists k: nat :: k < d.numberOfPages && pa == d.physicalStart + k * PAGE_SIZE
  }

  /** One of the first n descriptors of the firmware calls the page usable. */
  ghost predicate OfferedByFirst(mmap: seq<EfiDescriptor>, n: nat, pa: nat)
    requires n <= |mmap|
  {
    exists i :: 0 <= i < n && FirmwareOffers(mmap[i], pa)
  }

  /** The whole array, whose entries behind the runs are empty: the allocator is offered exactly the pages that
      the kept descriptors of the firmware call usable. */
  lemma {:induction false} MapIsFaithful(mmap: seq<EfiDescriptor>, n: nat, out: seq<MmapDescriptor>, pa: nat)
    requires FirmwareOk(mmap) && n <= |mmap| && |Runs(PlainAll(mmap)[..n])| <= |out|
    requires out[..|Runs(PlainAll(mmap)[..n])|] == StoredAll(Runs(PlainAll(mmap)[..n]))
    requires forall k :: |Runs(PlainAll(mmap)[..n])| <= k < |out| ==> out[k] == MmapDescriptor(0, 0, false)
    ensures (exists c :: CursorOk(out, c) && PageAt(out, c) == pa) <==> OfferedByFirst(mmap, n, pa)
  {
    hide Expand, PlainAll, Runs, StoredAll;
    var plain := PlainAll(mmap)[..n];
    var runs := Runs(plain);
    PlainIsOk(mmap);
    RunsDescribe(plain);
    OfferedPages(runs, pa);
    OfferedPages(plain, pa);
    forall c
      ensures CursorOk(out, c) <==> CursorOk(runs, c)
      ensures CursorOk(runs, c) ==> PageAt(out, c) == PageAt(runs, c)
    {
      UsableIsStored(runs, c);
      assert c.region < |runs| ==> out[c.region] == out[..|runs|][c.region];
    }
    if c :| CursorOk(plain, c) && PageAt(plain, c) == pa {
      assert FirmwareOffers(mmap[c.region], pa);
    }
    if i :| 0 <= i < n && FirmwareOffers(mmap[i], pa) {
      var k: nat :| k < mmap[i].numberOfPages && pa == mmap[i].physicalStart + k * PAGE_SIZE;
      assert CursorOk(plain, Cursor(i, k)) && PageAt(plain, Cursor(i, k)) == pa;
    }
  }

  lemma PlainIsOk(mmap: seq<EfiDescriptor>)
    requires FirmwareOk(mmap)
    ensures forall d :: d in PlainAll(mmap) ==> UsableOk(d)
  {
    forall d | d in PlainAll(mmap)
      ensures UsableOk(d)
    {
      var i :| 0 <= i < |mmap| && PlainAll(mmap)[i] == d;
      assert UsableOk(Plain(mmap[i]));
    }
  }
}
