/** The cyclic scan of mm_get_free_page over the usable pages of the memory map. */
module PageScan {
  import opened Bits
  import opened Paging
  import opened Outcomes
  import opened Chainload
  import opened AddressMap

  datatype Cursor = Cursor(region: nat, page: nat)

  predicate CursorOk(mmap: seq<MmapDescriptor>, c: Cursor) {
    c.region < |mmap| && mmap[c.region].usable && c.page < mmap[c.region].pages
  }

  function PageAt(mmap: seq<MmapDescriptor>, c: Cursor): nat
    requires c.region < |mmap|
  {
    mmap[c.region].physicalAddress + c.page * PAGE_SIZE
  }

  /** The usable memory ends where the map of physical memory ends, or before. */
  predicate WithinPhysicalMap(mmap: seq<MmapDescriptor>) {
    forall k :: 0 <= k < |mmap| && mmap[k].usable && mmap[k].pages != 0 ==>
      mmap[k].physicalAddress + mmap[k].pages * PAGE_SIZE <= PHYSICAL_MAP_SIZE
  }

  /** The hypervisor can access every page that the scan can reach exactly for such memory maps. */
  lemma ScannedPagesAreFrames(mmap: seq<MmapDescriptor>)
    requires forall k :: 0 <= k < |mmap| ==> UsableOk(mmap[k])
    ensures (forall c :: CursorOk(mmap, c) ==> IsFrame(PageAt(mmap, c))) <==> WithinPhysicalMap(mmap)
  {
    if forall c :: CursorOk(mmap, c) ==> IsFrame(PageAt(mmap, c)) {
      forall k | 0 <= k < |mmap| && mmap[k].usable && mmap[k].pages != 0
        ensures mmap[k].physicalAddress + mmap[k].pages * PAGE_SIZE <= PHYSICAL_MAP_SIZE
      {
        var top := Cursor(k, mmap[k].pages - 1);
        assert CursorOk(mmap, top) && IsFrame(PageAt(mmap, top));
      }
    }
  }

  /** No page to work with: the allocator has none to return or, on a map with usable memory behind the map of
      physical memory, one that the hypervisor cannot access. */
  predicate NoPage(reason: PanicReason, mmap: seq<MmapDescriptor>) {
    reason == OutOfMemory || reason == SearchUnderflow || (reason == PageFault && !WithinPhysicalMap(mmap))
  }

  /** The usable pages of the descriptors below r. */
  function Below(mmap: seq<MmapDescriptor>, r: nat): nat
    requires r <= |mmap|
  {
    if r == 0 then 0
    else Below(mmap, r - 1) + if mmap[r - 1].usable then mmap[r - 1].pages else 0
  }

  function Total(mmap: seq<MmapDescriptor>): nat {
    Below(mmap, |mmap|)
  }

  /** The position of a usable page counted from the bottom of the map. */
  function Rank(mmap: seq<MmapDescriptor>, c: Cursor): nat
    requires CursorOk(mmap, c)
  {
    Below(mmap, c.region) + c.page
  }

  lemma {:induction false} BelowMonotone(mmap: seq<MmapDescriptor>, r: nat, r': nat)
    requires r <= r' <= |mmap|
    ensures Below(mmap, r) <= Below(mmap, r')
    decreases r' - r
  {
    if r < r' {
      BelowMonotone(mmap, r, r' - 1);
    }
  }

  lemma RankBelowTotal(mmap: seq<MmapDescriptor>, c: Cursor)
    requires CursorOk(mmap, c)
    ensures Rank(mmap, c) < Total(mmap)
  {
    BelowMonotone(mmap, c.region + 1, |mmap|);
  }

  lemma RankInjective(mmap: seq<MmapDescriptor>, c: Cursor, c': Cursor)
    requires CursorOk(mmap, c) && CursorOk(mmap, c') && Rank(mmap, c) == Rank(mmap, c')
    ensures c == c'
  {
    if c.region < c'.region {
      BelowMonotone(mmap, c.region + 1, c'.region);
    } else if c'.region < c.region {
      BelowMonotone(mmap, c'.region + 1, c.region);
    }
  }

  lemma {:induction false} GapIsEmpty(mmap: seq<MmapDescriptor>, r: nat, r': nat)
    requires r <= r' <= |mmap| && forall k :: r <= k < r' ==> !mmap[k].usable || mmap[k].pages == 0
    ensures Below(mmap, r) == Below(mmap, r')
    decreases r' - r
  {
    if r < r' {
      GapIsEmpty(mmap, r, r' - 1);
    }
  }

  /** The rank reached after a number of downward steps, wrapping once around the bottom. */
  function RankAfter(start: nat, steps: nat, total: nat): nat
    requires start < total && steps <= total
  {
    if steps <= start then start - steps else start - steps + total
  }

  /** Descriptor 0 stops every downward search. */
  predicate BottomUsable(mmap: seq<MmapDescriptor>) {
    |mmap| > 0 && mmap[0].usable && mmap[0].pages != 0
  }

  /** The search for (size_t i = from - 1; i >= 0; i--): the highest usable non-empty descriptor below from.
      The test of i never fails, so without such a descriptor the search runs past the start of the array;
      the result is then None. */
  method SearchDown(mmap: seq<MmapDescriptor>, from: nat) returns (found: Option<nat>)
    requires from <= |mmap|
    ensures found.Some? ==>
              && found.value < from && mmap[found.value].usable && mmap[found.value].pages != 0
              && forall k :: found.value < k < from ==> !mmap[k].usable || mmap[k].pages == 0
    ensures found.Some? <==> SearchStops(mmap, from)
  {
    var i := from;
    while i > 0
      invariant 0 <= i <= from
      invariant forall k :: i <= k < from ==> !mmap[k].usable || mmap[k].pages == 0
    {
      i := i - 1;
      if mmap[i].usable && mmap[i].pages != 0 {
        return Some(i);
      }
    }
    return None;
  }

  ghost predicate SearchStops(mmap: seq<MmapDescriptor>, from: nat) {
    exists i :: 0 <= i < from && i < |mmap| && mmap[i].usable && mmap[i].pages != 0
  }

  /** The starting points of the searches: the end of the array, and any descriptor whose pages are all in use. */
  predicate SearchStart(mmap: seq<MmapDescriptor>, from: nat) {
    from == |mmap| || (0 < from < |mmap| && mmap[from].usable && mmap[from].pages != 0)
  }

  /** The searches stop from all their starting points exactly when descriptor 0 is usable and not empty. */
  lemma SearchesStop(mmap: seq<MmapDescriptor>)
    requires |mmap| > 0
    ensures (forall from: nat :: SearchStart(mmap, from) ==> SearchStops(mmap, from)) <==> BottomUsable(mmap)
  {
    if !BottomUsable(mmap) {
      var from := LowestStart(mmap, |mmap|);
      assert SearchStart(mmap, from) && !SearchStops(mmap, from);
    }
  }

  lemma {:induction false} LowestStart(mmap: seq<MmapDescriptor>, from: nat) returns (lowest: nat)
    requires from <= |mmap| && SearchStart(mmap, from) && !BottomUsable(mmap)
    ensures SearchStart(mmap, lowest) && !SearchStops(mmap, lowest)
  {
    if SearchStops(mmap, from) {
      var i :| 0 <= i < from && i < |mmap| && mmap[i].usable && mmap[i].pages != 0;
      lowest := LowestStart(mmap, i);
    } else {
      lowest := from;
    }
  }

  /** One step of the scan: the page below, or the last page of the next usable descriptor below,
      starting again from the end of the array after descriptor 0. The decrement wraps to 2^64 - 1.
      Below the lowest usable page there is no next page unless descriptor 0 is usable. */
  method NextCursor(mmap: seq<MmapDescriptor>, c: Cursor) returns (next: Option<Cursor>)
    requires |mmap| == RKHV_MAX_EFI_MMAP_DESCRIPTORS && CursorOk(mmap, c) && mmap[c.region].pages < TWO_64
    ensures next.None? <==> Rank(mmap, c) == 0 && !BottomUsable(mmap)
    ensures next.Some? ==>
              && CursorOk(mmap, next.value)
              && Rank(mmap, next.value) == if Rank(mmap, c) == 0 then Total(mmap) - 1 else Rank(mmap, c) - 1
  {
    var page := Sub64(c.page, 1);
    if page < mmap[c.region].pages {
      return Some(Cursor(c.region, page));
    }
    var from := if c.region == 0 then RKHV_MAX_EFI_MMAP_DESCRIPTORS else c.region;
    var i := SearchDown(mmap, from);
    if i.None? {
      NothingBelow(mmap, from);
      return None;
    }
    SomethingBelow(mmap, i.value, from);
    next := Some(Cursor(i.value, mmap[i.value].pages - 1));
  }

  lemma NothingBelow(mmap: seq<MmapDescriptor>, from: nat)
    requires from <= |mmap| && !SearchStops(mmap, from)
    ensures Below(mmap, from) == 0
    ensures from > 0 ==> !BottomUsable(mmap)
  {
    GapIsEmpty(mmap, 0, from);
  }

  lemma SomethingBelow(mmap: seq<MmapDescriptor>, i: nat, from: nat)
    requires i < from <= |mmap| && mmap[i].usable && mmap[i].pages != 0
    requires forall k :: i < k < from ==> !mmap[k].usable || mmap[k].pages == 0
    ensures Below(mmap, from) == Below(mmap, i) + mmap[i].pages > 0
  {
    GapIsEmpty(mmap, i + 1, from);
  }

  // --- the path of one scan --------------------------------------------------------

  ghost predicate VisitAt(mmap: seq<MmapDescriptor>, start: Cursor, c: Cursor, steps: nat) {
    && CursorOk(mmap, start) && CursorOk(mmap, c)
    && Rank(mmap, start) < Total(mmap) && steps <= Total(mmap)
    && Rank(mmap, c) == RankAfter(Rank(mmap, start), steps, Total(mmap))
  }

  /** visited goes down the map from start one usable page at a time, continuing at the top. */
  ghost predicate ScanPath(mmap: seq<MmapDescriptor>, start: Cursor, visited: seq<Cursor>) {
    && CursorOk(mmap, start) && |visited| <= Total(mmap)
    && forall j: nat :: j < |visited| ==> VisitAt(mmap, start, visited[j], j)
  }

  lemma PathStarts(mmap: seq<MmapDescriptor>, start: Cursor)
    requires CursorOk(mmap, start)
    ensures VisitAt(mmap, start, start, 0) && ScanPath(mmap, start, [])
  {
    RankBelowTotal(mmap, start);
  }

  lemma PathIsUsable(mmap: seq<MmapDescriptor>, start: Cursor, visited: seq<Cursor>)
    requires ScanPath(mmap, start, visited)
    ensures forall c :: c in visited ==> CursorOk(mmap, c)
  {
    forall j: nat | j < |visited|
      ensures CursorOk(mmap, visited[j])
    {
      assert VisitAt(mmap, start, visited[j], j);
    }
  }

  lemma PathClosesOnce(mmap: seq<MmapDescriptor>, start: Cursor, c: Cursor, steps: nat)
    requires VisitAt(mmap, start, c, steps) && steps > 0
    ensures c == start <==> steps == Total(mmap)
  {
    if steps == Total(mmap) {
      RankInjective(mmap, c, start);
    }
  }

  /** The scan from start has visited some pages and is about to look at current. */
  ghost predicate OnPath(mmap: seq<MmapDescriptor>, start: Cursor, visited: seq<Cursor>, current: Cursor) {
    && ScanPath(mmap, start, visited) && VisitAt(mmap, start, current, |visited|)
    && (if visited == [] then current else visited[0]) == start
    && (!BottomUsable(mmap) ==> |visited| <= Rank(mmap, start))
  }

  lemma PathBegins(mmap: seq<MmapDescriptor>, start: Cursor)
    requires CursorOk(mmap, start)
    ensures OnPath(mmap, start, [], start)
  {
    PathStarts(mmap, start);
  }

  lemma PathVisits(mmap: seq<MmapDescriptor>, start: Cursor, visited: seq<Cursor>, current: Cursor)
    requires OnPath(mmap, start, visited, current) && (visited != [] ==> current != start)
    ensures CursorOk(mmap, start) && CursorOk(mmap, current)
    ensures |visited| < Total(mmap) && ScanPath(mmap, start, visited + [current]) && (visited + [current])[0] == start
    ensures !BottomUsable(mmap) ==> Rank(mmap, current) == Rank(mmap, start) - |visited|
  {
    hide Rank;
    if visited != [] {
      PathClosesOnce(mmap, start, current, |visited|);
    }
  }

  lemma PathGoesOn(mmap: seq<MmapDescriptor>, start: Cursor, visited: seq<Cursor>, current: Cursor, next: Cursor)
    requires OnPath(mmap, start, visited, current) && (visited != [] ==> current != start)
    requires CursorOk(mmap, next) && CursorOk(mmap, current)
    requires Rank(mmap, next) == if Rank(mmap, current) == 0 then Total(mmap) - 1 else Rank(mmap, current) - 1
    requires Rank(mmap, current) == 0 ==> BottomUsable(mmap)
    ensures OnPath(mmap, start, visited + [current], next)
  {
    hide Rank;
    PathVisits(mmap, start, visited, current);
  }

  /** Back at the start, the scan has been everywhere. */
  lemma PathCloses(mmap: seq<MmapDescriptor>, start: Cursor, visited: seq<Cursor>)
    requires OnPath(mmap, start, visited, start) && visited != []
    ensures |visited| == Total(mmap) && BottomUsable(mmap)
  {
    hide Rank;
    PathClosesOnce(mmap, start, start, |visited|);
  }

  /** No page is visited twice. */
  lemma PathIsInjective(mmap: seq<MmapDescriptor>, start: Cursor, visited: seq<Cursor>)
    requires ScanPath(mmap, start, visited)
    ensures forall i, j :: 0 <= i < j < |visited| ==> visited[i] != visited[j]
  {
    forall i, j | 0 <= i < j < |visited|
      ensures visited[i] != visited[j]
    {
      assert VisitAt(mmap, start, visited[i], i) && VisitAt(mmap, start, visited[j], j);
    }
  }

  /** A full turn visits every usable page. */
  lemma PathIsComplete(mmap: seq<MmapDescriptor>, start: Cursor, visited: seq<Cursor>, c: Cursor)
    requires ScanPath(mmap, start, visited) && |visited| == Total(mmap) && CursorOk(mmap, c)
    ensures c in visited
  {
    RankBelowTotal(mmap, c);
    RankBelowTotal(mmap, start);
    var k, s := Rank(mmap, c), Rank(mmap, start);
    var j := if k <= s then s - k else s - k + Total(mmap);
    assert VisitAt(mmap, start, visited[j], j);
    RankInjective(mmap, c, visited[j]);
  }

  /** A path down to the lowest usable page visits every usable page below its start. */
  lemma PathReaches(mmap: seq<MmapDescriptor>, start: Cursor, visited: seq<Cursor>, c: Cursor)
    requires ScanPath(mmap, start, visited) && CursorOk(mmap, c)
    requires Rank(mmap, c) <= Rank(mmap, start) && |visited| == Rank(mmap, start) + 1
    ensures c in visited
  {
    RankBelowTotal(mmap, c);
    var j := Rank(mmap, start) - Rank(mmap, c);
    assert VisitAt(mmap, start, visited[j], j);
    RankInjective(mmap, c, visited[j]);
  }
}
