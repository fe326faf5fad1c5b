/** Page allocation in the boot loader (boot/src/paging.c): pages come from the firmware and are
    reported to the hypervisor as a small pool of regions, adjacent ones collapsed. */
module BootPool {
  import opened Paging
  import opened PhysicalMemory
  import opened Outcomes
  import opened Chainload

  datatype EfiStatus = EfiSuccess | EfiOutOfResources | EfiBufferTooSmall | EfiUnsupported | FirmwareError

  /** The pages of a run. */
  predicate InRun(start: nat, count: nat, p: nat) {
    p % PAGE_SIZE == 0 && start <= p < start + count * PAGE_SIZE
  }

  predicate RunOk(start: nat, count: nat) {
    start % PAGE_SIZE == 0 && start + count * PAGE_SIZE <= 0x10_0000_0000_0000
  }

  function NthPage(start: nat, k: nat): nat {
    start + k * PAGE_SIZE
  }

  /** The boot services of the firmware, as far as AllocatePages goes: it fails, or it returns pages that
      nobody uses. Which pages is its own choice. */
  class Firmware {
    var inUse: set<nat>
    /** It failed once. */
    ghost var refused: bool

    constructor (inUse: set<nat>)
      ensures this.inUse == inUse && !refused
    {
      this.inUse := inUse;
      refused := false;
    }

    method AllocatePages(count: nat) returns (start: Option<nat>)
      modifies this
      ensures start.None? ==> inUse == old(inUse) && refused
      ensures start.Some? ==>
                && RunOk(start.value, count)
                && (forall p: nat :: InRun(start.value, count, p) ==> p !in old(inUse))
                && (forall p: nat :: p in inUse <==> p in old(inUse) || InRun(start.value, count, p))
    {
      var choice: nat := *;
      if RunOk(choice, count) && forall k: nat :: k < count ==> NthPage(choice, k) !in inUse {
        inUse := inUse + set k: nat | k < count :: NthPage(choice, k);
        forall p: nat | InRun(choice, count, p)
          ensures exists k: nat :: k < count && p == NthPage(choice, k)
        {
          InRunIndex(choice, count, p);
          assert p == NthPage(choice, (p - choice) / PAGE_SIZE);
        }
        return Some(choice);
      }
      refused := true;
      return None;
    }
  }

  lemma InRunIndex(start: nat, count: nat, p: nat)
    requires RunOk(start, count) && InRun(start, count, p)
    ensures var k := (p - start) / PAGE_SIZE; 0 <= k < count && p == start + k * PAGE_SIZE
  {
  }

  // --- the pool ------------------------------------------------------------------------------------

  ghost predicate OnlyOnce(rs: seq<Region>) {
    forall j, k, p: nat :: 0 <= j < |rs| && 0 <= k < |rs| && RegionCovers(rs[j], p) && RegionCovers(rs[k], p) ==> j == k
  }

  /** The regions in use are disjoint and cover exactly the reported pages; the rest is empty. */
  ghost predicate PoolOk(rs: seq<Region>, size: nat, reported: set<nat>) {
    && size <= |rs| && RegionsOk(rs) && OnlyOnce(rs)
    && (forall k :: 0 <= k < |rs| ==> (rs[k].pages > 0 <==> k < size))
    && (forall p: nat :: InRegions(rs, p) <==> p in reported)
  }

  /** A region that takes up new pages. */
  lemma RegionGrows(rs: seq<Region>, size: nat, reported: set<nat>, k: nat, r: Region, size': nat, start: nat,
                    count: nat, reported': set<nat>)
    requires PoolOk(rs, size, reported) && k < |rs| && RunOk(start, count)
    requires size' == (if k < size then size else size + 1) && k <= size
    requires RegionOk(r) && r.pages > 0
    requires forall p: nat :: RegionCovers(r, p) <==> RegionCovers(rs[k], p) || InRun(start, count, p)
    requires forall p: nat :: InRun(start, count, p) ==> p !in reported
    requires forall p: nat :: p in reported' <==> p in reported || InRun(start, count, p)
    ensures PoolOk(rs[k := r], size', reported')
  {
    hide RegionCovers, InRun;
    var rs' := rs[k := r];
    forall p: nat
      ensures InRegions(rs', p) <==> p in reported'
    {
      if RegionCovers(r, p) {
        assert RegionCovers(rs'[k], p);
      }
      if j :| 0 <= j < |rs| && RegionCovers(rs[j], p) {
        assert RegionCovers(rs'[j], p);
      }
      if j :| 0 <= j < |rs'| && RegionCovers(rs'[j], p) {
        assert j != k ==> RegionCovers(rs[j], p);
      }
    }
    forall j, p: nat | 0 <= j < |rs| && RegionCovers(rs[j], p)
      ensures p in reported
    {
      assert InRegions(rs, p);
    }
    forall i, j, p: nat | 0 <= i < |rs'| && 0 <= j < |rs'| && RegionCovers(rs'[i], p) && RegionCovers(rs'[j], p)
      ensures i == j
    {
    }
  }

  /** The two merging tests: the run ends where the region starts, or starts where it ends. */
  lemma CollapsedInFront(r: Region, start: nat, count: nat)
    requires RegionOk(r) && RunOk(start, count) && start + count * PAGE_SIZE == r.physicalAddress
    ensures var r' := Region(start, r.pages + count);
            RegionOk(r') && forall p: nat :: RegionCovers(r', p) <==> RegionCovers(r, p) || InRun(start, count, p)
  {
  }

  lemma CollapsedBehind(r: Region, start: nat, count: nat)
    requires RegionOk(r) && RunOk(start, count) && start == r.physicalAddress + r.pages * PAGE_SIZE
    ensures var r' := Region(r.physicalAddress, r.pages + count);
            RegionOk(r') && forall p: nat :: RegionCovers(r', p) <==> RegionCovers(r, p) || InRun(start, count, p)
  {
  }

  /** What allocation and table building change. */
  datatype PoolState = PoolState(inUse: set<nat>, reported: set<nat>, memory: Memory)

  ghost function StateOf(pages: PagePool): PoolState
    reads pages`reported, pages`memory, pages.firmware
  {
    PoolState(pages.firmware.inUse, pages.reported, pages.memory)
  }

  /** Newly reported pages were not in use, and only reported pages were written to. */
  ghost predicate OnlyNewPages(s: PoolState, s': PoolState) {
    && s.inUse <= s'.inUse && s.reported <= s'.reported
    && (forall p: nat :: p in s'.reported && p !in s.reported ==> p !in s.inUse)
    && (forall p: nat :: p !in s'.reported ==> SameAt(s.memory, s'.memory, p))
  }

  lemma OnlyNewChain(s: PoolState, s1: PoolState, s2: PoolState)
    requires OnlyNewPages(s, s1) && OnlyNewPages(s1, s2)
    ensures OnlyNewPages(s, s2)
  {
    forall p: nat | p !in s2.reported
      ensures SameAt(s.memory, s2.memory, p)
    {
      assert SameAt(s.memory, s1.memory, p) && SameAt(s1.memory, s2.memory, p);
    }
  }

  lemma ReportedWritten(s: PoolState, s1: PoolState, s2: PoolState, p: nat)
    requires OnlyNewPages(s, s1) && s2.inUse == s1.inUse && s2.reported == s1.reported && p in s1.reported
    requires forall q: nat :: q != p ==> SameAt(s1.memory, s2.memory, q)
    ensures OnlyNewPages(s, s2)
  {
    forall q: nat | q !in s2.reported
      ensures SameAt(s.memory, s2.memory, q)
    {
      assert SameAt(s.memory, s1.memory, q) && SameAt(s1.memory, s2.memory, q);
    }
  }

  /** The two merging tests. */
  predicate Adjacent(r: Region, start: nat, count: nat) {
    start + PAGE_SIZE * count == r.physicalAddress || start == r.physicalAddress + PAGE_SIZE * r.pages
  }

  /** There is room for a run: a region it is adjacent to, or an entry that is not used yet. */
  predicate HasRoom(rs: seq<Region>, size: nat, start: nat, count: nat)
    requires size <= |rs|
  {
    size < |rs| || exists i :: 0 <= i < size && Adjacent(rs[i], start, count)
  }

  class PagePool {
    const firmware: Firmware
    /** page_table_pool: chainload_page->page_table_regions, which starts zeroed, and its size. */
    const pool: array<Region>
    var size: nat
    var memory: Memory
    /** The pages of the allocations that succeeded. */
    ghost var reported: set<nat>

    constructor (firmware: Firmware, memory: Memory)
      ensures Valid() && reported == {} && fresh(pool)
      ensures this.firmware == firmware && this.memory == memory
    {
      this.firmware, this.memory := firmware, memory;
      pool := new Region[RKHV_MAX_PAGE_TABLE_REGIONS](_ => Region(0, 0));
      size := 0;
      reported := {};
    }

    ghost predicate Valid()
      reads this, pool, firmware
    {
      && pool.Length == RKHV_MAX_PAGE_TABLE_REGIONS
      && PoolOk(pool[..], size, reported)
      && reported <= firmware.inUse
    }

    /** Where a failure comes from: the firmware failed, or all regions of the pool are taken. */
    ghost predicate Explained(status: EfiStatus)
      reads `size, firmware`refused
    {
      match status
      case FirmwareError => firmware.refused
      case EfiBufferTooSmall => size == RKHV_MAX_PAGE_TABLE_REGIONS
      case _ => true
    }

    /** The region collapser: the run goes to the first region it is adjacent to, or to a new region. */
    method Report(start: nat, count: nat) returns (status: EfiStatus)
      requires pool.Length == RKHV_MAX_PAGE_TABLE_REGIONS && PoolOk(pool[..], size, reported)
      requires RunOk(start, count) && count > 0 && forall p: nat :: InRun(start, count, p) ==> p !in reported
      modifies this`size, this`reported, pool
      ensures status.EfiSuccess? ==>
                && PoolOk(pool[..], size, reported)
                && (forall p: nat :: p in reported <==> p in old(reported) || InRun(start, count, p))
      ensures status.EfiSuccess? <==> old(HasRoom(pool[..], size, start, count))
      ensures !status.EfiSuccess? ==>
                && status.EfiBufferTooSmall? && size == pool.Length
                && pool[..] == old(pool[..]) && size == old(size) && reported == old(reported)
    {
      hide PoolOk, RegionOk, InRun;
      ghost var rs, was := pool[..], reported;
      PoolParts(rs, size, reported);
      for i := 0 to size
        invariant pool[..] == rs
        invariant forall j :: 0 <= j < i ==> !Adjacent(rs[j], start, count)
      {
        var r := pool[i];
        if start + PAGE_SIZE * count == r.physicalAddress {
          assert Adjacent(rs[i], start, count);
          CollapsedInFront(r, start, count);
          pool[i] := Region(start, r.pages + count);
          reported := WithRun(was, start, count);
          assert pool[..] == rs[i := pool[i]];
          RegionGrows(rs, size, was, i, pool[i], size, start, count, reported);
          return EfiSuccess;
        } else if start == r.physicalAddress + PAGE_SIZE * r.pages {
          assert Adjacent(rs[i], start, count);
          CollapsedBehind(r, start, count);
          pool[i] := Region(r.physicalAddress, r.pages + count);
          reported := WithRun(was, start, count);
          assert pool[..] == rs[i := pool[i]];
          RegionGrows(rs, size, was, i, pool[i], size, start, count, reported);
          return EfiSuccess;
        }
      }
      if size >= pool.Length {
        return EfiBufferTooSmall;
      }
      var newIndex := size;
      size := size + 1;
      pool[newIndex] := Region(start, count);
      reported := WithRun(was, start, count);
      assert pool[..] == rs[newIndex := pool[newIndex]];
      NewRegion(rs[newIndex], start, count);
      RegionGrows(rs, newIndex, was, newIndex, pool[newIndex], size, start, count, reported);
      return EfiSuccess;
    }

    /** paging_allocate_page: zeroed pages that nobody used before, all of them reported. A failure
        reports nothing and writes nothing. */
    method AllocatePage(count: nat) returns (status: EfiStatus, start: nat)
      requires Valid() && count > 0
      modifies this`size, this`memory, this`reported, pool, firmware
      ensures Valid()
      ensures status.EfiSuccess? ==>
                && RunOk(start, count)
                && (forall p: nat :: InRun(start, count, p) ==> p !in old(reported) && p !in old(firmware.inUse))
                && (forall p: nat :: p in reported <==> p in old(reported) || InRun(start, count, p))
                && (forall p: nat :: At(memory, p) == if InRun(start, count, p) then ZERO_PAGE else At(old(memory), p))
      ensures !status.EfiSuccess? ==>
                && (status.FirmwareError? || (status.EfiBufferTooSmall? && old(size) == pool.Length))
                && memory == old(memory) && reported == old(reported) && Explained(status)
      ensures OnlyNewPages(old(StateOf(this)), StateOf(this))
    {
      hide PoolOk, InRun;
      var pages := firmware.AllocatePages(count);
      if pages.None? {
        return FirmwareError, 0;
      }
      start := pages.value;
      PoolParts(pool[..], size, reported);
      status := Report(start, count);
      if !status.EfiSuccess? {
        return;
      }
      ClearPages(start, count);
    }

    /** The memset of new pages. */
    method ClearPages(start: nat, count: nat)
      requires RunOk(start, count)
      modifies this`memory
      ensures forall p: nat :: At(memory, p) == if InRun(start, count, p) then ZERO_PAGE else At(old(memory), p)
    {
      hide InRun, Cleared;
      NothingCleared(memory, start);
      for k := 0 to count
        invariant Cleared(old(memory), memory, start, k)
      {
        OneMoreCleared(old(memory), memory, start, k);
        memory := memory[start + k * PAGE_SIZE := ZERO_PAGE];
      }
      AllCleared(old(memory), memory, start, count);
    }
  }

  ghost predicate Cleared(m: Memory, m': Memory, start: nat, count: nat) {
    forall p: nat :: At(m', p) == if InRun(start, count, p) then ZERO_PAGE else At(m, p)
  }

  lemma NothingCleared(m: Memory, start: nat)
    ensures Cleared(m, m, start, 0)
  {
  }

  lemma OneMoreCleared(m: Memory, m': Memory, start: nat, k: nat)
    requires start % PAGE_SIZE == 0 && Cleared(m, m', start, k)
    ensures Cleared(m, m'[start + k * PAGE_SIZE := ZERO_PAGE], start, k + 1)
  {
    hide InRun;
    RunStep(start, k);
    var page := start + k * PAGE_SIZE;
    var m2 := m'[page := ZERO_PAGE];
    forall p: nat
      ensures At(m2, p) == if InRun(start, k + 1, p) then ZERO_PAGE else At(m, p)
    {
      assert InRun(start, k + 1, p) <==> InRun(start, k, p) || p == page;
      assert At(m', p) == if InRun(start, k, p) then ZERO_PAGE else At(m, p);
    }
  }

  lemma AllCleared(m: Memory, m': Memory, start: nat, count: nat)
    requires Cleared(m, m', start, count)
    ensures forall p: nat :: At(m', p) == if InRun(start, count, p) then ZERO_PAGE else At(m, p)
  {
  }

  ghost function WithRun(s: set<nat>, start: nat, count: nat): (r: set<nat>)
    requires RunOk(start, count)
    ensures forall p: nat :: p in r <==> p in s || InRun(start, count, p)
  {
    s + set p: nat | p < start + count * PAGE_SIZE && InRun(start, count, p)
  }

  lemma PoolParts(rs: seq<Region>, size: nat, reported: set<nat>)
    requires PoolOk(rs, size, reported)
    ensures size <= |rs| && RegionsOk(rs)
    ensures forall k :: 0 <= k < |rs| ==> (rs[k].pages > 0 <==> k < size)
  {
  }

  lemma NewRegion(empty: Region, start: nat, count: nat)
    requires empty.pages == 0 && RunOk(start, count)
    ensures RegionOk(Region(start, count))
    ensures forall p: nat :: RegionCovers(Region(start, count), p) <==> RegionCovers(empty, p) || InRun(start, count, p)
  {
  }

  lemma RunStep(start: nat, k: nat)
    requires start % PAGE_SIZE == 0
    ensures forall p: nat :: !InRun(start, 0, p)
    ensures forall p: nat :: InRun(start, k + 1, p) <==> InRun(start, k, p) || p == start + k * PAGE_SIZE
  {
    forall p: nat
      ensures InRun(start, k + 1, p) <==> InRun(start, k, p) || p == start + k * PAGE_SIZE
    {
      if p % PAGE_SIZE == 0 && start + k * PAGE_SIZE <= p < start + (k + 1) * PAGE_SIZE {
        assert start / PAGE_SIZE + k <= p / PAGE_SIZE < start / PAGE_SIZE + k + 1;
      }
    }
  }

  /** The hypervisor considers every reported page, and no other page for the sake of the pool, in use. */
  lemma ReportedPagesAreInUse(c: ChainloadPage, size: nat, reported: set<nat>, p: nat)
    requires PoolOk(c.pageTableRegions, size, reported)
    ensures p in reported ==> InChainload(c, p)
    ensures InChainload(c, p) && p !in reported ==> InChainload(c.(pageTableRegions := []), p)
  {
  }
}
