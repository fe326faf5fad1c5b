/** A virtual machine (vm_t) and the lists in which it records its pages
    (hv/src/vmm/vm_manager.c). */
module VirtualMachine {
  import opened Bits
  import opened Paging
  import opened PageList
  import opened Outcomes
  import opened RadixTree
  import opened Arena

  const SIZEOF_PAGE_RUN: nat := 24

  /** What an EPT maps: anything, pages of the machine's own guest memory, or exactly these, from guest page 0 on. */
  datatype GuestMap = Anything | OwnPages | Exactly(hosts: seq<nat>)

  class Vm {
    /** The position of the machine in order of creation. */
    ghost const id: nat
    // vm_t.flags
    var vmcsInitialized: bool
    var eptInitialized: bool

    var vmcsRegion: nat
    var eptp: nat
    var cr3: u64
    var guestPhysicalPages: nat
    var usedByInitialSetup: nat
    var trackedPages: seq<PageRun>
    /** The page of every table of the EPT. */
    ghost var tables: map<Node, nat>
    /** What the EPT is known to map. */
    ghost var guest: GuestMap

    constructor (ghost id: nat)
      ensures this.id == id && !vmcsInitialized && !eptInitialized && trackedPages == [] && tables == map[]
      ensures guest == Exactly([]) && guestPhysicalPages == 0 && usedByInitialSetup == 0 && cr3 == 0
    {
      this.id := id;
      vmcsInitialized, eptInitialized := false, false;
      vmcsRegion, eptp, cr3, guestPhysicalPages, usedByInitialSetup := 0, 0, 0, 0, 0;
      trackedPages := [];
      tables := map[];
      guest := Exactly([]);
    }

    /** vm_manager_track_page: the page joins its (type, reserved) class and no other changes. */
    method TrackPage(arenas: ArenaList, arena: nat, pa: nat, t: PageType, reserved: bool) returns (r: Outcome<()>)
      requires arenas.Valid() && arena in arenas.live
      requires RunsOk(trackedPages) && IsPage(pa)
      modifies this`trackedPages, arenas`headers, arenas`blocks
      ensures arenas.Valid()
      ensures r.Ok? ==> Tracked(old(trackedPages), trackedPages, pa, t, reserved)
      ensures r.Panic? <==> !HasPlace(old(trackedPages), pa, t, reserved) && old(arenas.Room(arena)) < SIZEOF_PAGE_RUN
      ensures r.Panic? ==>
                && r.reason == ArenaFull && trackedPages == old(trackedPages)
                && arenas.Room(arena) == old(arenas.Room(arena))
      ensures r.Ok? ==> Recorded(old(trackedPages), trackedPages, pa, t, reserved)
      ensures r.Ok? ==>
                arenas.Room(arena) == old(arenas.Room(arena))
                                      - if HasPlace(old(trackedPages), pa, t, reserved) then 0 else SIZEOF_PAGE_RUN
    {
      hide ArenaList.Valid, ArenaList.Room, Tracked, Recorded, Adjoins, Add64, Sub64;
      var newList: Option<nat> := None;
      var i := 0;
      while i < |trackedPages|
        invariant 0 <= i <= |trackedPages|
        invariant unchanged(this) && unchanged(arenas)
        invariant newList.Some? ==> newList.value < |trackedPages| && trackedPages[newList.value].pages == 0
        invariant newList.None? ==> forall k :: 0 <= k < i ==> trackedPages[k].pages > 0
        invariant forall k :: 0 <= k < i ==> !(OfClass(trackedPages[k], t, reserved) && Adjoins(trackedPages[k], pa))
      {
        var iter := trackedPages[i];
        AdjoinsTest(iter, pa);
        if iter.pages == 0 {
          if newList == None {
            newList := Some(i);
          }
        } else if iter.pageType == t && iter.reservedPool == reserved {
          var first := iter.physicalAddress;
          var last := Add64(first, (iter.pages - 1) * PAGE_SIZE);
          if first <= pa <= last {
            KeptTracked(trackedPages, i, pa);
            KeptRecorded(trackedPages, i, pa);
            return Ok(());
          } else if Add64(pa, PAGE_SIZE) == first {
            FrontTracked(trackedPages, i, pa);
            RunRecorded(trackedPages, i, iter.(physicalAddress := pa, pages := iter.pages + 1), pa);
            trackedPages := trackedPages[i := iter.(physicalAddress := pa, pages := iter.pages + 1)];
            return Ok(());
          } else if Sub64(pa, PAGE_SIZE) == last {
            BackTracked(trackedPages, i, pa);
            RunRecorded(trackedPages, i, iter.(pages := iter.pages + 1), pa);
            trackedPages := trackedPages[i := iter.(pages := iter.pages + 1)];
            return Ok(());
          }
        }
        i := i + 1;
      }

      r := RecordRun(arenas, arena, PageRun(pa, 1, t, reserved), newList);
    }

    /** The second half: a run of its own for the page, in an empty node or a new one in front. */
    method RecordRun(arenas: ArenaList, arena: nat, run: PageRun, newList: Option<nat>) returns (r: Outcome<()>)
      requires arenas.Valid() && arena in arenas.live
      requires RunsOk(trackedPages) && IsPage(run.physicalAddress) && run.pages == 1
      requires !AdjoinsClass(trackedPages, run.physicalAddress, run.pageType, run.reservedPool)
      requires if newList.Some? then newList.value < |trackedPages| && trackedPages[newList.value].pages == 0
               else !HasEmptyRun(trackedPages)
      modifies this`trackedPages, arenas`headers, arenas`blocks
      ensures arenas.Valid()
      ensures r.Ok? ==>
                && Tracked(old(trackedPages), trackedPages, run.physicalAddress, run.pageType, run.reservedPool)
                && Recorded(old(trackedPages), trackedPages, run.physicalAddress, run.pageType, run.reservedPool)
                && arenas.Room(arena) == old(arenas.Room(arena)) - if newList.Some? then 0 else SIZEOF_PAGE_RUN
      ensures r.Panic? <==> newList.None? && old(arenas.Room(arena)) < SIZEOF_PAGE_RUN
      ensures r.Panic? ==>
                && r.reason == ArenaFull && trackedPages == old(trackedPages)
                && arenas.Room(arena) == old(arenas.Room(arena))
    {
      hide ArenaList.Valid, ArenaList.Room, Tracked, Recorded, Pool;
      if newList == None {
        var _ :- arenas.Allocate(arena, SIZEOF_PAGE_RUN);
        PrependTracks(trackedPages, run, run.physicalAddress);
        PrependRecorded(trackedPages, run, run.physicalAddress);
        trackedPages := [run] + trackedPages;
      } else {
        ReplaceTracks(trackedPages, newList.value, run, run.physicalAddress);
        RunRecorded(trackedPages, newList.value, run, run.physicalAddress);
        trackedPages := trackedPages[newList.value := run];
      }
      return Ok(());
    }

    /** vm_manager_untrack_page_from_reserved_pool: the last page of the first non-empty run of
        the reserved pool, or nothing when the pool is empty. */
    method UntrackFromReservedPool(t: PageType) returns (page: Option<nat>)
      requires RunsOk(trackedPages)
      modifies this`trackedPages
      ensures page.Some? <==> Size(old(trackedPages), t, true) > 0
      ensures page == NextReserved(old(trackedPages), t)
      ensures page.None? ==> trackedPages == old(trackedPages)
      ensures page.Some? ==> Untracked(old(trackedPages), trackedPages, page.value, t)
      ensures page.Some? && t == Ept ==> Popped(old(trackedPages), trackedPages, page.value)
    {
      hide Pool, Untracked, Popped;
      PoolOfNone();
      var i := 0;
      while i < |trackedPages|
        invariant 0 <= i <= |trackedPages|
        invariant unchanged(this)
        invariant Size(trackedPages[..i], t, true) == 0
        invariant t == Ept ==> Pool(trackedPages[..i]) == []
        invariant NextReserved(trackedPages[i..], t) == NextReserved(trackedPages, t)
      {
        var iter := trackedPages[i];
        PoolSnoc(trackedPages, i);
        PoolOfOne(iter);
        if iter.pageType == t && iter.reservedPool && iter.pages != 0 {
          var pa := iter.physicalAddress + (iter.pages - 1) * PAGE_SIZE;
          SizePositive(trackedPages, i, t, true);
          ShrinkUntracks(trackedPages, i, t);
          if t == Ept {
            ShrinkPops(trackedPages, i);
          }
          trackedPages := trackedPages[i := iter.(pages := iter.pages - 1)];
          return Some(pa);
        }
        SizeSnoc(trackedPages, i, t, true);
        assert trackedPages[i..][1..] == trackedPages[i + 1..];
        i := i + 1;
      }
      assert trackedPages[..i] == trackedPages;
      return None;
    }
  }

  /** The page that comes out of a reserved pool next. */
  function NextReserved(runs: seq<PageRun>, t: PageType): Option<nat> {
    if runs == [] then None
    else if runs[0].pageType == t && runs[0].reservedPool && runs[0].pages != 0 then
      Some(runs[0].physicalAddress + (runs[0].pages - 1) * PAGE_SIZE)
    else NextReserved(runs[1..], t)
  }

  // --- what tracking and untracking do to a list -----------------------------------

  ghost predicate GrowsBy(runs: seq<PageRun>, runs': seq<PageRun>, t: PageType, reserved: bool) {
    forall t', reserved' ::
      Size(runs', t', reserved') == Size(runs, t', reserved') + (if t' == t && reserved' == reserved then 1 else 0)
  }

  /** The three tests of vm_manager_track_page. */
  lemma AdjoinsTest(r: PageRun, pa: nat)
    requires r.physicalAddress % PAGE_SIZE == 0 && RunEnd(r) <= 0x10_0000_0000_0000 && IsPage(pa)
    ensures r.pages == 0 ==> !Adjoins(r, pa)
    ensures r.pages > 0 ==>
              var first, last := r.physicalAddress, Add64(r.physicalAddress, (r.pages - 1) * PAGE_SIZE);
              Adjoins(r, pa) <==> first <= pa <= last || Add64(pa, PAGE_SIZE) == first || Sub64(pa, PAGE_SIZE) == last
  {
  }

  ghost predicate Tracked(runs: seq<PageRun>, runs': seq<PageRun>, pa: nat, t: PageType, reserved: bool) {
    && RunsOk(runs')
    && (HasEmptyAtZero(runs') ==> HasEmptyAtZero(runs))
    && AddsExactly(runs, runs', pa, t, reserved)
    && (!HeldByAny(runs, pa) ==> GrowsBy(runs, runs', t, reserved) && (Disjoint(runs) ==> Disjoint(runs')))
  }

  /** What recording a page does to the reserved pool: nothing, a longer run, or one run more. */
  ghost predicate Recorded(runs: seq<PageRun>, runs': seq<PageRun>, pa: nat, t: PageType, reserved: bool) {
    && (!(t == Ept && reserved) ==> Pool(runs') == Pool(runs))
    && |Pool(runs')| == |Pool(runs)| + if t == Ept && reserved && !AdjoinsClass(runs, pa, t, reserved) then 1 else 0
  }

  lemma KeptRecorded(runs: seq<PageRun>, i: nat, pa: nat)
    requires i < |runs| && Adjoins(runs[i], pa)
    ensures Recorded(runs, runs, pa, runs[i].pageType, runs[i].reservedPool)
    ensures AdjoinsClass(runs, pa, runs[i].pageType, runs[i].reservedPool)
  {
    hide Pool;
    assert OfClass(runs[i], runs[i].pageType, runs[i].reservedPool);
  }

  lemma RunRecorded(runs: seq<PageRun>, i: nat, r: PageRun, pa: nat)
    requires i < |runs| && r.pages > 0
    requires if runs[i].pages == 0 then !AdjoinsClass(runs, pa, r.pageType, r.reservedPool)
             else OfClass(runs[i], r.pageType, r.reservedPool) && Adjoins(runs[i], pa)
    ensures Recorded(runs, runs[i := r], pa, r.pageType, r.reservedPool)
  {
    hide Pool;
    PoolUpdate(runs, i, r);
    PoolOfOne(runs[i]);
    PoolOfOne(r);
    if runs[i].pages > 0 {
      KeptRecorded(runs, i, pa);
    }
  }

  lemma PrependRecorded(runs: seq<PageRun>, r: PageRun, pa: nat)
    requires r.pages > 0 && !AdjoinsClass(runs, pa, r.pageType, r.reservedPool)
    ensures Recorded(runs, [r] + runs, pa, r.pageType, r.reservedPool)
  {
    hide Pool;
    PoolPrepend(runs, r);
    PoolOfOne(r);
  }

  ghost predicate Untracked(runs: seq<PageRun>, runs': seq<PageRun>, pa: nat, t: PageType) {
    && RunsOk(runs')
    && (HasEmptyAtZero(runs') <==> HasEmptyAtZero(runs) || pa == 0)
    && IsPage(pa) && Holds(runs, t, true, pa)
    && (Disjoint(runs) ==>
          && Disjoint(runs')
          && forall t', reserved', q: nat ::
               Holds(runs', t', reserved', q) <==> Holds(runs, t', reserved', q) && q != pa)
    && (forall t', reserved' ::
          Size(runs', t', reserved') == Size(runs, t', reserved') - (if t' == t && reserved' then 1 else 0))
  }

  /** The first run of the pool loses its last page; a run without pages stays in the list. */
  ghost predicate Popped(runs: seq<PageRun>, runs': seq<PageRun>, pa: nat) {
    && Pool(runs) != [] && pa + PAGE_SIZE == RunEnd(Pool(runs)[0])
    && var head := Pool(runs)[0];
       if head.pages <= 1 then Pool(runs') == Pool(runs)[1..] && HasEmptyRun(runs')
       else Pool(runs') == [head.(pages := head.pages - 1)] + Pool(runs)[1..]
  }

  lemma ShrinkPops(runs: seq<PageRun>, i: nat)
    requires i < |runs| && OfClass(runs[i], Ept, true) && runs[i].pages > 0 && Pool(runs[..i]) == []
    ensures Popped(runs, runs[i := runs[i].(pages := runs[i].pages - 1)],
                   runs[i].physicalAddress + (runs[i].pages - 1) * PAGE_SIZE)
  {
    hide Pool;
    var r := runs[i].(pages := runs[i].pages - 1);
    PoolUpdate(runs, i, r);
    PoolOfOne(runs[i]);
    PoolOfOne(r);
    assert Pool(runs)[1..] == Pool(runs[i + 1..]);
    if r.pages == 0 {
      assert runs[i := r][i].pages == 0;
      assert Pool(runs[i := r]) == Pool(runs)[1..];
    }
  }

  lemma KeptTracked(runs: seq<PageRun>, i: nat, pa: nat)
    requires RunsOk(runs) && i < |runs| && runs[i].pages > 0 && IsPage(pa)
    requires runs[i].physicalAddress <= pa <= Add64(runs[i].physicalAddress, (runs[i].pages - 1) * PAGE_SIZE)
    ensures Tracked(runs, runs, pa, runs[i].pageType, runs[i].reservedPool)
  {
    assert Covers(runs[i], pa);
    assert Holds(runs, runs[i].pageType, runs[i].reservedPool, pa);
    assert HeldByAny(runs, pa);
  }

  lemma FrontTracked(runs: seq<PageRun>, i: nat, pa: nat)
    requires RunsOk(runs) && i < |runs| && runs[i].pages > 0 && IsPage(pa)
    requires Add64(pa, PAGE_SIZE) == runs[i].physicalAddress
    ensures Tracked(runs, runs[i := runs[i].(physicalAddress := pa, pages := runs[i].pages + 1)], pa,
                    runs[i].pageType, runs[i].reservedPool)
  {
    ExtendRun(runs[i], pa);
    ReplaceTracks(runs, i, runs[i].(physicalAddress := pa, pages := runs[i].pages + 1), pa);
  }

  lemma BackTracked(runs: seq<PageRun>, i: nat, pa: nat)
    requires RunsOk(runs) && i < |runs| && runs[i].pages > 0 && IsPage(pa)
    requires Sub64(pa, PAGE_SIZE) == Add64(runs[i].physicalAddress, (runs[i].pages - 1) * PAGE_SIZE)
    ensures Tracked(runs, runs[i := runs[i].(pages := runs[i].pages + 1)], pa, runs[i].pageType, runs[i].reservedPool)
  {
    ExtendRun(runs[i], pa);
    ReplaceTracks(runs, i, runs[i].(pages := runs[i].pages + 1), pa);
  }

  lemma ReplaceTracks(runs: seq<PageRun>, i: nat, r: PageRun, pa: nat)
    requires RunsOk(runs) && i < |runs| && AddsPage(runs[i], r, pa) && IsPage(pa)
    requires r.pages == runs[i].pages + 1 && r.physicalAddress % PAGE_SIZE == 0
    requires r.physicalAddress == pa || r.physicalAddress == runs[i].physicalAddress
    requires r.physicalAddress + r.pages * PAGE_SIZE <= 0x10_0000_0000_0000
    ensures Tracked(runs, runs[i := r], pa, r.pageType, r.reservedPool)
  {
    ReplaceAddsPage(runs, i, r, pa);
    if HasEmptyAtZero(runs[i := r]) {
      var k :| 0 <= k < |runs| && EmptyAtZero(runs[i := r][k]);
      assert EmptyAtZero(runs[k]);
    }
    forall t', reserved'
      ensures Size(runs[i := r], t', reserved')
              == Size(runs, t', reserved') + (if t' == r.pageType && reserved' == r.reservedPool then 1 else 0)
    {
      SizeUpdate(runs, i, r, t', reserved');
    }
  }

  lemma PrependTracks(runs: seq<PageRun>, r: PageRun, pa: nat)
    requires RunsOk(runs) && IsPage(pa) && r.physicalAddress == pa && r.pages == 1
    ensures Tracked(runs, [r] + runs, pa, r.pageType, r.reservedPool)
  {
    PrependAddsPage(runs, r, pa);
    if HasEmptyAtZero([r] + runs) {
      var k :| 0 <= k < |[r] + runs| && EmptyAtZero(([r] + runs)[k]);
      assert EmptyAtZero(runs[k - 1]);
    }
  }

  lemma ShrinkUntracks(runs: seq<PageRun>, i: nat, t: PageType)
    requires RunsOk(runs) && i < |runs| && OfClass(runs[i], t, true) && runs[i].pages > 0
    ensures var pa := runs[i].physicalAddress + (runs[i].pages - 1) * PAGE_SIZE;
            Untracked(runs, runs[i := runs[i].(pages := runs[i].pages - 1)], pa, t)
  {
    var pa := runs[i].physicalAddress + (runs[i].pages - 1) * PAGE_SIZE;
    var r := runs[i].(pages := runs[i].pages - 1);
    var runs' := runs[i := r];
    assert Covers(runs[i], pa);
    ShrinkEmpties(runs, i);
    assert forall q: nat :: Covers(r, q) <==> Covers(runs[i], q) && q != pa;
    forall t', reserved'
      ensures Size(runs', t', reserved') == Size(runs, t', reserved') - (if t' == t && reserved' then 1 else 0)
    {
      SizeUpdate(runs, i, r, t', reserved');
    }
    if Disjoint(runs) {
      forall t', reserved', q: nat
        ensures Holds(runs', t', reserved', q) <==> Holds(runs, t', reserved', q) && q != pa
      {
        ShrinkHolds(runs, i, pa, t', reserved', q);
      }
    }
  }

  /** Shrinking a run leaves an empty run at address 0 exactly when its last page was page 0. */
  lemma ShrinkEmpties(runs: seq<PageRun>, i: nat)
    requires i < |runs| && runs[i].pages > 0
    ensures HasEmptyAtZero(runs[i := runs[i].(pages := runs[i].pages - 1)])
            <==> HasEmptyAtZero(runs) || runs[i].physicalAddress + (runs[i].pages - 1) * PAGE_SIZE == 0
  {
    var runs' := runs[i := runs[i].(pages := runs[i].pages - 1)];
    if k :| 0 <= k < |runs'| && EmptyAtZero(runs'[k]) {
      assert k != i ==> EmptyAtZero(runs[k]);
    }
    if k :| 0 <= k < |runs| && EmptyAtZero(runs[k]) {
      assert EmptyAtZero(runs'[k]);
    }
    if runs[i].physicalAddress + (runs[i].pages - 1) * PAGE_SIZE == 0 {
      assert EmptyAtZero(runs'[i]);
    }
  }

  lemma ShrinkHolds(runs: seq<PageRun>, i: nat, pa: nat, t: PageType, reserved: bool, q: nat)
    requires Disjoint(runs) && i < |runs| && runs[i].pages > 0 && Covers(runs[i], pa)
    requires forall q: nat :: Covers(runs[i].(pages := runs[i].pages - 1), q) <==> Covers(runs[i], q) && q != pa
    ensures Holds(runs[i := runs[i].(pages := runs[i].pages - 1)], t, reserved, q)
            <==> Holds(runs, t, reserved, q) && q != pa
  {
    var runs' := runs[i := runs[i].(pages := runs[i].pages - 1)];
    if Holds(runs', t, reserved, q) {
      var j :| 0 <= j < |runs'| && OfClass(runs'[j], t, reserved) && Covers(runs'[j], q);
      assert OfClass(runs[j], t, reserved) && Covers(runs[j], q);
    }
    if Holds(runs, t, reserved, q) && q != pa {
      var j :| 0 <= j < |runs| && OfClass(runs[j], t, reserved) && Covers(runs[j], q);
      assert OfClass(runs'[j], t, reserved) && Covers(runs'[j], q);
    }
  }

  lemma {:induction false} SizePositive(runs: seq<PageRun>, i: nat, t: PageType, reserved: bool)
    requires i < |runs| && OfClass(runs[i], t, reserved)
    ensures Size(runs, t, reserved) >= runs[i].pages
  {
    if i > 0 {
      SizePositive(runs[1..], i - 1, t, reserved);
    }
  }

  lemma {:induction false} SizeSnoc(runs: seq<PageRun>, i: nat, t: PageType, reserved: bool)
    requires i < |runs|
    ensures Size(runs[..i + 1], t, reserved)
            == Size(runs[..i], t, reserved) + (if OfClass(runs[i], t, reserved) then runs[i].pages else 0)
  {
    if i == 0 {
      assert runs[..1] == [runs[0]];
    } else {
      SizeSnoc(runs[1..], i - 1, t, reserved);
      assert runs[..i + 1][1..] == runs[1..][..i];
      assert runs[..i][1..] == runs[1..][..i - 1];
    }
  }

  // --- what recording costs --------------------------------------------------------

  /** The table page taken last lies behind the first run of the pool: the next one adjoins it. */
  ghost predicate PoolBegun(runs: seq<PageRun>) {
    Pool(runs) != [] && Holds(runs, Ept, false, RunEnd(Pool(runs)[0]))
  }

  /** The runs of the pool whose pages still need a new run as table pages. */
  ghost function Pot(runs: seq<PageRun>): int {
    |Pool(runs)| - if PoolBegun(runs) then 1 else 0
  }

  /** Recording guest memory does not concern the pool. */
  lemma GuestKeepsPot(runs: seq<PageRun>, runs': seq<PageRun>, pa: nat)
    requires Tracked(runs, runs', pa, GuestPhysical, false) && Recorded(runs, runs', pa, GuestPhysical, false)
    ensures Pot(runs') == Pot(runs)
  {
    hide Pool, HeldByAny;
  }

  /** A page for the pool starts a new run there unless it adjoins one. */
  lemma ReserveGrowsPot(runs: seq<PageRun>, runs': seq<PageRun>, pa: nat)
    requires Recorded(runs, runs', pa, Ept, true) && !PoolBegun(runs)
    ensures Pot(runs') <= Pot(runs) + if AdjoinsClass(runs, pa, Ept, true) then 0 else 1
  {
    hide Pool;
  }

  /** A table page from the pool needs a new run only as the first one of its run there. */
  lemma PopAndTrack(runs: seq<PageRun>, runs1: seq<PageRun>, pa: nat)
    requires RunsOk(runs) && Disjoint(runs) && Untracked(runs, runs1, pa, Ept) && Popped(runs, runs1, pa)
    ensures Pot(runs) >= 0
    ensures !HasPlace(runs1, pa, Ept, false) ==> Pot(runs) == |Pool(runs)| > 0
    ensures forall runs2 :: Tracked(runs1, runs2, pa, Ept, false) && Recorded(runs1, runs2, pa, Ept, false) ==>
                              Pot(runs2) <= Pot(runs) - if HasPlace(runs1, pa, Ept, false) then 0 else 1
  {
    hide Pool, HasEmptyRun, AdjoinsClass, RunsOk, HeldByAny;
    var head := Pool(runs)[0];
    NotHeldAfter(runs, runs1, pa);
    if head.pages > 1 && PoolBegun(runs) {
      assert Holds(runs1, Ept, false, pa + PAGE_SIZE);
      NextPageAdjoins(runs1, pa, Ept, false);
    }
    forall runs2 | Tracked(runs1, runs2, pa, Ept, false) && Recorded(runs1, runs2, pa, Ept, false)
      ensures Pot(runs2) <= Pot(runs) - if HasPlace(runs1, pa, Ept, false) then 0 else 1
    {
      if head.pages > 1 {
        assert RunEnd(Pool(runs2)[0]) == pa;
        assert Holds(runs2, Ept, false, pa);
      }
    }
  }

  lemma NotHeldAfter(runs: seq<PageRun>, runs': seq<PageRun>, pa: nat)
    requires Disjoint(runs) && Untracked(runs, runs', pa, Ept)
    ensures !HeldByAny(runs', pa)
  {
    forall k | 0 <= k < |runs'|
      ensures !Covers(runs'[k], pa)
    {
      assert OfClass(runs'[k], runs'[k].pageType, runs'[k].reservedPool);
      assert !Holds(runs', runs'[k].pageType, runs'[k].reservedPool, pa);
    }
  }
}
