/** The lists of page runs in which a VM records the pages it owns (vm_page_list_t). */
module PageList {
  import opened Bits
  import opened Paging

  datatype PageType = Ept | GuestPhysical

  datatype PageRun = PageRun(physicalAddress: u64, pages: nat, pageType: PageType, reservedPool: bool)

  // --- the meaning of a list ---------------------------------------------------

  predicate Covers(r: PageRun, pa: nat) {
    pa % PAGE_SIZE == 0 && r.physicalAddress <= pa < r.physicalAddress + r.pages * PAGE_SIZE
  }

  predicate OfClass(r: PageRun, t: PageType, reserved: bool) {
    r.pageType == t && r.reservedPool == reserved
  }

  /** Runs are page aligned and lie below 2^52. */
  predicate RunsOk(runs: seq<PageRun>) {
    forall k :: 0 <= k < |runs| ==>
      runs[k].physicalAddress % PAGE_SIZE == 0
      && runs[k].physicalAddress + runs[k].pages * PAGE_SIZE <= 0x10_0000_0000_0000
  }

  ghost predicate Holds(runs: seq<PageRun>, t: PageType, reserved: bool, pa: nat) {
    exists k :: 0 <= k < |runs| && OfClass(runs[k], t, reserved) && Covers(runs[k], pa)
  }

  ghost predicate HeldByAny(runs: seq<PageRun>, pa: nat) {
    exists k :: 0 <= k < |runs| && Covers(runs[k], pa)
  }

  ghost predicate Disjoint(runs: seq<PageRun>) {
    forall j, k, pa: nat :: 0 <= j < k < |runs| && Covers(runs[j], pa) ==> !Covers(runs[k], pa)
  }

  /** The number of pages a class of runs adds up to. */
  function Size(runs: seq<PageRun>, t: PageType, reserved: bool): nat {
    if runs == [] then 0
    else (if OfClass(runs[0], t, reserved) then runs[0].pages else 0) + Size(runs[1..], t, reserved)
  }

  lemma {:induction false} SizeUpdate(runs: seq<PageRun>, k: nat, r: PageRun, t: PageType, reserved: bool)
    requires k < |runs|
    ensures Size(runs[k := r], t, reserved)
            == Size(runs, t, reserved) - (if OfClass(runs[k], t, reserved) then runs[k].pages else 0)
               + (if OfClass(r, t, reserved) then r.pages else 0)
  {
    var runs' := runs[k := r];
    if k == 0 {
      assert runs'[1..] == runs[1..];
    } else {
      assert runs'[1..] == runs[1..][k - 1 := r];
      SizeUpdate(runs[1..], k - 1, r, t, reserved);
    }
  }

  // --- replacing one run ---------------------------------------------------------

  /** Turning run k, which covers pages S of its class or nothing, into one that also covers pa
      adds pa to that class and nothing else. */
  ghost predicate AddsPage(old': PageRun, new': PageRun, pa: nat) {
    && (old'.pages == 0 || OfClass(old', new'.pageType, new'.reservedPool))
    && forall q: nat :: Covers(new', q) <==> Covers(old', q) || q == pa
  }

  ghost predicate AddsExactly(runs: seq<PageRun>, runs': seq<PageRun>, pa: nat, t: PageType, reserved: bool) {
    forall t', reserved', q: nat ::
      Holds(runs', t', reserved', q) <==> Holds(runs, t', reserved', q) || (t' == t && reserved' == reserved && q == pa)
  }

  lemma ReplaceAddsPage(runs: seq<PageRun>, k: nat, r: PageRun, pa: nat)
    requires k < |runs| && AddsPage(runs[k], r, pa)
    ensures AddsExactly(runs, runs[k := r], pa, r.pageType, r.reservedPool)
    ensures Disjoint(runs) && !HeldByAny(runs, pa) ==> Disjoint(runs[k := r])
  {
    var runs' := runs[k := r];
    forall t, reserved, q: nat
      ensures Holds(runs', t, reserved, q)
              <==> Holds(runs, t, reserved, q) || (t == r.pageType && reserved == r.reservedPool && q == pa)
    {
      if Holds(runs', t, reserved, q) {
        var j :| 0 <= j < |runs'| && OfClass(runs'[j], t, reserved) && Covers(runs'[j], q);
        if j != k {
          assert OfClass(runs[j], t, reserved) && Covers(runs[j], q);
        }
      }
      if Holds(runs, t, reserved, q) {
        var j :| 0 <= j < |runs| && OfClass(runs[j], t, reserved) && Covers(runs[j], q);
        assert OfClass(runs'[j], t, reserved) && Covers(runs'[j], q);
      }
      if OfClass(r, t, reserved) && q == pa {
        assert Covers(runs'[k], q);
      }
    }
  }

  lemma PrependAddsPage(runs: seq<PageRun>, r: PageRun, pa: nat)
    requires forall q: nat :: Covers(r, q) <==> q == pa
    ensures AddsExactly(runs, [r] + runs, pa, r.pageType, r.reservedPool)
    ensures Disjoint(runs) && !HeldByAny(runs, pa) ==> Disjoint([r] + runs)
    ensures forall t, reserved :: Size([r] + runs, t, reserved)
                                  == Size(runs, t, reserved) + (if OfClass(r, t, reserved) then r.pages else 0)
  {
    var runs' := [r] + runs;
    assert runs'[1..] == runs;
    forall t, reserved, q: nat
      ensures Holds(runs', t, reserved, q)
              <==> Holds(runs, t, reserved, q) || (t == r.pageType && reserved == r.reservedPool && q == pa)
    {
      if Holds(runs', t, reserved, q) {
        var j :| 0 <= j < |runs'| && OfClass(runs'[j], t, reserved) && Covers(runs'[j], q);
        if j != 0 {
          assert OfClass(runs[j - 1], t, reserved) && Covers(runs[j - 1], q);
        }
      }
      if Holds(runs, t, reserved, q) {
        var j :| 0 <= j < |runs| && OfClass(runs[j], t, reserved) && Covers(runs[j], q);
        assert OfClass(runs'[j + 1], t, reserved) && Covers(runs'[j + 1], q);
      }
      if OfClass(r, t, reserved) && q == pa {
        assert Covers(runs'[0], q);
      }
    }
    if Disjoint(runs) && !HeldByAny(runs, pa) {
      forall j, k, q: nat | 0 <= j < k < |runs'| && Covers(runs'[j], q)
        ensures !Covers(runs'[k], q)
      {
        if j > 0 {
          assert Covers(runs[j - 1], q);
        }
      }
    }
  }

  lemma ExtendRun(r: PageRun, pa: nat)
    requires pa % PAGE_SIZE == 0 && r.physicalAddress % PAGE_SIZE == 0 && r.pages > 0
    ensures pa + PAGE_SIZE == r.physicalAddress ==>
              pa < TWO_64 && AddsPage(r, r.(physicalAddress := pa, pages := r.pages + 1), pa)
    ensures pa == r.physicalAddress + r.pages * PAGE_SIZE ==>
              AddsPage(r, r.(pages := r.pages + 1), pa)
  {
  }

  // --- where a page finds a place -------------------------------------------------------------

  function RunEnd(r: PageRun): nat {
    r.physicalAddress + r.pages * PAGE_SIZE
  }

  /** The run has the page, or the page can be put in front of it or behind it. */
  predicate Adjoins(r: PageRun, pa: nat) {
    r.pages > 0 && (Covers(r, pa) || pa + PAGE_SIZE == r.physicalAddress || pa == RunEnd(r))
  }

  predicate AdjoinsClass(runs: seq<PageRun>, pa: nat, t: PageType, reserved: bool) {
    exists k :: 0 <= k < |runs| && OfClass(runs[k], t, reserved) && Adjoins(runs[k], pa)
  }

  predicate HasEmptyRun(runs: seq<PageRun>) {
    exists k :: 0 <= k < |runs| && runs[k].pages == 0
  }

  /** The page can be recorded without a new run. */
  predicate HasPlace(runs: seq<PageRun>, pa: nat, t: PageType, reserved: bool) {
    AdjoinsClass(runs, pa, t, reserved) || HasEmptyRun(runs)
  }

  /** A page next to a page of its class finds a place. */
  lemma NextPageAdjoins(runs: seq<PageRun>, pa: nat, t: PageType, reserved: bool)
    requires RunsOk(runs) && pa % PAGE_SIZE == 0 && !HeldByAny(runs, pa) && Holds(runs, t, reserved, pa + PAGE_SIZE)
    ensures AdjoinsClass(runs, pa, t, reserved)
  {
    var k :| 0 <= k < |runs| && OfClass(runs[k], t, reserved) && Covers(runs[k], pa + PAGE_SIZE);
    assert !Covers(runs[k], pa);
    assert Adjoins(runs[k], pa);
  }

  // --- the runs of the reserved pool, in the order in which they are used up --------------------

  /** The non-empty runs that are reserved for EPT pages. */
  function Pool(runs: seq<PageRun>): seq<PageRun> {
    if runs == [] then []
    else (if OfClass(runs[0], Ept, true) && runs[0].pages > 0 then [runs[0]] else []) + Pool(runs[1..])
  }

  lemma PoolOfOne(r: PageRun)
    ensures Pool([r]) == if OfClass(r, Ept, true) && r.pages > 0 then [r] else []
  {
    assert [r][1..] == [];
    assert Pool([]) == [];
  }

  lemma PoolPrepend(runs: seq<PageRun>, r: PageRun)
    ensures Pool([r] + runs) == Pool([r]) + Pool(runs)
  {
    PoolOfOne(r);
    assert ([r] + runs)[1..] == runs;
  }

  lemma {:induction false} PoolSplits(runs: seq<PageRun>, i: nat)
    requires i < |runs|
    ensures Pool(runs) == Pool(runs[..i]) + Pool([runs[i]]) + Pool(runs[i + 1..])
  {
    hide Pool;
    assert runs == [runs[0]] + runs[1..];
    PoolPrepend(runs[1..], runs[0]);
    if i == 0 {
      PoolOfNone();
    } else {
      PoolSplits(runs[1..], i - 1);
      assert runs[..i] == [runs[0]] + runs[1..][..i - 1] && runs[1..][i..] == runs[i + 1..];
      PoolPrepend(runs[1..][..i - 1], runs[0]);
    }
  }

  lemma PoolOfNone()
    ensures Pool([]) == []
  {
  }

  lemma PoolSnoc(runs: seq<PageRun>, i: nat)
    requires i < |runs|
    ensures Pool(runs[..i + 1]) == Pool(runs[..i]) + Pool([runs[i]])
  {
    hide Pool;
    PoolSplits(runs[..i + 1], i);
    PoolOfNone();
    assert runs[..i + 1][..i] == runs[..i] && runs[..i + 1][i + 1..] == [];
  }

  /** Replacing one run changes the pool in its place. */
  lemma PoolUpdate(runs: seq<PageRun>, i: nat, r: PageRun)
    requires i < |runs|
    ensures Pool(runs) == Pool(runs[..i]) + Pool([runs[i]]) + Pool(runs[i + 1..])
    ensures Pool(runs[i := r]) == Pool(runs[..i]) + Pool([r]) + Pool(runs[i + 1..])
  {
    PoolSplits(runs, i);
    PoolSplits(runs[i := r], i);
    assert runs[i := r][..i] == runs[..i] && runs[i := r][i + 1..] == runs[i + 1..];
  }

  // --- sizes are cardinalities ---------------------------------------------------------

  ghost function RunPages(r: PageRun): set<nat> {
    set pa: nat | r.physicalAddress <= pa < r.physicalAddress + r.pages * PAGE_SIZE && pa % PAGE_SIZE == 0
  }

  ghost function ClassPages(runs: seq<PageRun>, t: PageType, reserved: bool): set<nat> {
    set pa: nat | pa < 0x10_0000_0000_0000 && Holds(runs, t, reserved, pa)
  }

  lemma {:induction false} RunCardinality(r: PageRun)
    requires r.physicalAddress % PAGE_SIZE == 0
    ensures |RunPages(r)| == r.pages
    decreases r.pages
  {
    if r.pages == 0 {
      assert RunPages(r) == {};
    } else {
      hide RunPages;
      var r' := r.(pages := r.pages - 1);
      RunCardinality(r');
      LastPageOfRun(r);
    }
  }

  lemma LastPageOfRun(r: PageRun)
    requires r.physicalAddress % PAGE_SIZE == 0 && r.pages > 0
    ensures var last := r.physicalAddress + (r.pages - 1) * PAGE_SIZE;
            last !in RunPages(r.(pages := r.pages - 1)) && RunPages(r) == RunPages(r.(pages := r.pages - 1)) + {last}
  {
    var base, last := r.physicalAddress / PAGE_SIZE, r.physicalAddress + (r.pages - 1) * PAGE_SIZE;
    assert last == (base + r.pages - 1) * PAGE_SIZE;
    forall pa: nat
      ensures pa in RunPages(r) <==> pa in RunPages(r.(pages := r.pages - 1)) || pa == last
    {
      if pa % PAGE_SIZE == 0 && last <= pa < last + PAGE_SIZE {
        assert pa / PAGE_SIZE == base + r.pages - 1;
      }
    }
  }

  /** The runs of a class add up to the number of its pages: no page is counted twice. */
  lemma {:induction false} SizeIsCardinality(runs: seq<PageRun>, t: PageType, reserved: bool)
    requires RunsOk(runs) && Disjoint(runs)
    ensures |ClassPages(runs, t, reserved)| == Size(runs, t, reserved)
  {
    if runs == [] {
      assert ClassPages(runs, t, reserved) == {};
    } else {
      hide RunPages, ClassPages, Disjoint;
      var rest := runs[1..];
      RestIsDisjoint(runs, t, reserved);
      SizeIsCardinality(rest, t, reserved);
      RunCardinality(runs[0]);
      ClassPagesSplit(runs, t, reserved);
    }
  }

  lemma RestIsDisjoint(runs: seq<PageRun>, t: PageType, reserved: bool)
    requires Disjoint(runs) && runs != []
    ensures Disjoint(runs[1..]) && RunPages(runs[0]) !! ClassPages(runs[1..], t, reserved)
  {
    var rest := runs[1..];
    forall j, k, pa: nat | 0 <= j < k < |rest| && Covers(rest[j], pa)
      ensures !Covers(rest[k], pa)
    {
      assert Covers(runs[j + 1], pa);
    }
    forall pa | pa in RunPages(runs[0])
      ensures pa !in ClassPages(rest, t, reserved)
    {
      forall k | 0 <= k < |rest|
        ensures !Covers(rest[k], pa)
      {
        assert Covers(runs[0], pa) && rest[k] == runs[k + 1];
      }
    }
  }

  lemma ClassPagesSplit(runs: seq<PageRun>, t: PageType, reserved: bool)
    requires RunsOk(runs) && runs != []
    ensures ClassPages(runs, t, reserved)
            == (if OfClass(runs[0], t, reserved) then RunPages(runs[0]) else {}) + ClassPages(runs[1..], t, reserved)
  {
    var rest := runs[1..];
    forall pa: nat | pa < 0x10_0000_0000_0000
      ensures Holds(runs, t, reserved, pa)
              <==> (OfClass(runs[0], t, reserved) && Covers(runs[0], pa)) || Holds(rest, t, reserved, pa)
    {
      if Holds(runs, t, reserved, pa) {
        var k :| 0 <= k < |runs| && OfClass(runs[k], t, reserved) && Covers(runs[k], pa);
        if k > 0 {
          assert Covers(rest[k - 1], pa) && OfClass(rest[k - 1], t, reserved);
        }
      }
      if Holds(rest, t, reserved, pa) {
        var k :| 0 <= k < |rest| && OfClass(rest[k], t, reserved) && Covers(rest[k], pa);
        assert Covers(runs[k + 1], pa) && OfClass(runs[k + 1], t, reserved);
      }
    }
  }

  // --- the interval test of the page allocator -------------------------------------

  /** The test of mm_page_used_by_vm_manager on one run, in 64-bit arithmetic. */
  predicate TestRun(r: PageRun, pa: u64)
    requires r.pages * PAGE_SIZE <= TWO_64
  {
    var first := r.physicalAddress;
    var last := Add64(first, (r.pages - 1) * PAGE_SIZE % TWO_64);
    first <= pa <= last
  }

  /** An empty run at address 0. */
  predicate EmptyAtZero(r: PageRun) {
    r.pages == 0 && r.physicalAddress == 0
  }

  /** Such a run makes the interval test accept every page. */
  ghost predicate HasEmptyAtZero(runs: seq<PageRun>) {
    exists k :: 0 <= k < |runs| && EmptyAtZero(runs[k])
  }

  /** On aligned pages the test is membership, unless an empty run has address 0: then it
      accepts every page. */
  lemma TestRunExact(r: PageRun, pa: nat)
    requires r.physicalAddress % PAGE_SIZE == 0 && pa % PAGE_SIZE == 0 && pa < TWO_64
    requires r.physicalAddress + r.pages * PAGE_SIZE <= 0x10_0000_0000_0000
    ensures TestRun(r, pa) <==> Covers(r, pa) || EmptyAtZero(r)
  {
  }
}
