/** Which pages the cyclic scan finds one after the other, when each is claimed before the next is asked for. */
module PageSupply {
  import opened Paging
  import opened Outcomes
  import opened AddressMap
  import opened Chainload
  import opened PageScan

  /** The downward steps of the scan from one usable page to another. */
  function Steps(mmap: seq<MmapDescriptor>, start: Cursor, c: Cursor): int
    requires CursorOk(mmap, start) && CursorOk(mmap, c)
  {
    Rank(mmap, start) - Rank(mmap, c) + if Rank(mmap, c) <= Rank(mmap, start) then 0 else Total(mmap)
  }

  ghost predicate Free(boot: ChainloadPage, used: set<nat>, p: nat) {
    p !in used && !InChainload(boot, p)
  }

  /** The first free page of the scan from start. The scan gets there, wrapping around only when it can. */
  ghost predicate NextFree(boot: ChainloadPage, used: set<nat>, start: Cursor, c: Cursor) {
    && CursorOk(boot.mmap, start) && CursorOk(boot.mmap, c)
    && Free(boot, used, PageAt(boot.mmap, c))
    && (BottomUsable(boot.mmap) || Rank(boot.mmap, c) <= Rank(boot.mmap, start))
    && forall d :: CursorOk(boot.mmap, d) && Steps(boot.mmap, start, d) < Steps(boot.mmap, start, c) ==>
                     !Free(boot, used, PageAt(boot.mmap, d))
  }

  /** The scans of one caller after the other find these pages, all of them accessible. */
  ghost predicate Supply(boot: ChainloadPage, used: set<nat>, start: Cursor, cs: seq<Cursor>)
    decreases |cs|
  {
    cs == []
    || (&& NextFree(boot, used, start, cs[0]) && IsFrame(PageAt(boot.mmap, cs[0]))
        && Supply(boot, used + {PageAt(boot.mmap, cs[0])}, cs[0], cs[1..]))
  }

  /** A scan starts from the page returned last, or from the topmost usable page. */
  predicate StartsAt(mmap: seq<MmapDescriptor>, last: Option<Cursor>, c: Cursor) {
    CursorOk(mmap, c) && if last.Some? then c == last.value else Rank(mmap, c) == Total(mmap) - 1
  }

  ghost predicate SupplyFrom(boot: ChainloadPage, last: Option<Cursor>, used: set<nat>, cs: seq<Cursor>) {
    cs == [] || exists start :: StartsAt(boot.mmap, last, start) && Supply(boot, used, start, cs)
  }

  lemma SupplyStarts(boot: ChainloadPage, used: set<nat>, start: Cursor, c: Cursor, cs: seq<Cursor>)
    requires NextFree(boot, used, start, c) && IsFrame(PageAt(boot.mmap, c))
    requires cs == [] || Supply(boot, used + {PageAt(boot.mmap, c)}, c, cs)
    ensures Supply(boot, used, start, [c] + cs)
  {
    hide NextFree;
    assert ([c] + cs)[1..] == cs;
  }

  lemma SupplyBegins(boot: ChainloadPage, used: set<nat>, start: Cursor, cs: seq<Cursor>)
    requires Supply(boot, used, start, cs) && cs != []
    ensures NextFree(boot, used, start, cs[0]) && CursorOk(boot.mmap, cs[0]) && IsFrame(PageAt(boot.mmap, cs[0]))
    ensures Supply(boot, used + {PageAt(boot.mmap, cs[0])}, cs[0], cs[1..])
  {
  }

  /** The page on which a scan ends is the next free one. */
  lemma ScanFindsNext(boot: ChainloadPage, used: set<nat>, start: Cursor, visited: seq<Cursor>, c: Cursor)
    requires NextFree(boot, used, start, c) && ScanPath(boot.mmap, start, visited) && visited != []
    requires forall v :: v in visited[..|visited| - 1] ==> !Free(boot, used, PageAt(boot.mmap, v))
    requires Free(boot, used, PageAt(boot.mmap, visited[|visited| - 1]))
    ensures visited[|visited| - 1] == c
  {
    hide Free, Total, Rank;
    var mmap, k := boot.mmap, |visited| - 1;
    var steps := Steps(mmap, start, c);
    RankBelowTotal(mmap, c);
    RankBelowTotal(mmap, start);
    assert VisitAt(mmap, start, visited[k], k);
    assert steps < k ==> VisitAt(mmap, start, visited[steps], steps) && visited[steps] == visited[..k][steps];
    if steps < k {
      RankInjective(mmap, visited[steps], c);
    } else {
      RankInjective(mmap, visited[k], c);
    }
  }

  // --- where supplies come from ------------------------------------------------------------

  /** The usable page is free. */
  ghost predicate FreeAt(boot: ChainloadPage, used: set<nat>, c: Cursor) {
    CursorOk(boot.mmap, c) && Free(boot, used, PageAt(boot.mmap, c))
  }

  ghost predicate FreePages(boot: ChainloadPage, used: set<nat>, pages: set<nat>) {
    forall p :: p in pages ==> exists c :: FreeAt(boot, used, c) && PageAt(boot.mmap, c) == p
  }

  lemma {:induction false} FirstFree(boot: ChainloadPage, used: set<nat>, start: Cursor, c: Cursor)
    returns (first: Cursor)
    requires BottomUsable(boot.mmap) && CursorOk(boot.mmap, start) && FreeAt(boot, used, c)
    ensures NextFree(boot, used, start, first)
    decreases Steps(boot.mmap, start, c)
  {
    RankBelowTotal(boot.mmap, start);
    RankBelowTotal(boot.mmap, c);
    if d :| CursorOk(boot.mmap, d) && Steps(boot.mmap, start, d) < Steps(boot.mmap, start, c)
            && Free(boot, used, PageAt(boot.mmap, d))
    {
      first := FirstFree(boot, used, start, d);
    } else {
      first := c;
    }
  }

  /** With descriptor 0 usable and all usable memory accessible, there is a supply of as many pages as are free. */
  lemma {:induction false} FreePagesSupply(boot: ChainloadPage, used: set<nat>, start: Cursor, pages: set<nat>)
    returns (cs: seq<Cursor>)
    requires BottomUsable(boot.mmap) && CursorOk(boot.mmap, start) && FreePages(boot, used, pages)
    requires forall c :: CursorOk(boot.mmap, c) ==> IsFrame(PageAt(boot.mmap, c))
    ensures Supply(boot, used, start, cs) && |cs| == |pages|
    decreases |pages|
  {
    if pages == {} {
      cs := [];
    } else {
      var some :| some in pages;
      var c :| FreeAt(boot, used, c) && PageAt(boot.mmap, c) == some;
      var first := FirstFree(boot, used, start, c);
      var p := PageAt(boot.mmap, first);
      var rest := pages - {if p in pages then p else some};
      StillFree(boot, used, pages, rest, p);
      var cs' := FreePagesSupply(boot, used + {p}, first, rest);
      cs := [first] + cs';
      assert cs[1..] == cs';
    }
  }

  lemma StillFree(boot: ChainloadPage, used: set<nat>, pages: set<nat>, rest: set<nat>, p: nat)
    requires FreePages(boot, used, pages) && rest <= pages && p !in rest
    ensures FreePages(boot, used + {p}, rest)
  {
    forall q | q in rest
      ensures exists c :: FreeAt(boot, used + {p}, c) && PageAt(boot.mmap, c) == q
    {
      var c :| FreeAt(boot, used, c) && PageAt(boot.mmap, c) == q;
      assert FreeAt(boot, used + {p}, c);
    }
  }

  /** n pages from the top page of a block downwards. */
  function Downwards(top: Cursor, n: nat): seq<Cursor>
    requires n <= top.page + 1
  {
    seq(n, k requires 0 <= k < n => Cursor(top.region, top.page - k))
  }

  /** n accessible free pages, from top downwards. */
  ghost predicate FreeBlock(boot: ChainloadPage, used: set<nat>, top: Cursor, n: nat) {
    forall page: nat :: top.page < page + n && page <= top.page ==>
      FreeAt(boot, used, Cursor(top.region, page)) && IsFrame(PageAt(boot.mmap, Cursor(top.region, page)))
  }

  /** A block of free pages at or just below the start of a scan: the scan supplies them in order. */
  lemma {:induction false} BlockSupplies(boot: ChainloadPage, used: set<nat>, start: Cursor, top: Cursor, n: nat)
    requires CursorOk(boot.mmap, start) && CursorOk(boot.mmap, top) && n <= top.page + 1
    requires top == start || (top.region == start.region && top.page + 1 == start.page && !FreeAt(boot, used, start))
    requires FreeBlock(boot, used, top, n)
    ensures Supply(boot, used, start, Downwards(top, n))
    decreases n
  {
    hide FreeAt, NextFree, FreeBlock;
    if n > 0 {
      hide Supply;
      var used' := used + {PageAt(boot.mmap, top)};
      BlockBelow(boot, used, top, n);
      NextBelow(boot, used, start, top);
      if n > 1 {
        var below := Cursor(top.region, top.page - 1);
        BlockSupplies(boot, used', top, below, n - 1);
        SupplyStarts(boot, used, start, top, Downwards(below, n - 1));
        assert [top] + Downwards(below, n - 1) == Downwards(top, n);
      } else {
        SupplyStarts(boot, used, start, top, []);
        assert [top] == Downwards(top, 1);
      }
    }
  }

  lemma BlockBelow(boot: ChainloadPage, used: set<nat>, top: Cursor, n: nat)
    requires FreeBlock(boot, used, top, n) && 0 < n <= top.page + 1
    ensures FreeAt(boot, used, top) && IsFrame(PageAt(boot.mmap, top))
    ensures var used' := used + {PageAt(boot.mmap, top)};
            && !FreeAt(boot, used', top)
            && (n > 1 ==> FreeBlock(boot, used', Cursor(top.region, top.page - 1), n - 1)
                          && CursorOk(boot.mmap, Cursor(top.region, top.page - 1)))
  {
    assert top == Cursor(top.region, top.page);
    hide InChainload;
  }

  lemma NextBelow(boot: ChainloadPage, used: set<nat>, start: Cursor, top: Cursor)
    requires CursorOk(boot.mmap, start) && FreeAt(boot, used, top)
    requires top == start || (top.region == start.region && top.page + 1 == start.page && !FreeAt(boot, used, start))
    ensures NextFree(boot, used, start, top)
  {
    hide Free;
    forall d | CursorOk(boot.mmap, d) && Steps(boot.mmap, start, d) < Steps(boot.mmap, start, top)
      ensures !Free(boot, used, PageAt(boot.mmap, d))
    {
      RankBelowTotal(boot.mmap, d);
      RankInjective(boot.mmap, d, start);
    }
  }

  // --- how often a supply jumps ------------------------------------------------------------

  ghost predicate CursorsOk(mmap: seq<MmapDescriptor>, cs: seq<Cursor>) {
    forall k :: 0 <= k < |cs| ==> CursorOk(mmap, cs[k])
  }

  /** Every page of a supply was free. */
  lemma {:induction false} SupplyWasFree(boot: ChainloadPage, used: set<nat>, start: Cursor, cs: seq<Cursor>)
    requires Supply(boot, used, start, cs)
    ensures forall k :: 0 <= k < |cs| ==> FreeAt(boot, used, cs[k])
    decreases |cs|
  {
    if cs != [] {
      var used' := used + {PageAt(boot.mmap, cs[0])};
      SupplyWasFree(boot, used', cs[0], cs[1..]);
      forall k | 0 <= k < |cs|
        ensures FreeAt(boot, used, cs[k])
      {
        if k > 0 {
          assert cs[k] == cs[1..][k - 1] && FreeAt(boot, used', cs[1..][k - 1]);
        }
      }
    }
  }

  /** The pages that do not lie directly below the page before them. */
  ghost function Breaks(mmap: seq<MmapDescriptor>, before: Option<nat>, cs: seq<Cursor>): nat
    requires CursorsOk(mmap, cs)
    decreases |cs|
  {
    if cs == [] then 0
    else
      var p := PageAt(mmap, cs[0]);
      (if before == Some(p + PAGE_SIZE) then 0 else 1) + Breaks(mmap, Some(p), cs[1..])
  }

  lemma {:induction false} BlockHasNoBreaks(mmap: seq<MmapDescriptor>, before: Option<nat>, top: Cursor, n: nat)
    requires CursorOk(mmap, top) && n <= top.page + 1
    ensures CursorsOk(mmap, Downwards(top, n))
    ensures Breaks(mmap, before, Downwards(top, n))
            == if n == 0 || before == Some(PageAt(mmap, top) + PAGE_SIZE) then 0 else 1
    decreases n
  {
    if n > 1 {
      var below := Cursor(top.region, top.page - 1);
      BlockHasNoBreaks(mmap, Some(PageAt(mmap, top)), below, n - 1);
      assert Downwards(top, n)[1..] == Downwards(below, n - 1);
    } else if n == 1 {
      assert Downwards(top, 1)[1..] == [];
    }
  }

  lemma {:induction false} BreaksBounded(mmap: seq<MmapDescriptor>, before: Option<nat>, cs: seq<Cursor>)
    requires CursorsOk(mmap, cs)
    ensures Breaks(mmap, before, cs) <= |cs|
    decreases |cs|
  {
    if cs != [] {
      BreaksBounded(mmap, Some(PageAt(mmap, cs[0])), cs[1..]);
    }
  }
}
