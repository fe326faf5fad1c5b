/** When the pages and the arena suffice for a machine's memory. */
module GuestSupply {
  import opened Paging
  import opened PhysicalMemory
  import opened RadixTree
  import opened PageList
  import opened Outcomes
  import opened VirtualMachine
  import opened Chainload
  import opened PageScan
  import opened PageSupply
  import opened AddressMap
  import opened HypervisorState
  import opened VmxPages
  import opened VmManager

  /** What a page may cost that does not lie directly below the page before it: a run in its list and, if it is for
      the reserved pool, later a run among the table pages. */
  function Price(t: PageType): nat {
    if t == Ept then 2 * SIZEOF_PAGE_RUN else SIZEOF_PAGE_RUN
  }

  /** The pages of a supply, the first n of which are to be recorded one after the other, behind a page recorded
      before; and bytes of the arena that shall be left then. */
  datatype Plan = Plan(before: Option<nat>, n: nat, cs: seq<Cursor>, more: nat) {
    /** What is left to do after the first page. */
    function After(p: nat): Plan
      requires n > 0 && cs != []
    {
      Plan(Some(p), n - 1, cs[1..], more)
    }
  }

  /** The slack covers the plan. */
  ghost predicate Covered(mmap: seq<MmapDescriptor>, slack: int, t: PageType, plan: Plan) {
    && plan.n <= |plan.cs| && CursorsOk(mmap, plan.cs[..plan.n])
    && slack >= Price(t) * Breaks(mmap, plan.before, plan.cs[..plan.n]) + plan.more
  }

  /** The page before is recorded. */
  ghost predicate Follows(owner: map<nat, Owner>, id: nat, t: PageType, before: Option<nat>) {
    before.Some? ==> Owns(owner, Label(t, t == Ept, id), before.value)
  }

  ghost predicate FundedBy(boot: ChainloadPage, w: Means, used: set<nat>, t: PageType, plan: Plan) {
    SupplyFrom(boot, w.last, used, plan.cs) && !w.risk && Covered(boot.mmap, w.slack, t, plan)
  }

  /** The page allocator is about to hand out the pages, and the arena has room to record them for the reserved pool
      or as guest memory. */
  ghost predicate Funded(hv: Hypervisor, vm: Vm, t: PageType, plan: Plan)
    reads hv`lastReturned, hv`vmManagerArena, hv.arenas`headers, hv`owner, hv`vms, hv.vms`trackedPages, vm`trackedPages
  {
    FundedBy(hv.boot, MeansOf(hv, vm), hv.owner.Keys, t, plan) && Follows(hv.owner, vm.id, t, plan.before)
  }

  ghost predicate RunBelow(before: Option<nat>, p: nat) {
    before == Some(p + PAGE_SIZE)
  }

  lemma RestIsOk(mmap: seq<MmapDescriptor>, cs: seq<Cursor>)
    requires CursorsOk(mmap, cs) && cs != []
    ensures CursorOk(mmap, cs[0]) && CursorsOk(mmap, cs[1..])
  {
  }

  lemma FirstBreak(mmap: seq<MmapDescriptor>, before: Option<nat>, n: nat, cs: seq<Cursor>)
    requires 0 < n <= |cs| && CursorsOk(mmap, cs[..n])
    ensures CursorOk(mmap, cs[0]) && CursorsOk(mmap, cs[1..][..n - 1])
    ensures var p := PageAt(mmap, cs[0]);
            Breaks(mmap, before, cs[..n])
            == (if RunBelow(before, p) then 0 else 1) + Breaks(mmap, Some(p), cs[1..][..n - 1])
  {
    assert cs[..n][0] == cs[0] && cs[..n][1..] == cs[1..][..n - 1];
    RestIsOk(mmap, cs[..n]);
  }

  /** A page below a page of its class costs nothing, any other page at most its price. */
  lemma RecordedWithin(runs: seq<PageRun>, runs': seq<PageRun>, p: nat, t: PageType, before: Option<nat>,
                       room: int, room': int)
    requires Tracked(runs, runs', p, t, t == Ept) && Recorded(runs, runs', p, t, t == Ept)
    requires t == Ept ==> !PoolBegun(runs)
    requires RunBelow(before, p) ==> AdjoinsClass(runs, p, t, t == Ept)
    requires room' == room - if HasPlace(runs, p, t, t == Ept) then 0 else SIZEOF_PAGE_RUN
    ensures room' - SIZEOF_PAGE_RUN * Pot(runs')
            >= room - SIZEOF_PAGE_RUN * Pot(runs) - if RunBelow(before, p) then 0 else Price(t)
  {
    hide Pool, Tracked, AdjoinsClass, HasEmptyRun, PoolBegun, Recorded, Pot;
    if t == Ept {
      ReserveGrowsPot(runs, runs', p);
    } else {
      GuestKeepsPot(runs, runs', p);
    }
  }

  lemma RoomSuffices(runs: seq<PageRun>, p: nat, t: PageType, before: Option<nat>, room: int)
    requires RunBelow(before, p) ==> AdjoinsClass(runs, p, t, t == Ept)
    requires room - SIZEOF_PAGE_RUN * Pot(runs) >= if RunBelow(before, p) then 0 else Price(t)
    ensures HasPlace(runs, p, t, t == Ept) || room >= SIZEOF_PAGE_RUN
  {
    hide AdjoinsClass, HasEmptyRun;
  }

  /** The page below a page of the machine adjoins a run of its class. */
  lemma BelowAdjoins(runs: seq<PageRun>, id: nat, owner: map<nat, Owner>, p: nat, t: PageType, before: Option<nat>)
    requires ListsMatch(runs, id, owner) && p !in owner && p % PAGE_SIZE == 0
    requires before.Some? ==> Owns(owner, Label(t, t == Ept, id), before.value)
    ensures RunBelow(before, p) ==> AdjoinsClass(runs, p, t, t == Ept)
  {
    hide AdjoinsClass;
    HeldMeansOwned(runs, id, owner, p);
    if RunBelow(before, p) {
      NextPageAdjoins(runs, p, t, t == Ept);
    }
  }

  lemma NoTablesYet(runs: seq<PageRun>, id: nat, owner: map<nat, Owner>)
    requires ListsMatch(runs, id, owner) && forall p: nat :: !Owns(owner, LiveEpt(id), p)
    ensures !PoolBegun(runs)
  {
  }

  /** The state after the first page of the plan was recorded. */
  lemma FundedNext(hv: Hypervisor, vm: Vm, t: PageType, plan: Plan, runs: seq<PageRun>, room: int, p: nat)
    requires 0 < plan.n <= |plan.cs| && CursorsOk(hv.boot.mmap, plan.cs[..plan.n])
    requires plan.cs[0].region < |hv.boot.mmap| && p == PageAt(hv.boot.mmap, plan.cs[0]) && hv.Supplies(plan.cs[1..])
    requires Tracked(runs, vm.trackedPages, p, t, t == Ept) && Recorded(runs, vm.trackedPages, p, t, t == Ept)
    requires t == Ept ==> !PoolBegun(runs)
    requires RunBelow(plan.before, p) ==> AdjoinsClass(runs, p, t, t == Ept)
    requires hv.RoomLeft() == room - if HasPlace(runs, p, t, t == Ept) then 0 else SIZEOF_PAGE_RUN
    requires !hv.AllLookUsed() && !Owns(hv.owner, ReservedEpt(vm.id), 0)
    requires Owns(hv.owner, Label(t, t == Ept, vm.id), p)
    requires room - SIZEOF_PAGE_RUN * Pot(runs)
             >= Price(t) * Breaks(hv.boot.mmap, plan.before, plan.cs[..plan.n]) + plan.more
    ensures Funded(hv, vm, t, plan.After(p))
  {
    hide Pool, Tracked, AdjoinsClass, HasPlace, PoolBegun, Recorded, Pot, SupplyFrom, Hypervisor.RoomLeft,
      Hypervisor.AllLookUsed;
    FirstBreak(hv.boot.mmap, plan.before, plan.n, plan.cs);
    RecordedWithin(runs, vm.trackedPages, p, t, plan.before, room, hv.RoomLeft());
  }

  /** The first page of a funded plan can be recorded. */
  lemma FundedSuffices(mmap: seq<MmapDescriptor>, t: PageType, plan: Plan, runs: seq<PageRun>, room: int, p: nat)
    requires 0 < plan.n <= |plan.cs| && CursorsOk(mmap, plan.cs[..plan.n])
    requires plan.cs[0].region < |mmap| && p == PageAt(mmap, plan.cs[0])
    requires RunBelow(plan.before, p) ==> AdjoinsClass(runs, p, t, t == Ept)
    requires room - SIZEOF_PAGE_RUN * Pot(runs) >= Price(t) * Breaks(mmap, plan.before, plan.cs[..plan.n]) + plan.more
    ensures HasPlace(runs, p, t, t == Ept) || room >= SIZEOF_PAGE_RUN
  {
    hide AdjoinsClass, HasPlace, Pot, Breaks, CursorsOk, RunBelow;
    FirstBreak(mmap, plan.before, plan.n, plan.cs);
    RoomSuffices(runs, p, t, plan.before, room);
  }

  /** The first page of a funded supply was found and waits to be recorded. */
  ghost predicate AtHand(hv: Hypervisor, vm: Vm, t: PageType, plan: Plan)
    reads hv`lastReturned, hv`vmManagerArena, hv.arenas`headers, hv`owner, hv`vms, hv.vms`trackedPages, vm`trackedPages
  {
    && 0 < plan.n && hv.Found(plan.cs)
    && !MeansOf(hv, vm).risk && Covered(hv.boot.mmap, MeansOf(hv, vm).slack, t, plan)
    && Follows(hv.owner, vm.id, t, plan.before)
    && (t == Ept ==> PageAt(hv.boot.mmap, plan.cs[0]) != 0 && !PoolBegun(vm.trackedPages))
  }

  /** A zeroed page, the first one of the plan. */
  method TakeNext(hv: Hypervisor, vm: Vm, t: PageType, ghost plan: Plan) returns (r: Outcome<nat>)
    requires hv.Valid() && vm in hv.vms
    modifies hv`lastReturned, hv`memory
    ensures hv.Valid()
    ensures r.Ok? ==>
              && !hv.InUse(r.value) && IsFrame(r.value) && hv.memory == old(hv.memory)[r.value := ZERO_PAGE]
              && AllZero(At(hv.memory, r.value))
    ensures r.Panic? ==> NoPage(r.reason, hv.boot.mmap) && hv.Exhausted(r.reason)
    ensures plan.n > 0 && old(Funded(hv, vm, t, plan) && (t == Ept ==> !PoolBegun(vm.trackedPages))) ==>
              && plan.cs != [] && CursorOk(hv.boot.mmap, plan.cs[0]) && r == Ok(PageAt(hv.boot.mmap, plan.cs[0]))
              && ((t == Ept && r.value == 0) || AtHand(hv, vm, t, plan))
  {
    hide Hypervisor.Valid, Hypervisor.Exhausted, SupplyFrom, Hypervisor.RoomLeft, Hypervisor.AllLookUsed, Supply,
      PoolBegun, Pot, Covered, NoPage, Follows;
    PlanBegins(hv.boot.mmap, MeansOf(hv, vm).slack, t, plan);
    r := GetZeroedPage(hv);
  }

  lemma PlanBegins(mmap: seq<MmapDescriptor>, slack: int, t: PageType, plan: Plan)
    ensures Covered(mmap, slack, t, plan) && plan.n > 0 ==> plan.cs != [] && CursorOk(mmap, plan.cs[0])
  {
    if Covered(mmap, slack, t, plan) && plan.n > 0 {
      assert plan.cs[..plan.n][0] == plan.cs[0];
    }
  }

  /** vm_manager_track_page for the page at hand. */
  method TrackAtHand(hv: Hypervisor, vm: Vm, p: nat, t: PageType, ghost plan: Plan) returns (r: Outcome<()>)
    requires hv.Valid() && vm in hv.vms && !hv.InUse(p) && IsFrame(p)
    requires t == Ept ==> AllZero(At(hv.memory, p))
    modifies vm`trackedPages, hv`owner, hv.arenas`headers, hv.arenas`blocks
    ensures hv.Valid()
    ensures r.Ok? ==>
              && hv.owner == old(hv.owner)[p := Label(t, t == Ept, vm.id)]
              && GrowsBy(old(vm.trackedPages), vm.trackedPages, t, t == Ept)
    ensures r.Panic? ==> r.reason == ArenaFull && hv.Exhausted(ArenaFull)
    ensures old(AtHand(hv, vm, t, plan)) && p == PageAt(hv.boot.mmap, plan.cs[0]) ==>
              r.Ok? && Funded(hv, vm, t, plan.After(p))
  {
    hide Hypervisor.Valid, Pool, Tracked, AdjoinsClass, HasPlace, PoolBegun, Recorded, Pot, SupplyFrom,
      Hypervisor.RoomLeft, Hypervisor.AllLookUsed, Supply, Breaks, CursorsOk, Funded, ListsMatch, StructuresOk,
      GrowsBy, Hypervisor.Exhausted, RunBelow;
    ghost var runs, room, owner := vm.trackedPages, hv.RoomLeft(), hv.owner;
    VmStructures(hv, vm);
    ghost var atHand := AtHand(hv, vm, t, plan) && p == PageAt(hv.boot.mmap, plan.cs[0]);
    if atHand {
      BelowAdjoins(runs, vm.id, owner, p, t, plan.before);
      FundedSuffices(hv.boot.mmap, t, plan, runs, room, p);
    }
    r := TrackFreePage(hv, vm, p, t, t == Ept);
    if atHand {
      FundedNext(hv, vm, t, plan, runs, room, p);
    }
  }

  /** Building tables from the pool keeps a plan funded. */
  lemma FundedKept(boot: ChainloadPage, w: Means, w': Means, used: set<nat>, t: PageType, plan: Plan)
    requires FundedBy(boot, w, used, t, plan) && Spared(w, w')
    ensures w.slack >= 0 && FundedBy(boot, w', used, t, plan)
  {
    hide SupplyFrom;
  }

  lemma FundedParts(hv: Hypervisor, vm: Vm, t: PageType, plan: Plan)
    ensures Funded(hv, vm, t, plan)
            <==> FundedBy(hv.boot, MeansOf(hv, vm), hv.owner.Keys, t, plan) && Follows(hv.owner, vm.id, t, plan.before)
  {
  }
}
