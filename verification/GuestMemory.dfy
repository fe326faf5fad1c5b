/** Allocation of a machine's physical memory (vm_manager_allocate_guest_physical_memory in
    hv/src/vmm/vm_manager.c): the reserved pool is sized by four nested ceiling divisions and
    holds exactly the tables that mapping the pages creates. */
module GuestMemoryAllocation {
  import opened Bits
  import opened Paging
  import opened PageTableEntries
  import opened PhysicalMemory
  import opened RadixTree
  import opened PageList
  import opened Outcomes
  import opened VirtualMachine
  import opened Chainload
  import opened PageScan
  import opened HypervisorState
  import opened VmManager
  import opened EptMapping
  import opened GuestSupply
  import opened PageSupply

  // --- how many tables n pages need ---------------------------------------------------------

  function CeilDiv(a: nat, b: nat): nat
    requires b > 0
  {
    a / b + if a % b == 0 then 0 else 1
  }

  /** The pages below one table of a level: 512, 512^2, 512^3, 512^4. */
  function PagesPer(level: nat): (r: nat)
    requires level <= 3
    ensures r > 0
  {
    if level == 0 then 512 else if level == 1 then 0x4_0000 else if level == 2 then 0x800_0000 else 0x10_0000_0000
  }

  /** The nested divisions of the source. */
  function ReservedPages(n: nat): nat {
    var pt := CeilDiv(n, PAGE_TABLE_ENTRIES);
    var pd := CeilDiv(pt, PAGE_TABLE_ENTRIES);
    var pdpt := CeilDiv(pd, PAGE_TABLE_ENTRIES);
    var pml4 := CeilDiv(pdpt, PAGE_TABLE_ENTRIES);
    pt + pd + pdpt + pml4
  }

  /** The number of tables that mapping guest page i creates after pages 0 to i - 1. */
  function NewTables(i: nat): nat {
    (if i % PagesPer(0) == 0 then 1 else 0) + (if i % PagesPer(1) == 0 then 1 else 0)
    + (if i % PagesPer(2) == 0 then 1 else 0) + (if i % PagesPer(3) == 0 then 1 else 0)
  }

  lemma CeilOfSuccessor(i: nat, b: nat)
    requires b > 0
    ensures CeilDiv(i + 1, b) == i / b + 1
  {
    var q, r := i / b, i % b;
    assert i == q * b + r;
    if r + 1 == b {
      assert i + 1 == (q + 1) * b + 0;
      RemainderIs(i + 1, b, q + 1, 0);
    } else {
      assert i + 1 == q * b + (r + 1);
      RemainderIs(i + 1, b, q, r + 1);
    }
  }

  lemma Distribute(q: nat, s: nat, b: nat)
    ensures (q * 512 + s) * b == q * (b * 512) + s * b
  {
    assert (q * 512 + s) * b == q * 512 * b + s * b;
  }

  lemma RestBelow(s: nat, r: nat, b: nat)
    requires s < 512 && r < b
    ensures s * b + r < b * 512
  {
    MulAtLeast(512 - s, b);
    assert (512 - s) * b == b * 512 - s * b;
  }

  lemma DivDiv(a: nat, b: nat)
    requires b > 0
    ensures a / b / 512 == a / (b * 512)
  {
    var k, r := a / b, a % b;
    assert a == k * b + r;
    Distribute(k / 512, k % 512, b);
    RestBelow(k % 512, r, b);
    RemainderIs(a, b * 512, k / 512, k % 512 * b + r);
  }

  /** Rounding up twice is rounding up once. */
  lemma CeilDivNests(n: nat, b: nat)
    requires b > 0
    ensures CeilDiv(CeilDiv(n, b), 512) == CeilDiv(n, b * 512)
  {
    if n > 0 {
      CeilOfSuccessor(n - 1, b);
      CeilOfSuccessor((n - 1) / b, 512);
      CeilOfSuccessor(n - 1, b * 512);
      DivDiv(n - 1, b);
    } else {
      assert 0 / b == 0 && 0 % b == 0 && 0 / (b * 512) == 0 && 0 % (b * 512) == 0;
    }
  }

  lemma NestedDivisions(n: nat)
    ensures ReservedPages(n)
            == CeilDiv(n, PagesPer(0)) + CeilDiv(n, PagesPer(1)) + CeilDiv(n, PagesPer(2)) + CeilDiv(n, PagesPer(3))
  {
    hide CeilDiv;
    CeilDivNests(n, 512);
    CeilDivNests(n, 0x4_0000);
    CeilDivNests(n, 0x800_0000);
  }

  lemma CeilStep(i: nat, b: nat)
    requires b > 0
    ensures CeilDiv(i + 1, b) == CeilDiv(i, b) + if i % b == 0 then 1 else 0
  {
    CeilOfSuccessor(i, b);
  }

  /** One page more needs exactly the tables that mapping it creates. */
  lemma ReserveGrows(i: nat)
    ensures ReservedPages(i + 1) == ReservedPages(i) + NewTables(i)
  {
    hide CeilDiv, ReservedPages;
    NestedDivisions(i);
    NestedDivisions(i + 1);
    CeilStep(i, PagesPer(0));
    CeilStep(i, PagesPer(1));
    CeilStep(i, PagesPer(2));
    CeilStep(i, PagesPer(3));
  }

  // --- the state while pages are mapped in order ----------------------------------------------

  const MAX_PAGES: nat := 0x10_0000_0000

  /** The node belongs to the path of one of the pages 0 to i - 1. */
  predicate NodeBelow(i: nat, n: Node) {
    n.level <= 3 && n.prefix * PagesPer(n.level) < i
  }

  lemma PathOfPage(i: nat, level: nat)
    requires level <= 3
    ensures NodeOf(i * PAGE_SIZE, level) == Node(level, i / PagesPer(level))
  {
  }

  lemma PathNodeBelow(i: nat, level: nat)
    requires level <= 3
    ensures NodeBelow(i + 1, NodeOf(i * PAGE_SIZE, level))
    ensures NodeBelow(i, NodeOf(i * PAGE_SIZE, level)) <==> i % PagesPer(level) != 0
  {
    PathOfPage(i, level);
  }

  /** Mapping page i after the pages below creates exactly NewTables(i) tables. */
  lemma MissingTables(tables: map<Node, nat>, i: nat)
    requires forall n :: n in tables <==> NodeBelow(i, n)
    ensures Missing(tables, i * PAGE_SIZE, 0) == NewTables(i)
  {
    hide NodeBelow;
    PathNodeBelow(i, 0);
    PathNodeBelow(i, 1);
    PathNodeBelow(i, 2);
    PathNodeBelow(i, 3);
    var a := i * PAGE_SIZE;
    assert Missing(tables, a, 3) == IsMissing(tables, NodeOf(a, 3));
    assert Missing(tables, a, 2) == IsMissing(tables, NodeOf(a, 2)) + Missing(tables, a, 3);
    assert Missing(tables, a, 1) == IsMissing(tables, NodeOf(a, 1)) + Missing(tables, a, 2);
  }

  lemma PathDownIs(a: nat)
    ensures PathDown(a, 0) == {NodeOf(a, 0), NodeOf(a, 1), NodeOf(a, 2), NodeOf(a, 3)}
  {
    assert PathDown(a, 3) == {NodeOf(a, 3)};
    assert PathDown(a, 2) == {NodeOf(a, 2)} + PathDown(a, 3);
    assert PathDown(a, 1) == {NodeOf(a, 1)} + PathDown(a, 2);
  }

  lemma NewNodeOnPath(i: nat, n: Node)
    requires NodeBelow(i + 1, n) && !NodeBelow(i, n)
    ensures n == NodeOf(i * PAGE_SIZE, n.level)
  {
    PathOfPage(i, n.level);
    RemainderIs(i, PagesPer(n.level), n.prefix, 0);
  }

  /** The tables after page i are those of the pages below i and of its path. */
  lemma NodesGrow(tables: map<Node, nat>, tables': map<Node, nat>, i: nat)
    requires forall n :: n in tables <==> NodeBelow(i, n)
    requires tables'.Keys == tables.Keys + PathDown(i * PAGE_SIZE, 0)
    ensures forall n :: n in tables' <==> NodeBelow(i + 1, n)
  {
    hide PathDown, NodeOf;
    PathDownIs(i * PAGE_SIZE);
    forall n
      ensures n in tables' <==> NodeBelow(i + 1, n)
    {
      PathNodeBelow(i, 0);
      PathNodeBelow(i, 1);
      PathNodeBelow(i, 2);
      PathNodeBelow(i, 3);
      if NodeBelow(i + 1, n) && !NodeBelow(i, n) {
        NewNodeOnPath(i, n);
      }
    }
  }

  /** Guest pages 0 to |hosts| - 1 translate injectively to host pages of the machine; no other
      guest-physical address below 2^48 translates. */
  ghost predicate GuestReady(id: nat, hosts: seq<nat>, s: Snapshot) {
    HostsOk(hosts, id, s.owner) && MapsHosts(hosts, s)
  }

  ghost predicate MapsHosts(hosts: seq<nat>, s: Snapshot) {
    forall a: nat :: a < SPACE ==> Mapping(s, a) == HostHit(hosts, a)
  }

  /** The machine owns no other guest memory. */
  ghost predicate AllGuestPages(id: nat, hosts: seq<nat>, s: Snapshot) {
    forall p: nat :: Owns(s.owner, GuestMemory(id), p) ==> p in hosts
  }

  /** A machine whose EPT maps exactly some pages is ready. */
  lemma ExactlyIsReady(hv: Hypervisor, vm: Vm)
    requires hv.Valid() && vm in hv.vms && vm.guest.Exactly?
    ensures GuestReady(vm.id, vm.guest.hosts, Snap(hv, vm)) && HostsOk(vm.guest.hosts, vm.id, hv.owner)
  {
    hide Tree, ListsMatch, HostHit, Lookup;
    VmParts(vm, hv.memory, hv.owner);
  }

  ghost predicate Zeroed(hosts: seq<nat>, m: Memory) {
    forall k :: 0 <= k < |hosts| ==> AllZero(At(m, hosts[k]))
  }

  /** The machine's EPT pages, live or reserved. */
  ghost predicate EptPagesAre(id: nat, reserve: set<nat>, s: Snapshot) {
    forall p: nat :: Owns(s.owner, LiveEpt(id), p) || Owns(s.owner, ReservedEpt(id), p) <==> p in reserve
  }

  /** Pages 0 to |hosts| - 1 of n are mapped: the tables are those their paths need, and the pool
      holds exactly those the other pages will need. */
  ghost predicate Progress(id: nat, n: nat, hosts: seq<nat>, reserve: set<nat>, s: Snapshot) {
    && |hosts| <= n && |hosts| <= MAX_PAGES
    && GuestReady(id, hosts, s) && Zeroed(hosts, s.memory) && AllGuestPages(id, hosts, s)
    && (forall nd :: nd in s.tables <==> NodeBelow(|hosts|, nd))
    && ReservedPages(n) == s.pool + ReservedPages(|hosts|)
    && EptPagesAre(id, reserve, s) && NoLeak(id, s)
  }

  /** The machine got the zeroed page p. */
  ghost predicate GotPage(id: nat, p: nat, s: Snapshot, s': Snapshot) {
    && p !in s.owner
    && s' == s.(owner := s.owner[p := GuestMemory(id)], memory := s.memory[p := ZERO_PAGE])
  }

  lemma GotPageKeepsMappings(id: nat, p: nat, s: Snapshot, s': Snapshot)
    requires EptOk(s.initialized, s.eptp, s.tables, id, s.memory, s.owner) && GotPage(id, p, s, s')
    ensures SameMappings(s, s')
  {
    if s.initialized {
      TreeFrame(s.memory, s'.memory, s.tables);
    }
  }

  lemma GotPageKeepsOthers(id: nat, p: nat, s: Snapshot, s': Snapshot)
    requires GotPage(id, p, s, s')
    ensures KeepsOthers(id, s, s')
  {
  }

  lemma StillGuestPage(id: nat, p: nat, s: Snapshot, s1: Snapshot, s2: Snapshot)
    requires GotPage(id, p, s, s1) && KeepsOthers(id, s1, s2)
    ensures Owns(s2.owner, GuestMemory(id), p)
  {
    assert p in s1.owner && s1.owner[p] == GuestMemory(id);
  }

  lemma HostsStep(id: nat, n: nat, hosts: seq<nat>, p: nat, cost: nat, s: Snapshot, s1: Snapshot, s2: Snapshot)
    requires GuestReady(id, hosts, s) && AllGuestPages(id, hosts, s) && |hosts| < MAX_PAGES
    requires GotPage(id, p, s, s1) && SameMappings(s, s1) && IsPage(p)
    requires MapsOneMore(s1, s2, |hosts| * PAGE_SIZE, p) && EptGrew(id, cost, s1, s2)
    ensures GuestReady(id, hosts + [p], s2) && AllGuestPages(id, hosts + [p], s2)
  {
    hide Mapping, EptEntry;
    assert !Owns(s.owner, GuestMemory(id), p);
    forall q: nat
      ensures Owns(s2.owner, GuestMemory(id), q) <==> q in hosts + [p]
    {
      assert Owns(s1.owner, GuestMemory(id), q) <==> Owns(s.owner, GuestMemory(id), q) || q == p;
    }
    MapsHostsStep(hosts, p, s, s1, s2);
  }

  lemma MapsHostsStep(hosts: seq<nat>, p: nat, s: Snapshot, s1: Snapshot, s2: Snapshot)
    requires MapsHosts(hosts, s) && SameMappings(s, s1) && MapsOneMore(s1, s2, |hosts| * PAGE_SIZE, p)
    ensures MapsHosts(hosts + [p], s2)
  {
    hide Mapping, EptEntry;
  }

  lemma ZeroedStep(id: nat, hosts: seq<nat>, p: nat, cost: nat, s: Snapshot, s1: Snapshot, s2: Snapshot)
    requires GuestReady(id, hosts, s) && Zeroed(hosts, s.memory)
    requires GotPage(id, p, s, s1) && EptGrew(id, cost, s1, s2)
    ensures Zeroed(hosts + [p], s2.memory)
  {
    hide Mapping, EptEntry;
    var hosts' := hosts + [p];
    forall k | 0 <= k < |hosts'|
      ensures AllZero(At(s2.memory, hosts'[k]))
    {
      assert k < |hosts| ==> Owns(s.owner, GuestMemory(id), hosts[k]);
      assert Owns(s1.owner, GuestMemory(id), hosts'[k]);
      assert Owns(s2.owner, GuestMemory(id), hosts'[k]);
      assert SameAt(s1.memory, s2.memory, hosts'[k]);
    }
  }

  lemma EptPagesStep(id: nat, reserve: set<nat>, p: nat, cost: nat, s: Snapshot, s1: Snapshot, s2: Snapshot)
    requires EptPagesAre(id, reserve, s) && GotPage(id, p, s, s1) && EptGrew(id, cost, s1, s2) && cost <= s1.pool
    ensures EptPagesAre(id, reserve, s2)
  {
    forall q: nat
      ensures Owns(s2.owner, LiveEpt(id), q) || Owns(s2.owner, ReservedEpt(id), q) <==> q in reserve
    {
      assert Owns(s1.owner, LiveEpt(id), q) || Owns(s1.owner, ReservedEpt(id), q)
             <==> Owns(s.owner, LiveEpt(id), q) || Owns(s.owner, ReservedEpt(id), q);
    }
  }

  lemma ReserveMonotone(i: nat, n: nat)
    requires i <= n
    ensures ReservedPages(i) <= ReservedPages(n)
    decreases n - i
  {
    if i < n {
      ReserveMonotone(i, n - 1);
      ReserveGrows(n - 1);
    }
  }

  /** Getting and mapping one page more makes progress, and the pool provides its tables. */
  lemma ProgressStep(id: nat, n: nat, hosts: seq<nat>, reserve: set<nat>, p: nat, s: Snapshot, s1: Snapshot,
                     s2: Snapshot)
    requires Progress(id, n, hosts, reserve, s) && |hosts| < n && |hosts| < MAX_PAGES
    requires GotPage(id, p, s, s1) && SameMappings(s, s1) && IsPage(p)
    requires MapsOneMore(s1, s2, |hosts| * PAGE_SIZE, p)
    requires s2.tables.Keys == s1.tables.Keys + PathDown(|hosts| * PAGE_SIZE, 0)
    requires EptGrew(id, Missing(s1.tables, |hosts| * PAGE_SIZE, 0), s1, s2)
    requires NoLeak(id, s1) ==> NoLeak(id, s2)
    ensures Progress(id, n, hosts + [p], reserve, s2)
  {
    hide Mapping, MapsHosts, GuestReady, AllGuestPages, Zeroed, EptPagesAre, NodeBelow, ReservedPages, NewTables,
      Missing, PathDown;
    var i := |hosts|;
    var cost := Missing(s1.tables, i * PAGE_SIZE, 0);
    MissingTables(s1.tables, i);
    ReserveGrows(i);
    ReserveMonotone(i + 1, n);
    HostsStep(id, n, hosts, p, cost, s, s1, s2);
    ZeroedStep(id, hosts, p, cost, s, s1, s2);
    EptPagesStep(id, reserve, p, cost, s, s1, s2);
    NodesGrow(s1.tables, s2.tables, i);
    assert |hosts + [p]| == i + 1;
    assert NoLeak(id, s1);
  }

  /** Page |hosts| is not mapped yet, unless its address wraps around 2^48. */
  lemma NextIsFree(id: nat, n: nat, hosts: seq<nat>, reserve: set<nat>, s: Snapshot, s1: Snapshot)
    requires Progress(id, n, hosts, reserve, s) && SameMappings(s, s1)
    ensures Mapping(s1, |hosts| * PAGE_SIZE % SPACE).Some? <==> |hosts| == MAX_PAGES
  {
    hide Lookup, ReservedPages, AllGuestPages, Zeroed, EptPagesAre, NoLeak, NodeBelow, HostsOk, EptEntry;
    var a := |hosts| * PAGE_SIZE % SPACE;
    if |hosts| == MAX_PAGES {
      assert a == 0;
    } else {
      assert a == |hosts| * PAGE_SIZE && a / PAGE_SIZE == |hosts|;
    }
    assert Mapping(s1, a) == Mapping(s, a);
  }

  // --- the loops ----------------------------------------------------------------------------

  /** The pool of a machine without EPT holds the reserve, and the machine owns nothing else. */
  ghost predicate ReserveOnly(id: nat, reserve: set<nat>, s: Snapshot) {
    && !s.initialized && s.tables == map[]
    && s.pool == |reserve|
    && (forall p: nat :: Owns(s.owner, ReservedEpt(id), p) <==> p in reserve)
    && (forall p: nat :: !Owns(s.owner, LiveEpt(id), p) && !Owns(s.owner, GuestMemory(id), p))
  }

  lemma ReserveStep(id: nat, reserve: set<nat>, p: nat, s: Snapshot, s': Snapshot)
    requires ReserveOnly(id, reserve, s) && p !in s.owner
    requires !s'.initialized && s'.tables == s.tables && s'.owner == s.owner[p := ReservedEpt(id)]
             && s'.pool == s.pool + 1
    ensures ReserveOnly(id, reserve + {p}, s') && p !in reserve
  {
    assert !Owns(s.owner, ReservedEpt(id), p);
    forall q: nat
      ensures Owns(s'.owner, ReservedEpt(id), q) <==> q in reserve + {p}
      ensures !Owns(s'.owner, LiveEpt(id), q) && !Owns(s'.owner, GuestMemory(id), q)
    {
      assert Owns(s'.owner, ReservedEpt(id), q) <==> Owns(s.owner, ReservedEpt(id), q) || q == p;
      assert !Owns(s.owner, LiveEpt(id), q) && !Owns(s.owner, GuestMemory(id), q);
    }
  }

  lemma ReserveStartsProgress(id: nat, n: nat, reserve: set<nat>, s: Snapshot)
    requires ReserveOnly(id, reserve, s) && s.pool == ReservedPages(n)
    ensures Progress(id, n, [], reserve, s)
  {
    assert ReservedPages(0) == 0;
  }

  /** A machine that has tracked nothing owns no pages. */
  lemma NothingOwned(hv: Hypervisor, vm: Vm)
    requires hv.Valid() && vm in hv.vms && vm.trackedPages == [] && !vm.eptInitialized
    ensures ReserveOnly(vm.id, {}, Snap(hv, vm))
  {
    hide Tree;
    VmParts(vm, hv.memory, hv.owner);
    forall p: nat
      ensures !Owns(hv.owner, LiveEpt(vm.id), p) && !Owns(hv.owner, GuestMemory(vm.id), p)
              && !Owns(hv.owner, ReservedEpt(vm.id), p)
    {
      HeldMeansOwned(vm.trackedPages, vm.id, hv.owner, p);
    }
  }

  /** One page for the reserved pool. */
  method ReservePage(hv: Hypervisor, vm: Vm, ghost plan: Plan) returns (r: Outcome<nat>)
    requires hv.Valid() && vm in hv.vms
    modifies vm`trackedPages, hv`owner, hv`memory, hv`lastReturned, hv.arenas`headers, hv.arenas`blocks
    ensures hv.Valid()
    ensures r.Ok? ==>
              && r.value !in old(hv.owner)
              && hv.owner == old(hv.owner)[r.value := ReservedEpt(vm.id)]
              && PoolSize(vm) == old(PoolSize(vm)) + 1
              && hv.memory == old(hv.memory)[r.value := ZERO_PAGE]
    ensures r.Panic? ==> NoPage(r.reason, hv.boot.mmap) || r.reason == ArenaFull
    ensures r.Panic? ==> hv.Exhausted(r.reason)
    ensures plan.n > 0 && old(Funded(hv, vm, Ept, plan) && !PoolBegun(vm.trackedPages)) ==>
              && plan.cs != [] && CursorOk(hv.boot.mmap, plan.cs[0])
              && (PageAt(hv.boot.mmap, plan.cs[0]) != 0 ==>
                    r == Ok(PageAt(hv.boot.mmap, plan.cs[0])) && Funded(hv, vm, Ept, plan.After(r.value)))
  {
    hide Hypervisor.Valid, Hypervisor.Exhausted, Funded, AtHand, PoolBegun, NoPage;
    var page :- TakeNext(hv, vm, Ept, plan);
    var tracked := TrackAtHand(hv, vm, page, Ept, plan);
    if tracked.Panic? {
      return tracked.PropagateFailure();
    }
    return Ok(page);
  }

  lemma PoolAsBefore(runs: seq<PageRun>, runs': seq<PageRun>)
    requires GrowsBy(runs, runs', GuestPhysical, false)
    ensures Size(runs', Ept, true) == Size(runs, Ept, true)
  {
  }

  /** One zeroed page for the guest. */
  method GetGuestPage(hv: Hypervisor, vm: Vm, ghost plan: Plan) returns (r: Outcome<nat>)
    requires hv.Valid() && vm in hv.vms
    modifies vm`trackedPages, hv`owner, hv`memory, hv`lastReturned, hv.arenas`headers, hv.arenas`blocks
    ensures hv.Valid()
    ensures r.Ok? ==>
              && IsPage(r.value)
              && GotPage(vm.id, r.value, old(Snap(hv, vm)), Snap(hv, vm))
              && SameMappings(old(Snap(hv, vm)), Snap(hv, vm))
    ensures r.Panic? ==> NoPage(r.reason, hv.boot.mmap) || r.reason == ArenaFull
    ensures r.Panic? ==> hv.Exhausted(r.reason)
    ensures plan.n > 0 && old(Funded(hv, vm, GuestPhysical, plan)) ==>
              && plan.cs != [] && CursorOk(hv.boot.mmap, plan.cs[0]) && r == Ok(PageAt(hv.boot.mmap, plan.cs[0]))
              && Funded(hv, vm, GuestPhysical, plan.After(r.value))
  {
    hide Hypervisor.Valid, EptOk, ReservedIsZero, Hypervisor.Exhausted, Funded, AtHand, NoPage, SameMappings, GrowsBy,
      Size;
    PartsOf(hv, vm);
    ghost var runs := vm.trackedPages;
    var page :- TakeNext(hv, vm, GuestPhysical, plan);
    var tracked := TrackAtHand(hv, vm, page, GuestPhysical, plan);
    if tracked.Panic? {
      return tracked.PropagateFailure();
    }
    PoolAsBefore(runs, vm.trackedPages);
    GotPageKeepsMappings(vm.id, page, old(Snap(hv, vm)), Snap(hv, vm));
    return Ok(page);
  }

  /** One turn of the mapping loop of a machine that started empty. */
  method MapNextPage(hv: Hypervisor, vm: Vm, i: nat, ghost n: nat, ghost hosts: seq<nat>, ghost reserve: set<nat>,
                     ghost clean: bool, ghost plan: Plan)
    returns (r: Outcome<nat>)
    requires hv.Valid() && vm in hv.vms
    requires clean ==> i == |hosts| < n && Progress(vm.id, n, hosts, reserve, Snap(hv, vm))
    modifies vm`trackedPages, vm`tables, vm`eptp, vm`eptInitialized, vm`guest
    modifies hv`owner, hv`memory, hv`lastReturned, hv.arenas`headers, hv.arenas`blocks
    ensures r.Ok? ==> hv.Valid() && IsPage(r.value) && KeepsOthers(vm.id, old(Snap(hv, vm)), Snap(hv, vm))
    ensures r.Ok? && !old(vm.guest).Anything? ==> !vm.guest.Anything?
    ensures r.Ok? && old(vm.guest) == Exactly(hosts) && i == |hosts| ==> vm.guest == Exactly(hosts + [r.value])
    ensures clean && r.Ok? ==> Progress(vm.id, n, hosts + [r.value], reserve, Snap(hv, vm))
    ensures r.Panic? ==>
              || NoPage(r.reason, hv.boot.mmap) || r.reason == ArenaFull
              || (r.reason == AlreadyMapped && (clean ==> i == MAX_PAGES))
    ensures r.Panic? ==> hv.Valid() && Truthful(hv, r.reason)
    ensures clean && i < MAX_PAGES && plan.n > 0 && old(Funded(hv, vm, GuestPhysical, plan)) ==>
              && plan.cs != [] && CursorOk(hv.boot.mmap, plan.cs[0]) && r == Ok(PageAt(hv.boot.mmap, plan.cs[0]))
              && Funded(hv, vm, GuestPhysical, plan.After(r.value))
  {
    hide Hypervisor.Valid, GotPage, SameMappings, Progress, KeepsOthers, Mapping, Funded, Hypervisor.Exhausted,
      GuestReady, HostsOk;
    ghost var s := Snap(hv, vm);
    if vm.guest.Exactly? {
      ExactlyIsReady(hv, vm);
    }
    if clean {
      FewerThanMax(vm.id, n, hosts, reserve, s);
    }
    var page :- GetGuestPage(hv, vm, plan);
    ghost var funded := clean && i < MAX_PAGES && plan.n > 0 && old(Funded(hv, vm, GuestPhysical, plan));
    r := MapGuestPage(hv, vm, i, page, s, n, hosts, reserve, clean, funded, if funded then plan.After(page) else plan);
  }

  /** Its second half: the page is mapped. */
  method MapGuestPage(hv: Hypervisor, vm: Vm, i: nat, page: nat, ghost s: Snapshot, ghost n: nat, ghost hosts: seq<nat>,
                      ghost reserve: set<nat>, ghost clean: bool, ghost funded: bool, ghost rest: Plan)
    returns (r: Outcome<nat>)
    requires hv.Valid() && vm in hv.vms && IsPage(page)
    requires GotPage(vm.id, page, s, Snap(hv, vm)) && SameMappings(s, Snap(hv, vm))
    requires vm.guest.Exactly? ==> GuestReady(vm.id, vm.guest.hosts, s)
    requires clean ==> i == |hosts| < n && i <= MAX_PAGES && Progress(vm.id, n, hosts, reserve, s)
    requires funded ==>
               clean && i < MAX_PAGES && Funded(hv, vm, GuestPhysical, rest) && rest.before == Some(page)
    modifies vm`trackedPages, vm`tables, vm`eptp, vm`eptInitialized, vm`guest
    modifies hv`owner, hv`memory, hv`lastReturned, hv.arenas`headers, hv.arenas`blocks
    ensures hv.Valid() && (r.Ok? ==> r.value == page && KeepsOthers(vm.id, s, Snap(hv, vm)))
    ensures r.Ok? && !old(vm.guest).Anything? ==> !vm.guest.Anything?
    ensures r.Ok? && old(vm.guest) == Exactly(hosts) && i == |hosts| ==> vm.guest == Exactly(hosts + [page])
    ensures clean && r.Ok? ==> Progress(vm.id, n, hosts + [page], reserve, Snap(hv, vm))
    ensures r.Panic? ==>
              || NoPage(r.reason, hv.boot.mmap) || r.reason == ArenaFull
              || (r.reason == AlreadyMapped && (clean ==> i == MAX_PAGES))
    ensures r.Panic? ==> Truthful(hv, r.reason)
    ensures funded ==> r.Ok? && Funded(hv, vm, GuestPhysical, rest)
  {
    hide Hypervisor.Valid, GotPage, SameMappings, MapsOneMore, EptGrew, Progress, Missing, PathDown, NoLeak,
      KeepsOthers, Mapping, Size, HostsOk, NextGuest, Funded, FundedBy, MeansOf, Hypervisor.Exhausted, RightsAt,
      PathPaid, GuestReady;
    ghost var s1, guest, w := Snap(hv, vm), vm.guest, MeansOf(hv, vm);
    if funded {
      FundedParts(hv, vm, GuestPhysical, rest);
    }
    var mapped := MapPage(hv, vm, i * PAGE_SIZE % TWO_64, page);
    ghost var s2 := Snap(hv, vm);
    if clean {
      NextIsFree(vm.id, n, hosts, reserve, s, s1);
      if mapped.Ok? {
        ProgressStep(vm.id, n, hosts, reserve, page, s, s1, s2);
      }
    }
    if mapped.Ok? {
      MappedKeepsOthers(vm.id, page, Missing(s1.tables, i * PAGE_SIZE % TWO_64 % SPACE, 0), s, s1, s2);
    }
    if funded {
      StillFunded(hv, vm, n, hosts, reserve, page, s, s1, w, mapped.Ok?, rest);
    }
    if mapped.Panic? {
      return mapped.PropagateFailure();
    }
    NextGuestPage(vm.id, guest, i, page, s, s1, s2);
    return Ok(page);
  }

  lemma MappedKeepsOthers(id: nat, p: nat, cost: nat, s: Snapshot, s1: Snapshot, s2: Snapshot)
    requires GotPage(id, p, s, s1) && EptGrew(id, cost, s1, s2)
    ensures KeepsOthers(id, s, s2) && Owns(s2.owner, GuestMemory(id), p)
  {
    hide GotPage, EptGrew, KeepsOthers;
    GotPageKeepsOthers(id, p, s, s1);
    GrewKeepsOthers(id, cost, s1, s2);
    StillGuestPage(id, p, s, s1, s2);
    KeepsOthersChain(id, s, s1, s2);
  }

  /** The pool pays for the tables of a page, so that the plan for the other pages stays funded. */
  lemma StillFunded(hv: Hypervisor, vm: Vm, n: nat, hosts: seq<nat>, reserve: set<nat>, p: nat, s: Snapshot,
                    s1: Snapshot, w: Means, ok: bool, plan: Plan)
    requires Progress(vm.id, n, hosts, reserve, s) && |hosts| < n && GotPage(vm.id, p, s, s1)
    requires FundedBy(hv.boot, w, s1.owner.Keys, GuestPhysical, plan) && plan.before == Some(p)
    requires PathPaid(|hosts| * PAGE_SIZE, s1, w, ok, MeansOf(hv, vm))
    requires ok ==> EptGrew(vm.id, Missing(s1.tables, |hosts| * PAGE_SIZE, 0), s1, Snap(hv, vm))
    requires ok ==> Owns(hv.owner, GuestMemory(vm.id), p)
    ensures ok && Funded(hv, vm, GuestPhysical, plan)
  {
    hide Progress, GotPage, EptGrew, FundedBy, MeansOf, Missing;
    PoolSuffices(vm.id, n, hosts, reserve, p, s, s1);
    FundedKept(hv.boot, w, if ok then MeansOf(hv, vm) else w, s1.owner.Keys, GuestPhysical, plan);
    SameKeys(vm.id, Missing(s1.tables, |hosts| * PAGE_SIZE, 0), s1, Snap(hv, vm));
  }

  /** The pool has the tables for the next page. */
  lemma PoolSuffices(id: nat, n: nat, hosts: seq<nat>, reserve: set<nat>, p: nat, s: Snapshot, s1: Snapshot)
    requires Progress(id, n, hosts, reserve, s) && |hosts| < n && GotPage(id, p, s, s1)
    ensures Missing(s1.tables, |hosts| * PAGE_SIZE, 0) <= s1.pool
  {
    hide Missing, ReservedPages, GuestReady, Zeroed, AllGuestPages, EptPagesAre, NoLeak, NodeBelow;
    MissingTables(s1.tables, |hosts|);
    ReserveGrows(|hosts|);
    ReserveMonotone(|hosts| + 1, n);
  }

  lemma SameKeys(id: nat, cost: nat, s: Snapshot, s': Snapshot)
    requires EptGrew(id, cost, s, s') && cost <= s.pool
    ensures s'.owner.Keys == s.owner.Keys
  {
  }

  /** Mapping a new page at the end keeps what is known of the EPT. */
  lemma NextGuestPage(id: nat, guest: GuestMap, i: nat, p: nat, s: Snapshot, s1: Snapshot, s2: Snapshot)
    requires guest.Exactly? ==> GuestReady(id, guest.hosts, s)
    requires GotPage(id, p, s, s1) && SameMappings(s, s1) && IsPage(p) && Owns(s2.owner, GuestMemory(id), p)
    requires Mapping(s1, i * PAGE_SIZE % TWO_64 % SPACE) == None
    ensures var next := NextGuest(guest, id, s2.owner, i * PAGE_SIZE % TWO_64 % SPACE / PAGE_SIZE, p);
            && (!guest.Anything? ==> !next.Anything?)
            && (guest.Exactly? && i == |guest.hosts| ==> next == Exactly(guest.hosts + [p]))
  {
    hide Mapping, EptEntry;
    PageBase(p);
    var a := i * PAGE_SIZE % TWO_64 % SPACE;
    if guest.Exactly? && i == |guest.hosts| {
      assert Mapping(s1, a) == Mapping(s, a) == HostHit(guest.hosts, a);
      assert i % MAX_PAGES == a / PAGE_SIZE;
      assert forall k :: 0 <= k < i ==> Owns(s.owner, GuestMemory(id), guest.hosts[k]);
    }
  }

  lemma FewerThanMax(id: nat, n: nat, hosts: seq<nat>, reserve: set<nat>, s: Snapshot)
    requires Progress(id, n, hosts, reserve, s)
    ensures |hosts| <= MAX_PAGES
  {
  }

  /** The page allocator is about to hand out the pages of the supply, among them the pages for the tables and those
      for the guest, and the arena has room for their runs: two for each stretch of table pages, one for each stretch
      of guest pages. Page 0 must not become a reserved page: taking it would make every page look used. */
  ghost predicate Affords(hv: Hypervisor, vm: Vm, n: nat, supply: seq<Cursor>)
    reads hv`lastReturned, hv`vmManagerArena, hv.arenas`headers, hv`owner, hv`vms, hv.vms`trackedPages
    reads vm`trackedPages, vm`guestPhysicalPages, vm`eptInitialized
  {
    var tables, mmap := ReservedPages(n), hv.boot.mmap;
    && vm.guestPhysicalPages == 0 && vm.trackedPages == [] && !vm.eptInitialized && n <= MAX_PAGES
    && tables + n <= |supply| && CursorsOk(mmap, supply) && hv.Supplies(supply) && !hv.AllLookUsed()
    && (forall k :: 0 <= k < tables ==> PageAt(mmap, supply[k]) != 0)
    && 2 * SIZEOF_PAGE_RUN * Breaks(mmap, None, supply[..tables])
       + SIZEOF_PAGE_RUN * Breaks(mmap, None, supply[tables..tables + n]) <= hv.RoomLeft()
  }

  /** vm_manager_allocate_guest_physical_memory. For a machine that owns nothing yet and n pages:
      it succeeds only if n <= 512^4, and then it does whenever pages and arena suffice; afterwards guest pages 0 to
      n - 1 translate injectively to zeroed pages owned as guest memory, with all rights, and nothing else translates;
      every EPT page is one of the pages reserved up front, all of them are live tables, and the pool is empty. A panic
      for lack of memory is true of the state that it leaves. */
  method AllocateGuestPhysicalMemory(hv: Hypervisor, vm: Vm, n: u64, ghost supply: seq<Cursor>)
    returns (r: Outcome<()>, ghost hosts: seq<nat>, ghost reserve: set<nat>)
    requires hv.Valid() && vm in hv.vms
    modifies vm`guestPhysicalPages, vm`trackedPages, vm`tables, vm`eptp, vm`eptInitialized, vm`guest
    modifies hv`owner, hv`memory, hv`lastReturned, hv.arenas`headers, hv.arenas`blocks
    ensures r == Panic(GuestMemoryAlreadyAllocated) <==> old(vm.guestPhysicalPages) != 0
    ensures hv.Valid()
    ensures r.Ok? ==> vm.guestPhysicalPages == n && KeepsOthers(vm.id, old(Snap(hv, vm)), Snap(hv, vm))
    ensures r.Ok? ==> |hosts| == n && (!old(vm.guest).Anything? ==> !vm.guest.Anything?)
    ensures r.Ok? && old(vm.guest) == Exactly([]) ==> vm.guest == Exactly(hosts)
    ensures r.Ok? && old(vm.trackedPages == [] && !vm.eptInitialized) ==>
              && n <= MAX_PAGES
              && GuestReady(vm.id, hosts, Snap(hv, vm)) && AllGuestPages(vm.id, hosts, Snap(hv, vm))
              && Zeroed(hosts, hv.memory)
              && |reserve| == ReservedPages(n) && PoolSize(vm) == 0
              && (forall p: nat :: Owns(hv.owner, LiveEpt(vm.id), p) <==> p in reserve)
              && (forall p: nat :: p in vm.tables.Values <==> p in reserve)
              && (forall a: nat :: a < n * PAGE_SIZE ==> RightsAt(hv.memory, vm.eptp, 3, a) == ALL_RIGHTS)
    ensures r.Panic? && old(vm.trackedPages == [] && !vm.eptInitialized) ==>
              || NoPage(r.reason, hv.boot.mmap) || r.reason == ArenaFull || r.reason == GuestMemoryAlreadyAllocated
              || (r.reason == AlreadyMapped && n > MAX_PAGES)
    ensures r.Panic? ==> r.reason in {GuestMemoryAlreadyAllocated, AlreadyMapped} || hv.Exhausted(r.reason)
    ensures r.Panic? && old(vm.trackedPages == [] && !vm.eptInitialized && vm.guestPhysicalPages == 0) ==>
              n > MAX_PAGES || hv.Exhausted(r.reason)
    ensures old(Affords(hv, vm, n, supply)) ==>
              && r.Ok? && !hv.AllLookUsed() && hv.Supplies(supply[ReservedPages(n) + n..])
              && ArePages(hv.boot.mmap, hosts, supply[ReservedPages(n)..][..n])
  {
    hide Hypervisor.Valid, Progress, ReserveOnly, GuestReady, AllGuestPages, Zeroed, ReservedPages, KeepsOthers,
      Affords, Funded, Hypervisor.Exhausted, SupplyFrom, Hypervisor.AllLookUsed, RightsAt, MeansOf;
    hosts, reserve := [], {};
    ghost var s := Snap(hv, vm);
    ghost var affords, plan := Affords(hv, vm, n, supply), Plan(None, 0, supply, 0);
    if affords {
      plan := ReservePlan(hv, vm, n, supply);
    }
    if vm.guestPhysicalPages != 0 {
      AlreadyGiven(hv, vm, n, supply);
      r := Panic(GuestMemoryAlreadyAllocated);
      return;
    }
    vm.guestPhysicalPages := n;
    ghost var clean := vm.trackedPages == [] && !vm.eptInitialized;
    var reserved;
    reserved, reserve := FillReserve(hv, vm, ReservedPages(n), plan);
    if reserved.Panic? {
      r := reserved;
      return;
    }
    if clean {
      ReserveStartsProgress(vm.id, n, reserve, Snap(hv, vm));
    }
    if affords {
      plan := GuestPlan(hv, vm, n, supply, plan.more);
    }
    ghost var s1 := Snap(hv, vm);
    r, hosts := MapPages(hv, vm, n, reserve, clean, plan);
    if r.Panic? {
      return;
    }
    KeepsOthersChain(vm.id, s, s1, Snap(hv, vm));
    if clean {
      ProgressDone(hv, vm, n, hosts, reserve);
      ReadyIsGranted(hv, vm, hosts);
    }
  }

  /** The loop that gets and maps the guest's pages. */
  method MapPages(hv: Hypervisor, vm: Vm, n: nat, ghost reserve: set<nat>, ghost clean: bool, ghost plan: Plan)
    returns (r: Outcome<()>, ghost hosts: seq<nat>)
    requires hv.Valid() && vm in hv.vms
    requires clean ==> Progress(vm.id, n, [], reserve, Snap(hv, vm))
    modifies vm`trackedPages, vm`tables, vm`eptp, vm`eptInitialized, vm`guest
    modifies hv`owner, hv`memory, hv`lastReturned, hv.arenas`headers, hv.arenas`blocks
    ensures hv.Valid()
    ensures r.Ok? ==>
              && |hosts| == n && KeepsOthers(vm.id, old(Snap(hv, vm)), Snap(hv, vm))
              && (!old(vm.guest).Anything? ==> !vm.guest.Anything?)
              && (old(vm.guest) == Exactly([]) ==> vm.guest == Exactly(hosts))
              && (clean ==> Progress(vm.id, n, hosts, reserve, Snap(hv, vm)))
    ensures r.Panic? ==>
              || NoPage(r.reason, hv.boot.mmap) || r.reason == ArenaFull
              || (r.reason == AlreadyMapped && (clean ==> n > MAX_PAGES))
    ensures r.Panic? ==> Truthful(hv, r.reason)
    ensures clean && n <= MAX_PAGES && plan.n == n && old(Funded(hv, vm, GuestPhysical, plan)) ==>
              && r.Ok? && !hv.AllLookUsed()
              && n <= |plan.cs| && ArePages(hv.boot.mmap, hosts, plan.cs[..n]) && hv.Supplies(plan.cs[n..])
  {
    hide Hypervisor.Valid, Progress, KeepsOthers, Funded, Hypervisor.Exhausted, SupplyFrom, Hypervisor.AllLookUsed,
      RightsAt, MeansOf;
    hosts := [];
    ghost var rest, funded := plan, clean && n <= MAX_PAGES && plan.n == n && Funded(hv, vm, GuestPhysical, plan);
    KeepsOthersStart(vm.id, Snap(hv, vm));
    for i := 0 to n
      invariant hv.Valid() && vm in hv.vms && KeepsOthers(vm.id, old(Snap(hv, vm)), Snap(hv, vm))
      invariant |hosts| == i && (!old(vm.guest).Anything? ==> !vm.guest.Anything?)
      invariant old(vm.guest) == Exactly([]) ==> vm.guest == Exactly(hosts)
      invariant clean ==> Progress(vm.id, n, hosts, reserve, Snap(hv, vm))
      invariant funded ==>
                  && Funded(hv, vm, GuestPhysical, rest) && rest.n == n - i
                  && i <= |plan.cs| && rest.cs == plan.cs[i..] && ArePages(hv.boot.mmap, hosts, plan.cs[..i])
    {
      ghost var s := Snap(hv, vm);
      var page := MapNextPage(hv, vm, i, n, hosts, reserve, clean, rest);
      if page.Panic? {
        r := page.PropagateFailure();
        return;
      }
      KeepsOthersChain(vm.id, old(Snap(hv, vm)), s, Snap(hv, vm));
      hosts := hosts + [page.value];
      if funded {
        assert plan.cs[..i + 1] == plan.cs[..i] + [rest.cs[0]];
        rest := rest.After(page.value);
      }
    }
    if funded {
      PlanIsDone(hv, vm, rest);
    }
    r := Ok(());
  }

  /** These are the pages of the cursors. */
  ghost predicate ArePages(mmap: seq<MmapDescriptor>, pages: seq<nat>, cs: seq<Cursor>) {
    |pages| == |cs| && forall k :: 0 <= k < |cs| ==> CursorOk(mmap, cs[k]) && pages[k] == PageAt(mmap, cs[k])
  }

  /** On a map with descriptor 0 usable and all usable memory accessible it is enough that as many pages are free, page
      0 is not, and the arena has room for a run for each. */
  lemma FreePagesAfford(hv: Hypervisor, vm: Vm, n: nat, pages: set<nat>, start: Cursor) returns (supply: seq<Cursor>)
    requires vm.guestPhysicalPages == 0 && vm.trackedPages == [] && !vm.eptInitialized && n <= MAX_PAGES
    requires BootOk(hv.boot) && BottomUsable(hv.boot.mmap) && WithinPhysicalMap(hv.boot.mmap)
    requires hv.ScanStart(start) && !hv.AllLookUsed() && hv.InUse(0)
    requires FreePages(hv.boot, hv.owner.Keys, pages) && |pages| >= ReservedPages(n) + n
    requires SIZEOF_PAGE_RUN * (2 * ReservedPages(n) + n) <= hv.RoomLeft()
    ensures Affords(hv, vm, n, supply)
  {
    hide ReservedPages, FreePages, Supply, Hypervisor.AllLookUsed, Hypervisor.RoomLeft, InChainload, Breaks, UsableOk,
      WithinPhysicalMap;
    ScannedPagesAreFrames(hv.boot.mmap);
    supply := FreePagesSupply(hv.boot, hv.owner.Keys, start, pages);
    SupplyWasFree(hv.boot, hv.owner.Keys, start, supply);
    BreaksBounded(hv.boot.mmap, None, supply[..ReservedPages(n)]);
    BreaksBounded(hv.boot.mmap, None, supply[ReservedPages(n)..ReservedPages(n) + n]);
  }

  lemma AlreadyGiven(hv: Hypervisor, vm: Vm, n: nat, supply: seq<Cursor>)
    requires vm.guestPhysicalPages != 0
    ensures !Affords(hv, vm, n, supply)
  {
  }

  lemma NoPoolNoPot()
    ensures Pot([]) == 0
  {
    PoolOfNone();
  }

  /** The plan for the reserved pool sets aside what the guest pages need. */
  lemma ReservePlan(hv: Hypervisor, vm: Vm, n: nat, supply: seq<Cursor>) returns (plan: Plan)
    requires hv.Valid() && vm in hv.vms && Affords(hv, vm, n, supply)
    ensures Funded(hv, vm, Ept, plan) && plan.n == ReservedPages(n) && plan.cs == supply
    ensures n <= MAX_PAGES && ReservedPages(n) + n <= |supply| && CursorsOk(hv.boot.mmap, supply)
    ensures forall k :: 0 <= k < plan.n ==> PageAt(hv.boot.mmap, supply[k]) != 0
    ensures plan.more == SIZEOF_PAGE_RUN * Breaks(hv.boot.mmap, None, supply[ReservedPages(n)..ReservedPages(n) + n])
    ensures vm.trackedPages == [] && !vm.eptInitialized
  {
    hide Hypervisor.Valid, ReservedPages, SupplyFrom, Hypervisor.AllLookUsed, Hypervisor.RoomLeft, Breaks, Pot;
    NoPoolNoPot();
    NothingOwned(hv, vm);
    var tables := ReservedPages(n);
    plan := Plan(None, tables, supply, SIZEOF_PAGE_RUN * Breaks(hv.boot.mmap, None, supply[tables..tables + n]));
  }

  /** The plan for the guest pages. */
  lemma GuestPlan(hv: Hypervisor, vm: Vm, n: nat, supply: seq<Cursor>, more: nat) returns (plan: Plan)
    requires ReservedPages(n) + n <= |supply| && CursorsOk(hv.boot.mmap, supply)
    requires more == SIZEOF_PAGE_RUN * Breaks(hv.boot.mmap, None, supply[ReservedPages(n)..ReservedPages(n) + n])
    requires hv.Supplies(supply[ReservedPages(n)..]) && !MeansOf(hv, vm).risk && MeansOf(hv, vm).slack >= more
    ensures Funded(hv, vm, GuestPhysical, plan) && plan == Plan(None, n, supply[ReservedPages(n)..], 0)
  {
    hide ReservedPages, SupplyFrom, Breaks, Pot, Hypervisor.RoomLeft, Hypervisor.AllLookUsed;
    var tables := ReservedPages(n);
    assert supply[tables..][..n] == supply[tables..tables + n];
    plan := Plan(None, n, supply[tables..], 0);
  }

  lemma PlanIsDone(hv: Hypervisor, vm: Vm, plan: Plan)
    requires Funded(hv, vm, GuestPhysical, plan)
    ensures hv.Supplies(plan.cs) && !hv.AllLookUsed()
  {
    hide SupplyFrom, Hypervisor.AllLookUsed, Pot, Hypervisor.RoomLeft;
  }

  /** A guest has all rights on the pages that it was given. */
  lemma ReadyIsGranted(hv: Hypervisor, vm: Vm, hosts: seq<nat>)
    requires hv.Valid() && vm in hv.vms && GuestReady(vm.id, hosts, Snap(hv, vm)) && |hosts| <= MAX_PAGES
    ensures forall a: nat :: a < |hosts| * PAGE_SIZE ==> RightsAt(hv.memory, vm.eptp, 3, a) == ALL_RIGHTS
  {
    hide Hypervisor.Valid, RightsAt, Lookup, HostsOk;
    forall a: nat | a < |hosts| * PAGE_SIZE
      ensures RightsAt(hv.memory, vm.eptp, 3, a) == ALL_RIGHTS
    {
      assert Mapping(Snap(hv, vm), a) == HostHit(hosts, a);
      TranslatedIsGranted(hv, vm, a);
    }
  }

  /** The loop that fills the reserved pool. */
  method FillReserve(hv: Hypervisor, vm: Vm, pages: nat, ghost plan: Plan)
    returns (r: Outcome<()>, ghost reserve: set<nat>)
    requires hv.Valid() && vm in hv.vms
    modifies vm`trackedPages, hv`owner, hv`memory, hv`lastReturned, hv.arenas`headers, hv.arenas`blocks
    ensures hv.Valid()
    ensures r.Ok? ==> KeepsOthers(vm.id, old(Snap(hv, vm)), Snap(hv, vm))
    ensures r.Ok? && old(vm.trackedPages == [] && !vm.eptInitialized) ==>
              |reserve| == pages && PoolSize(vm) == pages && ReserveOnly(vm.id, reserve, Snap(hv, vm))
    ensures r.Panic? ==> NoPage(r.reason, hv.boot.mmap) || r.reason == ArenaFull
    ensures r.Panic? ==> hv.Exhausted(r.reason)
    ensures old(vm.trackedPages == [] && !vm.eptInitialized && Funded(hv, vm, Ept, plan))
            && plan.n == pages && NoPageZero(hv.boot.mmap, plan.cs, pages) ==>
              && r.Ok? && pages <= |plan.cs| && hv.Supplies(plan.cs[pages..])
              && !MeansOf(hv, vm).risk && MeansOf(hv, vm).slack >= plan.more
  {
    hide Hypervisor.Valid, ReserveOnly, KeepsOthers, Funded, Hypervisor.Exhausted, SupplyFrom, MeansOf,
      PoolBegun;
    reserve := {};
    KeepsOthersStart(vm.id, Snap(hv, vm));
    ghost var clean := vm.trackedPages == [] && !vm.eptInitialized;
    ghost var funded := clean && Funded(hv, vm, Ept, plan) && plan.n == pages
                        && NoPageZero(hv.boot.mmap, plan.cs, pages);
    ghost var rest := plan;
    if clean {
      NothingOwned(hv, vm);
    }
    for i := 0 to pages
      invariant hv.Valid() && KeepsOthers(vm.id, old(Snap(hv, vm)), Snap(hv, vm))
      invariant clean ==> |reserve| == i && PoolSize(vm) == i && ReserveOnly(vm.id, reserve, Snap(hv, vm))
      invariant funded ==>
                  && Funded(hv, vm, Ept, rest) && i <= |plan.cs| && rest.cs == plan.cs[i..]
                  && rest.n == pages - i && rest.more == plan.more
    {
      ghost var s := Snap(hv, vm);
      if clean {
        NoTablesBegun(hv, vm, reserve);
      }
      var page := ReservePage(hv, vm, rest);
      if page.Panic? {
        r := page.PropagateFailure();
        return;
      }
      ReservedKeepsOthers(vm.id, page.value, s, Snap(hv, vm));
      KeepsOthersChain(vm.id, old(Snap(hv, vm)), s, Snap(hv, vm));
      if clean {
        StillUninitialized(vm.id, reserve, s);
        ReserveStep(vm.id, reserve, page.value, s, Snap(hv, vm));
      }
      if funded {
        rest := rest.After(page.value);
      }
      reserve := reserve + {page.value};
    }
    if funded {
      PlanIsOver(hv, vm, rest);
    }
    r := Ok(());
  }

  /** Page 0 is not among the first pages of the supply. */
  ghost predicate NoPageZero(mmap: seq<MmapDescriptor>, cs: seq<Cursor>, pages: nat) {
    forall k :: 0 <= k < pages && k < |cs| && CursorOk(mmap, cs[k]) ==> PageAt(mmap, cs[k]) != 0
  }

  lemma NoTablesBegun(hv: Hypervisor, vm: Vm, reserve: set<nat>)
    requires hv.Valid() && vm in hv.vms && ReserveOnly(vm.id, reserve, Snap(hv, vm))
    ensures !PoolBegun(vm.trackedPages)
  {
    hide Hypervisor.Valid, ListsMatch, StructuresOk, PoolBegun;
    VmStructures(hv, vm);
    NoTablesYet(vm.trackedPages, vm.id, hv.owner);
  }

  lemma PlanIsOver(hv: Hypervisor, vm: Vm, plan: Plan)
    requires Funded(hv, vm, Ept, plan)
    ensures hv.Supplies(plan.cs) && !MeansOf(hv, vm).risk && MeansOf(hv, vm).slack >= plan.more
  {
    hide SupplyFrom, Pot, Hypervisor.RoomLeft, Hypervisor.AllLookUsed;
  }

  lemma KeepsOthersStart(id: nat, s: Snapshot)
    ensures KeepsOthers(id, s, s)
  {
  }

  lemma ReservedKeepsOthers(id: nat, p: nat, s: Snapshot, s': Snapshot)
    requires p !in s.owner && s'.owner == s.owner[p := ReservedEpt(id)] && s'.memory == s.memory[p := ZERO_PAGE]
    ensures KeepsOthers(id, s, s')
  {
  }

  lemma StillUninitialized(id: nat, reserve: set<nat>, s: Snapshot)
    requires ReserveOnly(id, reserve, s)
    ensures !s.initialized
  {
  }

  /** When every page is mapped the pool is empty and the reserved pages are the live tables. */
  lemma ProgressDone(hv: Hypervisor, vm: Vm, n: nat, hosts: seq<nat>, reserve: set<nat>)
    requires hv.Valid() && vm in hv.vms && |hosts| == n && Progress(vm.id, n, hosts, reserve, Snap(hv, vm))
    ensures n <= MAX_PAGES && PoolSize(vm) == 0
    ensures GuestReady(vm.id, hosts, Snap(hv, vm)) && Zeroed(hosts, hv.memory)
    ensures AllGuestPages(vm.id, hosts, Snap(hv, vm))
    ensures forall p: nat :: Owns(hv.owner, LiveEpt(vm.id), p) <==> p in reserve
    ensures forall p: nat :: p in vm.tables.Values <==> p in reserve
  {
    hide Tree, GuestReady, Zeroed;
    VmParts(vm, hv.memory, hv.owner);
    forall p: nat
      ensures Owns(hv.owner, LiveEpt(vm.id), p) <==> p in reserve
      ensures p in vm.tables.Values <==> p in reserve
    {
      EmptyPoolHoldsNothing(vm.trackedPages, p);
    }
  }

  lemma EmptyPoolHoldsNothing(runs: seq<PageRun>, p: nat)
    requires Size(runs, Ept, true) == 0
    ensures !Holds(runs, Ept, true, p)
  {
    if Holds(runs, Ept, true, p) {
      var k :| 0 <= k < |runs| && OfClass(runs[k], Ept, true) && Covers(runs[k], p);
      SizePositive(runs, k, Ept, true);
    }
  }
}
