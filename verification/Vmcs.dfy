/** Which pages the creation of a VMCS claims (vmx_create_initialized_vmcs in
    hv/src/vmm/vmx_vmcs.c): the region is claimed when its flag is set at the end, after the MSR
    bitmap page was requested. */
module VmcsCreation {
  import opened PhysicalMemory
  import opened RadixTree
  import opened Outcomes
  import opened Arena
  import opened VirtualMachine
  import opened Chainload
  import opened PageScan
  import opened AddressMap
  import opened HypervisorState
  import opened VmxPages
  import opened VmManager

  /** vmx_get_free_vmcs_region, stored in the machine: the page stays free. */
  method GetVmcsRegion(hv: Hypervisor, vm: Vm) returns (r: Outcome<nat>)
    requires hv.Valid() && vm in hv.vms && !vm.vmcsInitialized
    modifies hv`lastReturned, hv`memory, vm`vmcsRegion
    ensures r.Ok? ==>
              && hv.Valid() && !hv.InUse(r.value) && IsFrame(r.value)
              && hv.lastReturned.Some? && hv.LastPage() == r.value && vm.vmcsRegion == r.value
              && hv.memory == WriteWord(old(hv.memory), r.value, 0, FirstWord(hv, old(hv.memory), r.value))
              && !hv.AllLookUsed()
    ensures r.Panic? ==> NoPage(r.reason, hv.boot.mmap) && hv.Valid() && hv.Exhausted(r.reason)
    ensures forall cs: seq<Cursor> :: cs != [] && old(hv.Supplies(cs) && !hv.AllLookUsed()) ==> r.Ok?
  {
    hide InChainload, BootOk, ArenaList.Valid, OwnersOk, ArenaOwners, ListsMatch, VmOk, Tree, Hypervisor.Exhausted,
      Hypervisor.Supplies, Hypervisor.AllLookUsed, Hypervisor.LooksUsed, Hypervisor.Found;
    var page := hv.GetFrame();
    if page.Panic? {
      return page;
    }
    var p := page.value;
    VmParts(vm, hv.memory, hv.owner);
    StillNoVmcs(vm.vmcsRegion, p, vm.id, hv.owner);
    vm.vmcsRegion := p;
    VmFromParts(vm, hv.memory, hv.owner);
    WriteRevision(hv, p);
    return page;
  }

  /** The revision identifier goes to the first word of a page that is still free. */
  method WriteRevision(hv: Hypervisor, p: nat)
    requires hv.Valid() && !hv.InUse(p)
    modifies hv`memory
    ensures hv.Valid() && hv.memory == WriteWord(old(hv.memory), p, 0, FirstWord(hv, old(hv.memory), p))
  {
    hide InChainload, BootOk, ArenaList.Valid, OwnersOk, ArenaOwners, VmOk;
    hv.memory := WriteWord(hv.memory, p, 0, FirstWord(hv, hv.memory, p));
    ForeignWrite(hv.vms, old(hv.memory), hv.memory, hv.owner, p);
  }

  lemma StillNoVmcs(region: nat, region': nat, id: nat, owner: map<nat, Owner>)
    requires VmcsOk(false, region, id, owner)
    ensures VmcsOk(false, region', id, owner)
  {
    assert forall p: nat :: !HasVmcs(owner, id, p);
  }

  /** The flag is set: the machine claims the region it stored. When the MSR bitmaps took that page in the
      meantime, the page serves both. */
  method ClaimVmcs(hv: Hypervisor, vm: Vm)
    requires hv.Valid() && vm in hv.vms && !vm.vmcsInitialized
    requires (!hv.InUse(vm.vmcsRegion) && IsFrame(vm.vmcsRegion)) || Owns(hv.owner, MsrBitmaps, vm.vmcsRegion)
    modifies hv`owner, vm`vmcsInitialized
    ensures hv.Valid() && vm.vmcsInitialized
    ensures hv.owner == old(hv.owner)[vm.vmcsRegion :=
                          if old(hv.InUse(vm.vmcsRegion)) then BitmapsAndVmcs(vm.id) else Vmcs(vm.id)]
  {
    hide InChainload, BootOk, ArenaList.Valid, OwnersOk, ArenaOwners, VmOk, Tree, VmcsOk, ListsMatch;
    ghost var p, before := vm.vmcsRegion, hv.owner;
    ghost var o := if hv.InUse(p) then BitmapsAndVmcs(vm.id) else Vmcs(vm.id);
    VmParts(vm, hv.memory, before);
    vm.vmcsInitialized := true;
    hv.owner := before[p := o];
    DistinctIds(hv.vms, vm);
    if o.Vmcs? {
      ClaimKeepsOwners(hv.boot, before, hv.vmxonRegion, hv.msrBitmapsPage, |hv.vms|, hv.arenas.live, p, o);
    } else {
      ShareKeepsOwners(hv.boot, before, hv.vmxonRegion, hv.msrBitmapsPage, |hv.vms|, hv.arenas.live, p, vm.id);
    }
    VmcsClaimed(vm, hv.memory, before, p, o);
    OthersKept(hv.vms, vm, hv.memory, before, hv.owner, p);
  }

  lemma VmcsClaimed(vm: Vm, m: Memory, owner: map<nat, Owner>, p: nat, o: Owner)
    requires p !in owner || Owns(owner, MsrBitmaps, p)
    requires vm.vmcsInitialized && vm.vmcsRegion == p && o in {Vmcs(vm.id), BitmapsAndVmcs(vm.id)}
    requires EptOk(vm.eptInitialized, vm.eptp, vm.tables, vm.id, m, owner) && ReservedIsZero(vm.id, m, owner)
    requires GuestMapOk(vm.guest, vm.eptInitialized, vm.eptp, vm.id, m, owner)
    requires ListsMatch(vm.trackedPages, vm.id, owner) && VmcsOk(false, p, vm.id, owner)
    ensures VmOk(vm, m, owner[p := o])
  {
    hide Tree, Lookup;
    var owner', id := owner[p := o], vm.id;
    forall q: nat
      ensures HasVmcs(owner', id, q) <==> q == p
      ensures Owns(owner', LiveEpt(id), q) <==> Owns(owner, LiveEpt(id), q)
      ensures Owns(owner', ReservedEpt(id), q) <==> Owns(owner, ReservedEpt(id), q)
      ensures Owns(owner', GuestMemory(id), q) <==> Owns(owner, GuestMemory(id), q)
    {
      assert !HasVmcs(owner, id, q);
    }
    GuestMapKept(vm.guest, vm.eptInitialized, vm.eptp, id, m, owner, owner');
  }

  lemma BitmapsAreOwned(hv: Hypervisor)
    requires hv.Valid()
    ensures hv.msrBitmapsPage.Some? ==> HasBitmaps(hv.owner, hv.msrBitmapsPage.value)
  {
    hide VmOk, InChainload;
  }

  /** vmx_create_initialized_vmcs. The region and the MSR bitmaps get different pages exactly when
      the MSR bitmap page had been obtained before: otherwise both requests return the page that
      is still free, and the bitmaps overwrite the region. */
  method CreateInitializedVmcs(hv: Hypervisor, vm: Vm) returns (r: Outcome<()>)
    requires hv.Valid() && vm in hv.vms
    modifies hv`lastReturned, hv`memory, hv`msrBitmapsPage, hv`owner, vm`vmcsRegion, vm`vmcsInitialized
    ensures r == Panic(VmcsAlreadyInitialized) <==> old(vm.vmcsInitialized)
    ensures r.Ok? ==> hv.Valid() && vm.vmcsInitialized && hv.msrBitmapsPage.Some?
    ensures r.Panic? ==> hv.Valid() && (r.reason == VmcsAlreadyInitialized || hv.Exhausted(r.reason))
    ensures old(!vm.vmcsInitialized && !hv.AllLookUsed()) ==>
              forall cs: seq<Cursor> :: cs != [] && old(hv.Supplies(cs)) ==> r.Ok?
    ensures r.Ok? ==> (vm.vmcsRegion != hv.msrBitmapsPage.value <==> old(hv.msrBitmapsPage).Some?)
    ensures r.Ok? && old(hv.msrBitmapsPage).Some? ==>
              && vm.vmcsRegion !in old(hv.owner) && hv.owner == old(hv.owner)[vm.vmcsRegion := Vmcs(vm.id)]
              && hv.msrBitmapsPage == old(hv.msrBitmapsPage)
              && hv.memory == WriteWord(old(hv.memory), vm.vmcsRegion, 0, FirstWord(hv, old(hv.memory), vm.vmcsRegion))
    ensures r.Ok? && old(hv.msrBitmapsPage).None? ==>
              && vm.vmcsRegion !in old(hv.owner) && hv.owner == old(hv.owner)[vm.vmcsRegion := BitmapsAndVmcs(vm.id)]
              && hv.memory == old(hv.memory)[vm.vmcsRegion := hv.msrBitmaps]
  {
    hide Hypervisor.Valid, Hypervisor.Exhausted, Hypervisor.Supplies, Hypervisor.AllLookUsed, FirstWord;
    if vm.vmcsInitialized {
      return Panic(VmcsAlreadyInitialized);
    }
    var region := GetVmcsRegion(hv, vm);
    if region.Panic? {
      return region.PropagateFailure();
    }
    BitmapsAreOwned(hv);
    var bitmaps := GetMsrBitmapsPage(hv);
    // The page of the region is still free, so there is one for the bitmaps.
    assert bitmaps.Ok?;
    ClaimVmcs(hv, vm);
    return Ok(());
  }
}
