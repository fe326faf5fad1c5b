/** Pages claimed by the hypervisor itself (hv/src/memory_management/vmm_vmx_pages.c) and the
    zeroed pages it hands to the EPT and to guests (also vmm_vm_manager.c). */
module VmxPages {
  import opened Bits
  import opened Paging
  import opened PhysicalMemory
  import opened Bytes
  import opened Outcomes
  import opened VirtualMachine
  import opened AddressMap
  import opened HypervisorState
  import opened Chainload
  import opened PageScan
  import opened PageSupply
  import opened Arena

  /** vmx_get_free_ept_page and vm_manager_get_free_guest_physical_page: a free page, zeroed.
      The page stays free until its caller tracks it. */
  method GetZeroedPage(hv: Hypervisor) returns (r: Outcome<nat>)
    requires hv.Valid()
    modifies hv`lastReturned, hv`memory
    ensures r.Ok? ==>
              && hv.Valid() && !hv.InUse(r.value) && IsFrame(r.value)
              && hv.memory == old(hv.memory)[r.value := ZERO_PAGE]
    ensures r.Panic? ==> hv.Valid() && NoPage(r.reason, hv.boot.mmap) && hv.Exhausted(r.reason)
    ensures r.Panic? ==> hv.memory == old(hv.memory)
    ensures forall cs: seq<Cursor> :: cs != [] && old(hv.Supplies(cs)) && !hv.AllLookUsed() ==>
              hv.Found(cs) && r == Ok(PageAt(hv.boot.mmap, cs[0]))
  {
    hide VmOk, InChainload, BootOk, ArenaList.Valid, OwnersOk, ArenaOwners, Hypervisor.ScanStart,
      Hypervisor.LooksUsed, Hypervisor.AllLookUsed, Hypervisor.Exhausted, Hypervisor.Supplies, Hypervisor.Found;
    var page := hv.GetFrame();
    if page.Panic? {
      return page;
    }
    hv.memory := hv.memory[page.value := ZERO_PAGE];
    ForeignWrite(hv.vms, old(hv.memory), hv.memory, hv.owner, page.value);
    return page;
  }

  lemma ForeignWrite(vms: seq<Vm>, m: Memory, m': Memory, owner: map<nat, Owner>, p: nat)
    requires p !in owner && forall q: nat :: q != p ==> SameAt(m, m', q)
    requires forall v :: v in vms ==> VmOk(v, m, owner)
    ensures forall v :: v in vms ==> VmOk(v, m', owner)
  {
    forall v | v in vms
      ensures SameFor(v.id, m, owner, m', owner)
    {
      OthersUnaffected(v.id, m, owner, m', owner, p);
    }
    VmsFrame(vms, m, owner, m', owner);
  }

  /** Recording that the hypervisor itself (an arena, the VMXON region or the MSR bitmaps) claims
      a free page leaves every machine as it was. */
  lemma HypervisorClaims(vms: seq<Vm>, m: Memory, owner: map<nat, Owner>, m': Memory, p: nat, o: Owner)
    requires p !in owner && !OfSomeVm(o) && forall q: nat :: q != p ==> SameAt(m, m', q)
    requires forall v :: v in vms ==> VmOk(v, m, owner)
    ensures forall v :: v in vms ==> VmOk(v, m', owner[p := o])
  {
    forall v | v in vms
      ensures SameFor(v.id, m, owner, m', owner[p := o])
    {
      OthersUnaffected(v.id, m, owner, m', owner[p := o], p);
    }
    VmsFrame(vms, m, owner, m', owner[p := o]);
  }

  /** vmx_get_vmxon_region: claimed at the first call, the same page ever after. */
  method GetVmxonRegion(hv: Hypervisor) returns (r: Outcome<nat>)
    requires hv.Valid()
    modifies hv`lastReturned, hv`memory, hv`vmxonRegion, hv`owner
    ensures r.Ok? ==> hv.Valid() && hv.vmxonRegion == Some(r.value)
    ensures r.Ok? ==>
              if old(hv.vmxonRegion).Some? then
                r.value == old(hv.vmxonRegion).value && hv.owner == old(hv.owner) && hv.memory == old(hv.memory)
              else
                && old(!hv.InUse(r.value)) && hv.owner == old(hv.owner)[r.value := VmxonRegion]
                && hv.memory == WriteWord(old(hv.memory), r.value, 0, FirstWord(hv, old(hv.memory), r.value))
    ensures r.Panic? ==> hv.Valid() && NoPage(r.reason, hv.boot.mmap) && hv.Exhausted(r.reason)
    ensures old(hv.vmxonRegion).Some? ==> r.Ok?
    ensures old(hv.vmxonRegion).None? ==>
              forall cs: seq<Cursor> :: cs != [] && old(hv.Supplies(cs)) && !hv.AllLookUsed() ==>
                r.Ok? && hv.Supplies(cs[1..])
    ensures old(hv.vmxonRegion).None? ==>
              forall c :: old(hv.ScanStart(c)) && old(!hv.LooksUsed(PageAt(hv.boot.mmap, c))) ==>
                && (r.Ok? <==> IsFrame(PageAt(hv.boot.mmap, c)))
                && (r.Panic? ==> r.reason == PageFault)
  {
    hide Hypervisor.Valid, Hypervisor.ScanStart, Hypervisor.LooksUsed, Hypervisor.AllLookUsed, Hypervisor.Exhausted,
      Hypervisor.Supplies, Supply, FirstWord;
    if hv.vmxonRegion.Some? {
      return Ok(hv.vmxonRegion.value);
    }
    var page := hv.GetFrame();
    if page.Panic? {
      return page;
    }
    ClaimVmxon(hv, page.value);
    forall cs: seq<Cursor> | cs != [] && old(hv.Supplies(cs)) && !hv.AllLookUsed()
      ensures hv.Supplies(cs[1..])
    {
      SupplyGoesOn(hv, old(hv.owner), cs);
    }
    return page;
  }

  /** The free page becomes the VMXON region. */
  method ClaimVmxon(hv: Hypervisor, p: nat)
    requires hv.Valid() && hv.vmxonRegion == None && !hv.InUse(p) && IsFrame(p)
    modifies hv`memory, hv`vmxonRegion, hv`owner
    ensures hv.Valid() && hv.vmxonRegion == Some(p) && hv.owner == old(hv.owner)[p := VmxonRegion]
    ensures hv.memory == WriteWord(old(hv.memory), p, 0, FirstWord(hv, old(hv.memory), p))
  {
    hide VmOk, InChainload, BootOk, ArenaList.Valid, OwnersOk, ArenaOwners;
    hv.vmxonRegion := Some(p);
    hv.memory := WriteWord(hv.memory, p, 0, FirstWord(hv, hv.memory, p));
    HypervisorClaims(hv.vms, old(hv.memory), hv.owner, hv.memory, p, VmxonRegion);
    ClaimKeepsOwners(hv.boot, hv.owner, None, hv.msrBitmapsPage, |hv.vms|, hv.arenas.live, p, VmxonRegion);
    hv.owner := hv.owner[p := VmxonRegion];
  }

  /** The 31-bit revision identifier replaces the low half of the first word of the region. */
  function FirstWord(hv: Hypervisor, m: Memory, p: nat): u64 {
    At(m, p)[0] - At(m, p)[0] % 0x1_0000_0000 + hv.vmcsRevision % 0x8000_0000
  }

  const REVISION_MASK: nat := 0x7fff_ffff

  /** The first four bytes of the region are the masked revision identifier; all other memory is as before. */
  ghost predicate RevisionStored(revision: u64, m: Memory, m': Memory, p: nat) {
    forall a: nat ::
      ByteAt(m', a) == if p <= a < p + 4 then ByteOf(And(revision, REVISION_MASK), a - p) else ByteAt(m, a)
  }

  lemma RevisionIsStored(hv: Hypervisor, m: Memory, p: nat)
    requires p % PAGE_SIZE == 0
    ensures RevisionStored(hv.vmcsRevision, m, WriteWord(m, p, 0, FirstWord(hv, m, p)), p)
  {
    hide And, ByteOf;
    var m', w, w' := WriteWord(m, p, 0, FirstWord(hv, m, p)), At(m, p)[0], FirstWord(hv, m, p);
    PowersOfTwo();
    AndLow(hv.vmcsRevision, 31);
    forall a: nat
      ensures ByteAt(m', a)
              == if p <= a < p + 4 then ByteOf(And(hv.vmcsRevision, REVISION_MASK), a - p) else ByteAt(m, a)
    {
      if p <= a < p + 8 {
        LowHalfReplaced(w, hv.vmcsRevision % 0x8000_0000, a - p);
      }
    }
  }

  /** Replacing the low half of a word replaces its first four bytes. */
  lemma LowHalfReplaced(w: nat, low: nat, j: nat)
    requires low < 0x1_0000_0000 && j < 8
    ensures ByteOf(w - w % 0x1_0000_0000 + low, j) == if j < 4 then ByteOf(low, j) else ByteOf(w, j)
  {
    hide ByteOf;
    var high := w / 0x1_0000_0000;
    assert w - w % 0x1_0000_0000 + low == high * 0x1_0000_0000 + low;
    BytesOfHalves(high, low, 0x1_0000_0000, 4, j);
    BytesOfHalves(high, w % 0x1_0000_0000, 0x1_0000_0000, 4, j);
  }

  /** The bytes of a number in two parts, the lower one n bytes long. */
  lemma {:induction false} BytesOfHalves(high: nat, low: nat, unit: nat, n: nat, j: nat)
    requires n <= 4 && unit == [1, 0x100, 0x1_0000, 0x100_0000, 0x1_0000_0000][n] && low < unit
    ensures ByteOf(high * unit + low, j) == if j < n then ByteOf(low, j) else ByteOf(high, j - n)
    decreases n
  {
    if n > 0 {
      var part := unit / 0x100;
      assert high * unit == high * part * 0x100;
      RemainderIs(high * unit + low, 0x100, high * part + low / 0x100, low % 0x100);
      if j > 0 {
        BytesOfHalves(high, low / 0x100, part, n - 1, j - 1);
      }
    }
  }

  /** vmx_get_msr_bitmaps_page: claimed and filled at the first call, the same page ever after. */
  method GetMsrBitmapsPage(hv: Hypervisor) returns (r: Outcome<nat>)
    requires hv.Valid()
    modifies hv`lastReturned, hv`memory, hv`msrBitmapsPage, hv`owner
    ensures r.Ok? ==> hv.Valid() && hv.msrBitmapsPage == Some(r.value)
    ensures r.Ok? ==>
              if old(hv.msrBitmapsPage).Some? then
                && r.value == old(hv.msrBitmapsPage).value && hv.owner == old(hv.owner) && hv.memory == old(hv.memory)
                && hv.lastReturned == old(hv.lastReturned)
              else
                && old(!hv.InUse(r.value)) && hv.owner == old(hv.owner)[r.value := MsrBitmaps]
                && hv.memory == old(hv.memory)[r.value := hv.msrBitmaps]
                && (old(hv.lastReturned).Some? && old(!hv.InUse(hv.LastPage())) ==> r.value == old(hv.LastPage()))
    ensures r.Panic? ==> hv.Valid() && NoPage(r.reason, hv.boot.mmap) && hv.Exhausted(r.reason)
    ensures old(hv.msrBitmapsPage).Some? ==> r.Ok?
    ensures old(hv.lastReturned).Some? && old(!hv.LooksUsed(hv.LastPage()) && IsFrame(hv.LastPage())) ==> r.Ok?
  {
    hide VmOk, InChainload, BootOk, ArenaList.Valid, OwnersOk, ArenaOwners, Hypervisor.ScanStart,
      Hypervisor.LooksUsed, Hypervisor.AllLookUsed, Hypervisor.Exhausted, Hypervisor.Supplies, Hypervisor.Found;
    if hv.msrBitmapsPage.Some? {
      return Ok(hv.msrBitmapsPage.value);
    }
    var page := hv.GetFrame();
    if page.Panic? {
      return page;
    }
    var p := page.value;
    hv.msrBitmapsPage := Some(p);
    hv.memory := hv.memory[p := hv.msrBitmaps];
    HypervisorClaims(hv.vms, old(hv.memory), hv.owner, hv.memory, p, MsrBitmaps);
    ClaimKeepsOwners(hv.boot, hv.owner, old(hv.vmxonRegion), old(hv.msrBitmapsPage), |hv.vms|, hv.arenas.live, p,
                     MsrBitmaps);
    hv.owner := hv.owner[p := MsrBitmaps];
    return Ok(p);
  }
}
