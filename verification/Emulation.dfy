/** Emulation of OUTS and REP OUTS (hv/src/vmm/vm_emulated_instructions.c) on top of the address
    resolution of VM exits (hv/src/vmm/vm_guest_paging.c). */
module Emulation {
  import opened Bits
  import opened Paging
  import opened AddressMap
  import opened PhysicalMemory
  import opened Bytes
  import opened RadixTree
  import opened Outcomes
  import opened Chainload
  import opened EptMapping
  import opened GuestPaging

  // (1 << 31) is an int: as a 64-bit mask it is sign extended.
  const CR0_PG: nat := 0xffff_ffff_8000_0000
  const CR4_PAE: nat := 0x20
  const CR4_LA57: nat := 0x1000
  const IA32_EFER_LME: nat := 0x100

  /** What address resolution reads: memory, the machine's EPT and the control registers. */
  datatype Context = Context(memory: Memory, eptInitialized: bool, eptp: nat, cr0: u64, cr3: u64, cr4: u64, efer: u64)

  predicate LongMode4Level(c: Context) {
    && And(c.cr0, CR0_PG) != 0 && And(c.cr4, CR4_PAE) != 0
    && And(c.cr4, CR4_LA57) == 0 && And(c.efer, IA32_EFER_LME) != 0
  }

  /** Paging is on, with physical address extension and without 57-bit addresses, and long mode is enabled: bits 31 of
      CR0, 5 of CR4, 12 of CR4 and 8 of IA32_EFER. For CR0, which has only its low 32 bits, the first is bit 31. */
  predicate FourLevelPaging(c: Context) {
    && c.cr0 / 0x8000_0000 != 0 && c.cr4 / 0x20 % 2 == 1 && c.cr4 / 0x1000 % 2 == 0 && c.efer / 0x100 % 2 == 1
  }

  lemma ModeIsFourLevel(c: Context)
    ensures LongMode4Level(c) <==> FourLevelPaging(c)
    ensures c.cr0 < 0x1_0000_0000 ==> (c.cr0 / 0x8000_0000 != 0 <==> c.cr0 / 0x8000_0000 % 2 == 1)
  {
    hide And, Pow2;
    ModeMasks();
    AndField(c.cr0, 31, 33);
    AndField(c.cr4, 5, 1);
    AndField(c.cr4, 12, 1);
    AndField(c.efer, 8, 1);
    assert c.cr0 / 0x8000_0000 % 0x2_0000_0000 == c.cr0 / 0x8000_0000;
  }

  lemma ModeMasks()
    ensures Mask(31, 33) == CR0_PG && Mask(5, 1) == CR4_PAE && Mask(12, 1) == CR4_LA57 && Mask(8, 1) == IA32_EFER_LME
    ensures Pow2(31) == 0x8000_0000 && Pow2(33) == 0x2_0000_0000 && Pow2(1) == 2
    ensures Pow2(5) == 0x20 && Pow2(12) == 0x1000 && Pow2(8) == 0x100
  {
    PowersOfTwo();
    Pow2Adds(31, 2);
    Pow2Adds(31, 33);
    MaskIs(31, 33);
    MaskIs(5, 1);
    MaskIs(12, 1);
    MaskIs(8, 1);
  }

  /** vm_guest_paging_get_host_virtual_address_during_vmexit. */
  function HostVirtualAddress(c: Context, va: u64, size: nat): Outcome<u64> {
    if !LongMode4Level(c) then Panic(UnsupportedPagingMode) else
    match GetGuestPhysicalAddress(c.memory, c.eptInitialized, c.eptp, c.cr3, va)
    case None => Panic(GuestWalkFailed)
    case Some(gpa) =>
      match GetHostPhysicalAddress(c.memory, c.eptInitialized, c.eptp, gpa)
      case None => Panic(EptWalkFailed)
      case Some(hpa) =>
        var hostva := P2V(hpa % TWO_64);
        if And(hostva, PAGE_MASK) != And(Add64(hostva, Sub64(size % TWO_64, 1)), PAGE_MASK) then Panic(CrossesPage)
        else Ok(hostva)
  }

  /** An operand that is resolved lies in one page. */
  lemma OperandInOnePage(c: Context, va: u64, size: nat)
    requires 1 <= size <= 8 && HostVirtualAddress(c, va, size).Ok?
    ensures V2P(HostVirtualAddress(c, va, size).value) % PAGE_SIZE + size <= PAGE_SIZE
  {
    hide And, GetGuestPhysicalAddress, GetHostPhysicalAddress, V2P, P2V;
    var hostva := HostVirtualAddress(c, va, size).value;
    PageMaskAligns(hostva);
    PageMaskAligns(Add64(hostva, size - 1));
    ConversionsInvert(hostva);
    NoStraddle(hostva, size);
  }

  lemma NoStraddle(x: u64, size: nat)
    requires 1 <= size <= 8
    requires x - x % PAGE_SIZE == Add64(x, size - 1) - Add64(x, size - 1) % PAGE_SIZE
    ensures x % PAGE_SIZE + size <= PAGE_SIZE
  {
  }

  /** The operand of one OUTS: size bytes at a guest-virtual address. */
  function Operand(c: Context, va: u64, size: nat): Outcome<nat> {
    match HostVirtualAddress(c, va, size)
    case Panic(reason) => Panic(reason)
    case Ok(hostva) => Ok(LoadBytes(c.memory, V2P(hostva), size))
  }

  // --- what an operand is ---------------------------------------------------------------------------

  /** Nested paging of a linear address: the guest's own tables, from CR3 with its low 12 bits cleared, ... */
  function GuestStage(c: Context, la: nat): Option<nat> {
    NestedWalk(c.memory, c.eptInitialized, c.eptp, c.cr3 - c.cr3 % PAGE_SIZE, 3, la)
  }

  /** ... and the EPT. */
  function HostStage(c: Context, g: nat): Option<nat> {
    if c.eptInitialized then Translate(c.memory, c.eptp, g) else None
  }

  /** The byte of physical memory that the guest has at a linear address. */
  function ByteOfGuest(c: Context, la: nat): Option<u8> {
    match GuestStage(c, la)
    case None => None
    case Some(g) =>
      match HostStage(c, g)
      case None => None
      case Some(pa) => Some(ByteAt(c.memory, pa))
  }

  /** The four conditions under which an operand is found. */
  predicate Found(c: Context, va: u64, size: nat) {
    && FourLevelPaging(c)
    && GuestStage(c, va).Some? && HostStage(c, GuestStage(c, va).value).Some?
    && va % PAGE_SIZE + size <= PAGE_SIZE
  }

  lemma StagesOf(c: Context, va: nat)
    ensures GetGuestPhysicalAddress(c.memory, c.eptInitialized, c.eptp, c.cr3, va) == GuestStage(c, va)
    ensures forall g: nat :: GetHostPhysicalAddress(c.memory, c.eptInitialized, c.eptp, g) == HostStage(c, g)
  {
    hide GetGuestPhysicalAddress, NestedWalk, Translate, And, Or, OffsetMask, At;
    GuestWalkIsNested(c.memory, c.eptInitialized, c.eptp, c.cr3, va);
    forall g: nat
      ensures GetHostPhysicalAddress(c.memory, c.eptInitialized, c.eptp, g) == HostStage(c, g)
    {
      if c.eptInitialized {
        LookupWalksTheTree(c.memory, c.eptp, g);
      } else {
        NoEptNoHost(c.memory, c.eptp, g);
      }
    }
  }

  lemma StagesKeepOffset(c: Context, va: u64)
    ensures var g := GuestStage(c, va);
            && (g.Some? ==> g.value % PAGE_SIZE == va % PAGE_SIZE)
            && (g.Some? && HostStage(c, g.value).Some? ==>
                  HostStage(c, g.value).value % PAGE_SIZE == va % PAGE_SIZE
                  && HostStage(c, g.value).value < 0x20_0000_0000_0000)
  {
    hide NestedWalk, Translate;
    NestedKeepsOffset(c.memory, c.eptInitialized, c.eptp, c.cr3 - c.cr3 % PAGE_SIZE, 3, va);
    var g := GuestStage(c, va);
    if g.Some? {
      TranslateBound(c.memory, c.eptp, g.value);
    }
  }

  /** The test that an operand does not leave its page. */
  lemma CrossTest(pa: nat, size: nat)
    requires 1 <= size <= 8 && pa < 0x20_0000_0000_0000
    ensures var hostva := P2V(pa % TWO_64);
            && V2P(hostva) == pa
            && (And(hostva, PAGE_MASK) == And(Add64(hostva, Sub64(size % TWO_64, 1)), PAGE_MASK)
                <==> pa % PAGE_SIZE + size <= PAGE_SIZE)
  {
    hide And, V2P;
    var hostva := P2V(pa % TWO_64);
    assert hostva == pa + RKHV_PHYSICAL_MEMORY_BASE;
    assert Add64(hostva, Sub64(size % TWO_64, 1)) == hostva + (size - 1);
    PageMaskAligns(hostva);
    PageMaskAligns(hostva + (size - 1));
    ConversionsInvert(pa);
    PageEnds(hostva, size);
  }

  lemma PageEnds(x: nat, size: nat)
    requires 1 <= size <= 8
    ensures x - x % PAGE_SIZE == x + (size - 1) - (x + (size - 1)) % PAGE_SIZE <==> x % PAGE_SIZE + size <= PAGE_SIZE
  {
  }

  /** An operand is found exactly under the four conditions, and what is found is the host-physical address of its
      first byte; each reason for a panic stands for the first condition that fails. */
  lemma ResolutionIs(c: Context, va: u64, size: nat)
    requires 1 <= size <= 8
    ensures var r, g := HostVirtualAddress(c, va, size), GuestStage(c, va);
            && (r.Ok? <==> Found(c, va, size))
            && (r.Ok? ==> Some(V2P(r.value)) == HostStage(c, g.value))
            && (r == Panic(UnsupportedPagingMode) <==> !FourLevelPaging(c))
            && (r == Panic(GuestWalkFailed) <==> FourLevelPaging(c) && g.None?)
            && (r == Panic(EptWalkFailed) <==> FourLevelPaging(c) && g.Some? && HostStage(c, g.value).None?)
            && (r == Panic(CrossesPage) <==>
                  && FourLevelPaging(c) && g.Some? && HostStage(c, g.value).Some?
                  && va % PAGE_SIZE + size > PAGE_SIZE)
  {
    hide And, GetGuestPhysicalAddress, GetHostPhysicalAddress, GuestStage, HostStage, V2P, P2V, FourLevelPaging,
      LongMode4Level;
    ModeIsFourLevel(c);
    StagesOf(c, va);
    StagesKeepOffset(c, va);
    var g := GuestStage(c, va);
    if g.Some? && HostStage(c, g.value).Some? {
      CrossTest(HostStage(c, g.value).value, size);
    }
  }

  /** Byte j of an operand is what the guest has at its linear address + j. */
  lemma OperandBytes(c: Context, va: u64, size: nat)
    requires 1 <= size <= 8
    ensures Operand(c, va, size).Ok? <==> Found(c, va, size)
    ensures Operand(c, va, size).Ok? ==>
              && Operand(c, va, size).value < Pow2(8 * size)
              && forall j: nat :: j < size ==> ByteOfGuest(c, va + j) == Some(ByteOf(Operand(c, va, size).value, j))
  {
    hide HostVirtualAddress, LoadBytes, GuestStage, HostStage, V2P, FourLevelPaging, ByteAt, Pow2, ByteOf;
    ResolutionIs(c, va, size);
    if Found(c, va, size) {
      forall j: nat | j < size
        ensures ByteOfGuest(c, va + j) == Some(ByteOf(Operand(c, va, size).value, j))
      {
        StagesInPage(c, va, j);
      }
    }
  }

  lemma StagesInPage(c: Context, va: nat, j: nat)
    requires va % PAGE_SIZE + j < PAGE_SIZE
    requires GuestStage(c, va).Some? && HostStage(c, GuestStage(c, va).value).Some?
    ensures GuestStage(c, va + j) == Some(GuestStage(c, va).value + j)
    ensures HostStage(c, GuestStage(c, va).value + j) == Some(HostStage(c, GuestStage(c, va).value).value + j)
  {
    hide NestedWalk, Translate;
    var cr3, g := c.cr3 - c.cr3 % PAGE_SIZE, GuestStage(c, va).value;
    NestedInPage(c.memory, c.eptInitialized, c.eptp, cr3, 3, va, j);
    NestedKeepsOffset(c.memory, c.eptInitialized, c.eptp, cr3, 3, va);
    TranslateInPage(c.memory, c.eptp, g, j);
  }

  /** rsi after k operands, going up or down. */
  function RsiAt(rsi: u64, df: bool, size: nat, k: nat): u64 {
    (if df then rsi - k * size else rsi + k * size) % TWO_64
  }

  datatype PortWrite = PortWrite(port: nat, size: nat, value: nat)

  /** The first n operands of a string, in order; all of them resolve. */
  ghost predicate AllResolve(c: Context, rsi: u64, df: bool, size: nat, n: nat) {
    forall k: nat :: k < n ==> Operand(c, RsiAt(rsi, df, size, k), size).Ok?
  }

  /** The device write of the operand at a linear address: the bytes that the guest has there. */
  ghost predicate Sent(c: Context, port: nat, va: u64, size: nat, write: PortWrite) {
    && write.port == port && write.size == size && write.value < Pow2(8 * size)
    && forall j: nat :: j < size ==> ByteOfGuest(c, va + j) == Some(ByteOf(write.value, j))
  }

  lemma OperandIsSent(c: Context, port: nat, va: u64, size: nat)
    requires 1 <= size <= 8
    ensures Operand(c, va, size).Ok? <==> Found(c, va, size)
    ensures Operand(c, va, size).Ok? ==> Sent(c, port, va, size, PortWrite(port, size, Operand(c, va, size).value))
  {
    hide Operand, Found, ByteOfGuest, ByteOf, Pow2;
    OperandBytes(c, va, size);
  }

  /** The device writes of the first n operands. */
  ghost predicate Sends(c: Context, port: nat, rsi: u64, df: bool, size: nat, n: nat, writes: seq<PortWrite>) {
    && |writes| == n && AllResolve(c, rsi, df, size, n)
    && forall k: nat :: k < n ==> writes[k] == PortWrite(port, size, Operand(c, RsiAt(rsi, df, size, k), size).value)
  }

  /** Each of the writes is that of its operand. */
  ghost predicate AllSent(c: Context, port: nat, rsi: u64, df: bool, size: nat, writes: seq<PortWrite>) {
    forall k: nat :: k < |writes| ==> Sent(c, port, RsiAt(rsi, df, size, k), size, writes[k])
  }

  /** The registers of an exit that string output changes, and the device writes made so far. */
  class ExitState {
    const context: Context
    const df: bool
    var rcx: u64
    var rsi: u64
    var writes: seq<PortWrite>

    constructor (context: Context, df: bool, rcx: u64, rsi: u64)
      ensures this.context == context && this.df == df && this.rcx == rcx && this.rsi == rsi && writes == []
    {
      this.context, this.df, this.rcx, this.rsi, writes := context, df, rcx, rsi, [];
    }

    /** vm_emulated_instruction_outs{b,w,d}. */
    method Outs(port: nat, size: nat) returns (r: Outcome<()>)
      requires size in {1, 2, 4}
      modifies this`rsi, this`writes
      ensures r.Ok? <==> Operand(context, old(rsi), size).Ok?
      ensures r.Ok? ==>
                && writes == old(writes) + [PortWrite(port, size, Operand(context, old(rsi), size).value)]
                && rsi == RsiAt(old(rsi), df, size, 1)
      ensures r.Panic? ==> writes == old(writes) && rsi == old(rsi)
      ensures r.Panic? ==> Operand(context, old(rsi), size) == Panic(r.reason)
      ensures r.Ok? <==> Found(context, old(rsi), size)
      ensures r.Ok? ==> Sent(context, port, old(rsi), size, writes[|old(writes)|])
    {
      hide HostVirtualAddress, LoadBytes, Found, Sent;
      OperandIsSent(context, port, rsi, size);
      var hostva := HostVirtualAddress(context, rsi, size);
      if hostva.Panic? {
        return hostva.PropagateFailure();
      }
      writes := writes + [PortWrite(port, size, LoadBytes(context.memory, V2P(hostva.value), size))];
      rsi := if df then Sub64(rsi, size) else Add64(rsi, size);
      return Ok(());
    }

    /** vm_emulated_instruction_rep_outs{b,w,d}: it sends exactly the operands at rsi, rsi +- size,
        ... in order, or stops at the first one that does not resolve. */
    method RepOuts(port: nat, size: nat) returns (r: Outcome<()>)
      requires size in {1, 2, 4}
      modifies this
      ensures r.Ok? <==> AllResolve(context, old(rsi), df, size, old(rcx))
      ensures rcx <= old(rcx) && (r.Ok? <==> rcx == 0)
      ensures rsi == RsiAt(old(rsi), df, size, old(rcx) - rcx)
      ensures |writes| == |old(writes)| + (old(rcx) - rcx) && writes[..|old(writes)|] == old(writes)
      ensures Sends(context, port, old(rsi), df, size, old(rcx) - rcx, writes[|old(writes)|..])
      ensures r.Panic? ==> Operand(context, RsiAt(old(rsi), df, size, old(rcx) - rcx), size) == Panic(r.reason)
      ensures r.Ok? <==> forall k: nat :: k < old(rcx) ==> Found(context, RsiAt(old(rsi), df, size, k), size)
      ensures AllSent(context, port, old(rsi), df, size, writes[|old(writes)|..])
      ensures r.Panic? ==> !Found(context, RsiAt(old(rsi), df, size, old(rcx) - rcx), size)
    {
      hide Operand, RsiAt, Found, Sent, AllSent;
      RsiStart(rsi, df, size);
      ghost var n, rsi0, before := rcx, rsi, writes;
      ghost var sent: seq<PortWrite> := [];
      while rcx != 0
        invariant rcx <= n && rsi == RsiAt(rsi0, df, size, n - rcx)
        invariant writes == before + sent && Sends(context, port, rsi0, df, size, n - rcx, sent)
        decreases rcx
      {
        RsiSteps(rsi0, df, size, n - rcx);
        var one := Outs(port, size);
        if one.Panic? {
          OperandsFound(context, port, rsi0, df, size, n - rcx, sent);
          assert writes[|before|..] == sent;
          return one;
        }
        sent := sent + [writes[|writes| - 1]];
        rcx := rcx - 1;
      }
      OperandsFound(context, port, rsi0, df, size, n, sent);
      assert writes[|before|..] == sent;
      return Ok(());
    }
  }

  lemma OperandsFound(c: Context, port: nat, rsi: u64, df: bool, size: nat, n: nat, writes: seq<PortWrite>)
    requires size in {1, 2, 4} && Sends(c, port, rsi, df, size, n, writes)
    ensures AllSent(c, port, rsi, df, size, writes)
    ensures forall k: nat :: k < n ==> Found(c, RsiAt(rsi, df, size, k), size)
  {
    hide Operand, RsiAt, Found, Sent;
    forall k: nat | k < n
      ensures Found(c, RsiAt(rsi, df, size, k), size) && Sent(c, port, RsiAt(rsi, df, size, k), size, writes[k])
    {
      OperandIsSent(c, port, RsiAt(rsi, df, size, k), size);
    }
  }

  lemma RsiSteps(rsi: u64, df: bool, size: nat, k: nat)
    ensures RsiAt(RsiAt(rsi, df, size, k), df, size, 1) == RsiAt(rsi, df, size, k + 1)
  {
    assert (k + 1) * size == k * size + size;
    var x: int, d: int := if df then rsi - k * size else rsi + k * size, if df then 0 - size else size;
    WrapsOnce(x, d);
  }

  lemma WrapsOnce(x: int, d: int)
    ensures (x % TWO_64 + d) % TWO_64 == (x + d) % TWO_64
  {
  }

  lemma RsiStart(rsi: u64, df: bool, size: nat)
    ensures RsiAt(rsi, df, size, 0) == rsi
  {
  }
}
