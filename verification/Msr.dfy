/** Model-specific registers shared by the host and the guest (hv/src/vmm/vmx_msr.c). The bitmap lets
    the guest write exactly the registers of one list without a VM exit; the switch keeps a separate
    value of each of them for the host and for the guest. */
module MsrSwitching {
  import opened Bits
  import opened Paging

  /** VMX_MSR_LIST. The first three are saved and loaded by the processor itself, in the VMCS. */
  datatype Msr = Efer | FsBase | GsBase | MiscEnable | BiosSignId | Xss | KernelGsBase

  function Address(m: Msr): nat {
    match m
    case Efer => 0xC000_0080
    case FsBase => 0xC000_0100
    case GsBase => 0xC000_0101
    case MiscEnable => 0x1A0
    case BiosSignId => 0x8B
    case Xss => 0xDA0
    case KernelGsBase => 0xC000_0102
  }

  /** IA32_EFER, IA32_FS_BASE and IA32_GS_BASE. */
  predicate InVmcs(m: Msr): (r: bool)
    ensures r <==> Address(m) in {0xC000_0080, 0xC000_0100, 0xC000_0101}
  {
    m.Efer? || m.FsBase? || m.GsBase?
  }

  const VMX_MSR_LIST: seq<Msr> := [Efer, FsBase, GsBase, MiscEnable, BiosSignId, Xss, KernelGsBase]

  // --- the bitmaps ---------------------------------------------------------------------------------

  const VMCS_MSR_BITMAPS_READ_LOW: nat := 0
  const VMCS_MSR_BITMAPS_READ_HIGH: nat := 1024
  const VMCS_MSR_BITMAPS_WRITE_LOW: nat := 2048
  const VMCS_MSR_BITMAPS_WRITE_HIGH: nat := 3072
  const VMCS_MSR_BITMAPS_HIGH_BASE: nat := 0xC000_0000

  /** The registers that have a bit in the bitmaps: 0 to 1fffH and c0000000H to c0001fffH. */
  predicate HasBit(address: nat) {
    address < 0x2000 || VMCS_MSR_BITMAPS_HIGH_BASE <= address < VMCS_MSR_BITMAPS_HIGH_BASE + 0x2000
  }

  /** 1 << k in a byte. */
  function One(k: nat): bv8
    requires k < 8
  {
    [1, 2, 4, 8, 16, 32, 64, 128][k]
  }

  predicate Bit(b: bv8, k: nat)
    requires k < 8
  {
    b & One(k) != 0
  }

  /** Bit k counted from the least significant one. */
  lemma BitIs(b: bv8, k: nat)
    requires k < 8
    ensures Bit(b, k) <==> (b >> k) & 1 == 1
  {
    Cases(k);
  }

  /** The byte and the bit that decide whether an access exits, as the processor finds them in the
      bitmap for low and the bitmap for high addresses (section 25.6.9 of the Intel SDM, volume 3). */
  function ByteOf(low: nat, high: nat, address: nat): (offset: nat)
    requires HasBit(address)
    ensures low <= offset < low + PAGE_SIZE / 4 || high <= offset < high + PAGE_SIZE / 4
  {
    if address < VMCS_MSR_BITMAPS_HIGH_BASE then low + address / 8
    else high + (address - VMCS_MSR_BITMAPS_HIGH_BASE) / 8
  }

  function ShiftOf(address: nat): (shift: nat)
    requires HasBit(address)
    ensures shift < 8
  {
    if address < VMCS_MSR_BITMAPS_HIGH_BASE then address % 8 else (address - VMCS_MSR_BITMAPS_HIGH_BASE) % 8
  }

  predicate WriteExits(bitmaps: seq<bv8>, address: nat)
    requires |bitmaps| == PAGE_SIZE
  {
    HasBit(address) ==>
      Bit(bitmaps[ByteOf(VMCS_MSR_BITMAPS_WRITE_LOW, VMCS_MSR_BITMAPS_WRITE_HIGH, address)], ShiftOf(address))
  }

  predicate ReadExits(bitmaps: seq<bv8>, address: nat)
    requires |bitmaps| == PAGE_SIZE
  {
    HasBit(address) ==>
      Bit(bitmaps[ByteOf(VMCS_MSR_BITMAPS_READ_LOW, VMCS_MSR_BITMAPS_READ_HIGH, address)], ShiftOf(address))
  }

  lemma ClearedBit(b: bv8, k: nat, j: nat)
    requires k < 8 && j < 8
    ensures Bit(b & !One(k), j) <==> j != k && Bit(b, j)
  {
    Cases(k);
    Cases(j);
    ClearBits(b, One(k), One(j));
  }

  lemma Cases(k: nat)
    requires k < 8
    ensures One(k)
            == match k {
                 case 0 => 1 case 1 => 2 case 2 => 4 case 3 => 8 case 4 => 16 case 5 => 32 case 6 => 64 case _ => 128
               }
  {
  }

  lemma ClearBits(b: bv8, x: bv8, y: bv8)
    ensures x & y == 0 ==> b & !x & y == b & y
    ensures b & !x & x == 0
  {
  }

  method Fill(a: array<bv8>, from: nat, length: nat, value: bv8)
    requires from + length <= a.Length
    modifies a
    ensures forall k :: 0 <= k < a.Length ==> a[k] == if from <= k < from + length then value else old(a[k])
  {
    for k := from to from + length
      invariant forall j :: 0 <= j < a.Length ==> a[j] == if from <= j < k then value else old(a[j])
    {
      a[k] := value;
    }
  }

  lemma OneBitPerAddress(low: nat, high: nat, x: nat, y: nat)
    requires HasBit(x) && HasBit(y) && (low + PAGE_SIZE / 4 <= high || high + PAGE_SIZE / 4 <= low)
    ensures ByteOf(low, high, x) == ByteOf(low, high, y) && ShiftOf(x) == ShiftOf(y) ==> x == y
  {
  }

  ghost function Allowed(b: seq<bv8>, address: nat): seq<bv8>
    requires |b| == PAGE_SIZE && HasBit(address)
  {
    var offset := ByteOf(VMCS_MSR_BITMAPS_WRITE_LOW, VMCS_MSR_BITMAPS_WRITE_HIGH, address);
    b[offset := b[offset] & !One(ShiftOf(address))]
  }

  lemma AllowedOne(b: seq<bv8>, address: nat, other: nat)
    requires |b| == PAGE_SIZE && HasBit(address)
    ensures WriteExits(Allowed(b, address), other) <==> other != address && WriteExits(b, other)
    ensures ReadExits(Allowed(b, address), other) <==> ReadExits(b, other)
  {
    hide Bit, One, ByteOf, ShiftOf, HasBit;
    if HasBit(other) {
      OneBitPerAddress(VMCS_MSR_BITMAPS_WRITE_LOW, VMCS_MSR_BITMAPS_WRITE_HIGH, address, other);
      var offset := ByteOf(VMCS_MSR_BITMAPS_WRITE_LOW, VMCS_MSR_BITMAPS_WRITE_HIGH, address);
      ClearedBit(b[offset], ShiftOf(address), ShiftOf(other));
    }
  }

  /** X_ALLOW_MSR: the write bit of one register is cleared, nothing else changes. */
  method AllowMsr(a: array<bv8>, address: nat)
    requires a.Length == PAGE_SIZE && HasBit(address)
    modifies a
    ensures forall other: nat :: WriteExits(a[..], other) <==> other != address && old(WriteExits(a[..], other))
    ensures forall other: nat :: ReadExits(a[..], other) <==> old(ReadExits(a[..], other))
  {
    hide Bit, One, WriteExits, ReadExits;
    ghost var was := a[..];
    if address < VMCS_MSR_BITMAPS_HIGH_BASE {
      var offset, shift := address / 8, address % 8;
      a[VMCS_MSR_BITMAPS_WRITE_LOW + offset] := a[VMCS_MSR_BITMAPS_WRITE_LOW + offset] & !One(shift);
    } else {
      var offset, shift := (address - VMCS_MSR_BITMAPS_HIGH_BASE) / 8, (address - VMCS_MSR_BITMAPS_HIGH_BASE) % 8;
      a[VMCS_MSR_BITMAPS_WRITE_HIGH + offset] := a[VMCS_MSR_BITMAPS_WRITE_HIGH + offset] & !One(shift);
    }
    assert a[..] == Allowed(was, address);
    forall other: nat
      ensures WriteExits(a[..], other) <==> other != address && WriteExits(was, other)
      ensures ReadExits(a[..], other) <==> ReadExits(was, other)
    {
      AllowedOne(was, address, other);
    }
  }

  /** vmx_msr_init_bitmaps: every register that has a bit may be read, and exactly the registers of the
      list may be written, without a VM exit. */
  method InitBitmaps(a: array<bv8>)
    requires a.Length == PAGE_SIZE
    modifies a
    ensures forall address: nat :: address < 0x2000 || 0xC000_0000 <= address < 0xC000_2000 ==>
              && !ReadExits(a[..], address)
              && (!WriteExits(a[..], address) <==> exists m :: Address(m) == address)
              && (!WriteExits(a[..], address) <==>
                    address in {0x8B, 0x1A0, 0xDA0, 0xC000_0080, 0xC000_0100, 0xC000_0101, 0xC000_0102})
  {
    Fill(a, VMCS_MSR_BITMAPS_READ_LOW, PAGE_SIZE / 4, 0);
    Fill(a, VMCS_MSR_BITMAPS_READ_HIGH, PAGE_SIZE / 4, 0);
    Fill(a, VMCS_MSR_BITMAPS_WRITE_LOW, PAGE_SIZE / 4, 0xff);
    Fill(a, VMCS_MSR_BITMAPS_WRITE_HIGH, PAGE_SIZE / 4, 0xff);
    Filled(a[..]);
    hide *;
    for k := 0 to |VMX_MSR_LIST|
      invariant forall address: nat :: HasBit(address) ==> !ReadExits(a[..], address)
      invariant forall address: nat :: WriteExits(a[..], address) <==> !ListedBefore(k, address)
    {
      ListStep(k);
      AllowMsr(a, Address(VMX_MSR_LIST[k]));
    }
    AllListed();
  }

  lemma Filled(b: seq<bv8>)
    requires |b| == PAGE_SIZE
    requires forall k :: 0 <= k < PAGE_SIZE / 2 ==> b[k] == 0
    requires forall k :: PAGE_SIZE / 2 <= k < PAGE_SIZE ==> b[k] == 0xff
    ensures forall address: nat :: HasBit(address) ==> !ReadExits(b, address)
    ensures forall address: nat :: WriteExits(b, address) <==> !ListedBefore(0, address)
  {
    hide HasBit, ByteOf, ShiftOf, One;
    forall j: nat | j < 8
      ensures Bit(0xff, j) && !Bit(0, j)
    {
      Cases(j);
    }
  }

  ghost predicate ListedBefore(k: nat, address: nat)
    requires k <= |VMX_MSR_LIST|
  {
    exists j :: 0 <= j < k && Address(VMX_MSR_LIST[j]) == address
  }

  lemma ListStep(k: nat)
    requires k < |VMX_MSR_LIST|
    ensures HasBit(Address(VMX_MSR_LIST[k]))
    ensures forall address: nat ::
              ListedBefore(k + 1, address) <==> ListedBefore(k, address) || address == Address(VMX_MSR_LIST[k])
  {
    forall address: nat
      ensures ListedBefore(k + 1, address) <==> ListedBefore(k, address) || address == Address(VMX_MSR_LIST[k])
    {
      assert address == Address(VMX_MSR_LIST[k]) ==> ListedBefore(k + 1, address);
    }
  }

  /** The registers that the guest may write. */
  predicate GuestWritable(address: nat) {
    address in {0x8B, 0x1A0, 0xDA0, 0xC000_0080, 0xC000_0100, 0xC000_0101, 0xC000_0102}
  }

  lemma ListedByNumber(address: nat)
    ensures ListedBefore(|VMX_MSR_LIST|, address) <==> GuestWritable(address)
  {
    var addresses := [Address(Efer), Address(FsBase), Address(GsBase), Address(MiscEnable), Address(BiosSignId),
                      Address(Xss), Address(KernelGsBase)];
    assert forall j :: 0 <= j < 7 ==> Address(VMX_MSR_LIST[j]) == addresses[j];
    assert GuestWritable(address) <==> address in addresses;
  }

  lemma AllListed()
    ensures forall address: nat :: ListedBefore(|VMX_MSR_LIST|, address) <==> exists m :: Address(m) == address
    ensures forall address: nat :: ListedBefore(|VMX_MSR_LIST|, address) <==> GuestWritable(address)
  {
    forall address: nat
      ensures ListedBefore(|VMX_MSR_LIST|, address) <==> GuestWritable(address)
    {
      ListedByNumber(address);
    }
    forall m, address: nat | Address(m) == address
      ensures ListedBefore(|VMX_MSR_LIST|, address)
    {
      var j :=
        match m
        case Efer => 0 case FsBase => 1 case GsBase => 2 case MiscEnable => 3 case BiosSignId => 4
        case Xss => 5 case KernelGsBase => 6;
      assert VMX_MSR_LIST[j] == m;
    }
  }

  // --- the switch ------------------------------------------------------------------------------------

  datatype MsrState = MsrState(
    efer: u64, fsBase: u64, gsBase: u64,
    miscEnable: u64, biosSignId: u64, xss: u64, kernelGsBase: u64)
  {
    function Get(m: Msr): u64 {
      match m
      case Efer => efer
      case FsBase => fsBase
      case GsBase => gsBase
      case MiscEnable => miscEnable
      case BiosSignId => biosSignId
      case Xss => xss
      case KernelGsBase => kernelGsBase
    }

    function Put(m: Msr, v: u64): MsrState {
      match m
      case Efer => this.(efer := v)
      case FsBase => this.(fsBase := v)
      case GsBase => this.(gsBase := v)
      case MiscEnable => this.(miscEnable := v)
      case BiosSignId => this.(biosSignId := v)
      case Xss => this.(xss := v)
      case KernelGsBase => this.(kernelGsBase := v)
    }
  }

  /** What happens after the first launch. A guest write is a WRMSR that does not exit. */
  datatype Event =
    | GuestWrites(msr: Msr, value: u64)
    | Exits
    | HostWrites(msr: Msr, value: u64)
    | Resumes

  predicate GuestRuns(run: seq<Event>) {
    if run == [] then true
    else match run[|run| - 1]
      case Exits => false
      case Resumes => true
      case _ => GuestRuns(run[..|run| - 1])
  }

  /** Only the side that runs writes, and only a running guest exits. */
  predicate Possible(run: seq<Event>) {
    forall i :: 0 <= i < |run| ==> (GuestRuns(run[..i]) <==> run[i].GuestWrites? || run[i].Exits?)
  }

  /** The value the guest should see: its last write, or the value it started with. */
  function GuestValue(start: MsrState, run: seq<Event>, m: Msr): u64 {
    if run == [] then start.Get(m)
    else match run[|run| - 1]
      case GuestWrites(m', v) => if m' == m then v else GuestValue(start, run[..|run| - 1], m)
      case _ => GuestValue(start, run[..|run| - 1], m)
  }

  /** The value the host should see. A VM exit loads the registers of the VMCS from its host area. */
  function HostValue(start: MsrState, hostArea: MsrState, run: seq<Event>, m: Msr): u64 {
    if run == [] then start.Get(m)
    else match run[|run| - 1]
      case HostWrites(m', v) => if m' == m then v else HostValue(start, hostArea, run[..|run| - 1], m)
      case Exits => if InVmcs(m) then hostArea.Get(m) else HostValue(start, hostArea, run[..|run| - 1], m)
      case _ => HostValue(start, hostArea, run[..|run| - 1], m)
  }

  /** The start values of the guest: the guest area of the VMCS, and the host's own values for the rest. */
  function GuestStart(host: MsrState, guestArea: MsrState): MsrState {
    host.(efer := guestArea.efer, fsBase := guestArea.fsBase, gsBase := guestArea.gsBase)
  }

  /** GuestValue is the guest's last write, whatever the host wrote since. */
  lemma {:induction false} GuestValueIsLastWrite(start: MsrState, before: seq<Event>, m: Msr, v: u64, after: seq<Event>)
    requires forall e :: e in after ==> !(e.GuestWrites? && e.msr == m)
    ensures GuestValue(start, before + [GuestWrites(m, v)] + after, m) == v
  {
    var run := before + [GuestWrites(m, v)] + after;
    if after == [] {
      assert run == before + [GuestWrites(m, v)];
    } else {
      var shorter := after[..|after| - 1];
      assert run[..|run| - 1] == before + [GuestWrites(m, v)] + shorter;
      assert run[|run| - 1] == after[|after| - 1];
      GuestValueIsLastWrite(start, before, m, v, shorter);
    }
  }

  /** A register that the guest has not written holds the value it had when the guest started. */
  lemma {:induction false} UnwrittenKeepsStart(start: MsrState, run: seq<Event>, m: Msr)
    requires forall e :: e in run ==> !(e.GuestWrites? && e.msr == m)
    ensures GuestValue(start, run, m) == start.Get(m)
  {
    if run != [] {
      UnwrittenKeepsStart(start, run[..|run| - 1], m);
    }
  }

  /** A register that the switch backs up keeps the host's last write, whatever the guest wrote since. */
  lemma {:induction false} HostValueIsLastWrite(start: MsrState, hostArea: MsrState, before: seq<Event>, m: Msr,
                                                v: u64, after: seq<Event>)
    requires !InVmcs(m) && forall e :: e in after ==> !(e.HostWrites? && e.msr == m)
    ensures HostValue(start, hostArea, before + [HostWrites(m, v)] + after, m) == v
  {
    var run := before + [HostWrites(m, v)] + after;
    if after == [] {
      assert run == before + [HostWrites(m, v)];
    } else {
      var shorter := after[..|after| - 1];
      assert run[..|run| - 1] == before + [HostWrites(m, v)] + shorter;
      assert run[|run| - 1] == after[|after| - 1];
      HostValueIsLastWrite(start, hostArea, before, m, v, shorter);
    }
  }

  /** The processor with its VMCS, and the two copies that the hypervisor keeps. */
  class Processor {
    var cpu: MsrState
    /** The guest and host state areas of the VMCS; only the first three registers have a field there. */
    var guestArea: MsrState
    const hostArea: MsrState
    /** The static vmx_msr_host_backup, and the msrs of the state of the current VM exit. */
    var hostBackup: MsrState
    var vmState: MsrState

    constructor (cpu: MsrState, guestArea: MsrState, hostArea: MsrState)
      ensures this.cpu == cpu && this.guestArea == guestArea && this.hostArea == hostArea
    {
      this.cpu, this.guestArea, this.hostArea, this.hostBackup, this.vmState := cpu, guestArea, hostArea, cpu, cpu;
    }

    // What the processor does on VM entry and VM exit.

    method HardwareEntry()
      modifies this`cpu
      ensures forall m :: cpu.Get(m) == if InVmcs(m) then guestArea.Get(m) else old(cpu).Get(m)
    {
      cpu := cpu.(efer := guestArea.efer, fsBase := guestArea.fsBase, gsBase := guestArea.gsBase);
    }

    method HardwareExit()
      modifies this`cpu, this`guestArea
      ensures forall m :: cpu.Get(m) == if InVmcs(m) then hostArea.Get(m) else old(cpu).Get(m)
      ensures forall m :: guestArea.Get(m) == if InVmcs(m) then old(cpu).Get(m) else old(guestArea).Get(m)
    {
      guestArea := guestArea.(efer := cpu.efer, fsBase := cpu.fsBase, gsBase := cpu.gsBase);
      cpu := cpu.(efer := hostArea.efer, fsBase := hostArea.fsBase, gsBase := hostArea.gsBase);
    }

    /** vmx_msr_vmlaunch. */
    method VmLaunch()
      modifies this`hostBackup
      ensures forall m :: !InVmcs(m) ==> hostBackup.Get(m) == cpu.Get(m)
    {
      hostBackup := hostBackup.(miscEnable := cpu.miscEnable);
      hostBackup := hostBackup.(biosSignId := cpu.biosSignId);
      hostBackup := hostBackup.(xss := cpu.xss);
      hostBackup := hostBackup.(kernelGsBase := cpu.kernelGsBase);
    }

    /** vmx_msr_vmexit. */
    method VmExit()
      modifies this`vmState, this`cpu
      ensures forall m :: vmState.Get(m) == if InVmcs(m) then guestArea.Get(m) else old(cpu).Get(m)
      ensures forall m :: cpu.Get(m) == if InVmcs(m) then old(cpu).Get(m) else hostBackup.Get(m)
    {
      vmState := vmState.(efer := guestArea.efer);
      vmState := vmState.(fsBase := guestArea.fsBase);
      vmState := vmState.(gsBase := guestArea.gsBase);
      vmState := vmState.(miscEnable := cpu.miscEnable);
      cpu := cpu.(miscEnable := hostBackup.miscEnable);
      vmState := vmState.(biosSignId := cpu.biosSignId);
      cpu := cpu.(biosSignId := hostBackup.biosSignId);
      vmState := vmState.(xss := cpu.xss);
      cpu := cpu.(xss := hostBackup.xss);
      vmState := vmState.(kernelGsBase := cpu.kernelGsBase);
      cpu := cpu.(kernelGsBase := hostBackup.kernelGsBase);
    }

    /** vmx_msr_vmresume. */
    method VmResume()
      modifies this`guestArea, this`hostBackup, this`cpu
      ensures forall m :: guestArea.Get(m) == if InVmcs(m) then vmState.Get(m) else old(guestArea).Get(m)
      ensures forall m :: hostBackup.Get(m) == if InVmcs(m) then old(hostBackup).Get(m) else old(cpu).Get(m)
      ensures forall m :: cpu.Get(m) == if InVmcs(m) then old(cpu).Get(m) else vmState.Get(m)
    {
      guestArea := guestArea.(efer := vmState.efer);
      guestArea := guestArea.(fsBase := vmState.fsBase);
      guestArea := guestArea.(gsBase := vmState.gsBase);
      hostBackup := hostBackup.(miscEnable := cpu.miscEnable);
      cpu := cpu.(miscEnable := vmState.miscEnable);
      hostBackup := hostBackup.(biosSignId := cpu.biosSignId);
      cpu := cpu.(biosSignId := vmState.biosSignId);
      hostBackup := hostBackup.(xss := cpu.xss);
      cpu := cpu.(xss := vmState.xss);
      hostBackup := hostBackup.(kernelGsBase := cpu.kernelGsBase);
      cpu := cpu.(kernelGsBase := vmState.kernelGsBase);
    }

    /** Where the two sets of values are: the running side's in the processor, the other's saved. */
    ghost predicate Holds(start: MsrState, guestStart: MsrState, run: seq<Event>)
      reads this
    {
      if GuestRuns(run) then
        && (forall m :: cpu.Get(m) == GuestValue(guestStart, run, m))
        && (forall m :: !InVmcs(m) ==> hostBackup.Get(m) == HostValue(start, hostArea, run, m))
      else
        && (forall m :: cpu.Get(m) == HostValue(start, hostArea, run, m))
        && (forall m :: vmState.Get(m) == GuestValue(guestStart, run, m))
    }

    /** Launch the guest, then let any possible sequence of writes, exits and resumes happen: at its end the
        side that runs reads its own values, whatever the other side wrote. */
    method Run(run: seq<Event>)
      requires Possible(run)
      modifies this
      ensures var start, guestStart := old(cpu), GuestStart(old(cpu), old(guestArea));
              forall m ::
                cpu.Get(m)
                == if GuestRuns(run) then GuestValue(guestStart, run, m) else HostValue(start, hostArea, run, m)
    {
      ghost var start, guestStart := cpu, GuestStart(cpu, guestArea);
      VmLaunch();
      HardwareEntry();
      for i := 0 to |run|
        invariant Holds(start, guestStart, run[..i])
      {
        assert run[..i + 1][..i] == run[..i];
        Step(start, guestStart, run[..i], run[i]);
        assert run[..i] + [run[i]] == run[..i + 1];
      }
      assert run[..|run|] == run;
    }

    method Step(ghost start: MsrState, ghost guestStart: MsrState, ghost run: seq<Event>, e: Event)
      requires Holds(start, guestStart, run)
      requires GuestRuns(run) <==> e.GuestWrites? || e.Exits?
      modifies this
      ensures Holds(start, guestStart, run + [e])
    {
      assert (run + [e])[..|run|] == run;
      match e
      case GuestWrites(m, v) =>
        cpu := cpu.Put(m, v);
      case HostWrites(m, v) =>
        cpu := cpu.Put(m, v);
      case Exits =>
        HardwareExit();
        VmExit();
      case Resumes =>
        VmResume();
        HardwareEntry();
    }
  }
}
