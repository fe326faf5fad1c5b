/** The page-wise copy of a kernel to guest memory (hv/src/vmm/guest_linux_loader.c). Each page is copied to the
    host address behind its guest address; what does not fit in that host page goes to the next physical page. */
module KernelCopy {
  import opened Bits
  import opened Paging
  import opened PhysicalMemory
  import opened Bytes
  import opened RadixTree
  import opened Outcomes
  import opened HypervisorState
  import opened EptMapping
  import opened GuestMemoryAllocation
  import opened GuestPaging

  function PagesOf(size: nat): nat {
    size / PAGE_SIZE + if size % PAGE_SIZE == 0 then 0 else 1
  }

  /** The bytes that one turn of the loop copies. */
  function KernelPage(kernel: seq<u8>, j: nat): (r: seq<u8>)
    requires j < PagesOf(|kernel|)
    ensures 0 < |r| <= PAGE_SIZE && j * PAGE_SIZE + |r| <= |kernel|
    ensures r == kernel[j * PAGE_SIZE..j * PAGE_SIZE + |r|]
    ensures |r| == PAGE_SIZE || j * PAGE_SIZE + |r| == |kernel|
  {
    kernel[j * PAGE_SIZE..
           j * PAGE_SIZE
           + if j < PagesOf(|kernel|) - 1 || |kernel| % PAGE_SIZE == 0 then PAGE_SIZE else |kernel| % PAGE_SIZE]
  }

  function PageAddress(address: u64, j: nat): u64 {
    (address + j * PAGE_SIZE) % TWO_64
  }

  /** What n turns of the loop leave in memory, or None when a guest page is not mapped. */
  function CopyPages(m: Memory, initialized: bool, eptp: nat, address: u64, kernel: seq<u8>, n: nat): Option<Memory>
    requires n <= PagesOf(|kernel|)
  {
    if n == 0 then Some(m)
    else
      match CopyPages(m, initialized, eptp, address, kernel, n - 1)
      case None => None
      case Some(m1) =>
        match GetHostPhysicalAddress(m1, initialized, eptp, PageAddress(address, n - 1))
        case None => None
        case Some(pa) => Some(WriteBytes(m1, pa, KernelPage(kernel, n - 1)))
  }

  // --- when the copy stays in the guest's pages ------------------------------------------------------

  /** The kernel starts at a page, or ends in the page it starts in. */
  predicate Contained(address: u64, size: nat) {
    address % PAGE_SIZE == 0 || InOnePage(address, size)
  }

  /** No turn of the loop leaves its page, exactly for such kernels. */
  lemma ContainedCopies(address: u64, kernel: seq<u8>)
    ensures Contained(address, |kernel|) <==>
            forall j: nat :: j < PagesOf(|kernel|) ==> InOnePage(PageAddress(address, j), |KernelPage(kernel, j)|)
  {
    hide KernelPage, PageAddress;
    if Contained(address, |kernel|) {
      forall j: nat | j < PagesOf(|kernel|)
        ensures InOnePage(PageAddress(address, j), |KernelPage(kernel, j)|)
      {
        TurnStays(address, kernel, j);
      }
    } else {
      PageAddressAt(address, 0);
      assert !InOnePage(PageAddress(address, 0), |KernelPage(kernel, 0)|);
    }
  }

  lemma PageAddressAt(address: u64, j: nat)
    ensures PageAddress(address, j) % PAGE_SIZE == address % PAGE_SIZE
    ensures PageAddress(address, 0) == address
  {
    var x := address + j * PAGE_SIZE;
    assert x == x / TWO_64 * TWO_64 + x % TWO_64;
    RemainderIs(x, PAGE_SIZE, x / TWO_64 * 0x10_0000_0000_0000 + x % TWO_64 / PAGE_SIZE, x % TWO_64 % PAGE_SIZE);
    RemainderIs(x, PAGE_SIZE, address / PAGE_SIZE + j, address % PAGE_SIZE);
  }

  lemma TurnStays(address: u64, kernel: seq<u8>, j: nat)
    requires Contained(address, |kernel|) && j < PagesOf(|kernel|)
    ensures InOnePage(PageAddress(address, j), |KernelPage(kernel, j)|)
    ensures address % PAGE_SIZE != 0 ==> j == 0
  {
    hide KernelPage, PageAddress;
    PageAddressAt(address, j);
  }

  /** Contained, and not wrapping around the end of the 48-bit guest space. */
  predicate Placed(address: u64, size: nat) {
    Contained(address, size) && address % SPACE + size <= SPACE
  }

  // --- what a contained copy does ----------------------------------------------------------------------

  /** The byte the guest reads at a guest-physical address. */
  function GuestByte(m: Memory, initialized: bool, eptp: nat, g: nat): Option<u8> {
    match GetHostPhysicalAddress(m, initialized, eptp, g)
    case None => None
    case Some(pa) => Some(ByteAt(m, pa))
  }

  function FirstPage(address: u64): nat {
    address % SPACE / PAGE_SIZE
  }

  /** A host page behind one of n guest pages from first on. */
  ghost predicate KernelHost(hosts: seq<nat>, first: nat, n: nat, p: nat) {
    exists k :: first <= k < first + n && k < |hosts| && hosts[k] == p
  }

  ghost predicate OnlyKernelPages(m: Memory, m': Memory, hosts: seq<nat>, first: nat, n: nat) {
    forall p: nat :: !KernelHost(hosts, first, n, p) ==> SameAt(m, m', p)
  }

  /** The guest reads the first bytes of the kernel at its address. */
  ghost predicate ReadableUpTo(s: Snapshot, address: u64, kernel: seq<u8>, size: nat) {
    forall k: nat :: k < size && k < |kernel| ==>
      GuestByte(s.memory, s.initialized, s.eptp, address + k) == Some(kernel[k])
  }

  ghost predicate EptIs(id: nat, s: Snapshot) {
    EptOk(s.initialized, s.eptp, s.tables, id, s.memory, s.owner)
  }

  /** Writes to the host pages of a machine keep its mappings. */
  lemma ReadyKept(id: nat, hosts: seq<nat>, s: Snapshot, m': Memory)
    requires EptIs(id, s) && GuestReady(id, hosts, s) && forall p: nat :: p !in hosts ==> SameAt(s.memory, m', p)
    ensures EptIs(id, s.(memory := m')) && GuestReady(id, hosts, s.(memory := m'))
  {
    hide Lookup, Tree, Grants;
    if s.initialized {
      forall n | n in s.tables
        ensures SameAt(s.memory, m', s.tables[n])
      {
        assert Owns(s.owner, LiveEpt(id), s.tables[n]);
        assert Owns(s.owner, GuestMemory(id), s.tables[n]) <==> s.tables[n] in hosts;
      }
      TreeFrame(s.memory, m', s.tables);
      GrantsFrame(s.memory, m', s.tables);
    }
    forall a: nat | a < SPACE
      ensures Mapping(s.(memory := m'), a) == Mapping(s, a)
    {
    }
  }

  /** Guest byte address + k lies behind host page first + (offset + k) / PAGE_SIZE. */
  lemma HostOfByte(id: nat, hosts: seq<nat>, s: Snapshot, address: u64, k: nat)
    requires GuestReady(id, hosts, s) && address % SPACE + k < SPACE
    ensures var page := FirstPage(address) + (address % PAGE_SIZE + k) / PAGE_SIZE;
            GetHostPhysicalAddress(s.memory, s.initialized, s.eptp, address + k)
            == if page < |hosts| then Some(hosts[page] + (address % PAGE_SIZE + k) % PAGE_SIZE) else None
  {
    hide GuestReady, GetHostPhysicalAddress;
    HostOfReady(id, hosts, s, address + k);
    ByteIndex(address, k);
  }

  lemma ByteIndex(address: u64, k: nat)
    requires address % SPACE + k < SPACE
    ensures (address + k) % SPACE / PAGE_SIZE == FirstPage(address) + (address % PAGE_SIZE + k) / PAGE_SIZE
    ensures (address + k) % PAGE_SIZE == (address % PAGE_SIZE + k) % PAGE_SIZE
  {
    var q, a, x := address / SPACE, address % SPACE, address % PAGE_SIZE + k;
    RemainderIs(address, PAGE_SIZE, q * 0x10_0000_0000 + a / PAGE_SIZE, a % PAGE_SIZE);
    RemainderIs(address + k, SPACE, q, a + k);
    RemainderIs(a + k, PAGE_SIZE, a / PAGE_SIZE + x / PAGE_SIZE, x % PAGE_SIZE);
    RemainderIs(address + k, PAGE_SIZE, address / PAGE_SIZE + x / PAGE_SIZE, x % PAGE_SIZE);
  }

  /** Where one turn of the loop writes. */
  lemma TurnHost(id: nat, hosts: seq<nat>, s: Snapshot, address: u64, kernel: seq<u8>, j: nat)
    requires GuestReady(id, hosts, s) && Placed(address, |kernel|) && j < PagesOf(|kernel|)
    ensures var page := FirstPage(address) + j;
            GetHostPhysicalAddress(s.memory, s.initialized, s.eptp, PageAddress(address, j))
            == if page < |hosts| then Some(hosts[page] + address % PAGE_SIZE) else None
    ensures FirstPage(address) + j < |hosts| ==> hosts[FirstPage(address) + j] % PAGE_SIZE == 0
    ensures address % PAGE_SIZE + |KernelPage(kernel, j)| <= PAGE_SIZE
    ensures address % PAGE_SIZE != 0 ==> j == 0
  {
    hide GetHostPhysicalAddress, KernelPage, Mapping;
    TurnStays(address, kernel, j);
    PageAddressAt(address, j);
    HostOfReady(id, hosts, s, PageAddress(address, j));
    TurnIndex(address, j);
  }

  lemma TurnIndex(address: u64, j: nat)
    requires address % SPACE + j * PAGE_SIZE < SPACE
    ensures PageAddress(address, j) % SPACE / PAGE_SIZE == FirstPage(address) + j
  {
    var x := address + j * PAGE_SIZE;
    RemainderIs(x, SPACE, address / SPACE, address % SPACE + j * PAGE_SIZE);
    RemainderIs(x, SPACE, x / TWO_64 * 0x1_0000 + x % TWO_64 / SPACE, x % TWO_64 % SPACE);
    RemainderIs(address % SPACE + j * PAGE_SIZE, PAGE_SIZE, FirstPage(address) + j, address % SPACE % PAGE_SIZE);
  }

  /** One turn of the loop makes one page more readable and changes its host page only. */
  lemma TurnCopies(id: nat, hosts: seq<nat>, s: Snapshot, s1: Snapshot, address: u64, kernel: seq<u8>, j: nat,
                   s2: Snapshot)
    requires GuestReady(id, hosts, s1) && GuestReady(id, hosts, s2) && s2.initialized == s1.initialized
             && s2.eptp == s1.eptp
    requires Placed(address, |kernel|) && j < PagesOf(|kernel|) && FirstPage(address) + j < |hosts|
    requires OnlyKernelPages(s.memory, s1.memory, hosts, FirstPage(address), j)
    requires ReadableUpTo(s1, address, kernel, j * PAGE_SIZE)
    requires s2.memory == WriteBytes(s1.memory, hosts[FirstPage(address) + j] + address % PAGE_SIZE,
                                     KernelPage(kernel, j))
    ensures OnlyKernelPages(s.memory, s2.memory, hosts, FirstPage(address), j + 1)
    ensures ReadableUpTo(s2, address, kernel, (j + 1) * PAGE_SIZE)
  {
    hide GetHostPhysicalAddress, KernelPage, WriteBytes, GuestReady;
    TurnHost(id, hosts, s1, address, kernel, j);
    var host := hosts[FirstPage(address) + j];
    RemainderIs(host + address % PAGE_SIZE, PAGE_SIZE, host / PAGE_SIZE, address % PAGE_SIZE);
    StaysInPage(s1.memory, host + address % PAGE_SIZE, KernelPage(kernel, j));
    forall p: nat | !KernelHost(hosts, FirstPage(address), j + 1, p)
      ensures SameAt(s.memory, s2.memory, p)
    {
      assert p != host && !KernelHost(hosts, FirstPage(address), j, p);
      assert SameAt(s.memory, s1.memory, p) && SameAt(s1.memory, s2.memory, p);
    }
    forall k: nat | k < (j + 1) * PAGE_SIZE && k < |kernel|
      ensures GuestByte(s2.memory, s2.initialized, s2.eptp, address + k) == Some(kernel[k])
    {
      ByteAfterTurn(id, hosts, s1, address, kernel, j, s2, k);
    }
  }

  ghost predicate Turn(id: nat, hosts: seq<nat>, s1: Snapshot, address: u64, kernel: seq<u8>, j: nat, s2: Snapshot) {
    && GuestReady(id, hosts, s1) && GuestReady(id, hosts, s2) && s2.initialized == s1.initialized && s2.eptp == s1.eptp
    && Placed(address, |kernel|) && j < PagesOf(|kernel|) && FirstPage(address) + j < |hosts|
    && s2.memory == WriteBytes(s1.memory, hosts[FirstPage(address) + j] + address % PAGE_SIZE, KernelPage(kernel, j))
  }

  lemma ByteAfterTurn(id: nat, hosts: seq<nat>, s1: Snapshot, address: u64, kernel: seq<u8>, j: nat, s2: Snapshot,
                      k: nat)
    requires Turn(id, hosts, s1, address, kernel, j, s2) && k < (j + 1) * PAGE_SIZE && k < |kernel|
    requires ReadableUpTo(s1, address, kernel, j * PAGE_SIZE)
    ensures GuestByte(s2.memory, s2.initialized, s2.eptp, address + k) == Some(kernel[k])
  {
    hide GuestByte, Turn;
    if k < j * PAGE_SIZE {
      EarlierByteStays(id, hosts, s1, address, kernel, j, s2, k);
    } else {
      NewByteReadable(id, hosts, s1, address, kernel, j, s2, k);
    }
  }

  lemma EarlierByteStays(id: nat, hosts: seq<nat>, s1: Snapshot, address: u64, kernel: seq<u8>, j: nat, s2: Snapshot,
                         k: nat)
    requires Turn(id, hosts, s1, address, kernel, j, s2) && k < j * PAGE_SIZE && k < |kernel|
    ensures GuestByte(s2.memory, s2.initialized, s2.eptp, address + k)
            == GuestByte(s1.memory, s1.initialized, s1.eptp, address + k)
  {
    hide GetHostPhysicalAddress, KernelPage, WriteBytes, Mapping, ByteAt;
    TurnHost(id, hosts, s1, address, kernel, j);
    HostOfByte(id, hosts, s1, address, k);
    HostOfByte(id, hosts, s2, address, k);
    var page, host := FirstPage(address) + k / PAGE_SIZE, hosts[FirstPage(address) + j];
    assert hosts[page] != host && hosts[page] % PAGE_SIZE == 0;
    WrittenBytes(s1.memory, host, KernelPage(kernel, j), hosts[page] + k % PAGE_SIZE);
    OtherPage(hosts[page], host, k % PAGE_SIZE, 0, |KernelPage(kernel, j)|);
  }

  lemma NewByteReadable(id: nat, hosts: seq<nat>, s1: Snapshot, address: u64, kernel: seq<u8>, j: nat, s2: Snapshot,
                        k: nat)
    requires Turn(id, hosts, s1, address, kernel, j, s2) && j * PAGE_SIZE <= k < (j + 1) * PAGE_SIZE && k < |kernel|
    ensures GuestByte(s2.memory, s2.initialized, s2.eptp, address + k) == Some(kernel[k])
  {
    hide GetHostPhysicalAddress, KernelPage, WriteBytes, GuestReady, ByteAt;
    TurnHost(id, hosts, s1, address, kernel, j);
    HostOfByte(id, hosts, s2, address, k);
    var offset, t := address % PAGE_SIZE, k - j * PAGE_SIZE;
    assert offset + t < PAGE_SIZE;
    RemainderIs(offset + k, PAGE_SIZE, j, offset + t);
    var host := hosts[FirstPage(address) + j];
    WrittenBytes(s1.memory, host + offset, KernelPage(kernel, j), host + offset + t);
    assert KernelPage(kernel, j)[t] == kernel[k];
  }

  lemma OtherPage(p: nat, q: nat, x: nat, y: nat, size: nat)
    requires p % PAGE_SIZE == 0 && q % PAGE_SIZE == 0 && p != q && x < PAGE_SIZE && y + size <= PAGE_SIZE
    ensures !(q + y <= p + x < q + y + size)
  {
  }

  /** The copy, turn by turn: it gets through exactly as long as the guest pages exist; the guest then reads the
      kernel at its address, and only the host pages behind those guest pages were written. */
  lemma {:induction false} CopySucceeds(id: nat, hosts: seq<nat>, s: Snapshot, address: u64, kernel: seq<u8>, n: nat)
    requires EptIs(id, s) && GuestReady(id, hosts, s) && Placed(address, |kernel|) && n <= PagesOf(|kernel|)
    ensures var copied := CopyPages(s.memory, s.initialized, s.eptp, address, kernel, n);
            && (copied.Some? <==> n == 0 || FirstPage(address) + n <= |hosts|)
            && (copied.Some? ==>
                  && OnlyKernelPages(s.memory, copied.value, hosts, FirstPage(address), n)
                  && GuestReady(id, hosts, s.(memory := copied.value))
                  && ReadableUpTo(s.(memory := copied.value), address, kernel, n * PAGE_SIZE))
  {
    hide GetHostPhysicalAddress, KernelPage, WriteBytes, GuestReady, EptIs, PagesOf;
    if n > 0 {
      CopySucceeds(id, hosts, s, address, kernel, n - 1);
      var before := CopyPages(s.memory, s.initialized, s.eptp, address, kernel, n - 1);
      if before.Some? {
        var s1 := s.(memory := before.value);
        TurnHost(id, hosts, s1, address, kernel, n - 1);
        if FirstPage(address) + n <= |hosts| {
          var pa := hosts[FirstPage(address) + n - 1] + address % PAGE_SIZE;
          var m2 := WriteBytes(before.value, pa, KernelPage(kernel, n - 1));
          TurnStaysReady(id, hosts, s, s1, address, kernel, n - 1, m2);
          TurnCopies(id, hosts, s, s1, address, kernel, n - 1, s.(memory := m2));
        }
      }
    }
  }

  lemma TurnStaysReady(id: nat, hosts: seq<nat>, s: Snapshot, s1: Snapshot, address: u64, kernel: seq<u8>, j: nat,
                       m2: Memory)
    requires EptIs(id, s) && GuestReady(id, hosts, s) && GuestReady(id, hosts, s1) && s1 == s.(memory := s1.memory)
    requires Placed(address, |kernel|) && j < PagesOf(|kernel|) && FirstPage(address) + j < |hosts|
    requires OnlyKernelPages(s.memory, s1.memory, hosts, FirstPage(address), j)
    requires m2 == WriteBytes(s1.memory, hosts[FirstPage(address) + j] + address % PAGE_SIZE, KernelPage(kernel, j))
    ensures GuestReady(id, hosts, s.(memory := m2))
  {
    hide GetHostPhysicalAddress, KernelPage, WriteBytes, GuestReady, EptIs;
    TurnHost(id, hosts, s1, address, kernel, j);
    var host := hosts[FirstPage(address) + j];
    RemainderIs(host + address % PAGE_SIZE, PAGE_SIZE, host / PAGE_SIZE, address % PAGE_SIZE);
    StaysInPage(s1.memory, host + address % PAGE_SIZE, KernelPage(kernel, j));
    forall p: nat | p !in hosts
      ensures SameAt(s.memory, m2, p)
    {
      assert !KernelHost(hosts, FirstPage(address), j, p) && p != host;
      assert SameAt(s.memory, s1.memory, p) && SameAt(s1.memory, m2, p);
    }
    ReadyKept(id, hosts, s, m2);
  }
}
