/** Page-table entries as the boot loader, the EPT and the guest setup write them. */
module PageTableEntries {
  import opened Bits
  import opened Paging

  const EPT_READ: nat := 0x1
  const EPT_WRITE: nat := 0x2
  const EPT_EXECUTE: nat := 0x4

  /** PRESENT | READ_WRITE | (page & PHYSICAL_ADDRESS): a link to a table. */
  function TableEntry(page: nat): (e: u64)
    ensures Present(e) && !Large(e) && Writable(e) && !NoExecute(e) && Base(e) == Base(page)
  {
    TableFlags();
    EntryEncodes(3, page, 0);
    Or(Or(PTE_PRESENT, PTE_READ_WRITE), And(page, PTE_PHYSICAL_ADDRESS_PAGE))
  }

  lemma TableFlags()
    ensures Or(PTE_PRESENT, PTE_READ_WRITE) == 3
  {
  }

  /** What an access may do. */
  datatype Rights = Rights(read: bool, write: bool, execute: bool)

  const ALL_RIGHTS: Rights := Rights(true, true, true)

  /** The rights in an EPT entry (section 29.3.2 of the Intel SDM, volume 3): bits 0, 1 and 2. */
  function EntryRights(e: nat): Rights {
    Rights(e % 2 == 1, e / 2 % 2 == 1, e / 4 % 2 == 1)
  }

  /** READ | WRITE | EXECUTE | (page & PHYSICAL_ADDRESS). */
  function EptEntry(page: nat): (e: u64)
    ensures Present(e) && !Large(e) && Writable(e) && !NoExecute(e) && Base(e) == Base(page)
    ensures EntryRights(e) == ALL_RIGHTS
  {
    EptFlags();
    EntryEncodes(7, page, 0);
    FlagsAreRights(7, page, 0);
    Or(Or(Or(EPT_READ, EPT_WRITE), EPT_EXECUTE), And(page, PTE_PHYSICAL_ADDRESS_PAGE))
  }

  lemma FlagsAreRights(flags: nat, address: nat, level: nat)
    requires level <= 2
    ensures EntryRights(flags + BaseAt(address, level)) == EntryRights(flags)
  {
    hide BaseAt, EntryRights;
    BaseIsAligned(address, level);
    LowBitsAreRights(flags, BaseAt(address, level) / PAGE_SIZE);
  }

  lemma LowBitsAreRights(flags: nat, c: nat)
    ensures EntryRights(flags + c * PAGE_SIZE) == EntryRights(flags)
  {
    var x := flags + c * PAGE_SIZE;
    RemainderIs(x, 2, flags / 2 + c * 0x800, flags % 2);
    RemainderIs(x / 2, 2, flags / 2 / 2 + c * 0x400, flags / 2 % 2);
    RemainderIs(x, 4, flags / 4 + c * 0x400, flags % 4);
    RemainderIs(x / 4, 2, flags / 4 / 2 + c * 0x200, flags / 4 % 2);
  }

  lemma EptFlags()
    ensures Or(Or(EPT_READ, EPT_WRITE), EPT_EXECUTE) == 7
  {
    assert Or(EPT_READ, EPT_WRITE) == 3;
  }

  /** PRESENT | READ_WRITE | PAGE_SIZE | ((k << D_SHIFT) & PHYSICAL_ADDRESS): the k-th 2 MiB page. */
  function LargeEntry(k: nat): (e: u64)
    requires k < 0x4_0000
    ensures Present(e) && Large(e) && Writable(e) && !NoExecute(e) && BaseAt(e, 1) == k * 0x20_0000
  {
    LargeEncodes(k);
    Or(Or(Or(PTE_PRESENT, PTE_READ_WRITE), PDE_PAGE_SIZE), And(ShiftLeft(k, 21), PDE_PHYSICAL_ADDRESS_PAGE))
  }

  lemma LargeEncodes(k: nat)
    requires k < 0x4_0000
    ensures var e := Or(Or(Or(PTE_PRESENT, PTE_READ_WRITE), PDE_PAGE_SIZE),
                        And(ShiftLeft(k, 21), PDE_PHYSICAL_ADDRESS_PAGE));
            e < TWO_64 && Present(e) && Large(e) && Writable(e) && !NoExecute(e) && BaseAt(e, 1) == k * 0x20_0000
  {
    hide And, Or, Pow2, ShiftLeft;
    LargeFlags();
    PowersOfTwo();
    ShiftLeftMultiplies(k, 21);
    EntryEncodes(0x83, k * 0x20_0000, 1);
    assert k * 0x20_0000 / 0x20_0000 == k;
  }

  lemma LargeFlags()
    ensures Or(Or(PTE_PRESENT, PTE_READ_WRITE), PDE_PAGE_SIZE) == 0x83
  {
    TableFlags();
    OrStep(3, 0x80);
    OrStep(1, 0x40);
  }

  /** One bit of an or. */
  lemma OrStep(x: nat, y: nat)
    ensures Or(x, y) == (if x % 2 == 1 || y % 2 == 1 then 1 else 0) + 2 * Or(x / 2, y / 2)
  {
  }
}
