/** The constants and macros shared by every page-table tree of rkhv: index and offset
    extraction, entry flags and address masks, and what they mean arithmetically. */
module Paging {
  import opened Bits

  const PAGE_SIZE: nat := 0x1000
  const PAGE_TABLE_ENTRIES: nat := 512
  const PAGE_MASK: nat := 0xffff_ffff_ffff_f000

  const LINEAR_ADDRESS_PML4_MASK: nat := 0x0000_ff80_0000_0000
  const LINEAR_ADDRESS_DP_MASK: nat := 0x0000_007f_c000_0000
  const LINEAR_ADDRESS_D_MASK: nat := 0x0000_0000_3fe0_0000
  const LINEAR_ADDRESS_TABLE_MASK: nat := 0x0000_0000_001f_f000
  const LINEAR_ADDRESS_OFFSET_MASK: nat := 0x0000_0000_0000_0fff

  // Flag and address bits. EPT entries use the same positions for the bits that matter here:
  // EPT_*_READ is PTE_PRESENT, EPT_*_WRITE is PTE_READ_WRITE, EPT_PDE_PAGE_SIZE is PDE_PAGE_SIZE.
  const PTE_PRESENT: nat := 0x1
  const PTE_READ_WRITE: nat := 0x2
  const PDE_PAGE_SIZE: nat := 0x80
  const PTE_EXECUTE_DISABLE: nat := 0x8000_0000_0000_0000
  const PTE_PHYSICAL_ADDRESS_PAGE: nat := 0x000f_ffff_ffff_f000
  const PDE_PHYSICAL_ADDRESS_PAGE: nat := 0x000f_ffff_ffe0_0000
  const PDPTE_PHYSICAL_ADDRESS_PAGE: nat := 0x000f_ffff_c000_0000

  /** A tree has levels 3 (PML4), 2 (PDPT), 1 (PD) and 0 (PT); an entry of level k covers
      Span(k) bytes, and a whole tree Span(4) = SPACE bytes. */
  const SPACE: nat := 0x1_0000_0000_0000

  function Span(level: nat): (r: nat)
    requires level <= 4
    ensures r > 0
  {
    if level == 0 then 0x1000
    else if level == 1 then 0x20_0000
    else if level == 2 then 0x4000_0000
    else if level == 3 then 0x80_0000_0000
    else SPACE
  }

  function Index(a: nat, level: nat): (i: nat)
    requires level <= 3
    ensures i < PAGE_TABLE_ENTRIES
  {
    a / Span(level) % PAGE_TABLE_ENTRIES
  }

  // The fields of an entry, as numbers.
  predicate Present(e: nat) { e % 2 == 1 }
  predicate Writable(e: nat) { e / 2 % 2 == 1 }
  predicate Large(e: nat) { e / 0x80 % 2 == 1 }
  predicate NoExecute(e: nat) { e / 0x8000_0000_0000_0000 % 2 == 1 }

  /** The base address held by an entry that maps a page of Span(level) bytes. */
  function BaseAt(e: nat, level: nat): nat
    requires level <= 2
  {
    if level == 0 then e / 0x1000 % 0x100_0000_0000 * 0x1000
    else if level == 1 then e / 0x20_0000 % 0x8000_0000 * 0x20_0000
    else e / 0x4000_0000 % 0x40_0000 * 0x4000_0000
  }

  function Base(e: nat): nat { BaseAt(e, 0) }

  predicate IsPage(pa: nat) { pa % PAGE_SIZE == 0 && pa < 0x10_0000_0000_0000 }

  lemma PowersOfTwo()
    ensures Pow2(0) == 1 && Pow2(1) == 2 && Pow2(7) == 0x80 && Pow2(9) == 512 && Pow2(12) == 0x1000
    ensures Pow2(21) == 0x20_0000 && Pow2(22) == 0x40_0000 && Pow2(30) == 0x4000_0000
    ensures Pow2(31) == 0x8000_0000 && Pow2(39) == 0x80_0000_0000 && Pow2(40) == 0x100_0000_0000
  {
  }

  lemma TopBit()
    ensures Pow2(63) == 0x8000_0000_0000_0000
  {
    PowersOfTwo();
    Pow2Adds(31, 31);
    Pow2Adds(62, 1);
  }

  lemma IndexMasks()
    ensures Mask(39, 9) == LINEAR_ADDRESS_PML4_MASK
    ensures Mask(30, 9) == LINEAR_ADDRESS_DP_MASK
    ensures Mask(21, 9) == LINEAR_ADDRESS_D_MASK
    ensures Mask(12, 9) == LINEAR_ADDRESS_TABLE_MASK
    ensures Mask(0, 12) == LINEAR_ADDRESS_OFFSET_MASK
  {
    PowersOfTwo();
    MaskIs(39, 9);
    MaskIs(30, 9);
    MaskIs(21, 9);
    MaskIs(12, 9);
  }

  lemma EntryMasks()
    ensures Mask(0, 1) == PTE_PRESENT && Mask(1, 1) == PTE_READ_WRITE
    ensures Mask(7, 1) == PDE_PAGE_SIZE && Mask(63, 1) == PTE_EXECUTE_DISABLE
    ensures Mask(12, 40) == PTE_PHYSICAL_ADDRESS_PAGE
    ensures Mask(21, 31) == PDE_PHYSICAL_ADDRESS_PAGE
    ensures Mask(30, 22) == PDPTE_PHYSICAL_ADDRESS_PAGE
  {
    PowersOfTwo();
    TopBit();
    MaskIs(63, 1);
    MaskIs(12, 40);
    MaskIs(21, 31);
    MaskIs(30, 22);
  }

  // The index macros: mask, then shift. Their contracts say which field they select.

  function GetPml4(x: nat): (r: nat)
    ensures r == Index(x, 3)
  {
    MacroSelects(x, 39, 9);
    ShiftRight(And(x, LINEAR_ADDRESS_PML4_MASK), 39)
  }

  function GetDirectoryPtr(x: nat): (r: nat)
    ensures r == Index(x, 2)
  {
    MacroSelects(x, 30, 9);
    ShiftRight(And(x, LINEAR_ADDRESS_DP_MASK), 30)
  }

  function GetDirectory(x: nat): (r: nat)
    ensures r == Index(x, 1)
  {
    MacroSelects(x, 21, 9);
    ShiftRight(And(x, LINEAR_ADDRESS_D_MASK), 21)
  }

  function GetTable(x: nat): (r: nat)
    ensures r == Index(x, 0)
  {
    MacroSelects(x, 12, 9);
    ShiftRight(And(x, LINEAR_ADDRESS_TABLE_MASK), 12)
  }

  function GetOffset(x: nat): (r: nat)
    ensures r == x % PAGE_SIZE
  {
    MacroSelects(x, 0, 12);
    AndLow(x, 12);
    And(x, LINEAR_ADDRESS_OFFSET_MASK)
  }

  lemma MacroSelects(x: nat, lo: nat, n: nat)
    requires (lo in {12, 21, 30, 39} && n == 9) || (lo == 0 && n == 12)
    ensures Mask(39, 9) == LINEAR_ADDRESS_PML4_MASK && Mask(30, 9) == LINEAR_ADDRESS_DP_MASK
    ensures Mask(21, 9) == LINEAR_ADDRESS_D_MASK && Mask(12, 9) == LINEAR_ADDRESS_TABLE_MASK
    ensures Pow2(12) == 0x1000 && Mask(0, 12) == Pow2(12) - 1 == LINEAR_ADDRESS_OFFSET_MASK
    ensures Pow2(39) == 0x80_0000_0000 && Pow2(30) == 0x4000_0000 && Pow2(21) == 0x20_0000 && Pow2(9) == 512
    ensures ShiftRight(And(x, Mask(lo, n)), lo) == x / Pow2(lo) % Pow2(n)
  {
    hide And, Pow2;
    PowersOfTwo();
    IndexMasks();
    FieldExtracted(x, lo, n);
  }

  /** The flag tests of an entry. */
  lemma FlagTests(e: nat)
    ensures And(e, PTE_PRESENT) != 0 <==> Present(e)
    ensures And(e, PTE_READ_WRITE) != 0 <==> Writable(e)
    ensures And(e, PDE_PAGE_SIZE) != 0 <==> Large(e)
    ensures And(e, PTE_EXECUTE_DISABLE) != 0 <==> NoExecute(e)
  {
    hide And, Pow2;
    PowersOfTwo();
    EntryMasks();
    AndField(e, 0, 1);
    AndField(e, 1, 1);
    AndField(e, 7, 1);
    TopBit();
    AndField(e, 63, 1);
  }

  /** The address masks of an entry. */
  lemma AddressMasks(e: nat)
    ensures And(e, PTE_PHYSICAL_ADDRESS_PAGE) == BaseAt(e, 0)
    ensures And(e, PDE_PHYSICAL_ADDRESS_PAGE) == BaseAt(e, 1)
    ensures And(e, PDPTE_PHYSICAL_ADDRESS_PAGE) == BaseAt(e, 2)
  {
    hide And, Pow2;
    PowersOfTwo();
    EntryMasks();
    AndField(e, 12, 40);
    AndField(e, 21, 31);
    AndField(e, 30, 22);
  }

  /** What one entry contributes to a lookup, flag tests and masks included. */
  lemma EntryDecodes(e: nat)
    ensures And(e, PTE_PRESENT) != 0 <==> Present(e)
    ensures And(e, PDE_PAGE_SIZE) != 0 <==> Large(e)
    ensures And(e, PTE_PHYSICAL_ADDRESS_PAGE) == Base(e)
  {
    FlagTests(e);
    AddressMasks(e);
  }

  /** The indices of an address depend on its low 48 bits only. */
  lemma IndexWraps(g: nat)
    ensures Index(g % SPACE, 3) == Index(g, 3) && Index(g % SPACE, 2) == Index(g, 2)
    ensures Index(g % SPACE, 1) == Index(g, 1) && Index(g % SPACE, 0) == Index(g, 0)
  {
    var q, r := g / SPACE, g % SPACE;
    IndexShifted3(q, r);
    IndexShifted2(q, r);
    IndexShifted1(q, r);
    IndexShifted0(q, r);
  }

  lemma IndexShifted3(q: nat, r: nat)
    ensures (q * SPACE + r) / 0x80_0000_0000 % 512 == r / 0x80_0000_0000 % 512
  {
    assert (q * SPACE + r) / 0x80_0000_0000 == q * 512 + r / 0x80_0000_0000;
  }

  lemma IndexShifted2(q: nat, r: nat)
    ensures (q * SPACE + r) / 0x4000_0000 % 512 == r / 0x4000_0000 % 512
  {
    assert (q * SPACE + r) / 0x4000_0000 == q * 0x200 * 512 + r / 0x4000_0000;
  }

  lemma IndexShifted1(q: nat, r: nat)
    ensures (q * SPACE + r) / 0x20_0000 % 512 == r / 0x20_0000 % 512
  {
    assert (q * SPACE + r) / 0x20_0000 == q * 0x4_0000 * 512 + r / 0x20_0000;
  }

  lemma IndexShifted0(q: nat, r: nat)
    ensures (q * SPACE + r) / 0x1000 % 512 == r / 0x1000 % 512
  {
    assert (q * SPACE + r) / 0x1000 == q * 0x800_0000 * 512 + r / 0x1000;
  }

  lemma SpanStep(a: nat, level: nat)
    requires level <= 3
    ensures a / Span(level) == a / Span(level + 1) * PAGE_TABLE_ENTRIES + Index(a, level)
  {
  }

  function AddressMask(level: nat): nat
    requires level <= 2
  {
    if level == 0 then PTE_PHYSICAL_ADDRESS_PAGE
    else if level == 1 then PDE_PHYSICAL_ADDRESS_PAGE
    else PDPTE_PHYSICAL_ADDRESS_PAGE
  }

  /** flags | (address & mask), for flags in the low 12 bits: the entry decodes to what was put in. */
  lemma EntryEncodes(flags: nat, address: nat, level: nat)
    requires level <= 2 && flags < PAGE_SIZE
    ensures var e := Or(flags, And(address, AddressMask(level)));
            && e == flags + BaseAt(address, level) < 0x10_0000_0000_0000
            && BaseAt(e, level) == BaseAt(address, level)
            && (Present(e) <==> Present(flags)) && (Writable(e) <==> Writable(flags))
            && (Large(e) <==> Large(flags)) && !NoExecute(e)
  {
    hide And, Or, Pow2;
    AddressMasks(address);
    PowersOfTwo();
    var base := BaseAt(address, level);
    BaseIsAligned(address, level);
    OrDisjoint(base, flags, 12);
    LowBits(flags, base);
    if level == 0 {
      Sum0(flags, address);
    } else if level == 1 {
      Sum1(flags, address);
    } else {
      Sum2(flags, address);
    }
  }

  lemma BaseIsAligned(address: nat, level: nat)
    requires level <= 2
    ensures BaseAt(address, level) % PAGE_SIZE == 0 && BaseAt(address, level) <= 0xf_ffff_ffff_f000
  {
    if level == 0 {
      MultipleIsAligned(address / 0x1000 % 0x100_0000_0000, 1);
    } else if level == 1 {
      MultipleIsAligned(address / 0x20_0000 % 0x8000_0000, 0x200);
    } else {
      MultipleIsAligned(address / 0x4000_0000 % 0x40_0000, 0x4_0000);
    }
  }

  lemma MultipleIsAligned(q: nat, pages: nat)
    ensures q * (pages * PAGE_SIZE) % PAGE_SIZE == 0
  {
    assert q * (pages * PAGE_SIZE) == (q * pages) * PAGE_SIZE;
  }

  lemma LowBits(flags: nat, base: nat)
    requires flags < PAGE_SIZE && base % PAGE_SIZE == 0 && base <= 0xf_ffff_ffff_f000
    ensures var e := flags + base;
            && (Present(e) <==> Present(flags)) && (Writable(e) <==> Writable(flags))
            && (Large(e) <==> Large(flags)) && !NoExecute(e)
  {
    var q := base / 0x1000;
    assert base == 0x1000 * q;
    LowBit(flags, q);
    WriteBit(flags, q);
    SizeBit(flags, q);
  }

  lemma LowBit(flags: nat, q: nat)
    ensures (flags + 0x1000 * q) % 2 == flags % 2
  {
    RemainderIs(flags + 0x1000 * q, 2, 0x800 * q + flags / 2, flags % 2);
  }

  lemma WriteBit(flags: nat, q: nat)
    ensures (flags + 0x1000 * q) / 2 % 2 == flags / 2 % 2
  {
    RemainderIs(flags + 0x1000 * q, 2, 0x800 * q + flags / 2, flags % 2);
    RemainderIs(0x800 * q + flags / 2, 2, 0x400 * q + flags / 2 / 2, flags / 2 % 2);
  }

  lemma SizeBit(flags: nat, q: nat)
    ensures (flags + 0x1000 * q) / 0x80 % 2 == flags / 0x80 % 2
  {
    RemainderIs(flags + 0x1000 * q, 0x80, 0x20 * q + flags / 0x80, flags % 0x80);
    RemainderIs(0x20 * q + flags / 0x80, 2, 0x10 * q + flags / 0x80 / 2, flags / 0x80 % 2);
  }

  lemma Sum0(flags: nat, address: nat)
    requires flags < PAGE_SIZE
    ensures BaseAt(flags + BaseAt(address, 0), 0) == BaseAt(address, 0)
  {
  }

  lemma Sum1(flags: nat, address: nat)
    requires flags < PAGE_SIZE
    ensures BaseAt(flags + BaseAt(address, 1), 1) == BaseAt(address, 1)
  {
  }

  lemma Sum2(flags: nat, address: nat)
    requires flags < PAGE_SIZE
    ensures BaseAt(flags + BaseAt(address, 2), 2) == BaseAt(address, 2)
  {
  }

  /** A page-aligned address below 2^52 survives the address mask of a table pointer. */
  lemma PageBase(pa: nat)
    requires IsPage(pa)
    ensures Base(pa) == pa
  {
  }
}
