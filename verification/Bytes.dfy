/** The bytes of little-endian 64-bit words and of memory pages. */
module Bytes {
  import opened Bits
  import opened Paging
  import opened PhysicalMemory

  type u8 = x: nat | x < 256

  function ByteOf(w: nat, j: nat): u8 {
    if j == 0 then w % 256 else ByteOf(w / 256, j - 1)
  }

  /** The little-endian number with the given bytes. */
  function Pack(bytes: seq<u8>): nat {
    if bytes == [] then 0 else bytes[0] + 256 * Pack(bytes[1..])
  }

  lemma {:induction false} PackBounds(bytes: seq<u8>, bits: nat)
    requires bits == 8 * |bytes|
    ensures Pack(bytes) < Pow2(bits)
  {
    if bytes == [] {
    } else {
      PackBounds(bytes[1..], bits - 8);
      Pow2Adds(8, bits - 8);
      assert Pow2(8) == 256;
    }
  }

  lemma {:induction false} ByteOfPack(bytes: seq<u8>, j: nat)
    requires j < |bytes|
    ensures ByteOf(Pack(bytes), j) == bytes[j]
  {
    if j > 0 {
      assert Pack(bytes) / 256 == Pack(bytes[1..]);
      ByteOfPack(bytes[1..], j - 1);
    }
  }

  /** Byte k of a page. */
  function PageByte(page: Page, k: nat): u8
    requires k < PAGE_SIZE
  {
    ByteOf(page[k / 8], k % 8)
  }

  /** The eight bytes of word i after bytes were stored at an offset in the page. */
  function NewBytes(page: Page, offset: nat, bytes: seq<u8>, i: nat): (r: seq<u8>)
    requires i < PAGE_TABLE_ENTRIES
    ensures |r| == 8
  {
    seq(8, j requires 0 <= j < 8 =>
      if offset <= 8 * i + j < offset + |bytes| then bytes[8 * i + j - offset] else ByteOf(page[i], j))
  }

  lemma WordSize()
    ensures Pow2(64) == TWO_64
  {
    hide Pow2;
    PowersOfTwo();
    TopBit();
    Pow2Adds(63, 1);
  }

  function NewWord(page: Page, offset: nat, bytes: seq<u8>, i: nat): u64
    requires i < PAGE_TABLE_ENTRIES
  {
    PackBounds(NewBytes(page, offset, bytes, i), 64);
    WordSize();
    Pack(NewBytes(page, offset, bytes, i))
  }

  /** memcpy to an offset in a page. */
  function CopyInto(page: Page, offset: nat, bytes: seq<u8>): Page
    requires offset + |bytes| <= PAGE_SIZE
  {
    seq(PAGE_TABLE_ENTRIES, i requires 0 <= i < PAGE_TABLE_ENTRIES => NewWord(page, offset, bytes, i))
  }

  /** The copy replaces exactly those bytes of the page. */
  lemma CopiedBytes(page: Page, offset: nat, bytes: seq<u8>, k: nat)
    requires offset + |bytes| <= PAGE_SIZE && k < PAGE_SIZE
    ensures PageByte(CopyInto(page, offset, bytes), k)
            == if offset <= k < offset + |bytes| then bytes[k - offset] else PageByte(page, k)
  {
    ByteOfPack(NewBytes(page, offset, bytes, k / 8), k % 8);
  }

  /** The byte at a physical address. */
  function ByteAt(m: Memory, pa: nat): u8 {
    PageByte(At(m, pa - pa % PAGE_SIZE), pa % PAGE_SIZE)
  }

  // --- memcpy to physical memory -----------------------------------------------------------------

  /** All of the bytes lie in the page of the first one. */
  predicate InOnePage(pa: nat, size: nat) {
    pa % PAGE_SIZE + size <= PAGE_SIZE
  }

  function PageOf(pa: nat): nat {
    pa - pa % PAGE_SIZE
  }

  /** memcpy of at most a page to a physical address: what does not fit in the page of that address goes to
      the next physical page. */
  function WriteBytes(m: Memory, pa: nat, bytes: seq<u8>): Memory
    requires |bytes| <= PAGE_SIZE
  {
    var page, offset := PageOf(pa), pa % PAGE_SIZE;
    if InOnePage(pa, |bytes|) then m[page := CopyInto(At(m, page), offset, bytes)]
    else
      var room := PAGE_SIZE - offset;
      var m1 := m[page := CopyInto(At(m, page), offset, bytes[..room])];
      m1[page + PAGE_SIZE := CopyInto(At(m1, page + PAGE_SIZE), 0, bytes[room..])]
  }

  /** It replaces exactly the bytes from the address on. */
  lemma WrittenBytes(m: Memory, pa: nat, bytes: seq<u8>, a: nat)
    requires |bytes| <= PAGE_SIZE
    ensures ByteAt(WriteBytes(m, pa, bytes), a) == if pa <= a < pa + |bytes| then bytes[a - pa] else ByteAt(m, a)
  {
    hide PageByte, CopyInto;
    var page, offset := PageOf(pa), pa % PAGE_SIZE;
    if InOnePage(pa, |bytes|) {
      CopiedBytes(At(m, page), offset, bytes, a % PAGE_SIZE);
    } else {
      var room := PAGE_SIZE - offset;
      var m1 := m[page := CopyInto(At(m, page), offset, bytes[..room])];
      CopiedBytes(At(m, page), offset, bytes[..room], a % PAGE_SIZE);
      CopiedBytes(At(m1, page + PAGE_SIZE), 0, bytes[room..], a % PAGE_SIZE);
    }
  }

  /** Only one page may differ. */
  ghost predicate OnlyPageChanges(m: Memory, m': Memory, p: nat) {
    forall q: nat :: q != p ==> SameAt(m, m', q)
  }

  lemma StaysInPage(m: Memory, pa: nat, bytes: seq<u8>)
    requires |bytes| <= PAGE_SIZE && InOnePage(pa, |bytes|)
    ensures OnlyPageChanges(m, WriteBytes(m, pa, bytes), PageOf(pa))
  {
    hide CopyInto;
  }

  /** A store that does not fit in its page changes the next one, unless that page held the same bytes. */
  lemma SpillsOver(m: Memory, pa: nat, bytes: seq<u8>)
    requires |bytes| <= PAGE_SIZE && !InOnePage(pa, |bytes|)
    requires ByteAt(m, PageOf(pa) + PAGE_SIZE) != bytes[PAGE_SIZE - pa % PAGE_SIZE]
    ensures !SameAt(m, WriteBytes(m, pa, bytes), PageOf(pa) + PAGE_SIZE)
  {
    hide PageByte, WriteBytes;
    var next := PageOf(pa) + PAGE_SIZE;
    WrittenBytes(m, pa, bytes, next);
    assert next % PAGE_SIZE == 0;
  }

  /** A store of n bytes stays in its page, whatever the memory and the bytes, exactly when it fits there. */
  lemma StoreStays(pa: nat, n: nat)
    requires 0 < n <= PAGE_SIZE
    ensures InOnePage(pa, n) <==>
            forall m: Memory, bytes: seq<u8> :: |bytes| == n ==>
              OnlyPageChanges(m, WriteBytes(m, pa, bytes), PageOf(pa))
  {
    hide PageByte, WriteBytes;
    if InOnePage(pa, n) {
      forall m: Memory, bytes: seq<u8> | |bytes| == n
        ensures OnlyPageChanges(m, WriteBytes(m, pa, bytes), PageOf(pa))
      {
        StaysInPage(m, pa, bytes);
      }
    } else {
      var m: Memory, bytes: seq<u8> := map[], seq(n, i => 1);
      var next := PageOf(pa) + PAGE_SIZE;
      ZeroByte(m, next);
      SpillsOver(m, pa, bytes);
      assert !OnlyPageChanges(m, WriteBytes(m, pa, bytes), PageOf(pa));
    }
  }

  lemma ZeroByte(m: Memory, p: nat)
    requires p !in m && p % PAGE_SIZE == 0
    ensures ByteAt(m, p) == 0
  {
    assert ZERO_PAGE[0] == 0;
  }

  /** size bytes from a physical address on. */
  function BytesAt(m: Memory, pa: nat, size: nat): (r: seq<u8>)
    ensures |r| == size && forall j :: 0 <= j < size ==> r[j] == ByteAt(m, pa + j)
  {
    if size == 0 then [] else BytesAt(m, pa, size - 1) + [ByteAt(m, pa + size - 1)]
  }

  /** The same as a little-endian number. */
  function LoadBytes(m: Memory, pa: nat, size: nat): (r: nat)
    ensures r < Pow2(8 * size)
    ensures forall j :: 0 <= j < size ==> ByteOf(r, j) == ByteAt(m, pa + j)
  {
    var bytes := BytesAt(m, pa, size);
    PackBounds(bytes, 8 * size);
    assert forall j :: 0 <= j < size ==> ByteOf(Pack(bytes), j) == bytes[j] by {
      forall j | 0 <= j < size
        ensures ByteOf(Pack(bytes), j) == bytes[j]
      {
        ByteOfPack(bytes, j);
      }
    }
    Pack(bytes)
  }
}
