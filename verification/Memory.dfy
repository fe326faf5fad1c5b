/** Physical memory: 64-bit words grouped in 4 KiB pages, keyed by the page's base address. */
module PhysicalMemory {
  import opened Bits
  import opened Paging

  function Zeros(n: nat): (r: seq<u64>)
    ensures |r| == n && forall i :: 0 <= i < n ==> r[i] == 0
  {
    if n == 0 then [] else Zeros(n - 1) + [0]
  }

  type Page = s: seq<u64> | |s| == PAGE_TABLE_ENTRIES witness Zeros(PAGE_TABLE_ENTRIES)
  type Memory = map<nat, Page>

  const ZERO_PAGE: Page := Zeros(PAGE_TABLE_ENTRIES)

  /** The content of the page at base address p; a page the map does not mention reads as zeros. */
  function At(m: Memory, p: nat): Page {
    if p in m then m[p] else ZERO_PAGE
  }

  function WriteWord(m: Memory, p: nat, i: nat, w: u64): Memory
    requires i < PAGE_TABLE_ENTRIES
  {
    m[p := At(m, p)[i := w]]
  }

  /** Both memories agree on page p. */
  predicate SameAt(m: Memory, m': Memory, p: nat) {
    At(m, p) == At(m', p)
  }
}
