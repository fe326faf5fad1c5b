/** The hypervisor's view of physical memory (common/include/rkhv/memory_map.h): all of it, mapped
    at a fixed base. */
module AddressMap {
  import opened Bits
  import opened Paging

  const RKHV_PHYSICAL_MEMORY_BASE: u64 := 0x0000_0100_0000_0000
  const RKHV_RX_BASE: u64 := 0xffff_ff00_0000_0000
  const RKHV_RO_BASE: u64 := 0xffff_ff00_0010_0000
  const RKHV_RW_BASE: u64 := 0xffff_ff00_0020_0000
  const RKHV_STACK_BASE: u64 := 0xffff_ffff_fff0_0000

  function P2V(pa: u64): u64 {
    Add64(pa, RKHV_PHYSICAL_MEMORY_BASE)
  }

  function V2P(va: u64): u64 {
    Sub64(va, RKHV_PHYSICAL_MEMORY_BASE)
  }

  /** The boot loader maps the first 512 GiB of physical memory at that base and nothing behind them. */
  const PHYSICAL_MAP_SIZE: nat := 0x80_0000_0000

  /** A page that the hypervisor can access. */
  predicate IsFrame(p: nat) {
    p % PAGE_SIZE == 0 && p < PHYSICAL_MAP_SIZE
  }

  lemma Unwrapped(x: u64)
    ensures P2V(x)
            == if x + RKHV_PHYSICAL_MEMORY_BASE < TWO_64 then x + RKHV_PHYSICAL_MEMORY_BASE
               else x + RKHV_PHYSICAL_MEMORY_BASE - TWO_64
    ensures V2P(x)
            == if x >= RKHV_PHYSICAL_MEMORY_BASE then x - RKHV_PHYSICAL_MEMORY_BASE
               else x - RKHV_PHYSICAL_MEMORY_BASE + TWO_64
  {
  }

  /** The conversions are inverse to each other, and move whole pages. */
  lemma ConversionsInvert(x: u64)
    ensures V2P(P2V(x)) == x && P2V(V2P(x)) == x
    ensures P2V(x) % PAGE_SIZE == x % PAGE_SIZE && V2P(x) % PAGE_SIZE == x % PAGE_SIZE
  {
    hide P2V, V2P;
    Unwrapped(x);
    Unwrapped(P2V(x));
    Unwrapped(V2P(x));
  }
}
