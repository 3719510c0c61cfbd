/** The 16-bit DMA indices and the slot pointers of the BCM54213PE descriptor rings. */
module GenetIndex {
  type Byte = bv8

  /** A buffer pointer; 0 is the null pointer. */
  type Address = nat

  const TOTAL_DESC: nat := 256
  const INDEX_RANGE: nat := 0x1_0000  // DMA_P_INDEX_MASK and DMA_C_INDEX_MASK are 0xFFFF

  /** How many steps a 16-bit index takes from `b` to `a`. */
  function Distance(a: nat, b: nat): (d: nat)
    requires a < INDEX_RANGE && b < INDEX_RANGE
    ensures d < INDEX_RANGE
  {
    if a >= b then a - b else a + INDEX_RANGE - b
  }

  function Next(a: nat): (n: nat)
    requires a < INDEX_RANGE
    ensures n < INDEX_RANGE
  {
    if a == INDEX_RANGE - 1 then 0 else a + 1
  }

  /** The masked arithmetic of the driver: (a - b) & 0xFFFF and (a + 1) & 0xFFFF. */
  lemma MaskedArithmetic(a: nat, b: nat)
    requires a < INDEX_RANGE && b < INDEX_RANGE
    ensures (a - b) % INDEX_RANGE == Distance(a, b)
    ensures (a + 1) % INDEX_RANGE == Next(a)
  {}

  /** A ring's range of slots; slots follow each other cyclically. */
  datatype Range = Range(first: nat, last: nat)
  {
    predicate Contains(slot: nat) {
      first <= slot <= last
    }

    function Count(): int {
      last - first + 1
    }

    /** Advancing a pointer by one, as get_txcb and tx_reclaim do. */
    function Advance(slot: nat): nat {
      if slot < last then slot + 1 else first
    }

    /** The slot `k` places after `slot`. */
    function After(slot: nat, k: nat): int {
      if slot + k <= last then slot + k else slot + k - Count()
    }

    /** How many places `slot` lies after `origin`. */
    function From(origin: nat, slot: nat): int {
      if slot >= origin then slot - origin else slot - origin + Count()
    }
  }
}
