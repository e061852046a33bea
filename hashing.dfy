/** Hash spreading and the reserved hash values of forwarding and tree-bin nodes. */
module Hashing {

  /** Usable bits of a node hash: every bit but the top one of a 64-bit word. */
  const HASH_BITS: bv64 := 0x7FFF_FFFF_FFFF_FFFF
  /** Hash of a forwarding node: usize::MAX. */
  const MOVED: bv64 := 0xFFFF_FFFF_FFFF_FFFF
  /** Hash of a tree-bin root: usize::MAX - 1. */
  const TREEBIN: bv64 := 0xFFFF_FFFF_FFFF_FFFE
  /** Hash of a transient reservation node: usize::MAX - 2. */
  const RESERVED: bv64 := 0xFFFF_FFFF_FFFF_FFFD

  /** spread: the upper half of a 64-bit hash xor-ed into its lower half, top bit cleared.
      The result is never one of the three reserved node hashes, and the bits a power-of-two
      table indexes by (the low 32) carry the high half of the hash. */
  function Spread(hash: bv64): (r: bv64)
    ensures r <= HASH_BITS
    ensures r != MOVED && r != TREEBIN && r != RESERVED
    ensures r & 0xFFFF_FFFF == (hash & 0xFFFF_FFFF) ^ (hash >> 32)
    ensures r >> 32 == (hash >> 32) & 0x7FFF_FFFF
  {
    0x7FFF_FFFF_FFFF_FFFF & (hash ^ (hash >> 32))
  }

  /** spread forgets at most bits 63 and 31 of a hash: two hashes spread alike only when
      they agree on every other bit. */
  lemma SpreadCollision(h1: bv64, h2: bv64)
    requires Spread(h1) == Spread(h2)
    ensures h1 & 0x7FFF_FFFF_7FFF_FFFF == h2 & 0x7FFF_FFFF_7FFF_FFFF
  {
  }

  /** Colliding hashes are equal or differ in exactly bits 63 and 31, never in one of them
      alone: bit 31 of the spread hash is the xor of the two. */
  lemma SpreadCollisionBits(h1: bv64, h2: bv64)
    requires Spread(h1) == Spread(h2)
    ensures h1 ^ h2 == 0 || h1 ^ h2 == 0x8000_0000_8000_0000
  {
    SpreadCollision(h1, h2);
  }

  /** Bits 63 and 31 together are lost: flipping both leaves the spread hash unchanged. */
  lemma SpreadCollides()
    ensures Spread(0x8000_0000_8000_0000) == Spread(0)
  {
  }

  /** Hashes that agree on their low 32 bits but differ in the high half under a bucket mask
      of at most 32 bits share a bucket unspread and land in different buckets once spread. */
  lemma SpreadSeparatesHighBits(h1: bv64, h2: bv64, mask: bv64)
    requires mask <= 0xFFFF_FFFF
    requires h1 & 0xFFFF_FFFF == h2 & 0xFFFF_FFFF
    requires (h1 >> 32) & mask != (h2 >> 32) & mask
    ensures h1 & mask == h2 & mask
    ensures Spread(h1) & mask != Spread(h2) & mask
  {
  }
}
