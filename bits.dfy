/** The power-of-two ceiling `table_size_for` (Hacker's Delight, section 3.2), on 64-bit words. */
module Bits {

  /** MAXIMUM_CAPACITY = 1 << (isize::BITS - 2). */
  const MAXIMUM_CAPACITY: bv64 := 0x4000_0000_0000_0000

  /** x has exactly one bit set. */
  ghost predicate IsPow2(x: bv64) {
    x != 0 && x & (x - 1) == 0
  }

  /** r is the power-of-two ceiling of c, stated on the bits of c - 1: r is a power of two,
      c - 1 has no bit at or above r's, and unless r == 1 it has the bit just below r's set.
      CeilPow2Bounds and CeilPow2IsLeast give the same fact as an ordering. */
  ghost predicate IsCeilPow2(c: bv64, r: bv64) {
    IsPow2(r) && (c - 1) & !(r - 1) == 0 && (r == 1 || (c - 1) & (r >> 1) != 0)
  }

  /** table_size_for as written: `n = c - 1` (wrapping at c == 0), smeared right by 1, 2, 4, 8
      and 16 places, then `n + 1` capped at MAXIMUM_CAPACITY. The five shifts only propagate a
      bit 31 places down, which is enough for c <= 2^32 and not beyond. */
  method TableSizeFor(c: bv64) returns (r: bv64)
    ensures 1 <= c <= 0x1_0000_0000 ==> IsCeilPow2(c, r)
    ensures c == 0 ==> r == MAXIMUM_CAPACITY
    ensures 1 <= r <= MAXIMUM_CAPACITY
    // one above 2^32 bit 0 of c - 1 stays clear: not a power of two
    ensures c == 0x1_0000_0001 ==> r == 0x1_FFFF_FFFF
  {
    var n := c - 1;
    n := n | (n >> 1);
    n := n | (n >> 2);
    n := n | (n >> 4);
    n := n | (n >> 8);
    n := n | (n >> 16);
    if n >= MAXIMUM_CAPACITY {
      r := MAXIMUM_CAPACITY;
    } else {
      r := n + 1;
    }
  }

  /** The result TableSizeFor gives one above 2^32, an argument within MAXIMUM_CAPACITY, is
      not a power of two. */
  lemma TableSizeForMissesPowerOfTwo()
    ensures 0x1_0000_0001 <= MAXIMUM_CAPACITY && !IsPow2(0x1_FFFF_FFFF)
  {
  }

  /** What the 64-bit table_size_for promises: the power-of-two ceiling of every c up to
      MAXIMUM_CAPACITY, and MAXIMUM_CAPACITY for 0 and beyond. */
  ghost predicate IsTableSize(c: bv64, r: bv64) {
    (1 <= c <= MAXIMUM_CAPACITY ==> IsCeilPow2(c, r))
    && (c == 0 || c > MAXIMUM_CAPACITY ==> r == MAXIMUM_CAPACITY)
  }

  /** table_size_for with the smear completed for 64-bit words (one more step, by 32 places). */
  method TableSizeFor64(c: bv64) returns (r: bv64)
    ensures IsTableSize(c, r)
    ensures r <= MAXIMUM_CAPACITY
  {
    var n := c - 1;
    n := n | (n >> 1);
    n := n | (n >> 2);
    n := n | (n >> 4);
    n := n | (n >> 8);
    n := n | (n >> 16);
    n := n | (n >> 32);
    if n >= MAXIMUM_CAPACITY {
      r := MAXIMUM_CAPACITY;
    } else {
      r := n + 1;
    }
  }

  /** The ceiling as an ordering: c <= r, and half of r is below c. */
  lemma CeilPow2Bounds(c: bv64, r: bv64)
    requires c != 0 && IsCeilPow2(c, r)
    ensures c <= r
    ensures r >> 1 <= c - 1
  {
  }

  /** IsCeilPow2 picks the least power of two at or above c. */
  lemma CeilPow2IsLeast(c: bv64, r: bv64, p: bv64)
    requires c != 0 && IsCeilPow2(c, r) && IsPow2(p) && c - 1 < p
    ensures r <= p
  {
  }

  /** A power of two is its own ceiling, so table_size_for is idempotent: applied to one of its
      own results it returns that result unchanged. */
  lemma CeilPow2Idempotent(r: bv64, s: bv64)
    requires IsPow2(r) && IsCeilPow2(r, s)
    ensures s == r
  {
  }

  /** The argument try_presize passes to table_size_for, size + (size >> 1) + 1, is within the
      domain of the 64-bit version for sizes below MAXIMUM_CAPACITY / 2. */
  lemma PresizeArgumentInRange(size: bv64)
    requires size < (MAXIMUM_CAPACITY >> 1)
    ensures 1 <= size + (size >> 1) + 1 <= MAXIMUM_CAPACITY
  {
  }

  /** try_presize's target: MAXIMUM_CAPACITY from MAXIMUM_CAPACITY / 2 elements up,
      otherwise the power-of-two ceiling of size + size/2 + 1. */
  ghost predicate IsPresizeTarget(size: bv64, c: bv64) {
    1 <= c <= MAXIMUM_CAPACITY
    && (size >= (MAXIMUM_CAPACITY >> 1) ==> c == MAXIMUM_CAPACITY)
    && (size < (MAXIMUM_CAPACITY >> 1) ==> IsCeilPow2(size + (size >> 1) + 1, c))
  }

  /** try_presize's target table size, taken with the 64-bit table_size_for. */
  method PresizeTarget(size: bv64) returns (c: bv64)
    ensures IsPresizeTarget(size, c)
  {
    if size >= (MAXIMUM_CAPACITY >> 1) {
      c := MAXIMUM_CAPACITY;
    } else {
      PresizeArgumentInRange(size);
      c := TableSizeFor64(size + (size >> 1) + 1);
    }
  }

  /** try_presize's target as written, with the five-step table_size_for. It is the
      power-of-two ceiling while the argument stays within 2^32, that is for sizes below
      2863311531; at that size the argument is 2^32 + 1 and the target 2^33 - 1. */
  method PresizeTargetAsWritten(size: bv64) returns (c: bv64)
    ensures 1 <= c <= MAXIMUM_CAPACITY
    ensures size >= (MAXIMUM_CAPACITY >> 1) ==> c == MAXIMUM_CAPACITY
    ensures size < (MAXIMUM_CAPACITY >> 1) && size + (size >> 1) + 1 <= 0x1_0000_0000 ==>
      IsCeilPow2(size + (size >> 1) + 1, c)
    ensures size == 0xAAAA_AAAB ==> c == 0x1_FFFF_FFFF
  {
    if size >= (MAXIMUM_CAPACITY >> 1) {
      c := MAXIMUM_CAPACITY;
    } else {
      PresizeArgumentInRange(size);
      c := TableSizeFor(size + (size >> 1) + 1);
    }
  }

  /** At size 2863311531 the two targets part: the corrected one is 2^33, a power of two,
      and the one as written, 2^33 - 1, is not. */
  lemma PresizeTargetsPart(c: bv64)
    requires IsPresizeTarget(0xAAAA_AAAB, c)
    ensures c == 0x2_0000_0000 && !IsPow2(0x1_FFFF_FFFF)
  {
  }
}
