/** number_of_leading_zeros (Hacker's Delight, figure 5-6) as the source writes it: a 32-bit
    algorithm run on 64-bit signed integers. */
module LeadingZeros {
  import opened MachineInt

  function Pow2(k: nat): (p: nat)
    ensures p >= 1
  {
    if k == 0 then 1 else 2 * Pow2(k - 1)
  }

  /** n is 2^k for some k. */
  ghost predicate IsPowerOfTwo(n: int) {
    exists k: nat :: n == Pow2(k)
  }

  lemma {:induction false} Pow2Add(j: nat, k: nat)
    ensures Pow2(j + k) == Pow2(j) * Pow2(k)
  {
    if j > 0 {
      Pow2Add(j - 1, k);
    }
  }

  /** The powers of two the algorithm shifts by. */
  lemma Pow2Constants()
    ensures Pow2(2) == 0x4 && Pow2(4) == 0x10 && Pow2(8) == 0x100 && Pow2(16) == 0x1_0000
    ensures Pow2(30) == 0x4000_0000 && Pow2(31) == 0x8000_0000 && Pow2(32) == 0x1_0000_0000
  {
    assert Pow2(2) == 0x4;
    Pow2Add(2, 2);
    assert Pow2(4) == 0x10;
    Pow2Add(4, 4);
    assert Pow2(8) == 0x100;
    Pow2Add(8, 8);
    assert Pow2(16) == 0x1_0000;
    Pow2Add(16, 8);
    assert Pow2(24) == 0x100_0000;
    Pow2Add(24, 4);
    assert Pow2(28) == 0x1000_0000;
    Pow2Add(28, 2);
    assert Pow2(30) == 0x4000_0000;
    Pow2Add(30, 1);
    Pow2Add(16, 16);
  }

  /** The number of binary digits of x (0 for x == 0). */
  function BitLength(x: nat): nat
  {
    if x == 0 then 0 else 1 + BitLength(x / 2)
  }

  /** x fits in k bits exactly when it is below 2^k. */
  lemma {:induction false} BitLengthBound(x: nat, k: nat)
    ensures x < Pow2(k) <==> BitLength(x) <= k
  {
    if k > 0 && x > 0 {
      BitLengthBound(x / 2, k - 1);
    }
  }

  /** Shifting a nonzero x left by k places adds k binary digits. */
  lemma {:induction false} BitLengthShift(x: nat, k: nat)
    requires x > 0
    ensures BitLength(x * Pow2(k)) == BitLength(x) + k
  {
    if k > 0 {
      BitLengthShift(x, k - 1);
      var y := x * Pow2(k - 1);
      assert x * Pow2(k) == 2 * y;
      assert (2 * y) / 2 == y;
    }
  }

  /** What number_of_leading_zeros returns. On 0 <= i < 2^32 it is the number of leading zero
      bits of i as a 32-bit word; on any other isize the algorithm's steps are all skipped and
      the result is 1 - (i >> 31), which counts nothing. */
  function Nlz(i: Isize): (z: Isize)
    ensures 0 <= i < 0x1_0000_0000 ==> 0 <= z <= 32 && (z == 32 <==> i == 0)
  {
    if 0 <= i < 0x1_0000_0000 then
      Pow2Constants();
      BitLengthBound(i, 32);
      32 - BitLength(i)
    else
      1 - i / 0x8000_0000
  }

  /** Shifting a nonzero x left by one of the algorithm's step widths adds that many digits. */
  lemma ShiftStep(i: Isize, k: nat, s: nat)
    requires 0 < i
    requires (k, s) == (16, 0x1_0000) || (k, s) == (8, 0x100) || (k, s) == (4, 0x10) || (k, s) == (2, 0x4)
    ensures BitLength(i * s) == BitLength(i) + k
  {
    Pow2Constants();
    BitLengthShift(i, k);
  }

  /** The state between the steps of NumberOfLeadingZeros, started from i0 != 0: within 32
      bits, i is at least `low` and the digits shifted out so far are counted in n - 1; outside
      32 bits nothing has happened. */
  ghost predicate Tracked(i0: Isize, i: Isize, n: Isize, low: nat) {
    if 0 < i0 < 0x1_0000_0000 then
      low <= i < 0x1_0000_0000 && BitLength(i) == BitLength(i0) + n - 1
    else
      i == i0 && n == 1
  }

  /** A step `if i >> (32 - k) == 0 { n += k; i <<= k; }` keeps the state tracked, with the
      top k bits now known to hold a one. */
  lemma StepTracked(i0: Isize, i: Isize, n: Isize, k: nat, s: nat, t: nat, low: nat)
    requires (k, s, t, low) == (16, 0x1_0000, 0x1_0000, 1)
          || (k, s, t, low) == (8, 0x100, 0x100_0000, 0x1_0000)
          || (k, s, t, low) == (4, 0x10, 0x1000_0000, 0x100_0000)
          || (k, s, t, low) == (2, 0x4, 0x4000_0000, 0x1000_0000)
    requires i0 != 0 && Tracked(i0, i, n, low) && n <= 32
    ensures i / t == 0 ==> 0 < i < t && n + k <= 32 && Tracked(i0, i * s, n + k, t)
    ensures i / t != 0 ==> Tracked(i0, i, n, t)
    ensures !(0 < i0 < 0x1_0000_0000) ==> i / t != 0
  {
    if 0 < i0 < 0x1_0000_0000 && i / t == 0 {
      ShiftStep(i, k, s);
      BitLengthLower(i0);
      BitLengthUpper(i * s);
    }
  }

  lemma BitLengthLower(x: nat)
    requires x > 0
    ensures BitLength(x) >= 1
  {
  }

  lemma BitLengthUpper(x: nat)
    requires x < 0x1_0000_0000
    ensures BitLength(x) <= 32
  {
    Pow2Constants();
    BitLengthBound(x, 32);
  }

  /** The last step, `n -= i >> 31`, once the top bit of the 32 is within two places. */
  lemma LastStep(i: Isize)
    requires 0x4000_0000 <= i < 0x1_0000_0000
    ensures i / 0x8000_0000 == BitLength(i) - 31
  {
    Pow2Constants();
    BitLengthBound(i, 30);
    BitLengthBound(i, 31);
    BitLengthBound(i, 32);
  }

  /** After the four steps, `n - (i >> 31)` is the closed form. */
  lemma FinalTracked(i0: Isize, i: Isize, n: Isize)
    requires i0 != 0 && Tracked(i0, i, n, 0x4000_0000)
    ensures n - i / 0x8000_0000 == Nlz(i0)
  {
    if 0 < i0 < 0x1_0000_0000 {
      LastStep(i);
    }
  }

  method NumberOfLeadingZeros(i0: Isize) returns (n: Isize)
    ensures n == Nlz(i0)
  {
    var i := i0;
    if i == 0 {
      return 32;
    }
    n := 1;
    // `i >> 16 == 0` is floor division by 2^16; under that test 0 <= i < 2^16, so `i <<= 16`
    // cannot overflow and is a plain multiplication (likewise for the later steps)
    StepTracked(i0, i, n, 16, 0x1_0000, 0x1_0000, 1);
    if i / 0x1_0000 == 0 {
      n := n + 16;
      i := i * 0x1_0000;
    }
    StepTracked(i0, i, n, 8, 0x100, 0x100_0000, 0x1_0000);
    if i / 0x100_0000 == 0 {
      n := n + 8;
      i := i * 0x100;
    }
    StepTracked(i0, i, n, 4, 0x10, 0x1000_0000, 0x100_0000);
    if i / 0x1000_0000 == 0 {
      n := n + 4;
      i := i * 0x10;
    }
    StepTracked(i0, i, n, 2, 0x4, 0x4000_0000, 0x1000_0000);
    if i / 0x4000_0000 == 0 {
      n := n + 2;
      i := i * 0x4;
    }
    FinalTracked(i0, i, n);
    n := n - i / 0x8000_0000;
  }

  /** For 0 < x < 2^32, 31 - nlz(x) is floor(log2 x). */
  lemma NlzFloorLog2(x: Isize)
    requires 0 < x < 0x1_0000_0000
    ensures 0 <= 31 - Nlz(x) && Pow2(31 - Nlz(x)) <= x < Pow2(32 - Nlz(x))
  {
    Pow2Constants();
    BitLengthBound(x, BitLength(x));
    BitLengthBound(x, BitLength(x) - 1);
  }

  /** For 1 <= x <= 2^32, 32 - nlz(x - 1) is ceil(log2 x). */
  lemma NlzCeilLog2(x: Isize)
    requires 1 <= x <= 0x1_0000_0000
    ensures 0 <= 32 - Nlz(x - 1) && x <= Pow2(32 - Nlz(x - 1))
    ensures x == 1 || Pow2(31 - Nlz(x - 1)) < x
  {
    Pow2Constants();
    BitLengthBound(x - 1, BitLength(x - 1));
    if x > 1 {
      BitLengthBound(x - 1, BitLength(x - 1) - 1);
    }
  }
}
