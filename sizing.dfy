/** The integer arithmetic behind resizing: thresholds, resize stamps, the `size_ctl` control
    word while a resize runs, and how the transfer divides the buckets. */
module Sizing {
  import opened MachineInt
  import opened LeadingZeros

  const MAXIMUM_CAPACITY: int := 0x4000_0000_0000_0000
  const DEFAULT_CAPACITY: int := 16
  const MIN_TRANSFER_STRIDE: int := 16
  /** isize::BITS - RESIZE_STAMP_BITS, with RESIZE_STAMP_BITS == 16. */
  const RESIZE_STAMP_SHIFT: nat := 48

  /** `n - (n >> 2)`: the threshold at which a table of length n should grow, three quarters
      of n rounded up. */
  function Threshold(n: Usize): (t: Usize)
    ensures 4 * t >= 3 * n && 4 * t < 3 * n + 4
  {
    n - n / 4
  }

  /** Re-wrapping a value that is k whole turns of 2^64 away from the isize range. */
  lemma WrapBy(x: int, k: int)
    requires -TWO_63 <= x - k * TWO_64 < TWO_63
    ensures WrapIsize(x) == x - k * TWO_64
  {
  }

  /** `(n << 1) - (n >> 1)` on isize, as the transfer writes it when it commits: the threshold
      of the doubled table. It stays right at n == MAXIMUM_CAPACITY, where `n << 1` wraps to
      isize::MIN and the subtraction wraps back. */
  function CommitThreshold(n: Isize): (t: Isize)
    ensures 0 <= n <= MAXIMUM_CAPACITY ==> t == Threshold(2 * n)
  {
    var twice := WrapIsize(n * 2);
    if n == MAXIMUM_CAPACITY then
      WrapBy(n * 2, 1);
      WrapBy(twice - n / 2, -1);
      WrapIsize(twice - n / 2)
    else
      WrapIsize(twice - n / 2)
  }

  /** `x | (1 << 15)` on isize: bit 15 of the two's-complement form set, all others kept. */
  function SetBit15(x: Isize): (r: Isize)
    ensures (r / 0x8000) % 2 == 1
    ensures r % 0x8000 == x % 0x8000 && r / 0x1_0000 == x / 0x1_0000
  {
    if (x / 0x8000) % 2 == 1 then x else x + 0x8000
  }

  /** resize_stamp: the leading-zero count of the length with bit 15 set. For lengths below
      2^32 the count is at most 32, so the stamp is 2^15 plus the count. */
  function ResizeStamp(n: Isize): (rs: Isize)
    ensures (rs / 0x8000) % 2 == 1
    ensures 0 <= n < 0x1_0000_0000 ==> rs == 0x8000 + Nlz(n)
  {
    SetBit15(Nlz(n))
  }

  /** `rs << RESIZE_STAMP_SHIFT` on isize. With bit 15 of the stamp set, bit 63 of the result
      is set: the control word of a running resize is always negative. */
  function StampShifted(rs: Isize): (s: Isize)
    ensures (rs / 0x8000) % 2 == 1 ==> s < 0
  {
    var q := rs / 0x1_0000;
    var low := rs % 0x8000;
    assert (rs / 0x8000) % 2 == 1 ==> rs == q * 0x1_0000 + 0x8000 + low;
    if (rs / 0x8000) % 2 == 1 then
      WrapBy(rs * 0x1_0000_0000_0000, q + 1);
      WrapIsize(rs * 0x1_0000_0000_0000)
    else
      WrapIsize(rs * 0x1_0000_0000_0000)
  }

  /** `(rs << RESIZE_STAMP_SHIFT) + 2`: the control word the first resizer of a table of
      length n installs, its low bits counting 1 + the one active resizer. */
  function ResizeControl(n: Isize): (sc: Isize)
    ensures sc < 0
  {
    StampShifted(ResizeStamp(n)) + 2
  }

  /** The test a resizer makes with the control word sc it read as it left
      (`sc - 2 == resize_stamp(n) << RESIZE_STAMP_SHIFT`): whether it was the last one out. */
  predicate IsLastLeaver(sc: int, n: Isize) {
    sc - 2 == StampShifted(ResizeStamp(n))
  }

  /** For lengths below 2^32 the shifted stamp is the leading-zero count in bits 48 to 62 over
      bit 63. */
  lemma ShiftedStampOf(n: Isize)
    requires 0 <= n < 0x1_0000_0000
    ensures StampShifted(ResizeStamp(n)) == Nlz(n) * 0x1_0000_0000_0000 - TWO_63
  {
    WrapBy((0x8000 + Nlz(n)) * 0x1_0000_0000_0000, 1);
  }

  /** Below 2^32 two lengths share a shifted stamp exactly when they have the same bit length;
      in particular the powers of two a table can have there all get distinct stamps. */
  lemma StampsIdentifyBitLength(n1: Isize, n2: Isize)
    requires 0 <= n1 < 0x1_0000_0000 && 0 <= n2 < 0x1_0000_0000
    ensures StampShifted(ResizeStamp(n1)) == StampShifted(ResizeStamp(n2))
        <==> BitLength(n1) == BitLength(n2)
  {
    ShiftedStampOf(n1);
    ShiftedStampOf(n2);
  }

  lemma {:induction false} BitLengthOfPow2(k: nat)
    ensures BitLength(Pow2(k)) == k + 1
  {
    if k > 0 {
      BitLengthOfPow2(k - 1);
      assert Pow2(k) / 2 == Pow2(k - 1);
    }
  }

  lemma Pow2Below32(k: nat)
    requires k < 32
    ensures Pow2(k) < 0x1_0000_0000 && BitLength(Pow2(k)) == k + 1
  {
    Pow2Constants();
    BitLengthOfPow2(k);
    BitLengthBound(Pow2(k), 32);
  }

  /** Distinct power-of-two lengths below 2^32 get distinct shifted stamps. */
  lemma StampsDistinct(k1: nat, k2: nat)
    requires k1 < 32 && k2 < 32 && k1 != k2
    ensures Pow2(k1) < 0x1_0000_0000 && Pow2(k2) < 0x1_0000_0000
    ensures StampShifted(ResizeStamp(Pow2(k1))) != StampShifted(ResizeStamp(Pow2(k2)))
  {
    Pow2Below32(k1);
    Pow2Below32(k2);
    StampsIdentifyBitLength(Pow2(k1), Pow2(k2));
  }

  /** Beyond 32 bits the leading-zero count is no longer one, and stamps collide: tables of
      lengths 2^30 and 2^46 get the same shifted stamp. */
  lemma StampsCollideBeyond32Bits()
    ensures StampShifted(ResizeStamp(0x4000_0000)) == StampShifted(ResizeStamp(0x4000_0000_0000))
  {
    Pow2Constants();
    BitLengthOfPow2(30);
    ShiftedStampOf(0x4000_0000);
    assert Nlz(0x4000_0000_0000) == -0x7FFF;
    WrapBy(-0x7FFF * 0x1_0000_0000_0000, 0);
  }

  /** What happens to the control word while a resize runs: a helper joins with `sc + 1`
      and every resizer leaves with `sc - 1`. */
  datatype ResizerEvent = Join | Leave

  /** The control word after the events, from sc. */
  function Replay(sc: int, events: seq<ResizerEvent>): int
  {
    if events == [] then sc
    else
      var last := events[|events| - 1];
      Replay(sc, events[..|events| - 1]) + (if last == Join then 1 else -1)
  }

  /** From the initiator's control word, the low bits count one plus the resizers still at
      work: the initiator, plus joins, minus leaves. */
  lemma {:induction false} ReplayCountsResizers(n: Isize, events: seq<ResizerEvent>)
    ensures Replay(ResizeControl(n), events)
        == StampShifted(ResizeStamp(n)) + 2 + multiset(events)[Join] - multiset(events)[Leave]
  {
    if events != [] {
      var init := events[..|events| - 1];
      ReplayCountsResizers(n, init);
      assert events == init + [events[|events| - 1]];
    }
  }

  /** A resizer that leaves after the events passes the last-leaver test exactly when every
      other resizer, the initiator included, has already left. */
  lemma LastLeaverIsLast(n: Isize, events: seq<ResizerEvent>)
    ensures IsLastLeaver(Replay(ResizeControl(n), events), n)
        <==> multiset(events)[Leave] == multiset(events)[Join]
  {
    ReplayCountsResizers(n, events);
  }

  function Max(a: int, b: int): int {
    if a < b then b else a
  }

  /** The number of buckets each resizer claims at a time: `(n >> 3) / NCPU` with several
      CPUs and n with one, never below MIN_TRANSFER_STRIDE. With several CPUs that is
      floor(n / (8 * NCPU)), so the table is cut into about 8 * NCPU strides. */
  function Stride(n: Usize, ncpu: Usize): (s: Isize)
    requires ncpu >= 1
    ensures s >= MIN_TRANSFER_STRIDE
    ensures ncpu > 1 ==> s == Max(n / (8 * ncpu), MIN_TRANSFER_STRIDE)
    ensures ncpu == 1 && n < TWO_63 ==> s == Max(n, MIN_TRANSFER_STRIDE)
    ensures ncpu == 1 && n == TWO_63 ==> s == MIN_TRANSFER_STRIDE
  {
    var share := if ncpu > 1 then (n / 8) / ncpu else n;
    PerCpuShare(n, ncpu);
    var raw := WrapIsize(share);
    if raw < MIN_TRANSFER_STRIDE then MIN_TRANSFER_STRIDE else raw
  }

  /** `(n >> 3) / NCPU` is floor(n / (8 * NCPU)) and fits in an isize. */
  lemma PerCpuShare(n: Usize, ncpu: Usize)
    requires ncpu >= 1
    ensures (n / 8) / ncpu == n / (8 * ncpu)
    ensures 0 <= (n / 8) / ncpu < TWO_63
  {
    DivDiv(n, 8, ncpu);
    DivAtMost(n / 8, ncpu);
  }

  lemma DivAtMost(x: nat, b: nat)
    requires b >= 1
    ensures x / b <= x
  {
    var q, r := x / b, x % b;
    assert x == b * q + r;
    MulAtLeast(q, b);
  }

  lemma DivDiv(x: nat, a: nat, b: nat)
    requires a > 0 && b > 0
    ensures (x / a) / b == x / (a * b)
  {
    var q, r1, r0 := (x / a) / b, (x / a) % b, x % a;
    assert x / a == b * q + r1;
    assert x == a * (x / a) + r0;
    Distribute(a, b, q, r1);
    RemainderBound(a, b, r1, r0);
    DivUnique(x, a * b, q, a * r1 + r0);
  }

  lemma Distribute(a: int, b: int, q: int, r: int)
    ensures a * (b * q + r) == (a * b) * q + a * r
  {
  }

  lemma RemainderBound(a: nat, b: nat, r1: nat, r0: nat)
    requires r1 < b && r0 < a
    ensures a * r1 + r0 < a * b
  {
    MulMonotone(a, r1, b - 1);
    assert a * (b - 1) == a * b - a;
  }

  lemma MulMonotone(a: nat, x: nat, y: nat)
    requires x <= y
    ensures a * x <= a * y
  {
    assert a * y == a * x + a * (y - x);
  }

  lemma DivUnique(x: nat, d: nat, q: nat, r: nat)
    requires d > 0 && r < d && x == d * q + r
    ensures x / d == q
  {
    var q', r' := x / d, x % d;
    assert d * q' + r' == d * q + r;
    assert d * (q' - q) == r - r';
    if q' > q {
      MulAtLeast(d, q' - q);
    } else if q' < q {
      MulAtLeast(d, q - q');
    }
  }

  lemma MulAtLeast(d: nat, m: int)
    requires m >= 1
    ensures d * m >= d
  {
    assert d * m == d + d * (m - 1);
  }

  /** next_bound: the cursor after a claim from cursor k > 0, one stride lower or 0. */
  function NextBound(k: int, stride: int): (b: int)
    requires k > 0 && stride >= 1
    ensures 0 <= b < k && k - b <= stride
    ensures b == 0 || k - b == stride
  {
    if k > stride then k - stride else 0
  }

  /** The buckets [lo, hi) one claim takes. */
  datatype Range = Range(lo: int, hi: int)

  /** The ranges successive claims take from cursor k down to 0, in claim order: each takes
      at most a stride, each consecutive pair meets, and together they cover [0, k) from the
      top down. */
  function Claims(k: nat, stride: nat): (cs: seq<Range>)
    requires stride >= 1
    ensures k == 0 <==> cs == []
    ensures cs != [] ==> cs[0].hi == k && cs[|cs| - 1].lo == 0
    ensures forall j :: 0 <= j < |cs| ==> 0 <= cs[j].lo < cs[j].hi <= cs[j].lo + stride
    ensures forall j :: 0 < j < |cs| ==> cs[j].hi == cs[j - 1].lo
    ensures forall j1, j2 :: 0 <= j1 < j2 < |cs| ==> cs[j2].hi <= cs[j1].lo
    decreases k
  {
    if k == 0 then [] else [Range(NextBound(k, stride), k)] + Claims(NextBound(k, stride), stride)
  }

  /** Every bucket below the starting cursor is in some claim; by the ordering Claims
      ensures, in exactly one. */
  lemma {:induction false} EveryBucketClaimed(k: nat, stride: nat, b: int)
    requires stride >= 1 && 0 <= b < k
    ensures exists j :: 0 <= j < |Claims(k, stride)| && Claims(k, stride)[j].lo <= b < Claims(k, stride)[j].hi
  {
    var cs := Claims(k, stride);
    var next := NextBound(k, stride);
    if b >= next {
      assert cs[0].lo <= b < cs[0].hi;
    } else {
      EveryBucketClaimed(next, stride, b);
      var rest := Claims(next, stride);
      assert cs == [Range(next, k)] + rest;
      var j :| 0 <= j < |rest| && rest[j].lo <= b < rest[j].hi;
      assert cs[j + 1] == rest[j];
    }
  }
}
