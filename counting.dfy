/** The striped counter: a base count plus an array of counter cells, summed by sum_count. */
module Counting {
  import opened LeadingZeros
  import opened Sizing

  /** The sum of the cells, taken left to right as sum_count's loop does. */
  function Sum(s: seq<int>): int
  {
    if |s| == 0 then 0 else Sum(s[..|s| - 1]) + s[|s| - 1]
  }

  /** Extending the summed prefix by one cell adds that cell. */
  lemma SumPrefix(s: seq<int>, i: nat)
    requires i < |s|
    ensures Sum(s[..i + 1]) == Sum(s[..i]) + s[i]
  {
    assert s[..i + 1][..i] == s[..i];
  }

  /** Adding x to one cell adds x to the sum: a fetch_add on any cell is counted exactly once. */
  lemma {:induction false} SumAdd(s: seq<int>, k: nat, x: int)
    requires k < |s|
    ensures Sum(s[k := s[k] + x]) == Sum(s) + x
    decreases |s|
  {
    var t := s[k := s[k] + x];
    if k == |s| - 1 {
      assert t[..|t| - 1] == s[..|s| - 1];
    } else {
      assert t[..|t| - 1] == s[..|s| - 1][k := s[k] + x];
      SumAdd(s[..|s| - 1], k, x);
    }
  }

  /** Cells holding x in slot 0 and 0 everywhere else sum to x. */
  lemma {:induction false} SumFirstOnly(s: seq<int>)
    requires |s| >= 1
    requires forall j :: 1 <= j < |s| ==> s[j] == 0
    ensures Sum(s) == s[0]
    decreases |s|
  {
    if |s| > 1 {
      SumFirstOnly(s[..|s| - 1]);
    }
  }

  /** Bitwise and of two naturals, bit by bit from the lowest; on values below 2^64 it is the
      `&` of two usize words. */
  function And(a: nat, b: nat): (r: nat)
    ensures r <= a && r <= b
    decreases a
  {
    if a == 0 || b == 0 then 0
    else 2 * And(a / 2, b / 2) + (if a % 2 == 1 && b % 2 == 1 then 1 else 0)
  }

  /** The counter cell a thread hash selects, `h & (len - 1)`: always a valid index, and never
      above the hash itself. */
  function CellIndex(h: nat, len: nat): (i: nat)
    requires len >= 1
    ensures i < len && i <= h
  {
    And(h, len - 1)
  }

  /** Halving a dividend halves its remainder modulo an even divisor, less the lowest bit. */
  lemma RemainderOfHalf(h: nat, p: nat)
    requires p >= 1
    ensures h % (2 * p) == 2 * ((h / 2) % p) + h % 2
  {
    var q, r := (h / 2) / p, (h / 2) % p;
    assert h == 2 * (h / 2) + h % 2;
    assert h / 2 == p * q + r;
    assert h == (2 * p) * q + (2 * r + h % 2);
    DivUnique(h, 2 * p, q, 2 * r + h % 2);
  }

  /** Against an odd mask m = 2q + 1 the lowest bit of h survives and the rest of h is masked
      by q. */
  lemma AndOddMask(h: nat, m: nat, q: nat)
    requires m == 2 * q + 1
    ensures And(h, m) == 2 * And(h / 2, q) + h % 2
  {
    assert m / 2 == q && m % 2 == 1;
  }

  /** One bit further: if masking h / 2 with q leaves its remainder modulo q + 1, masking h
      with 2q + 1 leaves its remainder modulo 2q + 2. */
  lemma MaskStep(h: nat, q: nat)
    requires And(h / 2, q) == (h / 2) % (q + 1)
    ensures And(h, 2 * q + 1) == h % (2 * q + 2)
  {
    AndOddMask(h, 2 * q + 1, q);
    RemainderOfHalf(h, q + 1);
  }

  /** Masking with 2^k - 1 keeps the low k bits, which is the remainder modulo 2^k. */
  lemma {:induction false} MaskIsRemainder(h: nat, k: nat)
    ensures And(h, Pow2(k) - 1) == h % Pow2(k)
    decreases k
  {
    if k == 0 {
      assert Pow2(k) - 1 == 0;
    } else {
      var p := Pow2(k - 1);
      assert Pow2(k) == 2 * p;
      MaskIsRemainder(h / 2, k - 1);
      MaskStep(h, p - 1);
      assert 2 * (p - 1) + 1 == Pow2(k) - 1 && 2 * (p - 1) + 2 == Pow2(k);
    }
  }

  /** On the power-of-two cell counts the cells are created with, the masked index is the hash
      modulo the cell count: every cell is reachable, and hashes a cell count apart share one. */
  lemma CellIndexIsRemainder(h: nat, len: nat)
    requires IsPowerOfTwo(len)
    ensures CellIndex(h, len) == h % len
  {
    var k :| len == Pow2(k);
    MaskIsRemainder(h, k);
  }
}
