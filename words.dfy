/** The integer value of a 64-bit word that is a power of two. The solver relates the bits of a
    word to its integer value only one constant at a time, so the bridge is a case split over
    the 64 bit positions, with a table of powers of two for the exponent. */
module Words {
  import opened LeadingZeros
  import Bits

  /** 2^k for the lower half of the bit positions. */
  lemma Pow2Low()
    ensures Pow2(0) == 0x1
    ensures Pow2(1) == 0x2
    ensures Pow2(2) == 0x4
    ensures Pow2(3) == 0x8
    ensures Pow2(4) == 0x10
    ensures Pow2(5) == 0x20
    ensures Pow2(6) == 0x40
    ensures Pow2(7) == 0x80
    ensures Pow2(8) == 0x100
    ensures Pow2(9) == 0x200
    ensures Pow2(10) == 0x400
    ensures Pow2(11) == 0x800
    ensures Pow2(12) == 0x1000
    ensures Pow2(13) == 0x2000
    ensures Pow2(14) == 0x4000
    ensures Pow2(15) == 0x8000
    ensures Pow2(16) == 0x10000
    ensures Pow2(17) == 0x20000
    ensures Pow2(18) == 0x40000
    ensures Pow2(19) == 0x80000
    ensures Pow2(20) == 0x100000
    ensures Pow2(21) == 0x200000
    ensures Pow2(22) == 0x400000
    ensures Pow2(23) == 0x800000
    ensures Pow2(24) == 0x1000000
    ensures Pow2(25) == 0x2000000
    ensures Pow2(26) == 0x4000000
    ensures Pow2(27) == 0x8000000
    ensures Pow2(28) == 0x10000000
    ensures Pow2(29) == 0x20000000
    ensures Pow2(30) == 0x40000000
    ensures Pow2(31) == 0x80000000
  {
    assert Pow2(1) == 0x2;
    assert Pow2(2) == 0x4;
    assert Pow2(3) == 0x8;
    assert Pow2(4) == 0x10;
    assert Pow2(5) == 0x20;
    assert Pow2(6) == 0x40;
    assert Pow2(7) == 0x80;
    assert Pow2(8) == 0x100;
    assert Pow2(9) == 0x200;
    assert Pow2(10) == 0x400;
    assert Pow2(11) == 0x800;
    assert Pow2(12) == 0x1000;
    assert Pow2(13) == 0x2000;
    assert Pow2(14) == 0x4000;
    assert Pow2(15) == 0x8000;
    assert Pow2(16) == 0x10000;
    assert Pow2(17) == 0x20000;
    assert Pow2(18) == 0x40000;
    assert Pow2(19) == 0x80000;
    assert Pow2(20) == 0x100000;
    assert Pow2(21) == 0x200000;
    assert Pow2(22) == 0x400000;
    assert Pow2(23) == 0x800000;
    assert Pow2(24) == 0x1000000;
    assert Pow2(25) == 0x2000000;
    assert Pow2(26) == 0x4000000;
    assert Pow2(27) == 0x8000000;
    assert Pow2(28) == 0x10000000;
    assert Pow2(29) == 0x20000000;
    assert Pow2(30) == 0x40000000;
    assert Pow2(31) == 0x80000000;
  }

  /** 2^k for the upper half of the bit positions. */
  lemma Pow2High()
    ensures Pow2(32) == 0x100000000
    ensures Pow2(33) == 0x200000000
    ensures Pow2(34) == 0x400000000
    ensures Pow2(35) == 0x800000000
    ensures Pow2(36) == 0x1000000000
    ensures Pow2(37) == 0x2000000000
    ensures Pow2(38) == 0x4000000000
    ensures Pow2(39) == 0x8000000000
    ensures Pow2(40) == 0x10000000000
    ensures Pow2(41) == 0x20000000000
    ensures Pow2(42) == 0x40000000000
    ensures Pow2(43) == 0x80000000000
    ensures Pow2(44) == 0x100000000000
    ensures Pow2(45) == 0x200000000000
    ensures Pow2(46) == 0x400000000000
    ensures Pow2(47) == 0x800000000000
    ensures Pow2(48) == 0x1000000000000
    ensures Pow2(49) == 0x2000000000000
    ensures Pow2(50) == 0x4000000000000
    ensures Pow2(51) == 0x8000000000000
    ensures Pow2(52) == 0x10000000000000
    ensures Pow2(53) == 0x20000000000000
    ensures Pow2(54) == 0x40000000000000
    ensures Pow2(55) == 0x80000000000000
    ensures Pow2(56) == 0x100000000000000
    ensures Pow2(57) == 0x200000000000000
    ensures Pow2(58) == 0x400000000000000
    ensures Pow2(59) == 0x800000000000000
    ensures Pow2(60) == 0x1000000000000000
    ensures Pow2(61) == 0x2000000000000000
    ensures Pow2(62) == 0x4000000000000000
    ensures Pow2(63) == 0x8000000000000000
  {
    Pow2Low();
    Pow2Add(1, 31);
    Pow2Add(2, 31);
    Pow2Add(3, 31);
    Pow2Add(4, 31);
    Pow2Add(5, 31);
    Pow2Add(6, 31);
    Pow2Add(7, 31);
    Pow2Add(8, 31);
    Pow2Add(9, 31);
    Pow2Add(10, 31);
    Pow2Add(11, 31);
    Pow2Add(12, 31);
    Pow2Add(13, 31);
    Pow2Add(14, 31);
    Pow2Add(15, 31);
    Pow2Add(16, 31);
    Pow2Add(17, 31);
    Pow2Add(18, 31);
    Pow2Add(19, 31);
    Pow2Add(20, 31);
    Pow2Add(21, 31);
    Pow2Add(22, 31);
    Pow2Add(23, 31);
    Pow2Add(24, 31);
    Pow2Add(25, 31);
    Pow2Add(26, 31);
    Pow2Add(27, 31);
    Pow2Add(28, 31);
    Pow2Add(29, 31);
    Pow2Add(30, 31);
    Pow2Add(31, 31);
    Pow2Add(32, 31);
  }

  /** A power-of-two word below 2^32, as an integer and an exponent. This method has no
      counterpart in the map: it exists only to carry the fact that the word's integer value
      is a power of two, by one branch per bit position, which the solver cannot derive from
      the conversion directly. */
  method LowPowerValue(t: bv64) returns (r: int, ghost k: nat)
    requires Bits.IsPow2(t) && t <= 0xFFFF_FFFF
    ensures r == t as int && r == Pow2(k)
  {
    Pow2Low();
    if t == 0x1 {
      r, k := 0x1, 0;
    } else if t == 0x2 {
      r, k := 0x2, 1;
    } else if t == 0x4 {
      r, k := 0x4, 2;
    } else if t == 0x8 {
      r, k := 0x8, 3;
    } else if t == 0x10 {
      r, k := 0x10, 4;
    } else if t == 0x20 {
      r, k := 0x20, 5;
    } else if t == 0x40 {
      r, k := 0x40, 6;
    } else if t == 0x80 {
      r, k := 0x80, 7;
    } else if t == 0x100 {
      r, k := 0x100, 8;
    } else if t == 0x200 {
      r, k := 0x200, 9;
    } else if t == 0x400 {
      r, k := 0x400, 10;
    } else if t == 0x800 {
      r, k := 0x800, 11;
    } else if t == 0x1000 {
      r, k := 0x1000, 12;
    } else if t == 0x2000 {
      r, k := 0x2000, 13;
    } else if t == 0x4000 {
      r, k := 0x4000, 14;
    } else if t == 0x8000 {
      r, k := 0x8000, 15;
    } else if t == 0x10000 {
      r, k := 0x10000, 16;
    } else if t == 0x20000 {
      r, k := 0x20000, 17;
    } else if t == 0x40000 {
      r, k := 0x40000, 18;
    } else if t == 0x80000 {
      r, k := 0x80000, 19;
    } else if t == 0x100000 {
      r, k := 0x100000, 20;
    } else if t == 0x200000 {
      r, k := 0x200000, 21;
    } else if t == 0x400000 {
      r, k := 0x400000, 22;
    } else if t == 0x800000 {
      r, k := 0x800000, 23;
    } else if t == 0x1000000 {
      r, k := 0x1000000, 24;
    } else if t == 0x2000000 {
      r, k := 0x2000000, 25;
    } else if t == 0x4000000 {
      r, k := 0x4000000, 26;
    } else if t == 0x8000000 {
      r, k := 0x8000000, 27;
    } else if t == 0x10000000 {
      r, k := 0x10000000, 28;
    } else if t == 0x20000000 {
      r, k := 0x20000000, 29;
    } else if t == 0x40000000 {
      r, k := 0x40000000, 30;
    } else if t == 0x80000000 {
      r, k := 0x80000000, 31;
    } else {
      assert false;
    }
  }

  /** A power-of-two word from 2^32 up, as an integer and an exponent. This method has no
      counterpart in the map: it exists only to carry the fact that the word's integer value
      is a power of two, by one branch per bit position, which the solver cannot derive from
      the conversion directly. */
  method HighPowerValue(t: bv64) returns (r: int, ghost k: nat)
    requires Bits.IsPow2(t) && t > 0xFFFF_FFFF
    ensures r == t as int && r == Pow2(k)
  {
    Pow2High();
    if t == 0x100000000 {
      r, k := 0x100000000, 32;
    } else if t == 0x200000000 {
      r, k := 0x200000000, 33;
    } else if t == 0x400000000 {
      r, k := 0x400000000, 34;
    } else if t == 0x800000000 {
      r, k := 0x800000000, 35;
    } else if t == 0x1000000000 {
      r, k := 0x1000000000, 36;
    } else if t == 0x2000000000 {
      r, k := 0x2000000000, 37;
    } else if t == 0x4000000000 {
      r, k := 0x4000000000, 38;
    } else if t == 0x8000000000 {
      r, k := 0x8000000000, 39;
    } else if t == 0x10000000000 {
      r, k := 0x10000000000, 40;
    } else if t == 0x20000000000 {
      r, k := 0x20000000000, 41;
    } else if t == 0x40000000000 {
      r, k := 0x40000000000, 42;
    } else if t == 0x80000000000 {
      r, k := 0x80000000000, 43;
    } else if t == 0x100000000000 {
      r, k := 0x100000000000, 44;
    } else if t == 0x200000000000 {
      r, k := 0x200000000000, 45;
    } else if t == 0x400000000000 {
      r, k := 0x400000000000, 46;
    } else if t == 0x800000000000 {
      r, k := 0x800000000000, 47;
    } else if t == 0x1000000000000 {
      r, k := 0x1000000000000, 48;
    } else if t == 0x2000000000000 {
      r, k := 0x2000000000000, 49;
    } else if t == 0x4000000000000 {
      r, k := 0x4000000000000, 50;
    } else if t == 0x8000000000000 {
      r, k := 0x8000000000000, 51;
    } else if t == 0x10000000000000 {
      r, k := 0x10000000000000, 52;
    } else if t == 0x20000000000000 {
      r, k := 0x20000000000000, 53;
    } else if t == 0x40000000000000 {
      r, k := 0x40000000000000, 54;
    } else if t == 0x80000000000000 {
      r, k := 0x80000000000000, 55;
    } else if t == 0x100000000000000 {
      r, k := 0x100000000000000, 56;
    } else if t == 0x200000000000000 {
      r, k := 0x200000000000000, 57;
    } else if t == 0x400000000000000 {
      r, k := 0x400000000000000, 58;
    } else if t == 0x800000000000000 {
      r, k := 0x800000000000000, 59;
    } else if t == 0x1000000000000000 {
      r, k := 0x1000000000000000, 60;
    } else if t == 0x2000000000000000 {
      r, k := 0x2000000000000000, 61;
    } else if t == 0x4000000000000000 {
      r, k := 0x4000000000000000, 62;
    } else if t == 0x8000000000000000 {
      r, k := 0x8000000000000000, 63;
    } else {
      assert false;
    }
  }

  /** A power-of-two word is, as an integer, a power of two. */
  method PowerValue(t: bv64) returns (r: int)
    requires Bits.IsPow2(t)
    ensures r == t as int && IsPowerOfTwo(r)
  {
    ghost var k;
    if t <= 0xFFFF_FFFF {
      r, k := LowPowerValue(t);
    } else {
      r, k := HighPowerValue(t);
    }
  }
}
