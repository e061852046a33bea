/** Machine integers of a 64-bit target, as the map's Rust code uses them. */
module MachineInt {

  const TWO_63: int := 0x8000_0000_0000_0000
  const TWO_64: int := 0x1_0000_0000_0000_0000

  /** Rust's `isize` on a 64-bit target. */
  type Isize = x: int | -0x8000_0000_0000_0000 <= x < 0x8000_0000_0000_0000

  /** Rust's `usize` on a 64-bit target. */
  type Usize = x: int | 0 <= x < 0x1_0000_0000_0000_0000

  /** Two's-complement wrap-around into `isize`: what `<<` on an `isize`, an `as isize`
      cast and release-build overflowing arithmetic do. */
  function WrapIsize(x: int): (r: Isize)
    ensures (r - x) % TWO_64 == 0
    ensures -TWO_63 <= x < TWO_63 ==> r == x
  {
    (x + TWO_63) % TWO_64 - TWO_63
  }
}
