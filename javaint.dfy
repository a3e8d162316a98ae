/** Java's 32-bit two's-complement `int`. */
module JavaInt {

  const INT_MIN: int := -0x8000_0000
  const INT_MAX: int := 0x7FFF_FFFF

  type Int32 = x: int | INT_MIN <= x <= INT_MAX

  /** The value Java's `int` addition leaves when the exact sum is `x`. */
  function Wrap(x: int): (r: Int32)
    ensures INT_MIN <= x <= INT_MAX ==> r == x
    ensures INT_MAX < x <= 2 * INT_MAX + 1 ==> r == x - 0x1_0000_0000
    ensures 2 * INT_MIN <= x < INT_MIN ==> r == x + 0x1_0000_0000
  {
    (x - INT_MIN) % 0x1_0000_0000 + INT_MIN
  }
}
