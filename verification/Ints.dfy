/** The range of the source's `int`. */
module Ints {
  const INT_MIN := -0x8000_0000
  const INT_MAX := 0x7FFF_FFFF

  type Int32 = x: int | INT_MIN <= x <= INT_MAX

  predicate InInt(x: int) {
    INT_MIN <= x <= INT_MAX
  }

  /** `x` after wrapping around. */
  function Wrapped(x: int): (r: Int32)
    ensures InInt(x) ==> r == x
  {
    (x - INT_MIN) % 0x1_0000_0000 + INT_MIN
  }
}
