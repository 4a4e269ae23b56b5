/** The `int` of the i686 target: two's complement, 32 bits. */
module Int32 {
  const INT_MAX := 0x7FFF_FFFF
  const INT_MIN := -0x8000_0000

  type int32 = x: int | INT_MIN <= x <= INT_MAX
}
