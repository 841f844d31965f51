/** Go's fixed-width integers, with the wrap-around Go applies on conversion and overflow. */
module GoInts {

  const TWO_32: int := 0x1_0000_0000
  const MIN_INT32: int := -0x8000_0000
  const MAX_INT32: int := 0x7fff_ffff

  newtype int32 = x: int | -0x8000_0000 <= x < 0x8000_0000

  /** Go's `int`, modelled as 64 bits wide; 32-bit platforms are left out. */
  newtype int64 = x: int | -0x8000_0000_0000_0000 <= x < 0x8000_0000_0000_0000

  /** Go's conversion `int32(x)`, and the result of any int32 arithmetic that overflows:
      the unique int32 congruent to `x` modulo 2^32. */
  function ToInt32(x: int): (r: int32)
    ensures (r as int - x) % TWO_32 == 0
    ensures MIN_INT32 <= x <= MAX_INT32 ==> r as int == x
  {
    var low := x % TWO_32;
    if low <= MAX_INT32 then low as int32 else (low - TWO_32) as int32
  }
}
