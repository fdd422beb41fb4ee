/** Octets, and Go's 64-bit arithmetic. */
module Bytes {
  type byte = x: int | 0 <= x < 256
  type bytes = seq<byte>

  const INT64_MAX: int := 0x7FFF_FFFF_FFFF_FFFF

  predicate IsInt64(x: int) {
    -INT64_MAX - 1 <= x <= INT64_MAX
  }

  /** Two's complement wrap-around to 64 bits. */
  function ToInt64(x: int): (r: int)
    ensures -0x8000_0000_0000_0000 <= r < 0x8000_0000_0000_0000
    ensures (r - x) % 0x1_0000_0000_0000_0000 == 0
    ensures IsInt64(x) ==> r == x
  {
    (x + INT64_MAX + 1) % 0x1_0000_0000_0000_0000 - INT64_MAX - 1
  }
}
