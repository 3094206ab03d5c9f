/** The fixed-width integer types of Poco/Types.h. */
module FixedWidth {
  const TWO_32: int := 0x1_0000_0000
  const TWO_63: int := 0x8000_0000_0000_0000
  const TWO_64: int := 0x1_0000_0000_0000_0000

  type UInt8 = x: int | 0 <= x < 0x100
  type Int64 = x: int | -TWO_63 <= x < TWO_63
  type UInt32 = x: int | 0 <= x < TWO_32
  type UInt64 = x: int | 0 <= x < TWO_64

  /** A signed 64-bit result, wrapped around as two's-complement hardware does. */
  function WrapInt64(x: int): (r: Int64)
    ensures (r - x) % TWO_64 == 0
    ensures -TWO_63 <= x < TWO_63 ==> r == x
  {
    var u := x % TWO_64;
    if u < TWO_63 then u else u - TWO_64
  }
}
