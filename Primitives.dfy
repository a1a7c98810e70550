/** Fixed-width values of the runtime: byte, int and long. */
module Primitives {

  /** System.Byte */
  type byte = x: int | 0 <= x < 0x100

  /** System.Int32 */
  type Int32 = x: int | -0x8000_0000 <= x < 0x8000_0000

  /** System.Int64 */
  type Int64 = x: int | -0x8000_0000_0000_0000 <= x < 0x8000_0000_0000_0000

  /** Unchecked 32-bit arithmetic: the value of x wrapped around into Int32. */
  function Wrap32(x: int): (r: Int32)
    ensures 0x8000_0000 <= x < 0x1_8000_0000 ==> r == x - 0x1_0000_0000
    ensures -0x1_8000_0000 <= x < -0x8000_0000 ==> r == x + 0x1_0000_0000
    ensures -0x8000_0000 <= x < 0x8000_0000 ==> r == x
  {
    (x + 0x8000_0000) % 0x1_0000_0000 - 0x8000_0000
  }
}
