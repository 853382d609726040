/**
  Small shared vocabulary: the 8-bit `BYTE` of the Windows headers with its
  wrapping increment, and the Option/Result wrappers used for events that may
  be absent and for operations that can end the process with a fatal error.
 */
module Basics {

  /** An unsigned 8-bit value, as held in a `BYTE` variable. */
  type Byte = x: int | 0 <= x < 256

  /** The number of distinct byte values; arithmetic on a `BYTE` wraps modulo this. */
  const ByteRange: nat := 256

  /** `b + 1` stored back into a `BYTE`: the increment wraps from 255 to 0. */
  function Succ(b: Byte): (r: Byte)
    ensures b < 255 ==> r == b + 1
    ensures b == 255 ==> r == 0
    ensures r == (b + 1) % ByteRange
  {
    if b == 255 then 0 else b + 1
  }

  datatype Option<+T> = None | Some(value: T)

  datatype Result<+T, +E> = Ok(value: T) | Err(error: E)
}
