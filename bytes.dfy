/** Java's primitive `byte`: a signed two's-complement 8-bit value. */
module Bytes {

  type int8 = b: int | -128 <= b < 128

  /** `b & 0xff`: the unsigned value of the same eight bits. */
  function Unsigned(b: int8): (u: nat)
    ensures u < 256
    ensures u % 256 == b % 256
    ensures b >= 0 ==> u == b
  {
    if b < 0 then b + 256 else b
  }
}
