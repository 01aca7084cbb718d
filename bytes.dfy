/** Bytes as the integers 0..255 that iterating over a byte string yields. */
module Bytes {

  type byte = x: int | 0 <= x < 256

  /** The unsigned 16-bit integer stored little-endian in the two bytes `lo`, `hi`. */
  function Le16(lo: byte, hi: byte): (r: nat)
    ensures r < 0x1_0000
    ensures r % 256 == lo && r / 256 == hi
  {
    lo + 256 * hi
  }
}
