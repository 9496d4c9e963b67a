/** Bytes, and the range of a C long. */
module Bytes {
  type byte = b: int | 0 <= b < 256

  /** What `long` can hold on the 64-bit targets of the library. */
  const LONG_MAX: int := 0x7FFF_FFFF_FFFF_FFFF
}
