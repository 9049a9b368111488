/**
 Machine-width integer ranges used at the boundary of the difficulty rules, and the
 compact ("nBits") target codec that the rules call but do not define.
 */
module Types {

  /** Go `uint32`: compact targets and announcement ages. */
  type uint32 = x: int | 0 <= x < 0x1_0000_0000

  /** Go `uint64`: announcement counts. */
  type uint64 = x: int | 0 <= x < 0x1_0000_0000_0000_0000

  /** Go `byte`: one octet of a hash. */
  type byte = x: int | 0 <= x < 0x100

  /** The compact target codec (Bitcoin-style exponent + 3-byte mantissa).
      Its implementation lives outside the difficulty rules, so it is a parameter:
      every property below holds whatever the two functions compute.
      `compactToBig` may return a negative magnitude (the codec's sign bit);
      the rules themselves only ever fail when it returns -1. */
  datatype Codec = Codec(compactToBig: uint32 -> int, bigToCompact: int -> uint32)
}
