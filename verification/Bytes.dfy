/** Octets and the helpers that the wire formats share. */
module Bytes {
  type byte = b: int | 0 <= b < 256

  /** Go's byte(n): the low eight bits of a length. */
  function ByteOf(n: nat): byte {
    n % 256
  }

  /** The concatenation of the segments in which a stream arrives. */
  function Flat<T>(segments: seq<seq<T>>): seq<T> {
    if segments == [] then [] else segments[0] + Flat(segments[1..])
  }

  function Min(a: int, b: int): int {
    if a <= b then a else b
  }

  function Max(a: int, b: int): int {
    if a >= b then a else b
  }
}
