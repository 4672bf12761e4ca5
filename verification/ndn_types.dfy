/** Machine integer widths, an Option type and the name component model
    shared by the decoder, the store and the response builder. */
module NdnTypes {

  const TWO_32: int := 0x1_0000_0000
  const TWO_64: int := 0x1_0000_0000_0000_0000

  type byte = b: int | 0 <= b < 0x100
  type int32 = x: int | -0x8000_0000 <= x < 0x8000_0000
  type uint64 = x: int | 0 <= x < 0x1_0000_0000_0000_0000

  datatype Option<T> = None | Some(value: T)

  /** The C++ conversion of a `uint64_t` into a 32-bit `int`: the value is
      reduced modulo 2^32 and read back in two's complement. */
  function ToInt32(n: uint64): (r: int32)
    ensures (n - r) % TWO_32 == 0
    ensures n < 0x8000_0000 ==> r == n
  {
    var m := n % TWO_32;
    if m < 0x8000_0000 then m else m - TWO_32
  }

  /** The C++ conversion of an `int` into a `uint64_t`: reduction modulo 2^64. */
  function ToUint64(x: int32): (r: uint64)
    ensures (r - x) % TWO_64 == 0
    ensures x >= 0 ==> r == x
  {
    if x >= 0 then x else TWO_64 + x
  }

  /** One component of a hierarchical name, classified by its leading byte:
      0xFD marks a version component, 0x00 a segment component, and any other
      leading byte a literal component. The payloads are what the name
      library's decoders yield: the 64-bit version, the 64-bit sequence number,
      or the URI form of the literal. */
  datatype Component =
    | VersionComponent(version: uint64)   // leading byte 0xFD
    | SegmentComponent(seqNum: uint64)    // leading byte 0x00
    | Literal(uri: string)                // any other leading byte

  type Name = seq<Component>

  /** The empty sequence is a right unit, and concatenation is associative
      (stated once so that proofs can cite them). */
  lemma AppendEmpty<T>(x: seq<T>)
    ensures x + [] == x
  {
  }

  lemma AppendAssoc<T>(x: seq<T>, y: seq<T>, z: seq<T>)
    ensures (x + y) + z == x + (y + z)
  {
  }
}
