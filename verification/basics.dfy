/** Small shared vocabulary: optional values and bytes. */
module Basics {

  /** A value that may be absent; stands for a C pointer that may be NULL. */
  datatype Option<T> = None | Some(value: T)

  /** An unsigned 8-bit value, the element type of every byte buffer. */
  newtype Byte = x: int | 0 <= x < 256

  /** Carriage return and line feed. */
  const CR: Byte := 13
  const LF: Byte := 10

  /** The modulus of `size_t` on the LP64 targets the C code is written for. */
  const SizeMod: int := 0x1_0000_0000_0000_0000

  /** `size_t` arithmetic: reduce an exact integer result modulo 2^64. */
  function SizeT(x: int): (r: nat)
    ensures r < SizeMod
    ensures 0 <= x < SizeMod ==> r == x
    ensures -SizeMod <= x < 0 ==> r == x + SizeMod
  {
    x % SizeMod
  }

  function Min(a: int, b: int): (m: int)
    ensures m <= a && m <= b && (m == a || m == b)
  {
    if a <= b then a else b
  }

  function Max(a: int, b: int): (m: int)
    ensures m >= a && m >= b && (m == a || m == b)
  {
    if a >= b then a else b
  }
}
