/** JVM bytes: the signed 8-bit values that `ByteArray`, `MessageDigest.digest`
    and `String.toByteArray` deal in. */
module Bytes {

  /** A JVM `byte`: a two's-complement value in -128..127. */
  newtype Byte = b: int | -128 <= b < 128

  /** The unsigned reading of a byte, `b mod 256`, which is what Java's formatter prints
      for a negative `Byte` under a `%x` conversion. */
  function Unsigned(b: Byte): (u: int)
    ensures 0 <= u < 256
    ensures u % 256 == b as int % 256
    ensures b < 0 <==> u >= 128
  {
    if b < 0 then b as int + 256 else b as int
  }

  /** The byte whose unsigned reading is `u`: the narrowing `u.toByte()`. */
  function FromUnsigned(u: int): (b: Byte)
    requires 0 <= u < 256
    ensures Unsigned(b) == u
  {
    if u < 128 then u as Byte else (u - 256) as Byte
  }
}
