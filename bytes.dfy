/** Bytes of a tensor buffer and their two C views.
    A tensor stores raw bytes; `data.uint8[i]` reads a byte as it is and
    `data.int8[i]` (or storing a `uint8_t` into an `int8_t`) reads the same
    byte as a two's-complement signed value. */
module Bytes {

  /** The values an `int8_t` can hold. */
  type Int8 = v: int | -128 <= v < 128

  /** The sign bit of a byte; flipping it is the pixel conversion. */
  const SignBit: bv8 := 0x80

  /** The signed (`int8_t`) reading of a raw byte: two's complement, so the
      result is the one value in [-128, 127] congruent to the byte mod 256. */
  function ToSigned(b: bv8): (v: Int8)
    ensures v % 256 == b as int
    ensures v < 0 <==> b & SignBit != 0
  {
    if b < 0x80 then b as int else b as int - 256
  }

  /** The signed reading loses nothing: different bytes read as different
      values, so the `int8` and `uint8` views of a byte determine each other. */
  lemma ToSignedInjective(a: bv8, b: bv8)
    ensures ToSigned(a) == ToSigned(b) ==> a == b
  {
  }

  /** Flipping the sign bit twice restores the byte. */
  lemma FlipSignBitInvolutive(b: bv8)
    ensures (b ^ SignBit) ^ SignBit == b
  {
  }

  /** Comparing two bytes as signed values is comparing them as unsigned
      values once their sign bits are flipped. */
  lemma SignedOrderIsFlippedUnsignedOrder(a: bv8, b: bv8)
    ensures ToSigned(a) < ToSigned(b) <==> (a ^ SignBit) < (b ^ SignBit)
  {
  }
}
