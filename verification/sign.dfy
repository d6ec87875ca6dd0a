/**
 * Two's-complement reinterpretation of N-bit fields (risc-v/__main__.py,
 * `toSigned32`, `toSigned16`, `toSigned8`, `toUnsigned32`).
 *
 * Each conversion moves a value by exactly one modulus when it lies in the
 * upper (resp. negative) half, so it never changes the value modulo 2^N.
 */
module Sign {
  import opened Words

  /** The signed reading of a 32-bit word. */
  function ToSigned32(x: int): (r: int)
    ensures 0 <= x < TWO_32 ==> -TWO_31 <= r < TWO_31 && (x - r) % TWO_32 == 0
    ensures 0 <= x < TWO_32 ==> ((r < 0) <==> x >= TWO_31)
  {
    if x > 2147483647 then -4294967296 + x else x
  }

  /** The signed reading of a 16-bit half-word. */
  function ToSigned16(x: int): (r: int)
    ensures 0 <= x < 0x1_0000 ==> -0x8000 <= r < 0x8000 && (x - r) % 0x1_0000 == 0
  {
    if x > 32767 then -65536 + x else x
  }

  /** The signed reading of a byte. */
  function ToSigned8(x: int): (r: int)
    ensures 0 <= x < 0x100 ==> -0x80 <= r < 0x80 && (x - r) % 0x100 == 0
  {
    if x > 127 then -256 + x else x
  }

  /** The unsigned 32-bit word that represents a (possibly negative) value. */
  function ToUnsigned32(x: int): (r: int)
    ensures -TWO_32 <= x < TWO_32 ==> 0 <= r < TWO_32 && (r - x) % TWO_32 == 0
  {
    if x < 0 then 4294967296 + x else x
  }

  /** Reading a word as signed and back gives the word. */
  lemma SignedRoundTrip(x: int)
    requires 0 <= x < TWO_32
    ensures ToUnsigned32(ToSigned32(x)) == x
  {
  }

  /** Representing a signed 32-bit value as a word and reading it back gives the value. */
  lemma UnsignedRoundTrip(y: int)
    requires -TWO_31 <= y < TWO_31
    ensures ToSigned32(ToUnsigned32(y)) == y
  {
  }

  /**
   * Widening a byte through `toSigned8` then `toUnsigned32` (the `lb` path)
   * keeps the byte as the low 8 bits and copies its top bit into bits 8..31.
   */
  lemma ByteSignExtension(v: int)
    requires 0 <= v < 0x100
    ensures var r := ToUnsigned32(ToSigned8(v));
      && 0 <= r < TWO_32
      && r % 0x100 == v
      && r / 0x100 == (if v >= 0x80 then 0xFF_FFFF else 0)
  {
  }

  /** The same for a half-word (the `lh` path). */
  lemma HalfSignExtension(v: int)
    requires 0 <= v < 0x1_0000
    ensures var r := ToUnsigned32(ToSigned16(v));
      && 0 <= r < TWO_32
      && r % 0x1_0000 == v
      && r / 0x1_0000 == (if v >= 0x8000 then 0xFFFF else 0)
  {
  }
}
