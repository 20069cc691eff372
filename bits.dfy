/**
 * 32-bit patterns and the IEEE 754 binary32 fields that Cryptomatte IDs are
 * made of, plus the 4-byte packing that Python's `struct` module performs.
 *
 * A pattern is an unsigned integer below 2^32 rather than a `bv32`: every bit
 * operation the decoder performs (`>>`, `&`, `^`, `<<` on Python integers) is
 * division or remainder by a constant power of two on it.
 */
module Bits {

  /** An unsigned 32-bit value: the bit pattern of a binary32 float. */
  type Bits32 = x: int | 0 <= x < 0x1_0000_0000

  /** An unsigned 8-bit value. */
  type Byte = x: int | 0 <= x < 256

  const Two23: int := 0x80_0000
  const Two24: int := 0x100_0000
  const Two31: int := 0x8000_0000
  const Two32: int := 0x1_0000_0000

  /** The biased exponent field: bits 23..30 (IEEE 754-2008, section 3.4). */
  function ExponentField(b: Bits32): (e: int)
    ensures 0 <= e < 256
  {
    (b / Two23) % 256
  }

  /** The sign bit: bit 31. */
  function SignBit(b: Bits32): (s: int)
    ensures s == 0 || s == 1
  {
    b / Two31
  }

  /** The trailing significand field: bits 0..22. */
  function Mantissa(b: Bits32): (m: int)
    ensures 0 <= m < Two23
  {
    b % Two23
  }

  /** Bit 23, the lowest bit of the exponent field. */
  function Bit23(b: Bits32): (x: int)
    ensures x == 0 || x == 1
    ensures x == ExponentField(b) % 2
  {
    (b / Two23) % 2
  }

  /** The three fields make up the whole pattern. */
  lemma FieldsCompose(b: Bits32)
    ensures b == SignBit(b) * Two31 + ExponentField(b) * Two23 + Mantissa(b)
  {
  }

  /** A NaN: exponent all ones and a non-zero significand. */
  predicate IsNaN(b: Bits32) {
    ExponentField(b) == 255 && Mantissa(b) != 0
  }

  /** Positive or negative zero. */
  predicate IsZero(b: Bits32) {
    b % Two31 == 0
  }

  /**
   * IEEE 754 equality of two binary32 values given by their bit patterns:
   * a NaN equals nothing, the two zeros are equal, otherwise the patterns
   * must agree.
   */
  predicate FloatEq(a: Bits32, b: Bits32)
    ensures FloatEq(a, b) ==> !IsNaN(a) && !IsNaN(b)
    ensures a == b && !IsNaN(a) ==> FloatEq(a, b)
    ensures FloatEq(a, b) && !IsZero(a) ==> a == b
  {
    !IsNaN(a) && !IsNaN(b) && (a == b || (IsZero(a) && IsZero(b)))
  }

  /**
   * For a target whose exponent is in 1..254 (every hashed ID), float
   * equality and bitwise equality coincide.
   */
  lemma FloatEqIsBitEqForNormal(a: Bits32, t: Bits32)
    requires 1 <= ExponentField(t) <= 254
    ensures FloatEq(a, t) <==> a == t
  {
  }

  /** Byte order of `struct.pack` / `struct.unpack`. */
  datatype ByteOrder = LittleEndian | BigEndian

  /** `struct.pack('<L' or '>L', b)`: the four bytes of a 32-bit value. */
  function Pack(b: Bits32, order: ByteOrder): (bytes: seq<Byte>)
    ensures |bytes| == 4
  {
    var le := [b % 256, (b / 0x100) % 256, (b / 0x1_0000) % 256, b / 0x100_0000];
    if order == LittleEndian then le else [le[3], le[2], le[1], le[0]]
  }

  /** `struct.unpack` of four bytes as an unsigned 32-bit value. */
  function Unpack(bytes: seq<Byte>, order: ByteOrder): (b: Bits32)
    requires |bytes| == 4
  {
    var le := if order == LittleEndian then bytes else [bytes[3], bytes[2], bytes[1], bytes[0]];
    le[0] as int + 0x100 * le[1] as int + 0x1_0000 * le[2] as int + 0x100_0000 * le[3] as int
  }

  /**
   * Packing and unpacking with the same byte order gives the pattern back,
   * whatever that order is: it is the order used on both sides, not the
   * host's, that fixes the result.
   */
  lemma UnpackPack(b: Bits32, order: ByteOrder)
    ensures Unpack(Pack(b, order), order) == b
  {
    var b0, b1, b2, b3 := b % 256, (b / 0x100) % 256, (b / 0x1_0000) % 256, b / 0x100_0000;
    assert b / 0x100 == b1 + 0x100 * ((b / 0x100) / 0x100);
    assert (b / 0x100) / 0x100 == b / 0x1_0000;
    assert b / 0x1_0000 == b2 + 0x100 * ((b / 0x1_0000) / 0x100);
    assert (b / 0x1_0000) / 0x100 == b3;
  }

  /** Unpacking four bytes and packing the value again gives the same bytes. */
  lemma PackUnpack(bytes: seq<Byte>, order: ByteOrder)
    requires |bytes| == 4
    ensures Pack(Unpack(bytes, order), order) == bytes
  {
    var le: seq<int> := if order == LittleEndian then bytes else [bytes[3], bytes[2], bytes[1], bytes[0]];
    var v := Unpack(bytes, order);
    assert v == le[0] + 0x100 * (le[1] + 0x100 * (le[2] + 0x100 * le[3]));
    assert v % 256 == le[0];
    assert v / 0x100 == le[1] + 0x100 * (le[2] + 0x100 * le[3]);
    assert v / 0x1_0000 == (v / 0x100) / 0x100 == le[2] + 0x100 * le[3];
    assert v / 0x100_0000 == (v / 0x1_0000) / 0x100 == le[3];
  }
}
