/**
 * The Cryptomatte name-to-ID rule of `MurmurHashService.hash_name_to_float`:
 * hash the name with MurmurHash3 (x86, 32-bit, seed 0), move a pattern whose
 * exponent field is 0 or 255 into the normal range by flipping bit 23, and
 * reinterpret the resulting 32 bits, packed and unpacked little-endian, as a
 * binary32 float. The float is represented by its bit pattern.
 *
 * MurmurHash3 itself is not part of this model: the hash is a parameter
 * `murmur` of type `string -> int`, the integer that `pymmh3.hash` returns
 * (signed, in [-2^31, 2^31), though nothing here depends on that range).
 */
module Hashing {
  import opened Bits

  /** Python's `h >> 23 & 255` on an arbitrary, possibly negative, integer. */
  function PyExponent(h: int): int {
    (h / Two23) % 256
  }

  /** Python's `h ^ (1 << 23)` on an arbitrary, possibly negative, integer. */
  function PyFlipBit23(h: int): int {
    if (h / Two23) % 2 == 0 then h + Two23 else h - Two23
  }

  /**
   * The fixed-up hash as the 32-bit pattern that `struct.pack('<L', h & 0xffffffff)`
   * receives. Its exponent field is never 0 or 255, so the float is never a
   * zero, a subnormal, an infinity or a NaN.
   */
  function FixupHash(h: int): (b: Bits32)
    ensures 1 <= ExponentField(b) <= 254
  {
    var e := PyExponent(h);
    var adjusted := if e == 0 || e == 255 then PyFlipBit23(h) else h;
    ExponentOfReduced(h);
    if e == 0 || e == 255 then
      FlipOfReduced(h);
      FlipExponent(h % Two32);
      adjusted % Two32
    else
      adjusted % Two32
  }

  /**
   * `hash_name_to_float`: the ID of a name, as the bit pattern of the float
   * that `struct.unpack('<f', struct.pack('<L', ...))` yields.
   */
  function HashNameToFloat(murmur: string -> int, name: string): (id: Bits32)
    ensures 1 <= ExponentField(id) <= 254
    ensures id == FixupHash(murmur(name))
  {
    var packed := Pack(FixupHash(murmur(name)), LittleEndian);
    UnpackPack(FixupHash(murmur(name)), LittleEndian);
    Unpack(packed, LittleEndian)
  }

  /** Adding a multiple of 2^32 shifts `x >> 23` by a multiple of 2^9. */
  lemma ShiftOfOffset(q: int, x: int)
    ensures (q * Two32 + x) / Two23 == q * 512 + x / Two23
  {
    var a, b := x / Two23, x % Two23;
    assert q * Two32 + x == (q * 512 + a) * Two23 + b;
  }

  /** Adding a multiple of 2^32 leaves the low 32 bits alone. */
  lemma LowBitsOfOffset(q: int, x: int)
    ensures (q * Two32 + x) % Two32 == x % Two32
  {
    var a, b := x / Two32, x % Two32;
    assert q * Two32 + x == (q + a) * Two32 + b;
  }

  /**
   * Python's `h >> 23 & 255` reads the exponent field of `h & 0xffffffff`,
   * for negative `h` too.
   */
  lemma ExponentOfReduced(h: int)
    ensures PyExponent(h) == ExponentField(h % Two32)
  {
    var q, u := h / Two32, h % Two32;
    ShiftOfOffset(q, u);
    assert (q * 512 + u / Two23) % 256 == (u / Two23) % 256;
  }

  /** Python's flip of bit 23 commutes with taking the low 32 bits. */
  lemma FlipOfReduced(h: int)
    ensures PyFlipBit23(h) % Two32 == PyFlipBit23(h % Two32)
  {
    var q, u := h / Two32, h % Two32;
    ShiftOfOffset(q, u);
    assert (h / Two23) % 2 == (u / Two23) % 2;
    assert PyFlipBit23(h) == q * Two32 + PyFlipBit23(u);
    LowBitsOfOffset(q, PyFlipBit23(u));
    FlipKeepsOtherBits(u);
  }

  /** The fix-up depends only on the unsigned 32-bit pattern of the hash. */
  lemma FixupOfReduced(h: int)
    ensures FixupHash(h) == FixupHash(h % Two32)
  {
    var u := h % Two32;
    ExponentOfReduced(h);
    ExponentOfReduced(u);
    if PyExponent(h) == 0 || PyExponent(h) == 255 {
      FlipOfReduced(h);
      FlipKeepsOtherBits(u);
    }
  }

  /**
   * A negative signed hash gives the same ID as its unsigned 32-bit
   * pattern `h + 2^32`.
   */
  lemma FixupSignedAsUnsigned(h: int)
    requires -Two31 <= h < 0
    ensures FixupHash(h) == FixupHash(h + Two32)
  {
    FixupOfReduced(h);
    FixupOfReduced(h + Two32);
    LowBitsOfOffset(1, h);
  }

  /** A hash already in the normal range is passed through unchanged. */
  lemma FixupKeepsNormal(h: int)
    requires 1 <= ExponentField(h % Two32) <= 254
    ensures FixupHash(h) == h % Two32
  {
    ExponentOfReduced(h);
  }

  /** Splitting a value at bit 24 and reading the parts back. */
  lemma SplitAt24(up: int, lo: int)
    requires 0 <= lo < Two24
    ensures (up * Two24 + lo) / Two24 == up
    ensures (up * Two24 + lo) % Two23 == lo % Two23
    ensures (up * Two24 + lo) / Two23 % 2 == lo / Two23
  {
    var x := up * Two24 + lo;
    assert x == (up * 2 + lo / Two23) * Two23 + lo % Two23;
  }

  /**
   * Flipping bit 23 of a 32-bit pattern keeps bits 0..22 and 24..31 and
   * changes bit 23.
   */
  lemma FlipKeepsOtherBits(u: Bits32)
    ensures 0 <= PyFlipBit23(u) < Two32
    ensures PyFlipBit23(u) % Two23 == u % Two23
    ensures PyFlipBit23(u) / Two24 == u / Two24
    ensures (PyFlipBit23(u) / Two23) % 2 != (u / Two23) % 2
  {
    var up, lo := u / Two24, u % Two24;
    SplitAt24(up, lo);
    if lo < Two23 {
      assert PyFlipBit23(u) == up * Two24 + (lo + Two23);
      SplitAt24(up, lo + Two23);
    } else {
      assert PyFlipBit23(u) == up * Two24 + (lo - Two23);
      SplitAt24(up, lo - Two23);
    }
  }

  /**
   * Only bit 23 can change: the sign bit, the mantissa (bits 0..22) and the
   * exponent bits 24..30 of the unsigned pattern are kept.
   */
  lemma FixupOnlyBit23(h: int)
    ensures FixupHash(h) % Two23 == (h % Two32) % Two23
    ensures FixupHash(h) / Two24 == (h % Two32) / Two24
    ensures FixupHash(h) != h % Two32 ==> Bit23(FixupHash(h)) != Bit23(h % Two32)
  {
    FixupOfReduced(h);
    var u := h % Two32;
    ExponentOfReduced(u);
    if ExponentField(u) == 0 || ExponentField(u) == 255 {
      FlipKeepsOtherBits(u);
      assert FixupHash(u) == PyFlipBit23(u);
    } else {
      assert FixupHash(u) == u;
    }
  }

  /** The exponent field is bit 23 plus twice bits 24..30. */
  lemma ExponentSplit(u: Bits32)
    ensures ExponentField(u) == (u / Two23) % 2 + 2 * ((u / Two24) % 128)
  {
    var t := u / Two23;
    assert u / Two24 == t / 2;
  }

  /** Flipping bit 23 takes exponent 0 to 1 and exponent 255 to 254. */
  lemma FlipExponent(u: Bits32)
    requires ExponentField(u) == 0 || ExponentField(u) == 255
    ensures 0 <= PyFlipBit23(u) < Two32
    ensures ExponentField(u) == 0 ==> ExponentField(PyFlipBit23(u)) == 1
    ensures ExponentField(u) == 255 ==> ExponentField(PyFlipBit23(u)) == 254
  {
    FlipKeepsOtherBits(u);
    ExponentSplit(u);
    ExponentSplit(PyFlipBit23(u));
  }

  /** Exponent 0 becomes 1 and exponent 255 becomes 254. */
  lemma FixupExponentCases(h: int)
    ensures ExponentField(h % Two32) == 0 ==> ExponentField(FixupHash(h)) == 1
    ensures ExponentField(h % Two32) == 255 ==> ExponentField(FixupHash(h)) == 254
  {
    var u := h % Two32;
    ExponentOfReduced(h);
    if ExponentField(u) == 0 || ExponentField(u) == 255 {
      FlipOfReduced(h);
      FlipExponent(u);
    }
  }
}
