/**
 * Value objects of the domain: the pixel window and the operations on a
 * Cryptomatte ID (`CryptoID.to_hex`, `CryptoID.to_rgb`). An ID is the
 * binary32 float that a name hashes to; it is carried as its bit pattern,
 * and a manifest maps object names to those patterns.
 */
module ValueObjects {
  import opened Bits

  /** Height and width of an image, in pixels. */
  datatype PixelWindow = PixelWindow(height: int, width: int)

  /** Object name to ID bit pattern. */
  type Manifest = map<string, Bits32>

  /**
   * A string-valued header attribute: text, or a byte string, given by the
   * text it decodes to as UTF-8 (the empty byte string is `Bytes("")`).
   */
  datatype HeaderValue = Text(text: string) | Bytes(decoded: string)

  /** The attribute as text: byte strings are decoded. */
  function AsText(v: HeaderValue): string {
    match v
    case Text(s) => s
    case Bytes(s) => s
  }

  /** The lowercase hexadecimal digit for 0..15, as `format(d, 'x')` writes it. */
  function HexDigit(d: int): (c: char)
    requires 0 <= d < 16
    ensures IsHexDigit(c) && DigitValue(c) == d
    ensures !('A' <= c <= 'F')
  {
    if d < 10 then (48 + d) as char else (87 + d) as char
  }

  /** A character that `int(_, 16)` accepts as a digit. */
  predicate IsHexDigit(c: char) {
    '0' <= c <= '9' || 'a' <= c <= 'f' || 'A' <= c <= 'F'
  }

  /** The value of a hexadecimal digit of either case. */
  function DigitValue(c: char): (d: int)
    requires IsHexDigit(c)
    ensures 0 <= d < 16
  {
    if '0' <= c <= '9' then c as int - 48
    else if 'a' <= c <= 'f' then c as int - 87
    else c as int - 55
  }

  /** The number that a string of hex digits spells, most significant first. */
  function HexValue(s: string): (v: nat)
    requires forall i :: 0 <= i < |s| ==> IsHexDigit(s[i])
  {
    if s == [] then 0 else 16 * HexValue(s[..|s| - 1]) + DigitValue(s[|s| - 1])
  }

  function Pow16(n: nat): (p: nat)
    ensures p >= 1
  {
    if n == 0 then 1 else 16 * Pow16(n - 1)
  }

  /** The last `n` hex digits of `v`, zero-padded, most significant first. */
  function HexDigits(v: nat, n: nat): (s: string)
    ensures |s| == n
    ensures forall i :: 0 <= i < n ==> IsHexDigit(s[i]) && !('A' <= s[i] <= 'F')
  {
    if n == 0 then [] else HexDigits(v / 16, n - 1) + [HexDigit(v % 16)]
  }

  /** Reading back `n` digits of `v` gives `v` modulo 16^n. */
  lemma {:induction false} HexValueOfDigits(v: nat, n: nat)
    ensures HexValue(HexDigits(v, n)) == v % Pow16(n)
  {
    if n > 0 {
      var s := HexDigits(v, n);
      assert s[..n - 1] == HexDigits(v / 16, n - 1);
      HexValueOfDigits(v / 16, n - 1);
      SplitLowDigit(v, Pow16(n - 1));
    }
  }

  /** `v mod 16P` is the low digit of `v` plus 16 times `(v div 16) mod P`. */
  lemma SplitLowDigit(v: nat, p: nat)
    requires p >= 1
    ensures v % (16 * p) == 16 * ((v / 16) % p) + v % 16
  {
    var q, r := (v / 16) / p, (v / 16) % p;
    assert v / 16 == q * p + r;
    assert v == (q * p + r) * 16 + v % 16;
    assert v == q * (16 * p) + (16 * r + v % 16);
    assert 0 <= 16 * r + v % 16 < 16 * p;
    DivModUnique(v, 16 * p, q, 16 * r + v % 16);
  }

  /** Euclidean division has one quotient and one remainder. */
  lemma DivModUnique(x: int, d: int, q: int, r: int)
    requires d > 0 && x == q * d + r && 0 <= r < d
    ensures x / d == q && x % d == r
  {
    var k := q - x / d;
    assert k * d == x % d - r;
    if k >= 1 {
      MulAtLeast(k, d);
    } else if k <= -1 {
      MulAtLeast(-k, d);
    }
  }

  lemma {:induction false} MulAtLeast(k: int, d: int)
    requires k >= 1 && d > 0
    ensures k * d >= d
  {
    if k > 1 {
      MulAtLeast(k - 1, d);
      assert k * d == (k - 1) * d + d;
    }
  }

  lemma Pow16Of8()
    ensures Pow16(8) == Two32
  {
  }

  /** Eight hex digits spell any 32-bit pattern exactly. */
  lemma EightDigits(u: Bits32)
    ensures HexValue(HexDigits(u, 8)) == u
  {
    HexValueOfDigits(u, 8);
    Pow16Of8();
    DivModUnique(u, Two32, 0, u);
  }

  /**
   * `CryptoID.to_hex`: pack the float in the host's byte order, unpack the
   * same bytes as an unsigned 32-bit integer in that order and format it
   * with `08x`. Exactly eight lowercase hex digits that spell the ID's bit
   * pattern, most significant nibble first.
   */
  function ToHex(id: Bits32, host: ByteOrder): (s: string)
    ensures |s| == 8
    ensures forall i :: 0 <= i < 8 ==> IsHexDigit(s[i]) && !('A' <= s[i] <= 'F')
    ensures HexValue(s) == id
  {
    UnpackPack(id, host);
    EightDigits(id);
    HexDigits(Unpack(Pack(id, host), host), 8)
  }

  /** The 2^32 - 1 of `to_rgb`'s `mask`. */
  const MaxBits32: int := 0xFFFF_FFFF

  /**
   * `CryptoID.to_rgb`: a preview colour made of 0, the low 24 bits shifted
   * up by 8 and the low 16 bits shifted up by 16, each over 2^32 - 1.
   */
  function ToRgb(id: Bits32): (rgb: seq<real>)
    ensures |rgb| == 3 && rgb[0] == 0.0
    ensures forall k :: 0 <= k < 3 ==> 0.0 <= rgb[k] <= 1.0
  {
    var green := (id * 0x100) % Two32;
    var blue := (id * 0x1_0000) % Two32;
    [0.0, green as real / MaxBits32 as real, blue as real / MaxBits32 as real]
  }

  /**
   * `(bits << 8) & mask` keeps only the low 24 bits of the ID, and
   * `(bits << 16) & mask` only the low 16.
   */
  lemma ShiftsKeepLowBits(id: Bits32)
    ensures (id * 0x100) % Two32 == (id % Two24) * 0x100
    ensures (id * 0x1_0000) % Two32 == (id % 0x1_0000) * 0x1_0000
    ensures ToRgb(id)[1] == ((id % Two24) * 0x100) as real / MaxBits32 as real
    ensures ToRgb(id)[2] == ((id % 0x1_0000) * 0x1_0000) as real / MaxBits32 as real
  {
    DivModUnique(id * 0x100, Two32, id / Two24, (id % Two24) * 0x100);
    DivModUnique(id * 0x1_0000, Two32, id / 0x1_0000, (id % 0x1_0000) * 0x1_0000);
  }
}
