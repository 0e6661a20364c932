/**
 * The four-byte little-endian field reader of the bitmap decoder.
 *
 * The header is held in a `char` array. On the target platforms `char` may be
 * signed (-128..127) or unsigned (0..255), so a header character is any value
 * in -128..255, and `SignedChar` / `UnsignedChar` give the two readings of one
 * stored byte.
 */
module LittleEndian {

  /** A byte of a file. */
  type byte = x: int | 0 <= x < 256

  /** The value of a `char`, signed or unsigned. */
  type CharValue = x: int | -128 <= x < 256

  const Two31: int := 0x8000_0000
  const Two32: int := 0x1_0000_0000

  /** The stored byte as a signed `char` holds it. */
  function SignedChar(b: byte): (c: CharValue)
    ensures -128 <= c < 128
    ensures c % 256 == b
  {
    if b < 128 then b else b - 256
  }

  /** The stored byte as an unsigned `char` holds it. */
  function UnsignedChar(b: byte): (c: CharValue)
    ensures 0 <= c < 256 && c == b
  {
    b
  }

  function SignedChars(bs: seq<byte>): (cs: seq<CharValue>)
    ensures |cs| == |bs|
    ensures forall i :: 0 <= i < |bs| ==> cs[i] == SignedChar(bs[i])
  {
    seq(|bs|, i requires 0 <= i < |bs| => SignedChar(bs[i]))
  }

  function UnsignedChars(bs: seq<byte>): (cs: seq<CharValue>)
    ensures |cs| == |bs|
    ensures forall i :: 0 <= i < |bs| ==> cs[i] == bs[i]
  {
    seq(|bs|, i requires 0 <= i < |bs| => UnsignedChar(bs[i]))
  }

  /**
   * `x & (0xFF * unit)` on the two's-complement bits of `x`, for a unit that
   * is a power of two: the eight bits starting at `unit`, kept in place.
   */
  function MaskByte(x: int, unit: int): int
    requires unit == 1 || unit == 0x100 || unit == 0x1_0000 || unit == 0x100_0000
  {
    (x / unit) % 256 * unit
  }

  /** The `int32_t` that a 32-bit pattern in 0 .. 2^32-1 converts to. */
  function AsInt32(u: int): (v: int)
    requires 0 <= u < Two32
    ensures -Two31 <= v < Two31
    ensures v % Two32 == u
  {
    if u < Two31 then u else u - Two32
  }

  /** The `uint32_t` that an `int32_t` converts to. */
  function AsUint32(v: int): (u: int)
    requires -Two31 <= v < Two31
    ensures 0 <= u < Two32
    ensures u % Two32 == v % Two32
    ensures v >= 0 ==> u == v
  {
    if v < 0 then v + Two32 else v
  }

  /** The unsigned value of four bytes, least significant first. */
  function LittleEndianValue(b0: byte, b1: byte, b2: byte, b3: byte): (u: int)
    ensures 0 <= u < Two32
  {
    b0 + 0x100 * (b1 + 0x100 * (b2 + 0x100 * b3))
  }

  /**
   * `ToInt32`: each character shifted into place and masked to its own eight
   * bits; the four masked fields are disjoint, so their bitwise OR is their
   * sum; the 32-bit pattern is then read as an `int32_t`.
   */
  function ToInt32(p: seq<CharValue>): (v: int)
    requires |p| == 4
    ensures -Two31 <= v < Two31
  {
    MaskedField(p[3], 0x100_0000); MaskedField(p[2], 0x1_0000);
    MaskedField(p[1], 0x100); MaskedField(p[0], 1);
    var bits := MaskByte(p[3] as int * 0x100_0000, 0x100_0000)
              + MaskByte(p[2] as int * 0x1_0000, 0x1_0000)
              + MaskByte(p[1] as int * 0x100, 0x100)
              + MaskByte(p[0] as int, 1);
    AsInt32(bits)
  }

  /** Shifting a character into place and masking it keeps only its low eight bits. */
  lemma MaskedField(c: CharValue, unit: int)
    requires unit == 1 || unit == 0x100 || unit == 0x1_0000 || unit == 0x100_0000
    ensures MaskByte(c as int * unit, unit) == (c % 256) * unit
  {
    assert (c as int * unit) / unit == c;
  }

  /**
   * The masking keeps a negative (signed) `char` from spreading its sign bits
   * over the higher fields: the result is the little-endian value of the four
   * characters taken as unsigned bytes, read as a two's-complement `int32_t`.
   */
  lemma ToInt32Value(p: seq<CharValue>)
    requires |p| == 4
    ensures ToInt32(p) == AsInt32(LittleEndianValue(p[0] % 256, p[1] % 256, p[2] % 256, p[3] % 256))
  {
    MaskedField(p[3], 0x100_0000); MaskedField(p[2], 0x1_0000);
    MaskedField(p[1], 0x100); MaskedField(p[0], 1);
  }

  /** The four bytes, least significant first, that store an `int32_t`. */
  function FromInt32(v: int): (bs: seq<byte>)
    requires -Two31 <= v < Two31
    ensures |bs| == 4
    ensures LittleEndianValue(bs[0], bs[1], bs[2], bs[3]) == AsUint32(v)
  {
    var u := AsUint32(v);
    var q1 := u / 0x100;
    var q2 := q1 / 0x100;
    var q3 := q2 / 0x100;
    [u % 0x100, q1 % 0x100, q2 % 0x100, q3]
  }

  /** Reading a stored field gives the same value whether `char` is signed or not. */
  lemma SignednessIrrelevant(bs: seq<byte>)
    requires |bs| == 4
    ensures ToInt32(SignedChars(bs)) == ToInt32(UnsignedChars(bs))
  {
    ToInt32Value(SignedChars(bs));
    ToInt32Value(UnsignedChars(bs));
    UnsignedBytes(bs);
  }

  /** Either reading of a stored byte, taken modulo 256, is the byte. */
  lemma UnsignedBytes(bs: seq<byte>)
    ensures forall i :: 0 <= i < |bs| ==> SignedChars(bs)[i] % 256 == bs[i]
    ensures forall i :: 0 <= i < |bs| ==> UnsignedChars(bs)[i] % 256 == bs[i]
  {
  }

  /** One base-256 digit split off a number. */
  lemma SplitDigit(b: byte, x: int)
    requires x >= 0
    ensures (b + 0x100 * x) / 0x100 == x
    ensures (b + 0x100 * x) % 0x100 == b
  {
  }

  /** Decoding what `FromInt32` stores gives the value back. */
  lemma FromInt32RoundTrip(v: int)
    requires -Two31 <= v < Two31
    ensures ToInt32(SignedChars(FromInt32(v))) == v
    ensures ToInt32(UnsignedChars(FromInt32(v))) == v
  {
    var bs := FromInt32(v);
    UnsignedBytes(bs);
    ToInt32Value(SignedChars(bs));
    ToInt32Value(UnsignedChars(bs));
    assert LittleEndianValue(bs[0], bs[1], bs[2], bs[3]) == AsUint32(v);
    assert AsInt32(AsUint32(v)) == v;
  }

  /** Storing what `ToInt32` reads gives the four bytes back. */
  lemma ToInt32RoundTrip(bs: seq<byte>)
    requires |bs| == 4
    ensures FromInt32(ToInt32(SignedChars(bs))) == bs
  {
    UnsignedBytes(bs);
    ToInt32Value(SignedChars(bs));
    var u := LittleEndianValue(bs[0], bs[1], bs[2], bs[3]);
    assert AsUint32(AsInt32(u)) == u;
    var x3: int := bs[3];
    var x2: int := bs[2] as int + 0x100 * x3;
    var x1: int := bs[1] as int + 0x100 * x2;
    assert u == bs[0] as int + 0x100 * x1;
    SplitDigit(bs[0], x1);
    SplitDigit(bs[1], x2);
    SplitDigit(bs[2], x3);
    var r := FromInt32(ToInt32(SignedChars(bs)));
    assert r == [bs[0], bs[1], bs[2], bs[3]];
  }

  /** A stored field reads as zero exactly when its four bytes are zero. */
  lemma FieldZero(bs: seq<byte>)
    requires |bs| == 4
    ensures ToInt32(SignedChars(bs)) == 0 <==> bs == [0, 0, 0, 0]
  {
    UnsignedBytes(bs);
    ToInt32Value(SignedChars(bs));
    if bs != [0, 0, 0, 0] {
      assert bs[0] != 0 || bs[1] != 0 || bs[2] != 0 || bs[3] != 0;
    }
  }

  /** A stored field reads as negative exactly when the top bit of its last byte is set. */
  lemma FieldNegative(bs: seq<byte>)
    requires |bs| == 4
    ensures ToInt32(SignedChars(bs)) < 0 <==> bs[3] >= 128
  {
    UnsignedBytes(bs);
    ToInt32Value(SignedChars(bs));
  }

  /** Read back as a `uint32_t`, a stored field is the plain little-endian value of its bytes. */
  lemma FieldBits(bs: seq<byte>)
    requires |bs| == 4
    ensures AsUint32(ToInt32(SignedChars(bs))) == LittleEndianValue(bs[0], bs[1], bs[2], bs[3])
  {
    UnsignedBytes(bs);
    ToInt32Value(SignedChars(bs));
  }
}
