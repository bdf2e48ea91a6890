/** Packed colours. A pixel travels through the program as one Java `int`
    laid out 0xAARRGGBB; `Pixel` is the decoded red/green/blue triple. */
module Pixels {

  /** An immutable colour triple: the three fields are set once, by the constructor. */
  datatype Pixel = Pixel(r: int, g: int, b: int)

  /** A value an 8-bit channel can hold. */
  predicate IsChannel(v: int) {
    0 <= v <= 255
  }

  predicate InRange(p: Pixel) {
    IsChannel(p.r) && IsChannel(p.g) && IsChannel(p.b)
  }

  /** A Java `int`: the packed word read as a signed 32-bit number, so an
      opaque colour (alpha 0xff) is negative. */
  type Word = w: int | -0x8000_0000 <= w < 0x8000_0000

  /** Bits 16..23. The unsigned shift `>>> 16` followed by `& 0xff` keeps
      bits 16..23 of the two's-complement word, which is the floor quotient by
      2^16 taken modulo 2^8 whatever the word's sign. */
  function GetRed(pixel: Word): (r: int)
    ensures IsChannel(r)
  {
    pixel / 0x1_0000 % 0x100
  }

  /** Bits 8..15. */
  function GetGreen(pixel: Word): (g: int)
    ensures IsChannel(g)
  {
    pixel / 0x100 % 0x100
  }

  /** Bits 0..7. */
  function GetBlue(pixel: Word): (b: int)
    ensures IsChannel(b)
  {
    pixel % 0x100
  }

  /** Bits 24..31, the alpha byte. */
  function GetAlpha(pixel: Word): (a: int)
    ensures IsChannel(a)
  {
    pixel / 0x100_0000 % 0x100
  }

  /** The colour a packed word denotes, as `java.awt.Color` would also read it. */
  function Decode(pixel: Word): (p: Pixel)
    ensures InRange(p)
  {
    Pixel(GetRed(pixel), GetGreen(pixel), GetBlue(pixel))
  }

  /** The word (a << 24) | (r << 16) | (g << 8) | b: the unsigned value, less
      2^32 when bit 31 is set. */
  function Pack(a: int, r: int, g: int, b: int): Word
    requires IsChannel(a) && IsChannel(r) && IsChannel(g) && IsChannel(b)
  {
    var u := a * 0x100_0000 + r * 0x1_0000 + g * 0x100 + b;
    if u < 0x8000_0000 then u else u - 0x1_0000_0000
  }

  /** Euclidean division by 2^8, 2^16 and 2^24 is determined by any quotient
      and in-range remainder. */
  lemma DivMod8(w: int, q: int, r: int)
    requires 0 <= r < 0x100 && w == q * 0x100 + r
    ensures w / 0x100 == q && w % 0x100 == r
  {
  }

  lemma DivMod16(w: int, q: int, r: int)
    requires 0 <= r < 0x1_0000 && w == q * 0x1_0000 + r
    ensures w / 0x1_0000 == q
  {
  }

  lemma DivMod24(w: int, q: int, r: int)
    requires 0 <= r < 0x100_0000 && w == q * 0x100_0000 + r
    ensures w / 0x100_0000 == q
  {
  }

  /** Unpacking a packed word gives back its four bytes: the extractors read
      their own byte and nothing of the others, the alpha byte included. */
  lemma UnpackPack(a: int, r: int, g: int, b: int)
    requires IsChannel(a) && IsChannel(r) && IsChannel(g) && IsChannel(b)
    ensures GetAlpha(Pack(a, r, g, b)) == a
    ensures Decode(Pack(a, r, g, b)) == Pixel(r, g, b)
  {
    var w := Pack(a, r, g, b);
    // The alpha byte as it sits in the signed word: a, or a - 256 when bit 31 is set.
    var sa := if a < 0x80 then a else a - 0x100;
    assert w == sa * 0x100_0000 + (r * 0x1_0000 + g * 0x100 + b);
    DivMod24(w, sa, r * 0x1_0000 + g * 0x100 + b);
    DivMod8(sa, sa / 0x100, a);
    DivMod16(w, sa * 0x100 + r, g * 0x100 + b);
    DivMod8(sa * 0x100 + r, sa, r);
    DivMod8(w, (sa * 0x100 + r) * 0x100 + g, b);
    DivMod8((sa * 0x100 + r) * 0x100 + g, sa * 0x100 + r, g);
  }

  /** Every word is the packing of its four bytes. */
  lemma PackUnpack(w: Word)
    ensures w == Pack(GetAlpha(w), GetRed(w), GetGreen(w), GetBlue(w))
  {
    var q1 := w / 0x100;
    var q2 := q1 / 0x100;
    var q3 := q2 / 0x100;
    assert w == q1 * 0x100 + GetBlue(w);
    assert q1 == q2 * 0x100 + GetGreen(w);
    DivMod16(w, q2, GetGreen(w) * 0x100 + GetBlue(w));
    assert q2 == q3 * 0x100 + GetRed(w);
    DivMod24(w, q3, GetRed(w) * 0x1_0000 + GetGreen(w) * 0x100 + GetBlue(w));
    assert -0x80 <= q3 < 0x80;
    DivMod8(q3, if q3 < 0 then -1 else 0, GetAlpha(w));
  }

  /** The alpha byte never reaches the colour: words that differ only in alpha decode alike. */
  lemma AlphaIgnored(a1: int, a2: int, r: int, g: int, b: int)
    requires IsChannel(a1) && IsChannel(a2) && IsChannel(r) && IsChannel(g) && IsChannel(b)
    ensures Decode(Pack(a1, r, g, b)) == Decode(Pack(a2, r, g, b))
  {
    UnpackPack(a1, r, g, b);
    UnpackPack(a2, r, g, b);
  }
}
