/**
 * Turning a film into displayable colour: gamma correction, the saturating
 * float-to-byte conversion of a spectrum, the image buffer of a whole film
 * and the 0xRRGGBB packing used by the preview window.
 *
 * `powf` is a parameter `pow`; the float-to-integer casts of the source
 * (`as u8`, `as u32`) are written out: they truncate toward zero and
 * saturate at the bounds of the target type.
 */
module Utils {
  import opened Spectra
  import opened Films

  const GAMMA: real := 2.2
  const INV_GAMMA: real := 1.0 / GAMMA

  const MAX_U8: nat := 255
  const MAX_U32: nat := 0xFFFF_FFFF

  /** The power function `x.powf(e)`. */
  type Pow = (real, real) -> real

  /** Every channel lies in [0, 1]. */
  predicate InUnit(s: Spectrum)
  {
    0.0 <= s.r <= 1.0 && 0.0 <= s.g <= 1.0 && 0.0 <= s.b <= 1.0
  }

  /** Raising to `INV_GAMMA` keeps [0, 1] inside [0, 1], as `powf` does for an exponent in (0, 1]. */
  ghost predicate PowKeepsUnit(pow: Pow)
  {
    forall x: real :: 0.0 <= x <= 1.0 ==> 0.0 <= pow(x, INV_GAMMA) <= 1.0
  }

  /** Gamma correction of one channel and, channel by channel, of a spectrum. */
  function GammaChannel(x: real, pow: Pow): real
  {
    pow(x, INV_GAMMA)
  }

  function GammaCorrection(s: Spectrum, pow: Pow): (g: Spectrum)
    ensures InUnit(s) && PowKeepsUnit(pow) ==> InUnit(g)
    ensures pow(0.0, INV_GAMMA) == 0.0 && IsBlack(s) ==> IsBlack(g)
  {
    Spectrum(GammaChannel(s.r, pow), GammaChannel(s.g, pow), GammaChannel(s.b, pow))
  }

  /**
   * `v as u8`: truncation toward zero, saturating at 0 and 255 (NaN, which
   * a real cannot be, also gives 0).
   */
  function CastU8(v: real): (n: nat)
    ensures n <= MAX_U8
    ensures 0.0 <= v < (MAX_U8 + 1) as real ==> n as real <= v < (n + 1) as real
    ensures v < 0.0 ==> n == 0
    ensures v >= (MAX_U8 + 1) as real ==> n == MAX_U8
  {
    if v <= 0.0 then 0 else if v >= MAX_U8 as real then MAX_U8 else v.Floor
  }

  /** `v as u32`: the same truncating, saturating cast onto [0, 2^32 - 1]. */
  function CastU32(v: real): (n: nat)
    ensures n <= MAX_U32
    ensures 0.0 <= v < (MAX_U32 + 1) as real ==> n as real <= v < (n + 1) as real
    ensures v < 0.0 ==> n == 0
    ensures v >= (MAX_U32 + 1) as real ==> n == MAX_U32
  {
    if v <= 0.0 then 0 else if v >= MAX_U32 as real then MAX_U32 else v.Floor
  }

  /** The two casts agree wherever the value fits in a byte. */
  lemma CastsAgree(v: real)
    requires v <= MAX_U8 as real
    ensures CastU32(v) == CastU8(v)
  {
  }

  /** One channel scaled to [0, 255] and cast to a byte. */
  function Quantise(c: real): (n: nat)
    ensures n <= MAX_U8
    ensures 0.0 <= c <= 1.0 ==> n as real <= c * 255.0 < (n + 1) as real
    ensures c <= 0.0 ==> n == 0
    ensures c >= 1.0 ==> n == MAX_U8
  {
    CastU8(c * 255.0)
  }

  /** `From<Spectrum> for [u8; 3]`: the red, green and blue bytes. */
  function ToBytes(s: Spectrum): (bytes: seq<nat>)
    ensures |bytes| == 3
    ensures forall k :: 0 <= k < 3 ==> bytes[k] <= MAX_U8
    ensures bytes[0] == Quantise(s.r) && bytes[1] == Quantise(s.g) && bytes[2] == Quantise(s.b)
  {
    [Quantise(s.r), Quantise(s.g), Quantise(s.b)]
  }

  /** Black gives three zero bytes and white three 255 bytes. */
  lemma BytesOfBlackWhite()
    ensures ToBytes(Black()) == [0, 0, 0]
    ensures ToBytes(White()) == [MAX_U8, MAX_U8, MAX_U8]
  {
  }

  /** Bytes are monotone in the channel: a brighter channel never gives a smaller byte. */
  lemma {:induction false} QuantiseMonotone(c: real, d: real)
    requires c <= d
    ensures Quantise(c) <= Quantise(d)
  {
    var v, w := c * 255.0, d * 255.0;
    assert v <= w;
    if 0.0 < v < MAX_U8 as real && 0.0 < w < MAX_U8 as real {
      assert v.Floor as real <= v <= w < (w.Floor + 1) as real;
    }
  }

  /** An RGB image of `width` x `height` pixels stored row by row, pixel `(x, y)` at `x + y * width`. */
  datatype ImageBuffer = ImageBuffer(width: nat, height: nat, pixels: seq<seq<nat>>)

  /**
   * `ToImageBuffer for Film`: an image of the film's size whose pixels are
   * the bytes of the gamma-corrected film values (see `ImagePixel`).
   */
  function ToImageBuffer(film: Film, pow: Pow): (img: ImageBuffer)
    requires film.Valid()
    reads film.data
    ensures img.width == film.width && img.height == film.height
    ensures |img.pixels| == img.width * img.height
    ensures forall k :: 0 <= k < |img.pixels| ==> |img.pixels[k]| == 3
  {
    ImageBuffer(film.width, film.height,
                seq(film.width * film.height, i requires 0 <= i < film.data.Length reads film.data =>
                  ToBytes(GammaCorrection(film.data[i], pow))))
  }

  /** Pixel `(x, y)` of the image holds the bytes of the gamma-corrected value `film.at(x, y)`. */
  lemma ImagePixel(film: Film, pow: Pow, x: nat, y: nat)
    requires film.Valid() && x < film.width && y < film.height
    ensures IndexUnchecked(film.width, x, y) < |ToImageBuffer(film, pow).pixels|
    ensures ToImageBuffer(film, pow).pixels[IndexUnchecked(film.width, x, y)]
         == ToBytes(GammaCorrection(film.At(x, y).value, pow))
  {
    IndexInBounds(film.width, film.height, x, y);
  }

  /** 2 to the power `k`. */
  function Pow2(k: nat): (p: nat)
    ensures p >= 1
  {
    if k == 0 then 1 else 2 * Pow2(k - 1)
  }

  /** `x << k` on a `u32`: bits shifted past bit 31 are lost; when none is, the shift is multiplication by `2^k`. */
  function Shl32(x: nat, k: nat): (y: nat)
    ensures y <= MAX_U32
    ensures x * Pow2(k) <= MAX_U32 ==> y == x * Pow2(k)
  {
    (x * Pow2(k)) % (MAX_U32 + 1)
  }

  /**
   * Bitwise or of two naturals, bit by bit from the lowest. It keeps every
   * bit of both operands, so it is at least each of them, and it never
   * exceeds their sum, which it reaches when no bit is set in both.
   */
  function Or(a: nat, b: nat): (r: nat)
    ensures a <= r && b <= r && r <= a + b
    decreases a + b
  {
    if a == 0 then b
    else if b == 0 then a
    else 2 * Or(a / 2, b / 2) + (if a % 2 == 1 || b % 2 == 1 then 1 else 0)
  }

  /** Or-ing a value below 2^k into a multiple of 2^k is addition: the bits do not meet. */
  lemma {:induction false} OrDisjoint(a: nat, b: nat, k: nat)
    requires b < Pow2(k)
    ensures Or(a * Pow2(k), b) == a * Pow2(k) + b
  {
    if k == 0 || a == 0 || b == 0 {
    } else {
      var p := Pow2(k - 1);
      assert a * Pow2(k) == 2 * (a * p);
      assert (a * Pow2(k)) / 2 == a * p && (a * Pow2(k)) % 2 == 0;
      assert b / 2 < p;
      OrDisjoint(a, b / 2, k - 1);
    }
  }

  /**
   * Red in bits 16-23, green in bits 8-15, blue in bits 0-7 of a `u32`. For
   * three bytes the packed value is `r * 2^16 + g * 2^8 + b`, below 2^24,
   * and shift and mask give each byte back.
   */
  function Pack(r: nat, g: nat, b: nat): (p: nat)
    ensures r <= MAX_U8 && g <= MAX_U8 && b <= MAX_U8 ==>
              p == r * 0x1_0000 + g * 0x100 + b && p < 0x100_0000 && Unpack(p) == [r, g, b]
  {
    var p := Or(Or(Shl32(r, 16), Shl32(g, 8)), b);
    if r <= MAX_U8 && g <= MAX_U8 && b <= MAX_U8 then
      OrOfShiftedBytes(r, g, b);
      UnpackSum(r, g, b);
      p
    else
      p
  }

  /** Bits 16-23, 8-15 and 0-7 of a packed colour, as bytes. */
  function Unpack(h: nat): (bytes: seq<nat>)
    ensures |bytes| == 3 && forall k :: 0 <= k < 3 ==> bytes[k] <= MAX_U8
  {
    [(h / 0x1_0000) % 0x100, (h / 0x100) % 0x100, h % 0x100]
  }

  lemma Pow2Values()
    ensures Pow2(8) == 0x100 && Pow2(16) == 0x1_0000
  {
    assert Pow2(4) == 16;
    assert Pow2(8) == 0x100;
  }

  /** Shifting both operands left by one bit shifts their or by one bit. */
  lemma OrDouble(x: nat, y: nat)
    ensures Or(2 * x, 2 * y) == 2 * Or(x, y)
  {
    assert (2 * x) / 2 == x && (2 * x) % 2 == 0;
    assert (2 * y) / 2 == y && (2 * y) % 2 == 0;
  }

  /** Shifting both operands left by `k` bits shifts their or by `k` bits. */
  lemma {:induction false} OrScale(a: nat, b: nat, k: nat)
    ensures Or(a * Pow2(k), b * Pow2(k)) == Or(a, b) * Pow2(k)
  {
    if k > 0 && a != 0 && b != 0 {
      var p := Pow2(k - 1);
      var x, y, o := a * p, b * p, Or(a, b);
      TwiceProduct(a, p);
      TwiceProduct(b, p);
      TwiceProduct(o, p);
      OrDouble(x, y);
      OrScale(a, b, k - 1);
    }
  }

  lemma TwiceProduct(a: nat, p: nat)
    ensures a * (2 * p) == 2 * (a * p)
    ensures a >= 1 && p >= 1 ==> a * p >= 1
  {
  }

  /** Or-ing bytes shifted to bits 16-23 and 8-15 with a byte in bits 0-7 adds them. */
  lemma {:induction false} OrOfShiftedBytes(r: nat, g: nat, b: nat)
    requires r <= MAX_U8 && g <= MAX_U8 && b <= MAX_U8
    ensures Or(Or(Shl32(r, 16), Shl32(g, 8)), b) == r * 0x1_0000 + g * 0x100 + b
  {
    Pow2Values();
    var rr := r * 0x100;
    var hi := rr + g;
    assert rr * 0x100 == r * 0x1_0000 <= 0xFF_0000;
    assert Shl32(r, 16) == rr * Pow2(8);
    OrScale(rr, g, 8);
    OrDisjoint(r, g, 8);
    OrDisjoint(hi, b, 8);
    assert hi * 0x100 + b == r * 0x1_0000 + g * 0x100 + b;
  }

  /** Shift and mask take `r * 2^16 + g * 2^8 + b` apart into its three bytes. */
  lemma UnpackSum(r: nat, g: nat, b: nat)
    requires r <= MAX_U8 && g <= MAX_U8 && b <= MAX_U8
    ensures r * 0x1_0000 + g * 0x100 + b < 0x100_0000
    ensures Unpack(r * 0x1_0000 + g * 0x100 + b) == [r, g, b]
  {
    var hi := r * 0x100 + g;
    var lo := g * 0x100 + b;
    var h := hi * 0x100 + b;
    assert h == r * 0x1_0000 + lo;
    RowMajorSplit(0x100, b, hi);
    RowMajorSplit(0x100, g, r);
    RowMajorSplit(0x1_0000, lo, r);
    assert h / 0x100 == hi && h % 0x100 == b;
    assert h / 0x1_0000 == r;
  }

  /**
   * `to_hex_color` as written: each channel is scaled to [0, 255] and cast
   * with `as u32`, which does not stop at 255, before the shifts and ors.
   * On channels in [0, 1] the casts agree with the byte conversion, so the
   * written packing is the saturating one and unpacks to `ToBytes`.
   */
  function ToHexColorAsWritten(s: Spectrum): (h: nat)
    ensures InUnit(s) ==> h == ToHexColor(s) && h < 0x100_0000 && Unpack(h) == ToBytes(s)
  {
    var r, g, b := CastU32(s.r * 255.0), CastU32(s.g * 255.0), CastU32(s.b * 255.0);
    assert InUnit(s) ==> r == Quantise(s.r) && g == Quantise(s.g) && b == Quantise(s.b) by {
      if InUnit(s) {
        CastsAgree(s.r * 255.0);
        CastsAgree(s.g * 255.0);
        CastsAgree(s.b * 255.0);
      }
    }
    Pack(r, g, b)
  }

  /** The packed colour with each channel saturated to a byte first, as the `[u8; 3]` conversion does. */
  function ToHexColor(s: Spectrum): (h: nat)
    ensures h < 0x100_0000
    ensures Unpack(h) == ToBytes(s)
  {
    Pack(Quantise(s.r), Quantise(s.g), Quantise(s.b))
  }

  /** The written packing packs the three `as u32` channel values. */
  lemma HexAsWrittenOfChannels(s: Spectrum, r: nat, g: nat, b: nat)
    requires CastU32(s.r * 255.0) == r && CastU32(s.g * 255.0) == g && CastU32(s.b * 255.0) == b
    ensures ToHexColorAsWritten(s) == Pack(r, g, b)
  {
  }

  /** Black packs to 0 and white to 0xFFFFFF. */
  lemma HexOfBlackWhite()
    ensures ToHexColorAsWritten(Black()) == ToHexColor(Black()) == 0
    ensures ToHexColorAsWritten(White()) == ToHexColor(White()) == 0xFF_FFFF
  {
  }

  /**
   * A green channel of 2 (an over-exposed pixel) becomes 510 = 0x1FE under
   * `as u32`; shifted by 8 it spills into the red byte, so the packed colour
   * reads as red 1, green 254 instead of saturated green.
   */
  lemma HexAsWrittenSpillsOver(s: Spectrum)
    requires s == Spectrum(0.0, 2.0, 0.0)
    ensures ToHexColorAsWritten(s) == 0x01_FE00
    ensures Unpack(ToHexColorAsWritten(s)) == [1, 254, 0]
    ensures Unpack(ToHexColorAsWritten(s)) != ToBytes(s)
  {
    var g := CastU32(s.g * 255.0);
    assert g == 510 by {
      assert s.g * 255.0 == 510.0;
    }
    assert CastU32(s.r * 255.0) == 0 && CastU32(s.b * 255.0) == 0 by {
      assert s.r * 255.0 == 0.0 && s.b * 255.0 == 0.0;
    }
    HexAsWrittenOfChannels(s, 0, g, 0);
    PackGreenOnly(g);
    assert g * 0x100 == 1 * 0x1_0000 + 254 * 0x100 + 0;
    UnpackSum(1, 254, 0);
    assert ToBytes(s)[0] == Quantise(0.0) == 0;
  }

  /** With red and blue zero, the packed colour is the green value shifted by 8 bits. */
  lemma PackGreenOnly(g: nat)
    requires g * 0x100 <= MAX_U32
    ensures Pack(0, g, 0) == g * 0x100
  {
    Pow2Values();
    assert Shl32(0, 16) == 0;
  }

  /** The saturating packing gives that pixel saturated green, the bytes of the `[u8; 3]` conversion. */
  lemma HexSaturates(s: Spectrum)
    requires s == Spectrum(0.0, 2.0, 0.0)
    ensures ToBytes(s) == [0, MAX_U8, 0]
    ensures ToHexColor(s) == 0x00_FF00
  {
  }
}
