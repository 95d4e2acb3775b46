/**
 * A three-channel colour value (red, green, blue) and its algebra: every
 * binary operation between spectra acts channel by channel, the scalar
 * forms scale all three channels alike, and the compound-assignment forms
 * overwrite a spectrum variable with the binary operation's result.
 */
module Spectra {
  import opened Core

  datatype Spectrum = Spectrum(r: real, g: real, b: real)

  /** `Spectrum::new`: the arguments become the red, green and blue channels, in that order. */
  function New(r: real, g: real, b: real): (s: Spectrum)
    ensures s.r == r && s.g == g && s.b == b
  {
    Spectrum(r, g, b)
  }

  /** The same value in every channel. */
  function Uniform(f: real): (s: Spectrum)
    ensures s.r == s.g == s.b == f
  {
    Spectrum(f, f, f)
  }

  function Black(): (s: Spectrum)
    ensures s == Uniform(0.0)
  {
    Spectrum(0.0, 0.0, 0.0)
  }

  function White(): (s: Spectrum)
    ensures s.r == s.g == s.b == 1.0
  {
    Uniform(1.0)
  }

  /** `Default` for a spectrum is black. */
  function Default(): (s: Spectrum)
    ensures s.r == s.g == s.b == 0.0
  {
    Black()
  }

  /** The largest channel. */
  function Max(s: Spectrum): (m: real)
    ensures m >= s.r && m >= s.g && m >= s.b
    ensures m == s.r || m == s.g || m == s.b
  {
    var rg := if s.r >= s.g then s.r else s.g;
    if rg >= s.b then rg else s.b
  }

  /** The smallest channel. */
  function Min(s: Spectrum): (m: real)
    ensures m <= s.r && m <= s.g && m <= s.b
    ensures m == s.r || m == s.g || m == s.b
  {
    var rg := if s.r <= s.g then s.r else s.g;
    if rg <= s.b then rg else s.b
  }

  /** The sum of the channels; it lies between three times the smallest and three times the largest. */
  function Sum(s: Spectrum): (t: real)
    ensures 3.0 * Min(s) <= t <= 3.0 * Max(s)
  {
    s.r + s.g + s.b
  }

  /** Channel-wise difference: adding `b` back gives `a`; it is black exactly when the two spectra are equal. */
  function Sub(a: Spectrum, b: Spectrum): (s: Spectrum)
    ensures s.r + b.r == a.r && s.g + b.g == a.g && s.b + b.b == a.b
    ensures IsBlack(s) <==> a == b
  {
    Spectrum(a.r - b.r, a.g - b.g, a.b - b.b)
  }

  /** Channel-wise sum: subtracting either operand, channel by channel, gives back the other. */
  function Add(a: Spectrum, b: Spectrum): (s: Spectrum)
    ensures s.r - b.r == a.r && s.g - b.g == a.g && s.b - b.b == a.b
    ensures s.r - a.r == b.r && s.g - a.g == b.g && s.b - a.b == b.b
  {
    Spectrum(a.r + b.r, a.g + b.g, a.b + b.b)
  }

  predicate NonZero(s: Spectrum)
  {
    s.r != 0.0 && s.g != 0.0 && s.b != 0.0
  }

  /** Every channel is zero: the spectrum is `Black()`. */
  predicate IsBlack(s: Spectrum)
  {
    s.r == 0.0 && s.g == 0.0 && s.b == 0.0
  }

  /** No channel is negative, as for every physical radiance, weight or albedo. */
  predicate NonNegative(s: Spectrum)
  {
    s.r >= 0.0 && s.g >= 0.0 && s.b >= 0.0
  }

  /**
   * Channel-wise quotient; a zero channel would be an infinity or NaN in
   * floating point. Multiplying back by `b` gives `a`, and the quotient is
   * white exactly when the two spectra are equal.
   */
  function Div(a: Spectrum, b: Spectrum): (s: Spectrum)
    requires NonZero(b)
    ensures s.r * b.r == a.r && s.g * b.g == a.g && s.b * b.b == a.b
    ensures s == White() <==> a == b
  {
    Spectrum(a.r / b.r, a.g / b.g, a.b / b.b)
  }

  /**
   * Channel-wise product: a black factor gives black, and non-negative
   * factors (a throughput and a radiance, say) give a non-negative product.
   */
  function Mul(a: Spectrum, b: Spectrum): (s: Spectrum)
    ensures IsBlack(a) || IsBlack(b) ==> IsBlack(s)
    ensures NonNegative(a) && NonNegative(b) ==> NonNegative(s)
  {
    Spectrum(a.r * b.r, a.g * b.g, a.b * b.b)
  }

  /** `Div<Float>`: every channel divided by `k`; dividing by 1 changes nothing, and the result is black exactly when `a` is. */
  function DivScalar(a: Spectrum, k: real): (s: Spectrum)
    requires k != 0.0
    ensures k == 1.0 ==> s == a
    ensures IsBlack(s) <==> IsBlack(a)
  {
    Spectrum(a.r / k, a.g / k, a.b / k)
  }

  /** `Mul<Float>`: every channel multiplied by `k`; multiplying by 1 changes nothing, and the result is black exactly when `a` is or `k` is zero. */
  function MulScalar(a: Spectrum, k: real): (s: Spectrum)
    ensures k == 1.0 ==> s == a
    ensures IsBlack(s) <==> IsBlack(a) || k == 0.0
  {
    Spectrum(a.r * k, a.g * k, a.b * k)
  }

  /** `From<Vector3f>` and `From<Point3f>`: the three coordinates become the three channels. */
  function FromVec(v: Vec3): (s: Spectrum)
    ensures s.r == v.x && s.g == v.y && s.b == v.z
  {
    New(v.x, v.y, v.z)
  }

  /** `(a + b) - b == a`: subtraction undoes addition. */
  lemma AddSubCancel(a: Spectrum, b: Spectrum)
    ensures Sub(Add(a, b), b) == a
  {
  }

  /** `(a * b) / b == a` for a factor with no zero channel. */
  lemma MulDivCancel(a: Spectrum, b: Spectrum)
    requires NonZero(b)
    ensures Div(Mul(a, b), b) == a
  {
  }

  /** `(a * k) / k == a` for a nonzero scalar. */
  lemma MulScalarDivCancel(a: Spectrum, k: real)
    requires k != 0.0
    ensures DivScalar(MulScalar(a, k), k) == a
  {
  }

  /** `c - b + b`, the other half of the add/subtract inverse pair. */
  lemma SubAddCancel(a: Spectrum, b: Spectrum)
    ensures Add(Sub(a, b), b) == a
  {
  }

  /** `(a / b) * b == a` for a divisor with no zero channel. */
  lemma DivMulCancel(a: Spectrum, b: Spectrum)
    requires NonZero(b)
    ensures Mul(Div(a, b), b) == a
  {
  }

  /** `(a / k) * k == a` for a nonzero scalar. */
  lemma DivScalarMulCancel(a: Spectrum, k: real)
    requires k != 0.0
    ensures MulScalar(DivScalar(a, k), k) == a
  {
  }

  /** The unit test of the spectrum operations, over reals: the products and quotients. */
  lemma OpsExampleProducts()
    ensures Div(New(0.0, 1.0, 2.0), New(2.0, 2.0, 4.0)) == New(0.0, 0.5, 0.5)
    ensures Mul(New(0.0, 1.0, 2.0), New(2.0, 2.0, 4.0)) == New(0.0, 2.0, 8.0)
    ensures MulScalar(New(0.0, 1.0, 2.0), 2.0) == New(0.0, 2.0, 4.0)
  {
  }

  /** The unit test of the spectrum operations, over reals: the sum and the difference. */
  lemma OpsExampleSums()
    ensures Add(New(0.0, 1.0, 2.0), New(2.0, 2.0, 4.0)) == New(2.0, 3.0, 6.0)
    ensures Sub(New(0.0, 1.0, 2.0), New(2.0, 2.0, 4.0)) == New(-2.0, -1.0, -2.0)
  {
  }

  /** Black is the identity of `+` and absorbs `*`; white is the identity of `*`. */
  lemma BlackWhiteLaws(a: Spectrum)
    ensures Add(a, Black()) == a && Add(Black(), a) == a
    ensures Mul(a, Black()) == Black() && Mul(Black(), a) == Black()
    ensures Mul(a, White()) == a && Mul(White(), a) == a
  {
  }

  /**
   * A spectrum variable updated in place, as the `*Assign` operators update
   * `self`: each leaves the variable equal to the corresponding binary
   * operation applied to its old value.
   */
  class SpectrumVar {
    var r: real
    var g: real
    var b: real

    function Value(): Spectrum
      reads this
    {
      Spectrum(r, g, b)
    }

    constructor (s: Spectrum)
      ensures Value() == s
    {
      r, g, b := s.r, s.g, s.b;
    }

    method AddAssign(rhs: Spectrum)
      modifies this
      ensures Value() == Add(old(Value()), rhs)
    {
      r := r + rhs.r;
      g := g + rhs.g;
      b := b + rhs.b;
    }

    method SubAssign(rhs: Spectrum)
      modifies this
      ensures Value() == Sub(old(Value()), rhs)
    {
      r := r - rhs.r;
      g := g - rhs.g;
      b := b - rhs.b;
    }

    method MulAssign(rhs: Spectrum)
      modifies this
      ensures Value() == Mul(old(Value()), rhs)
    {
      r := r * rhs.r;
      g := g * rhs.g;
      b := b * rhs.b;
    }

    method MulAssignScalar(k: real)
      modifies this
      ensures Value() == MulScalar(old(Value()), k)
    {
      r := r * k;
      g := g * k;
      b := b * k;
    }

    method DivAssign(rhs: Spectrum)
      requires NonZero(rhs)
      modifies this
      ensures Value() == Div(old(Value()), rhs)
    {
      r := r / rhs.r;
      g := g / rhs.g;
      b := b / rhs.b;
    }

    method DivAssignScalar(k: real)
      requires k != 0.0
      modifies this
      ensures Value() == DivScalar(old(Value()), k)
    {
      r := r / k;
      g := g / k;
      b := b / k;
    }
  }
}
