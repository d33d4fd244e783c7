/** Small shared vocabulary: an optional value, complex numbers over reals and
    the C conversions the sources rely on. */
module Common {

  datatype Option<+T> = None | Some(value: T)

  /** A complex number `re + i*im`; the dispersion code returns n - i*k. */
  datatype Complex = Complex(re: real, im: real)
  {
    function Plus(b: Complex): Complex { Complex(re + b.re, im + b.im) }
    function Minus(b: Complex): Complex { Complex(re - b.re, im - b.im) }
    function Scale(t: real): Complex { Complex(re * t, im * t) }
  }

  function Abs(x: real): real { if x < 0.0 then -x else x }

  function Max(a: real, b: real): real { if a < b then b else a }

  /** The C cast `(int) x` of a double: rounding toward zero. */
  function Trunc(x: real): (r: int)
    ensures 0.0 <= x ==> r as real <= x < r as real + 1.0
    ensures x < 0.0 ==> r as real - 1.0 < x <= r as real
  {
    if x >= 0.0 then x.Floor else -((-x).Floor)
  }

  /** A non-zero real divided by itself is one. */
  lemma DivSelf(d: real)
    requires d != 0.0
    ensures d / d == 1.0
  {
    var q := d / d;
    assert q * d == d;
    assert (q - 1.0) * d == 0.0;
  }

  /** Linear interpolation `a + (b - a) * t` between two complex values. */
  function Lerp(a: Complex, b: Complex, t: real): (r: Complex)
    ensures t == 0.0 ==> r == a
    ensures t == 1.0 ==> r == b
  {
    a.Plus(b.Minus(a).Scale(t))
  }
}
