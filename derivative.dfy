/**
 * The four finite-difference formulas. Each samples f at a few points
 * around x, spaced by h, and combines the samples in closed form.
 * With exact arithmetic each formula is exact on polynomials up to its
 * degree, and its error on the next degree is a fixed multiple of a power
 * of h; the lemmas below state both.
 */
module Derivative {

  /** Forward difference (f(x+h) - f(x)) / h, first-order accurate. */
  function FirstDerFirstPrec(x: real, h: real, f: real -> real): real
    requires h != 0.0
  {
    (f(x + h) - f(x)) / h
  }

  /** Central difference (f(x+h) - f(x-h)) / (2h), second-order accurate. */
  function FirstDerSymmSecondPrec(x: real, h: real, f: real -> real): real
    requires h != 0.0
  {
    (f(x + h) - f(x - h)) / (2.0 * h)
  }

  /** Second difference (f(x+h) - 2f(x) + f(x-h)) / h^2. */
  function SecondDerSecondPrec(x: real, h: real, f: real -> real): real
    requires h != 0.0
  {
    (f(x + h) - 2.0 * f(x) + f(x - h)) / (h * h)
  }

  /** Third difference (f(x+2h) - 2f(x+h) + 2f(x-h) - f(x-2h)) / (2h^3). */
  function ThirdDer(x: real, h: real, f: real -> real): real
    requires h != 0.0
  {
    (f(x + 2.0 * h) - 2.0 * f(x + h) + 2.0 * f(x - h) - f(x - 2.0 * h)) / (2.0 * h * h * h)
  }

  /** The value of a3*t^3 + a2*t^2 + a1*t + a0. */
  function Cubic(a3: real, a2: real, a1: real, a0: real, t: real): real
  {
    a3 * t * t * t + a2 * t * t + a1 * t + a0
  }

  /** The forward difference of a linear function m*t + c is its slope m. */
  lemma ForwardExactOnLinear(f: real -> real, m: real, c: real, x: real, h: real)
    requires h != 0.0
    requires forall t :: f(t) == m * t + c
    ensures FirstDerFirstPrec(x, h, f) == m
  {
    assert f(x + h) - f(x) == m * h;
  }

  /**
   * On a quadratic the forward difference misses the derivative
   * 2*a2*x + a1 by exactly a2*h: it is first-order accurate and no better.
   */
  lemma ForwardErrorOnQuadratic(f: real -> real, a2: real, a1: real, a0: real, x: real, h: real)
    requires h != 0.0
    requires forall t :: f(t) == Cubic(0.0, a2, a1, a0, t)
    ensures FirstDerFirstPrec(x, h, f) == 2.0 * a2 * x + a1 + a2 * h
  {
    assert f(x + h) - f(x) == (2.0 * a2 * x + a1 + a2 * h) * h;
  }

  /** The central difference of a quadratic is its exact derivative 2*a2*x + a1. */
  lemma SymmetricExactOnQuadratic(f: real -> real, a2: real, a1: real, a0: real, x: real, h: real)
    requires h != 0.0
    requires forall t :: f(t) == Cubic(0.0, a2, a1, a0, t)
    ensures FirstDerSymmSecondPrec(x, h, f) == 2.0 * a2 * x + a1
  {
    assert f(x + h) - f(x - h) == (2.0 * a2 * x + a1) * (2.0 * h);
  }

  /**
   * On a cubic the central difference misses the derivative
   * 3*a3*x^2 + 2*a2*x + a1 by exactly a3*h^2: it is second-order accurate.
   */
  lemma SymmetricErrorOnCubic(f: real -> real, a3: real, a2: real, a1: real, a0: real, x: real, h: real)
    requires h != 0.0
    requires forall t :: f(t) == Cubic(a3, a2, a1, a0, t)
    ensures FirstDerSymmSecondPrec(x, h, f) == 3.0 * a3 * x * x + 2.0 * a2 * x + a1 + a3 * h * h
  {
    SymmetricCombinationOfCubic(a3, a2, a1, a0, x, h);
    DivideByProduct(f(x + h) - f(x - h), 2.0, h, 3.0 * a3 * x * x + 2.0 * a2 * x + a1 + a3 * h * h);
  }

  /**
   * The combination the central difference takes of a cubic's values is
   * (3*a3*x^2 + 2*a2*x + a1 + a3*h^2)*(2h).
   */
  lemma SymmetricCombinationOfCubic(a3: real, a2: real, a1: real, a0: real, x: real, h: real)
    ensures Cubic(a3, a2, a1, a0, x + h) - Cubic(a3, a2, a1, a0, x - h)
            == (3.0 * a3 * x * x + 2.0 * a2 * x + a1 + a3 * h * h) * (2.0 * h)
  {
    var u, v := x + h, x - h;
    var cubes := u * u * u - v * v * v;
    var squares := u * u - v * v;
    assert cubes == 6.0 * x * x * h + 2.0 * h * h * h;
    assert squares == 4.0 * x * h;
    assert a3 * cubes == 6.0 * a3 * x * x * h + 2.0 * a3 * h * h * h;
    assert a2 * squares == 4.0 * a2 * x * h;
  }

  /**
   * The second difference of a cubic is its exact second derivative
   * 6*a3*x + 2*a2: the h^2 error term vanishes below degree four.
   */
  lemma SecondExactOnCubic(f: real -> real, a3: real, a2: real, a1: real, a0: real, x: real, h: real)
    requires h != 0.0
    requires forall t :: f(t) == Cubic(a3, a2, a1, a0, t)
    ensures SecondDerSecondPrec(x, h, f) == 6.0 * a3 * x + 2.0 * a2
  {
    SecondCombinationOfCubic(a3, a2, a1, a0, x, h);
    DivideByProduct(f(x + h) - 2.0 * f(x) + f(x - h), h, h, 6.0 * a3 * x + 2.0 * a2);
  }

  /** The second difference of a quadratic is its exact second derivative 2*a2. */
  lemma SecondExactOnQuadratic(f: real -> real, a2: real, a1: real, a0: real, x: real, h: real)
    requires h != 0.0
    requires forall t :: f(t) == Cubic(0.0, a2, a1, a0, t)
    ensures SecondDerSecondPrec(x, h, f) == 2.0 * a2
  {
    SecondExactOnCubic(f, 0.0, a2, a1, a0, x, h);
  }

  /** The combination the second difference takes of a cubic's values is (6*a3*x + 2*a2)*h^2. */
  lemma SecondCombinationOfCubic(a3: real, a2: real, a1: real, a0: real, x: real, h: real)
    ensures Cubic(a3, a2, a1, a0, x + h) - 2.0 * Cubic(a3, a2, a1, a0, x) + Cubic(a3, a2, a1, a0, x - h)
            == (6.0 * a3 * x + 2.0 * a2) * (h * h)
  {
    var u, v := x + h, x - h;
    var cubes := u * u * u - 2.0 * (x * x * x) + v * v * v;
    var squares := u * u - 2.0 * (x * x) + v * v;
    assert cubes == 6.0 * x * h * h;
    assert squares == 2.0 * h * h;
    assert a3 * cubes == 6.0 * a3 * x * (h * h);
    assert a2 * squares == 2.0 * a2 * (h * h);
  }

  /** The third difference of a cubic is its exact third derivative 6*a3. */
  lemma ThirdExactOnCubic(f: real -> real, a3: real, a2: real, a1: real, a0: real, x: real, h: real)
    requires h != 0.0
    requires forall t :: f(t) == Cubic(a3, a2, a1, a0, t)
    ensures ThirdDer(x, h, f) == 6.0 * a3
  {
    ThirdCombinationOfCubic(a3, a2, a1, a0, x, h);
    ThirdFromCombination(f, x, h, 6.0 * a3);
  }

  /** The combination the third difference takes of a cubic's values is 12*a3*h^3. */
  lemma ThirdCombinationOfCubic(a3: real, a2: real, a1: real, a0: real, x: real, h: real)
    ensures Cubic(a3, a2, a1, a0, x + 2.0 * h) - 2.0 * Cubic(a3, a2, a1, a0, x + h)
            + 2.0 * Cubic(a3, a2, a1, a0, x - h) - Cubic(a3, a2, a1, a0, x - 2.0 * h)
            == 6.0 * a3 * (2.0 * h * h * h)
  {
    var p, u, v, q := x + 2.0 * h, x + h, x - h, x - 2.0 * h;
    var cubes := p * p * p - 2.0 * (u * u * u) + 2.0 * (v * v * v) - q * q * q;
    var squares := p * p - 2.0 * (u * u) + 2.0 * (v * v) - q * q;
    assert cubes == 12.0 * h * h * h;
    assert squares == 0.0;
    assert a3 * cubes == 12.0 * a3 * h * h * h;
    assert a2 * squares == 0.0;
  }

  /** The value of a4*t^4 + a3*t^3 + a2*t^2 + a1*t + a0. */
  function Quartic(a4: real, a3: real, a2: real, a1: real, a0: real, t: real): real
  {
    a4 * t * t * t * t + Cubic(a3, a2, a1, a0, t)
  }

  /**
   * On a quartic the second difference misses the second derivative
   * 12*a4*x^2 + 6*a3*x + 2*a2 by exactly 2*a4*h^2: it is second-order accurate.
   */
  lemma SecondErrorOnQuartic(f: real -> real, a4: real, a3: real, a2: real, a1: real, a0: real, x: real, h: real)
    requires h != 0.0
    requires forall t :: f(t) == Quartic(a4, a3, a2, a1, a0, t)
    ensures SecondDerSecondPrec(x, h, f) == 12.0 * a4 * x * x + 6.0 * a3 * x + 2.0 * a2 + 2.0 * a4 * h * h
  {
    SecondCombinationOfQuartic(a4, a3, a2, a1, a0, x, h);
    DivideByProduct(f(x + h) - 2.0 * f(x) + f(x - h), h, h,
                    12.0 * a4 * x * x + 6.0 * a3 * x + 2.0 * a2 + 2.0 * a4 * h * h);
  }

  /** The combination the second difference takes of a quartic's values. */
  lemma SecondCombinationOfQuartic(a4: real, a3: real, a2: real, a1: real, a0: real, x: real, h: real)
    ensures Quartic(a4, a3, a2, a1, a0, x + h) - 2.0 * Quartic(a4, a3, a2, a1, a0, x)
            + Quartic(a4, a3, a2, a1, a0, x - h)
            == (12.0 * a4 * x * x + 6.0 * a3 * x + 2.0 * a2 + 2.0 * a4 * h * h) * (h * h)
  {
    SecondCombinationOfCubic(a3, a2, a1, a0, x, h);
    var u, v := x + h, x - h;
    var fourths := u * u * u * u - 2.0 * (x * x * x * x) + v * v * v * v;
    assert fourths == 12.0 * x * x * h * h + 2.0 * h * h * h * h;
    assert a4 * fourths == (12.0 * a4 * x * x + 2.0 * a4 * h * h) * (h * h);
  }

  /**
   * The third difference is exact one degree further than its construction
   * suggests: on a quartic it is the third derivative 24*a4*x + 6*a3.
   */
  lemma ThirdExactOnQuartic(f: real -> real, a4: real, a3: real, a2: real, a1: real, a0: real, x: real, h: real)
    requires h != 0.0
    requires forall t :: f(t) == Quartic(a4, a3, a2, a1, a0, t)
    ensures ThirdDer(x, h, f) == 24.0 * a4 * x + 6.0 * a3
  {
    ThirdCombinationOfQuartic(a4, a3, a2, a1, a0, x, h);
    ThirdFromCombination(f, x, h, 24.0 * a4 * x + 6.0 * a3);
  }

  /** The third difference is q once its numerator is q times its denominator 2h^3. */
  lemma ThirdFromCombination(f: real -> real, x: real, h: real, q: real)
    requires h != 0.0
    requires f(x + 2.0 * h) - 2.0 * f(x + h) + 2.0 * f(x - h) - f(x - 2.0 * h) == q * (2.0 * h * h * h)
    ensures ThirdDer(x, h, f) == q
  {
    DivideByProduct3(f(x + 2.0 * h) - 2.0 * f(x + h) + 2.0 * f(x - h) - f(x - 2.0 * h), 2.0 * h, h, h, q);
  }

  /** The combination the third difference takes of a quartic's values. */
  lemma ThirdCombinationOfQuartic(a4: real, a3: real, a2: real, a1: real, a0: real, x: real, h: real)
    ensures Quartic(a4, a3, a2, a1, a0, x + 2.0 * h) - 2.0 * Quartic(a4, a3, a2, a1, a0, x + h)
            + 2.0 * Quartic(a4, a3, a2, a1, a0, x - h) - Quartic(a4, a3, a2, a1, a0, x - 2.0 * h)
            == (24.0 * a4 * x + 6.0 * a3) * (2.0 * h * h * h)
  {
    ThirdCombinationOfCubic(a3, a2, a1, a0, x, h);
    var p, u, v, q := x + 2.0 * h, x + h, x - h, x - 2.0 * h;
    var fourths := p * p * p * p - 2.0 * (u * u * u * u) + 2.0 * (v * v * v * v) - q * q * q * q;
    assert fourths == 48.0 * x * h * h * h;
    assert a4 * fourths == 24.0 * a4 * x * (2.0 * h * h * h);
  }

  /** A quotient n/(h*k) with n == q*(h*k) and h, k nonzero is q. */
  lemma DivideByProduct(n: real, h: real, k: real, q: real)
    requires h != 0.0 && k != 0.0
    requires n == q * (h * k)
    ensures n / (h * k) == q
  {
    assert (n / h) / k == q;
  }

  /** A quotient n/(a*b*c) with n == q*(a*b*c) and a, b, c nonzero is q. */
  lemma DivideByProduct3(n: real, a: real, b: real, c: real, q: real)
    requires a != 0.0 && b != 0.0 && c != 0.0
    requires n == q * (a * b * c)
    ensures n / (a * b * c) == q
  {
    assert ((n / a) / b) / c == q;
  }

  /** The third difference of any quadratic is zero. */
  lemma ThirdVanishesOnQuadratic(f: real -> real, a2: real, a1: real, a0: real, x: real, h: real)
    requires h != 0.0
    requires forall t :: f(t) == Cubic(0.0, a2, a1, a0, t)
    ensures ThirdDer(x, h, f) == 0.0
  {
    ThirdExactOnCubic(f, 0.0, a2, a1, a0, x, h);
  }
}
