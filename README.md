# myMathLib in Dafny

A model of `myMathLib.h`, a header-only library of small numerical
algorithms that are generic over a scalar type `T`. The model fixes `T` to
Dafny's `real`, so all arithmetic is exact. The callback `T (*foo)(const T&)`
becomes a Dafny function value `real -> real`.

The modules follow the library's namespaces:

- `MathLib` (`mathlib.dfy`) holds the constant `GOLDEN_RATIO` and the helper
  `absolute`. `absolute` is given once over `real` and once over `int`.
- `Integral` (`integral.dfy`) holds `reimannSum`, `trapezoidalRule` and
  `simpsonsRule`. The method `ReimannSum` keeps the library's spelling of the
  name; the lemmas about the sum use the usual spelling `Riemann`. Each is a method with the library's `for (x = a; x < b;
  x += h)` loop.
  - `Point(a, h, k)` is the loop variable after k passes: h added k times to a.
  - `StepCount(a, b, h)` is the number of passes, the least n with
    a + n*h >= b.
  - `Sum`, `TrapezoidSum` and `SimpsonSum` are the accumulator after n passes.
    Each method's postcondition ties its result to these functions. The
    lemmas then state what the sums are.
- `Derivative` (`derivative.dfy`) holds the four finite-difference formulas,
  written exactly as in the source. The lemmas state on which polynomials each
  formula is exact, and what it returns one degree higher: the forward
  difference is off by a2*h on quadratics, the central difference by a3*h^2 on
  cubics, and the second difference by 2*a4*h^2 on quartics. The third
  difference is still exact on quartics.
- `Optimization` (`optimization.dfy`) holds `goldenSectionSearch`.
  - The caller's reference parameters `a` and `b` become input values and
    output values. The method returns the final bracket beside its midpoint.
  - The do-while loop becomes `while true` with a `break` on the source's exit
    test, `absolute(b - a) <= eps`.
  - A ghost out-parameter counts the passes.
  - `Narrow` is one pass of the loop body; `Iterate` is k passes. The method
    `Pass` runs the loop body's statements and is proved to compute `Narrow`.

The trapezoidal rule is kept as the source writes it. Its per-step term is
`(h/2)*f(x) + f(x+h)`, not the textbook `(h/2)*(f(x) + f(x+h))`. So for a
constant integrand c it returns n*c*(h/2 + 1) (`TrapezoidOfConstant`), not
c*n*h. On [0, 1] with step 0.01 and f = 1 it returns 100.5, while the
other two rules return 1 (`UnitConstantOnUnitInterval`).

## Model

| member | source | states |
|---|---|---|
| MathLib.Absolute | myMathLib.h:18-23 | the result is non-negative and is either `value` or `-value` |
| MathLib.AbsoluteInt | myMathLib.h:18-23 | the same for the integer instantiation |
| MathLib.AbsoluteOfNegation | myMathLib.h:18-23 | `absolute(-v) == absolute(v)` |
| MathLib.AbsoluteIdentityIff | myMathLib.h:18-23 | `absolute(v) == v` exactly when `v >= 0` (otherwise it is `-v`) |
| MathLib.GoldenRatioReciprocal | myMathLib.h:13 | 1/GOLDEN_RATIO lies strictly between 1/2 and 1 |
| Integral.Point | myMathLib.h:34 | the loop variable after k passes, h added k times to a; its closed form is in `PointIsLinear` |
| Integral.StepCount | myMathLib.h:34 | the number of passes of the loop; `StepCountIsLeast` shows it is the least n whose point reaches b |
| Integral.Sum | myMathLib.h:34-35 | f summed over the first n points, the accumulator S of `reimannSum` after n passes |
| Integral.TrapezoidSum | myMathLib.h:46-47 | the source's term (h/2)*f(x) + f(x+h) summed over the first n points |
| Integral.SimpsonSum | myMathLib.h:58-59 | the source's term f(x) + 4f(x+h/2) + f(x+h) summed over the first n points |
| Integral.PointIsLinear | myMathLib.h:34 | after k passes the loop variable is a + k*h |
| Integral.StepCountIsLeast | myMathLib.h:34 | the k-th point is below b iff k < StepCount, so the loop visits exactly the first StepCount points and then stops |
| Integral.StopPointBounds | myMathLib.h:34 | on a non-empty range the loop runs at least once and stops at a point in [b, b + h) |
| Integral.ReimannSum | myMathLib.h:28-38 | the result is the sum of f over the visited points, times h |
| Integral.TrapezoidalRule | myMathLib.h:40-50 | the result is the unscaled sum of (h/2)*f(x) + f(x+h) over the visited points |
| Integral.SimpsonsRule | myMathLib.h:52-62 | the result is h/6 times the sum of f(x) + 4f(x+h/2) + f(x+h) over the visited points |
| Integral.EmptyRange | myMathLib.h:31-37 | when a >= b the loop never runs and all three rules return 0 |
| Integral.RiemannOfConstant | myMathLib.h:34-37 | for f = c the Riemann sum is c*n*h, n the step count |
| Integral.RiemannOfIdentity | myMathLib.h:34-37 | for f(x) = x the Riemann sum is h*(n*a + h*n*(n-1)/2) |
| Integral.TrapezoidSumSplits | myMathLib.h:46-49 | the trapezoidal sum is h/2 times the left samples plus the unscaled right samples |
| Integral.TrapezoidOfConstant | myMathLib.h:46-49 | for f = c the trapezoidal rule as written returns n*c*(h/2 + 1) |
| Integral.SimpsonSumOfConstant | myMathLib.h:58-59 | for f = c each Simpson term is 6c, so n terms sum to 6cn |
| Integral.SimpsonOfConstant | myMathLib.h:58-61 | for f = c Simpson's rule returns c*n*h |
| Integral.SimpsonStepOnIdentity | myMathLib.h:59-61 | one Simpson term for f(x) = x, times h/6, is ((x+h)^2 - x^2)/2 |
| Integral.SimpsonExactOnIdentity | myMathLib.h:58-61 | for f(x) = x Simpson's rule is the exact integral (p^2 - a^2)/2 up to the stopping point p |
| Integral.UnitConstantOnUnitInterval | myMathLib.h:28-62 | f = 1 on [0, 1] with h = 0.01: 100 passes; Riemann and Simpson give 1, the trapezoidal rule gives 100.5 |
| Derivative.FirstDerFirstPrec | myMathLib.h:67-71 | the forward difference as written; its properties are in `ForwardExactOnLinear` and `ForwardErrorOnQuadratic` |
| Derivative.FirstDerSymmSecondPrec | myMathLib.h:73-77 | the central difference as written; its properties are in `SymmetricExactOnQuadratic` and `SymmetricErrorOnCubic` |
| Derivative.SecondDerSecondPrec | myMathLib.h:79-83 | the second difference as written; its properties are in `SecondExactOnCubic` and `SecondErrorOnQuartic` |
| Derivative.ThirdDer | myMathLib.h:85-89 | the third difference as written; its properties are in `ThirdExactOnCubic` and `ThirdExactOnQuartic` |
| Derivative.ForwardExactOnLinear | myMathLib.h:67-71 | the forward difference of m*t + c is m |
| Derivative.ForwardErrorOnQuadratic | myMathLib.h:67-71 | on a quadratic the forward difference is the derivative plus exactly a2*h |
| Derivative.SymmetricExactOnQuadratic | myMathLib.h:73-77 | the central difference of a quadratic is its derivative 2*a2*x + a1 |
| Derivative.SymmetricErrorOnCubic | myMathLib.h:73-77 | on a cubic the central difference is the derivative plus exactly a3*h^2 |
| Derivative.SecondExactOnCubic | myMathLib.h:79-83 | the second difference of a cubic is its second derivative 6*a3*x + 2*a2 |
| Derivative.SecondExactOnQuadratic | myMathLib.h:79-83 | the second difference of a quadratic is 2*a2 (2 for x^2) |
| Derivative.SecondErrorOnQuartic | myMathLib.h:79-83 | on a quartic the second difference is the second derivative 12*a4*x^2 + 6*a3*x + 2*a2 plus exactly 2*a4*h^2 |
| Derivative.ThirdExactOnCubic | myMathLib.h:85-89 | the third difference of a cubic is 6*a3 |
| Derivative.ThirdExactOnQuartic | myMathLib.h:85-89 | the third difference of a quartic is its third derivative 24*a4*x + 6*a3 |
| Derivative.ThirdVanishesOnQuadratic | myMathLib.h:85-89 | the third difference of a quadratic is 0 |
| Optimization.Narrow | myMathLib.h:101-109 | one pass of the loop body on a bracket; `Pass` runs the statements and `NarrowShrinks` states the result |
| Optimization.Iterate | myMathLib.h:99-110 | the bracket after k passes; `IterateStaysInside` and `IterateWidth` state where it lies and how wide it is |
| Optimization.InteriorPointsOrdered | myMathLib.h:101-102 | for a < b the interior points satisfy a < x1 < x2 < b |
| Optimization.NarrowShrinks | myMathLib.h:101-109 | one pass keeps a sub-bracket of a proper bracket, of exactly the old width divided by GOLDEN_RATIO |
| Optimization.IterateStaysInside | myMathLib.h:99-110 | after any number of passes the bracket is proper and inside the original one |
| Optimization.IterateWidth | myMathLib.h:99-110 | after k passes the width is the original width divided k times by GOLDEN_RATIO |
| Optimization.WidthAfterIsGeometric | myMathLib.h:99-110 | the width after k passes times GOLDEN_RATIO^k is the original width |
| Optimization.WidthAfterShrinks | myMathLib.h:99-110 | the width stays positive and never grows from one pass count to a larger one |
| Optimization.PowGrowsLinearly | myMathLib.h:13 | GOLDEN_RATIO^k >= 1 + k*(GOLDEN_RATIO - 1) |
| Optimization.PassesBelowBound | myMathLib.h:110 | while the width exceeds eps the pass count is below a fixed bound, so the loop terminates |
| Optimization.PassesAreBounded | myMathLib.h:99-110 | there is a pass count N such that every bracket still wider than eps was reached after fewer than N passes |
| Optimization.PassFacts | myMathLib.h:99-110 | the bracket after n passes is a sub-bracket of width w/GOLDEN_RATIO^n, and `absolute` of its width exceeds eps only when the width itself does |
| Optimization.WiderUntil | myMathLib.h:110 | if the width still exceeds eps after n passes, the bracket after every pass up to the n-th was wider than eps |
| Optimization.Pass | myMathLib.h:101-109 | one run of the loop body turns the bracket [a, b] into Narrow of it |
| Optimization.GoldenSectionSearch | myMathLib.h:94-113 | runs at least once; the result is the bracket after `passes` passes; every earlier bracket was wider than eps and the final one is at most eps wide; returns that bracket (inside the original, of width w/GOLDEN_RATIO^passes) and its midpoint, which lies strictly inside both brackets |

## Left out

- Floating point: `T` is `real`. Rounding in `x += h` and in the bracket
  update is not modelled, nor is NaN or infinity from a division by h = 0.
  Floating-point non-termination when x never reaches b, or when the bracket
  stops shrinking, is not modelled either. Instead `h > 0` (integration),
  `h != 0` (derivatives), and `a < b` with `eps > 0` (search) are
  preconditions.
- Genericity over `T`: only `real` is modelled, plus `absolute` over `int`.
  The integration rules over integer `T` are not modelled.
- AbsoluteInt: Dafny's `int` is unbounded, so the model promises a
  non-negative result for every input. With a fixed-width C++ `int`,
  `value * (T)(-1)` at the smallest value overflows, which is undefined
  behaviour and in practice yields that negative value again. That edge is
  not modelled.
- `PI` and `EULER_NUMBER` (myMathLib.h:14-15): they are defined but no routine
  uses them.
- Golden-section search as a minimizer: the model does not prove that the
  result approaches the minimum of a unimodal f. That needs analysis beyond
  the code.
- Approximation-error bounds of the three integration rules against the true
  integral: these are analytic claims, not code behaviour. Exactness against
  the integral up to the stopping point is proved only for the Riemann sum and
  Simpson's rule on constants, and for Simpson's rule on the identity. For
  the Riemann sum on the identity and for the trapezoidal rule on constants
  the model proves the value the code returns, which is not the integral.
  Simpson's exactness on quadratics and cubics is not proved.
- GoldenSectionSearch: the exit condition is stated as `b - a <= eps`, not
  `absolute(b - a) <= eps`. The two agree because the method also ensures
  a < b (see `MathLib.AbsoluteIdentityIff`).
- Reference parameters: the caller's `a` and `b` are returned as values. The
  model does not capture aliasing, for example `a` and `b` being the same
  variable.
- The function pointer becomes a Dafny function value. Calling through a null
  pointer is not modelled.
