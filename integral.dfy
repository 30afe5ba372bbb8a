/**
 * The three fixed-step integration rules. Each one runs the loop
 * `for (x = a; x < b; x += h)`, adding one term per visited point to an
 * accumulator, and scales the accumulator at the end (or not) in its own way.
 * Arithmetic is exact, so after k passes the loop variable is a + k*h.
 */
module Integral {

  /** The least integer at or above `t`. */
  function Ceiling(t: real): (c: int)
    ensures (c - 1) as real < t <= c as real
  {
    if t.Floor as real == t then t.Floor else t.Floor + 1
  }

  /** The loop variable after k passes: a with h added k times. */
  function Point(a: real, h: real, k: nat): real
  {
    if k == 0 then a else Point(a, h, k - 1) + h
  }

  /** One more pass adds h to the loop variable. */
  lemma PointStep(a: real, h: real, k: nat)
    ensures Point(a, h, k + 1) == Point(a, h, k) + h
  {
  }

  /** Adding h k times to a gives a + k*h. */
  lemma {:induction false} PointIsLinear(a: real, h: real, k: nat)
    ensures Point(a, h, k) == a + (k as real) * h
  {
    if k > 0 {
      PointIsLinear(a, h, k - 1);
      assert ((k - 1) as real) * h + h == (k as real) * h;
    }
  }

  /** Starting one step later shifts every visited point by h. */
  lemma {:induction false} PointShift(a: real, h: real, k: nat)
    ensures Point(a + h, h, k) == Point(a, h, k) + h
  {
    if k > 0 {
      PointShift(a, h, k - 1);
    }
  }

  /**
   * The number of times the loop body runs: zero for an empty range,
   * otherwise the number of points a, a+h, a+2h, ... that lie below b.
   */
  function StepCount(a: real, b: real, h: real): nat
    requires h > 0.0
  {
    if a >= b then 0 else Ceiling((b - a) / h)
  }

  /**
   * The k-th point the loop visits lies below b exactly when k is below the
   * step count; so the loop visits a, a+h, ..., a+(n-1)h and stops at a+nh,
   * the first of these points at or above b.
   */
  lemma {:induction false} StepCountIsLeast(a: real, b: real, h: real, k: nat)
    requires h > 0.0
    ensures Point(a, h, k) < b <==> k < StepCount(a, b, h)
  {
    PointIsLinear(a, h, k);
    var kr := k as real;
    if a >= b {
      assert kr * h >= 0.0;
    } else {
      var t := (b - a) / h;
      assert StepCount(a, b, h) == Ceiling(t);
      BelowQuotient(kr, b - a, h);
    }
  }

  /** For positive h, x lies below d/h exactly when x*h lies below d. */
  lemma BelowQuotient(x: real, d: real, h: real)
    requires h > 0.0
    ensures x < d / h <==> x * h < d
  {
    assert (d / h) * h == d;
    if x < d / h {
      assert x * h < (d / h) * h;
    } else {
      assert x * h >= (d / h) * h;
    }
  }

  /**
   * On a non-empty range the loop stops at the first point at or above b,
   * so the points it covers reach b and overshoot it by less than one step.
   */
  lemma StopPointBounds(a: real, b: real, h: real)
    requires h > 0.0 && a < b
    ensures StepCount(a, b, h) >= 1
    ensures b <= Point(a, h, StepCount(a, b, h)) < b + h
  {
    var n := StepCount(a, b, h);
    StepCountIsLeast(a, b, h, 0);
    StepCountIsLeast(a, b, h, n);
    StepCountIsLeast(a, b, h, n - 1);
    PointStep(a, h, n - 1);
  }

  /** Sum of g over the first n points the loop visits. */
  function Sum(g: real -> real, a: real, h: real, n: nat): real
  {
    if n == 0 then 0.0 else Sum(g, a, h, n - 1) + g(Point(a, h, n - 1))
  }

  /** The trapezoidal rule's per-step term, as written: (h/2)*f(x) + f(x+h). */
  function TrapezoidTerm(f: real -> real, h: real, x: real): real
  {
    (h / 2.0) * f(x) + f(x + h)
  }

  /** The Simpson rule's per-step term: f(x) + 4*f(x+h/2) + f(x+h). */
  function SimpsonTerm(f: real -> real, h: real, x: real): real
  {
    f(x) + 4.0 * f(x + h / 2.0) + f(x + h)
  }

  /** The trapezoidal rule's accumulator after its first n steps. */
  function TrapezoidSum(f: real -> real, a: real, h: real, n: nat): real
  {
    if n == 0 then 0.0 else TrapezoidSum(f, a, h, n - 1) + TrapezoidTerm(f, h, Point(a, h, n - 1))
  }

  /** The Simpson rule's accumulator after its first n steps. */
  function SimpsonSum(f: real -> real, a: real, h: real, n: nat): real
  {
    if n == 0 then 0.0 else SimpsonSum(f, a, h, n - 1) + SimpsonTerm(f, h, Point(a, h, n - 1))
  }

  /** Left-rectangle rule: the sum of the samples f(a + k*h), times h. */
  method ReimannSum(a: real, b: real, h: real, f: real -> real) returns (r: real)
    requires h > 0.0
    ensures r == Sum(f, a, h, StepCount(a, b, h)) * h
  {
    var s := 0.0;
    var x := a;
    ghost var k: nat := 0;
    ghost var n := StepCount(a, b, h);
    while x < b
      invariant x == Point(a, h, k)
      invariant k <= n
      invariant s == Sum(f, a, h, k)
      decreases n - k
    {
      StepCountIsLeast(a, b, h, k);
      RiemannLoopStep(f, a, h, k, x, s);
      s := s + f(x);
      x := x + h;
      k := k + 1;
    }
    StepCountIsLeast(a, b, h, k);
    assert k == n;
    r := s * h;
  }

  /**
   * The trapezoidal rule as the library writes it: the accumulated terms
   * (h/2)*f(x) + f(x+h), returned without any further scaling.
   */
  method TrapezoidalRule(a: real, b: real, h: real, f: real -> real) returns (r: real)
    requires h > 0.0
    ensures r == TrapezoidSum(f, a, h, StepCount(a, b, h))
  {
    var s := 0.0;
    var x := a;
    ghost var k: nat := 0;
    ghost var n := StepCount(a, b, h);
    while x < b
      invariant x == Point(a, h, k)
      invariant k <= n
      invariant s == TrapezoidSum(f, a, h, k)
      decreases n - k
    {
      StepCountIsLeast(a, b, h, k);
      TrapezoidLoopStep(f, a, h, k, x, s);
      s := s + (h / 2.0) * f(x) + f(x + h);
      x := x + h;
      k := k + 1;
    }
    StepCountIsLeast(a, b, h, k);
    assert k == n;
    r := s;
  }

  /** Simpson's rule: the accumulated Simpson terms, times h/6. */
  method SimpsonsRule(a: real, b: real, h: real, f: real -> real) returns (r: real)
    requires h > 0.0
    ensures r == (h / 6.0) * SimpsonSum(f, a, h, StepCount(a, b, h))
  {
    var s := 0.0;
    var x := a;
    ghost var k: nat := 0;
    ghost var n := StepCount(a, b, h);
    while x < b
      invariant x == Point(a, h, k)
      invariant k <= n
      invariant s == SimpsonSum(f, a, h, k)
      decreases n - k
    {
      StepCountIsLeast(a, b, h, k);
      SimpsonLoopStep(f, a, h, k, x, s);
      s := s + f(x) + 4.0 * f(x + h / 2.0) + f(x + h);
      x := x + h;
      k := k + 1;
    }
    StepCountIsLeast(a, b, h, k);
    assert k == n;
    r := (h / 6.0) * s;
  }

  // One pass of each loop body, stated on the loop's own variables.

  /** One pass of the left-rectangle loop body keeps its invariant. */
  lemma RiemannLoopStep(f: real -> real, a: real, h: real, k: nat, x: real, s: real)
    requires x == Point(a, h, k)
    requires s == Sum(f, a, h, k)
    ensures x + h == Point(a, h, k + 1)
    ensures s + f(x) == Sum(f, a, h, k + 1)
  {
    PointStep(a, h, k);
    SumStep(f, a, h, k);
  }

  /** One pass of the trapezoidal loop body keeps its invariant. */
  lemma TrapezoidLoopStep(f: real -> real, a: real, h: real, k: nat, x: real, s: real)
    requires x == Point(a, h, k)
    requires s == TrapezoidSum(f, a, h, k)
    ensures x + h == Point(a, h, k + 1)
    ensures s + (h / 2.0) * f(x) + f(x + h) == TrapezoidSum(f, a, h, k + 1)
  {
    PointStep(a, h, k);
    TrapezoidSumStep(f, a, h, k);
  }

  /** One pass of the Simpson loop body keeps its invariant. */
  lemma SimpsonLoopStep(f: real -> real, a: real, h: real, k: nat, x: real, s: real)
    requires x == Point(a, h, k)
    requires s == SimpsonSum(f, a, h, k)
    ensures x + h == Point(a, h, k + 1)
    ensures s + f(x) + 4.0 * f(x + h / 2.0) + f(x + h) == SimpsonSum(f, a, h, k + 1)
  {
    PointStep(a, h, k);
    SimpsonSumStep(f, a, h, k);
  }

  /** One more step adds the sample at the next point. */
  lemma SumStep(g: real -> real, a: real, h: real, n: nat)
    ensures Sum(g, a, h, n + 1) == Sum(g, a, h, n) + g(Point(a, h, n))
  {
  }

  /** One more trapezoidal step adds the trapezoidal term at the next point. */
  lemma TrapezoidSumStep(f: real -> real, a: real, h: real, n: nat)
    ensures TrapezoidSum(f, a, h, n + 1) == TrapezoidSum(f, a, h, n) + TrapezoidTerm(f, h, Point(a, h, n))
  {
  }

  /** One more Simpson step adds the Simpson term at the next point. */
  lemma SimpsonSumStep(f: real -> real, a: real, h: real, n: nat)
    ensures SimpsonSum(f, a, h, n + 1) == SimpsonSum(f, a, h, n) + SimpsonTerm(f, h, Point(a, h, n))
  {
  }

  // Properties of the accumulated sums.

  /** On an empty range (a >= b) the loop body never runs and every rule returns 0. */
  lemma EmptyRange(f: real -> real, a: real, b: real, h: real)
    requires h > 0.0 && a >= b
    ensures StepCount(a, b, h) == 0
    ensures Sum(f, a, h, StepCount(a, b, h)) * h == 0.0
    ensures TrapezoidSum(f, a, h, StepCount(a, b, h)) == 0.0
    ensures (h / 6.0) * SimpsonSum(f, a, h, StepCount(a, b, h)) == 0.0
  {
  }

  /** Summing a constant over n points gives n times that constant. */
  lemma {:induction false} SumOfConstant(g: real -> real, c: real, a: real, h: real, n: nat)
    requires forall x :: g(x) == c
    ensures Sum(g, a, h, n) == (n as real) * c
  {
    if n > 0 {
      SumOfConstant(g, c, a, h, n - 1);
      SumStep(g, a, h, n - 1);
      assert ((n - 1) as real) * c + c == (n as real) * c;
    }
  }

  /**
   * The trapezoidal accumulator splits into h/2 times the left samples
   * f(a), ..., f(a+(n-1)h) plus the unscaled right samples f(a+h), ..., f(a+nh).
   */
  lemma {:induction false} TrapezoidSumSplits(f: real -> real, a: real, h: real, n: nat)
    ensures TrapezoidSum(f, a, h, n) == (h / 2.0) * Sum(f, a, h, n) + Sum(f, a + h, h, n)
  {
    if n > 0 {
      TrapezoidSumSplits(f, a, h, n - 1);
      PointShift(a, h, n - 1);
      Distribute(h / 2.0, Sum(f, a, h, n - 1), f(Point(a, h, n - 1)));
    }
  }

  /** For a constant integrand c the Riemann sum is c*n*h, n the step count. */
  lemma RiemannOfConstant(f: real -> real, c: real, a: real, b: real, h: real)
    requires h > 0.0
    requires forall x :: f(x) == c
    ensures Sum(f, a, h, StepCount(a, b, h)) * h == c * (StepCount(a, b, h) as real) * h
  {
    SumOfConstant(f, c, a, h, StepCount(a, b, h));
  }

  /**
   * For a constant integrand c the trapezoidal rule as written gives
   * n*c*(h/2 + 1), not the textbook c*n*h.
   */
  lemma TrapezoidOfConstant(f: real -> real, c: real, a: real, b: real, h: real)
    requires h > 0.0
    requires forall x :: f(x) == c
    ensures TrapezoidSum(f, a, h, StepCount(a, b, h)) == (StepCount(a, b, h) as real) * c * (h / 2.0 + 1.0)
  {
    var n := StepCount(a, b, h);
    TrapezoidSumSplits(f, a, h, n);
    SumOfConstant(f, c, a, h, n);
    SumOfConstant(f, c, a + h, h, n);
  }

  /** For a constant integrand c, Simpson's rule gives c*n*h, n the step count. */
  lemma SimpsonOfConstant(f: real -> real, c: real, a: real, b: real, h: real)
    requires h > 0.0
    requires forall x :: f(x) == c
    ensures (h / 6.0) * SimpsonSum(f, a, h, StepCount(a, b, h)) == c * (StepCount(a, b, h) as real) * h
  {
    SimpsonSumOfConstant(f, c, a, h, StepCount(a, b, h));
  }

  /** Each Simpson term of a constant c is 6c, so n steps accumulate 6cn. */
  lemma {:induction false} SimpsonSumOfConstant(f: real -> real, c: real, a: real, h: real, n: nat)
    requires forall x :: f(x) == c
    ensures SimpsonSum(f, a, h, n) == 6.0 * c * (n as real)
  {
    if n > 0 {
      SimpsonSumOfConstant(f, c, a, h, n - 1);
      SimpsonSumStep(f, a, h, n - 1);
      assert 6.0 * c * ((n - 1) as real) + 6.0 * c == 6.0 * c * (n as real);
    }
  }

  /** One Simpson step on the identity from x to y = x + h, scaled by h/6, is (y^2 - x^2)/2. */
  lemma SimpsonStepOnIdentity(f: real -> real, h: real, x: real, y: real)
    requires forall t :: f(t) == t
    requires y == x + h
    ensures (h / 6.0) * SimpsonTerm(f, h, x) == (y * y - x * x) / 2.0
  {
    assert SimpsonTerm(f, h, x) == 6.0 * x + 3.0 * h;
  }

  /** c*(u + v) == c*u + c*v. */
  lemma Distribute(c: real, u: real, v: real)
    ensures c * (u + v) == c * u + c * v
  {
  }

  /**
   * Simpson's rule is exact on the identity: after n steps its result
   * (h/6)*S is (p^2 - a^2)/2 with p the n-th point, the integral of x from
   * a to p.
   */
  lemma {:induction false} SimpsonExactOnIdentity(f: real -> real, a: real, h: real, n: nat)
    requires forall x :: f(x) == x
    ensures (h / 6.0) * SimpsonSum(f, a, h, n) == (Point(a, h, n) * Point(a, h, n) - a * a) / 2.0
  {
    if n > 0 {
      SimpsonExactOnIdentity(f, a, h, n - 1);
      SimpsonStepOnIdentity(f, h, Point(a, h, n - 1), Point(a, h, n));
      Distribute(h / 6.0, SimpsonSum(f, a, h, n - 1), SimpsonTerm(f, h, Point(a, h, n - 1)));
    }
  }

  /** For the identity integrand the Riemann sum is h*(n*a + h*n*(n-1)/2). */
  lemma {:induction false} RiemannOfIdentity(f: real -> real, a: real, h: real, n: nat)
    requires forall x :: f(x) == x
    ensures Sum(f, a, h, n) * h == h * ((n as real) * a + h * (n as real) * ((n - 1) as real) / 2.0)
  {
    if n > 0 {
      RiemannOfIdentity(f, a, h, n - 1);
      var nr := n as real;
      SumStep(f, a, h, n - 1);
      PointIsLinear(a, h, n - 1);
      assert Sum(f, a, h, n) == Sum(f, a, h, n - 1) + (a + (nr - 1.0) * h);
      assert (nr - 1.0) * a + h * (nr - 1.0) * (nr - 2.0) / 2.0 + (a + (nr - 1.0) * h)
          == nr * a + h * nr * (nr - 1.0) / 2.0;
    }
  }

  /**
   * The unit constant over [0, 1] with step 0.01: the loop runs 100 times,
   * Riemann and Simpson give exactly 1, the trapezoidal rule as written 100.5.
   */
  lemma UnitConstantOnUnitInterval(f: real -> real)
    requires forall x :: f(x) == 1.0
    ensures StepCount(0.0, 1.0, 0.01) == 100
    ensures Sum(f, 0.0, 0.01, StepCount(0.0, 1.0, 0.01)) * 0.01 == 1.0
    ensures TrapezoidSum(f, 0.0, 0.01, StepCount(0.0, 1.0, 0.01)) == 100.5
    ensures (0.01 / 6.0) * SimpsonSum(f, 0.0, 0.01, StepCount(0.0, 1.0, 0.01)) == 1.0
  {
    assert (1.0 - 0.0) / 0.01 == 100.0;
    RiemannOfConstant(f, 1.0, 0.0, 1.0, 0.01);
    TrapezoidOfConstant(f, 1.0, 0.0, 1.0, 0.01);
    SimpsonOfConstant(f, 1.0, 0.0, 1.0, 0.01);
  }
}
