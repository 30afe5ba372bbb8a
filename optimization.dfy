/**
 * Golden-section search. The caller's bracket [a, b] is narrowed in place,
 * one pass of the do-while body at a time, until it is no wider than eps;
 * the midpoint of the final bracket is returned. Each pass keeps one of the
 * two sub-brackets cut off at the interior points b - w/phi and a + w/phi
 * (w the width), so the width shrinks by exactly the golden ratio phi.
 */
module Optimization {
  import opened MathLib

  /** A bracket [lo, hi]: the pair of endpoints the search narrows. */
  datatype Bracket = Bracket(lo: real, hi: real)

  /**
   * One pass of the search body: compare f at the two interior points and
   * keep [lo, x2] when f(x1) < f(x2), otherwise [x1, hi].
   */
  function Narrow(f: real -> real, br: Bracket): Bracket
  {
    var x1 := br.hi - (br.hi - br.lo) / GoldenRatio;
    var x2 := br.lo + (br.hi - br.lo) / GoldenRatio;
    if f(x1) < f(x2) then Bracket(br.lo, x2) else Bracket(x1, br.hi)
  }

  /**
   * Either way one pass keeps a sub-bracket of a proper bracket, whose width
   * is the old width divided by phi.
   */
  lemma NarrowShrinks(f: real -> real, br: Bracket)
    ensures br.lo < br.hi ==> br.lo <= Narrow(f, br).lo < Narrow(f, br).hi <= br.hi
    ensures Narrow(f, br).hi - Narrow(f, br).lo == (br.hi - br.lo) / GoldenRatio
  {
  }

  /** The bracket after k passes of the search body. */
  function Iterate(f: real -> real, br: Bracket, k: nat): Bracket
  {
    if k == 0 then br else Narrow(f, Iterate(f, br, k - 1))
  }

  /** q raised to the power k. */
  function Pow(q: real, k: nat): real
  {
    if k == 0 then 1.0 else q * Pow(q, k - 1)
  }

  /**
   * The two interior points of a proper bracket are strictly ordered,
   * x1 < x2, because 1/phi exceeds one half.
   */
  lemma InteriorPointsOrdered(a: real, b: real)
    requires a < b
    ensures a < b - (b - a) / GoldenRatio < a + (b - a) / GoldenRatio < b
  {
  }

  /** After k passes a proper bracket is still proper and lies inside the original one. */
  lemma {:induction false} IterateStaysInside(f: real -> real, br: Bracket, k: nat)
    requires br.lo < br.hi
    ensures br.lo <= Iterate(f, br, k).lo < Iterate(f, br, k).hi <= br.hi
  {
    if k > 0 {
      IterateStaysInside(f, br, k - 1);
      NarrowShrinks(f, Iterate(f, br, k - 1));
    }
  }

  /** The width of a bracket of width w after k passes: w divided k times by phi. */
  function WidthAfter(w: real, k: nat): real
  {
    if k == 0 then w else WidthAfter(w, k - 1) / GoldenRatio
  }

  /** After k passes the bracket's width is the original width divided k times by phi. */
  lemma {:induction false} IterateWidth(f: real -> real, br: Bracket, k: nat)
    ensures Iterate(f, br, k).hi - Iterate(f, br, k).lo == WidthAfter(br.hi - br.lo, k)
  {
    if k > 0 {
      IterateWidth(f, br, k - 1);
      NarrowShrinks(f, Iterate(f, br, k - 1));
    }
  }

  /** Closed form of the shrinking: the width after k passes is w / phi^k. */
  lemma {:induction false} WidthAfterIsGeometric(w: real, k: nat)
    ensures WidthAfter(w, k) * Pow(GoldenRatio, k) == w
  {
    if k > 0 {
      WidthAfterIsGeometric(w, k - 1);
      var v, p := WidthAfter(w, k - 1), Pow(GoldenRatio, k - 1);
      assert WidthAfter(w, k) * GoldenRatio == v;
      assert WidthAfter(w, k) * (GoldenRatio * p) == v * p;
    }
  }

  /** phi^k grows at least linearly: phi^k >= 1 + k*(phi - 1). */
  lemma {:induction false} PowGrowsLinearly(k: nat)
    ensures Pow(GoldenRatio, k) >= 1.0 + (k as real) * (GoldenRatio - 1.0)
  {
    if k > 0 {
      PowGrowsLinearly(k - 1);
      var kr := (k - 1) as real;
      assert kr * (GoldenRatio - 1.0) * (GoldenRatio - 1.0) >= 0.0;
    }
  }

  /**
   * An upper bound on the number of passes: once the pass count reaches it,
   * the width w has shrunk to eps or less.
   */
  function PassBound(w: real, eps: real): nat
    requires w > 0.0 && eps > 0.0
  {
    ((w / eps) / (GoldenRatio - 1.0)).Floor + 1
  }

  /** For positive eps, w > eps*p gives w/eps > p. */
  lemma QuotientExceeds(w: real, eps: real, p: real)
    requires eps > 0.0
    requires w > eps * p
    ensures w / eps > p
  {
    assert (w / eps) * eps == w;
    MultiplyStrict(w / eps, p, eps);
  }

  /** If the width after k passes from w still exceeds eps, k is below the bound. */
  lemma PassesBelowBound(w: real, eps: real, k: nat)
    requires w > 0.0 && eps > 0.0
    requires WidthAfter(w, k) > eps
    ensures k < PassBound(w, eps)
  {
    WidthAfterIsGeometric(w, k);
    PowGrowsLinearly(k);
    assert Pow(GoldenRatio, k) > 0.0;
    assert WidthAfter(w, k) * Pow(GoldenRatio, k) > eps * Pow(GoldenRatio, k);
    assert w > eps * Pow(GoldenRatio, k);
    QuotientExceeds(w, eps, Pow(GoldenRatio, k));
    assert (k as real) * (GoldenRatio - 1.0) < w / eps;
  }

  /**
   * Termination of the search: there is a pass count N such that every
   * bracket still wider than eps was reached after fewer than N passes.
   */
  lemma PassesAreBounded(w: real, eps: real) returns (bound: nat)
    requires w > 0.0 && eps > 0.0
    ensures forall k: nat :: WidthAfter(w, k) > eps ==> k < bound
  {
    bound := PassBound(w, eps);
    forall k: nat | WidthAfter(w, k) > eps
      ensures k < bound
    {
      PassesBelowBound(w, eps, k);
    }
  }

  /** Multiplying by a positive number keeps a strict inequality, in both directions. */
  lemma MultiplyStrict(x: real, y: real, p: real)
    requires p > 0.0
    ensures x > y <==> x * p > y * p
  {
    if x > y {
      assert x * p > y * p;
    } else {
      assert x * p <= y * p;
    }
  }

  /** One more pass from the bracket after k passes gives the bracket after k+1. */
  lemma PassStep(f: real -> real, br: Bracket, k: nat, lo: real, hi: real)
    requires Bracket(lo, hi) == Narrow(f, Iterate(f, br, k))
    ensures Bracket(lo, hi) == Iterate(f, br, k + 1)
  {
  }

  /**
   * The bracket after n passes from a proper bracket [a0, b0] is a proper
   * sub-bracket of width w/phi^n; its width exceeds eps exactly when its
   * absolute width does.
   */
  lemma PassFacts(f: real -> real, a0: real, b0: real, eps: real, n: nat, lo: real, hi: real)
    requires a0 < b0 && eps > 0.0
    requires Bracket(lo, hi) == Iterate(f, Bracket(a0, b0), n)
    ensures a0 <= lo < hi <= b0
    ensures hi - lo == WidthAfter(b0 - a0, n)
    ensures Absolute(hi - lo) > eps ==> hi - lo > eps
  {
    IterateStaysInside(f, Bracket(a0, b0), n);
    IterateWidth(f, Bracket(a0, b0), n);
  }

  /** The width only shrinks: after more passes the bracket is no wider. */
  lemma {:induction false} WidthAfterShrinks(w: real, k: nat, n: nat)
    requires w > 0.0 && k <= n
    ensures 0.0 < WidthAfter(w, n) <= WidthAfter(w, k)
  {
    if n > k {
      WidthAfterShrinks(w, k, n - 1);
    } else {
      WidthAfterPositive(w, n);
    }
  }

  /** The width of a proper bracket stays positive. */
  lemma {:induction false} WidthAfterPositive(w: real, k: nat)
    requires w > 0.0
    ensures WidthAfter(w, k) > 0.0
  {
    if k > 0 {
      WidthAfterPositive(w, k - 1);
    }
  }

  /**
   * If the width is still above eps after n passes, the bracket was wider
   * than eps after every pass up to the n-th.
   */
  lemma WiderUntil(f: real -> real, a0: real, b0: real, eps: real, n: nat)
    requires a0 < b0
    requires n >= 1 ==> WidthAfter(b0 - a0, n) > eps
    ensures forall k: nat :: 1 <= k <= n ==>
      Iterate(f, Bracket(a0, b0), k).hi - Iterate(f, Bracket(a0, b0), k).lo > eps
  {
    forall k: nat | 1 <= k <= n
      ensures Iterate(f, Bracket(a0, b0), k).hi - Iterate(f, Bracket(a0, b0), k).lo > eps
    {
      WidthAfterShrinks(b0 - a0, k, n);
      IterateWidth(f, Bracket(a0, b0), k);
    }
  }

  /**
   * One run of the search body on the bracket [a, b]: the two interior
   * points, f at each, and the endpoint that moves.
   */
  method Pass(f: real -> real, a: real, b: real) returns (lo: real, hi: real)
    ensures Bracket(lo, hi) == Narrow(f, Bracket(a, b))
  {
    var x1, x2, y1, y2: real;
    x1 := b - (b - a) / GoldenRatio;
    x2 := a + (b - a) / GoldenRatio;
    y1 := f(x1);
    y2 := f(x2);
    lo, hi := a, b;
    if y1 < y2 {
      hi := x2;
    } else {
      lo := x1;
    }
  }

  /**
   * The search. The caller's bracket (a0, b0) is narrowed in place: its final
   * value is returned as (a, b) together with its midpoint m. `passes` counts
   * the runs of the body.
   */
  method GoldenSectionSearch(a0: real, b0: real, eps: real, f: real -> real)
    returns (a: real, b: real, m: real, ghost passes: nat)
    requires a0 < b0
    requires eps > 0.0
    ensures passes >= 1
    ensures Bracket(a, b) == Iterate(f, Bracket(a0, b0), passes)
    ensures forall k: nat :: 1 <= k < passes ==>
      Iterate(f, Bracket(a0, b0), k).hi - Iterate(f, Bracket(a0, b0), k).lo > eps
    ensures b - a <= eps
    ensures a0 <= a < b <= b0
    ensures b - a == WidthAfter(b0 - a0, passes)
    ensures m == (a + b) / 2.0 && a < m < b && a0 < m < b0
  {
    a, b := a0, b0;
    passes := 0;
    ghost var bound := PassesAreBounded(b0 - a0, eps);
    while true
      invariant Bracket(a, b) == Iterate(f, Bracket(a0, b0), passes)
      invariant passes <= bound
      invariant b - a == WidthAfter(b0 - a0, passes)
      invariant passes >= 1 ==> b - a > eps
      decreases bound - passes
    {
      ghost var before := passes;
      a, b := Pass(f, a, b);
      PassStep(f, Bracket(a0, b0), passes, a, b);
      passes := passes + 1;
      PassFacts(f, a0, b0, eps, passes, a, b);
      if Absolute(b - a) <= eps {
        WiderUntil(f, a0, b0, eps, before);
        break;
      }
    }
    m := (a + b) / 2.0;
  }
}
