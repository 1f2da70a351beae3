/**
 * The dot products: the serial dot_product template of the Kokkos exercise
 * and the OpenMP `reduction(+:sum)` demo.  Both accumulate x[i] * y[i] into
 * one value; the reduction's partial sums are recombined in an order the
 * model does not fix, which over the reals gives the same value.
 */
module DotProduct {
  import Axpy

  /** The first k products x[i] * y[i], added in index order. */
  function Dot(x: seq<real>, y: seq<real>, k: nat): (r: real)
    requires k <= |x| && k <= |y|
  {
    if k == 0 then 0.0 else Dot(x, y, k - 1) + x[k - 1] * y[k - 1]
  }

  /** The order of the factors does not matter. */
  lemma {:induction false} DotSymmetric(x: seq<real>, y: seq<real>, k: nat)
    requires k <= |x| && k <= |y|
    ensures Dot(x, y, k) == Dot(y, x, k)
  {
    if k > 0 {
      DotSymmetric(x, y, k - 1);
    }
  }

  /** Only the first k elements take part. */
  lemma {:induction false} DotPrefix(x: seq<real>, y: seq<real>, x': seq<real>, y': seq<real>, k: nat)
    requires k <= |x| && k <= |y| && k <= |x'| && k <= |y'|
    requires x[..k] == x'[..k] && y[..k] == y'[..k]
    ensures Dot(x, y, k) == Dot(x', y', k)
  {
    if k > 0 {
      assert x[..k - 1] == x'[..k - 1] && y[..k - 1] == y'[..k - 1];
      assert x[k - 1] == x[..k][k - 1] && x'[k - 1] == x'[..k][k - 1];
      assert y[k - 1] == y[..k][k - 1] && y'[k - 1] == y'[..k][k - 1];
      DotPrefix(x, y, x', y', k - 1);
    }
  }

  /** When y is a non-negative multiple c of x, every term is c x[i]^2 and the sum is non-negative. */
  lemma {:induction false} DotOfMultipleNonNegative(x: seq<real>, y: seq<real>, c: real, k: nat)
    requires k <= |x| && k <= |y| && c >= 0.0
    requires forall i :: 0 <= i < k ==> y[i] == c * x[i]
    ensures Dot(x, y, k) >= 0.0
  {
    if k > 0 {
      DotOfMultipleNonNegative(x, y, c, k - 1);
      var v := x[k - 1];
      assert x[k - 1] * y[k - 1] == c * (v * v);
      assert v * v >= 0.0;
    }
  }

  /**
   * dot_product(x, y, N): result starts at 0.0 and gains x[i] * y[i] for
   * each i < N in turn.  The buffers are only read.
   */
  method DotLoop(x: array<real>, y: array<real>, N: nat) returns (result: real)
    requires N <= x.Length && N <= y.Length
    ensures result == Dot(x[..], y[..], N)
    ensures N == 0 ==> result == 0.0
  {
    result := 0.0;
    var i := 0;
    while i < N
      invariant 0 <= i <= N
      invariant result == Dot(x[..], y[..], i)
    {
      result := result + x[i] * y[i];
      i := i + 1;
    }
  }

  /** 0^2 + 1^2 + ... + (k-1)^2. */
  function SquaresBelow(k: nat): (s: real)
  {
    if k == 0 then 0.0 else SquaresBelow(k - 1) + (k - 1) as real * (k - 1) as real
  }

  /** One step of the closed form, as a polynomial identity in j = k - 1. */
  lemma SquaresStep(j: real)
    ensures (j - 1.0) * j * (2.0 * j - 1.0) + 6.0 * (j * j) == j * (j + 1.0) * (2.0 * j + 1.0)
  {
    assert (j - 1.0) * j * (2.0 * j - 1.0) == 2.0 * (j * j * j) - 3.0 * (j * j) + j;
    assert j * (j + 1.0) * (2.0 * j + 1.0) == 2.0 * (j * j * j) + 3.0 * (j * j) + j;
  }

  /** The closed form 6 (0^2 + ... + (k-1)^2) = (k-1) k (2k-1). */
  lemma {:induction false} SquaresClosedForm(k: nat)
    ensures 6.0 * SquaresBelow(k) == (k as real - 1.0) * k as real * (2.0 * k as real - 1.0)
  {
    if k > 0 {
      SquaresClosedForm(k - 1);
      SquaresStep((k - 1) as real);
    }
  }

  /** Term i of the reduction: x[i] y[i] = (i f) (i f 100) = c i^2 with c = 100 f^2. */
  lemma FractionsTerm(n: nat, frac: real, c: real, i: nat)
    requires i < n && c == 100.0 * frac * frac
    ensures Axpy.Fractions(n, frac)[i] * Axpy.Percents(n, frac)[i] == c * (i as real * i as real)
  {
    var v := i as real;
    assert (v * frac) * (v * frac * 100.0) == c * (v * v);
  }

  /** With x[i] = i f and y[i] = 100 i f, the first k products add up to c = 100 f^2 times the sum of squares. */
  lemma {:induction false} FractionsDot(n: nat, frac: real, c: real, k: nat)
    requires k <= n && c == 100.0 * frac * frac
    ensures Dot(Axpy.Fractions(n, frac), Axpy.Percents(n, frac), k) == c * SquaresBelow(k)
  {
    if k > 0 {
      FractionsDot(n, frac, c, k - 1);
      FractionsTerm(n, frac, c, k - 1);
      var s, t := SquaresBelow(k - 1), (k - 1) as real * (k - 1) as real;
      assert c * (s + t) == c * s + c * t;
    }
  }

  /**
   * The dot product the reduction computes, for n >= 2: never negative, and
   * equal to 100 n (2n - 1) / (6 (n - 1)).
   */
  lemma ReductionValue(n: nat)
    requires n >= 2
    ensures Dot(Axpy.Fractions(n, Axpy.Frac(n)), Axpy.Percents(n, Axpy.Frac(n)), n) >= 0.0
    ensures Dot(Axpy.Fractions(n, Axpy.Frac(n)), Axpy.Percents(n, Axpy.Frac(n)), n) * 6.0 * (n - 1) as real
            == 100.0 * n as real * (2 * n - 1) as real
  {
    var frac := Axpy.Frac(n);
    var X, Y := Axpy.Fractions(n, frac), Axpy.Percents(n, frac);
    DotOfMultipleNonNegative(X, Y, 100.0, n);
    FractionsDot(n, frac, 100.0 * frac * frac, n);
    SquaresClosedForm(n);
    ClosedForm(n, frac, Dot(X, Y, n));
  }

  /**
   * The reduction demo with array size n: the initialisation loop, then
   * sum += x[i] * y[i] over i < n.  The program's n is the macro N,
   * 102400 unless redefined.  The result is the dot product, it is never
   * negative, and it has the closed form 100 n (2n - 1) / (6 (n - 1)).
   */
  method RunReduction(n: nat) returns (sum: real)
    requires n >= 2
    ensures sum == Dot(Axpy.Fractions(n, Axpy.Frac(n)), Axpy.Percents(n, Axpy.Frac(n)), n)
    ensures sum >= 0.0
    ensures sum * 6.0 * (n - 1) as real == 100.0 * n as real * (2 * n - 1) as real
  {
    var x := new real[n];
    var y := new real[n];
    Axpy.InitFractions(x, y, n, Axpy.Frac(n));
    sum := DotLoop(x, y, n);
    assert x[..] == x[..n] && y[..] == y[..n];
    ReductionValue(n);
  }

  /** The arithmetic behind the closed form: f (n - 1) = 1 cancels the denominator. */
  lemma ClosedForm(n: nat, frac: real, sum: real)
    requires n >= 2 && frac * (n - 1) as real == 1.0
    requires sum == 100.0 * frac * frac * SquaresBelow(n)
    requires 6.0 * SquaresBelow(n) == (n as real - 1.0) * n as real * (2.0 * n as real - 1.0)
    ensures sum * 6.0 * (n - 1) as real == 100.0 * n as real * (2 * n - 1) as real
  {
    var m, p := (n - 1) as real, n as real * (2 * n - 1) as real;
    assert 6.0 * SquaresBelow(n) == m * p;
    Cancel(frac, m, SquaresBelow(n), p, sum);
  }

  /** f m = 1, sum = 100 f^2 s and 6 s = m p give sum 6 m = 100 p. */
  lemma Cancel(f: real, m: real, s: real, p: real, sum: real)
    requires f * m == 1.0 && sum == 100.0 * f * f * s && 6.0 * s == m * p
    ensures sum * 6.0 * m == 100.0 * p
  {
    calc {
      sum * 6.0 * m;
      100.0 * f * (f * m) * (6.0 * s);
      100.0 * f * (m * p);
      100.0 * (f * m) * p;
    }
  }
}
