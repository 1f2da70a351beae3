/**
 * The axpy exercises: y[i] += a * x[i] over the first N elements, as a plain
 * loop, as a Kokkos parallel_for (functor or lambda) and as an OpenMP target
 * loop, with the initialisations that come with each program.  Doubles are
 * modelled as reals, so the outcomes the programs' comments expect hold
 * exactly here.
 */
module Axpy {
  import opened Wrappers
  import Grid

  /** The reference: every element of y gains a times the matching element of x. */
  function Axpy(a: real, x: seq<real>, y: seq<real>): (r: seq<real>)
    requires |x| == |y|
    ensures |r| == |y| && forall i :: 0 <= i < |y| ==> r[i] == y[i] + a * x[i]
  {
    seq(|y|, i requires 0 <= i < |y| => y[i] + a * x[i])
  }

  /** Subtracting what was added: axpy with -a undoes axpy with a. */
  lemma AxpyInverse(a: real, x: seq<real>, y: seq<real>)
    requires |x| == |y|
    ensures Axpy(-a, x, Axpy(a, x, y)) == y
  {
    var r := Axpy(-a, x, Axpy(a, x, y));
    forall i | 0 <= i < |y|
      ensures r[i] == y[i]
    {
      assert r[i] == (y[i] + a * x[i]) + (-a) * x[i];
    }
  }

  /** Two axpy passes with the same x add up: a then b is a + b. */
  lemma AxpyCompose(a: real, b: real, x: seq<real>, y: seq<real>)
    requires |x| == |y|
    ensures Axpy(b, x, Axpy(a, x, y)) == Axpy(a + b, x, y)
  {
    var l, r := Axpy(b, x, Axpy(a, x, y)), Axpy(a + b, x, y);
    forall i | 0 <= i < |y|
      ensures l[i] == r[i]
    {
      assert (a + b) * x[i] == a * x[i] + b * x[i];
    }
  }

  /**
   * The sequential loop `for i < N: y[i] += a * x[i]`.  x is declared const
   * in the source but nothing stops a caller passing the same buffer twice;
   * each element is read before it is written, so the element-wise result
   * holds in that case too.
   */
  method AxpyLoop(x: array<real>, y: array<real>, a: real, N: nat)
    requires N <= x.Length && N <= y.Length
    modifies y
    ensures y[..N] == Axpy(a, old(x[..N]), old(y[..N]))
    ensures y[N..] == old(y[N..])
    ensures x != y ==> x[..] == old(x[..])
  {
    ghost var X, Y := x[..], y[..];
    var i := 0;
    while i < N
      invariant 0 <= i <= N
      invariant forall k :: 0 <= k < i ==> y[k] == Y[k] + a * X[k]
      invariant forall k :: i <= k < y.Length ==> y[k] == Y[k]
      invariant forall k :: i <= k < x.Length ==> x[k] == X[k]
      invariant x != y ==> x[..] == X
    {
      y[i] := y[i] + a * x[i];
      i := i + 1;
    }
    assert forall k :: 0 <= k < N ==> y[..N][k] == Axpy(a, X[..N], Y[..N])[k];
  }

  /**
   * Kokkos::parallel_for(N, body) with the element body y[i] += a * x[i],
   * written as a functor or as a lambda: every index in [0, N) runs once,
   * independently of the others.
   */
  method AxpyParallel(x: array<real>, y: array<real>, a: real, N: nat)
    requires N <= x.Length && N <= y.Length
    modifies y
    ensures y[..N] == Axpy(a, old(x[..N]), old(y[..N]))
    ensures y[N..] == old(y[N..])
    ensures x != y ==> x[..] == old(x[..])
  {
    ghost var X, Y := x[..], y[..];
    forall i | 0 <= i < N {
      y[i] := y[i] + a * x[i];
    }
    assert forall k :: 0 <= k < N ==> y[..N][k] == Axpy(a, X[..N], Y[..N])[k];
  }

  // The Kokkos serial exercise: init, then axpy with a = 0.5.

  /** x[i] = (i+1) * 2.4 for i < N. */
  function TwiceRamp(N: nat): (s: seq<real>)
    ensures |s| == N && forall i :: 0 <= i < N ==> s[i] == (i + 1) as real * 2.4
  {
    seq(N, i => (i + 1) as real * 2.4)
  }

  /** y[i] = (i+1) * -1.2 for i < N. */
  function NegRamp(N: nat): (s: seq<real>)
    ensures |s| == N && forall i :: 0 <= i < N ==> s[i] == (i + 1) as real * -1.2
  {
    seq(N, i => (i + 1) as real * -1.2)
  }

  /** The init template: one loop filling both buffers, leaving what lies past N alone. */
  method InitRamps(x: array<real>, y: array<real>, N: nat)
    requires N <= x.Length && N <= y.Length && x != y
    modifies x, y
    ensures x[..N] == TwiceRamp(N) && y[..N] == NegRamp(N)
    ensures x[N..] == old(x[N..]) && y[N..] == old(y[N..])
  {
    var i := 0;
    while i < N
      invariant 0 <= i <= N
      invariant forall k :: 0 <= k < i ==> x[k] == (k + 1) as real * 2.4 && y[k] == (k + 1) as real * -1.2
      invariant forall k :: i <= k < x.Length ==> x[k] == old(x[k])
      invariant forall k :: i <= k < y.Length ==> y[k] == old(y[k])
    {
      x[i] := (i + 1) as real * 2.4;
      y[i] := (i + 1) as real * -1.2;
      i := i + 1;
    }
  }

  /** With a = 0.5 every y cancels: half of 2.4 (i+1) is 1.2 (i+1). */
  lemma RampsCancel(N: nat)
    ensures Axpy(0.5, TwiceRamp(N), NegRamp(N)) == Grid.Zeros(N)
  {
    var r := Axpy(0.5, TwiceRamp(N), NegRamp(N));
    forall i | 0 <= i < N
      ensures r[i] == 0.0
    {
      var v := (i + 1) as real;
      assert r[i] == v * -1.2 + 0.5 * (v * 2.4);
    }
  }

  /**
   * main of the serial Kokkos exercise, with a = 0.5 and N = 100: the first
   * and last element of y printed after axpy are both zero.
   */
  method RunRamps() returns (first: real, last: real)
    ensures first == 0.0 && last == 0.0
  {
    var N := 100;
    var x := new real[N];
    var y := new real[N];
    InitRamps(x, y, N);
    AxpyLoop(x, y, 0.5, N);
    RampsCancel(N);
    assert y[..N] == Grid.Zeros(N);
    first, last := y[0], y[N - 1];
    assert first == y[..N][0] && last == y[..N][N - 1];
  }

  // The Kokkos solution: the same update three times, from a reset each time.

  /** x[i] = i * 1.2 for i < N. */
  function Ramp(N: nat): (s: seq<real>)
    ensures |s| == N && forall i :: 0 <= i < N ==> s[i] == i as real * 1.2
  {
    seq(N, i => i as real * 1.2)
  }

  /** y[i] = -i * 1.2 for i < N. */
  function Descent(N: nat): (s: seq<real>)
    ensures |s| == N && forall i :: 0 <= i < N ==> s[i] == -(i as real) * 1.2
  {
    seq(N, i => -(i as real) * 1.2)
  }

  /** The initialisation and each reset loop: both buffers restored to their initial contents. */
  method Reset(x: array<real>, y: array<real>, N: nat)
    requires N <= x.Length && N <= y.Length && x != y
    modifies x, y
    ensures x[..N] == Ramp(N) && y[..N] == Descent(N)
    ensures x[N..] == old(x[N..]) && y[N..] == old(y[N..])
  {
    var i := 0;
    while i < N
      invariant 0 <= i <= N
      invariant forall k :: 0 <= k < i ==> x[k] == k as real * 1.2 && y[k] == -(k as real) * 1.2
      invariant forall k :: i <= k < x.Length ==> x[k] == old(x[k])
      invariant forall k :: i <= k < y.Length ==> y[k] == old(y[k])
    {
      x[i] := i as real * 1.2;
      y[i] := -(i as real) * 1.2;
      i := i + 1;
    }
  }

  /** With a = 0.5, y[i] = -0.6 i. */
  lemma RampAxpy(N: nat)
    ensures Axpy(0.5, Ramp(N), Descent(N)) == seq(N, i => -0.6 * i as real)
  {
    var r := Axpy(0.5, Ramp(N), Descent(N));
    forall i | 0 <= i < N
      ensures r[i] == -0.6 * i as real
    {
      var v := i as real;
      assert r[i] == -v * 1.2 + 0.5 * (v * 1.2);
    }
  }

  /** The pair (y[1], y[N-1]) printed after one axpy pass. */
  method AxpyPass(x: array<real>, y: array<real>, N: nat, parallel: bool) returns (second: real, last: real)
    requires 2 <= N && N <= x.Length && N <= y.Length && x != y
    requires x[..N] == Ramp(N) && y[..N] == Descent(N)
    modifies y
    ensures x[..] == old(x[..])
    ensures second == -0.6 && last == -0.6 * (N - 1) as real
  {
    if parallel {
      AxpyParallel(x, y, 0.5, N);
    } else {
      AxpyLoop(x, y, 0.5, N);
    }
    RampAxpy(N);
    second, last := y[1], y[N - 1];
    assert second == y[..N][1] && last == y[..N][N - 1];
  }

  /**
   * main of the Kokkos solution, N = 100, a = 0.5: the serial loop, then a
   * reset and the functor, then a reset and the lambda.  The three printed
   * pairs agree, each being (-0.6, -0.6 * 99), and x is never changed by
   * an axpy pass.
   */
  method RunThreeWays() returns (pairs: seq<(real, real)>)
    ensures |pairs| == 3
    ensures forall p :: 0 <= p < 3 ==> pairs[p] == (-0.6, -59.4)
  {
    var N := 100;
    var x := new real[N];
    var y := new real[N];
    Reset(x, y, N);
    var s1, l1 := AxpyPass(x, y, N, false);
    Reset(x, y, N);
    var s2, l2 := AxpyPass(x, y, N, true);
    Reset(x, y, N);
    var s3, l3 := AxpyPass(x, y, N, true);
    pairs := [(s1, l1), (s2, l2), (s3, l3)];
  }

  // The OpenMP exercises: x[i] = i / (n-1), y[i] = 100 x[i], alpha = 3.

  /** The default array size, both for the N macro and for run(n) without an argument. */
  const DefaultSize: int := 102400

  /**
   * 1.0 / (double)(n - 1).  A zero divisor has no real quotient: in IEEE
   * double arithmetic it gives +infinity, and x[0] = 0 * infinity is NaN.
   */
  function FracAsWritten(n: int): (f: Option<real>)
    ensures f.None? <==> n == 1
    ensures f.Some? ==> f.value * (n - 1) as real == 1.0
  {
    if n - 1 == 0 then None else Some(1.0 / (n - 1) as real)
  }

  /** The step the initialisation evidently wants: 1/(n-1), and 0 for a single element, so x[0] = 0 always. */
  function Frac(n: int): (f: real)
    ensures n != 1 ==> f * (n - 1) as real == 1.0
    ensures n == 1 ==> f == 0.0
  {
    if n == 1 then 0.0 else 1.0 / (n - 1) as real
  }

  /** x[i] = i * frac for i < n. */
  function Fractions(n: nat, frac: real): (s: seq<real>)
    ensures |s| == n && forall i :: 0 <= i < n ==> s[i] == i as real * frac
  {
    seq(n, i => i as real * frac)
  }

  /** y[i] = i * frac * 100 for i < n. */
  function Percents(n: nat, frac: real): (s: seq<real>)
    ensures |s| == n && forall i :: 0 <= i < n ==> s[i] == i as real * frac * 100.0
  {
    seq(n, i => i as real * frac * 100.0)
  }

  /** The initialisation loop, given the step frac it recomputes on every iteration. */
  method InitFractions(x: array<real>, y: array<real>, n: nat, frac: real)
    requires n <= x.Length && n <= y.Length && x != y
    modifies x, y
    ensures x[..n] == Fractions(n, frac) && y[..n] == Percents(n, frac)
    ensures x[n..] == old(x[n..]) && y[n..] == old(y[n..])
  {
    var i := 0;
    while i < n
      invariant 0 <= i <= n
      invariant forall k :: 0 <= k < i ==> x[k] == k as real * frac && y[k] == k as real * frac * 100.0
      invariant forall k :: i <= k < x.Length ==> x[k] == old(x[k])
      invariant forall k :: i <= k < y.Length ==> y[k] == old(y[k])
    {
      x[i] := i as real * frac;
      y[i] := i as real * frac * 100.0;
      i := i + 1;
    }
  }

  /** With alpha = 3, y[i] = 100 i frac + 3 i frac = 103 i frac. */
  lemma FractionsAxpy(n: nat, frac: real)
    ensures Axpy(3.0, Fractions(n, frac), Percents(n, frac)) == seq(n, i => 103.0 * i as real * frac)
  {
    var r := Axpy(3.0, Fractions(n, frac), Percents(n, frac));
    forall i | 0 <= i < n
      ensures r[i] == 103.0 * i as real * frac
    {
      var v := i as real * frac;
      assert r[i] == v * 100.0 + 3.0 * v;
    }
  }

  /** The output ends at 0 and 103 when n >= 2, because frac (n-1) = 1. */
  lemma FractionsEnds(n: nat)
    requires n >= 2
    ensures Axpy(3.0, Fractions(n, Frac(n)), Percents(n, Frac(n)))[0] == 0.0
    ensures Axpy(3.0, Fractions(n, Frac(n)), Percents(n, Frac(n)))[n - 1] == 103.0
  {
    FractionsAxpy(n, Frac(n));
    assert 103.0 * (n - 1) as real * Frac(n) == 103.0 * (Frac(n) * (n - 1) as real);
  }

  /**
   * The argument check of main: no argument keeps the default size, and an
   * argument below 1 ends the program with status 1 before run.
   */
  function ValidateSize(arg: Option<int>): (r: Result<int, int>)
    ensures arg.None? ==> r == Ok(DefaultSize)
    ensures arg.Some? ==> (r.Err? <==> arg.value < 1)
    ensures r.Err? ==> r.error == 1
    ensures r.Ok? ==> r.value >= 1 && (arg.Some? ==> r.value == arg.value)
  {
    match arg
    case None => Ok(DefaultSize)
    case Some(n) => if n < 1 then Err(1) else Ok(n)
  }

  /**
   * run(n) as written: the initialisation, then the offloaded axpy loop.
   * None stands for the run whose step is 1.0 / 0.0, where every output is
   * a non-finite double.  The loop is the one of the solution, whose
   * map(to: x[0:n]) map(tofrom: y[0:n]) copies x in and y in and out, so the
   * host y ends with the device's result; x is only read.
   */
  method RunAsWritten(n: nat) returns (out: Option<seq<real>>)
    requires n >= 1
    ensures out.None? <==> n == 1
    ensures out.Some? ==> out.value == seq(n, i => 103.0 * i as real * FracAsWritten(n).value)
  {
    var frac := FracAsWritten(n);
    if frac.None? {
      return None;
    }
    var x := new real[n];
    var y := new real[n];
    InitFractions(x, y, n, frac.value);
    AxpyLoop(x, y, 3.0, n);
    FractionsAxpy(n, frac.value);
    assert y[..] == y[..n];
    out := Some(y[..]);
  }

  /** main as written: size 1 passes the argument check and reaches the zero divisor. */
  lemma SizeOneReachesZeroDivisor()
    ensures ValidateSize(Some(1)).Ok? && FracAsWritten(ValidateSize(Some(1)).value).None?
  {
  }

  /** run(n) with the corrected step: every admitted size gives y[i] = 103 x[i], with y[0] = 0. */
  method Run(n: nat) returns (y: seq<real>)
    requires n >= 1
    ensures |y| == n && y[0] == 0.0
    ensures y == Axpy(3.0, Fractions(n, Frac(n)), Percents(n, Frac(n)))
    ensures forall i :: 0 <= i < n ==> y[i] == 103.0 * Fractions(n, Frac(n))[i]
    ensures n >= 2 ==> y[n - 1] == 103.0
  {
    var xs := new real[n];
    var ys := new real[n];
    InitFractions(xs, ys, n, Frac(n));
    AxpyLoop(xs, ys, 3.0, n);
    FractionsAxpy(n, Frac(n));
    assert ys[..] == ys[..n];
    y := ys[..];
    if n >= 2 {
      FractionsEnds(n);
    }
  }
}
