/**
 * The SYCL diffusion programs of sycl/exercises/03-poisson-jacobi-iter: an
 * nx x ny float grid, row-major with row length ny (cell (i, j) at
 * i * ny + j), filled with an integer-valued field, then relaxed by kernels
 * that each read one buffer and write the interior of the other.  Every one of
 * the 100 outer iterations runs a kernel from u into unew and then one from
 * unew back into u.
 *
 * This module holds what both programs share and the untiled kernel of
 * solution/j_simple_with_buffer.cpp.  A kernel over range<2>(nx, ny) is a
 * forall over the flat cell index; the lemma KernelIndices relates the
 * kernel's (i, j) and its five flat indices to that index.
 */
module JacobiSycl {
  import opened Grid

  /** The factor of solution/j_simple_with_buffer.cpp. */
  const SimpleFactor: real := 0.0001

  /** The number of outer iterations of both programs. */
  const OuterIterations: nat := 100

  /** C's int division, which truncates toward zero. */
  function CDiv(a: int, b: int): int
    requires b > 0
  {
    if a >= 0 then a / b else -((-a) / b)
  }

  /** The initial value of cell (i, j): ((i - nx/2)^2) / nx + ((j - ny/2)^2) / ny in C int arithmetic. */
  function InitialValue(i: int, j: int, nx: int, ny: int): int
    requires 1 <= nx && 1 <= ny
  {
    CDiv((i - CDiv(nx, 2)) * (i - CDiv(nx, 2)), nx) + CDiv((j - CDiv(ny, 2)) * (j - CDiv(ny, 2)), ny)
  }

  lemma SquareNonNegative(x: int)
    ensures x * x >= 0
  {
    if x < 0 {
      assert x * x == (-x) * (-x);
    }
  }

  /**
   * Every initial value is a non-negative integer, and the truncating
   * divisions agree with floor division because every numerator is a square.
   */
  lemma InitialValueNonNegative(i: int, j: int, nx: int, ny: int)
    requires 1 <= nx && 1 <= ny
    ensures InitialValue(i, j, nx, ny) >= 0
    ensures InitialValue(i, j, nx, ny)
         == ((i - nx / 2) * (i - nx / 2)) / nx + ((j - ny / 2) * (j - ny / 2)) / ny
  {
    var a, b := i - nx / 2, j - ny / 2;
    var sa, sb := a * a, b * b;
    SquareNonNegative(a);
    SquareNonNegative(b);
    DivNonNegative(sa, nx);
    DivNonNegative(sb, ny);
    assert CDiv(nx, 2) == nx / 2 && CDiv(ny, 2) == ny / 2;
    assert CDiv(sa, nx) == sa / nx && CDiv(sb, ny) == sb / ny;
  }

  lemma DivNonNegative(p: int, q: int)
    requires 0 <= p && 0 < q
    ensures 0 <= p / q
  {
  }

  /** The grid after the initialisation loops, as floats hold the integers. */
  function InitialField(nx: int, ny: int): (u: seq<real>)
    requires 1 <= nx && 1 <= ny
    ensures |u| == nx * ny
  {
    seq(nx * ny, k requires 0 <= k < nx * ny => InitialValue(k / ny, k % ny, nx, ny) as real)
  }

  /**
   * One row of the initialisation loops: the inner loop over j writes cell
   * (i, j) at i * ny + j for every j.
   */
  method InitialiseRow(u: array<real>, nx: int, ny: int, i: int)
    requires 1 <= nx && 1 <= ny && u.Length == nx * ny && 0 <= i < nx
    requires forall k :: 0 <= k < i * ny ==> u[k] == InitialField(nx, ny)[k]
    modifies u
    ensures forall k :: 0 <= k < (i + 1) * ny ==> u[k] == InitialField(nx, ny)[k]
    ensures forall k :: (i + 1) * ny <= k < u.Length ==> u[k] == old(u[k])
  {
    NextRowStart(i, ny);
    FlatIndexInRange(i, ny - 1, nx, ny);
    var j := 0;
    while j < ny
      invariant 0 <= j <= ny
      invariant forall k :: 0 <= k < i * ny + j ==> u[k] == InitialField(nx, ny)[k]
      invariant forall k :: i * ny + j <= k < u.Length ==> u[k] == old(u[k])
    {
      var ind := i * ny + j;
      FlatIndexInverse(i, j, ny);
      u[ind] := InitialValue(i, j, nx, ny) as real;
      j := j + 1;
    }
  }

  /** The initialisation loops of both programs: u holds the initial field. */
  method Initialise(u: array<real>, nx: int, ny: int)
    requires 1 <= nx && 1 <= ny && u.Length == nx * ny
    modifies u
    ensures u[..] == InitialField(nx, ny)
  {
    var i := 0;
    while i < nx
      invariant 0 <= i <= nx
      invariant forall k :: 0 <= k < i * ny ==> u[k] == InitialField(nx, ny)[k]
    {
      InitialiseRow(u, nx, ny, i);
      i := i + 1;
    }
  }

  /** The diffusion update at interior cell k: factor times the five-point expression. */
  function Diffusion(U: seq<real>, k: int, nx: int, ny: int, factor: real): real
    requires 1 <= ny && |U| == nx * ny && 0 <= k < |U| && Interior(k, nx, ny)
  {
    InteriorNeighbours(k, nx, ny);
    factor * (U[k + ny] - 2.0 * U[k] + U[k - ny] + U[k + 1] - 2.0 * U[k] + U[k - 1])
  }

  /** One kernel: every interior cell of prev replaced by the diffusion update of U. */
  function HalfStep(prev: seq<real>, U: seq<real>, nx: int, ny: int, factor: real): (r: seq<real>)
    requires 1 <= ny && |prev| == nx * ny && |U| == nx * ny
    ensures |r| == nx * ny
  {
    seq(|prev|, k requires 0 <= k < |prev| =>
      if Interior(k, nx, ny) then Diffusion(U, k, nx, ny, factor) else prev[k])
  }

  /**
   * The kernel's indices: under the guard 0 < i < nx-1, 0 < j < ny-1 the
   * cell ind = i*ny + j is interior and ind, ip, im, jp and jm all lie in
   * [0, nx*ny), at ind + ny, ind - ny, ind + 1 and ind - 1.
   */
  lemma KernelIndices(i: int, j: int, nx: int, ny: int)
    requires 1 <= ny && InteriorCell(i, j, nx, ny)
    ensures Interior(i * ny + j, nx, ny)
    ensures 0 <= i * ny + j < nx * ny
    ensures (i + 1) * ny + j == i * ny + j + ny && (i + 1) * ny + j < nx * ny
    ensures (i - 1) * ny + j == i * ny + j - ny && 0 <= (i - 1) * ny + j
    ensures 0 <= i * ny + j - 1 && i * ny + j + 1 < nx * ny
  {
    InteriorAt(i, j, nx, ny);
    FlatIndexInRange(i, j, nx, ny);
    FlatIndexInRange(i + 1, j, nx, ny);
    FlatIndexInRange(i - 1, j, nx, ny);
    NextRowStart(i, ny);
    NextRowStart(i - 1, ny);
    FlatIndexInRange(i, j + 1, nx, ny);
  }

  /** The body of the kernel lambda under its guard, read from the accessor U. */
  function KernelValue(U: array<real>, k: int, nx: int, ny: int, factor: real): (v: real)
    reads U
    requires 1 <= ny && U.Length == nx * ny && 0 <= k < nx * ny && Interior(k, nx, ny)
    ensures v == Diffusion(U[..], k, nx, ny, factor)
  {
    InteriorNeighbours(k, nx, ny);
    factor * (U[k + ny] - 2.0 * U[k] + U[k - ny] + U[k + 1] - 2.0 * U[k] + U[k - 1])
  }

  /**
   * One parallel_for over range<2>(nx, ny) with accessors U (read) and UNEW
   * (write): each interior cell of UNEW gets the diffusion update of U.
   */
  method DiffusionKernel(U: array<real>, UNEW: array<real>, nx: int, ny: int, factor: real)
    requires 1 <= ny && U.Length == nx * ny && UNEW.Length == nx * ny && U != UNEW
    modifies UNEW
    ensures UNEW[..] == HalfStep(old(UNEW[..]), U[..], nx, ny, factor)
  {
    ghost var us := U[..];
    ghost var r := HalfStep(UNEW[..], us, nx, ny, factor);
    forall k | 0 <= k < nx * ny && Interior(k, nx, ny) {
      UNEW[k] := KernelValue(U, k, nx, ny, factor);
    }
    assert U[..] == us;
    assert forall k :: 0 <= k < nx * ny ==> UNEW[k] == r[k];
    assert UNEW[..] == r;
  }

  /** The contents of the two host vectors. */
  datatype Buffers = Buffers(u: seq<real>, unew: seq<real>)

  predicate Shaped(b: Buffers, nx: int, ny: int)
  {
    |b.u| == nx * ny && |b.unew| == nx * ny
  }

  /** One outer iteration: u into unew, then unew into u. */
  function Step(b: Buffers, nx: int, ny: int, factor: real): (r: Buffers)
    requires 1 <= ny && Shaped(b, nx, ny)
    ensures Shaped(r, nx, ny)
  {
    var unew := HalfStep(b.unew, b.u, nx, ny, factor);
    Buffers(HalfStep(b.u, unew, nx, ny, factor), unew)
  }

  /** m outer iterations. */
  function Steps(b: Buffers, nx: int, ny: int, factor: real, m: nat): (r: Buffers)
    requires 1 <= ny && Shaped(b, nx, ny)
    ensures Shaped(r, nx, ny)
  {
    if m == 0 then b else Step(Steps(b, nx, ny, factor, m - 1), nx, ny, factor)
  }

  /** The u-into-unew kernel overwrites every interior cell of unew: its result depends only on unew's boundary. */
  lemma HalfStepIgnoresInterior(w1: seq<real>, w2: seq<real>, U: seq<real>, nx: int, ny: int, factor: real)
    requires 1 <= ny && |w1| == nx * ny && |w2| == nx * ny && |U| == nx * ny
    requires SameBoundary(w1, w2, nx, ny)
    ensures HalfStep(w1, U, nx, ny, factor) == HalfStep(w2, U, nx, ny, factor)
  {
    assert forall k :: 0 <= k < nx * ny ==> HalfStep(w1, U, nx, ny, factor)[k] == HalfStep(w2, U, nx, ny, factor)[k];
  }

  /**
   * The warm-up kernel writes only the interior of unew, so after one or more
   * outer iterations both buffers are what they would be without it.
   */
  lemma {:induction false} WarmUpIrrelevant(u: seq<real>, w1: seq<real>, w2: seq<real>, nx: int, ny: int, factor: real, m: nat)
    requires 1 <= ny && |u| == nx * ny && |w1| == nx * ny && |w2| == nx * ny && 1 <= m
    requires SameBoundary(w1, w2, nx, ny)
    ensures Steps(Buffers(u, w1), nx, ny, factor, m) == Steps(Buffers(u, w2), nx, ny, factor, m)
  {
    if m == 1 {
      HalfStepIgnoresInterior(w1, w2, u, nx, ny, factor);
    } else {
      WarmUpIrrelevant(u, w1, w2, nx, ny, factor, m - 1);
    }
  }

  /** Neither kernel writes a boundary cell, so u keeps its initial boundary values through any number of iterations. */
  lemma {:induction false} StepsKeepBoundary(b: Buffers, nx: int, ny: int, factor: real, m: nat)
    requires 1 <= ny && Shaped(b, nx, ny)
    ensures SameBoundary(Steps(b, nx, ny, factor, m).u, b.u, nx, ny)
    ensures SameBoundary(Steps(b, nx, ny, factor, m).unew, b.unew, nx, ny)
  {
    if m > 0 {
      StepsKeepBoundary(b, nx, ny, factor, m - 1);
    }
  }

  /** What u holds at the end of a run on an n x n grid with the given factor. */
  function FinalField(n: int, factor: real): (u: seq<real>)
    requires 1 <= n
    ensures |u| == n * n
  {
    var u0 := InitialField(n, n);
    Steps(Buffers(u0, HalfStep(Zeros(n * n), u0, n, n, factor)), n, n, factor, OuterIterations).u
  }

  /** The warm-up does not change the result: the run ends as one without it would. */
  lemma FinalFieldWithoutWarmUp(n: int, factor: real)
    requires 1 <= n
    ensures FinalField(n, factor)
         == Steps(Buffers(InitialField(n, n), Zeros(n * n)), n, n, factor, OuterIterations).u
  {
    var u0 := InitialField(n, n);
    WarmUpIrrelevant(u0, HalfStep(Zeros(n * n), u0, n, n, factor), Zeros(n * n), n, n, factor, OuterIterations);
  }

  /** The printed [0][0] is a boundary cell, so it is its initial value (nx/2)^2/nx + (ny/2)^2/ny. */
  lemma CornerKeepsInitialValue(n: int, factor: real)
    requires 1 <= n
    ensures FinalField(n, factor)[0] == InitialValue(0, 0, n, n) as real
  {
    var u0 := InitialField(n, n);
    StepsKeepBoundary(Buffers(u0, HalfStep(Zeros(n * n), u0, n, n, factor)), n, n, factor, OuterIterations);
    assert !Interior(0, n, n);
  }

  /**
   * main of solution/j_simple_with_buffer.cpp on an n x n grid: initialise
   * u, run the warm-up kernel from u into unew, then 100 outer iterations;
   * returns u and the printed u[0].
   */
  method RunSimple(n: int) returns (u: array<real>, corner: real)
    requires 1 <= n
    ensures fresh(u) && u[..] == FinalField(n, SimpleFactor)
    ensures corner == FinalField(n, SimpleFactor)[0]
  {
    var nx, ny := n, n;
    u := new real[nx * ny](_ => 0.0);
    var unew := new real[nx * ny](_ => 0.0);
    assert unew[..] == Zeros(nx * ny);
    Initialise(u, nx, ny);
    DiffusionKernel(u, unew, nx, ny, SimpleFactor);
    ghost var b0 := Buffers(u[..], unew[..]);
    var iter := 0;
    while iter < OuterIterations
      invariant 0 <= iter <= OuterIterations
      invariant Buffers(u[..], unew[..]) == Steps(b0, nx, ny, SimpleFactor, iter)
    {
      DiffusionKernel(u, unew, nx, ny, SimpleFactor);
      DiffusionKernel(unew, u, nx, ny, SimpleFactor);
      iter := iter + 1;
    }
    corner := u[0];
  }
}
