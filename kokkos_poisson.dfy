/**
 * The Kokkos Jacobi solvers: kokkos/06-poisson/solution/poisson.cpp (run and
 * main) and kokkos/poisson/poisson.cpp (main).  Both keep f, u and unew in
 * nx x ny Views, zero u and unew, run a two-dimensional parallel_for over the
 * interior cells per sweep followed by std::swap(u, unew), and then dump,
 * average and print unew, which after the last swap is the older buffer.
 *
 * A View is an array2<real> here, indexed (i, j) with i < nx and j < ny, and
 * its contents are a Plane: a sequence of nx rows of ny values.
 */
module PoissonKokkos {
  import opened Grid
  import opened Wrappers
  import opened CheckpointName
  import opened PoissonOmp

  /** The contents of a View. */
  function Plane(a: array2<real>): (g: seq<seq<real>>)
    reads a
    ensures IsPlane(g, a.Length0, a.Length1)
    ensures forall i, j :: 0 <= i < a.Length0 && 0 <= j < a.Length1 ==> g[i][j] == a[i, j]
  {
    seq(a.Length0, i requires 0 <= i < a.Length0 reads a =>
      seq(a.Length1, j requires 0 <= j < a.Length1 reads a => a[i, j]))
  }

  /** A View after deep_copy(v, 0.0). */
  function ZeroPlane(nx: nat, ny: nat): (g: seq<seq<real>>)
    ensures IsPlane(g, nx, ny)
  {
    seq(nx, _ => seq(ny, _ => 0.0))
  }

  /**
   * The update a Jacobi kernel stores at an interior cell: FivePoint is the
   * five-point stencil of kokkos/06-poisson/solution/poisson.cpp; Comma is the
   * expression of kokkos/poisson/poisson.cpp, where a comma operator inside
   * the parentheses evaluates and drops the sum of the first three
   * neighbours, leaving 0.25 * (u(i, j+1) - h2 * f(i, j)).  Both programs set
   * h2 = 1.0, which is folded in here.
   */
  datatype Update = FivePoint | Comma

  function Cell(upd: Update, u: seq<seq<real>>, f: seq<seq<real>>, i: int, j: int, nx: int, ny: int): real
    requires IsPlane(u, nx, ny) && IsPlane(f, nx, ny) && InteriorCell(i, j, nx, ny)
  {
    match upd
    case FivePoint => 0.25 * (u[i - 1][j] + u[i + 1][j] + u[i][j - 1] + u[i][j + 1] - f[i][j])
    case Comma => 0.25 * (u[i][j + 1] - f[i][j])
  }

  /** One kernel launch: every interior cell of prev replaced by the update of u. */
  function Sweep2(upd: Update, prev: seq<seq<real>>, u: seq<seq<real>>, f: seq<seq<real>>, nx: int, ny: int)
    : (r: seq<seq<real>>)
    requires 0 <= nx && 0 <= ny && IsPlane(prev, nx, ny) && IsPlane(u, nx, ny) && IsPlane(f, nx, ny)
    ensures IsPlane(r, nx, ny)
  {
    seq(nx, i requires 0 <= i < nx =>
      seq(ny, j requires 0 <= j < ny =>
        if InteriorCell(i, j, nx, ny) then Cell(upd, u, f, i, j, nx, ny) else prev[i][j]))
  }

  /** The k-th iterate from u = 0: each sweep writes into a plane whose boundary is 0. */
  function Iterate2(upd: Update, f: seq<seq<real>>, nx: nat, ny: nat, k: nat): (r: seq<seq<real>>)
    requires IsPlane(f, nx, ny)
    ensures IsPlane(r, nx, ny)
  {
    if k == 0 then ZeroPlane(nx, ny)
    else Sweep2(upd, ZeroPlane(nx, ny), Iterate2(upd, f, nx, ny, k - 1), f, nx, ny)
  }

  /** Every boundary cell of g holds 0. */
  predicate PlaneBoundaryZero(g: seq<seq<real>>, nx: int, ny: int)
    requires IsPlane(g, nx, ny)
  {
    forall i, j :: 0 <= i < nx && 0 <= j < ny && !InteriorCell(i, j, nx, ny) ==> g[i][j] == 0.0
  }

  /** Both Views start at 0 and only interior cells are ever written, so every iterate has a zero boundary. */
  lemma {:induction false} Iterate2BoundaryZero(upd: Update, f: seq<seq<real>>, nx: nat, ny: nat, k: nat)
    requires IsPlane(f, nx, ny)
    ensures PlaneBoundaryZero(Iterate2(upd, f, nx, ny, k), nx, ny)
  {
    if k > 0 {
      Iterate2BoundaryZero(upd, f, nx, ny, k - 1);
    }
  }

  /**
   * The sweep of iteration k + 1 writes into unew, which holds iterate k - 1
   * (or the zero plane); its boundary is 0, so the result is iterate k + 1.
   */
  lemma PingPong2(upd: Update, f: seq<seq<real>>, nx: nat, ny: nat, k: nat)
    requires IsPlane(f, nx, ny)
    ensures Sweep2(upd, Iterate2(upd, f, nx, ny, if k == 0 then 0 else k - 1), Iterate2(upd, f, nx, ny, k), f, nx, ny)
         == Iterate2(upd, f, nx, ny, k + 1)
  {
    var prev := Iterate2(upd, f, nx, ny, if k == 0 then 0 else k - 1);
    Iterate2BoundaryZero(upd, f, nx, ny, if k == 0 then 0 else k - 1);
    SamePlane(Sweep2(upd, prev, Iterate2(upd, f, nx, ny, k), f, nx, ny), Iterate2(upd, f, nx, ny, k + 1), nx, ny);
  }

  /** The body of the "jacobi" lambda at (i, j), read from the Views u and f. */
  function KernelValue(upd: Update, u: array2<real>, f: array2<real>, h2: real, i: int, j: int): real
    reads u, f
    requires u.Length0 == f.Length0 && u.Length1 == f.Length1
    requires 1 <= i < u.Length0 - 1 && 1 <= j < u.Length1 - 1
  {
    if upd == FivePoint then 0.25 * (u[i - 1, j] + u[i + 1, j] + u[i, j - 1] + u[i, j + 1] - h2 * f[i, j])
    else 0.25 * (u[i, j + 1] - h2 * f[i, j])
  }

  lemma KernelValueIsCell(upd: Update, u: array2<real>, f: array2<real>, i: int, j: int)
    requires u.Length0 == f.Length0 && u.Length1 == f.Length1
    requires 1 <= i < u.Length0 - 1 && 1 <= j < u.Length1 - 1
    ensures KernelValue(upd, u, f, 1.0, i, j) == Cell(upd, Plane(u), Plane(f), i, j, u.Length0, u.Length1)
  {
    var gu, gf := Plane(u), Plane(f);
    assert gu[i - 1][j] == u[i - 1, j] && gu[i + 1][j] == u[i + 1, j];
    assert gu[i][j - 1] == u[i, j - 1] && gu[i][j + 1] == u[i, j + 1] && gf[i][j] == f[i, j];
  }

  /**
   * The "jacobi" parallel_for over MDRangePolicy({1, 1}, {nx-1, ny-1}): each
   * interior (i, j) of unew gets the update of u; nothing else is written.
   */
  method JacobiKernel(upd: Update, u: array2<real>, unew: array2<real>, f: array2<real>)
    requires u.Length0 == unew.Length0 == f.Length0 && u.Length1 == unew.Length1 == f.Length1
    requires unew != u && unew != f
    modifies unew
    ensures Plane(unew) == Sweep2(upd, old(Plane(unew)), Plane(u), Plane(f), u.Length0, u.Length1)
  {
    var nx, ny := u.Length0, u.Length1;
    var h2 := 1.0;
    ghost var prev := Plane(unew);
    ghost var r := Sweep2(upd, prev, Plane(u), Plane(f), nx, ny);
    forall i, j | 1 <= i < nx - 1 && 1 <= j < ny - 1 {
      unew[i, j] := KernelValue(upd, u, f, h2, i, j);
    }
    forall i, j | 0 <= i < nx && 0 <= j < ny
      ensures unew[i, j] == r[i][j]
    {
      if InteriorCell(i, j, nx, ny) {
        KernelValueIsCell(upd, u, f, i, j);
      }
    }
    SamePlane(Plane(unew), r, nx, ny);
  }

  /** Sum of row[j] over 1 <= j < c. */
  function RowSum(row: seq<real>, c: int): real
    requires c <= |row|
    decreases c
  {
    if c <= 1 then 0.0 else RowSum(row, c - 1) + row[c - 1]
  }

  /** Sum of the interior cells g[i][j], 1 <= j < ny - 1, over the rows 1 <= i < r. */
  function PlaneSum(g: seq<seq<real>>, nx: int, ny: int, r: int): real
    requires IsPlane(g, nx, ny) && r <= nx && 1 <= ny
    decreases r
  {
    if r <= 1 then 0.0 else PlaneSum(g, nx, ny, r - 1) + RowSum(g[r - 1], ny - 1)
  }

  /** The sum the "reduce" parallel_reduce computes: all interior cells. */
  function InteriorSum(g: seq<seq<real>>, nx: int, ny: int): real
    requires IsPlane(g, nx, ny) && 1 <= nx && 1 <= ny
  {
    PlaneSum(g, nx, ny, nx - 1)
  }

  /** The "reduce" parallel_reduce over MDRangePolicy({1, 1}, {nx-1, ny-1}) of mean += unew(i, j). */
  method SumInterior(a: array2<real>) returns (s: real)
    requires 1 <= a.Length0 && 1 <= a.Length1
    ensures s == InteriorSum(Plane(a), a.Length0, a.Length1)
  {
    var nx, ny := a.Length0, a.Length1;
    ghost var g := Plane(a);
    s := 0.0;
    var i := 1;
    while i < nx - 1
      invariant 1 <= i && (i <= nx - 1 || i == 1)
      invariant s == PlaneSum(g, nx, ny, i)
    {
      var j := 1;
      ghost var before := s;
      while j < ny - 1
        invariant 1 <= j && (j <= ny - 1 || j == 1)
        invariant s == before + RowSum(g[i], j)
      {
        s := s + a[i, j];
        j := j + 1;
      }
      i := i + 1;
    }
  }

  /** The printed mean: a finite value, or NaN from 0.0 / 0 when the divisor is 0. */
  datatype MeanValue = Finite(value: real) | NotANumber

  /** mean /= ((nx - 1) * (ny - 1)), as written: divided by (nx-1)(ny-1), not by the interior count. */
  function MeanAsWritten(g: seq<seq<real>>, nx: int, ny: int): (m: MeanValue)
    requires IsPlane(g, nx, ny) && 1 <= nx && 1 <= ny
    ensures m.NotANumber? <==> nx == 1 || ny == 1
  {
    var d := (nx - 1) * (ny - 1);
    if d == 0 then NotANumber else Finite(InteriorSum(g, nx, ny) / d as real)
  }

  /** The interior mean: the interior sum divided by the number of interior cells, (nx-2)(ny-2). */
  function InteriorMean(g: seq<seq<real>>, nx: int, ny: int): (m: MeanValue)
    requires IsPlane(g, nx, ny) && 1 <= nx && 1 <= ny
    ensures m.NotANumber? <==> nx <= 2 || ny <= 2
  {
    var d := (nx - 2) * (ny - 2);
    if nx <= 2 || ny <= 2 then NotANumber else Finite(InteriorSum(g, nx, ny) / d as real)
  }

  /** Interior cells all equal to c. */
  predicate ConstantInterior(g: seq<seq<real>>, nx: int, ny: int, c: real)
    requires IsPlane(g, nx, ny)
  {
    forall i, j :: 0 <= i < nx && 0 <= j < ny && InteriorCell(i, j, nx, ny) ==> g[i][j] == c
  }

  lemma {:induction false} RowSumConstant(row: seq<real>, ny: int, c: int, v: real)
    requires |row| == ny && 1 <= c <= ny - 1 && forall j :: 1 <= j < ny - 1 ==> row[j] == v
    ensures RowSum(row, c) == (c - 1) as real * v
  {
    if c > 1 {
      RowSumConstant(row, ny, c - 1, v);
    }
  }

  lemma {:induction false} PlaneSumConstant(g: seq<seq<real>>, nx: int, ny: int, r: int, v: real)
    requires IsPlane(g, nx, ny) && 2 <= ny && 1 <= r <= nx - 1 && ConstantInterior(g, nx, ny, v)
    ensures PlaneSum(g, nx, ny, r) == (r - 1) as real * ((ny - 2) as real * v)
  {
    if r > 1 {
      PlaneSumConstant(g, nx, ny, r - 1, v);
      var row, last := g[r - 1], r - 1;
      forall j | 1 <= j < ny - 1
        ensures row[j] == v
      {
        assert InteriorCell(last, j, nx, ny);
      }
      RowSumConstant(row, ny, ny - 1, v);
      var x := (ny - 2) as real * v;
      assert (r - 1) as real * x == (r - 2) as real * x + x;
    }
  }

  /** The interior mean of a plane whose interior is constant is that constant. */
  lemma InteriorMeanOfConstant(g: seq<seq<real>>, nx: int, ny: int, v: real)
    requires IsPlane(g, nx, ny) && 3 <= nx && 3 <= ny && ConstantInterior(g, nx, ny, v)
    ensures InteriorMean(g, nx, ny) == Finite(v)
  {
    PlaneSumConstant(g, nx, ny, nx - 1, v);
    var a, b := (nx - 2) as real, (ny - 2) as real;
    assert ((nx - 2) * (ny - 2)) as real == a * b;
    assert InteriorSum(g, nx, ny) == a * (b * v);
    assert a * b > 0.0;
    assert a * (b * v) == (a * b) * v;
  }

  /**
   * On a 3 x 3 plane whose one interior cell is 1.0, the mean as written is
   * 0.25, a quarter of the interior mean 1.0.
   */
  lemma MeanDivisorUndercounts()
    ensures MeanAsWritten([[0.0, 0.0, 0.0], [0.0, 1.0, 0.0], [0.0, 0.0, 0.0]], 3, 3) == Finite(0.25)
    ensures InteriorMean([[0.0, 0.0, 0.0], [0.0, 1.0, 0.0], [0.0, 0.0, 0.0]], 3, 3) == Finite(1.0)
  {
    var g := [[0.0, 0.0, 0.0], [0.0, 1.0, 0.0], [0.0, 0.0, 0.0]];
    assert RowSum(g[1], 2) == 1.0;
    assert InteriorSum(g, 3, 3) == 1.0;
  }

  /** What one run prints and writes: unew at (ny/2, nx/2), the mean, and u.bin. */
  datatype KokkosReport = KokkosReport(centre: real, mean: MeanValue, file: ArrayFile)

  /** The report of the Views' final unew contents g. */
  function ReportOf(g: seq<seq<real>>, n: int): KokkosReport
    requires 1 <= n && IsPlane(g, n, n)
  {
    KokkosReport(g[n / 2][n / 2], MeanAsWritten(g, n, n), ArrayFile("u.bin", Flatten(g)))
  }

  /** The report of a run of niter sweeps: everything comes from iterate niter - 1. */
  function ExpectedKokkosReport(upd: Update, f: seq<seq<real>>, n: int, niter: int): KokkosReport
    requires 1 <= n && 1 <= niter && IsPlane(f, n, n)
  {
    ReportOf(Iterate2(upd, f, n, n, niter - 1), n)
  }

  /**
   * The sweep loop of both programs: niter launches of the kernel, each
   * followed by std::swap(u, unew), starting from the zeroed Views u0 and
   * unew0.  u ends on iterate niter and unew on iterate niter - 1.
   */
  method Relax2(upd: Update, u0: array2<real>, unew0: array2<real>, f: array2<real>, niter: int)
    returns (u: array2<real>, unew: array2<real>)
    requires u0.Length0 == unew0.Length0 == f.Length0 && u0.Length1 == unew0.Length1 == f.Length1
    requires u0 != unew0 && u0 != f && unew0 != f && 1 <= niter
    requires Plane(u0) == ZeroPlane(f.Length0, f.Length1) && Plane(unew0) == ZeroPlane(f.Length0, f.Length1)
    modifies u0, unew0
    ensures (u == u0 && unew == unew0) || (u == unew0 && unew == u0)
    ensures Plane(u) == Iterate2(upd, Plane(f), f.Length0, f.Length1, niter)
    ensures Plane(unew) == Iterate2(upd, Plane(f), f.Length0, f.Length1, niter - 1)
  {
    var nx, ny := f.Length0, f.Length1;
    ghost var fs := Plane(f);
    u, unew := u0, unew0;
    ghost var swapped := false;
    ghost var older := 0;
    var iter := 0;
    while iter < niter
      invariant 0 <= iter <= niter && older == if iter == 0 then 0 else iter - 1
      invariant if swapped then u == unew0 && unew == u0 else u == u0 && unew == unew0
      invariant Plane(u) == Iterate2(upd, fs, nx, ny, iter)
      invariant Plane(unew) == Iterate2(upd, fs, nx, ny, older)
    {
      PingPong2(upd, fs, nx, ny, iter);
      JacobiKernel(upd, u, unew, f);
      u, unew := unew, u;
      swapped := !swapped;
      older := iter;
      iter := iter + 1;
    }
  }

  /**
   * The reporting of both programs: unew is dumped to u.bin row by row (a
   * LayoutRight View), its interior
   * summed and divided by (nx-1)(ny-1), and unew(ny/2, nx/2) printed.
   */
  method Report2(unew: array2<real>, n: int) returns (report: KokkosReport)
    requires 1 <= n && unew.Length0 == n && unew.Length1 == n
    ensures report == ReportOf(Plane(unew), n)
  {
    var nx, ny := n, n;
    var file := ArrayFile("u.bin", Flatten(Plane(unew)));
    var sum := SumInterior(unew);
    var d := (nx - 1) * (ny - 1);
    var mean := if d == 0 then NotANumber else Finite(sum / d as real);
    var i, j := ny / 2, nx / 2;
    report := KokkosReport(unew[i, j], mean, file);
  }

  /** run(n, niter) of kokkos/06-poisson/solution/poisson.cpp, or main of kokkos/poisson/poisson.cpp with the comma update. */
  method RunKokkos(upd: Update, n: int, niter: int, f: array2<real>) returns (report: KokkosReport)
    requires 1 <= n && 1 <= niter && f.Length0 == n && f.Length1 == n
    ensures report == ExpectedKokkosReport(upd, Plane(f), n, niter)
  {
    var nx, ny := n, n;
    var u0 := new real[nx, ny]((i, j) => 0.0);
    var unew0 := new real[nx, ny]((i, j) => 0.0);
    SamePlane(Plane(u0), ZeroPlane(nx, ny), nx, ny);
    SamePlane(Plane(unew0), ZeroPlane(nx, ny), nx, ny);
    var u, unew := Relax2(upd, u0, unew0, f, niter);
    report := Report2(unew, n);
  }

  /**
   * The same run reporting u, the newest iterate, after the last swap, as the
   * OpenMP solvers do: the dump, the mean and the centre come from iterate
   * niter.
   */
  method RunKokkosReportingU(upd: Update, n: int, niter: int, f: array2<real>) returns (report: KokkosReport)
    requires 1 <= n && 1 <= niter && f.Length0 == n && f.Length1 == n
    ensures report == ReportOf(Iterate2(upd, Plane(f), n, n, niter), n)
  {
    var nx, ny := n, n;
    var u0 := new real[nx, ny]((i, j) => 0.0);
    var unew0 := new real[nx, ny]((i, j) => 0.0);
    SamePlane(Plane(u0), ZeroPlane(nx, ny), nx, ny);
    SamePlane(Plane(unew0), ZeroPlane(nx, ny), nx, ny);
    var u, unew := Relax2(upd, u0, unew0, f, niter);
    report := Report2(u, n);
  }

  /**
   * After a single sweep the reported centre is still 0, although the
   * iterate the sweep produced is 1 there (3 x 3, f = -4 at the centre).
   */
  lemma OneSweepReportsZeroPlane()
    ensures ExpectedKokkosReport(FivePoint, CentrePlane(), 3, 1).centre == 0.0
    ensures Iterate2(FivePoint, CentrePlane(), 3, 3, 1)[1][1] == 1.0
  {
    assert InteriorCell(1, 1, 3, 3);
  }

  /** A 3 x 3 source that is -4 at the centre and 0 elsewhere. */
  function CentrePlane(): (f: seq<seq<real>>)
    ensures IsPlane(f, 3, 3)
  {
    [[0.0, 0.0, 0.0], [0.0, -4.0, 0.0], [0.0, 0.0, 0.0]]
  }

  /**
   * Where the two updates differ: with u = 1 everywhere and f = 0, the
   * five-point stencil gives 1 and the comma expression 0.25.
   */
  lemma CommaDropsThreeNeighbours()
    ensures Cell(FivePoint, OnesPlane(), ZeroPlane(3, 3), 1, 1, 3, 3) == 1.0
    ensures Cell(Comma, OnesPlane(), ZeroPlane(3, 3), 1, 1, 3, 3) == 0.25
  {
  }

  /**
   * The five-point update of a constant field with no source returns that
   * constant at every interior cell: the value is the average of the four
   * neighbours.
   */
  lemma FivePointKeepsConstants(u: seq<seq<real>>, nx: int, ny: int, v: real, i: int, j: int)
    requires IsPlane(u, nx, ny) && InteriorCell(i, j, nx, ny)
    requires forall p, q :: 0 <= p < nx && 0 <= q < ny ==> u[p][q] == v
    ensures Cell(FivePoint, u, ZeroPlane(nx, ny), i, j, nx, ny) == v
  {
    assert u[i - 1][j] == v && u[i + 1][j] == v && u[i][j - 1] == v && u[i][j + 1] == v;
    assert ZeroPlane(nx, ny)[i][j] == 0.0;
  }

  function OnesPlane(): (u: seq<seq<real>>)
    ensures IsPlane(u, 3, 3)
  {
    [[1.0, 1.0, 1.0], [1.0, 1.0, 1.0], [1.0, 1.0, 1.0]]
  }

  /**
   * main of kokkos/06-poisson/solution/poisson.cpp, over the atoi values of
   * argv[1..]: the iteration count (argv[2]) is checked before the size
   * (argv[1]); the defaults are 1024 and 500.
   */
  function ConfigureKokkos(args: seq<int>): (r: Result<Config, ArgError>)
    ensures r.Ok? <==> (|args| < 1 || 1 <= args[0]) && (|args| < 2 || 1 <= args[1])
    ensures r.Ok? ==> r.value == Config(if |args| >= 1 then args[0] else 1024, if |args| >= 2 then args[1] else 500)
    ensures r == Err(IterationsNotPositive) <==> |args| >= 2 && args[1] < 1
  {
    var niter := if |args| >= 2 then args[1] else 500;
    if niter < 1 then Err(IterationsNotPositive)
    else
      var n := if |args| >= 1 then args[0] else 1024;
      if n < 1 then Err(SizeNotPositive)
      else Ok(Config(n, niter))
  }

  /** kokkos/poisson/poisson.cpp runs a fixed 500 sweeps. */
  const CommaSweeps := 500

  /**
   * The grid side of kokkos/poisson/poisson.cpp: atoi(argv[1]) when there is
   * exactly one argument, 1024 otherwise; nothing checks its sign.
   */
  function CommaGridSide(args: seq<int>): (side: int)
    ensures |args| == 1 && 1 <= args[0] ==> ConfigureKokkos(args) == Ok(Config(side, 500))
    ensures |args| == 1 ==> side == args[0]
    ensures |args| != 1 ==> side == 1024
  {
    if |args| == 1 then args[0] else 1024
  }

  /**
   * The two programs read their arguments differently: with a single positive
   * argument both take it as the side, but a second argument is an iteration
   * count for the solution and makes the comma program fall back to 1024, and
   * a side below 1 is refused only by the solution.
   */
  lemma CommaSideVersusConfigure(args: seq<int>)
    ensures |args| == 1 && 1 <= args[0] ==> ConfigureKokkos(args) == Ok(Config(CommaGridSide(args), 500))
    ensures |args| == 1 && args[0] < 1 ==> ConfigureKokkos(args).Err? && CommaGridSide(args) == args[0]
    ensures |args| == 2 && 1 <= args[0] && 1 <= args[1] ==> ConfigureKokkos(args).value.n == args[0] && CommaGridSide(args) == 1024
  {
  }

  /**
   * main of kokkos/poisson/poisson.cpp: the side from CommaGridSide, 500
   * sweeps of the comma update, and the report of unew.  f is a parameter.
   */
  method RunComma(args: seq<int>, f: array2<real>) returns (report: KokkosReport)
    requires CommaGridSide(args) >= 1
    requires f.Length0 == CommaGridSide(args) && f.Length1 == CommaGridSide(args)
    ensures report == ExpectedKokkosReport(Comma, Plane(f), CommaGridSide(args), CommaSweeps)
  {
    var n := CommaGridSide(args);
    report := RunKokkos(Comma, n, CommaSweeps, f);
  }
}
