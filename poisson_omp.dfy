/**
 * The serial Jacobi solver of openmp/03-poisson/poisson.c: three n x n grids
 * f (source), u (current iterate) and unew (next iterate) stored row-major,
 * `niter` sweeps of the five-point stencil over the interior, a swap of u and unew
 * after each sweep, and the centre value of the final u.
 *
 * Grids have ny rows of nx cells; cell (i, j) is at i * nx + j.  The source
 * field f comes from create_input, which is not part of this model, so it is
 * a parameter here.
 */
module PoissonOmp {
  import opened Grid
  import opened Wrappers
  import opened CheckpointName

  /**
   * The five-point update of interior cell k, adding the terms in the order
   * the C code does: u[ip] + u[im] + u[jp] + u[jm] - h2 * f[ind].  Every
   * solver sets h2 = 1.0, so the source term enters as f[ind] itself.
   */
  function Stencil(u: seq<real>, f: seq<real>, k: int, rows: int, width: int): real
    requires 0 < width && 0 <= k && Interior(k, rows, width)
    requires |u| == rows * width && |f| == rows * width
  {
    InteriorNeighbours(k, rows, width);
    0.25 * (u[k + width] + u[k - width] + u[k + 1] + u[k - 1] - f[k])
  }

  /**
   * unew after the sweep has visited, in row-major order, every interior cell
   * with flat index below c: those cells hold the stencil of u, every other
   * cell still holds its value from `prev`.
   */
  function SweepUpTo(prev: seq<real>, u: seq<real>, f: seq<real>, rows: int, width: int, c: int): (r: seq<real>)
    requires 0 < width && |prev| == rows * width && |u| == rows * width && |f| == rows * width
    ensures |r| == |prev|
    decreases c
  {
    if c <= 0 then prev
    else
      var r := SweepUpTo(prev, u, f, rows, width, c - 1);
      if c - 1 < |prev| && Interior(c - 1, rows, width) then r[c - 1 := Stencil(u, f, c - 1, rows, width)] else r
  }

  /**
   * Cell by cell, SweepUpTo holds the stencil at every interior cell below c
   * and the previous value everywhere else.
   */
  lemma {:induction false} SweepUpToAt(prev: seq<real>, u: seq<real>, f: seq<real>, rows: int, width: int, c: int, k: int)
    requires 0 < width && |prev| == rows * width && |u| == rows * width && |f| == rows * width
    requires 0 <= k < |prev|
    decreases c
    ensures SweepUpTo(prev, u, f, rows, width, c)[k]
         == if k < c && Interior(k, rows, width) then Stencil(u, f, k, rows, width) else prev[k]
  {
    if c > 0 {
      SweepUpToAt(prev, u, f, rows, width, c - 1, k);
    }
  }

  /** unew after one complete stencil sweep over u, starting from unew = prev. */
  function Sweep(prev: seq<real>, u: seq<real>, f: seq<real>, rows: int, width: int): (r: seq<real>)
    requires 0 < width && |prev| == rows * width && |u| == rows * width && |f| == rows * width
    ensures |r| == |prev|
  {
    SweepUpTo(prev, u, f, rows, width, |prev|)
  }

  /** One Jacobi step: the sweep of u written into a grid whose boundary is 0. */
  function Jacobi(u: seq<real>, f: seq<real>, rows: int, width: int): (r: seq<real>)
    requires 0 < width && 0 <= rows && |u| == rows * width && |f| == rows * width
    ensures |r| == rows * width
  {
    Sweep(Zeros(rows * width), u, f, rows, width)
  }

  /** The k-th Jacobi iterate from the all-zero field. */
  function Iterate(f: seq<real>, rows: int, width: int, k: nat): (r: seq<real>)
    requires 0 < width && 0 <= rows && |f| == rows * width
    ensures |r| == rows * width
  {
    if k == 0 then Zeros(rows * width) else Jacobi(Iterate(f, rows, width, k - 1), f, rows, width)
  }

  /** Two sweep prefixes agree when no interior cell lies between their ends. */
  lemma SweepUpToSame(prev: seq<real>, u: seq<real>, f: seq<real>, rows: int, width: int, c: int, d: int)
    requires 0 < width && |prev| == rows * width && |u| == rows * width && |f| == rows * width
    requires forall k :: 0 <= k < |prev| && Interior(k, rows, width) ==> (k < c <==> k < d)
    ensures SweepUpTo(prev, u, f, rows, width, c) == SweepUpTo(prev, u, f, rows, width, d)
  {
    forall k | 0 <= k < |prev|
      ensures SweepUpTo(prev, u, f, rows, width, c)[k] == SweepUpTo(prev, u, f, rows, width, d)[k]
    {
      SweepUpToAt(prev, u, f, rows, width, c, k);
      SweepUpToAt(prev, u, f, rows, width, d, k);
    }
  }

  /** Visiting interior cell c writes the stencil of u at c and nothing else. */
  lemma SweepUpToStep(prev: seq<real>, u: seq<real>, f: seq<real>, rows: int, width: int, c: int)
    requires 0 < width && |prev| == rows * width && |u| == rows * width && |f| == rows * width
    requires 0 <= c < |prev| && Interior(c, rows, width)
    ensures SweepUpTo(prev, u, f, rows, width, c + 1)
         == SweepUpTo(prev, u, f, rows, width, c)[c := Stencil(u, f, c, rows, width)]
  {
  }

  /** Passing a boundary cell leaves the sweep unchanged. */
  lemma SweepUpToSkip(prev: seq<real>, u: seq<real>, f: seq<real>, rows: int, width: int, c: int)
    requires 0 < width && |prev| == rows * width && |u| == rows * width && |f| == rows * width
    requires 0 <= c && !Interior(c, rows, width)
    ensures SweepUpTo(prev, u, f, rows, width, c + 1) == SweepUpTo(prev, u, f, rows, width, c)
  {
  }

  /** The first cell of row i is a boundary cell: the sweep passes it unchanged. */
  lemma RowEntry(prev: seq<real>, u: seq<real>, f: seq<real>, rows: int, width: int, i: int)
    requires 0 < width && 0 < i && |prev| == rows * width && |u| == rows * width && |f| == rows * width
    ensures SweepUpTo(prev, u, f, rows, width, i * width + 1) == SweepUpTo(prev, u, f, rows, width, i * width)
  {
    RowSeamIsBoundary(i - 1, rows, width);
    SweepUpToSkip(prev, u, f, rows, width, i * width);
  }

  /**
   * After column j of row i, where the C inner loop stops, the sweep has
   * reached the start of row i + 1: the only cell left, the last one of the
   * row, is a boundary cell.
   */
  lemma RowExit(prev: seq<real>, u: seq<real>, f: seq<real>, rows: int, width: int, i: int, j: int)
    requires 0 < width && 0 <= i && |prev| == rows * width && |u| == rows * width && |f| == rows * width
    requires 1 <= j <= width && (2 <= width ==> j == width - 1)
    ensures SweepUpTo(prev, u, f, rows, width, (i + 1) * width) == SweepUpTo(prev, u, f, rows, width, i * width + j)
  {
    NextRowStart(i, width);
    if 2 <= width {
      RowSeamIsBoundary(i, rows, width);
      SweepUpToSkip(prev, u, f, rows, width, i * width + width - 1);
    }
  }

  /**
   * One iteration of the C inner loop at (i, j): ind = i * nx + j and its
   * neighbours ip, im, jp, jm are in range, and storing the C expression at
   * ind advances the sweep past cell ind.
   */
  lemma LoopStep(prev: seq<real>, u: seq<real>, f: seq<real>, i: int, j: int, nx: int, ny: int)
    requires 0 < i < ny - 1 && 0 < j < nx - 1
    requires |prev| == nx * ny && |u| == nx * ny && |f| == nx * ny
    ensures 0 <= i * nx + j < nx * ny
    ensures 0 <= (i - 1) * nx + j && (i + 1) * nx + j < nx * ny
    ensures 0 <= i * nx + j - 1 && i * nx + j + 1 < nx * ny
    ensures SweepUpTo(prev, u, f, ny, nx, i * nx + j + 1)
         == SweepUpTo(prev, u, f, ny, nx, i * nx + j)[i * nx + j :=
              0.25 * (u[(i + 1) * nx + j] + u[(i - 1) * nx + j] + u[i * nx + j + 1] + u[i * nx + j - 1] - f[i * nx + j])]
  {
    var k := i * nx + j;
    InteriorAt(i, j, ny, nx);
    FlatIndexInRange(i, j, ny, nx);
    InteriorNeighbours(k, ny, nx);
    assert (i + 1) * nx + j == k + nx;
    assert (i - 1) * nx + j == k - nx;
    SweepUpToStep(prev, u, f, ny, nx, k);
  }

  /** The body of the C inner loop: the update of cell (i, j) of unew. */
  method SweepCell(u: array<real>, unew: array<real>, f: array<real>, nx: int, ny: int, i: int, j: int, ghost prev: seq<real>)
    requires 0 < i < ny - 1 && 0 < j < nx - 1
    requires u.Length == nx * ny && unew.Length == nx * ny && f.Length == nx * ny && |prev| == nx * ny
    requires unew != u && unew != f
    requires unew[..] == SweepUpTo(prev, u[..], f[..], ny, nx, i * nx + j)
    modifies unew
    ensures unew[..] == SweepUpTo(prev, u[..], f[..], ny, nx, i * nx + j + 1)
  {
    ghost var us, fs, before := u[..], f[..], unew[..];
    LoopStep(prev, us, fs, i, j, nx, ny);
    var ind := i * nx + j;
    var ip := (i + 1) * nx + j;
    var im := (i - 1) * nx + j;
    var jp := i * nx + j + 1;
    var jm := i * nx + j - 1;
    // h2 * f[ind] with h2 = 1.0
    unew[ind] := 0.25 * (u[ip] + u[im] + u[jp] + u[jm] - f[ind]);
    assert unew[..] == before[ind := 0.25 * (us[ip] + us[im] + us[jp] + us[jm] - fs[ind])];
  }

  /** One pass of the C inner loop: row i, columns 1..nx-2. */
  method SweepRow(u: array<real>, unew: array<real>, f: array<real>, nx: int, ny: int, i: int, ghost prev: seq<real>)
    requires 0 < nx && 0 < i < ny - 1
    requires u.Length == nx * ny && unew.Length == nx * ny && f.Length == nx * ny && |prev| == nx * ny
    requires unew != u && unew != f
    requires unew[..] == SweepUpTo(prev, u[..], f[..], ny, nx, i * nx)
    modifies unew
    ensures unew[..] == SweepUpTo(prev, u[..], f[..], ny, nx, (i + 1) * nx)
  {
    ghost var us, fs := u[..], f[..];
    RowEntry(prev, us, fs, ny, nx, i);
    var j := 1;
    while j < nx - 1
      invariant 1 <= j <= nx && (2 <= nx ==> j <= nx - 1)
      invariant unew[..] == SweepUpTo(prev, us, fs, ny, nx, i * nx + j)
    {
      SweepCell(u, unew, f, nx, ny, i, j, prev);
      j := j + 1;
    }
    RowExit(prev, us, fs, ny, nx, i, j);
  }

  /**
   * The stencil sweep as the C loops run it: rows 1..ny-2, columns 1..nx-2,
   * writing unew[i * nx + j] from u and f only.  unew must be a buffer of its
   * own (the solver's three mallocs), so no write is ever read back.
   */
  method SweepInPlace(u: array<real>, unew: array<real>, f: array<real>, nx: int, ny: int)
    requires 0 < nx && 0 <= ny
    requires u.Length == nx * ny && unew.Length == nx * ny && f.Length == nx * ny
    requires unew != u && unew != f
    modifies unew
    ensures unew[..] == Sweep(old(unew[..]), u[..], f[..], ny, nx)
  {
    ghost var prev, us, fs := unew[..], u[..], f[..];
    var i := 1;
    forall k | 0 <= k < nx * ny && Interior(k, ny, nx)
      ensures k >= nx
    {
      InteriorBetweenEdgeRows(k, ny, nx);
    }
    SweepUpToSame(prev, us, fs, ny, nx, 0, nx);
    while i < ny - 1
      invariant 1 <= i && (2 <= ny ==> i <= ny - 1)
      invariant unew[..] == SweepUpTo(prev, us, fs, ny, nx, i * nx)
    {
      SweepRow(u, unew, f, nx, ny, i, prev);
      i := i + 1;
    }
    forall k | 0 <= k < nx * ny && Interior(k, ny, nx)
      ensures k < i * nx
    {
      InteriorBetweenEdgeRows(k, ny, nx);
    }
    SweepUpToSame(prev, us, fs, ny, nx, i * nx, nx * ny);
  }

  /** A sweep never writes a boundary cell: there unew keeps its previous value. */
  lemma SweepKeepsBoundary(prev: seq<real>, u: seq<real>, f: seq<real>, rows: int, width: int)
    requires 0 < width && |prev| == rows * width && |u| == rows * width && |f| == rows * width
    ensures SameBoundary(Sweep(prev, u, f, rows, width), prev, rows, width)
  {
    forall k | 0 <= k < |prev| && !Interior(k, rows, width)
      ensures Sweep(prev, u, f, rows, width)[k] == prev[k]
    {
      SweepUpToAt(prev, u, f, rows, width, |prev|, k);
    }
  }

  /**
   * Jacobi reads only the previous iterate: the value a sweep writes into an
   * interior cell depends on u and f alone, never on what unew held before.
   */
  lemma SweepReadsOnlyPrevious(prev1: seq<real>, prev2: seq<real>, u: seq<real>, f: seq<real>, rows: int, width: int, k: int)
    requires 0 < width && |prev1| == rows * width && |prev2| == rows * width
    requires |u| == rows * width && |f| == rows * width
    requires 0 <= k < rows * width && Interior(k, rows, width)
    ensures Sweep(prev1, u, f, rows, width)[k] == Sweep(prev2, u, f, rows, width)[k]
  {
    SweepUpToAt(prev1, u, f, rows, width, |prev1|, k);
    SweepUpToAt(prev2, u, f, rows, width, |prev2|, k);
  }

  /** Sweeping into a buffer whose boundary is 0 yields exactly the next Jacobi iterate. */
  lemma SweepIntoZeroBoundary(prev: seq<real>, u: seq<real>, f: seq<real>, rows: int, width: int)
    requires 0 < width && 0 <= rows && |prev| == rows * width && |u| == rows * width && |f| == rows * width
    requires BoundaryZero(prev, rows, width)
    ensures Sweep(prev, u, f, rows, width) == Jacobi(u, f, rows, width)
  {
    var z := Zeros(rows * width);
    forall k | 0 <= k < |prev|
      ensures Sweep(prev, u, f, rows, width)[k] == Sweep(z, u, f, rows, width)[k]
    {
      SweepUpToAt(prev, u, f, rows, width, |prev|, k);
      SweepUpToAt(z, u, f, rows, width, |prev|, k);
    }
  }

  /** Every iterate is 0 on the boundary: both buffers start zeroed and edges are never written. */
  lemma {:induction false} IterateBoundaryZero(f: seq<real>, rows: int, width: int, k: nat)
    requires 0 < width && 0 <= rows && |f| == rows * width
    ensures BoundaryZero(Iterate(f, rows, width, k), rows, width)
  {
    if k > 0 {
      SweepKeepsBoundary(Zeros(rows * width), Iterate(f, rows, width, k - 1), f, rows, width);
    }
  }

  /**
   * The ping-pong step of the solver: sweeping iterate k into the buffer that
   * holds iterate k - 1 (or the zeroed buffer, for k = 0) gives iterate k + 1.
   */
  lemma PingPongStep(f: seq<real>, rows: int, width: int, k: nat)
    requires 0 < width && 0 <= rows && |f| == rows * width
    ensures Sweep(Iterate(f, rows, width, if k == 0 then 0 else k - 1), Iterate(f, rows, width, k), f, rows, width)
         == Iterate(f, rows, width, k + 1)
  {
    var older := Iterate(f, rows, width, if k == 0 then 0 else k - 1);
    IterateBoundaryZero(f, rows, width, if k == 0 then 0 else k - 1);
    SweepIntoZeroBoundary(older, Iterate(f, rows, width, k), f, rows, width);
  }

  /** The cell the solver reports, (ny / 2, nx / 2), lies inside the grid for every n >= 1. */
  function CentreIndex(n: int): (k: int)
    requires 1 <= n
    ensures 0 <= k < n * n
  {
    FlatIndexInRange(n / 2, n / 2, n, n);
    (n / 2) * n + n / 2
  }

  /**
   * The iteration loop of run: for it = 1..niter, sweep u into unew, then swap
   * the two variables.  Returns where u and unew point afterwards.
   */
  method Relax(u0: array<real>, unew0: array<real>, f: array<real>, n: int, niter: int)
    returns (u: array<real>, unew: array<real>)
    requires 1 <= n && 0 <= niter
    requires u0.Length == n * n && unew0.Length == n * n && f.Length == n * n
    requires u0 != unew0 && u0 != f && unew0 != f
    requires u0[..] == Zeros(n * n) && unew0[..] == Zeros(n * n)
    modifies u0, unew0
    ensures if niter % 2 == 0 then u == u0 && unew == unew0 else u == unew0 && unew == u0
    ensures u[..] == Iterate(f[..], n, n, niter)
    ensures unew[..] == Iterate(f[..], n, n, if niter == 0 then 0 else niter - 1)
  {
    var nx, ny := n, n;
    u, unew := u0, unew0;
    ghost var even := true;
    var it := 1;
    while it < niter + 1
      invariant 1 <= it <= niter + 1
      invariant even <==> (it - 1) % 2 == 0
      invariant if even then u == u0 && unew == unew0 else u == unew0 && unew == u0
      invariant u[..] == Iterate(f[..], ny, nx, it - 1)
      invariant unew[..] == Iterate(f[..], ny, nx, if it == 1 then 0 else it - 2)
    {
      PingPongStep(f[..], ny, nx, it - 1);
      SweepInPlace(u, unew, f, nx, ny);
      u, unew := unew, u;
      even := !even;
      it := it + 1;
    }
  }

  /** What one run reports: the centre value of the final u and the files it writes. */
  datatype Report = Report(centre: real, files: seq<ArrayFile>)

  /**
   * run(n, niter): zero u and unew, write u000000.bin and f.bin, relax for
   * niter sweeps, then report u at the centre and write u_end.bin.
   */
  method Run(n: int, niter: int, f: array<real>) returns (u: array<real>, unew: array<real>, report: Report)
    requires 1 <= n && 1 <= niter && f.Length == n * n
    ensures fresh(u) && fresh(unew) && u != unew
    ensures u[..] == Iterate(f[..], n, n, niter)
    ensures unew[..] == Iterate(f[..], n, n, niter - 1)
    ensures report.centre == u[CentreIndex(n)]
    ensures report.files == [ArrayFile(FileName(0), Zeros(n * n)), ArrayFile("f.bin", f[..]),
                             ArrayFile("u_end.bin", u[..])]
  {
    var nx, ny := n, n;
    var n2 := nx * ny;
    var a := new real[n2](_ => 0.0);
    var b := new real[n2](_ => 0.0);
    assert a[..] == Zeros(n2) && b[..] == Zeros(n2);
    ghost var fs := f[..];
    var files := [ArrayFile(FileName(0), a[..]), ArrayFile("f.bin", f[..])];
    u, unew := Relax(a, b, f, n, niter);
    assert f[..] == fs;
    ghost var centreIndex := CentreIndex(n);
    assert (ny / 2) * nx + nx / 2 == centreIndex;
    var centre := u[(ny / 2) * nx + nx / 2];
    report := Report(centre, files + [ArrayFile("u_end.bin", u[..])]);
  }

  /** Why main stops before calling run. */
  datatype ArgError = SizeNotPositive | IterationsNotPositive

  datatype Config = Config(n: int, niter: int)

  /**
   * main's argument handling, over the integers atoi produced from argv[1..]:
   * the defaults are 1024 and 500; a size below 1 is reported first, then an
   * iteration count below 1; either makes main return 1 without running.
   */
  function Configure(args: seq<int>): (r: Result<Config, ArgError>)
    ensures r.Ok? <==> (|args| < 1 || 1 <= args[0]) && (|args| < 2 || 1 <= args[1])
    ensures r.Ok? ==> (r.value.n == if |args| >= 1 then args[0] else 1024)
    ensures r.Ok? ==> (r.value.niter == if |args| >= 2 then args[1] else 500)
    ensures r.Ok? ==> 1 <= r.value.n && 1 <= r.value.niter
    ensures r == Err(SizeNotPositive) <==> |args| >= 1 && args[0] < 1
  {
    var n := if |args| >= 1 then args[0] else 1024;
    if n < 1 then Err(SizeNotPositive)
    else
      var niter := if |args| >= 2 then args[1] else 500;
      if niter < 1 then Err(IterationsNotPositive)
      else Ok(Config(n, niter))
  }

  /** main's exit status: 1 on a rejected argument, 0 after run. */
  function ExitStatus(r: Result<Config, ArgError>): (status: int)
    ensures status == 1 <==> r.Err?
    ensures status == 0 <==> r.Ok?
  {
    if r.Err? then 1 else 0
  }

  /**
   * main returns 1 exactly when a given size or iteration count is below 1,
   * and 0, after running, otherwise.
   */
  lemma MainExitStatus(args: seq<int>)
    ensures ExitStatus(Configure(args)) == 1 <==> (|args| >= 1 && args[0] < 1) || (|args| >= 2 && args[1] < 1)
    ensures ExitStatus(Configure(args)) == 0 <==> (|args| < 1 || 1 <= args[0]) && (|args| < 2 || 1 <= args[1])
  {
  }
}
