/**
 * The Jacobi solver with a convergence check and checkpoints of
 * openmp/06-poisson-reduction/solution/poisson-2.c.  Each iteration sweeps on
 * the device and swaps u and unew; every 100 iterations the squared L2
 * difference of the two buffers is reduced over the interior and the loop
 * stops once it is below normmax^2; every 1000 iterations u is copied to the
 * host and written to a checkpoint file.
 *
 * The checkpoint is written by a host task that runs beside the next sweeps;
 * its dependences (the update of u before it, one write at a time after it)
 * make it write the snapshot it was given, so it is modelled as written in
 * order.  Host threads and task scheduling are not part of this model.
 */
module PoissonReduction {
  import opened Grid
  import opened Wrappers
  import opened CheckpointName
  import opened PoissonOmp
  import opened PoissonOffload

  function Square(d: real): real
  {
    d * d
  }

  /** Sum of (u[k] - v[k])^2 over the interior cells with flat index below c. */
  function SqDiffUpTo(u: seq<real>, v: seq<real>, rows: int, width: int, c: int): real
    requires 0 < width && |u| == rows * width && |v| == rows * width
    decreases c
  {
    if c <= 0 then 0.0
    else
      SqDiffUpTo(u, v, rows, width, c - 1)
      + (if c - 1 < |u| && Interior(c - 1, rows, width) then Square(u[c - 1] - v[c - 1]) else 0.0)
  }

  /** norm2: the squared L2 distance of two grids over the interior. */
  function Norm2(u: seq<real>, v: seq<real>, rows: int, width: int): real
    requires 0 < width && |u| == rows * width && |v| == rows * width
  {
    SqDiffUpTo(u, v, rows, width, |u|)
  }

  /** Partial sums agree when no interior cell lies between their ends. */
  lemma {:induction false} SqDiffUpToSame(u: seq<real>, v: seq<real>, rows: int, width: int, c: int, d: int)
    requires 0 < width && |u| == rows * width && |v| == rows * width
    requires forall k :: 0 <= k < |u| && Interior(k, rows, width) ==> (k < c <==> k < d)
    ensures SqDiffUpTo(u, v, rows, width, c) == SqDiffUpTo(u, v, rows, width, d)
    decreases if c < d then d - c else c - d
  {
    if c < d {
      assert 0 <= d - 1 < |u| ==> !Interior(d - 1, rows, width);
      SqDiffUpToSame(u, v, rows, width, c, d - 1);
    } else if d < c {
      assert 0 <= c - 1 < |u| ==> !Interior(c - 1, rows, width);
      SqDiffUpToSame(u, v, rows, width, c - 1, d);
    }
  }

  /** Passing a boundary cell leaves the partial sum unchanged. */
  lemma SqDiffUpToSkip(u: seq<real>, v: seq<real>, rows: int, width: int, c: int)
    requires 0 < width && |u| == rows * width && |v| == rows * width
    requires 0 <= c && !Interior(c, rows, width)
    ensures SqDiffUpTo(u, v, rows, width, c + 1) == SqDiffUpTo(u, v, rows, width, c)
  {
  }

  /** The first cell of row i is a boundary cell: the sum passes it unchanged. */
  lemma SqDiffRowEntry(u: seq<real>, v: seq<real>, rows: int, width: int, i: int)
    requires 0 < width && 0 < i && |u| == rows * width && |v| == rows * width
    ensures SqDiffUpTo(u, v, rows, width, i * width + 1) == SqDiffUpTo(u, v, rows, width, i * width)
  {
    RowSeamIsBoundary(i - 1, rows, width);
    SqDiffUpToSkip(u, v, rows, width, i * width);
  }

  /** After column j of row i, where the C inner loop stops, the sum has reached row i + 1. */
  lemma SqDiffRowExit(u: seq<real>, v: seq<real>, rows: int, width: int, i: int, j: int)
    requires 0 < width && 0 <= i && |u| == rows * width && |v| == rows * width
    requires 1 <= j <= width && (2 <= width ==> j == width - 1)
    ensures SqDiffUpTo(u, v, rows, width, (i + 1) * width) == SqDiffUpTo(u, v, rows, width, i * width + j)
  {
    NextRowStart(i, width);
    if 2 <= width {
      RowSeamIsBoundary(i, rows, width);
      SqDiffUpToSkip(u, v, rows, width, i * width + width - 1);
    }
  }

  /** Adding the squared difference at interior cell (i, j) extends the partial sum by one cell. */
  lemma SqDiffUpToStep(u: seq<real>, v: seq<real>, i: int, j: int, nx: int, ny: int, diff: real)
    requires 0 < i < ny - 1 && 0 < j < nx - 1 && |u| == nx * ny && |v| == nx * ny
    requires 0 <= i * nx + j < nx * ny ==> diff == u[i * nx + j] - v[i * nx + j]
    ensures 0 <= i * nx + j < nx * ny
    ensures SqDiffUpTo(u, v, ny, nx, i * nx + j + 1) == SqDiffUpTo(u, v, ny, nx, i * nx + j) + diff * diff
  {
    InteriorAt(i, j, ny, nx);
    FlatIndexInRange(i, j, ny, nx);
  }

  /** The reduction loop over row i: columns 1..nx-2 add their squared differences. */
  method Norm2Row(u: array<real>, unew: array<real>, nx: int, ny: int, i: int, acc: real) returns (norm2: real)
    requires 0 < nx && 0 < i < ny - 1
    requires u.Length == nx * ny && unew.Length == nx * ny
    requires acc == SqDiffUpTo(u[..], unew[..], ny, nx, i * nx)
    ensures norm2 == SqDiffUpTo(u[..], unew[..], ny, nx, (i + 1) * nx)
  {
    ghost var us, vs := u[..], unew[..];
    SqDiffRowEntry(us, vs, ny, nx, i);
    norm2 := acc;
    var j := 1;
    while j < nx - 1
      invariant 1 <= j <= nx && (2 <= nx ==> j <= nx - 1)
      invariant norm2 == SqDiffUpTo(us, vs, ny, nx, i * nx + j)
    {
      var ind := i * nx + j;
      FlatIndexInRange(i, j, ny, nx);
      var diff := u[ind] - unew[ind];
      SqDiffUpToStep(us, vs, i, j, nx, ny, diff);
      norm2 := norm2 + diff * diff;
      j := j + 1;
    }
    SqDiffRowExit(us, vs, ny, nx, i, j);
  }

  /** The convergence reduction: norm2 += diff * diff over rows 1..ny-2 and columns 1..nx-2. */
  method ComputeNorm2(u: array<real>, unew: array<real>, nx: int, ny: int) returns (norm2: real)
    requires 0 < nx && 0 <= ny && u.Length == nx * ny && unew.Length == nx * ny
    ensures norm2 == Norm2(u[..], unew[..], ny, nx)
  {
    ghost var us, vs := u[..], unew[..];
    forall k | 0 <= k < nx * ny && Interior(k, ny, nx)
      ensures k >= nx
    {
      InteriorBetweenEdgeRows(k, ny, nx);
    }
    SqDiffUpToSame(us, vs, ny, nx, 0, nx);
    norm2 := 0.0;
    var i := 1;
    while i < ny - 1
      invariant 1 <= i && (2 <= ny ==> i <= ny - 1)
      invariant norm2 == SqDiffUpTo(us, vs, ny, nx, i * nx)
    {
      norm2 := Norm2Row(u, unew, nx, ny, i, norm2);
      i := i + 1;
    }
    forall k | 0 <= k < nx * ny && Interior(k, ny, nx)
      ensures k < i * nx
    {
      InteriorBetweenEdgeRows(k, ny, nx);
    }
    SqDiffUpToSame(us, vs, ny, nx, i * nx, nx * ny);
  }

  /** Every partial sum of squares is non-negative. */
  lemma {:induction false} SqDiffUpToNonNegative(u: seq<real>, v: seq<real>, rows: int, width: int, c: nat)
    requires 0 < width && |u| == rows * width && |v| == rows * width && c <= |u|
    ensures SqDiffUpTo(u, v, rows, width, c) >= 0.0
  {
    if c > 0 {
      SqDiffUpToNonNegative(u, v, rows, width, c - 1);
      SquareNonNegative(u[c - 1] - v[c - 1]);
    }
  }

  /** Each interior cell's squared difference is at most a partial sum that covers it. */
  lemma {:induction false} SqDiffUpToCoversCell(u: seq<real>, v: seq<real>, rows: int, width: int, c: nat, k: int)
    requires 0 < width && |u| == rows * width && |v| == rows * width && c <= |u|
    requires 0 <= k < c && Interior(k, rows, width)
    ensures Square(u[k] - v[k]) <= SqDiffUpTo(u, v, rows, width, c)
  {
    if k == c - 1 {
      SqDiffUpToNonNegative(u, v, rows, width, c - 1);
    } else {
      SqDiffUpToCoversCell(u, v, rows, width, c - 1, k);
      SquareNonNegative(u[c - 1] - v[c - 1]);
    }
  }

  /** A partial sum is 0 when the grids agree on the interior cells it covers. */
  lemma {:induction false} SqDiffUpToZero(u: seq<real>, v: seq<real>, rows: int, width: int, c: nat)
    requires 0 < width && |u| == rows * width && |v| == rows * width && c <= |u|
    requires forall k :: 0 <= k < c && Interior(k, rows, width) ==> u[k] == v[k]
    ensures SqDiffUpTo(u, v, rows, width, c) == 0.0
  {
    if c > 0 {
      SqDiffUpToZero(u, v, rows, width, c - 1);
    }
  }

  lemma SquareNonNegative(d: real)
    ensures Square(d) >= 0.0
  {
  }

  /**
   * norm2 is never negative, bounds the squared change of every interior
   * cell, and is 0 when the two grids agree on the interior.
   */
  lemma Norm2Meaning(u: seq<real>, v: seq<real>, rows: int, width: int)
    requires 0 < width && |u| == rows * width && |v| == rows * width
    ensures Norm2(u, v, rows, width) >= 0.0
    ensures forall k :: 0 <= k < |u| && Interior(k, rows, width) ==> Square(u[k] - v[k]) <= Norm2(u, v, rows, width)
    ensures (forall k :: 0 <= k < |u| && Interior(k, rows, width) ==> u[k] == v[k]) ==> Norm2(u, v, rows, width) == 0.0
  {
    SqDiffUpToNonNegative(u, v, rows, width, |u|);
    forall k | 0 <= k < |u| && Interior(k, rows, width)
      ensures Square(u[k] - v[k]) <= Norm2(u, v, rows, width)
    {
      SqDiffUpToCoversCell(u, v, rows, width, |u|, k);
    }
    if forall k :: 0 <= k < |u| && Interior(k, rows, width) ==> u[k] == v[k] {
      SqDiffUpToZero(u, v, rows, width, |u|);
    }
  }

  /**
   * Iteration `it` ends the loop by convergence: it is a multiple of 100 and
   * the newest iterate (u after the swap) is within normmax of the previous
   * one (unew after the swap).
   */
  predicate Converges(f: seq<real>, n: int, norm2max: real, it: nat)
    requires 1 <= n && |f| == n * n
  {
    1 <= it && it % 100 == 0
    && Norm2(Iterate(f, n, n, it), Iterate(f, n, n, it - 1), n, n) < norm2max
  }

  /** The iteration the loop stops after, searching from `it`: the first that converges, else niter. */
  function StopFrom(f: seq<real>, n: int, niter: nat, norm2max: real, it: nat): nat
    requires 1 <= n && |f| == n * n && 1 <= it <= niter
    decreases niter - it
  {
    if Converges(f, n, norm2max, it) || it == niter then it else StopFrom(f, n, niter, norm2max, it + 1)
  }

  /** The number of iterations run performs. */
  function LastIteration(f: seq<real>, n: int, niter: nat, norm2max: real): nat
    requires 1 <= n && |f| == n * n && 1 <= niter
  {
    StopFrom(f, n, niter, norm2max, 1)
  }

  lemma {:induction false} StopFromMeaning(f: seq<real>, n: int, niter: nat, norm2max: real, it: nat)
    requires 1 <= n && |f| == n * n && 1 <= it <= niter
    ensures it <= StopFrom(f, n, niter, norm2max, it) <= niter
    ensures Converges(f, n, norm2max, StopFrom(f, n, niter, norm2max, it)) || StopFrom(f, n, niter, norm2max, it) == niter
    ensures forall k :: it <= k < StopFrom(f, n, niter, norm2max, it) ==> !Converges(f, n, norm2max, k)
    decreases niter - it
  {
    if !(Converges(f, n, norm2max, it) || it == niter) {
      StopFromMeaning(f, n, niter, norm2max, it + 1);
    }
  }

  /**
   * The loop runs until the first iteration that converges, or for all niter
   * iterations when none does; convergence is only ever detected at a
   * multiple of 100.
   */
  lemma LastIterationMeaning(f: seq<real>, n: int, niter: nat, norm2max: real)
    requires 1 <= n && |f| == n * n && 1 <= niter
    ensures 1 <= LastIteration(f, n, niter, norm2max) <= niter
    ensures Converges(f, n, norm2max, LastIteration(f, n, niter, norm2max)) || LastIteration(f, n, niter, norm2max) == niter
    ensures Converges(f, n, norm2max, LastIteration(f, n, niter, norm2max)) ==> LastIteration(f, n, niter, norm2max) % 100 == 0
    ensures forall k :: 1 <= k < LastIteration(f, n, niter, norm2max) ==> !Converges(f, n, norm2max, k)
  {
    StopFromMeaning(f, n, niter, norm2max, 1);
  }

  /**
   * The checkpoint files written by the first m iterations, in order: one
   * after every iteration that is a multiple of 1000, holding that iterate.
   */
  function Checkpoints(f: seq<real>, n: int, m: nat): seq<ArrayFile>
    requires 1 <= n && |f| == n * n
  {
    if m == 0 then []
    else if m % 1000 == 0 then Checkpoints(f, n, m - 1) + [ArrayFile(FileName(m), Iterate(f, n, n, m))]
    else Checkpoints(f, n, m - 1)
  }

  lemma ThousandStep(m: int)
    requires 1 <= m && m % 1000 == 0
    ensures m == 1000 * (m / 1000) && (m - 1) / 1000 + 1 == m / 1000
  {
  }

  lemma NonThousandStep(m: int)
    requires 1 <= m && m % 1000 != 0
    ensures (m - 1) / 1000 == m / 1000
  {
  }

  /** The first m iterations write m / 1000 checkpoints. */
  lemma {:induction false} CheckpointsLength(f: seq<real>, n: int, m: nat)
    requires 1 <= n && |f| == n * n
    ensures |Checkpoints(f, n, m)| == m / 1000
  {
    if m > 0 {
      CheckpointsLength(f, n, m - 1);
      if m % 1000 == 0 {
        assert |Checkpoints(f, n, m)| == |Checkpoints(f, n, m - 1)| + 1;
        ThousandStep(m);
      } else {
        assert Checkpoints(f, n, m) == Checkpoints(f, n, m - 1);
        NonThousandStep(m);
      }
    }
  }

  /** Checkpoint q is the file u%06d.bin of iteration (q + 1) * 1000, holding that iterate. */
  lemma {:induction false} CheckpointsAt(f: seq<real>, n: int, m: nat, q: int)
    requires 1 <= n && |f| == n * n && 0 <= q < m / 1000
    ensures |Checkpoints(f, n, m)| == m / 1000
    ensures Checkpoints(f, n, m)[q] == ArrayFile(FileName((q + 1) * 1000), Iterate(f, n, n, (q + 1) * 1000))
  {
    CheckpointsLength(f, n, m);
    CheckpointsLength(f, n, m - 1);
    if m % 1000 == 0 {
      ThousandStep(m);
      if q < m / 1000 - 1 {
        CheckpointsAt(f, n, m - 1, q);
      } else {
        assert (q + 1) * 1000 == m;
      }
    } else {
      NonThousandStep(m);
      CheckpointsAt(f, n, m - 1, q);
    }
  }

  /** No two checkpoints share a file name, so none overwrites another. */
  lemma CheckpointNamesDistinct(f: seq<real>, n: int, m: nat, p: int, q: int)
    requires 1 <= n && |f| == n * n && 0 <= p < q < m / 1000
    ensures |Checkpoints(f, n, m)| == m / 1000
    ensures Checkpoints(f, n, m)[p].name != Checkpoints(f, n, m)[q].name
  {
    CheckpointsAt(f, n, m, p);
    CheckpointsAt(f, n, m, q);
    if FileName((p + 1) * 1000) == FileName((q + 1) * 1000) {
      FileNameInjective((p + 1) * 1000, (q + 1) * 1000);
    }
  }

  /** The sweep of one iteration on the device: unew receives iterate k + 1 of u's iterate k. */
  method NextIterate(u: array<real>, unew: array<real>, f: array<real>, n: int, ghost fs: seq<real>, ghost k: nat)
    requires 1 <= n && u.Length == n * n && unew.Length == n * n && f.Length == n * n
    requires unew != u && unew != f && f[..] == fs
    requires u[..] == Iterate(fs, n, n, k)
    requires unew[..] == Iterate(fs, n, n, if k == 0 then 0 else k - 1)
    modifies unew
    ensures unew[..] == Iterate(fs, n, n, k + 1)
  {
    PingPongStep(fs, n, n, k);
    SweepInPlace(u, unew, f, n, n);
  }

  /**
   * The checkpoint of iteration it: `target update from(u)` copies the device
   * iterate into the host buffer, which write_array then writes to u%06d.bin.
   */
  method WriteCheckpoint(dev: array<real>, host: array<real>, n: int, it: nat, ghost fs: seq<real>) returns (file: ArrayFile)
    requires 1 <= n && |fs| == n * n && dev.Length == n * n && host.Length == n * n && dev != host
    requires dev[..] == Iterate(fs, n, n, it)
    modifies host
    ensures host[..] == dev[..]
    ensures file == ArrayFile(FileName(it), Iterate(fs, n, n, it))
  {
    CopyBack(dev, host);
    file := ArrayFile(FileName(it), host[..]);
  }

  /**
   * The iteration loop of run inside the target data region: sweep on the
   * device and swap both pairs of u and unew; every 100 iterations reduce norm2 on
   * the device and stop once it is below norm2max; every 1000 iterations copy
   * u back (`target update from(u)`) and write it as a checkpoint.  The host
   * buffers are hostA (u on entry) and hostB (unew on entry), with device
   * copies devA and devB.
   */
  method SolveWithChecks(hostA: array<real>, hostB: array<real>, devA: array<real>, devB: array<real>, devF: array<real>,
                         n: int, niter: int, norm2max: real, ghost fs: seq<real>)
    returns (last: nat, converged: bool, ghost even: bool, u: array<real>, checkpoints: seq<ArrayFile>)
    requires 1 <= n && 1 <= niter && |fs| == n * n
    requires hostA.Length == n * n && hostB.Length == n * n && devA.Length == n * n && devB.Length == n * n
    requires devF.Length == n * n
    requires hostA != hostB && hostA != devA && hostA != devB && hostA != devF
    requires hostB != devA && hostB != devB && hostB != devF && devA != devB && devA != devF && devB != devF
    requires devF[..] == fs && devA[..] == Zeros(n * n) && devB[..] == Zeros(n * n)
    modifies hostA, devA, devB
    ensures 1 <= last <= niter
    ensures forall k :: 1 <= k < last ==> !Converges(fs, n, norm2max, k)
    ensures converged ==> Converges(fs, n, norm2max, last)
    ensures !converged ==> last == niter && !Converges(fs, n, norm2max, niter)
    ensures even <==> last % 2 == 0
    ensures u == if even then hostA else hostB
    ensures even ==> devA[..] == Iterate(fs, n, n, last)
    ensures checkpoints == Checkpoints(fs, n, if converged then last - 1 else last)
  {
    var nx, ny := n, n;
    var unew;
    u, unew := hostA, hostB;
    var du, dunew := devA, devB;
    even := true;
    ghost var half := 0;
    ghost var older := 0;
    checkpoints := [];
    var it := 1;
    converged := false;
    last := niter;
    while it < niter + 1
      invariant 1 <= it <= niter + 1
      invariant it - 1 == 2 * half + (if even then 0 else 1)
      invariant if even then u == hostA && unew == hostB && du == devA && dunew == devB
                else u == hostB && unew == hostA && du == devB && dunew == devA
      invariant older == if it == 1 then 0 else it - 2
      invariant du[..] == Iterate(fs, n, n, it - 1)
      invariant dunew[..] == Iterate(fs, n, n, older)
      invariant forall k :: 1 <= k < it ==> !Converges(fs, n, norm2max, k)
      invariant checkpoints == Checkpoints(fs, n, it - 1)
      invariant !converged && last == niter
    {
      NextIterate(du, dunew, devF, n, fs, it - 1);
      du, dunew := dunew, du;
      u, unew := unew, u;
      ghost var current := du[..];
      assert current == Iterate(fs, n, n, it);
      older := it - 1;
      even := !even;
      if even {
        half := half + 1;
      }
      var stop := CheckConvergence(du, dunew, n, it, norm2max, fs);
      if stop {
        converged := true;
        last := it;
        break;
      }
      if it % 1000 == 0 {
        // u points to the first host buffer here, as it is even.
        ThousandsAreEven(it);
        ParityFlag(it, half, even);
        var file := WriteCheckpoint(du, u, n, it, fs);
        checkpoints := checkpoints + [file];
      }
      assert du[..] == current;
      NoneConvergedExtends(fs, n, norm2max, it);
      it := it + 1;
    }
    ParityFlag(last, half, even);
  }

  /**
   * The convergence test of iteration it: on every 100th iteration reduce
   * norm2 over the two device buffers and compare it with norm2max.
   */
  method CheckConvergence(u: array<real>, unew: array<real>, n: int, it: nat, norm2max: real, ghost fs: seq<real>)
    returns (stop: bool)
    requires 1 <= n && 1 <= it && |fs| == n * n && u.Length == n * n && unew.Length == n * n
    requires u[..] == Iterate(fs, n, n, it) && unew[..] == Iterate(fs, n, n, it - 1)
    ensures stop <==> Converges(fs, n, norm2max, it)
  {
    stop := false;
    if it % 100 == 0 {
      var norm2 := ComputeNorm2(u, unew, n, n);
      if norm2 < norm2max {
        stop := true;
      }
    }
  }

  lemma NoneConvergedExtends(f: seq<real>, n: int, norm2max: real, it: nat)
    requires 1 <= n && |f| == n * n
    requires forall k :: 1 <= k < it ==> !Converges(f, n, norm2max, k)
    requires !Converges(f, n, norm2max, it)
    ensures forall k :: 1 <= k < it + 1 ==> !Converges(f, n, norm2max, k)
  {
  }

  /** A flag toggled once per iteration, starting true, records whether the count is even. */
  lemma ParityFlag(x: int, half: int, even: bool)
    requires x == 2 * half + (if even then 0 else 1)
    ensures even <==> x % 2 == 0
  {
  }

  lemma ThousandsAreEven(it: int)
    requires it % 1000 == 0
    ensures it % 2 == 0
  {
    var q := it / 1000;
    assert it == 2 * (500 * q) + 0;
  }

  /** What one run prints and writes. */
  datatype RunReport = RunReport(iterations: nat, converged: bool, centre: real, files: seq<ArrayFile>)

  /** The report of run(n, niter, normmax), a function of the source field and the arguments only. */
  function ExpectedReport(f: seq<real>, n: int, niter: int, normmax: real): RunReport
    requires 1 <= n && 1 <= niter && |f| == n * n
  {
    var last := LastIteration(f, n, niter, normmax * normmax);
    var converged := Converges(f, n, normmax * normmax, last);
    RunReport(last, converged, HostResult(f, n, last)[CentreIndex(n)],
              [ArrayFile(FileName(0), Zeros(n * n)), ArrayFile("f.bin", f)]
              + Checkpoints(f, n, if converged then last - 1 else last)
              + [ArrayFile("u_end.bin", HostResult(f, n, last))])
  }

  /**
   * run(n, niter, normmax) as written: map(to: f) map(tofrom: u) map(to: unew)
   * around the iteration loop; the threshold is compared squared.
   */
  method RunReduction(n: int, niter: int, normmax: real, f: array<real>) returns (report: RunReport)
    requires 1 <= n && 1 <= niter && f.Length == n * n
    ensures report.iterations == LastIteration(f[..], n, niter, normmax * normmax)
    ensures report.converged == Converges(f[..], n, normmax * normmax, report.iterations)
    ensures report.centre == HostResult(f[..], n, report.iterations)[CentreIndex(n)]
    ensures report.files
         == [ArrayFile(FileName(0), Zeros(n * n)), ArrayFile("f.bin", f[..])]
            + Checkpoints(f[..], n, if report.converged then report.iterations - 1 else report.iterations)
            + [ArrayFile("u_end.bin", HostResult(f[..], n, report.iterations))]
    ensures report == ExpectedReport(f[..], n, niter, normmax)
  {
    var nx, ny := n, n;
    var n2 := nx * ny;
    var norm2max := normmax * normmax;
    var hostA := new real[n2](_ => 0.0);
    var hostB := new real[n2](_ => 0.0);
    assert hostA[..] == Zeros(n2) && hostB[..] == Zeros(n2);
    var files := [ArrayFile(FileName(0), hostA[..]), ArrayFile("f.bin", f[..])];
    var last, converged, u, checkpoints := ReductionRegion(hostA, hostB, f, n, niter, norm2max);
    ghost var c := CentreIndex(n);
    assert (ny / 2) * nx + nx / 2 == c;
    var centre := u[(ny / 2) * nx + nx / 2];
    report := RunReport(last, converged, centre, files + checkpoints + [ArrayFile("u_end.bin", u[..])]);
  }

  /**
   * The `target data` region of run: map f, u (hostA) and unew (hostB) to
   * the device, run the iteration loop there, and on exit copy back only the
   * device copy of hostA, the buffer u pointed to on entry.  Returns the
   * buffer u points to after the loop.
   */
  method ReductionRegion(hostA: array<real>, hostB: array<real>, f: array<real>, n: int, niter: int, norm2max: real)
    returns (last: nat, converged: bool, u: array<real>, checkpoints: seq<ArrayFile>)
    requires 1 <= n && 1 <= niter
    requires hostA.Length == n * n && hostB.Length == n * n && f.Length == n * n
    requires hostA != hostB && hostA != f && hostB != f
    requires hostA[..] == Zeros(n * n) && hostB[..] == Zeros(n * n)
    modifies hostA
    ensures last == LastIteration(f[..], n, niter, norm2max)
    ensures converged == Converges(f[..], n, norm2max, last)
    ensures u[..] == HostResult(f[..], n, last)
    ensures checkpoints == Checkpoints(f[..], n, if converged then last - 1 else last)
  {
    ghost var fs := f[..];
    var devF := MapTo(f);
    var devA := MapTo(hostA);
    var devB := MapTo(hostB);
    ghost var even;
    last, converged, even, u, checkpoints := SolveWithChecks(hostA, hostB, devA, devB, devF, n, niter, norm2max, fs);
    StopAtFirstConverged(fs, n, niter, norm2max, last, converged);
    // Region exit: only the buffer u pointed to on entry is copied back.
    CopyBack(devA, hostA);
    assert f[..] == fs;
  }

  /** The stopping rule the loop follows is the one LastIteration describes. */
  lemma StopAtFirstConverged(f: seq<real>, n: int, niter: nat, norm2max: real, last: nat, converged: bool)
    requires 1 <= n && |f| == n * n && 1 <= last <= niter
    requires forall k :: 1 <= k < last ==> !Converges(f, n, norm2max, k)
    requires converged ==> Converges(f, n, norm2max, last)
    requires !converged ==> last == niter && !Converges(f, n, norm2max, niter)
    ensures last == LastIteration(f, n, niter, norm2max)
    ensures converged == Converges(f, n, norm2max, last)
  {
    LastIterationMeaning(f, n, niter, norm2max);
  }

  /** Why main stops before the runs. */
  datatype ReductionArgError = BadSize | BadIterations | BadRepetitions | BadNorm

  datatype ReductionConfig = ReductionConfig(n: int, niter: int, nrep: int, normmax: real)

  /**
   * main's argument handling: ints are the atoi values of argv[1..] (at most
   * three are read), norm the atof value of argv[4] when it is given.  The
   * defaults are 1024, 500, 3 and 10.0; the arguments are checked in order,
   * and the first one out of range makes main return 1 without running.
   */
  function ConfigureReduction(ints: seq<int>, norm: Option<real>): (r: Result<ReductionConfig, ReductionArgError>)
    requires norm.Some? ==> |ints| >= 3
    ensures r.Ok? <==> (|ints| < 1 || 1 <= ints[0]) && (|ints| < 2 || 1 <= ints[1])
                       && (|ints| < 3 || 1 <= ints[2]) && (norm.None? || norm.value > 0.0)
    ensures r.Ok? ==> r.value.n == (if |ints| >= 1 then ints[0] else 1024)
    ensures r.Ok? ==> r.value.niter == (if |ints| >= 2 then ints[1] else 500)
    ensures r.Ok? ==> r.value.nrep == (if |ints| >= 3 then ints[2] else 3)
    ensures r.Ok? ==> r.value.normmax == (if norm.Some? then norm.value else 10.0)
    ensures r == Err(BadSize) <==> |ints| >= 1 && ints[0] < 1
    ensures r == Err(BadIterations) <==> (|ints| < 1 || 1 <= ints[0]) && |ints| >= 2 && ints[1] < 1
    ensures r == Err(BadRepetitions)
        <==> (|ints| < 1 || 1 <= ints[0]) && (|ints| < 2 || 1 <= ints[1]) && |ints| >= 3 && ints[2] < 1
  {
    var n := if |ints| >= 1 then ints[0] else 1024;
    if n < 1 then Err(BadSize)
    else
      var niter := if |ints| >= 2 then ints[1] else 500;
      if niter < 1 then Err(BadIterations)
      else
        var nrep := if |ints| >= 3 then ints[2] else 3;
        if nrep < 1 then Err(BadRepetitions)
        else
          var normmax := if norm.Some? then norm.value else 10.0;
          if normmax <= 0.0 then Err(BadNorm)
          else Ok(ReductionConfig(n, niter, nrep, normmax))
  }

  /**
   * main's loop: run is called nrep times with the same arguments; create_input
   * fills the same field f every time, so every run reports the same.
   */
  method RepeatRuns(n: int, niter: int, nrep: int, normmax: real, f: array<real>) returns (reports: seq<RunReport>)
    requires 1 <= n && 1 <= niter && 1 <= nrep && f.Length == n * n
    ensures |reports| == nrep
    ensures forall i :: 0 <= i < nrep ==> reports[i] == ExpectedReport(f[..], n, niter, normmax)
  {
    reports := [];
    var i := 0;
    while i < nrep
      invariant 0 <= i <= nrep && |reports| == i
      invariant forall k :: 0 <= k < i ==> reports[k] == ExpectedReport(f[..], n, niter, normmax)
    {
      var report := RunReduction(n, niter, normmax, f);
      reports := reports + [report];
      i := i + 1;
    }
  }
}
