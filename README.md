# Verified model of the portable GPU programming exercises

This project is a Dafny model of the computational core of a set of
teaching programs that solve the same small problems with OpenMP
offloading, Kokkos and SYCL: a Jacobi relaxation of the Poisson equation
on a square grid, axpy, dot products, a midpoint-rule estimate of pi over
MPI ranks, a ring message exchange, a GEMM checked against a CPU loop,
the binary checkpoint format the solvers write and the Python script
that compares two such files.

Each module follows one family of source files:

- `Grid`: row-major flat grids, interior cells and index bounds shared by all solvers.
- `PoissonOmp`: `run` and `main` of `openmp/03-poisson/poisson.c`.
  The sweep loops are a method over an array, proved against the Jacobi
  iterate function, and the swap of `u` and `unew` is a swap of array references.
- `PoissonOffload`: the `target data` region of `openmp/03-poisson/solution/poisson-2.c`,
  with separate host and device buffers. Its `main` is the same as in
  `poisson.c` and is modelled by `PoissonOmp.Configure`.
- `PoissonReduction`: `openmp/06-poisson-reduction/solution/poisson-2.c`.
  It covers the squared-change norm, the test every 100 iterations with its
  early exit, the checkpoints every 1000 iterations, and `main` with its
  repetitions.
- `CheckpointName`: the `u%06d.bin` file names.
- `PoissonKokkos`: `kokkos/06-poisson/solution/poisson.cpp` and
  `kokkos/poisson/poisson.cpp`. Views are two-dimensional arrays, and
  each `parallel_for` is a `forall` statement. The two programs differ only
  in the update expression, the datatype `Update`.
- `JacobiSycl` and `JacobiTiled`: the untiled and the work-group-tiled
  diffusion programs. The tiled kernel is modelled one work-group at a
  time: the loads before the barrier, then the update.
- `CheckpointFormat` and `CompareArrays`: the byte layout (an 8-byte
  count, then 8-byte doubles), `read_array` in `openmp/compare.py`, the
  maxima the script prints, and the round trip between writer and reader.
- `PiDecomposition`: the block partition of 1..n over the ranks in
  `pi_usm.cpp` and the reduction on rank 0.
- `RingExchange`: the `dst`/`src` ring arithmetic and the buffer initialisation
  of both message-exchange programs.
- `GemmCheck`: `gemm_mkl_cublas_usm.cpp`, with the library call modelled
  as a column-major GEMM.
- `Axpy` and `DotProduct`: the axpy and dot-product loops of the Kokkos
  and OpenMP exercises. For `openmp/02-axpy-dynamic`, the model follows
  the solution, whose target loop maps `x` to the device and `y` to and
  from it.
- `Wrappers`: `Option` and `Result`.

Floating-point values are modelled as `real`, so the model says nothing
about rounding. Loops that update arrays are methods with loop invariants,
proved against functions on sequences. Those functions carry the
properties, proved as lemmas.

## Model

| member | source | states |
|---|---|---|
| Grid.FlatIndexInverse | openmp/03-poisson/poisson.c:43 | row i and column j are recovered from the flat index i·nx + j |
| Grid.FlatIndexInRange | openmp/03-poisson/poisson.c:43-47 | every cell of the grid has its flat index in [0, rows·width) |
| Grid.FlatIndexSplit | openmp/03-poisson/poisson.c:41-43 | every flat index of the grid splits into a row and a column inside it |
| Grid.InteriorAt | openmp/03-poisson/poisson.c:41-42 | the flat index i·nx + j is interior exactly when 1 ≤ i < ny − 1 and 1 ≤ j < nx − 1 |
| Grid.InteriorNeighbours | openmp/03-poisson/poisson.c:44-47 | the neighbours ip, im, jp and jm of an interior cell all lie inside the grid |
| Grid.InteriorBetweenEdgeRows | openmp/03-poisson/poisson.c:41 | interior cells lie strictly after the first row and before the last one |
| Grid.RowSeamIsBoundary | openmp/03-poisson/poisson.c:42 | the last cell of a row and the first of the next are boundary cells |
| Grid.Zeros | openmp/03-poisson/poisson.c:24-25 | memset leaves n2 zeros |
| Grid.FlattenAt | kokkos/06-poisson/solution/poisson.cpp:68 | the row-major layout of an nx × ny View puts cell (i, j) at i·ny + j |
| CheckpointName.DigitChar | openmp/06-poisson-reduction/solution/poisson-2.c:101 | a digit below 10 is printed as the character whose offset from '0' is that digit |
| CheckpointName.DigitValue | openmp/06-poisson-reduction/solution/poisson-2.c:101 | a digit character denotes a value below 10 |
| CheckpointName.Decimal | openmp/06-poisson-reduction/solution/poisson-2.c:101 | %d prints at least one character, and only digits |
| CheckpointName.PadWithZeros | openmp/06-poisson-reduction/solution/poisson-2.c:101 | the 06 flag pads on the left with '0' up to six characters and keeps the digits as its suffix |
| CheckpointName.FileName | openmp/06-poisson-reduction/solution/poisson-2.c:101 | a checkpoint name is "u", at least six digits, then ".bin" |
| CheckpointName.DecimalRoundTrip | openmp/06-poisson-reduction/solution/poisson-2.c:101 | reading back the printed decimal gives the number |
| CheckpointName.LeadingZerosIgnored | openmp/06-poisson-reduction/solution/poisson-2.c:101 | the zero padding does not change the number denoted |
| CheckpointName.AllZerosDenoteZero | openmp/06-poisson-reduction/solution/poisson-2.c:101 | a field of zeros denotes 0 |
| CheckpointName.FileNameRoundTrip | openmp/06-poisson-reduction/solution/poisson-2.c:101 | the digit field of a checkpoint name denotes its iteration |
| CheckpointName.FileNameInjective | openmp/06-poisson-reduction/solution/poisson-2.c:94-103 | different iterations write different checkpoint files |
| CheckpointName.DecimalLength | openmp/06-poisson-reduction/solution/poisson-2.c:101 | a number below 10^k prints as at most k digits |
| CheckpointName.Pow10 | openmp/06-poisson-reduction/solution/poisson-2.c:18 | powers of ten are at least 1 |
| CheckpointName.FileNameFitsBuffer | openmp/06-poisson-reduction/solution/poisson-2.c:18-101 | every iteration number an int holds gives a name that, with its NUL, fits char filename[20] |
| CheckpointName.FirstFileName | openmp/06-poisson-reduction/solution/poisson-2.c:35 | the initial field is written to "u000000.bin" |
| CheckpointName.ThousandthFileName | openmp/06-poisson-reduction/solution/poisson-2.c:94-101 | the checkpoint of iteration 1000 is "u001000.bin" |
| PoissonOmp.SweepUpTo | openmp/03-poisson/poisson.c:41-50 | the partial sweep keeps the length of the grid |
| PoissonOmp.SweepUpToAt | openmp/03-poisson/poisson.c:41-50 | after the sweep has passed cell c, every interior cell below c holds the stencil of u and every other cell its previous value |
| PoissonOmp.Sweep | openmp/03-poisson/poisson.c:41-50 | a full sweep keeps the length of the grid |
| PoissonOmp.Jacobi | openmp/03-poisson/poisson.c:41-50 | one Jacobi step yields a grid of the same shape |
| PoissonOmp.Iterate | openmp/03-poisson/poisson.c:24-56 | every iterate from the zeroed field has the grid's shape |
| PoissonOmp.SweepUpToSame | openmp/03-poisson/poisson.c:41-50 | two stopping points with no interior cell between them give the same partial sweep |
| PoissonOmp.SweepUpToStep | openmp/03-poisson/poisson.c:48 | visiting interior cell c writes the stencil at c and nothing else |
| PoissonOmp.SweepUpToSkip | openmp/03-poisson/poisson.c:41-42 | passing a boundary cell changes nothing |
| PoissonOmp.RowEntry | openmp/03-poisson/poisson.c:42 | the inner loop starts at j = 1 because the first cell of a row is boundary |
| PoissonOmp.RowExit | openmp/03-poisson/poisson.c:42 | stopping at j = nx − 1 reaches the start of the next row, the last cell being boundary |
| PoissonOmp.LoopStep | openmp/03-poisson/poisson.c:43-48 | ind and its four neighbours ip, im, jp, jm are inside the grid, and storing the C expression at ind advances the sweep by one interior cell |
| PoissonOmp.SweepCell | openmp/03-poisson/poisson.c:43-48 | the body of the inner loop advances unew from the sweep up to (i, j) to the sweep past (i, j) |
| PoissonOmp.SweepRow | openmp/03-poisson/poisson.c:42-49 | the inner loop carries unew from the start of row i to the start of row i + 1 |
| PoissonOmp.SweepInPlace | openmp/03-poisson/poisson.c:41-50 | the two nested loops leave unew equal to the full sweep of u from its previous contents |
| PoissonOmp.SweepKeepsBoundary | openmp/03-poisson/poisson.c:41-42 | a sweep never writes a boundary cell |
| PoissonOmp.SweepReadsOnlyPrevious | openmp/03-poisson/poisson.c:48 | the value written into an interior cell depends on u and f only, not on what unew held |
| PoissonOmp.SweepIntoZeroBoundary | openmp/03-poisson/poisson.c:24-50 | sweeping into a buffer whose boundary is zero gives exactly the next Jacobi iterate |
| PoissonOmp.IterateBoundaryZero | openmp/03-poisson/poisson.c:24-55 | every iterate is zero on the boundary |
| PoissonOmp.PingPongStep | openmp/03-poisson/poisson.c:52-55 | sweeping iterate k into the buffer that holds iterate k − 1 gives iterate k + 1, which is why the swap is enough |
| PoissonOmp.CentreIndex | openmp/03-poisson/poisson.c:63-64 | the reported cell (ny/2, nx/2) lies inside the grid for every n ≥ 1 |
| PoissonOmp.Relax | openmp/03-poisson/poisson.c:37-56 | after niter sweeps and swaps, u holds iterate niter and unew iterate niter − 1, and the buffers have swapped roles exactly when niter is odd |
| PoissonOmp.Run | openmp/03-poisson/poisson.c:8-71 | run reports the centre of iterate niter and writes u000000.bin (zeros), f.bin and u_end.bin (the final u), in that order |
| PoissonOmp.Configure | openmp/03-poisson/poisson.c:74-93 | main accepts exactly when every given size and iteration count is at least 1, with defaults 1024 and 500, and reports a bad size first |
| PoissonOmp.ExitStatus | openmp/03-poisson/poisson.c:84-97 | main's status is 1 exactly on a rejected argument and 0 exactly after run |
| PoissonOmp.MainExitStatus | openmp/03-poisson/poisson.c:74-98 | main returns 1 exactly when a given size or iteration count is below 1, and 0 otherwise |
| PoissonOffload.MapTo | openmp/03-poisson/solution/poisson-2.c:41 | map(to: …) at region entry gives a new device buffer holding a copy of the host buffer |
| PoissonOffload.CopyBack | openmp/03-poisson/solution/poisson-2.c:65 | the copy of map(tofrom: …) at region exit makes the host buffer equal to its device copy |
| PoissonOffload.HostResult | openmp/03-poisson/solution/poisson-2.c:41-65 | the buffer host u points to after niter swaps is the final iterate when niter is even and the zeros of the `to`-only buffer when niter is odd |
| PoissonOffload.TargetDataRegion | openmp/03-poisson/solution/poisson-2.c:41-65 | the region leaves host u on the first buffer after an even number of sweeps and on the second after an odd number, and that buffer holds the host result above; with unew mapped tofrom too it always holds the final iterate |
| PoissonOffload.RunMapped | openmp/03-poisson/solution/poisson-2.c:14-78 | run with the map clauses as written reports and writes the host result above, not necessarily the final iterate |
| PoissonOffload.RunMappedBothWays | openmp/03-poisson/solution/poisson-2.c:41 | with unew also mapped tofrom, run reports the centre of iterate niter and writes it to u_end.bin |
| PoissonOffload.CentreSource | openmp/03-poisson/solution/poisson-2.c:29 | a concrete 3 × 3 source field of nine cells |
| PoissonOffload.OddSweepCountReportsStaleBuffer | openmp/03-poisson/solution/poisson-2.c:41-71 | for n = 3 and niter = 1 the first iterate's centre is 1, but the as-written run reports 0 |
| PoissonReduction.SqDiffUpToSame | openmp/06-poisson-reduction/solution/poisson-2.c:77-83 | two stopping points with no interior cell between them give the same partial norm |
| PoissonReduction.SqDiffUpToSkip | openmp/06-poisson-reduction/solution/poisson-2.c:77-78 | boundary cells add nothing to norm2 |
| PoissonReduction.SqDiffRowEntry | openmp/06-poisson-reduction/solution/poisson-2.c:78 | the inner loop may start at j = 1: the first cell of a row adds nothing |
| PoissonReduction.SqDiffRowExit | openmp/06-poisson-reduction/solution/poisson-2.c:78 | stopping at j = nx − 1 reaches the start of the next row |
| PoissonReduction.SqDiffUpToStep | openmp/06-poisson-reduction/solution/poisson-2.c:79-81 | adding diff·diff at interior cell (i, j) extends the partial norm by that cell |
| PoissonReduction.Norm2Row | openmp/06-poisson-reduction/solution/poisson-2.c:78-82 | the inner loop adds the squared differences of row i to the running norm |
| PoissonReduction.ComputeNorm2 | openmp/06-poisson-reduction/solution/poisson-2.c:74-83 | the reduction yields the sum of (u − unew)² over all interior cells |
| PoissonReduction.SqDiffUpToNonNegative | openmp/06-poisson-reduction/solution/poisson-2.c:81 | partial norms are never negative |
| PoissonReduction.SqDiffUpToCoversCell | openmp/06-poisson-reduction/solution/poisson-2.c:81 | every interior cell's squared change is at most a partial norm that covers it |
| PoissonReduction.SqDiffUpToZero | openmp/06-poisson-reduction/solution/poisson-2.c:81 | a partial norm is 0 where the grids agree |
| PoissonReduction.SquareNonNegative | openmp/06-poisson-reduction/solution/poisson-2.c:81 | diff·diff ≥ 0 |
| PoissonReduction.Norm2Meaning | openmp/06-poisson-reduction/solution/poisson-2.c:74-87 | norm2 ≥ 0, it bounds the squared change of every interior cell, and it is 0 when the two iterates agree on the interior |
| PoissonReduction.StopFromMeaning | openmp/06-poisson-reduction/solution/poisson-2.c:51-90 | searching from it, the loop stops at the first iteration that converges, or at niter |
| PoissonReduction.LastIterationMeaning | openmp/06-poisson-reduction/solution/poisson-2.c:51-90 | the loop runs until the first converging iteration, which is always a multiple of 100, or for all niter iterations when none converges |
| PoissonReduction.ThousandStep | openmp/06-poisson-reduction/solution/poisson-2.c:94 | a multiple of 1000 adds one to the number of checkpoints |
| PoissonReduction.NonThousandStep | openmp/06-poisson-reduction/solution/poisson-2.c:94 | any other iteration leaves the number of checkpoints unchanged |
| PoissonReduction.CheckpointsLength | openmp/06-poisson-reduction/solution/poisson-2.c:94-105 | the first m iterations write m / 1000 checkpoints |
| PoissonReduction.CheckpointsAt | openmp/06-poisson-reduction/solution/poisson-2.c:94-105 | checkpoint q is named for iteration (q+1)·1000 and holds that iterate |
| PoissonReduction.CheckpointNamesDistinct | openmp/06-poisson-reduction/solution/poisson-2.c:101-102 | no two checkpoints share a file name |
| PoissonReduction.NextIterate | openmp/06-poisson-reduction/solution/poisson-2.c:54-65 | the device sweep writes iterate k + 1 into unew |
| PoissonReduction.WriteCheckpoint | openmp/06-poisson-reduction/solution/poisson-2.c:96-103 | `target update from(u)` makes the host buffer equal to the device iterate, and the file written is u%06d.bin of the iteration, holding it |
| PoissonReduction.SolveWithChecks | openmp/06-poisson-reduction/solution/poisson-2.c:51-107 | the loop stops at the first converging iteration or at niter; u ends on the first host buffer exactly when the count is even, its device copy then holding the last iterate; the checkpoints are those of the completed iterations, the converging one excluded |
| PoissonReduction.CheckConvergence | openmp/06-poisson-reduction/solution/poisson-2.c:73-90 | the test stops the loop exactly when the iteration is a multiple of 100 and norm2 of the newest and previous iterates is below norm2max |
| PoissonReduction.NoneConvergedExtends | openmp/06-poisson-reduction/solution/poisson-2.c:51-91 | a non-converging iteration extends the run of non-converging iterations |
| PoissonReduction.ParityFlag | openmp/06-poisson-reduction/solution/poisson-2.c:67-70 | a flag toggled by every swap records whether the iteration count is even |
| PoissonReduction.ThousandsAreEven | openmp/06-poisson-reduction/solution/poisson-2.c:94-96 | checkpoint iterations are even, so host u is then the buffer mapped tofrom |
| PoissonReduction.RunReduction | openmp/06-poisson-reduction/solution/poisson-2.c:14-126 | run reports the number of iterations and whether it converged (with normmax compared squared), the centre of the host buffer u points to, and the files u000000.bin, f.bin, the checkpoints and u_end.bin in order |
| PoissonReduction.ReductionRegion | openmp/06-poisson-reduction/solution/poisson-2.c:48-111 | the target data region returns the stopping iteration, the convergence flag, the host buffer u points to (holding the host result) and the checkpoints |
| PoissonReduction.StopAtFirstConverged | openmp/06-poisson-reduction/solution/poisson-2.c:87-90 | a loop that stops at its first converging iteration, or at niter, stops where LastIteration says |
| PoissonReduction.ConfigureReduction | openmp/06-poisson-reduction/solution/poisson-2.c:129-164 | main accepts exactly when n, niter and nrep are at least 1 and normmax is positive, with defaults 1024, 500, 3 and 10.0, and reports the first bad argument |
| PoissonReduction.RepeatRuns | openmp/06-poisson-reduction/solution/poisson-2.c:167-171 | main runs nrep times, and every run reports the same |
| PoissonKokkos.Plane | kokkos/06-poisson/solution/poisson.cpp:35-37 | the contents of an nx × ny View: cell (i, j) of the plane is View(i, j) |
| PoissonKokkos.ZeroPlane | kokkos/06-poisson/solution/poisson.cpp:40-41 | deep_copy(v, 0.0) gives an nx × ny plane |
| PoissonKokkos.Sweep2 | kokkos/06-poisson/solution/poisson.cpp:50-54 | one kernel launch yields a plane of the same shape |
| PoissonKokkos.Iterate2 | kokkos/06-poisson/solution/poisson.cpp:40-59 | every iterate from the zeroed Views has the grid's shape |
| PoissonKokkos.Iterate2BoundaryZero | kokkos/06-poisson/solution/poisson.cpp:40-51 | only interior cells are written, so every iterate is zero on the boundary |
| PoissonKokkos.PingPong2 | kokkos/06-poisson/solution/poisson.cpp:49-59 | sweeping iterate k into the View that holds iterate k − 1 gives iterate k + 1 |
| PoissonKokkos.KernelValueIsCell | kokkos/06-poisson/solution/poisson.cpp:53 | the lambda body read from the Views is the update of the planes at (i, j) |
| PoissonKokkos.JacobiKernel | kokkos/06-poisson/solution/poisson.cpp:50-54 | the "jacobi" parallel_for over {1,1}..{nx−1,ny−1} replaces exactly the interior of unew by the update of u |
| PoissonKokkos.SumInterior | kokkos/06-poisson/solution/poisson.cpp:72-77 | the "reduce" parallel_reduce yields the sum of unew over the interior cells |
| PoissonKokkos.MeanAsWritten | kokkos/06-poisson/solution/poisson.cpp:79 | the mean divides by (nx − 1)(ny − 1), and is not a number exactly when that divisor is 0 |
| PoissonKokkos.InteriorMean | kokkos/06-poisson/solution/poisson.cpp:72-79 | the corrected mean divides by the number of interior cells, (nx − 2)(ny − 2), and is defined exactly when there is an interior |
| PoissonKokkos.RowSumConstant | kokkos/06-poisson/solution/poisson.cpp:73-77 | a row whose interior is v sums to (count)·v |
| PoissonKokkos.PlaneSumConstant | kokkos/06-poisson/solution/poisson.cpp:73-77 | a plane whose interior is v sums to (rows)·(columns)·v over the interior |
| PoissonKokkos.InteriorMeanOfConstant | kokkos/06-poisson/solution/poisson.cpp:72-79 | the corrected mean of a constant interior is that constant |
| PoissonKokkos.MeanDivisorUndercounts | kokkos/06-poisson/solution/poisson.cpp:79 | on a 3 × 3 plane with 1 at the centre, the mean as written is 0.25 and the interior mean 1 |
| PoissonKokkos.Relax2 | kokkos/06-poisson/solution/poisson.cpp:49-59 | after niter launches and swaps, u holds iterate niter and unew iterate niter − 1, each being one of the two Views |
| PoissonKokkos.Report2 | kokkos/06-poisson/solution/poisson.cpp:61-86 | the dump of u.bin (row by row, for a LayoutRight View), the mean as written and the centre all come from the View passed in |
| PoissonKokkos.RunKokkos | kokkos/06-poisson/solution/poisson.cpp:31-89 | run reports and dumps iterate niter − 1, the contents of unew after the last swap |
| PoissonKokkos.RunKokkosReportingU | kokkos/06-poisson/solution/poisson.cpp:58-62 | the corrected run reports and dumps iterate niter, the newest one |
| PoissonKokkos.OneSweepReportsZeroPlane | kokkos/06-poisson/solution/poisson.cpp:58-85 | with one sweep on a 3 × 3 grid the run reports centre 0, while the iterate it computed is 1 there |
| PoissonKokkos.CentrePlane | kokkos/06-poisson/solution/poisson.cpp:35 | a concrete 3 × 3 source plane |
| PoissonKokkos.CommaDropsThreeNeighbours | kokkos/poisson/poisson.cpp:63 | with u = 1 and f = 0 the five-point update is 1 and the comma expression 0.25 |
| PoissonKokkos.FivePointKeepsConstants | kokkos/06-poisson/solution/poisson.cpp:53 | the five-point update of a constant field with no source is that constant |
| PoissonKokkos.OnesPlane | kokkos/poisson/poisson.cpp:49 | a concrete 3 × 3 plane |
| PoissonKokkos.ConfigureKokkos | kokkos/06-poisson/solution/poisson.cpp:91-113 | main accepts exactly when the given size and iteration count are at least 1, with defaults 1024 and 500, and checks the iteration count first |
| PoissonKokkos.CommaGridSide | kokkos/poisson/poisson.cpp:39-46 | with a single positive argument the side is the one the solution's main accepts, with 500 sweeps; the side is argv[1] when there is exactly one argument and 1024 otherwise |
| PoissonKokkos.CommaSideVersusConfigure | kokkos/poisson/poisson.cpp:39-46 | with one positive argument the comma program and the solution take the same side; a side below 1 is refused only by the solution; with two arguments the comma program falls back to 1024 |
| PoissonKokkos.RunComma | kokkos/poisson/poisson.cpp:31-93 | main of the comma program reports and dumps iterate 499 of the comma update, on the side CommaGridSide gives |
| JacobiSycl.InitialValueNonNegative | sycl/exercises/03-poisson-jacobi-iter/solution/j_simple_with_buffer.cpp:55-56 | every initial value is a non-negative integer, and C's truncating divisions agree with floor division on it |
| JacobiSycl.InitialField | sycl/exercises/03-poisson-jacobi-iter/solution/j_simple_with_buffer.cpp:45-58 | the initial grid has nx·ny cells |
| JacobiSycl.InitialiseRow | sycl/exercises/03-poisson-jacobi-iter/solution/j_simple_with_buffer.cpp:53-57 | one pass of the inner loop sets row i to the initial field and leaves later rows alone |
| JacobiSycl.Initialise | sycl/exercises/03-poisson-jacobi-iter/solution/j_simple_with_buffer.cpp:52-58 | after the initialisation loops the host vector holds the initial field |
| JacobiSycl.HalfStep | sycl/exercises/03-poisson-jacobi-iter/solution/j_simple_with_buffer.cpp:125-138 | one kernel keeps the grid's size |
| JacobiSycl.KernelIndices | sycl/exercises/03-poisson-jacobi-iter/solution/j_simple_with_buffer.cpp:129-134 | under the guard the cell is interior and ind, ip, im, jp and jm are in range, at ind ± ny and ind ± 1 |
| JacobiSycl.KernelValue | sycl/exercises/03-poisson-jacobi-iter/solution/j_simple_with_buffer.cpp:135-136 | the lambda body read through accessor U is the diffusion update of U's contents |
| JacobiSycl.DiffusionKernel | sycl/exercises/03-poisson-jacobi-iter/solution/j_simple_with_buffer.cpp:118-139 | the parallel_for over range<2>(nx, ny) replaces exactly the interior cells of UNEW by the update of U |
| JacobiSycl.Step | sycl/exercises/03-poisson-jacobi-iter/solution/j_simple_with_buffer.cpp:112-170 | one outer iteration (u into unew, then unew into u) keeps both vectors' sizes |
| JacobiSycl.Steps | sycl/exercises/03-poisson-jacobi-iter/solution/j_simple_with_buffer.cpp:110-171 | m outer iterations keep both vectors' sizes |
| JacobiSycl.HalfStepIgnoresInterior | sycl/exercises/03-poisson-jacobi-iter/solution/j_simple_with_buffer.cpp:134-137 | a kernel's result does not depend on the interior of the buffer it writes |
| JacobiSycl.WarmUpIrrelevant | sycl/exercises/03-poisson-jacobi-iter/solution/j_simple_with_buffer.cpp:74-102 | after at least one outer iteration both vectors are the same whatever the warm-up left in unew's interior |
| JacobiSycl.StepsKeepBoundary | sycl/exercises/03-poisson-jacobi-iter/solution/j_simple_with_buffer.cpp:134 | no kernel writes a boundary cell, so both vectors keep their boundary through any number of iterations |
| JacobiSycl.FinalField | sycl/exercises/03-poisson-jacobi-iter/solution/j_simple_with_buffer.cpp:42-171 | the final u of an n × n run has n² cells |
| JacobiSycl.FinalFieldWithoutWarmUp | sycl/exercises/03-poisson-jacobi-iter/solution/j_simple_with_buffer.cpp:72-105 | the warm-up kernel does not change the result of the run |
| JacobiSycl.CornerKeepsInitialValue | sycl/exercises/03-poisson-jacobi-iter/solution/j_simple_with_buffer.cpp:185 | the [0][0] printed after the run equals the one printed before it, the initial value at (0, 0) |
| JacobiSycl.RunSimple | sycl/exercises/03-poisson-jacobi-iter/solution/j_simple_with_buffer.cpp:42-186 | main leaves the 100-iteration field in u and prints its cell 0 |
| JacobiTiled.RoundUpLeastMultiple | sycl/exercises/03-poisson-jacobi-iter/solution/j_simple_with_buffer_optimized_events_lsm.cpp:73 | each global range dimension ((x + M − 1)/M)·M is the least multiple of M that is at least x |
| JacobiTiled.LoadsInTile | sycl/exercises/03-poisson-jacobi-iter/solution/j_simple_with_buffer_optimized_events_lsm.cpp:82-101 | every store of a work item lands inside the (M+2) × (M+2) local tile |
| JacobiTiled.GuardedLoadsInRange | sycl/exercises/03-poisson-jacobi-iter/solution/j_simple_with_buffer_optimized_events_lsm.cpp:91-101 | with the other coordinate also checked, every halo load reads U inside its nx·ny cells, for any grid and group size |
| JacobiTiled.AsWrittenIsGuardedInside | sycl/exercises/03-poisson-jacobi-iter/solution/j_simple_with_buffer_optimized_events_lsm.cpp:91-101 | for a work-group inside the grid the stores as written are exactly the guarded ones |
| JacobiTiled.HaloLoadOutOfRange | sycl/exercises/03-poisson-jacobi-iter/solution/j_simple_with_buffer_optimized_events_lsm.cpp:73-97 | for n = 17 and M = 16 the range is padded to 32 and item (15, 31) loads U[303], past the 289 cells of U; the guarded stores skip it |
| JacobiTiled.PaddedHaloLoadOutOfRange | sycl/exercises/03-poisson-jacobi-iter/solution/j_simple_with_buffer_optimized_events_lsm.cpp:73-97 | for every n > M that M does not divide, item (M − 1, 0) of the group at ((n / M)·M, M) lies in the padded last group row and its left halo load reads U at an index of at least n²; the guarded kernel makes no store there |
| JacobiTiled.SingleGroupLoadsInRange | sycl/exercises/03-poisson-jacobi-iter/solution/j_simple_with_buffer_optimized_events_lsm.cpp:73-97 | for n ≤ M the range is one group, the stores as written equal the guarded ones, and every load reads inside U |
| JacobiTiled.LoadOwnCells | sycl/exercises/03-poisson-jacobi-iter/solution/j_simple_with_buffer_optimized_events_lsm.cpp:144-145 | the stores of the items' own cells copy U into tile cells [1..M] × [1..M] and touch nothing else |
| JacobiTiled.LoadRowHalos | sycl/exercises/03-poisson-jacobi-iter/solution/j_simple_with_buffer_optimized_events_lsm.cpp:147-150 | the first and last local rows load the halo rows above and below the group, touching only rows 0 and M+1 |
| JacobiTiled.LoadColumnHalos | sycl/exercises/03-poisson-jacobi-iter/solution/j_simple_with_buffer_optimized_events_lsm.cpp:151-154 | the first and last local columns load the halo columns left and right of the group, touching only columns 0 and M+1 |
| JacobiTiled.TileFromStores | sycl/exercises/03-poisson-jacobi-iter/solution/j_simple_with_buffer_optimized_events_lsm.cpp:144-156 | after all stores, for every interior cell of the group, the tile holds that cell and its four neighbours of U |
| JacobiTiled.LoadTile | sycl/exercises/03-poisson-jacobi-iter/solution/j_simple_with_buffer_optimized_events_lsm.cpp:135-156 | everything up to the barrier leaves every interior cell's stencil of U in the tile |
| JacobiTiled.TileValueIsDiffusion | sycl/exercises/03-poisson-jacobi-iter/solution/j_simple_with_buffer_optimized_events_lsm.cpp:158-161 | the update read from a loaded tile is the untiled diffusion update of U |
| JacobiTiled.GroupUpdate | sycl/exercises/03-poisson-jacobi-iter/solution/j_simple_with_buffer_optimized_events_lsm.cpp:158-162 | one work-group's writes keep the grid's size |
| JacobiTiled.ComputeTile | sycl/exercises/03-poisson-jacobi-iter/solution/j_simple_with_buffer_optimized_events_lsm.cpp:158-162 | after the barrier, exactly the interior cells of the group in UNEW get the diffusion update of U |
| JacobiTiled.RunGroup | sycl/exercises/03-poisson-jacobi-iter/solution/j_simple_with_buffer_optimized_events_lsm.cpp:135-163 | one work-group updates exactly the interior cells it covers |
| JacobiTiled.GroupsBefore | sycl/exercises/03-poisson-jacobi-iter/solution/j_simple_with_buffer_optimized_events_lsm.cpp:137-163 | the state after the earlier work-groups keeps the grid's size |
| JacobiTiled.GroupsBeforeStart | sycl/exercises/03-poisson-jacobi-iter/solution/j_simple_with_buffer_optimized_events_lsm.cpp:137 | before any work-group UNEW is unchanged |
| JacobiTiled.GroupsBeforeNext | sycl/exercises/03-poisson-jacobi-iter/solution/j_simple_with_buffer_optimized_events_lsm.cpp:137-163 | running the next work-group moves the frontier one group to the right |
| JacobiTiled.GroupsBeforeRowDone | sycl/exercises/03-poisson-jacobi-iter/solution/j_simple_with_buffer_optimized_events_lsm.cpp:125-126 | past the last group column the whole row of groups is done |
| JacobiTiled.GroupsBeforeAll | sycl/exercises/03-poisson-jacobi-iter/solution/j_simple_with_buffer_optimized_events_lsm.cpp:125-126 | past the last row of groups every interior cell is updated, as in the untiled kernel |
| JacobiTiled.TiledKernel | sycl/exercises/03-poisson-jacobi-iter/solution/j_simple_with_buffer_optimized_events_lsm.cpp:124-164 | the nd_range kernel computes what the untiled kernel computes; as written it needs M to divide the grid side |
| JacobiTiled.RunTiled | sycl/exercises/03-poisson-jacobi-iter/solution/j_simple_with_buffer_optimized_events_lsm.cpp:42-221 | main leaves the untiled program's field with factor 0.25 in u and prints its cell 0 |
| PiDecomposition.ChunkSize | sycl/exercises/08-mpi-pi-bonus/solution/pi_usm.cpp:90 | chunksize = n / ntasks: the largest c with c·ntasks ≤ n |
| PiDecomposition.Remainder | sycl/exercises/08-mpi-pi-bonus/solution/pi_usm.cpp:95 | remainder = n % ntasks: below ntasks, and chunksize·ntasks + remainder = n |
| PiDecomposition.ClosedForm | sycl/exercises/08-mpi-pi-bonus/solution/pi_usm.cpp:91-105 | istart = r·c + 1 + min(r, remainder) and istop = (r+1)·c + min(r+1, remainder) |
| PiDecomposition.BlockSize | sycl/exercises/08-mpi-pi-bonus/solution/pi_usm.cpp:94-114 | rank r's block holds chunksize + 1 indices when r < remainder and chunksize otherwise |
| PiDecomposition.SurplusRanksIdle | sycl/exercises/08-mpi-pi-bonus/solution/pi_usm.cpp:90-114 | with more ranks than indices, ranks r ≥ n get an empty range (myn = 0) |
| PiDecomposition.Ends | sycl/exercises/08-mpi-pi-bonus/solution/pi_usm.cpp:90-105 | the first block starts at 1 and the last stops at n |
| PiDecomposition.Contiguous | sycl/exercises/08-mpi-pi-bonus/solution/pi_usm.cpp:90-105 | each block starts right after the previous one stops |
| PiDecomposition.Ordered | sycl/exercises/08-mpi-pi-bonus/solution/pi_usm.cpp:90-105 | a later rank's block lies wholly after an earlier rank's |
| PiDecomposition.Disjoint | sycl/exercises/08-mpi-pi-bonus/solution/pi_usm.cpp:90-105 | no index lies in two ranks' blocks |
| PiDecomposition.CoveredUpTo | sycl/exercises/08-mpi-pi-bonus/solution/pi_usm.cpp:90-105 | ranks 0..t−1 together cover 1..istop(t−1) |
| PiDecomposition.Partition | sycl/exercises/08-mpi-pi-bonus/solution/pi_usm.cpp:90-105 | an index belongs to some rank's block if and only if it lies in 1..n, and then to only one |
| PiDecomposition.VisitsBlock | sycl/exercises/08-mpi-pi-bonus/solution/pi_usm.cpp:114-119 | work items 0..myn−1 visit exactly the indices of the rank's block, each once |
| PiDecomposition.Term | sycl/exercises/08-mpi-pi-bonus/solution/pi_usm.cpp:119-120 | the integrand 1/(1 + x²) at the midpoint x = (k − 0.5)/n lies in (0, 1] |
| PiDecomposition.SumRange | sycl/exercises/08-mpi-pi-bonus/solution/pi_usm.cpp:116-120 | a sum of integrand values is never negative |
| PiDecomposition.SumRangeSplit | sycl/exercises/08-mpi-pi-bonus/solution/pi_usm.cpp:116-120 | sums over adjacent index ranges add up |
| PiDecomposition.LocalPi | sycl/exercises/08-mpi-pi-bonus/solution/pi_usm.cpp:107-121 | the kernel's reduction from localpi = 0 yields the midpoint sum over the rank's block |
| PiDecomposition.SumConcat | sycl/exercises/08-mpi-pi-bonus/solution/pi_usm.cpp:124-129 | the sum of a concatenation is the sum of the sums |
| PiDecomposition.SumPermutation | sycl/exercises/08-mpi-pi-bonus/solution/pi_usm.cpp:126-129 | the order in which the partial sums arrive does not change their total |
| PiDecomposition.PartialSums | sycl/exercises/08-mpi-pi-bonus/solution/pi_usm.cpp:107-133 | entry r is rank r's local sum, for every rank |
| PiDecomposition.PrefixSums | sycl/exercises/08-mpi-pi-bonus/solution/pi_usm.cpp:90-121 | ranks 0..t−1 together sum the integrand over 1..istop(t−1) |
| PiDecomposition.AllPartialSums | sycl/exercises/08-mpi-pi-bonus/solution/pi_usm.cpp:90-121 | all ranks together sum the integrand over 1..n |
| PiDecomposition.Rank0Reduce | sycl/exercises/08-mpi-pi-bonus/solution/pi_usm.cpp:124-130 | rank 0 adds its own and the received sums, in arrival order, and scales by 4/n |
| PiDecomposition.PiEstimate | sycl/exercises/08-mpi-pi-bonus/solution/pi_usm.cpp:124-133 | whatever the arrival order of the ntasks − 1 received sums, rank 0's total is the midpoint sum over 1..n |
| PiDecomposition.RunPi | sycl/exercises/08-mpi-pi-bonus/solution/pi_usm.cpp:42-138 | the printed pi is 4/n times the midpoint sum over 1..n, for any number of ranks and any arrival order |
| Axpy.Axpy | kokkos/01-simple-axpy/axpy.cpp:4-9 | the reference update: element i of the result is y[i] + a·x[i], for every i, and the length is kept |
| Axpy.AxpyInverse | kokkos/01-simple-axpy/axpy.cpp:4-9 | an axpy with −a undoes an axpy with a, so the update loses nothing of y |
| Axpy.AxpyCompose | kokkos/simple-axpy/solution/axpy.cpp:21-24 | two passes with the same x and factors a then b equal one pass with a + b; the program resets y between passes for this reason |
| Axpy.AxpyLoop | kokkos/01-simple-axpy/axpy.cpp:4-9 | the sequential loop leaves y[..N] equal to the reference applied to the old x and y, touches no y index ≥ N, and leaves x unchanged unless x and y are one buffer |
| Axpy.AxpyParallel | kokkos/simple-axpy/solution/axpy.cpp:35-59 | the functor and lambda parallel_for over [0, N) produce the same y[..N] as the reference, with the rest of y and x unchanged |
| Axpy.TwiceRamp | kokkos/01-simple-axpy/axpy.cpp:17 | element i is (i + 1)·2.4 |
| Axpy.NegRamp | kokkos/01-simple-axpy/axpy.cpp:18 | element i is (i + 1)·−1.2 |
| Axpy.InitRamps | kokkos/01-simple-axpy/axpy.cpp:12-20 | init writes x[i] = 2.4(i + 1) and y[i] = −1.2(i + 1) for i < N and nothing past N |
| Axpy.RampsCancel | kokkos/01-simple-axpy/axpy.cpp:27-42 | with a = 0.5 the update of the init values makes every y[i] zero |
| Axpy.RunRamps | kokkos/01-simple-axpy/axpy.cpp:22-44 | main with N = 100 and a = 0.5 prints first and last elements that are both zero, as its comment says |
| Axpy.Ramp | kokkos/simple-axpy/solution/axpy.cpp:16 | element i is i·1.2 |
| Axpy.Descent | kokkos/simple-axpy/solution/axpy.cpp:17 | element i is −i·1.2 |
| Axpy.Reset | kokkos/simple-axpy/solution/axpy.cpp:29-32 | the initialisation and each reset loop restore exactly x[i] = 1.2i and y[i] = −1.2i for i < N, whatever the buffers held |
| Axpy.RampAxpy | kokkos/simple-axpy/solution/axpy.cpp:8-24 | with a = 0.5 the update of the reset values gives y[i] = −0.6i |
| Axpy.AxpyPass | kokkos/simple-axpy/solution/axpy.cpp:20-26 | one pass from the reset state, by loop or by parallel_for, prints y[1] = −0.6 and y[N−1] = −0.6(N−1), and leaves x unchanged |
| Axpy.RunThreeWays | kokkos/simple-axpy/solution/axpy.cpp:4-64 | the loop, functor and lambda passes, each after a reset, print the same pair (−0.6, −59.4) |
| Axpy.FracAsWritten | openmp/02-axpy-dynamic/axpy.c:16 | 1.0 / (n − 1) has a real value exactly when n ≠ 1, and that value times n − 1 is 1 |
| Axpy.Frac | openmp/02-axpy-dynamic/axpy.c:16 | the corrected step: the inverse of n − 1 when n ≠ 1, and 0 when n = 1 |
| Axpy.Fractions | openmp/02-axpy-dynamic/axpy.c:17 | element i is i·frac |
| Axpy.Percents | openmp/02-axpy-dynamic/axpy.c:18 | element i is i·frac·100 |
| Axpy.InitFractions | openmp/02-axpy-dynamic/axpy.c:15-19 | the initialisation loop writes x[i] = i·frac and y[i] = 100·i·frac for i < n and nothing past n |
| Axpy.FractionsAxpy | openmp/01-axpy-basics/solution/axpy-loop.c:16-34 | with alpha = 3 the update of the initial values gives y[i] = 103·i·frac |
| Axpy.FractionsEnds | openmp/01-axpy-basics/solution/axpy-loop.c:17-34 | for n ≥ 2 the output starts at 0 and ends at 103 |
| Axpy.ValidateSize | openmp/02-axpy-dynamic/axpy.c:42-53 | no argument gives the default 102400; an argument below 1 gives exit status 1; any other argument is the size |
| Axpy.RunAsWritten | openmp/02-axpy-dynamic/solution/axpy.c:5-39 | run(n) as written has a real result exactly when n ≠ 1, and then y[i] = 103·i/(n − 1) |
| Axpy.SizeOneReachesZeroDivisor | openmp/02-axpy-dynamic/axpy.c:16-55 | size 1 passes the argument check and reaches the division by zero |
| Axpy.Run | openmp/02-axpy-dynamic/solution/axpy.c:5-39 | with the corrected step, every admitted size gives y equal to the reference update of the initial values, y[i] = 103·x[i], y[0] = 0 and, for n ≥ 2, y[n−1] = 103 |
| DotProduct.DotSymmetric | kokkos/02-simple-dot-product/dot-product.cpp:10 | the dot product does not depend on the order of its two arguments |
| DotProduct.DotPrefix | kokkos/02-simple-dot-product/dot-product.cpp:8-11 | only the first N elements of x and y take part in the result |
| DotProduct.DotOfMultipleNonNegative | openmp/demos/reduction-omp.c:22-43 | when y is a non-negative multiple of x, the dot product is at least 0 |
| DotProduct.DotLoop | kokkos/02-simple-dot-product/dot-product.cpp:4-13 | dot_product returns the sum of x[i]·y[i] over i < N, and 0 when N = 0; its loop keeps result equal to the sum over the indices seen so far |
| DotProduct.SquaresStep | openmp/demos/reduction-omp.c:41-43 | the polynomial step that extends the closed form of a sum of squares by one term |
| DotProduct.SquaresClosedForm | openmp/demos/reduction-omp.c:41-43 | 6·(0² + … + (k−1)²) = (k−1)·k·(2k−1) |
| DotProduct.FractionsTerm | openmp/demos/reduction-omp.c:42 | term i of the reduction is 100·frac²·i² |
| DotProduct.FractionsDot | openmp/demos/reduction-omp.c:22-43 | the first k terms add up to 100·frac² times the sum of the first k squares |
| DotProduct.ReductionValue | openmp/demos/reduction-omp.c:22-43 | for n ≥ 2 the reduced sum is non-negative and equals 100·n(2n−1) / (6(n−1)) |
| DotProduct.RunReduction | openmp/demos/reduction-omp.c:15-49 | the demo's sum is the dot product of the initialised x and y, is non-negative and has the closed form above |
| DotProduct.ClosedForm | openmp/demos/reduction-omp.c:23 | the step frac = 1/(n−1) cancels the (n−1) of the sum of squares |
| DotProduct.Cancel | openmp/demos/reduction-omp.c:23 | the real arithmetic behind that cancellation |
| RingExchange.Dst | kokkos/08-mpi-message-exchange/exchange.cpp:36 | dst = (rank + 1) % ntasks lies in [0, ntasks): the next rank, wrapping to 0 after the last |
| RingExchange.Src | kokkos/08-mpi-message-exchange/exchange.cpp:37 | src = (rank − 1 + ntasks) % ntasks lies in [0, ntasks): the previous rank, wrapping to ntasks − 1 before rank 0 |
| RingExchange.RingInverse | kokkos/08-mpi-message-exchange/exchange.cpp:36-37 | src(dst(r)) = r and dst(src(r)) = r: the ring is a permutation of the ranks |
| RingExchange.DstInjective | kokkos/08-mpi-message-exchange/exchange.cpp:36 | no two ranks send to the same rank |
| RingExchange.NoSelfMessages | kokkos/08-mpi-message-exchange/exchange.cpp:21-37 | once ntasks ≥ 2 is checked, neither neighbour of a rank is the rank itself |
| RingExchange.Admitted | kokkos/08-mpi-message-exchange/exchange.cpp:21-25 | the program goes on exactly when no rank would send to itself |
| RingExchange.InitBuffers | kokkos/08-mpi-message-exchange/exchange.cpp:28-32 | the loop sets every message[i] to rank and every receiveBuffer[i] to −1 |
| RingExchange.InitViews | kokkos/08-mpi-message-exchange/solution/exchange.cpp:32-36 | the parallel_for sets every message(i) to rank and every receiveBuffer(i) to −1 |
| RingExchange.Exchange | kokkos/08-mpi-message-exchange/exchange.cpp:39-41 | MPI_Sendrecv leaves one receive buffer per rank |
| RingExchange.ExchangeDelivers | kokkos/08-mpi-message-exchange/exchange.cpp:39-41 | the first msgsize elements of dst's buffer become rank's message, and the rest of every buffer is unchanged |
| RingExchange.RunRing | kokkos/08-mpi-message-exchange/solution/exchange.cpp:12-48 | with ntasks ≥ 2, rank r prints src(r) as its first received element, never its own rank, in both forms |
| GemmCheck.Ramp | sycl/exercises/06-interoperability/gemm_mkl_cublas_usm.cpp:74-79 | the post-incremented counter leaves start + k at flat position k |
| GemmCheck.InitMatrices | sycl/exercises/06-interoperability/gemm_mkl_cublas_usm.cpp:74-82 | a[i·N+j] = 2 + i·N + j, b[i·N+j] = 3 + i·N + j, and c and d are zero |
| GemmCheck.Product | sycl/exercises/06-interoperability/gemm_mkl_cublas_usm.cpp:222-226 | the row-major product has N·N entries |
| GemmCheck.ProductAt | sycl/exercises/06-interoperability/gemm_mkl_cublas_usm.cpp:224-225 | i·N + j is in [0, N·N) and entry i·N + j of the product is row i of A times column j of B |
| GemmCheck.KernelEntry | sycl/exercises/06-interoperability/gemm_mkl_cublas_usm.cpp:112-115 | the private accumulator temp ends as row i of A times column j of B |
| GemmCheck.WarmUp | sycl/exercises/06-interoperability/gemm_mkl_cublas_usm.cpp:97-118 | the warm-up kernel leaves C the row-major product A B |
| GemmCheck.Plus | sycl/exercises/06-interoperability/gemm_mkl_cublas_usm.cpp:225 | entry t of the sum is the sum of the entries t |
| GemmCheck.AccumulateEntry | sycl/exercises/06-interoperability/gemm_mkl_cublas_usm.cpp:224-226 | the k loop adds row i of a times column j of b to d[i·N+j] and changes no other entry |
| GemmCheck.DiffersNext | sycl/exercises/06-interoperability/gemm_mkl_cublas_usm.cpp:227 | one more comparison finds a mismatch exactly when an earlier one did or the new entry differs |
| GemmCheck.VerifyEntry | sycl/exercises/06-interoperability/gemm_mkl_cublas_usm.cpp:223-228 | one step of the j loop finishes entry i·N+j of d and records whether it differs from c |
| GemmCheck.VerifyRow | sycl/exercises/06-interoperability/gemm_mkl_cublas_usm.cpp:223-228 | one row of the verify loop finishes row i of d and keeps fail equal to "some finished entry differs" |
| GemmCheck.VerifyLoop | sycl/exercises/06-interoperability/gemm_mkl_cublas_usm.cpp:220-229 | the verify loop adds the row-major product a b to d, and fail is set exactly when some entry of c differs from d |
| GemmCheck.SwappedColSum | sycl/exercises/06-interoperability/gemm_mkl_cublas_usm.cpp:154 | a column-major sum with operands b, a at (s, r) equals the row-major sum of a, b at (r, s) |
| GemmCheck.LibraryGemm | sycl/exercises/06-interoperability/gemm_mkl_cublas_usm.cpp:154 | the library GEMM keeps the matrix size |
| GemmCheck.LibraryGemmIsProduct | sycl/exercises/06-interoperability/gemm_mkl_cublas_usm.cpp:144-154 | gemm(nontrans, nontrans, alpha = beta = 1, dev_b, dev_a, dev_c) leaves the row-major product a b plus the old dev_c |
| GemmCheck.CopyInto | sycl/exercises/06-interoperability/gemm_mkl_cublas_usm.cpp:201 | the copy back leaves the host array equal to the device contents |
| GemmCheck.Prepare | sycl/exercises/06-interoperability/gemm_mkl_cublas_usm.cpp:67-130 | after the warm-up and the second initialisation, a and b are the ramps again and c and d are zero |
| GemmCheck.RunGemm | sycl/exercises/06-interoperability/gemm_mkl_cublas_usm.cpp:35-235 | the printed c[0] is the product's entry 0 plus whatever dev_c held; with -v the program prints FAIL exactly when dev_c was not zero, unless c is copied into dev_c first |
| GemmCheck.RunGemmCopyingC | sycl/exercises/06-interoperability/gemm_mkl_cublas_usm.cpp:137-234 | with dev_c filled from the zeroed c before the GEMM, the printed c[0] is entry 0 of the product and the check prints PASS |
| CheckpointFormat.Pow256 | kokkos/06-poisson/solution/poisson.cpp:66 | 256^k is positive |
| CheckpointFormat.LittleEndian | kokkos/06-poisson/solution/poisson.cpp:66 | a value written in k bytes takes k bytes |
| CheckpointFormat.ValueBound | openmp/compare.py:11 | k bytes read as an unsigned integer give a value below 256^k |
| CheckpointFormat.EightBytes | kokkos/06-poisson/solution/poisson.cpp:66 | eight bytes hold exactly the size_t and binary64 patterns |
| CheckpointFormat.ValueOfLittleEndian | openmp/compare.py:11 | reading back the k bytes written for x < 256^k gives x |
| CheckpointFormat.ReadWord | openmp/compare.py:11 | np.uint64 read from the first 8 bytes is their little-endian value |
| CheckpointFormat.EncodeWords | kokkos/06-poisson/solution/poisson.cpp:68 | each element takes 8 bytes |
| CheckpointFormat.DecodeWords | openmp/compare.py:14 | np.fromfile(count=c) returns c values, or as many whole ones as the bytes hold |
| CheckpointFormat.DecodeEncode | openmp/compare.py:14 | decoding the encoding of any words, whatever follows them, gives those words back |
| CheckpointFormat.Apply | kokkos/06-poisson/solution/poisson.cpp:68 | element i of the result is f of element i |
| CheckpointFormat.WriteArray | kokkos/06-poisson/solution/poisson.cpp:64-69 | a file of count elements takes 8 + 8·count bytes |
| CheckpointFormat.WriteArrayLayout | kokkos/06-poisson/solution/poisson.cpp:65-68 | the header of a written file reads back as the element count, and the body as the element patterns in order |
| CompareArrays.Isqrt | openmp/compare.py:16 | the integer square root r satisfies r² ≤ c < (r+1)² |
| CompareArrays.IsqrtUnique | openmp/compare.py:16 | it is the only such r |
| CompareArrays.IsqrtOfSquare | openmp/compare.py:16-17 | the root of n² is n, so every square count passes the assertion |
| CompareArrays.RowOf | openmp/compare.py:18 | row r of the reshape holds flat[r·n + c] at c |
| CompareArrays.Reshape | openmp/compare.py:18 | the reshape is an n × n grid |
| CompareArrays.ReshapeCell | openmp/compare.py:18 | element (r, c) of the reshape is flat[r·n + c] |
| CompareArrays.ReshapeFlatten | openmp/compare.py:18 | reshaping the row-major layout of a square grid gives the grid back |
| CompareArrays.ReadArray | openmp/compare.py:8-18 | read_array fails on a missing count exactly when the file has under 8 bytes; a non-square count fails the assert; a square count with fewer than count doubles fails the reshape, reporting how many were found; otherwise the result is the n × n reshape, n = √count, of the count decoded doubles |
| CompareArrays.ReadWriteFlat | openmp/compare.py:8-18 | a written flat array of n² values reads back as its n × n reshape |
| CompareArrays.ReadWriteRoundTrip | openmp/compare.py:8-18 | a square grid written row-major reads back as the same grid |
| CompareArrays.KokkosDumpReadsBack | kokkos/06-poisson/solution/poisson.cpp:61-69 | reading the Kokkos u.bin of LayoutRight Views gives iterate niter − 1, the plane in unew after the last swap |
| CompareArrays.MaxOf | openmp/compare.py:29 | np.max of a non-empty array is an element that no element exceeds |
| CompareArrays.AbsAll | openmp/compare.py:29 | np.abs takes the absolute value of every element |
| CompareArrays.MaxAbsMeaning | openmp/compare.py:29-30 | max_val fails exactly on the empty grid; otherwise it is non-negative, bounds every cell's absolute value and is reached by one |
| CompareArrays.AbsSwap | openmp/compare.py:31 | the absolute difference is symmetric |
| CompareArrays.MaxDiffSymmetric | openmp/compare.py:31 | max_diff does not depend on which file comes first |
| CompareArrays.MaxDiffSelf | openmp/compare.py:31 | a non-empty grid compared with itself has max_diff 0 |
| CompareArrays.MaxDiffZeroIffEqual | openmp/compare.py:31 | two grids of one non-empty shape have max_diff 0 exactly when they are equal |
| CompareArrays.MaxDiffBounds | openmp/compare.py:31 | max_diff is non-negative and bounds the difference of every pair of cells |
| CompareArrays.MismatchedShapesFail | openmp/compare.py:31 | grids of shapes 2 × 2 and 3 × 3 do not broadcast, so max_diff fails |

## Left out

- Floating point: every `double` and `float` is a `real`, so no rounding or overflow is modelled. The pi integrand and the convergence rates are only stated over the reals.
- The source fields: `create_input` (in a header that is not part of this model) and the Kokkos `init` functions are not modelled. The source field is a parameter of each run.
- File I/O: `write_array`, `fopen`/`fwrite` and `np.fromfile` become the byte-layout functions of `CheckpointFormat`, and each written file is a (name, contents) value. A double is its 64-bit pattern through a caller-supplied function and its inverse.
- Timers, device queries, profiling events and all printing other than the reported values are left out.
- Runtimes: OpenMP host threads, tasks, `nowait`/`depend` and `taskwait`; SYCL queues and events; Kokkos fences and mirror views. Kernels are `forall` statements or sequential loops. Their results do not depend on the order because each work item writes its own cell.
- MPI: init, send, receive, abort and device selection. The ring exchange is the function `RingExchange.Exchange` over all ranks' buffers. Rank 0's received values are any permutation of the other ranks' sums.
- The library GEMM (oneMKL, cuBLAS) is a specification function, `GemmCheck.LibraryGemm`. The warm-up kernel's nd_range, which needs M to divide N, is run as a plain loop over all (i, j).
- Command-line parsing with getopt and atoi is not modelled. The programs' arguments are given as integers, or as a missing value where there is a default.
- Integer widths: `int` and `size_t` are unbounded, except that the checkpoint count must fit 8 bytes. `CheckpointName.FileNameFitsBuffer` bounds the name length for 32-bit iteration counts.
- CompareArrays.Isqrt: `int(np.sqrt(count))` is taken as the exact integer square root, without the double rounding of `np.sqrt` for counts above 2^52.
- PoissonKokkos.Cell: `h2` is 1.0 in both Kokkos programs and is folded into the update.
- Kokkos View layout: Views are `array2` indexed (i, j), and the model assumes the `LayoutRight` layout of host backends, so the dump of `unew_host.data()` writes the View row by row (`PoissonKokkos.Report2`, `CompareArrays.KokkosDumpReadsBack`). `Kokkos::View<double**>` names no layout, and on CUDA and HIP the default is `LayoutLeft`. A device build therefore writes the View column by column, and `compare.py` reads back the transpose, which differs from the field because the source field is not symmetric.
- JacobiTiled.LoadTile: tile cells that no work item writes start at 0.0. The program leaves them undefined, but they are never read.
- PiDecomposition.RunPi: n is a parameter; the program fixes it at `Intervals` = 840.
- DotProduct.RunReduction: requires n ≥ 2, because the reduction demo divides by N − 1 with N = 102400.
- PoissonKokkos.CommaGridSide: a side below 1 is not modelled, so `RunComma` requires a side of at least 1. The program does not check the sign: a side of 0 gives zero-extent Views that are then read at (0, 0), and a negative `atoi` value becomes a huge `size_t` extent.
- Axpy.RunAsWritten: models the mapped loop of `openmp/02-axpy-dynamic/solution/axpy.c`. The exercise's target loop in `openmp/02-axpy-dynamic/axpy.c` has no map clause, so the malloc'ed `x` and `y` are mapped as zero-length sections and a discrete device neither receives the data nor copies `y` back. The model's `y` holds for that loop only under unified memory or host fallback.
- Axpy.FractionsEnds: for the `axpy-loop.c` macro N, stated for every n ≥ 2.
- The dispatch-only Kokkos variants, the hello-world demos, the language demos and the fixed-pair MPI exchanges are not part of this model.

## Findings

| source | as written | input that shows it | evidently intended | confidence | as-written member | corrected member |
|---|---|---|---|---|---|---|
| openmp/03-poisson/solution/poisson-2.c:41 | `u` is mapped `tofrom` and `unew` only `to`; after an odd number of swaps host `u` points at the `unew` buffer, which is never copied back | n = 3, niter = 1: the first iterate's centre is 1, but the reported centre is 0 | report and write the final iterate for any niter | high, not executed | PoissonOffload.RunMapped | PoissonOffload.RunMappedBothWays |
| kokkos/06-poisson/solution/poisson.cpp:79 | the interior sum is divided by (nx − 1)(ny − 1) | a 3 × 3 plane with 1 at the centre: mean 0.25 instead of 1 | divide by the (nx − 2)(ny − 2) interior cells | high, not executed | PoissonKokkos.MeanAsWritten | PoissonKokkos.InteriorMean |
| kokkos/poisson/poisson.cpp:63 | the comma operator discards u(i−1,j) + u(i+1,j) + u(i,j−1), leaving 0.25·(u(i,j+1) − h2·f(i,j)) | u = 1 and f = 0: 0.25 instead of 1 | the five-point Jacobi update | high, not executed | PoissonKokkos.CommaDropsThreeNeighbours | PoissonKokkos.FivePointKeepsConstants |
| kokkos/06-poisson/solution/poisson.cpp:58-85 | after the last `std::swap`, the dump, the mean and the centre are taken from `unew`, which holds iterate niter − 1 | n = 3, niter = 1: the reported centre is 0 while the computed iterate is 1 there | report the newest iterate, `u` | medium, not executed | PoissonKokkos.RunKokkos | PoissonKokkos.RunKokkosReportingU |
| sycl/exercises/03-poisson-jacobi-iter/solution/j_simple_with_buffer_optimized_events_lsm.cpp:96-97 | a halo load tests only one coordinate, so padded work items outside the grid read past U when n > M and M does not divide n (for n ≤ M every halo guard fails, and when M divides n no item is padded) | n = 17, M = 16: item (15, 31) reads U[303] of 289 cells | also test the other coordinate | high, not executed | JacobiTiled.HaloLoadOutOfRange | JacobiTiled.GuardedLoadsInRange |
| sycl/exercises/06-interoperability/gemm_mkl_cublas_usm.cpp:139-154 | `dev_c` is never written before the GEMM reads it with beta = 1 | any nonzero entry left in `dev_c` makes the check print FAIL | copy the zeroed c into `dev_c`, or use beta = 0 | high, not executed | GemmCheck.RunGemm | GemmCheck.RunGemmCopyingC |
| openmp/02-axpy-dynamic/axpy.c:16 | n = 1 passes the check n ≥ 1 and then divides by n − 1 = 0 | n = 1 | reject n < 2, or define the single element | high, not executed | Axpy.SizeOneReachesZeroDivisor | Axpy.Run |
