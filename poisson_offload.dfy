/**
 * The offloaded Jacobi solver of openmp/03-poisson/solution/poisson-2.c: the
 * same sweeps and swaps of u and unew as the serial solver, inside a `target data`
 * region that maps f and unew to the device and u to and from it.
 *
 * Host and device memory are separate arrays here.  The map clauses name the
 * buffers u and unew point to when the region is entered; on exit only the
 * device copy of that first u buffer is copied back.  The swaps inside
 * the region move the host variables u and unew between the two host buffers,
 * and the kernels find the device buffer that belongs to each host buffer.
 */
module PoissonOffload {
  import opened Grid
  import opened Wrappers
  import opened CheckpointName
  import opened PoissonOmp

  /** map(to: ...): a device buffer holding a copy of the host buffer. */
  method MapTo(host: array<real>) returns (dev: array<real>)
    ensures fresh(dev) && dev[..] == host[..]
  {
    dev := new real[host.Length](k requires 0 <= k < host.Length reads host => host[k]);
  }

  /** The copy back of map(from: ...) at region exit, or of `target update from(...)`. */
  method CopyBack(dev: array<real>, host: array<real>)
    requires dev.Length == host.Length && dev != host
    modifies host
    ensures host[..] == dev[..]
  {
    forall k | 0 <= k < host.Length {
      host[k] := dev[k];
    }
  }

  /**
   * What the host buffer that u points to after niter swaps holds at the end
   * of run: an even number of swaps leaves u on the first buffer, whose device
   * copy (iterate niter) comes back at region exit; an odd number leaves u on
   * the second buffer, mapped `to` only, which still holds its zeros.
   */
  function HostResult(f: seq<real>, n: int, niter: nat): (r: seq<real>)
    requires 1 <= n && |f| == n * n
    ensures |r| == n * n
  {
    if niter % 2 == 0 then Iterate(f, n, n, niter) else Zeros(n * n)
  }

  /**
   * The `target data` region of run: map f to the device and u and unew
   * (the host buffers hostA and hostB) to it, relax niter sweeps there, and
   * on exit copy back the device copy of hostA (map tofrom: u) and, when
   * unewTofrom holds, the device copy of hostB as well.  Returns the host
   * buffer the host variable u refers to after the region, swapped once per
   * sweep like the device variables.
   */
  method TargetDataRegion(hostA: array<real>, hostB: array<real>, f: array<real>, n: int, niter: int, unewTofrom: bool)
    returns (hostU: array<real>)
    requires 1 <= n && 1 <= niter
    requires hostA.Length == n * n && hostB.Length == n * n && f.Length == n * n
    requires hostA != hostB && hostA != f && hostB != f
    requires hostA[..] == Zeros(n * n) && hostB[..] == Zeros(n * n)
    modifies hostA, hostB
    ensures hostU == if niter % 2 == 0 then hostA else hostB
    ensures hostU[..] == if unewTofrom then Iterate(f[..], n, n, niter) else HostResult(f[..], n, niter)
  {
    var devF := MapTo(f);
    var devA := MapTo(hostA);
    var devB := MapTo(hostB);
    var devU, devUnew := Relax(devA, devB, devF, n, niter);
    hostU := if niter % 2 == 0 then hostA else hostB;
    CopyBack(devA, hostA);
    if unewTofrom {
      CopyBack(devB, hostB);
    }
  }

  /**
   * run(n, niter) of solution/poisson-2.c, map clauses as written:
   * map(to: f) map(tofrom: u) map(to: unew).
   */
  method RunMapped(n: int, niter: int, f: array<real>) returns (report: Report)
    requires 1 <= n && 1 <= niter && f.Length == n * n
    ensures report.centre == HostResult(f[..], n, niter)[CentreIndex(n)]
    ensures report.files == [ArrayFile(FileName(0), Zeros(n * n)), ArrayFile("f.bin", f[..]),
                             ArrayFile("u_end.bin", HostResult(f[..], n, niter))]
  {
    var nx, ny := n, n;
    var n2 := nx * ny;
    var hostA := new real[n2](_ => 0.0);
    var hostB := new real[n2](_ => 0.0);
    assert hostA[..] == Zeros(n2) && hostB[..] == Zeros(n2);
    var files := [ArrayFile(FileName(0), hostA[..]), ArrayFile("f.bin", f[..])];
    // target data map(to: f[0:nx*ny]) map(tofrom: u[0:nx*ny]) map(to: unew[0:nx*ny])
    var hostU := TargetDataRegion(hostA, hostB, f, n, niter, false);
    ghost var c := CentreIndex(n);
    assert (ny / 2) * nx + nx / 2 == c;
    var centre := hostU[(ny / 2) * nx + nx / 2];
    report := Report(centre, files + [ArrayFile("u_end.bin", hostU[..])]);
  }

  /**
   * The same run with unew mapped tofrom as well, so that both host buffers
   * receive their device copies at region exit: whichever buffer u points to,
   * it holds the final iterate.
   */
  method RunMappedBothWays(n: int, niter: int, f: array<real>) returns (report: Report)
    requires 1 <= n && 1 <= niter && f.Length == n * n
    ensures report.centre == Iterate(f[..], n, n, niter)[CentreIndex(n)]
    ensures report.files == [ArrayFile(FileName(0), Zeros(n * n)), ArrayFile("f.bin", f[..]),
                             ArrayFile("u_end.bin", Iterate(f[..], n, n, niter))]
  {
    var nx, ny := n, n;
    var n2 := nx * ny;
    var hostA := new real[n2](_ => 0.0);
    var hostB := new real[n2](_ => 0.0);
    assert hostA[..] == Zeros(n2) && hostB[..] == Zeros(n2);
    var files := [ArrayFile(FileName(0), hostA[..]), ArrayFile("f.bin", f[..])];
    // target data map(to: f[0:nx*ny]) map(tofrom: u[0:nx*ny]) map(tofrom: unew[0:nx*ny])
    var hostU := TargetDataRegion(hostA, hostB, f, n, niter, true);
    ghost var c := CentreIndex(n);
    assert (ny / 2) * nx + nx / 2 == c;
    var centre := hostU[(ny / 2) * nx + nx / 2];
    report := Report(centre, files + [ArrayFile("u_end.bin", hostU[..])]);
  }

  /** A 3 x 3 source that is -4 at the centre and 0 elsewhere. */
  function CentreSource(): (f: seq<real>)
    ensures |f| == 9
  {
    [0.0, 0.0, 0.0, 0.0, -4.0, 0.0, 0.0, 0.0, 0.0]
  }

  /**
   * With n = 3 and niter = 1 the first Jacobi iterate has 1 at the centre,
   * but the as-written run reports (and writes to u_end.bin) the stale host
   * buffer, whose centre is 0.
   */
  lemma OddSweepCountReportsStaleBuffer()
    ensures Iterate(CentreSource(), 3, 3, 1)[CentreIndex(3)] == 1.0
    ensures HostResult(CentreSource(), 3, 1)[CentreIndex(3)] == 0.0
  {
    var f := CentreSource();
    assert CentreIndex(3) == 4;
    InteriorAt(1, 1, 3, 3);
    assert Interior(4, 3, 3);
    assert Stencil(Zeros(9), f, 4, 3, 3) == 1.0;
    assert Jacobi(Zeros(9), f, 3, 3)[4] == 1.0;
  }
}
