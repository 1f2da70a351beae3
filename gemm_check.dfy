/**
 * The SYCL/BLAS interoperability GEMM program: four N x N row-major
 * matrices are initialised with running counters, a naive SYCL kernel
 * multiplies a by b as a warm-up, the matrices are initialised again, a
 * library GEMM (oneMKL or cuBLAS, both column-major) computes the product
 * on the device, and a CPU triple loop recomputes it and compares.
 */
module GemmCheck {
  import opened Grid

  /** The defaults of -n and -m. */
  const DefaultSize: nat := 1024
  const DefaultGroupSize: nat := 32

  /** Values counting up from start, one per element: the effect of v1++ in row-major order. */
  function Ramp(len: nat, start: real): (s: seq<real>)
    ensures |s| == len && forall k :: 0 <= k < len ==> s[k] == start + k as real
  {
    seq(len, k => start + k as real)
  }

  /** The initialisation loops: a counts up from 2, b from 3, c and d are zero. */
  method InitMatrices(a: array<real>, b: array<real>, c: array<real>, d: array<real>, N: nat)
    requires a.Length == N * N && b.Length == N * N && c.Length == N * N && d.Length == N * N
    requires a != b && a != c && a != d && b != c && b != d && c != d
    modifies a, b, c, d
    ensures a[..] == Ramp(N * N, 2.0) && b[..] == Ramp(N * N, 3.0)
    ensures c[..] == Zeros(N * N) && d[..] == Zeros(N * N)
  {
    var v1, v2 := 2.0, 3.0;
    var i := 0;
    while i < N
      invariant 0 <= i <= N && i * N <= N * N
      invariant v1 == 2.0 + (i * N) as real && v2 == 3.0 + (i * N) as real
      invariant forall k :: 0 <= k < i * N ==> a[k] == 2.0 + k as real && b[k] == 3.0 + k as real && c[k] == 0.0 && d[k] == 0.0
    {
      ghost var pos := i * N;
      var j := 0;
      while j < N
        invariant 0 <= j <= N && pos + j <= N * N
        invariant v1 == 2.0 + (pos + j) as real && v2 == 3.0 + (pos + j) as real
        invariant forall k :: 0 <= k < pos + j ==> a[k] == 2.0 + k as real && b[k] == 3.0 + k as real && c[k] == 0.0 && d[k] == 0.0
      {
        FlatIndexInRange(i, j, N, N);
        a[i * N + j] := v1;
        v1 := v1 + 1.0;
        b[i * N + j] := v2;
        v2 := v2 + 1.0;
        c[i * N + j] := 0.0;
        d[i * N + j] := 0.0;
        j := j + 1;
      }
      NextRowStart(i, N);
      i := i + 1;
    }
  }

  /** Term l of row i of A times column j of B, both row-major. */
  function Term(A: seq<real>, B: seq<real>, N: nat, i: nat, j: nat, l: nat): real
    requires |A| == N * N && |B| == N * N && i < N && j < N && l < N
  {
    FlatIndexInRange(i, l, N, N);
    FlatIndexInRange(l, j, N, N);
    A[i * N + l] * B[l * N + j]
  }

  /** Row i of A times column j of B, over the first k terms. */
  function RowCol(A: seq<real>, B: seq<real>, N: nat, i: nat, j: nat, k: nat): real
    requires |A| == N * N && |B| == N * N && i < N && j < N && k <= N
  {
    if k == 0 then 0.0 else RowCol(A, B, N, i, j, k - 1) + Term(A, B, N, i, j, k - 1)
  }

  /** The row-major product A B. */
  function Product(A: seq<real>, B: seq<real>, N: nat): (P: seq<real>)
    requires |A| == N * N && |B| == N * N
    ensures |P| == N * N
  {
    seq(N * N, t requires 0 <= t < N * N => FlatIndexSplit(t, N, N); RowCol(A, B, N, t / N, t % N, N))
  }

  lemma ProductAt(A: seq<real>, B: seq<real>, N: nat, i: nat, j: nat)
    requires |A| == N * N && |B| == N * N && i < N && j < N
    ensures 0 <= i * N + j < N * N
    ensures Product(A, B, N)[i * N + j] == RowCol(A, B, N, i, j, N)
  {
    FlatIndexInRange(i, j, N, N);
    FlatIndexInverse(i, j, N);
  }

  /** One work item of the warm-up kernel: the private accumulator temp over k = 0..N-1. */
  method KernelEntry(A: array<real>, B: array<real>, N: nat, i: nat, j: nat) returns (temp: real)
    requires A.Length == N * N && B.Length == N * N && i < N && j < N
    ensures temp == RowCol(A[..], B[..], N, i, j, N)
  {
    temp := 0.0;
    var k := 0;
    while k < N
      invariant 0 <= k <= N
      invariant temp == RowCol(A[..], B[..], N, i, j, k)
    {
      FlatIndexInRange(i, k, N, N);
      FlatIndexInRange(k, j, N, N);
      assert A[i * N + k] * B[k * N + j] == Term(A[..], B[..], N, i, j, k);
      temp := temp + A[i * N + k] * B[k * N + j];
      k := k + 1;
    }
  }

  /**
   * The warm-up kernel: every work item (i, j) of the N x N range stores its
   * accumulator in C[i*N+j].  The items are independent, so they run here
   * one after the other.
   */
  method WarmUp(A: array<real>, B: array<real>, C: array<real>, N: nat)
    requires A.Length == N * N && B.Length == N * N && C.Length == N * N
    requires C != A && C != B
    modifies C
    ensures C[..] == Product(A[..], B[..], N)
  {
    ghost var P := Product(A[..], B[..], N);
    var i := 0;
    while i < N
      invariant 0 <= i <= N && i * N <= N * N
      invariant forall t :: 0 <= t < i * N ==> C[t] == P[t]
    {
      ghost var pos := i * N;
      var j := 0;
      while j < N
        invariant 0 <= j <= N && pos + j <= N * N
        invariant forall t :: 0 <= t < pos + j ==> C[t] == P[t]
      {
        var temp := KernelEntry(A, B, N, i, j);
        ProductAt(A[..], B[..], N, i, j);
        C[i * N + j] := temp;
        j := j + 1;
      }
      NextRowStart(i, N);
      i := i + 1;
    }
    assert C[..] == P;
  }

  /** Elementwise sum of two matrices. */
  function Plus(S: seq<real>, T: seq<real>): (R: seq<real>)
    requires |S| == |T|
    ensures |R| == |S| && forall t :: 0 <= t < |S| ==> R[t] == S[t] + T[t]
  {
    seq(|S|, t requires 0 <= t < |S| => S[t] + T[t])
  }

  /** The innermost loop: d[i*N+j] += a[i*N+k] * b[k*N+j] for k = 0..N-1. */
  method AccumulateEntry(a: array<real>, b: array<real>, d: array<real>, N: nat, i: nat, j: nat)
    requires a.Length == N * N && b.Length == N * N && d.Length == N * N && i < N && j < N
    requires d != a && d != b
    modifies d
    ensures 0 <= i * N + j < N * N
    ensures d[i * N + j] == old(d[i * N + j]) + RowCol(a[..], b[..], N, i, j, N)
    ensures forall t :: 0 <= t < N * N && t != i * N + j ==> d[t] == old(d[t])
  {
    ghost var A, B := a[..], b[..];
    FlatIndexInRange(i, j, N, N);
    var pos := i * N + j;
    ghost var start := d[pos];
    var k := 0;
    while k < N
      invariant 0 <= k <= N
      invariant d[pos] == start + RowCol(A, B, N, i, j, k)
      invariant forall t :: 0 <= t < N * N && t != pos ==> d[t] == old(d[t])
    {
      FlatIndexInRange(i, k, N, N);
      FlatIndexInRange(k, j, N, N);
      assert a[i * N + k] * b[k * N + j] == Term(A, B, N, i, j, k);
      d[pos] := d[pos] + a[i * N + k] * b[k * N + j];
      k := k + 1;
    }
  }

  /** Some entry before hi differs between C and T. */
  predicate Differs(C: seq<real>, T: seq<real>, hi: nat)
    requires hi <= |C| && hi <= |T|
  {
    exists t :: 0 <= t < hi && C[t] != T[t]
  }

  lemma DiffersNext(C: seq<real>, T: seq<real>, hi: nat)
    requires hi < |C| && hi < |T|
    ensures Differs(C, T, hi + 1) <==> Differs(C, T, hi) || C[hi] != T[hi]
  {
  }

  /**
   * One step of the VERIFY loop: entry p = i*N+j is accumulated and compared.
   * Entries before p are finished (they hold Target), the rest still hold D0,
   * and failIn records a mismatch among the finished entries.
   */
  method VerifyEntry(a: array<real>, b: array<real>, c: array<real>, d: array<real>, N: nat, i: nat, j: nat,
                     failIn: bool, ghost Target: seq<real>, ghost D0: seq<real>) returns (fail: bool)
    requires a.Length == N * N && b.Length == N * N && c.Length == N * N && d.Length == N * N
    requires d != a && d != b && d != c && i < N && j < N && i * N + j < N * N
    requires |D0| == N * N && Target == Plus(D0, Product(a[..], b[..], N))
    requires forall t :: 0 <= t < i * N + j ==> d[t] == Target[t]
    requires forall t :: i * N + j <= t < N * N ==> d[t] == D0[t]
    requires failIn <==> Differs(c[..], Target, i * N + j)
    modifies d
    ensures forall t :: 0 <= t < i * N + j + 1 ==> d[t] == Target[t]
    ensures forall t :: i * N + j + 1 <= t < N * N ==> d[t] == D0[t]
    ensures fail <==> Differs(c[..], Target, i * N + j + 1)
  {
    ghost var A, B, C := a[..], b[..], c[..];
    ghost var p := i * N + j;
    AccumulateEntry(a, b, d, N, i, j);
    assert a[..] == A && b[..] == B && c[..] == C;
    ProductAt(A, B, N, i, j);
    assert d[p] == Target[p];
    DiffersNext(C, Target, p);
    fail := failIn || c[i * N + j] != d[i * N + j];
  }

  /** Row i of the VERIFY loop: the j loop, with its comparisons. */
  method VerifyRow(a: array<real>, b: array<real>, c: array<real>, d: array<real>, N: nat, i: nat, failIn: bool,
                   ghost Target: seq<real>, ghost D0: seq<real>) returns (fail: bool)
    requires a.Length == N * N && b.Length == N * N && c.Length == N * N && d.Length == N * N
    requires d != a && d != b && d != c && i < N && i * N <= N * N
    requires |D0| == N * N && Target == Plus(D0, Product(a[..], b[..], N))
    requires forall t :: 0 <= t < i * N ==> d[t] == Target[t]
    requires forall t :: i * N <= t < N * N ==> d[t] == D0[t]
    requires failIn <==> Differs(c[..], Target, i * N)
    modifies d
    ensures i * N + N <= N * N
    ensures forall t :: 0 <= t < i * N + N ==> d[t] == Target[t]
    ensures forall t :: i * N + N <= t < N * N ==> d[t] == D0[t]
    ensures fail <==> Differs(c[..], Target, i * N + N)
  {
    FlatIndexInRange(i, N - 1, N, N);
    ghost var pos := i * N;
    fail := failIn;
    var j := 0;
    while j < N
      invariant 0 <= j <= N && pos + j <= N * N
      invariant forall t :: 0 <= t < pos + j ==> d[t] == Target[t]
      invariant forall t :: pos + j <= t < N * N ==> d[t] == D0[t]
      invariant fail <==> Differs(c[..], Target, pos + j)
      invariant Target == Plus(D0, Product(a[..], b[..], N))
    {
      FlatIndexInRange(i, j, N, N);
      fail := VerifyEntry(a, b, c, d, N, i, j, fail, Target, D0);
      j := j + 1;
    }
  }

  /**
   * The VERIFY loop: d[i*N+j] accumulates row i of a times column j of b
   * on top of what it held, and fail is set when the finished d entry
   * differs from c.
   */
  method VerifyLoop(a: array<real>, b: array<real>, c: array<real>, d: array<real>, N: nat) returns (fail: bool)
    requires a.Length == N * N && b.Length == N * N && c.Length == N * N && d.Length == N * N
    requires d != a && d != b && d != c
    modifies d
    ensures d[..] == Plus(old(d[..]), Product(a[..], b[..], N))
    ensures fail <==> exists t :: 0 <= t < N * N && c[t] != d[t]
  {
    ghost var Target := Plus(d[..], Product(a[..], b[..], N));
    ghost var D0 := d[..];
    fail := false;
    var i := 0;
    while i < N
      invariant 0 <= i <= N && i * N <= N * N
      invariant forall t :: 0 <= t < i * N ==> d[t] == Target[t]
      invariant forall t :: i * N <= t < N * N ==> d[t] == D0[t]
      invariant fail <==> Differs(c[..], Target, i * N)
    {
      fail := VerifyRow(a, b, c, d, N, i, fail, Target, D0);
      NextRowStart(i, N);
      i := i + 1;
    }
    assert d[..] == Target;
  }

  /** Term l of entry (i, j) of the product of two column-major matrices: A[i + l*N] * B[l + j*N]. */
  function ColTerm(A: seq<real>, B: seq<real>, N: nat, i: nat, j: nat, l: nat): real
    requires |A| == N * N && |B| == N * N && i < N && j < N && l < N
  {
    FlatIndexInRange(l, i, N, N);
    FlatIndexInRange(j, l, N, N);
    A[i + l * N] * B[l + j * N]
  }

  /** Entry (i, j) of the product of two column-major matrices, over the first k terms. */
  function ColSum(A: seq<real>, B: seq<real>, N: nat, i: nat, j: nat, k: nat): real
    requires |A| == N * N && |B| == N * N && i < N && j < N && k <= N
  {
    if k == 0 then 0.0 else ColSum(A, B, N, i, j, k - 1) + ColTerm(A, B, N, i, j, k - 1)
  }

  /** Passing b before a to a column-major GEMM computes the row-major a b, term by term. */
  lemma {:induction false} SwappedColSum(a: seq<real>, b: seq<real>, N: nat, r: nat, s: nat, k: nat)
    requires |a| == N * N && |b| == N * N && r < N && s < N && k <= N
    ensures ColSum(b, a, N, s, r, k) == RowCol(a, b, N, r, s, k)
  {
    if k > 0 {
      SwappedColSum(a, b, N, r, s, k - 1);
      assert ColTerm(b, a, N, s, r, k - 1) == Term(a, b, N, r, s, k - 1);
    }
  }

  /**
   * The library GEMM with no transposes, leading dimensions N: in
   * column-major storage, C = alpha A B + beta C0, entry (i, j) at i + j*N.
   */
  function LibraryGemm(A: seq<real>, B: seq<real>, C0: seq<real>, N: nat, alpha: real, beta: real): (C: seq<real>)
    requires |A| == N * N && |B| == N * N && |C0| == N * N
    ensures |C| == N * N
  {
    seq(N * N, t requires 0 <= t < N * N => FlatIndexSplit(t, N, N); alpha * ColSum(A, B, N, t % N, t / N, N) + beta * C0[t])
  }

  /** With alpha = beta = 1 and operands b, a, the library leaves the row-major a b plus the old C. */
  lemma LibraryGemmIsProduct(a: seq<real>, b: seq<real>, C0: seq<real>, N: nat)
    requires |a| == N * N && |b| == N * N && |C0| == N * N
    ensures LibraryGemm(b, a, C0, N, 1.0, 1.0) == Plus(Product(a, b, N), C0)
  {
    var L, R := LibraryGemm(b, a, C0, N, 1.0, 1.0), Plus(Product(a, b, N), C0);
    forall t | 0 <= t < N * N
      ensures L[t] == R[t]
    {
      FlatIndexSplit(t, N, N);
      var r, s := t / N, t % N;
      SwappedColSum(a, b, N, r, s, N);
      ProductAt(a, b, N, r, s);
    }
  }

  /** q.memcpy into a host array. */
  method CopyInto(dst: array<real>, src: seq<real>)
    requires dst.Length == |src|
    modifies dst
    ensures dst[..] == src
  {
    forall t | 0 <= t < dst.Length {
      dst[t] := src[t];
    }
  }

  /** Allocation, the first initialisation, the warm-up kernel and the second initialisation. */
  method Prepare(N: nat) returns (a: array<real>, b: array<real>, c: array<real>, d: array<real>)
    ensures fresh(a) && fresh(b) && fresh(c) && fresh(d)
    ensures a != b && a != c && a != d && b != c && b != d && c != d
    ensures a[..] == Ramp(N * N, 2.0) && b[..] == Ramp(N * N, 3.0)
    ensures c[..] == Zeros(N * N) && d[..] == Zeros(N * N)
  {
    a := new real[N * N];
    b := new real[N * N];
    c := new real[N * N];
    d := new real[N * N];
    InitMatrices(a, b, c, d, N);
    WarmUp(a, b, c, N);
    InitMatrices(a, b, c, d, N);
  }

  /**
   * The program with -v: initialise, warm up, initialise again, run the
   * library GEMM on device copies of a and b into dev_c, copy dev_c back
   * into c, run the VERIFY loop.  dev_c comes from malloc_device and is
   * never written before the GEMM reads it with beta = 1: its contents are
   * the parameter deviceC.  With copyDeviceC, the zeroed c is copied into
   * dev_c first.  first is the printed c[0].
   */
  method RunGemm(N: nat, deviceC: seq<real>, copyDeviceC: bool) returns (first: real, fail: bool)
    requires 1 <= N && |deviceC| == N * N
    ensures first == Product(Ramp(N * N, 2.0), Ramp(N * N, 3.0), N)[0] + (if copyDeviceC then 0.0 else deviceC[0])
    ensures fail <==> !copyDeviceC && exists t :: 0 <= t < N * N && deviceC[t] != 0.0
  {
    var a, b, c, d := Prepare(N);
    var devC := if copyDeviceC then c[..] else deviceC;
    var result := LibraryGemm(b[..], a[..], devC, N, 1.0, 1.0);
    ghost var P := Product(a[..], b[..], N);
    LibraryGemmIsProduct(a[..], b[..], devC, N);
    CopyInto(c, result);
    MulMonotone(1, N, N);
    first := c[0];
    fail := VerifyLoop(a, b, c, d, N);
    assert d[..] == P;
    forall t | 0 <= t < N * N
      ensures c[t] != d[t] <==> devC[t] != 0.0
    {
      assert c[t] == result[t];
    }
  }

  /**
   * The corrected program: c, zeroed by the second initialisation, is copied
   * into dev_c before the library GEMM, so dev_c holds the product a b and
   * the VERIFY loop prints PASS.
   */
  method RunGemmCopyingC(N: nat) returns (first: real, fail: bool)
    requires 1 <= N
    ensures first == Product(Ramp(N * N, 2.0), Ramp(N * N, 3.0), N)[0]
    ensures !fail
  {
    first, fail := RunGemm(N, Zeros(N * N), true);
  }
}
