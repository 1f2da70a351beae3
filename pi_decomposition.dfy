/**
 * The MPI + SYCL midpoint-rule estimate of pi: the indices 1..n are split
 * into one contiguous block per rank, the lowest ranks taking one index
 * more when n does not divide evenly; each rank sums 1/(1 + x^2) at the
 * midpoints x = (k - 0.5)/n of its block, and rank 0 adds the other ranks'
 * sums, in whatever order they arrive, to its own and scales by 4/n.
 */
module PiDecomposition {

  /** The number of intervals, a compile-time constant of the program. */
  const Intervals: nat := 840

  function ChunkSize(n: nat, ntasks: nat): (c: nat)
    requires ntasks >= 1
    ensures c * ntasks <= n < (c + 1) * ntasks
  {
    n / ntasks
  }

  function Remainder(n: nat, ntasks: nat): (rem: nat)
    requires ntasks >= 1
    ensures rem < ntasks && ChunkSize(n, ntasks) * ntasks + rem == n
  {
    n % ntasks
  }

  /** The first index of rank r's block, with the uneven-division correction. */
  function IStart(n: nat, ntasks: nat, r: nat): int
    requires ntasks >= 1
  {
    var c, rem := ChunkSize(n, ntasks), Remainder(n, ntasks);
    var istart := r * c + 1;
    if rem > 0 then
      if r < rem then istart + r else istart + rem
    else istart
  }

  /** The last index of rank r's block. */
  function IStop(n: nat, ntasks: nat, r: nat): int
    requires ntasks >= 1
  {
    var c, rem := ChunkSize(n, ntasks), Remainder(n, ntasks);
    var istop := (r + 1) * c;
    if rem > 0 then
      if r < rem then istop + r + 1 else istop + rem
    else istop
  }

  /** The number of indices rank r works on: the kernel's range. */
  function MyN(n: nat, ntasks: nat, r: nat): int
    requires ntasks >= 1
  {
    IStop(n, ntasks, r) - IStart(n, ntasks, r) + 1
  }

  function Min(a: int, b: int): int
  {
    if a <= b then a else b
  }

  /** Both ends in closed form: every rank before r adds one index per remainder rank it outranks. */
  lemma ClosedForm(n: nat, ntasks: nat, r: nat)
    requires ntasks >= 1
    ensures IStart(n, ntasks, r) == r * ChunkSize(n, ntasks) + 1 + Min(r, Remainder(n, ntasks))
    ensures IStop(n, ntasks, r) == (r + 1) * ChunkSize(n, ntasks) + Min(r + 1, Remainder(n, ntasks))
  {
  }

  /** Rank r's block holds chunksize + 1 indices when r < remainder and chunksize otherwise. */
  lemma BlockSize(n: nat, ntasks: nat, r: nat)
    requires ntasks >= 1
    ensures MyN(n, ntasks, r) == if r < Remainder(n, ntasks) then ChunkSize(n, ntasks) + 1 else ChunkSize(n, ntasks)
    ensures MyN(n, ntasks, r) >= 0
  {
    ClosedForm(n, ntasks, r);
  }

  /** When there are more ranks than indices, the surplus ranks get empty blocks. */
  lemma SurplusRanksIdle(n: nat, ntasks: nat, r: nat)
    requires n < ntasks && n <= r < ntasks
    ensures MyN(n, ntasks, r) == 0
  {
    BlockSize(n, ntasks, r);
  }

  /** The first block starts at 1 and the last one stops at n. */
  lemma Ends(n: nat, ntasks: nat)
    requires ntasks >= 1
    ensures IStart(n, ntasks, 0) == 1
    ensures IStop(n, ntasks, ntasks - 1) == n
  {
    ClosedForm(n, ntasks, ntasks - 1);
  }

  /** Each block starts right after the previous one stops. */
  lemma Contiguous(n: nat, ntasks: nat, r: nat)
    requires ntasks >= 1
    ensures IStop(n, ntasks, r) + 1 == IStart(n, ntasks, r + 1)
  {
    ClosedForm(n, ntasks, r);
    ClosedForm(n, ntasks, r + 1);
  }

  /** A later rank's block lies wholly after an earlier rank's. */
  lemma {:induction false} Ordered(n: nat, ntasks: nat, r1: nat, r2: nat)
    requires ntasks >= 1 && r1 < r2
    ensures IStop(n, ntasks, r1) < IStart(n, ntasks, r2)
    decreases r2
  {
    Contiguous(n, ntasks, r2 - 1);
    if r1 < r2 - 1 {
      Ordered(n, ntasks, r1, r2 - 1);
      BlockSize(n, ntasks, r2 - 1);
    }
  }

  predicate InBlock(n: nat, ntasks: nat, r: nat, k: int)
    requires ntasks >= 1
  {
    IStart(n, ntasks, r) <= k <= IStop(n, ntasks, r)
  }

  /** No index lies in two ranks' blocks. */
  lemma Disjoint(n: nat, ntasks: nat, r1: nat, r2: nat, k: int)
    requires ntasks >= 1 && r1 != r2
    ensures !(InBlock(n, ntasks, r1, k) && InBlock(n, ntasks, r2, k))
  {
    if r1 < r2 {
      Ordered(n, ntasks, r1, r2);
    } else {
      Ordered(n, ntasks, r2, r1);
    }
  }

  /** The blocks of ranks 0..t-1 together cover 1..IStop(t-1). */
  lemma {:induction false} CoveredUpTo(n: nat, ntasks: nat, t: nat, k: int)
    requires ntasks >= 1 && 1 <= t && 1 <= k <= IStop(n, ntasks, t - 1)
    ensures exists r :: 0 <= r < t && InBlock(n, ntasks, r, k)
  {
    if k >= IStart(n, ntasks, t - 1) {
      assert InBlock(n, ntasks, t - 1, k);
    } else if t == 1 {
      Ends(n, ntasks);
    } else {
      Contiguous(n, ntasks, t - 2);
      CoveredUpTo(n, ntasks, t - 1, k);
    }
  }

  /** Every index of 1..n belongs to exactly one rank, and no other index to any rank. */
  lemma Partition(n: nat, ntasks: nat, k: int)
    requires ntasks >= 1
    ensures 1 <= k <= n <==> exists r :: 0 <= r < ntasks && InBlock(n, ntasks, r, k)
    ensures forall r1, r2 :: 0 <= r1 < ntasks && 0 <= r2 < ntasks && InBlock(n, ntasks, r1, k) && InBlock(n, ntasks, r2, k) ==> r1 == r2
  {
    Ends(n, ntasks);
    if 1 <= k <= n {
      CoveredUpTo(n, ntasks, ntasks, k);
    }
    if r :| 0 <= r < ntasks && InBlock(n, ntasks, r, k) {
      if r > 0 {
        Ordered(n, ntasks, 0, r);
        BlockSize(n, ntasks, 0);
      }
      if r < ntasks - 1 {
        Ordered(n, ntasks, r, ntasks - 1);
        BlockSize(n, ntasks, ntasks - 1);
      }
    }
    forall r1, r2 | 0 <= r1 < ntasks && 0 <= r2 < ntasks && InBlock(n, ntasks, r1, k) && InBlock(n, ntasks, r2, k)
      ensures r1 == r2
    {
      if r1 != r2 {
        Disjoint(n, ntasks, r1, r2, k);
      }
    }
  }

  /** The global index the kernel's work item idx handles. */
  function Visited(n: nat, ntasks: nat, r: nat, idx: nat): (k: int)
    requires ntasks >= 1
  {
    idx + IStart(n, ntasks, r)
  }

  /** Work items 0..myn-1 visit the indices of rank r's block, each exactly once. */
  lemma VisitsBlock(n: nat, ntasks: nat, r: nat)
    requires ntasks >= 1
    ensures forall idx: nat :: idx < MyN(n, ntasks, r) ==> InBlock(n, ntasks, r, Visited(n, ntasks, r, idx))
    ensures forall k :: InBlock(n, ntasks, r, k) ==> exists idx: nat :: idx < MyN(n, ntasks, r) && Visited(n, ntasks, r, idx) == k
    ensures forall i1: nat, i2: nat :: Visited(n, ntasks, r, i1) == Visited(n, ntasks, r, i2) ==> i1 == i2
  {
    forall k | InBlock(n, ntasks, r, k)
      ensures exists idx: nat :: idx < MyN(n, ntasks, r) && Visited(n, ntasks, r, idx) == k
    {
      var idx: nat := k - IStart(n, ntasks, r);
      assert Visited(n, ntasks, r, idx) == k;
    }
  }

  /** The integrand 1/(1 + x^2) at the midpoint x = (k - 0.5)/n. */
  function Term(n: nat, k: int): (t: real)
    requires n >= 1
    ensures 0.0 < t <= 1.0
  {
    var x := (k as real - 0.5) / n as real;
    assert x * x >= 0.0;
    1.0 / (1.0 + x * x)
  }

  /** The sum of Term over lo..hi-1, hi excluded. */
  function SumRange(n: nat, lo: int, hi: int): (s: real)
    requires n >= 1
    ensures s >= 0.0
    decreases hi - lo
  {
    if hi <= lo then 0.0 else SumRange(n, lo, hi - 1) + Term(n, hi - 1)
  }

  lemma {:induction false} SumRangeSplit(n: nat, lo: int, mid: int, hi: int)
    requires n >= 1 && lo <= mid <= hi
    ensures SumRange(n, lo, mid) + SumRange(n, mid, hi) == SumRange(n, lo, hi)
    decreases hi - mid
  {
    if mid < hi {
      SumRangeSplit(n, lo, mid, hi - 1);
    }
  }

  /** What rank r's kernel reduces into localpi. */
  function LocalSum(n: nat, ntasks: nat, r: nat): real
    requires n >= 1 && ntasks >= 1
  {
    SumRange(n, IStart(n, ntasks, r), IStop(n, ntasks, r) + 1)
  }

  /** The kernel's reduction on rank r, starting from localpi = 0. */
  method LocalPi(n: nat, ntasks: nat, r: nat) returns (localpi: real)
    requires n >= 1 && ntasks >= 1
    ensures localpi == LocalSum(n, ntasks, r)
  {
    var istart := IStart(n, ntasks, r);
    var myn := MyN(n, ntasks, r);
    BlockSize(n, ntasks, r);
    localpi := 0.0;
    var idx := 0;
    while idx < myn
      invariant 0 <= idx <= myn
      invariant localpi == SumRange(n, istart, istart + idx)
    {
      localpi := localpi + Term(n, idx + istart);
      idx := idx + 1;
    }
  }

  function Sum(s: seq<real>): real
  {
    if s == [] then 0.0 else s[0] + Sum(s[1..])
  }

  lemma {:induction false} SumConcat(a: seq<real>, b: seq<real>)
    ensures Sum(a + b) == Sum(a) + Sum(b)
  {
    if a != [] {
      assert (a + b)[0] == a[0];
      assert (a + b)[1..] == a[1..] + b;
      SumConcat(a[1..], b);
    } else {
      assert a + b == b;
    }
  }

  /** Taking element i out of t takes t[i] out of its sum. */
  lemma SumRemove(t: seq<real>, i: nat)
    requires i < |t|
    ensures Sum(t) == t[i] + Sum(t[..i] + t[i + 1..])
  {
    var front, back := t[..i], t[i + 1..];
    assert t[i..][1..] == back;
    assert Sum(t[i..]) == t[i] + Sum(back);
    assert t == front + t[i..];
    SumConcat(front, t[i..]);
    SumConcat(front, back);
  }

  /** Taking element i out of t takes t[i] out of its multiset. */
  lemma MultisetRemove(t: seq<real>, i: nat)
    requires i < |t|
    ensures multiset(t[..i] + t[i + 1..]) == multiset(t) - multiset{t[i]}
  {
    assert t == t[..i] + [t[i]] + t[i + 1..];
  }

  /** The order in which the partial sums arrive does not change their total. */
  lemma {:induction false} SumPermutation(s: seq<real>, t: seq<real>)
    requires multiset(s) == multiset(t)
    ensures Sum(s) == Sum(t)
    decreases |s|
  {
    if s != [] {
      assert s[0] in multiset(t);
      var i :| 0 <= i < |t| && t[i] == s[0];
      SumRemove(t, i);
      MultisetRemove(t, i);
      MultisetRemove(s, 0);
      SumPermutation(s[1..], t[..i] + t[i + 1..]);
    }
  }

  /** Every rank's partial sum, in rank order. */
  function PartialSums(n: nat, ntasks: nat): (ps: seq<real>)
    requires n >= 1 && ntasks >= 1
    ensures |ps| == ntasks && forall r :: 0 <= r < ntasks ==> ps[r] == LocalSum(n, ntasks, r)
  {
    seq(ntasks, r requires 0 <= r < ntasks => LocalSum(n, ntasks, r))
  }

  /** The blocks of ranks 0..t-1 together sum Term over 1..IStop(t-1). */
  lemma {:induction false} PrefixSums(n: nat, ntasks: nat, t: nat)
    requires n >= 1 && 1 <= t <= ntasks
    ensures Sum(PartialSums(n, ntasks)[..t]) == SumRange(n, 1, IStop(n, ntasks, t - 1) + 1)
  {
    var ps := PartialSums(n, ntasks);
    if t == 1 {
      Ends(n, ntasks);
      assert ps[..1] == [ps[0]];
    } else {
      PrefixSums(n, ntasks, t - 1);
      assert ps[..t] == ps[..t - 1] + [ps[t - 1]];
      SumConcat(ps[..t - 1], [ps[t - 1]]);
      Contiguous(n, ntasks, t - 2);
      Ordered(n, ntasks, 0, t - 1);
      Ends(n, ntasks);
      BlockSize(n, ntasks, t - 1);
      SumRangeSplit(n, 1, IStart(n, ntasks, t - 1), IStop(n, ntasks, t - 1) + 1);
    }
  }

  /** Over all ranks, the partial sums add up to the midpoint sum over 1..n. */
  lemma AllPartialSums(n: nat, ntasks: nat)
    requires n >= 1 && ntasks >= 1
    ensures Sum(PartialSums(n, ntasks)) == SumRange(n, 1, n + 1)
  {
    PrefixSums(n, ntasks, ntasks);
    Ends(n, ntasks);
    assert PartialSums(n, ntasks)[..ntasks] == PartialSums(n, ntasks);
  }

  /** The final scaling of the sum by 4/n. */
  function Scaled(n: nat, s: real): real
    requires n >= 1
  {
    s * (4.0 / n as real)
  }

  /**
   * Rank 0's reduction: its own partial sum plus ntasks - 1 received ones,
   * in arrival order, then the scaling by 4/n.
   */
  method Rank0Reduce(n: nat, own: real, received: seq<real>) returns (pi: real)
    requires n >= 1
    ensures pi == Scaled(n, own + Sum(received))
  {
    pi := own;
    var i := 0;
    while i < |received|
      invariant 0 <= i <= |received|
      invariant pi + Sum(received[i..]) == own + Sum(received)
    {
      assert received[i..] == [received[i]] + received[i + 1..];
      pi := pi + received[i];
      i := i + 1;
    }
    pi := Scaled(n, pi);
  }

  /**
   * Whatever order the other ranks' sums arrive in, rank 0's own sum and the
   * received ones add up to the midpoint sum over 1..n, for any number of ranks.
   */
  lemma PiEstimate(n: nat, ntasks: nat, received: seq<real>)
    requires n >= 1 && ntasks >= 1
    requires multiset(received) == multiset(PartialSums(n, ntasks)[1..])
    ensures LocalSum(n, ntasks, 0) + Sum(received) == SumRange(n, 1, n + 1)
    ensures |received| == ntasks - 1
  {
    var ps := PartialSums(n, ntasks);
    assert |multiset(received)| == |multiset(ps[1..])|;
    SumPermutation(received, ps[1..]);
    assert ps == [ps[0]] + ps[1..];
    AllPartialSums(n, ntasks);
  }

  /**
   * The whole program, for any n (the program fixes Intervals = 840), on ntasks ranks: rank 0's kernel, then its reduction
   * over the other ranks' sums as MPI delivers them, in any order.
   */
  method RunPi(n: nat, ntasks: nat, received: seq<real>) returns (pi: real)
    requires n >= 1 && ntasks >= 1
    requires multiset(received) == multiset(PartialSums(n, ntasks)[1..])
    ensures pi == Scaled(n, SumRange(n, 1, n + 1))
  {
    var own := LocalPi(n, ntasks, 0);
    pi := Rank0Reduce(n, own, received);
    PiEstimate(n, ntasks, received);
  }
}
