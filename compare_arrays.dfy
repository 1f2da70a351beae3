/**
 * openmp/compare.py: read_array decodes a file written in the checkpoint
 * layout into an n x n grid, and the script prints the largest absolute
 * value of each grid and the largest absolute difference between them.
 * A numpy exception (an empty read, a failed assertion, a reshape of the
 * wrong size, a maximum over nothing, shapes that do not broadcast) is an
 * error result here.
 */
module CompareArrays {
  import opened Grid
  import opened Wrappers
  import opened CheckpointFormat
  import PoissonKokkos

  /** int(np.sqrt(count)), taken as the exact integer square root. */
  function Isqrt(c: nat): (r: nat)
    ensures r * r <= c < (r + 1) * (r + 1)
  {
    if c == 0 then 0
    else
      var s := Isqrt(c - 1);
      if (s + 1) * (s + 1) <= c then s + 1 else s
  }

  /** The integer square root is the only r with r*r <= c < (r+1)*(r+1). */
  lemma IsqrtUnique(c: nat, r: nat)
    requires r * r <= c < (r + 1) * (r + 1)
    ensures Isqrt(c) == r
  {
    var s := Isqrt(c);
    if s < r {
      MulMonotone(s + 1, r, s + 1);
      MulMonotone(s + 1, r, r);
    } else if s > r {
      MulMonotone(r + 1, s, r + 1);
      MulMonotone(r + 1, s, s);
    }
  }

  /** count is n*n for the n read_array computes. */
  predicate IsSquare(c: nat)
  {
    Isqrt(c) * Isqrt(c) == c
  }

  lemma IsqrtOfSquare(n: nat)
    ensures Isqrt(n * n) == n && IsSquare(n * n)
  {
    assert (n + 1) * (n + 1) == n * n + 2 * n + 1;
    IsqrtUnique(n * n, n);
  }

  /** Row r of the reshape: flat[r*n .. r*n + n]. */
  function RowOf<T>(flat: seq<T>, n: nat, r: nat): (row: seq<T>)
    requires |flat| == n * n && r < n
    ensures |row| == n && forall c :: 0 <= c < n ==> r * n + c < |flat| && row[c] == flat[r * n + c]
  {
    MulMonotone(r + 1, n, n);
    NextRowStart(r, n);
    flat[r * n .. r * n + n]
  }

  /** array.reshape(n, n): element (r, c) is flat[r*n + c]. */
  function Reshape<T>(flat: seq<T>, n: nat): (g: seq<seq<T>>)
    requires |flat| == n * n
    ensures IsPlane(g, n, n)
  {
    seq(n, r requires 0 <= r < n => RowOf(flat, n, r))
  }

  /** Element (r, c) of the reshape is flat[r*n + c]. */
  lemma ReshapeCell<T>(flat: seq<T>, n: nat, r: int, c: int)
    requires |flat| == n * n && 0 <= r < n && 0 <= c < n
    ensures r * n + c < |flat| && Reshape(flat, n)[r][c] == flat[r * n + c]
  {
    FlatIndexInRange(r, c, n, n);
    var row := Reshape(flat, n)[r];
    assert row == RowOf(flat, n, r);
  }

  /** Reshaping the row-major layout of a square grid gives the grid back. */
  lemma ReshapeFlatten<T>(g: seq<seq<T>>, n: nat)
    requires IsPlane(g, n, n)
    ensures |Flatten(g)| == n * n && Reshape(Flatten(g), n) == g
  {
    FlattenAt(g, n, n);
    var h := Reshape(Flatten(g), n);
    forall r, c | 0 <= r < n && 0 <= c < n
      ensures h[r][c] == g[r][c]
    {
      ReshapeCell(Flatten(g), n, r, c);
    }
    SamePlane(h, g, n, n);
  }

  /** Why read_array fails. */
  datatype ReadError =
    | NoCount                                  // np.fromfile(count=1)[0] on an empty read
    | NotSquare(count: nat)                    // assert n**2 == count
    | ShortData(count: nat, found: nat)        // array.reshape(n, n) of fewer than n*n values

  /**
   * read_array: the count header, then up to count doubles, then the square
   * check and the reshape.  value maps a 64-bit pattern to the double it
   * denotes.
   */
  function ReadArray<T>(bs: seq<byte>, value: Word -> T): (r: Result<seq<seq<T>>, ReadError>)
    ensures r == Err(NoCount) <==> |bs| < 8
    ensures r.Ok? ==> IsPlane(r.value, |r.value|, |r.value|)
    ensures r.Ok? ==> |bs| >= 8 + 8 * ReadWord(bs) && ReadWord(bs) == |r.value| * |r.value|
    ensures |bs| >= 8 && !IsSquare(ReadWord(bs)) ==> r == Err(NotSquare(ReadWord(bs)))
    ensures |bs| >= 8 && IsSquare(ReadWord(bs)) && |bs| < 8 + 8 * ReadWord(bs) ==>
      r == Err(ShortData(ReadWord(bs), (|bs| - 8) / 8))
    ensures |bs| >= 8 && IsSquare(ReadWord(bs)) && |bs| >= 8 + 8 * ReadWord(bs) ==>
      r == Ok(Reshape(Apply(DecodeWords(bs[8..], ReadWord(bs)), value), Isqrt(ReadWord(bs))))
  {
    if |bs| < 8 then Err(NoCount)
    else
      var count := ReadWord(bs);
      var data := DecodeWords(bs[8..], count);
      var n := Isqrt(count);
      if n * n != count then Err(NotSquare(count))
      else if |data| != count then Err(ShortData(count, |data|))
      else Ok(Reshape(Apply(data, value), n))
  }

  /**
   * A flat array of n*n values written by the writer reads back as its
   * n x n reshape, provided value inverts bits.
   */
  lemma ReadWriteFlat<T>(data: seq<T>, n: nat, bits: T -> Word, value: Word -> T)
    requires |data| == n * n && n * n < WordLimit
    requires forall x :: value(bits(x)) == x
    ensures ReadArray(WriteArray(data, bits), value) == Ok(Reshape(data, n))
  {
    var bs := WriteArray(data, bits);
    WriteArrayLayout(data, bits);
    IsqrtOfSquare(n);
    assert Apply(Apply(data, bits), value) == data;
  }

  /** The round trip: a square grid written row-major reads back as the same grid. */
  lemma ReadWriteRoundTrip<T>(g: seq<seq<T>>, n: nat, bits: T -> Word, value: Word -> T)
    requires IsPlane(g, n, n) && n * n < WordLimit
    requires forall x :: value(bits(x)) == x
    ensures |Flatten(g)| == n * n && ReadArray(WriteArray(Flatten(g), bits), value) == Ok(g)
  {
    ReshapeFlatten(g, n);
    ReadWriteFlat(Flatten(g), n, bits, value);
  }

  /** Reading u.bin of a Kokkos run with LayoutRight Views gives back iterate niter - 1, the plane in unew after the last swap. */
  lemma KokkosDumpReadsBack(upd: PoissonKokkos.Update, f: seq<seq<real>>, n: int, niter: int, bits: real -> Word, value: Word -> real)
    requires 1 <= n && 1 <= niter && IsPlane(f, n, n) && n * n < WordLimit
    requires forall x :: value(bits(x)) == x
    ensures |PoissonKokkos.ExpectedKokkosReport(upd, f, n, niter).file.data| == n * n
    ensures ReadArray(WriteArray(PoissonKokkos.ExpectedKokkosReport(upd, f, n, niter).file.data, bits), value)
         == Ok(PoissonKokkos.Iterate2(upd, f, n, n, niter - 1))
  {
    var g := PoissonKokkos.Iterate2(upd, f, n, n, niter - 1);
    assert IsPlane(g, n, n);
    assert n * n < WordLimit;
    assert forall x :: value(bits(x)) == x;
    ReadWriteRoundTrip(PoissonKokkos.Iterate2(upd, f, n, n, niter - 1), n, bits, value);
  }

  function Abs(x: real): real
  {
    if x < 0.0 then -x else x
  }

  /** np.max of a non-empty array: an element that no element exceeds. */
  function MaxOf(s: seq<real>): (m: real)
    requires |s| > 0
    ensures forall i :: 0 <= i < |s| ==> s[i] <= m
    ensures exists i :: 0 <= i < |s| && s[i] == m
  {
    if |s| == 1 then s[0]
    else
      var rest := MaxOf(s[1..]);
      assert forall i :: 1 <= i < |s| ==> s[i] == s[1..][i - 1];
      if s[0] >= rest then s[0] else rest
  }

  /** np.abs of every value. */
  function AbsAll(s: seq<real>): (r: seq<real>)
    ensures |r| == |s| && forall i :: 0 <= i < |s| ==> r[i] == Abs(s[i])
  {
    seq(|s|, i requires 0 <= i < |s| => Abs(s[i]))
  }

  /** np.max(np.abs(u)): fails on an empty grid. */
  function MaxAbs(g: seq<seq<real>>): Option<real>
  {
    var a := AbsAll(Flatten(g));
    if a == [] then None else Some(MaxOf(a))
  }

  /**
   * max_val of an n x n grid: none for the empty grid; otherwise no cell
   * exceeds it in absolute value and some cell reaches it.
   */
  lemma MaxAbsMeaning(g: seq<seq<real>>, n: nat)
    requires IsPlane(g, n, n)
    ensures MaxAbs(g).None? <==> n == 0
    ensures MaxAbs(g).Some? ==> 0.0 <= MaxAbs(g).value
    ensures MaxAbs(g).Some? ==> forall i, j :: 0 <= i < n && 0 <= j < n ==> Abs(g[i][j]) <= MaxAbs(g).value
    ensures MaxAbs(g).Some? ==> exists i, j :: 0 <= i < n && 0 <= j < n && Abs(g[i][j]) == MaxAbs(g).value
  {
    FlattenAt(g, n, n);
    var a := AbsAll(Flatten(g));
    if n > 0 {
      MulMonotone(1, n, n);
      var m := MaxOf(a);
      assert a[0] >= 0.0;
      forall i, j | 0 <= i < n && 0 <= j < n
        ensures Abs(g[i][j]) <= m
      {
        FlatIndexInRange(i, j, n, n);
        assert a[i * n + j] == Abs(g[i][j]);
      }
      var k :| 0 <= k < |a| && a[k] == m;
      FlatIndexSplit(k, n, n);
      var i, j := k / n, k % n;
      assert Abs(g[i][j]) == m;
    }
  }

  /**
   * np.abs(u1 - u2), flattened, for an n1 x n1 and an n2 x n2 grid: equal
   * shapes subtract cell by cell, a 1 x 1 grid broadcasts against the other,
   * and any other pair of shapes fails.
   */
  function AbsDifference(g1: seq<seq<real>>, n1: nat, g2: seq<seq<real>>, n2: nat): (d: Option<seq<real>>)
    requires IsPlane(g1, n1, n1) && IsPlane(g2, n2, n2)
  {
    FlattenAt(g1, n1, n1);
    FlattenAt(g2, n2, n2);
    var f1, f2 := Flatten(g1), Flatten(g2);
    if n1 == n2 then Some(seq(n1 * n1, k requires 0 <= k < n1 * n1 => Abs(f1[k] - f2[k])))
    else if n1 == 1 then Some(seq(n2 * n2, k requires 0 <= k < n2 * n2 => Abs(g1[0][0] - f2[k])))
    else if n2 == 1 then Some(seq(n1 * n1, k requires 0 <= k < n1 * n1 => Abs(f1[k] - g2[0][0])))
    else None
  }

  /** max_diff = np.max(np.abs(u1 - u2)). */
  function MaxDiff(g1: seq<seq<real>>, n1: nat, g2: seq<seq<real>>, n2: nat): Option<real>
    requires IsPlane(g1, n1, n1) && IsPlane(g2, n2, n2)
  {
    match AbsDifference(g1, n1, g2, n2)
    case None => None
    case Some(d) => if d == [] then None else Some(MaxOf(d))
  }

  lemma AbsSwap(x: real, y: real)
    ensures Abs(x - y) == Abs(y - x)
  {
  }

  /** max_diff does not depend on which file comes first. */
  lemma MaxDiffSymmetric(g1: seq<seq<real>>, n1: nat, g2: seq<seq<real>>, n2: nat)
    requires IsPlane(g1, n1, n1) && IsPlane(g2, n2, n2)
    ensures MaxDiff(g1, n1, g2, n2) == MaxDiff(g2, n2, g1, n1)
  {
    var d, e := AbsDifference(g1, n1, g2, n2), AbsDifference(g2, n2, g1, n1);
    if d.Some? {
      FlattenAt(g1, n1, n1);
      FlattenAt(g2, n2, n2);
      forall k | 0 <= k < |d.value|
        ensures d.value[k] == e.value[k]
      {
        if n1 == n2 {
          AbsSwap(Flatten(g1)[k], Flatten(g2)[k]);
        } else if n1 == 1 {
          AbsSwap(g1[0][0], Flatten(g2)[k]);
        } else {
          AbsSwap(Flatten(g1)[k], g2[0][0]);
        }
      }
      assert d.value == e.value;
    }
  }

  /** A non-empty grid compared with itself has max_diff 0. */
  lemma MaxDiffSelf(g: seq<seq<real>>, n: nat)
    requires IsPlane(g, n, n) && 1 <= n
    ensures MaxDiff(g, n, g, n) == Some(0.0)
  {
    FlattenAt(g, n, n);
    MulMonotone(1, n, n);
    var f := Flatten(g);
    var d := AbsDifference(g, n, g, n).value;
    assert |d| == n * n && d[0] == Abs(f[0] - f[0]);
    assert forall k :: 0 <= k < |d| ==> d[k] == 0.0;
  }

  /** Two grids of one non-empty shape have max_diff 0 exactly when they are equal. */
  lemma MaxDiffZeroIffEqual(g1: seq<seq<real>>, g2: seq<seq<real>>, n: nat)
    requires IsPlane(g1, n, n) && IsPlane(g2, n, n) && 1 <= n
    ensures MaxDiff(g1, n, g2, n) == Some(0.0) <==> g1 == g2
  {
    if g1 == g2 {
      MaxDiffSelf(g1, n);
    } else {
      FlattenAt(g1, n, n);
      FlattenAt(g2, n, n);
      if forall i, j :: 0 <= i < n && 0 <= j < n ==> g1[i][j] == g2[i][j] {
        SamePlane(g1, g2, n, n);
      }
      var i, j :| 0 <= i < n && 0 <= j < n && g1[i][j] != g2[i][j];
      FlatIndexInRange(i, j, n, n);
      var d := AbsDifference(g1, n, g2, n).value;
      assert d[i * n + j] > 0.0;
    }
  }

  /** Every cell of one shape differs by at most max_diff, which is never negative. */
  lemma MaxDiffBounds(g1: seq<seq<real>>, g2: seq<seq<real>>, n: nat)
    requires IsPlane(g1, n, n) && IsPlane(g2, n, n) && 1 <= n
    ensures MaxDiff(g1, n, g2, n).Some?
    ensures 0.0 <= MaxDiff(g1, n, g2, n).value
    ensures forall i, j :: 0 <= i < n && 0 <= j < n ==> Abs(g1[i][j] - g2[i][j]) <= MaxDiff(g1, n, g2, n).value
  {
    FlattenAt(g1, n, n);
    FlattenAt(g2, n, n);
    var d := AbsDifference(g1, n, g2, n).value;
    assert d[0] >= 0.0;
    forall i, j | 0 <= i < n && 0 <= j < n
      ensures Abs(g1[i][j] - g2[i][j]) <= MaxDiff(g1, n, g2, n).value
    {
      FlatIndexInRange(i, j, n, n);
      assert d[i * n + j] == Abs(g1[i][j] - g2[i][j]);
    }
  }

  /** Shapes 2 x 2 and 3 x 3 do not broadcast: max_diff fails. */
  lemma MismatchedShapesFail(g1: seq<seq<real>>, g2: seq<seq<real>>)
    requires IsPlane(g1, 2, 2) && IsPlane(g2, 3, 3)
    ensures MaxDiff(g1, 2, g2, 3) == None
  {
  }
}
