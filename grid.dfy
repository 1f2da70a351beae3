/**
 * Row-major flat grids, as the C, C++ and SYCL solvers store them: a grid of
 * `rows` rows of `width` cells keeps cell (i, j) at index i * width + j.
 * The OpenMP solvers call the row count ny and the row length nx; the SYCL
 * ones call them nx and ny.  Every caller passes a square grid.
 */
module Grid {

  /** Multiplication by a non-negative factor is monotone. */
  lemma MulMonotone(a: int, b: int, c: int)
    requires a <= b && 0 <= c
    ensures a * c <= b * c
  {
  }

  /** Row and column can be recovered from a flat index. */
  lemma FlatIndexInverse(i: int, j: int, width: int)
    requires 0 <= j < width
    ensures (i * width + j) / width == i && (i * width + j) % width == j
  {
    var k := i * width + j;
    var q, r := k / width, k % width;
    assert (i - q) * width == r - j;
    if i > q {
      MulMonotone(1, i - q, width);
    } else if i < q {
      MulMonotone(1, q - i, width);
    }
  }

  /** Row i + 1 starts width cells after row i. */
  lemma NextRowStart(i: int, width: int)
    ensures (i + 1) * width == i * width + width
  {
  }

  /** Every cell of a rows x width grid has its flat index in [0, rows * width). */
  lemma FlatIndexInRange(i: int, j: int, rows: int, width: int)
    requires 0 <= i < rows && 0 <= j < width
    ensures 0 <= i * width + j < rows * width
  {
    MulMonotone(i + 1, rows, width);
    MulMonotone(0, i, width);
  }

  /** A flat index is split into a row and a column inside the grid. */
  lemma FlatIndexSplit(k: int, rows: int, width: int)
    requires 0 < width && 0 <= k < rows * width
    ensures 0 <= k / width < rows && 0 <= k % width < width
    ensures k == (k / width) * width + k % width
  {
    if k / width >= rows {
      MulMonotone(rows, k / width, width);
    }
  }

  /** (i, j) is an interior cell: neither in the first or last row nor in the first or last column. */
  predicate InteriorCell(i: int, j: int, rows: int, width: int)
  {
    0 < i < rows - 1 && 0 < j < width - 1
  }

  /** The flat index k names an interior cell. */
  predicate Interior(k: int, rows: int, width: int)
    requires 0 < width
  {
    InteriorCell(k / width, k % width, rows, width)
  }

  lemma InteriorAt(i: int, j: int, rows: int, width: int)
    requires 0 <= j < width
    ensures Interior(i * width + j, rows, width) <==> InteriorCell(i, j, rows, width)
  {
    FlatIndexInverse(i, j, width);
  }

  /**
   * The four neighbours of an interior cell, k - width, k + width, k - 1 and
   * k + 1, all lie inside the grid, and so does k itself.
   */
  lemma InteriorNeighbours(k: int, rows: int, width: int)
    requires 0 < width && 0 <= k && Interior(k, rows, width)
    ensures 0 <= k - width && k + width < rows * width
    ensures 0 <= k - 1 && k + 1 < rows * width
  {
    var i, j := k / width, k % width;
    assert k == i * width + j;
    MulMonotone(1, i, width);
    MulMonotone(i + 2, rows, width);
    assert (i + 2) * width == i * width + 2 * width;
  }

  /** Interior cells lie strictly between the first row and the last row. */
  lemma InteriorBetweenEdgeRows(k: int, rows: int, width: int)
    requires 0 < width && 0 <= k && Interior(k, rows, width)
    ensures width < k < (rows - 1) * width
  {
    var i, j := k / width, k % width;
    assert k == i * width + j;
    MulMonotone(1, i, width);
    MulMonotone(i + 1, rows - 1, width);
    assert (i + 1) * width == i * width + width;
  }

  /** The last cell of row i and the first cell of row i + 1 are boundary cells. */
  lemma RowSeamIsBoundary(i: int, rows: int, width: int)
    requires 0 < width && 0 <= i
    ensures !Interior(i * width + width - 1, rows, width)
    ensures !Interior((i + 1) * width, rows, width)
  {
    FlatIndexInverse(i, width - 1, width);
    FlatIndexInverse(i + 1, 0, width);
  }

  /** A grid of n zeros. */
  function Zeros(n: nat): (z: seq<real>)
    ensures |z| == n && forall k :: 0 <= k < n ==> z[k] == 0.0
  {
    seq(n, _ => 0.0)
  }

  /** Every boundary cell of s holds 0. */
  predicate BoundaryZero(s: seq<real>, rows: int, width: int)
    requires 0 < width
  {
    forall k :: 0 <= k < |s| && !Interior(k, rows, width) ==> s[k] == 0.0
  }

  /** s and t hold the same value on every boundary cell. */
  predicate SameBoundary(s: seq<real>, t: seq<real>, rows: int, width: int)
    requires 0 < width && |s| == |t|
  {
    forall k :: 0 <= k < |s| && !Interior(k, rows, width) ==> s[k] == t[k]
  }

  /** A grid held as nx rows of ny values each. */
  predicate IsPlane<T>(g: seq<seq<T>>, nx: int, ny: int)
  {
    |g| == nx && forall i :: 0 <= i < nx ==> |g[i]| == ny
  }

  /** Two planes of the same shape that agree cell by cell are equal. */
  lemma SamePlane<T>(g: seq<seq<T>>, h: seq<seq<T>>, nx: int, ny: int)
    requires IsPlane(g, nx, ny) && IsPlane(h, nx, ny)
    requires forall i, j :: 0 <= i < nx && 0 <= j < ny ==> g[i][j] == h[i][j]
    ensures g == h
  {
    forall i | 0 <= i < nx
      ensures g[i] == h[i]
    {
      assert forall j :: 0 <= j < ny ==> g[i][j] == h[i][j];
    }
  }

  /** Rows of g laid end to end: the order in which fwrite writes a row-major View's data. */
  function Flatten<T>(g: seq<seq<T>>): seq<T>
  {
    if g == [] then [] else Flatten(g[..|g| - 1]) + g[|g| - 1]
  }

  /** The row-major layout: cell (i, j) of an nx x ny plane is at i * ny + j. */
  lemma {:induction false} FlattenAt<T>(g: seq<seq<T>>, nx: int, ny: int)
    requires 0 <= nx && 0 <= ny && IsPlane(g, nx, ny)
    ensures |Flatten(g)| == nx * ny
    ensures forall i, j :: 0 <= i < nx && 0 <= j < ny ==> Flatten(g)[i * ny + j] == g[i][j]
  {
    if nx > 0 {
      var init := g[..nx - 1];
      assert IsPlane(init, nx - 1, ny);
      FlattenAt(init, nx - 1, ny);
      assert Flatten(g) == Flatten(init) + g[nx - 1];
      NextRowStart(nx - 1, ny);
      forall i, j | 0 <= i < nx && 0 <= j < ny
        ensures Flatten(g)[i * ny + j] == g[i][j]
      {
        if i < nx - 1 {
          FlatIndexInRange(i, j, nx - 1, ny);
          assert init[i] == g[i];
        } else {
          assert i * ny + j == (nx - 1) * ny + j;
        }
      }
    }
  }
}
