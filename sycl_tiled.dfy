/**
 * The work-group kernel of
 * sycl/exercises/03-poisson-jacobi-iter/solution/j_simple_with_buffer_optimized_events_lsm.cpp.
 * The nd_range rounds both global dimensions up to a multiple of the
 * work-group size M.  Each M x M work-group copies its cells of U, and a
 * one-cell halo around them, into an (M+2) x (M+2) local tile, waits at a
 * barrier, and then computes the interior cells of UNEW from the tile with
 * factor 0.25.
 *
 * A work-group is modelled by its origin (oi, oj), the global index of its
 * local (0, 0) item.  The load phase is a sequence of forall statements, one
 * per kind of store; no two work items store into the same tile cell, so any
 * interleaving reaches the same tile at the barrier.  The compute phase then
 * reads that tile.
 */
module JacobiTiled {
  import opened Grid
  import opened JacobiSycl

  /** The factor of the tiled program. */
  const TiledFactor: real := 0.25

  /** ((x + M - 1) / M) * M: one global range dimension. */
  function RoundUp(x: int, M: int): int
    requires 0 <= x && 1 <= M
  {
    ((x + M - 1) / M) * M
  }

  /** The global range is the least multiple of M that is at least x. */
  lemma RoundUpLeastMultiple(x: int, M: int)
    requires 0 <= x && 1 <= M
    ensures RoundUp(x, M) % M == 0
    ensures x <= RoundUp(x, M) < x + M
  {
    var q := (x + M - 1) / M;
    var r := (x + M - 1) % M;
    assert x + M - 1 == q * M + r;
    assert RoundUp(x, M) == q * M;
    assert (q * M) % M == 0 by {
      FlatIndexInverse(q, 0, M);
    }
  }

  /** Cell (i, j) of a grid with rows of ny cells sits at i * ny + j. */
  function FlatIndex(i: int, j: int, ny: int): int
  {
    i * ny + j
  }

  /** One store of the load phase: tile[ti][tj] = U[g]. */
  datatype Load = Load(ti: int, tj: int, g: int)

  /**
   * The stores of work item (li, lj) of the work-group at (oi, oj), in the
   * kernel's order: its own cell, then the halo cell above, below, left and
   * right when it is on that edge of the group.  As written (guarded false)
   * a row halo store tests only the row and a column halo store only the
   * column; guarded adds the test on the other coordinate.
   */
  function ItemLoads(nx: int, ny: int, M: int, oi: int, oj: int, li: int, lj: int, guarded: bool): seq<Load>
  {
    var gi, gj := oi + li, oj + lj;
    (if gi < nx && gj < ny then [Load(li + 1, lj + 1, gi * ny + gj)] else [])
    + (if li == 0 && gi > 0 && (!guarded || gj < ny) then [Load(0, lj + 1, (gi - 1) * ny + gj)] else [])
    + (if li == M - 1 && gi < nx - 1 && (!guarded || gj < ny) then [Load(M + 1, lj + 1, (gi + 1) * ny + gj)] else [])
    + (if lj == 0 && gj > 0 && (!guarded || gi < nx) then [Load(li + 1, 0, gi * ny + gj - 1)] else [])
    + (if lj == M - 1 && gj < ny - 1 && (!guarded || gi < nx) then [Load(li + 1, M + 1, gi * ny + gj + 1)] else [])
  }

  /** local_i = li + 1 and local_j = lj + 1 lie in [1, M], so every store stays inside the (M+2) x (M+2) tile. */
  lemma LoadsInTile(nx: int, ny: int, M: int, oi: int, oj: int, li: int, lj: int, guarded: bool)
    requires 0 <= li < M && 0 <= lj < M
    ensures forall l :: l in ItemLoads(nx, ny, M, oi, oj, li, lj, guarded) ==> 0 <= l.ti < M + 2 && 0 <= l.tj < M + 2
  {
  }

  /**
   * With the extra guards every store reads U inside [0, nx*ny), for any grid
   * and group size, in every work-group of the padded range (each starts
   * inside the grid, by RoundUpLeastMultiple).
   */
  lemma GuardedLoadsInRange(nx: int, ny: int, M: int, oi: int, oj: int, li: int, lj: int)
    requires 0 <= oi < nx && 0 <= oj < ny && 0 <= li < M && 0 <= lj < M
    ensures forall l :: l in ItemLoads(nx, ny, M, oi, oj, li, lj, true) ==> 0 <= l.g < nx * ny
  {
    var gi, gj := oi + li, oj + lj;
    if gi < nx && gj < ny {
      FlatIndexInRange(gi, gj, nx, ny);
    }
    if gi > 0 && gi - 1 < nx && gj < ny {
      FlatIndexInRange(gi - 1, gj, nx, ny);
    }
    if gi + 1 < nx && gj < ny {
      FlatIndexInRange(gi + 1, gj, nx, ny);
    }
    if gi < nx && 0 < gj <= ny {
      FlatIndexInRange(gi, gj - 1, nx, ny);
    }
    if gi < nx && gj + 1 < ny {
      FlatIndexInRange(gi, gj + 1, nx, ny);
    }
  }

  /** A work-group at (oi, oj) of a grid whose sides are multiples of M: all its items lie inside the grid. */
  predicate GroupInside(nx: int, ny: int, M: int, oi: int, oj: int)
  {
    1 <= M && 0 <= oi && 0 <= oj && oi + M <= nx && oj + M <= ny
  }

  /**
   * When nx and ny are multiples of M no item lies outside the grid, and the
   * stores as written are exactly the guarded ones.
   */
  lemma AsWrittenIsGuardedInside(nx: int, ny: int, M: int, oi: int, oj: int, li: int, lj: int)
    requires GroupInside(nx, ny, M, oi, oj) && 0 <= li < M && 0 <= lj < M
    ensures ItemLoads(nx, ny, M, oi, oj, li, lj, false) == ItemLoads(nx, ny, M, oi, oj, li, lj, true)
  {
  }

  /**
   * A 17 x 17 grid with M = 16 is padded to 32 x 32.  Item (15, 15) of the
   * work-group at (0, 16) is global (15, 31): outside the grid, but on the
   * bottom edge of its group with 15 < nx - 1, so it loads U[16 * 17 + 31] =
   * U[303] into the halo, past the 289 cells of U.
   */
  lemma HaloLoadOutOfRange()
    ensures RoundUp(17, 16) == 32
    ensures ItemLoads(17, 17, 16, 0, 16, 15, 15, false) == [Load(17, 16, 303)]
    ensures 303 >= 17 * 17
    ensures ItemLoads(17, 17, 16, 0, 16, 15, 15, true) == []
  {
  }

  /**
   * For every side n > M that M does not divide, the padded last row of
   * work-groups reads past U: item (M - 1, 0) of the group at
   * ((n / M) * M, M) is global row (n / M) * M + M - 1 >= n, and its left halo
   * load is U[that row * n + M - 1], at least n * n.  The guarded kernel
   * makes no such load.
   */
  lemma PaddedHaloLoadOutOfRange(n: int, M: int)
    requires 1 <= M < n && n % M != 0
    ensures (n / M) * M < n && M < RoundUp(n, M)
    ensures Load(M, 0, ((n / M) * M + M - 1) * n + M - 1) in ItemLoads(n, n, M, (n / M) * M, M, M - 1, 0, false)
    ensures ((n / M) * M + M - 1) * n + M - 1 >= n * n
    ensures ItemLoads(n, n, M, (n / M) * M, M, M - 1, 0, true) == []
  {
    var q, r := n / M, n % M;
    var oi := q * M;
    assert n == oi + r && 0 < r < M;
    RoundUpLeastMultiple(n, M);
    var gi := oi + M - 1;
    assert n <= gi;
    MulMonotone(n, gi, n);
    var g := gi * n + M - 1;
    assert ItemLoads(n, n, M, oi, M, M - 1, 0, false) == [Load(M, 0, g)];
  }

  /**
   * For n <= M there is a single work-group, at (0, 0), and every halo
   * guard fails for it, so the stores as written are the guarded ones and
   * all read inside U.
   */
  lemma SingleGroupLoadsInRange(n: int, M: int, li: int, lj: int)
    requires 1 <= n <= M && 0 <= li < M && 0 <= lj < M
    ensures RoundUp(n, M) == M
    ensures ItemLoads(n, n, M, 0, 0, li, lj, false) == ItemLoads(n, n, M, 0, 0, li, lj, true)
    ensures forall l :: l in ItemLoads(n, n, M, 0, 0, li, lj, false) ==> 0 <= l.g < n * n
  {
    assert (n + M - 1) / M == 1;
    assert !(li == 0 && li > 0) && !(li == M - 1 && li < n - 1);
    assert !(lj == 0 && lj > 0) && !(lj == M - 1 && lj < n - 1);
    GuardedLoadsInRange(n, n, M, 0, 0, li, lj);
  }

  /** Two multiples of M that differ are at least M apart. */
  lemma MultiplesApart(a: int, b: int, M: int)
    requires 1 <= M && a % M == 0 && b % M == 0 && a < b
    ensures a + M <= b
  {
    var p, q := a / M, b / M;
    assert a == p * M && b == q * M;
    if q <= p {
      MulMonotone(q, p, M);
    } else {
      MulMonotone(p + 1, q, M);
    }
  }

  /** 0 is a multiple of M, and the next multiple of M after x is x + M. */
  lemma NextMultiple(x: int, M: int)
    requires 1 <= M && x % M == 0
    ensures 0 % M == 0 && (x + M) % M == 0
  {
    var q := x / M;
    assert x == q * M;
    assert x + M == (q + 1) * M;
    FlatIndexInverse(q + 1, 0, M);
    FlatIndexInverse(0, 0, M);
  }

  /** Every cell (i, j) of the grid has its flat index inside U. */
  predicate GridIndexing(nx: int, ny: int)
  {
    forall i, j {:trigger FlatIndex(i, j, ny)} :: 0 <= i < nx && 0 <= j < ny ==> 0 <= FlatIndex(i, j, ny) < nx * ny
  }

  lemma FlatIndexInGrid(nx: int, ny: int)
    requires 1 <= ny
    ensures GridIndexing(nx, ny)
  {
    forall i, j | 0 <= i < nx && 0 <= j < ny
      ensures 0 <= FlatIndex(i, j, ny) < nx * ny
    {
      FlatIndexInRange(i, j, nx, ny);
    }
  }

  /**
   * Tile cell (a, b), a and b in [1, M], belongs to global cell k = (oi + a - 1,
   * oj + b - 1); when k is interior the tile holds U[k] there and its four
   * neighbours of U around it.
   */
  predicate CellLoaded(tile: array2<real>, U: array<real>, nx: int, ny: int, M: int, oi: int, oj: int, a: int, b: int)
    reads tile, U
    requires 1 <= ny && U.Length == nx * ny && tile.Length0 == M + 2 && tile.Length1 == M + 2
    requires 1 <= a <= M && 1 <= b <= M
  {
    var gi, gj := oi + a - 1, oj + b - 1;
    InteriorCell(gi, gj, nx, ny) ==> (
      KernelIndices(gi, gj, nx, ny);
      tile[a, b] == U[FlatIndex(gi, gj, ny)]
      && tile[a - 1, b] == U[FlatIndex(gi - 1, gj, ny)] && tile[a + 1, b] == U[FlatIndex(gi + 1, gj, ny)]
      && tile[a, b - 1] == U[FlatIndex(gi, gj - 1, ny)] && tile[a, b + 1] == U[FlatIndex(gi, gj + 1, ny)])
  }

  predicate TileLoaded(tile: array2<real>, U: array<real>, nx: int, ny: int, M: int, oi: int, oj: int)
    reads tile, U
    requires 1 <= ny && U.Length == nx * ny && tile.Length0 == M + 2 && tile.Length1 == M + 2
  {
    forall a, b :: 1 <= a <= M && 1 <= b <= M ==> CellLoaded(tile, U, nx, ny, M, oi, oj, a, b)
  }

  /** The last row and column of the (M+2) x (M+2) tile. */
  function Last(M: int): int
  {
    M + 1
  }

  /** The stores of the items' own cells: tile[local_i][local_j] = U[global]. */
  method LoadOwnCells(U: array<real>, tile: array2<real>, nx: int, ny: int, M: int, oi: int, oj: int)
    requires 1 <= ny && U.Length == nx * ny && tile.Length0 == M + 2 && tile.Length1 == M + 2
    requires GridIndexing(nx, ny)
    requires 1 <= M && 0 <= oi && 0 <= oj
    modifies tile
    ensures forall a, b :: 1 <= a <= M && 1 <= b <= M && oi + a - 1 < nx && oj + b - 1 < ny ==>
      tile[a, b] == U[FlatIndex(oi + a - 1, oj + b - 1, ny)]
    ensures forall a, b :: 0 <= a < M + 2 && 0 <= b < M + 2 && !(1 <= a <= M && 1 <= b <= M) ==>
      tile[a, b] == old(tile[a, b])
  {
    forall a, b | 1 <= a <= M && 1 <= b <= M && oi + a - 1 < nx && oj + b - 1 < ny {
      tile[a, b] := U[FlatIndex(oi + a - 1, oj + b - 1, ny)];
    }
  }

  /**
   * The halo stores of the items in the first and the last local row; as
   * written (guarded false) they test only the global row.
   */
  method LoadRowHalos(U: array<real>, tile: array2<real>, nx: int, ny: int, M: int, oi: int, oj: int, guarded: bool)
    requires 1 <= ny && U.Length == nx * ny && tile.Length0 == M + 2 && tile.Length1 == M + 2
    requires GridIndexing(nx, ny)
    requires 1 <= M && 0 <= oi < nx && 0 <= oj < ny
    requires guarded || oj + M <= ny
    modifies tile
    ensures forall b :: 1 <= b <= M && oi > 0 && oj + b - 1 < ny ==> tile[0, b] == U[FlatIndex(oi - 1, oj + b - 1, ny)]
    ensures forall b :: 1 <= b <= M && oi + M - 1 < nx - 1 && oj + b - 1 < ny ==>
      tile[Last(M), b] == U[FlatIndex(oi + M, oj + b - 1, ny)]
    ensures forall a, b :: 1 <= a <= M && 0 <= b < M + 2 ==> tile[a, b] == old(tile[a, b])
  {
    forall b | 1 <= b <= M && oi > 0 && (!guarded || oj + b - 1 < ny) {
      tile[0, b] := U[FlatIndex(oi - 1, oj + b - 1, ny)];
    }
    var last := Last(M);
    forall b | 1 <= b <= M && oi + M - 1 < nx - 1 && (!guarded || oj + b - 1 < ny) {
      tile[last, b] := U[FlatIndex(oi + M, oj + b - 1, ny)];
    }
  }

  /**
   * The halo stores of the items in the first and the last local column; as
   * written (guarded false) they test only the global column.
   */
  method LoadColumnHalos(U: array<real>, tile: array2<real>, nx: int, ny: int, M: int, oi: int, oj: int, guarded: bool)
    requires 1 <= ny && U.Length == nx * ny && tile.Length0 == M + 2 && tile.Length1 == M + 2
    requires GridIndexing(nx, ny)
    requires 1 <= M && 0 <= oi < nx && 0 <= oj < ny
    requires guarded || oi + M <= nx
    modifies tile
    ensures forall a :: 1 <= a <= M && oj > 0 && oi + a - 1 < nx ==> tile[a, 0] == U[FlatIndex(oi + a - 1, oj - 1, ny)]
    ensures forall a :: 1 <= a <= M && oj + M - 1 < ny - 1 && oi + a - 1 < nx ==>
      tile[a, Last(M)] == U[FlatIndex(oi + a - 1, oj + M, ny)]
    ensures forall a, b :: 0 <= a < M + 2 && 1 <= b <= M ==> tile[a, b] == old(tile[a, b])
  {
    forall a | 1 <= a <= M && oj > 0 && (!guarded || oi + a - 1 < nx) {
      tile[a, 0] := U[FlatIndex(oi + a - 1, oj - 1, ny)];
    }
    var last := Last(M);
    forall a | 1 <= a <= M && oj + M - 1 < ny - 1 && (!guarded || oi + a - 1 < nx) {
      tile[a, last] := U[FlatIndex(oi + a - 1, oj + M, ny)];
    }
  }

  /** The three kinds of store together leave every interior cell's stencil in the tile. */
  lemma TileFromStores(U: array<real>, tile: array2<real>, nx: int, ny: int, M: int, oi: int, oj: int)
    requires 1 <= ny && U.Length == nx * ny && tile.Length0 == M + 2 && tile.Length1 == M + 2
    requires GridIndexing(nx, ny)
    requires 1 <= M && 0 <= oi < nx && 0 <= oj < ny
    requires forall a, b :: 1 <= a <= M && 1 <= b <= M && oi + a - 1 < nx && oj + b - 1 < ny ==>
      tile[a, b] == U[FlatIndex(oi + a - 1, oj + b - 1, ny)]
    requires forall b :: 1 <= b <= M && oi > 0 && oj + b - 1 < ny ==> tile[0, b] == U[FlatIndex(oi - 1, oj + b - 1, ny)]
    requires forall b :: 1 <= b <= M && oi + M - 1 < nx - 1 && oj + b - 1 < ny ==>
      tile[Last(M), b] == U[FlatIndex(oi + M, oj + b - 1, ny)]
    requires forall a :: 1 <= a <= M && oj > 0 && oi + a - 1 < nx ==> tile[a, 0] == U[FlatIndex(oi + a - 1, oj - 1, ny)]
    requires forall a :: 1 <= a <= M && oj + M - 1 < ny - 1 && oi + a - 1 < nx ==>
      tile[a, Last(M)] == U[FlatIndex(oi + a - 1, oj + M, ny)]
    ensures TileLoaded(tile, U, nx, ny, M, oi, oj)
  {
    forall a, b | 1 <= a <= M && 1 <= b <= M
      ensures CellLoaded(tile, U, nx, ny, M, oi, oj, a, b)
    {
      var gi, gj := oi + a - 1, oj + b - 1;
      if InteriorCell(gi, gj, nx, ny) {
        KernelIndices(gi, gj, nx, ny);
        assert tile[a, b] == U[FlatIndex(gi, gj, ny)];
        if a == 1 {
          assert tile[a - 1, b] == U[FlatIndex(oi - 1, gj, ny)];
        } else {
          assert tile[a - 1, b] == U[FlatIndex(gi - 1, gj, ny)];
        }
        if a == M {
          assert a + 1 == Last(M);
          assert tile[a + 1, b] == U[FlatIndex(oi + M, gj, ny)];
        } else {
          assert tile[a + 1, b] == U[FlatIndex(gi + 1, gj, ny)];
        }
        if b == 1 {
          assert tile[a, b - 1] == U[FlatIndex(gi, oj - 1, ny)];
        } else {
          assert tile[a, b - 1] == U[FlatIndex(gi, gj - 1, ny)];
        }
        if b == M {
          assert b + 1 == Last(M);
          assert tile[a, b + 1] == U[FlatIndex(gi, oj + M, ny)];
        } else {
          assert tile[a, b + 1] == U[FlatIndex(gi, gj + 1, ny)];
        }
      }
    }
  }

  /**
   * All stores before the barrier of the work-group at (oi, oj).  No two
   * items store into the same tile cell, so storing kind by kind reaches the
   * tile any interleaving reaches.  As written (guarded false) the stores stay
   * inside U only when the group lies inside the grid.
   */
  method LoadTile(U: array<real>, tile: array2<real>, nx: int, ny: int, M: int, oi: int, oj: int, guarded: bool)
    requires 1 <= ny && U.Length == nx * ny && tile.Length0 == M + 2 && tile.Length1 == M + 2
    requires 1 <= M && 0 <= oi < nx && 0 <= oj < ny
    requires guarded || (oi + M <= nx && oj + M <= ny)
    modifies tile
    ensures TileLoaded(tile, U, nx, ny, M, oi, oj)
  {
    FlatIndexInGrid(nx, ny);
    LoadOwnCells(U, tile, nx, ny, M, oi, oj);
    LoadRowHalos(U, tile, nx, ny, M, oi, oj, guarded);
    LoadColumnHalos(U, tile, nx, ny, M, oi, oj, guarded);
    TileFromStores(U, tile, nx, ny, M, oi, oj);
  }

  /** Global cell k lies in the M x M work-group at (oi, oj). */
  predicate InGroup(k: int, ny: int, M: int, oi: int, oj: int)
    requires 1 <= ny
  {
    oi <= k / ny < oi + M && oj <= k % ny < oj + M
  }

  /** The statement after the barrier, read from the tile at local_i = a, local_j = b. */
  function TileValue(tile: array2<real>, a: int, b: int, factor: real): real
    reads tile
    requires 1 <= a < tile.Length0 - 1 && 1 <= b < tile.Length1 - 1
  {
    factor * (tile[a + 1, b] - 2.0 * tile[a, b] + tile[a - 1, b] + tile[a, b + 1] - 2.0 * tile[a, b] + tile[a, b - 1])
  }

  /** Read from a loaded tile, the update of an interior cell of the group is its diffusion update of U. */
  lemma TileValueIsDiffusion(U: array<real>, tile: array2<real>, nx: int, ny: int, M: int, oi: int, oj: int, k: int, factor: real)
    requires 1 <= ny && U.Length == nx * ny && tile.Length0 == M + 2 && tile.Length1 == M + 2
    requires TileLoaded(tile, U, nx, ny, M, oi, oj)
    requires 0 <= k < nx * ny && InGroup(k, ny, M, oi, oj) && Interior(k, nx, ny)
    ensures TileValue(tile, k / ny - oi + 1, k % ny - oj + 1, factor) == Diffusion(U[..], k, nx, ny, factor)
  {
    var gi, gj := k / ny, k % ny;
    var a, b := gi - oi + 1, gj - oj + 1;
    FlatIndexSplit(k, nx, ny);
    KernelIndices(gi, gj, nx, ny);
    assert CellLoaded(tile, U, nx, ny, M, oi, oj, a, b);
    assert FlatIndex(gi, gj, ny) == k;
  }

  /**
   * The statement after the barrier for every item of the work-group at
   * (oi, oj): each interior cell of the group gets the stencil read from the tile.
   */
  function GroupUpdate(prev: seq<real>, U: seq<real>, nx: int, ny: int, M: int, oi: int, oj: int, factor: real): (r: seq<real>)
    requires 1 <= ny && |prev| == nx * ny && |U| == nx * ny
    ensures |r| == nx * ny
  {
    seq(|prev|, k requires 0 <= k < |prev| =>
      if InGroup(k, ny, M, oi, oj) && Interior(k, nx, ny) then Diffusion(U, k, nx, ny, factor) else prev[k])
  }

  method ComputeTile(U: array<real>, tile: array2<real>, UNEW: array<real>, nx: int, ny: int, M: int, oi: int, oj: int, factor: real)
    requires 1 <= ny && U.Length == nx * ny && UNEW.Length == nx * ny && U != UNEW
    requires tile.Length0 == M + 2 && tile.Length1 == M + 2
    requires TileLoaded(tile, U, nx, ny, M, oi, oj)
    modifies UNEW
    ensures UNEW[..] == GroupUpdate(old(UNEW[..]), U[..], nx, ny, M, oi, oj, factor)
  {
    ghost var us := U[..];
    ghost var r := GroupUpdate(UNEW[..], us, nx, ny, M, oi, oj, factor);
    forall k | 0 <= k < nx * ny && InGroup(k, ny, M, oi, oj) && Interior(k, nx, ny) {
      UNEW[k] := TileValue(tile, k / ny - oi + 1, k % ny - oj + 1, factor);
    }
    assert U[..] == us;
    forall k | 0 <= k < nx * ny && InGroup(k, ny, M, oi, oj) && Interior(k, nx, ny)
      ensures UNEW[k] == r[k]
    {
      TileValueIsDiffusion(U, tile, nx, ny, M, oi, oj, k, factor);
    }
    assert forall k :: 0 <= k < nx * ny ==> UNEW[k] == r[k];
    assert UNEW[..] == r;
  }

  /**
   * One work-group at (oi, oj): a fresh local tile, the stores, the barrier
   * and the update.
   */
  method RunGroup(U: array<real>, UNEW: array<real>, nx: int, ny: int, M: int, oi: int, oj: int, factor: real, guarded: bool)
    requires 1 <= ny && U.Length == nx * ny && UNEW.Length == nx * ny && U != UNEW
    requires 1 <= M && 0 <= oi < nx && 0 <= oj < ny
    requires guarded || (oi + M <= nx && oj + M <= ny)
    modifies UNEW
    ensures UNEW[..] == GroupUpdate(old(UNEW[..]), U[..], nx, ny, M, oi, oj, factor)
  {
    var tile := new real[M + 2, M + 2]((a, b) => 0.0);
    LoadTile(U, tile, nx, ny, M, oi, oj, guarded);
    ComputeTile(U, tile, UNEW, nx, ny, M, oi, oj, factor);
  }

  /**
   * The groups before (oi, oj) in row-major group order are done: every
   * group of an earlier group row, and the groups of row oi left of oj.
   */
  predicate Done(k: int, ny: int, M: int, oi: int, oj: int)
    requires 1 <= ny
  {
    k / ny < oi || (k / ny < oi + M && k % ny < oj)
  }

  /** prev with the interior cells of the groups before (oi, oj) updated. */
  function GroupsBefore(prev: seq<real>, U: seq<real>, nx: int, ny: int, M: int, oi: int, oj: int, factor: real): (r: seq<real>)
    requires 1 <= ny && |prev| == nx * ny && |U| == nx * ny
    ensures |r| == nx * ny
  {
    seq(|prev|, k requires 0 <= k < |prev| =>
      if Done(k, ny, M, oi, oj) && Interior(k, nx, ny) then Diffusion(U, k, nx, ny, factor) else prev[k])
  }

  lemma GroupsBeforeStart(prev: seq<real>, U: seq<real>, nx: int, ny: int, M: int, factor: real)
    requires 1 <= ny && |prev| == nx * ny && |U| == nx * ny
    ensures GroupsBefore(prev, U, nx, ny, M, 0, 0, factor) == prev
  {
  }

  /** Running group (oi, oj) moves the frontier one group to the right. */
  lemma GroupsBeforeNext(prev: seq<real>, U: seq<real>, nx: int, ny: int, M: int, oi: int, oj: int, factor: real)
    requires 1 <= ny && |prev| == nx * ny && |U| == nx * ny && 0 <= M && 0 <= oj
    ensures GroupUpdate(GroupsBefore(prev, U, nx, ny, M, oi, oj, factor), U, nx, ny, M, oi, oj, factor)
         == GroupsBefore(prev, U, nx, ny, M, oi, oj + M, factor)
  {
  }

  /** Past the last column the whole group row is done. */
  lemma GroupsBeforeRowDone(prev: seq<real>, U: seq<real>, nx: int, ny: int, M: int, oi: int, oj: int, factor: real)
    requires 1 <= ny && |prev| == nx * ny && |U| == nx * ny && 0 <= M && ny <= oj
    ensures GroupsBefore(prev, U, nx, ny, M, oi, oj, factor) == GroupsBefore(prev, U, nx, ny, M, oi + M, 0, factor)
  {
  }

  /** Past the last row every group is done: the whole kernel. */
  lemma GroupsBeforeAll(prev: seq<real>, U: seq<real>, nx: int, ny: int, M: int, oi: int, factor: real)
    requires 1 <= ny && |prev| == nx * ny && |U| == nx * ny && nx <= oi
    ensures GroupsBefore(prev, U, nx, ny, M, oi, 0, factor) == HalfStep(prev, U, nx, ny, factor)
  {
    forall k | 0 <= k < nx * ny
      ensures Done(k, ny, M, oi, 0)
    {
      FlatIndexSplit(k, nx, ny);
    }
  }

  /**
   * One parallel_for over the nd_range with global range RoundUp(nx, M) x
   * RoundUp(ny, M) and local range M x M, work-group by work-group.  Whatever
   * the group size, it is the untiled kernel: each interior cell of UNEW gets
   * the diffusion update of U.  As written (guarded false) the stores stay
   * inside U only when M divides both sides of the grid.
   */
  method TiledKernel(U: array<real>, UNEW: array<real>, nx: int, ny: int, M: int, factor: real, guarded: bool)
    requires 1 <= nx && 1 <= ny && U.Length == nx * ny && UNEW.Length == nx * ny && U != UNEW
    requires 1 <= M
    requires guarded || (nx % M == 0 && ny % M == 0)
    modifies UNEW
    ensures UNEW[..] == HalfStep(old(UNEW[..]), U[..], nx, ny, factor)
  {
    ghost var prev, us := UNEW[..], U[..];
    var rows, cols := RoundUp(nx, M), RoundUp(ny, M);
    RoundUpLeastMultiple(nx, M);
    RoundUpLeastMultiple(ny, M);
    GroupsBeforeStart(prev, us, nx, ny, M, factor);
    NextMultiple(0, M);
    var oi := 0;
    while oi < rows
      invariant 0 <= oi && oi % M == 0
      invariant U[..] == us
      invariant UNEW[..] == GroupsBefore(prev, us, nx, ny, M, oi, 0, factor)
    {
      if nx <= oi {
        MultiplesApart(oi, rows, M);
      }
      if !guarded {
        MultiplesApart(oi, nx, M);
      }
      NextMultiple(oi, M);
      var oj := 0;
      while oj < cols
        invariant 0 <= oj && oj % M == 0
        invariant U[..] == us
        invariant UNEW[..] == GroupsBefore(prev, us, nx, ny, M, oi, oj, factor)
      {
        if ny <= oj {
          MultiplesApart(oj, cols, M);
        }
        if !guarded {
          MultiplesApart(oj, ny, M);
        }
        RunGroup(U, UNEW, nx, ny, M, oi, oj, factor, guarded);
        GroupsBeforeNext(prev, us, nx, ny, M, oi, oj, factor);
        NextMultiple(oj, M);
        oj := oj + M;
      }
      GroupsBeforeRowDone(prev, us, nx, ny, M, oi, oj, factor);
      oi := oi + M;
    }
    GroupsBeforeAll(prev, us, nx, ny, M, oi, factor);
  }

  /**
   * main on an n x n grid with work-group size M: initialise u, the warm-up
   * kernel from u into unew, then 100 outer iterations of the tiled kernel
   * from u into unew and back; returns u and the printed u[0].  The result is
   * that of the untiled program with factor 0.25.
   */
  method RunTiled(n: int, M: int, guarded: bool) returns (u: array<real>, corner: real)
    requires 1 <= n && 1 <= M
    requires guarded || n % M == 0
    ensures fresh(u) && u[..] == FinalField(n, TiledFactor)
    ensures corner == FinalField(n, TiledFactor)[0]
  {
    var nx, ny := n, n;
    u := new real[nx * ny](_ => 0.0);
    var unew := new real[nx * ny](_ => 0.0);
    assert unew[..] == Zeros(nx * ny);
    Initialise(u, nx, ny);
    TiledKernel(u, unew, nx, ny, M, TiledFactor, guarded);
    ghost var b0 := Buffers(u[..], unew[..]);
    var iter := 0;
    while iter < OuterIterations
      invariant 0 <= iter <= OuterIterations
      invariant Buffers(u[..], unew[..]) == Steps(b0, nx, ny, TiledFactor, iter)
    {
      TiledKernel(u, unew, nx, ny, M, TiledFactor, guarded);
      TiledKernel(unew, u, nx, ny, M, TiledFactor, guarded);
      iter := iter + 1;
    }
    corner := u[0];
  }
}
