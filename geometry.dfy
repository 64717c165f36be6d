/**
 * Integer geometry of a segmented raster (python/grass/pygrass/raster/segment.py):
 * how many tiles ("segments") cover the current window, how many of them the
 * segment library is asked to keep in memory, and which segment number a cell
 * gets.
 *
 * The module was written in 2012 for Python 2, where `/` on two ints is floor
 * division; that is what FloorDiv models and what the C entry points receive.
 * Under Python 3 the same `/` is true division and yields floats: `nseg` for a
 * 10 x 10 window with 4 x 4 tiles becomes int(3.25 * 3.25) == 10 instead of 9,
 * and `get_seg_number` returns fractions.  Floats are not part of this model.
 */
module SegmentGeometry {

  /** Python 2's `/` on two ints: the floor of a / b, for every non-zero divisor
      (a zero divisor raises ZeroDivisionError, hence the precondition). */
  function FloorDiv(a: int, b: int): (q: int)
    requires b != 0
    ensures b > 0 ==> q * b <= a < q * b + b
    ensures b < 0 ==> q * b >= a > q * b + b
  {
    if b > 0 then a / b else (-a) / (-b)
  }

  // ---- arithmetic helpers --------------------------------------------------

  lemma MulMono(a: int, b: int, k: int)
    ensures a <= b && k >= 0 ==> a * k <= b * k
  {
  }

  lemma MulStrictCancel(a: int, b: int, s: int)
    requires s > 0 && a * s < b * s
    ensures a < b
  {
    MulMono(b, a, s);
  }

  /** The quotient is the only q with q * s <= x < q * s + s. */
  lemma DivUnique(x: int, s: int, q: int)
    requires s > 0 && q * s <= x < q * s + s
    ensures x / s == q
  {
    var d := x / s;
    assert x == d * s + x % s;
    assert (d + 1) * s == d * s + s;
    assert (q + 1) * s == q * s + s;
    MulStrictCancel(q, d + 1, s);
    MulStrictCancel(d, q + 1, s);
  }

  lemma MulDivCancel(q: int, s: int)
    requires s > 0
    ensures (q * s) / s == q
  {
    DivUnique(q * s, s, q);
  }

  lemma DivNonneg(x: int, s: int)
    requires x >= 0 && s > 0
    ensures x / s >= 0
  {
    var d := x / s;
    assert x == d * s + x % s;
    assert (d + 1) * s == d * s + s;
    MulStrictCancel(0, d + 1, s);
  }

  lemma DivMonotone(a: int, b: int, d: int)
    requires d > 0 && a <= b
    ensures a / d <= b / d
  {
    var p, q := a / d, b / d;
    assert a == p * d + a % d;
    assert b == q * d + b % d;
    assert (q + 1) * d == q * d + d;
    MulStrictCancel(p, q + 1, d);
  }

  // ---- tile counts ---------------------------------------------------------

  /** `(n + s - 1) / s`: the number of tiles of extent s along an axis of length n. */
  function TilesAlong(n: nat, s: int): int
    requires s != 0
  {
    FloorDiv(n + s - 1, s)
  }

  /** For a positive tile extent, TilesAlong is the ceiling of n / s: the least
      number of tiles whose extent covers the axis, a partial edge tile counting
      as a whole one. */
  lemma TilesAlongIsCeiling(n: nat, s: int)
    requires s > 0
    ensures TilesAlong(n, s) >= 0
    ensures (TilesAlong(n, s) - 1) * s < n <= TilesAlong(n, s) * s
  {
    var t := TilesAlong(n, s);
    assert t * s <= n + s - 1 < t * s + s;
    assert (t - 1) * s == t * s - s;
    MulMono(t, -1, s);
  }

  /** `Segment.nseg`: the number of tiles covering a rows x cols window. */
  function NSeg(rows: nat, cols: nat, srows: int, scols: int): int
    requires srows != 0 && scols != 0
  {
    TilesAlong(rows, srows) * TilesAlong(cols, scols)
  }

  /** The tile (tile row, tile column) that holds cell (row, col). */
  function TileOf(row: int, col: int, srows: int, scols: int): (int, int)
    requires srows > 0 && scols > 0
  {
    (row / srows, col / scols)
  }

  /** A cell with 0 <= x < n lies in a tile coordinate below ceil(n / s). */
  lemma TileCoordinateBound(x: int, n: nat, s: int)
    requires s > 0 && 0 <= x < n
    ensures 0 <= x / s < TilesAlong(n, s)
  {
    TilesAlongIsCeiling(n, s);
    var d := x / s;
    assert x == d * s + x % s;
    MulStrictCancel(d, TilesAlong(n, s), s);
    DivNonneg(x, s);
  }

  /** The first cell of tile coordinate i < ceil(n / s) lies on the axis and
      maps back to i. */
  lemma TileOriginOnAxis(i: int, n: nat, s: int)
    requires s > 0 && 0 <= i < TilesAlong(n, s)
    ensures 0 <= i * s < n
    ensures (i * s) / s == i
  {
    TilesAlongIsCeiling(n, s);
    MulMono(i, TilesAlong(n, s) - 1, s);
    MulMono(0, i, s);
    MulDivCancel(i, s);
  }

  /** The set of tiles that the cells of a rows x cols window fall into. */
  ghost function TilesTouched(rows: nat, cols: nat, srows: int, scols: int): set<(int, int)>
    requires srows > 0 && scols > 0
  {
    set r: int, c: int | 0 <= r < rows && 0 <= c < cols :: TileOf(r, c, srows, scols)
  }

  /** The tiles (i, 0) .. (i, n - 1) of one tile row. */
  function RowOfTiles(i: int, n: nat): (s: set<(int, int)>)
    ensures forall t :: t in s <==> t.0 == i && 0 <= t.1 < n
    ensures |s| == n
  {
    if n == 0 then {} else RowOfTiles(i, n - 1) + {(i, n - 1)}
  }

  /** All tiles (i, j) of an m x n arrangement, m * n of them. */
  function TileGrid(m: nat, n: nat): (s: set<(int, int)>)
    ensures forall t :: t in s <==> 0 <= t.0 < m && 0 <= t.1 < n
    ensures |s| == m * n
  {
    if m == 0 then {}
    else
      var upper, last := TileGrid(m - 1, n), RowOfTiles(m - 1, n);
      assert upper * last == {};
      upper + last
  }

  /** The tiles touched by the cells of a window are exactly the
      ceil(rows / srows) x ceil(cols / scols) arrangement: every cell falls in
      one of them, and each of them holds at least one cell of the window. */
  lemma TilesTouchedIsGrid(rows: nat, cols: nat, srows: int, scols: int)
    requires srows > 0 && scols > 0
    ensures TilesTouched(rows, cols, srows, scols)
         == TileGrid(TilesAlong(rows, srows), TilesAlong(cols, scols))
  {
    var m, n := TilesAlong(rows, srows), TilesAlong(cols, scols);
    TilesAlongIsCeiling(rows, srows);
    TilesAlongIsCeiling(cols, scols);
    var touched, grid := TilesTouched(rows, cols, srows, scols), TileGrid(m, n);
    forall t | t in touched
      ensures t in grid
    {
      var r: int, c: int :| 0 <= r < rows && 0 <= c < cols && t == TileOf(r, c, srows, scols);
      TileCoordinateBound(r, rows, srows);
      TileCoordinateBound(c, cols, scols);
    }
    forall t | t in grid
      ensures t in touched
    {
      TileOriginOnAxis(t.0, rows, srows);
      TileOriginOnAxis(t.1, cols, scols);
      assert t == TileOf(t.0 * srows, t.1 * scols, srows, scols);
    }
  }

  /** `nseg` counts exactly the tiles that some cell of the window falls into:
      ceil(rows / srows) * ceil(cols / scols), partial edge tiles included. */
  lemma NSegCountsTouchedTiles(rows: nat, cols: nat, srows: int, scols: int)
    requires srows > 0 && scols > 0
    ensures NSeg(rows, cols, srows, scols) == |TilesTouched(rows, cols, srows, scols)|
  {
    TilesAlongIsCeiling(rows, srows);
    TilesAlongIsCeiling(cols, scols);
    TilesTouchedIsGrid(rows, cols, srows, scols);
  }

  /** A non-empty window needs at least one tile; an empty one needs none. */
  lemma NSegPositive(rows: nat, cols: nat, srows: int, scols: int)
    requires srows > 0 && scols > 0
    ensures NSeg(rows, cols, srows, scols) >= 0
    ensures NSeg(rows, cols, srows, scols) >= 1 <==> rows >= 1 && cols >= 1
  {
    TilesAlongIsCeiling(rows, srows);
    TilesAlongIsCeiling(cols, scols);
    var m, n := TilesAlong(rows, srows), TilesAlong(cols, scols);
    assert m >= 1 <==> rows >= 1;
    assert n >= 1 <==> cols >= 1;
    MulMono(1, m, n);
    MulMono(0, m, n);
  }

  /** A 10 x 10 window with 4 x 4 tiles needs 3 x 3 = 9 tiles. */
  lemma NSegTenByTenExample()
    ensures NSeg(10, 10, 4, 4) == 9
  {
  }

  /** `Segment.segments_in_mem`: the number of tiles to keep in memory.
      A percentage 0 < maxmem < 100 takes that share of `nseg`; any other maxmem
      falls back to four times the per-axis tile counts (floor division) plus
      two; a result of 0 is replaced by 1, so the budget is never 0. */
  function SegmentsInMem(rows: nat, cols: nat, srows: int, scols: int, maxmem: int): (r: int)
    requires srows != 0 && scols != 0
    ensures r != 0
  {
    var seg :=
      if 0 < maxmem < 100 then FloorDiv(maxmem * NSeg(rows, cols, srows, scols), 100)
      else 4 * (FloorDiv(rows, srows) + FloorDiv(cols, scols) + 2);
    if seg == 0 then 1 else seg
  }

  function Max(a: int, b: int): int { if a < b then b else a }

  /** With positive tile extents the budget is at least 1 tile. */
  lemma SegmentsInMemAtLeastOne(rows: nat, cols: nat, srows: int, scols: int, maxmem: int)
    requires srows > 0 && scols > 0
    ensures SegmentsInMem(rows, cols, srows, scols, maxmem) >= 1
  {
    NSegPositive(rows, cols, srows, scols);
    MulMono(0, maxmem, NSeg(rows, cols, srows, scols));
    DivNonneg(rows, srows);
    DivNonneg(cols, scols);
  }

  /** Percentage branch: the budget is max(1, maxmem * nseg / 100), it grows
      with maxmem, and it never exceeds the number of tiles. */
  lemma SegmentsInMemFraction(rows: nat, cols: nat, srows: int, scols: int, maxmem: int)
    requires srows > 0 && scols > 0 && 0 < maxmem < 100
    ensures SegmentsInMem(rows, cols, srows, scols, maxmem)
         == Max(1, maxmem * NSeg(rows, cols, srows, scols) / 100)
    ensures NSeg(rows, cols, srows, scols) >= 1
         ==> SegmentsInMem(rows, cols, srows, scols, maxmem) <= NSeg(rows, cols, srows, scols)
    ensures forall m :: maxmem <= m < 100 ==>
              SegmentsInMem(rows, cols, srows, scols, maxmem) <= SegmentsInMem(rows, cols, srows, scols, m)
  {
    NSegPositive(rows, cols, srows, scols);
    var n := NSeg(rows, cols, srows, scols);
    MulMono(maxmem, 100, n);
    DivMonotone(maxmem * n, 100 * n, 100);
    MulDivCancel(n, 100);
    forall m | maxmem <= m < 100
      ensures SegmentsInMem(rows, cols, srows, scols, maxmem) <= SegmentsInMem(rows, cols, srows, scols, m)
    {
      MulMono(maxmem, m, n);
      DivMonotone(maxmem * n, m * n, 100);
    }
  }

  /** Fallback branch (maxmem <= 0 or maxmem >= 100): the budget is
      4 * (rows / srows + cols / scols + 2) with floor division, at least 8,
      and the same for every maxmem outside (0, 100). */
  lemma SegmentsInMemPerAxis(rows: nat, cols: nat, srows: int, scols: int, maxmem: int)
    requires srows > 0 && scols > 0 && !(0 < maxmem < 100)
    ensures SegmentsInMem(rows, cols, srows, scols, maxmem) == 4 * (rows / srows + cols / scols + 2)
    ensures SegmentsInMem(rows, cols, srows, scols, maxmem) >= 8
    ensures SegmentsInMem(rows, cols, srows, scols, maxmem) == SegmentsInMem(rows, cols, srows, scols, 100)
  {
    DivNonneg(rows, srows);
    DivNonneg(cols, scols);
  }

  /** The 10 x 10 window with 4 x 4 tiles: 50% of its 9 tiles is 4; the
      constructor's default maxmem = 100 takes the fallback branch, which asks
      for 4 * (2 + 2 + 2) = 24 tiles, more than the 9 tiles there are; a 1%
      share of a single tile rounds down to 0 and is clamped to 1. */
  lemma SegmentsInMemExamples()
    ensures SegmentsInMem(10, 10, 4, 4, 50) == 4
    ensures SegmentsInMem(10, 10, 4, 4, 100) == 24
    ensures SegmentsInMem(10, 10, 4, 4, 100) > NSeg(10, 10, 4, 4)
    ensures SegmentsInMem(1, 1, 64, 64, 1) == 1
  {
  }

  // ---- segment numbers -----------------------------------------------------

  /** `Segment.get_seg_number`, as written: `row / srows * cols / scols + col / scols`,
      evaluated left to right, with `cols` the window's column count.
      (Line 116 of the source reads `self.cols` without calling it, so the
      multiplication would meet a bound method and raise TypeError; the model
      takes the evident meaning, the number of columns of the window.) */
  function SegNumber(row: int, col: int, cols: nat, srows: int, scols: int): int
    requires srows != 0 && scols != 0
  {
    FloorDiv(FloorDiv(row, srows) * cols, scols) + FloorDiv(col, scols)
  }

  /** The segment number depends only on the tile a cell falls in: every cell
      gets the number of its tile's top-left cell. */
  lemma SegNumberIsTileConstant(row: int, col: int, cols: nat, srows: int, scols: int)
    requires srows > 0 && scols > 0
    ensures SegNumber(row, col, cols, srows, scols)
         == SegNumber((row / srows) * srows, (col / scols) * scols, cols, srows, scols)
  {
    MulDivCancel(row / srows, srows);
    MulDivCancel(col / scols, scols);
  }

  /** Tile (tr, tc) of an m x n arrangement, numbered row by row, gets a
      number in [0, m * n). */
  lemma RowMajorBound(tr: int, tc: int, m: int, n: int)
    requires 0 <= tr < m && 0 <= tc < n
    ensures 0 <= tr * n + tc < m * n
  {
    MulMono(0, tr, n);
    MulMono(tr + 1, m, n);
    assert (tr + 1) * n == tr * n + n;
  }

  /** With cols <= n * scols, the as-written row offset tr * cols / scols is
      between 0 and tr * n. */
  lemma StrideBound(tr: int, cols: nat, scols: int, n: int)
    requires tr >= 0 && scols > 0 && cols <= n * scols
    ensures 0 <= (tr * cols) / scols <= tr * n
  {
    MulMono(cols, n * scols, tr);
    assert tr * (n * scols) == (tr * n) * scols;
    DivMonotone(tr * cols, (tr * n) * scols, scols);
    MulDivCancel(tr * n, scols);
    MulMono(0, tr, cols);
    DivNonneg(tr * cols, scols);
  }

  /** For a cell inside the window the segment number lies in [0, nseg). */
  lemma SegNumberInRange(row: int, col: int, rows: nat, cols: nat, srows: int, scols: int)
    requires srows > 0 && scols > 0
    requires 0 <= row < rows && 0 <= col < cols
    ensures 0 <= SegNumber(row, col, cols, srows, scols) < NSeg(rows, cols, srows, scols)
  {
    TileCoordinateBound(row, rows, srows);
    TileCoordinateBound(col, cols, scols);
    TilesAlongIsCeiling(cols, scols);
    var tr, tc := row / srows, col / scols;
    var m, n := TilesAlong(rows, srows), TilesAlong(cols, scols);
    // the row stride cols / scols is at most n, so tr * cols / scols <= tr * n
    StrideBound(tr, cols, scols, n);
    RowMajorBound(tr, tc, m, n);
    assert SegNumber(row, col, cols, srows, scols) == (tr * cols) / scols + tc;
  }

  /** When scols divides cols the segment number is tileRow * (cols / scols) + tileCol,
      which is the corrected TileIndex below. */
  lemma SegNumberWhenDivisible(row: int, col: int, cols: nat, srows: int, scols: int)
    requires srows > 0 && scols > 0 && cols % scols == 0
    ensures SegNumber(row, col, cols, srows, scols) == (row / srows) * (cols / scols) + col / scols
    ensures SegNumber(row, col, cols, srows, scols) == TileIndex(row, col, cols, srows, scols)
  {
    var k := cols / scols;
    assert cols == k * scols;
    assert (row / srows) * cols == ((row / srows) * k) * scols;
    MulDivCancel((row / srows) * k, scols);
    assert k * scols <= cols + scols - 1 < k * scols + scols;
    DivUnique(cols + scols - 1, scols, k);
  }

  /** Where each tile row starts.  As written, tile row tr starts at
      floor(tr * cols / scols), since line 116 multiplies before it divides;
      the corrected numbering starts it at tr * ceil(cols / scols).  Once scols
      does not divide cols, every tile row after the first starts too low. */
  lemma SegNumberRowOffset(tr: int, cols: nat, srows: int, scols: int)
    requires srows > 0 && scols > 0 && tr >= 0
    ensures SegNumber(tr * srows, 0, cols, srows, scols) == (tr * cols) / scols
    ensures TileIndex(tr * srows, 0, cols, srows, scols) == tr * TilesAlong(cols, scols)
    ensures cols % scols != 0 && tr >= 1 ==> (tr * cols) / scols < tr * TilesAlong(cols, scols)
  {
    MulDivCancel(tr, srows);
    MulDivCancel(0, scols);
    var n := TilesAlong(cols, scols);
    TilesAlongIsCeiling(cols, scols);
    if cols % scols != 0 && tr >= 1 {
      MulDivCancel(n, scols);
      assert n * scols == ((n * scols) / scols) * scols + (n * scols) % scols;
      assert cols != n * scols;
      MulStrictCancelLeft(cols, n * scols, tr);
      assert tr * (n * scols) == (tr * n) * scols;
      assert ((tr * cols) / scols) * scols <= tr * cols;
      MulStrictCancel((tr * cols) / scols, tr * n, scols);
    }
  }

  /** a < b and k > 0 give k * a < k * b. */
  lemma MulStrictCancelLeft(a: int, b: int, k: int)
    requires a < b && k > 0
    ensures k * a < k * b
  {
    MulMono(a + 1, b, k);
    assert (a + 1) * k == a * k + k;
  }

  /** As written, distinct tiles share a number whenever scols does not divide
      cols and the window has a second tile row: the last tile of tile row 0 and
      the first tile of tile row 1 both get floor(cols / scols), because tile
      row 1 starts at floor(cols / scols) while tile row 0 holds
      ceil(cols / scols) tiles (SegNumberRowOffset). */
  lemma SegNumberCollides(rows: nat, cols: nat, srows: int, scols: int)
    requires srows > 0 && scols > 0 && cols % scols != 0 && rows > srows
    ensures 0 <= srows < rows
    ensures 0 <= (cols / scols) * scols < cols
    ensures TileOf(0, (cols / scols) * scols, srows, scols) != TileOf(srows, 0, srows, scols)
    ensures SegNumber(0, (cols / scols) * scols, cols, srows, scols)
         == SegNumber(srows, 0, cols, srows, scols)
  {
    var k := cols / scols;
    assert cols == k * scols + cols % scols;
    DivNonneg(cols, scols);
    MulMono(0, k, scols);
    MulDivCancel(k, scols);
    MulDivCancel(1, scols);
    MulDivCancel(1, srows);
    MulDivCancel(0, scols);
  }

  /** The concrete case: in a 10 x 10 window with 4 x 4 tiles, cells (0, 8) and
      (4, 0) lie in tiles (0, 2) and (1, 0) but both get segment number 2.  Tile
      rows 0, 1 and 2 start at 0, 2 and 5 as written (steps of 2, then 3) and
      at 0, 3 and 6 corrected; cell (9, 9) gets 7 as written and 8 corrected. */
  lemma SegNumberCollisionExample()
    ensures TileOf(0, 8, 4, 4) == (0, 2) && TileOf(4, 0, 4, 4) == (1, 0)
    ensures SegNumber(0, 8, 10, 4, 4) == 2 && SegNumber(4, 0, 10, 4, 4) == 2
    ensures SegNumber(8, 0, 10, 4, 4) == 5 && TileIndex(8, 0, 10, 4, 4) == 6
    ensures SegNumber(9, 9, 10, 4, 4) == 7 && TileIndex(9, 9, 10, 4, 4) == 8
  {
  }

  /** The tile number under which the segment library lays tiles out:
      tileRow * ceil(cols / scols) + tileCol (get_seg_number corrected). */
  function TileIndex(row: int, col: int, cols: nat, srows: int, scols: int): int
    requires srows != 0 && scols != 0
  {
    FloorDiv(row, srows) * TilesAlong(cols, scols) + FloorDiv(col, scols)
  }

  /** Every cell of the window gets a tile index in [0, nseg). */
  lemma TileIndexInRange(row: int, col: int, rows: nat, cols: nat, srows: int, scols: int)
    requires srows > 0 && scols > 0
    requires 0 <= row < rows && 0 <= col < cols
    ensures 0 <= TileIndex(row, col, cols, srows, scols) < NSeg(rows, cols, srows, scols)
  {
    TileCoordinateBound(row, rows, srows);
    TileCoordinateBound(col, cols, scols);
    RowMajorBound(row / srows, col / scols, TilesAlong(rows, srows), TilesAlong(cols, scols));
  }

  /** a * n + b with 0 <= b < n determines a and b. */
  lemma QuotientRemainderUnique(a1: int, b1: int, a2: int, b2: int, n: int)
    requires n > 0 && 0 <= b1 < n && 0 <= b2 < n && a1 * n + b1 == a2 * n + b2
    ensures a1 == a2 && b1 == b2
  {
    DivUnique(a1 * n + b1, n, a1);
    DivUnique(a2 * n + b2, n, a2);
  }

  /** Two cells of the window get the same tile index exactly when they lie in
      the same tile. */
  lemma TileIndexInjective(r1: int, c1: int, r2: int, c2: int, rows: nat, cols: nat, srows: int, scols: int)
    requires srows > 0 && scols > 0
    requires 0 <= r1 < rows && 0 <= c1 < cols && 0 <= r2 < rows && 0 <= c2 < cols
    ensures TileIndex(r1, c1, cols, srows, scols) == TileIndex(r2, c2, cols, srows, scols)
        <==> TileOf(r1, c1, srows, scols) == TileOf(r2, c2, srows, scols)
  {
    TileCoordinateBound(c1, cols, scols);
    TileCoordinateBound(c2, cols, scols);
    if TileIndex(r1, c1, cols, srows, scols) == TileIndex(r2, c2, cols, srows, scols) {
      QuotientRemainderUnique(r1 / srows, c1 / scols, r2 / srows, c2 / scols, TilesAlong(cols, scols));
    }
  }

  /** A non-negative k below m * n, with m >= 0, forces n > 0 and splits into
      a quotient below m and a remainder below n. */
  lemma QuotientBelow(k: int, m: int, n: int)
    requires m >= 0 && 0 <= k < m * n
    ensures n > 0
    ensures 0 <= k / n < m && 0 <= k % n < n
    ensures k == (k / n) * n + k % n
  {
    MulMono(n, 0, m);
    DivNonneg(k, n);
    MulStrictCancel(k / n, m, n);
  }

  /** Every number in [0, nseg) is the tile index of some cell of the window:
      the top-left cell of tile (k / tilesPerRow, k % tilesPerRow). */
  lemma TileIndexOnto(k: int, rows: nat, cols: nat, srows: int, scols: int)
    requires srows > 0 && scols > 0
    requires 0 <= k < NSeg(rows, cols, srows, scols)
    ensures TilesAlong(cols, scols) > 0
    ensures 0 <= (k / TilesAlong(cols, scols)) * srows < rows
    ensures 0 <= (k % TilesAlong(cols, scols)) * scols < cols
    ensures TileIndex((k / TilesAlong(cols, scols)) * srows, (k % TilesAlong(cols, scols)) * scols,
                      cols, srows, scols) == k
  {
    TilesAlongIsCeiling(rows, srows);
    var m, n := TilesAlong(rows, srows), TilesAlong(cols, scols);
    QuotientBelow(k, m, n);
    var i, j := k / n, k % n;
    TileOriginOnAxis(i, rows, srows);
    TileOriginOnAxis(j, cols, scols);
    assert TileIndex(i * srows, j * scols, cols, srows, scols) == i * n + j;
  }
}
