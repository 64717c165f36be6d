/**
 * The `Segment` object of python/grass/pygrass/raster/segment.py as a class.
 *
 * The real paging engine (which tiles are resident, dirty tracking, the disk
 * layout, row copy-in and copy-out) lives in GRASS's C segment library and is
 * not modelled.  The class keeps what the Python object and the library's
 * documented contract make observable:
 *   - `grid`, the cell values the session is known to hold (a cell missing
 *     from the map has no defined value yet: an unfilled file, or one that was
 *     truncated on reopening);
 *   - `pending`, whether updates made by put/put_row may not have reached the
 *     segment file yet;
 *   - `val`, the scratch cell that `get` writes and `put` reads;
 *   - `phase` and `hasFile`, the session lifecycle and the temp file;
 *   - `budget` and `cellSize`, what was handed to the library when attaching.
 * The window size (Rast_window_rows / Rast_window_cols) is fixed per object
 * and given to the constructor.
 */
module SegmentSession {
  import opened SegmentGeometry

  datatype Option<T> = None | Some(value: T)

  /** Where a Segment object is in its life. */
  datatype Phase =
    | Created     // constructed: tile shape and maxmem recorded, no file yet
    | Formatted   // a segment file has been formatted but no session is attached
    | Active      // the segment library is paging the file (after open or init)
    | Released    // the library's memory is freed; the file is neither flushed nor closed
    | Closed      // memory freed and the temp file deleted: terminal

  type Cell = (int, int)

  /** Every cell of a rows x cols window holding v (a freshly filled file). */
  function Filled<T>(rows: nat, cols: nat, v: T): (g: map<Cell, T>)
    ensures forall p :: p in g <==> 0 <= p.0 < rows && 0 <= p.1 < cols
    ensures forall p :: p in g ==> g[p] == v
  {
    map r: int, c: int | 0 <= r < rows && 0 <= c < cols :: (r, c) := v
  }

  /** The cells (row, 0) .. (row, |buf| - 1) holding the values of buf. */
  function RowCells<T>(row: int, buf: seq<T>): (g: map<Cell, T>)
    ensures forall p :: p in g <==> p.0 == row && 0 <= p.1 < |buf|
    ensures forall c :: 0 <= c < |buf| ==> g[(row, c)] == buf[c]
  {
    map c: int | 0 <= c < |buf| :: (row, c) := buf[c]
  }

  class Segment<T(0)> {
    const srows: int
    const scols: int
    const maxmem: int
    const rows: nat
    const cols: nat

    var val: Option<T>
    var grid: map<Cell, T>
    var pending: bool
    var phase: Phase
    var hasFile: bool
    var budget: int
    var cellSize: int

    predicate InWindow(p: Cell) {
      0 <= p.0 < rows && 0 <= p.1 < cols
    }

    /** The object invariant: known cells lie in the window, and the phase
        determines whether a file exists and whether anything can be pending. */
    ghost predicate Valid()
      reads this
    {
      && (forall p :: p in grid ==> InWindow(p))
      && (phase == Created ==> !hasFile && val.None? && grid == map[] && !pending)
      && (phase == Formatted ==> hasFile && !pending)
      && (phase == Active ==> hasFile)
      && (phase == Released ==> hasFile)
      && (phase == Closed ==> !hasFile && grid == map[] && !pending)
    }

    /** `Segment.__init__`: records the tile shape and the memory policy with
        the same defaults (64 x 64 tiles, maxmem = 100); nothing is allocated
        on disk and `val` does not exist yet. */
    constructor (rows: nat, cols: nat, srows: int := 64, scols: int := 64, maxmem: int := 100)
      ensures Valid()
      ensures this.rows == rows && this.cols == cols
      ensures this.srows == srows && this.scols == scols && this.maxmem == maxmem
      ensures phase == Created && !hasFile && val == None && grid == map[] && !pending
    {
      this.rows, this.cols := rows, cols;
      this.srows, this.scols, this.maxmem := srows, scols, maxmem;
      val := None;
      grid := map[];
      pending := false;
      phase := Created;
      hasFile := false;
      budget := 0;
      cellSize := 0;
    }

    /** `Segment.format`: creates a new segment file for the window.  With
        `fill` (the default) every cell is written with the zero element;
        without it the file is only sized and no cell has a defined value. */
    method Format(zero: T, size: int, fill: bool := true)
      requires Valid() && size > 0
      requires phase == Created || phase == Formatted || phase == Released
      modifies this
      ensures Valid()
      ensures phase == Formatted && hasFile && !pending && cellSize == size
      ensures grid == if fill then Filled(rows, cols, zero) else map[]
      ensures val == old(val) && budget == old(budget)
    {
      phase := Formatted;
      hasFile := true;
      pending := false;
      cellSize := size;
      grid := if fill then Filled(rows, cols, zero) else map[];
    }

    /** `Segment.init`: attaches the library to the formatted file with a
        budget of `segments_in_mem` tiles.  The source passes the bound method
        `self.segments_in_mem` without calling it; the model passes its value.
        The file is reopened with mode "w", which truncates it, so no cell
        keeps a defined value and nothing left pending survives.  After
        `release` the file is still there, so `init` may attach to it again.
        `val` is left as it was: only `open` sets it. */
    method Init()
      requires Valid() && (phase == Formatted || phase == Released)
      requires srows != 0 && scols != 0
      modifies this
      ensures Valid()
      ensures phase == Active && hasFile && !pending && grid == map[]
      ensures budget == SegmentsInMem(rows, cols, srows, scols, maxmem)
      ensures val == old(val) && cellSize == old(cellSize)
    {
      phase := Active;
      grid := map[];
      pending := false;
      budget := SegmentsInMem(rows, cols, srows, scols, maxmem);
    }

    /** `Segment.init` as evidently intended: the formatted file is reopened
        for reading and writing without truncating it, so the session sees
        what `format` wrote.  Everything else is as in Init. */
    method Reattach()
      requires Valid() && phase == Formatted
      requires srows != 0 && scols != 0
      modifies this`phase, this`budget
      ensures Valid()
      ensures phase == Active && hasFile && !pending
      ensures grid == old(grid)
      ensures budget == SegmentsInMem(rows, cols, srows, scols, maxmem)
    {
      phase := Active;
      budget := SegmentsInMem(rows, cols, srows, scols, maxmem);
    }

    /** `Segment.open`: sets `val` to the element type's default, has the
        library create and attach a new temp file keeping all `nseg` tiles in
        memory, and ends with a flush, so nothing is pending. */
    method Open(zero: T, size: int)
      requires Valid() && size > 0
      requires phase == Created || phase == Formatted || phase == Released
      requires srows != 0 && scols != 0
      modifies this
      ensures Valid()
      ensures phase == Active && hasFile && grid == map[] && cellSize == size
      ensures val == Some(zero)
      ensures budget == NSeg(rows, cols, srows, scols)
      ensures !pending
    {
      val := Some(zero);
      cellSize := size;
      phase := Active;
      hasFile := true;
      grid := map[];
      budget := NSeg(rows, cols, srows, scols);
      Flush();
    }

    /** `Segment.get_row`: the values of one row of the window.  The caller
        must have flushed after the last put. */
    method GetRow(row: int) returns (buf: seq<T>)
      requires Valid() && phase == Active && !pending
      requires 0 <= row < rows
      ensures |buf| == cols
      ensures forall c :: 0 <= c < cols && (row, c) in grid ==> buf[c] == grid[(row, c)]
    {
      var g := grid;
      var unknown: T := *;
      buf := seq(cols, c requires 0 <= c < cols => if (row, c) in g then g[(row, c)] else unknown);
    }

    /** `Segment.put_row`: writes a whole row; the update is pending until the
        next flush. */
    method PutRow(row: int, buf: seq<T>)
      requires Valid() && phase == Active
      requires 0 <= row < rows && |buf| == cols
      modifies this`grid, this`pending
      ensures Valid()
      ensures grid == old(grid) + RowCells(row, buf)
      ensures pending
    {
      grid := grid + RowCells(row, buf);
      pending := true;
    }

    /** `Segment.get`: copies cell (row, col) into the scratch field `val` and
        returns it.  Only `val` changes. */
    method Get(row: int, col: int) returns (v: T)
      requires Valid() && phase == Active && val.Some?
      requires InWindow((row, col))
      modifies this`val
      ensures Valid()
      ensures val == Some(v)
      ensures (row, col) in grid ==> v == grid[(row, col)]
    {
      var unknown: T := *;
      v := if (row, col) in grid then grid[(row, col)] else unknown;
      val := Some(v);
    }

    /** `Segment.put`: writes whatever `val` holds into cell (row, col) and
        changes no other cell; the update is pending until the next flush. */
    method Put(row: int, col: int)
      requires Valid() && phase == Active && val.Some?
      requires InWindow((row, col))
      modifies this`grid, this`pending
      ensures Valid()
      ensures grid == old(grid)[(row, col) := val.value]
      ensures pending
    {
      grid := grid[(row, col) := val.value];
      pending := true;
    }

    /** `Segment.flush`: forces pending updates to the segment file. */
    method Flush()
      requires Valid() && phase == Active
      modifies this`pending
      ensures Valid()
      ensures !pending
    {
      pending := false;
    }

    /** `Segment.release`: frees the library's memory.  It neither flushes nor
        closes the file: pending updates stay pending and the file stays. */
    method Release()
      requires Valid() && phase == Active
      modifies this`phase
      ensures Valid()
      ensures phase == Released
    {
      phase := Released;
    }

    /** `Segment.close`: frees the library's memory and deletes the temp file;
        nothing is stored any more and the object is finished. */
    method Close()
      requires Valid() && phase == Active
      modifies this`phase, this`hasFile, this`grid, this`pending
      ensures Valid()
      ensures phase == Closed && !hasFile && grid == map[] && !pending
    {
      phase := Closed;
      hasFile := false;
      grid := map[];
      pending := false;
    }
  }

  /** `get(r1, c1)` followed by `put(r2, c2)` copies a cell: the target takes
      the source cell's value, every other cell is unchanged, and the copy is
      pending until the next flush. */
  method CopyCell<T(0)>(s: Segment<T>, r1: int, c1: int, r2: int, c2: int) returns (v: T)
    requires s.Valid() && s.phase == Active && s.val.Some?
    requires s.InWindow((r1, c1)) && s.InWindow((r2, c2))
    modifies s
    ensures s.Valid() && s.phase == Active
    ensures s.val == Some(v) && s.pending
    ensures s.grid == old(s.grid)[(r2, c2) := v]
    ensures (r1, c1) in old(s.grid) ==> s.grid[(r2, c2)] == old(s.grid)[(r1, c1)]
    ensures forall p :: p in old(s.grid) && p != (r2, c2) ==> p in s.grid && s.grid[p] == old(s.grid)[p]
  {
    v := s.Get(r1, c1);
    s.Put(r2, c2);
  }

  /** A put followed by a get of the same cell returns the value put, with or
      without a flush in between. */
  method PutThenGet<T(0)>(s: Segment<T>, row: int, col: int, flush: bool) returns (v: T)
    requires s.Valid() && s.phase == Active && s.val.Some?
    requires s.InWindow((row, col))
    modifies s
    ensures s.Valid() && s.phase == Active
    ensures v == old(s.val).value && s.val == old(s.val)
    ensures s.pending == !flush
  {
    s.Put(row, col);
    if flush {
      s.Flush();
    }
    v := s.Get(row, col);
  }

  /** A row written with put_row and flushed reads back unchanged through
      get_row, and cell by cell through get. */
  method PutRowThenRead<T(0)>(s: Segment<T>, row: int, buf: seq<T>, col: int) returns (back: seq<T>, v: T)
    requires s.Valid() && s.phase == Active && s.val.Some?
    requires 0 <= row < s.rows && |buf| == s.cols && 0 <= col < s.cols
    modifies s
    ensures s.Valid() && s.phase == Active && !s.pending
    ensures back == buf
    ensures v == buf[col]
  {
    s.PutRow(row, buf);
    s.Flush();
    back := s.GetRow(row);
    v := s.Get(row, col);
  }

  /** Releasing after a put leaves the update pending and the file in place;
      only closing deletes the file, after which nothing is stored. */
  method PutThenRelease<T(0)>(s: Segment<T>, row: int, col: int)
    requires s.Valid() && s.phase == Active && s.val.Some?
    requires s.InWindow((row, col))
    modifies s
    ensures s.Valid()
    ensures s.phase == Released && s.hasFile && s.pending
    ensures s.grid == old(s.grid)[(row, col) := old(s.val).value]
  {
    s.Put(row, col);
    s.Release();
  }

  /** After `release` the temp file is still there, so `init` can attach to
      it again; the "w" reopen truncates it, losing even the pending updates. */
  method ReleaseThenInit<T(0)>(s: Segment<T>)
    requires s.Valid() && s.phase == Active && s.srows != 0 && s.scols != 0
    modifies s
    ensures s.Valid() && s.phase == Active && s.hasFile && !s.pending && s.grid == map[]
    ensures s.budget == SegmentsInMem(s.rows, s.cols, s.srows, s.scols, s.maxmem)
    ensures s.val == old(s.val)
  {
    s.Release();
    s.Init();
  }

  /** The format / init path as written: `format` fills every cell with the
      zero element, but `init` truncates the file, so afterwards no cell is
      known; and since only `open` sets `val`, get and put cannot be used. */
  method FormatThenInit<T(0)>(rows: nat, cols: nat, zero: T, size: int) returns (s: Segment<T>, formatted: map<Cell, T>)
    requires rows >= 1 && cols >= 1 && size > 0
    ensures formatted == Filled(rows, cols, zero) && (0, 0) in formatted
    ensures s.phase == Active && s.hasFile && !s.pending
    ensures s.grid == map[] && s.val == None
  {
    s := new Segment(rows, cols);
    s.Format(zero, size);
    formatted := s.grid;
    s.Init();
  }

  /** The format / init path with the file kept: every cell of the window
      reads back as the zero element that `format` wrote. */
  method FormatThenReattach<T(0)>(rows: nat, cols: nat, zero: T, size: int) returns (s: Segment<T>, row: seq<T>)
    requires rows >= 1 && cols >= 1 && size > 0
    ensures s.phase == Active && s.hasFile && !s.pending
    ensures s.grid == Filled(rows, cols, zero)
    ensures |row| == cols && forall c :: 0 <= c < cols ==> row[c] == zero
  {
    s := new Segment(rows, cols);
    s.Format(zero, size);
    s.Reattach();
    row := s.GetRow(0);
  }

  /** A whole session with the constructor defaults: open, write a cell,
      flush, read its row back, close. */
  method Session<T(0)>(rows: nat, cols: nat, zero: T, size: int) returns (s: Segment<T>, row: seq<T>)
    requires rows >= 1 && cols >= 1 && size > 0
    ensures s.phase == Closed && !s.hasFile
    ensures s.budget == NSeg(rows, cols, 64, 64) >= 1
    ensures |row| == cols && row[0] == zero
  {
    s := new Segment(rows, cols);
    s.Open(zero, size);
    NSegPositive(rows, cols, 64, 64);
    s.Put(0, 0);
    s.Flush();
    row := s.GetRow(0);
    s.Close();
  }
}
