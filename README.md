# Segmented raster storage: geometry and session model

GRASS GIS's `pygrass` wraps the C segment library in a `Segment` class
(`python/grass/pygrass/raster/segment.py`). The C library lets a program use a
raster much larger than memory. It cuts the current region's window
(`rows x cols` cells) into `srows x scols` tiles, called segments, and pages
them between memory and a temp file. The Python class does three things itself:

- integer geometry: how many tiles cover the window (`nseg`), how many to keep in
  memory (`segments_in_mem`), and which segment number a cell gets
  (`get_seg_number`);
- the scratch cell `val`, which `get` writes and `put` reads;
- the session lifecycle: `format` / `init` or `open`, then `get`, `put`,
  `get_row`, `put_row` and `flush`, then `release` or `close`.

The project has two modules:

- `geometry.dfy`, module `SegmentGeometry`. It holds these functions on integers:
  - `FloorDiv`: Python 2's `/` on ints, which is floor division;
  - `NSeg`: the tile count;
  - `SegmentsInMem`: the in-memory budget;
  - `SegNumber`: `get_seg_number` as written;
  - `TileIndex`: the corrected tile numbering.

  Lemmas relate these functions to independent definitions. The ceiling of a
  quotient is one. Another is the set of tiles that the window's cells actually
  fall into.
- `session.dfy`, module `SegmentSession`. It holds the class
  `Segment<T>`, which models the grid abstractly: a map from cells to known
  values, and a flag for updates that have not been flushed yet. It also holds
  the lifecycle phase, the temp file's existence, and the budget and cell size
  handed to the library. A few client methods show what the contracts give
  together.

## Model

| member | source | states |
|---|---|---|
| `SegmentGeometry.FloorDiv` | python/grass/pygrass/raster/segment.py:29-32 | `/` on two ints is floor division: for b > 0, q*b <= a < q*b + b; for b < 0 the mirrored bounds; a zero divisor is excluded (ZeroDivisionError) |
| `SegmentGeometry.TilesAlongIsCeiling` | python/grass/pygrass/raster/segment.py:30-31 | `(n + s - 1) / s` is the ceiling of n / s: non-negative, and (t - 1)*s < n <= t*s, so a partly filled edge tile counts as a whole tile |
| `SegmentGeometry.TilesTouchedIsGrid` | python/grass/pygrass/raster/segment.py:26-32 | the tiles that the window's cells fall into are exactly the ceil(rows/srows) x ceil(cols/scols) arrangement of tile coordinates |
| `SegmentGeometry.NSegCountsTouchedTiles` | python/grass/pygrass/raster/segment.py:26-32 | `nseg` equals the number of distinct tiles that some cell of the window falls into |
| `SegmentGeometry.NSegPositive` | python/grass/pygrass/raster/segment.py:26-32 | `nseg` is never negative, and it is at least 1 exactly when rows >= 1 and cols >= 1 |
| `SegmentGeometry.NSegTenByTenExample` | python/grass/pygrass/raster/segment.py:26-32 | a 10 x 10 window with 4 x 4 tiles needs 9 tiles |
| `SegmentGeometry.SegmentsInMem` | python/grass/pygrass/raster/segment.py:34-41 | the budget is never 0, for any maxmem and any non-zero tile extents |
| `SegmentGeometry.SegmentsInMemAtLeastOne` | python/grass/pygrass/raster/segment.py:34-41 | with positive tile extents the budget is at least 1 in both branches |
| `SegmentGeometry.SegmentsInMemFraction` | python/grass/pygrass/raster/segment.py:35-40 | for 0 < maxmem < 100 the budget is max(1, maxmem*nseg/100), never more than nseg when nseg >= 1, and non-decreasing in maxmem |
| `SegmentGeometry.SegmentsInMemPerAxis` | python/grass/pygrass/raster/segment.py:37-38 | for any other maxmem the budget is 4*(rows/srows + cols/scols + 2) with floor division, is at least 8, and does not depend on maxmem |
| `SegmentGeometry.SegmentsInMemExamples` | python/grass/pygrass/raster/segment.py:14-41 | 10 x 10 with 4 x 4 tiles: 50% gives 4; the default maxmem = 100 gives 24, more than the 9 tiles there are; a 0 result is clamped to 1 |
| `SegmentGeometry.SegNumberIsTileConstant` | python/grass/pygrass/raster/segment.py:114-116 | the segment number depends only on the cell's tile: it equals the number of the tile's top-left cell |
| `SegmentGeometry.SegNumberInRange` | python/grass/pygrass/raster/segment.py:114-116 | for a cell inside the window the segment number lies in [0, nseg) |
| `SegmentGeometry.SegNumberWhenDivisible` | python/grass/pygrass/raster/segment.py:116 | when scols divides cols the number is tileRow*(cols/scols) + tileCol, which equals the corrected TileIndex |
| `SegmentGeometry.SegNumberRowOffset` | python/grass/pygrass/raster/segment.py:116 | as written, tile row tr starts at floor(tr*cols/scols); corrected, at tr*ceil(cols/scols); when scols does not divide cols, every tile row after the first starts strictly lower as written |
| `SegmentGeometry.SegNumberCollides` | python/grass/pygrass/raster/segment.py:116 | when scols does not divide cols and the window has a second tile row, two cells inside the window, in different tiles, get the same segment number |
| `SegmentGeometry.SegNumberCollisionExample` | python/grass/pygrass/raster/segment.py:116 | 10 x 10 with 4 x 4 tiles: cells (0,8) and (4,0) lie in tiles (0,2) and (1,0), yet both get number 2; tile rows start at 0, 2, 5 as written against 0, 3, 6 corrected, and cell (9,9) gets 7 against 8 |
| `SegmentGeometry.TileIndexInRange` | python/grass/pygrass/raster/segment.py:114-116 | corrected numbering: every cell of the window gets an index in [0, nseg) |
| `SegmentGeometry.TileIndexInjective` | python/grass/pygrass/raster/segment.py:114-116 | corrected numbering: two cells get the same index if and only if they lie in the same tile |
| `SegmentGeometry.TileIndexOnto` | python/grass/pygrass/raster/segment.py:114-116 | corrected numbering: every number in [0, nseg) is the index of a tile's top-left cell inside the window |
| `SegmentSession.Segment.constructor` | python/grass/pygrass/raster/segment.py:14-18 | records srows, scols and maxmem, with defaults 64, 64 and 100; no file exists yet, `val` is not set, and nothing is known or pending |
| `SegmentSession.Segment.Format` | python/grass/pygrass/raster/segment.py:60-88 | creates the segment file; with `fill` (default true) every window cell holds the zero element, without it no cell is defined; nothing is pending |
| `SegmentSession.Segment.Init` | python/grass/pygrass/raster/segment.py:90-94 | attaches to the formatted file (or the one a released session left) with budget `segments_in_mem`; reopening with mode "w" truncates it, so no cell stays defined; `val` is untouched |
| `SegmentSession.Segment.Reattach` | python/grass/pygrass/raster/segment.py:90-94 | `init` corrected: attaches to the formatted file with budget `segments_in_mem` without truncating it, so every cell `format` wrote stays known |
| `SegmentSession.Segment.Open` | python/grass/pygrass/raster/segment.py:43-58 | `val` becomes the default element; a new temp file is attached with `nseg` handed over as the tile budget; it ends flushed, so nothing is pending |
| `SegmentSession.Segment.GetRow` | python/grass/pygrass/raster/segment.py:96-99 | needs nothing pending; returns `cols` values that agree with every known cell of the row |
| `SegmentSession.Segment.PutRow` | python/grass/pygrass/raster/segment.py:101-103 | the row's cells take the buffer's values, every other cell is unchanged, and the update is pending |
| `SegmentSession.Segment.Get` | python/grass/pygrass/raster/segment.py:105-108 | overwrites `val` with the cell's value (if known), returns it, and changes nothing else |
| `SegmentSession.Segment.Put` | python/grass/pygrass/raster/segment.py:110-112 | writes the current `val` into that one cell, changes no other cell, and leaves the update pending |
| `SegmentSession.Segment.Flush` | python/grass/pygrass/raster/segment.py:118-124 | clears the pending flag and changes nothing else |
| `SegmentSession.Segment.Release` | python/grass/pygrass/raster/segment.py:130-135 | ends the session without flushing or closing: the grid, the pending flag and the file stay as they were |
| `SegmentSession.Segment.Close` | python/grass/pygrass/raster/segment.py:126-128 | frees the segment and deletes the temp file; nothing is stored any more, and the phase is terminal |
| `SegmentSession.CopyCell` | python/grass/pygrass/raster/segment.py:105-112 | `get(r1,c1)` then `put(r2,c2)` copies the source cell into the target, leaves every other cell alone, and leaves the copy pending |
| `SegmentSession.PutThenGet` | python/grass/pygrass/raster/segment.py:105-124 | a put followed by a get of the same cell returns the value put, with or without a flush in between |
| `SegmentSession.PutRowThenRead` | python/grass/pygrass/raster/segment.py:96-124 | put_row, then flush, then get_row returns the same row, and get returns the same cell value |
| `SegmentSession.PutThenRelease` | python/grass/pygrass/raster/segment.py:110-135 | after put then release, the update is still pending and the file still exists |
| `SegmentSession.ReleaseThenInit` | python/grass/pygrass/raster/segment.py:90-94 | `release` leaves the temp file, so a second `init` re-attaches to it with budget `segments_in_mem`; the truncation leaves no cell known and nothing pending, and `val` is kept |
| `SegmentSession.FormatThenInit` | python/grass/pygrass/raster/segment.py:60-94 | as written: after `format` has filled every cell, `init` leaves no cell known and `val` unset, so nothing format wrote can be read |
| `SegmentSession.FormatThenReattach` | python/grass/pygrass/raster/segment.py:60-99 | corrected: after `format` and the non-truncating attach, every cell holds the zero element and `get_row` returns it for the whole row |
| `SegmentSession.Session` | python/grass/pygrass/raster/segment.py:14-58 | the constructor defaults, then open (budget = nseg >= 1), put, flush, get_row and close, end with the file deleted |

## Left out

- The paging engine (`libseg.Segment_*`) is not modelled: tile residency, eviction, dirty tracking, the disk layout and row copy-in/copy-out. The grid is an abstract map from cells to known values, and `pending` is a single flag.
- File handling is modelled only as far as it decides cell values: the temp file's existence (`hasFile`) and the truncation caused by `init` reopening the file with mode "w" (Init empties the grid). `G_tempfile`, the file objects themselves, `fileno()`, the `file_name` parameters of `format` and `init`, and the `mapobj.temp_file` field are not modelled.
- SegmentSession.Segment.GetRow: `get_row` fills the caller's buffer object in place and returns that same object. The model returns a new sequence, so the aliasing between the argument and the result is not captured.
- The element type lookup through `RTYPE` and `ctypes.sizeof` is not modelled. The element type is the type parameter `T`. Its default value and byte size are the parameters `zero` and `size`, and the size is assumed positive.
- `Segment.rows` / `Segment.cols` (`Rast_window_rows` / `Rast_window_cols`) become constructor parameters. They are fixed for the object's lifetime, so a region change during a session is not modelled.
- `c_seg`, the ctypes pointer to the C control block, is not modelled. The lifecycle phase stands for its state.
- Python 3 true division is not modelled. Under it, `nseg` for 10 x 10 with 4 x 4 tiles would be `int(3.25 * 3.25) == 10`, and `get_seg_number` would return fractions. The model uses Python 2's integer floor division.
- SegmentGeometry.SegNumber: line 116 uses `self.cols` without calling it, which would raise TypeError. The model reads it as the window's column count.
- SegmentSession.Segment.Init: line 94 passes the bound method `self.segments_in_mem` to `Segment_init` without calling it. The model passes its value.
- SegmentSession.Segment.Open: the model does not say what the file created by `Segment_open` initially holds, so no cell is known after `open`.
- SegmentSession.Segment.Close: modelled as the source documents it (free the memory and delete the temp file). It is not modelled as also flushing, and closing after `release` is not modelled.
- SegmentSession.Segment.Format and SegmentSession.Segment.Open: allowed only when no session is attached (before any session, after `format`, or after `release`). The Python object itself checks nothing. SegmentSession.Segment.Init needs a file this object formatted, or one a released session left behind, and no attached session. SegmentSession.Segment.Reattach needs a file this object formatted and no attached session. The other methods require an attached session, because the library's state is undefined otherwise.
- SegmentSession.Segment.Reattach: attaching again after `release` without a new `format` is not modelled for the corrected attach, because updates left pending by the released session have no defined place in the file.
- SegmentSession.Segment.Get and SegmentSession.Segment.Put: `get` and `put` read `self.val`, which only `open` assigns. After `format` and `init` alone they raise AttributeError. The model turns this into the precondition `val.Some?` instead of an error result.
- Division by a zero tile extent is not modelled as an error result: the functions that divide require non-zero `srows` / `scols`, where Python raises ZeroDivisionError.

## Findings

| source | as written | input that shows it | evidently intended | confidence | as-written member | corrected member |
|---|---|---|---|---|---|---|
| python/grass/pygrass/raster/segment.py:116 | `row / srows * cols / scols + col / scols`, evaluated left to right, starts tile row tr at floor(tr*cols/scols), which is below tr*ceil(cols/scols) once scols does not divide cols | 10 x 10 window, 4 x 4 tiles: cells (0,8) and (4,0) lie in different tiles and both get 2 | start tile row tr at tr*ceil(cols/scols), the number of tiles per tile row that `nseg` counts, so every tile gets its own number in [0, nseg) | medium, not executed | `SegmentGeometry.SegNumberCollides` | `SegmentGeometry.TileIndexInjective` |
| python/grass/pygrass/raster/segment.py:90-94 | `init` reopens the formatted file with mode "w", which truncates it, so the tiles `format` wrote (filled by default) are lost before `Segment_init` attaches | `format` with the default fill, then `init`, on any non-empty window: no cell holds the zero element any more | reopen the file for reading and writing without truncating it, so the session sees what `format` wrote | medium, not executed | `SegmentSession.FormatThenInit` | `SegmentSession.FormatThenReattach` |
