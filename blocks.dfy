/** The block pass of `retrieve`: the window check, the conversion of the window
    to cell units, and the descriptor it assembles from the cell grid. */
module BlockPass {
  import opened Wrappers
  import opened Histogram
  import opened HogConfig
  import opened BlockNormalize
  import opened CellPass

  /** `cv::Rect`: a window in pixels, with `int` fields. */
  datatype Rect = Rect(x: int, y: int, width: int, height: int)

  /** The two exceptions of `retrieve`. */
  datatype WindowError = WindowTooSmall | WindowOutOfBounds

  const INT32_MIN: int := -0x8000_0000
  const INT32_MAX: int := 0x7fff_ffff
  const SIZE_T_MODULUS: int := 0x1_0000_0000_0000_0000

  predicate Int32(v: int)
  {
    INT32_MIN <= v <= INT32_MAX
  }

  /** The window's fields are values of C++ `int`. */
  predicate RectInt32(w: Rect)
  {
    Int32(w.x) && Int32(w.y) && Int32(w.width) && Int32(w.height)
  }

  /** An `int` converted to `size_t`: taken modulo 2^64. */
  function AsSizeT(v: int): (r: nat)
    ensures 0 <= v < SIZE_T_MODULUS ==> r == v
    ensures INT32_MIN <= v < 0 ==> r >= SIZE_T_MODULUS + INT32_MIN
  {
    v % SIZE_T_MODULUS
  }

  /** The checks of `retrieve` as written. `window.height < _blocksize` compares an
      `int` with a `size_t`, so a negative height or width is converted to a huge
      unsigned value and passes; nothing checks that `x` and `y` are not negative. */
  function CheckWindowAsWritten(c: Config, w: Rect, rows: int, cols: int): Option<WindowError>
  {
    if AsSizeT(w.height) < c.blocksize || AsSizeT(w.width) < c.blocksize then Some(WindowTooSmall)
    else if w.x > cols - w.width || w.y > rows - w.height then Some(WindowOutOfBounds)
    else None
  }

  /** The corrected checks: the window must be at least one block in each direction
      and lie inside the `rows × cols` maps. */
  function CheckWindow(c: Config, w: Rect, rows: int, cols: int): (r: Option<WindowError>)
    ensures r == None <==>
      c.blocksize <= w.width && c.blocksize <= w.height
      && 0 <= w.x && w.x + w.width <= cols && 0 <= w.y && w.y + w.height <= rows
    ensures r == Some(WindowTooSmall) <==> w.width < c.blocksize || w.height < c.blocksize
  {
    if w.height < c.blocksize || w.width < c.blocksize then Some(WindowTooSmall)
    else if w.x < 0 || w.y < 0 || w.x > cols - w.width || w.y > rows - w.height then Some(WindowOutOfBounds)
    else None
  }

  /** The window in cell units (`x`, `y`, `width`, `height` divided by the cell size). */
  datatype CellWindow = CellWindow(x: nat, y: nat, width: nat, height: nat)

  function ToCells(c: Config, w: Rect): CellWindow
    requires c.Valid() && w.x >= 0 && w.y >= 0 && w.width >= 0 && w.height >= 0
  {
    CellWindow(w.x / c.cellsize, w.y / c.cellsize, w.width / c.cellsize, w.height / c.cellsize)
  }

  /** Block positions along an extent of `extent` cells: from the first cell while
      the block still fits, `cpb` cells wide, `step` cells apart. */
  function BlockCount(extent: nat, cpb: nat, step: nat): nat
    requires step >= 1 && extent >= cpb
  {
    (extent - cpb) / step + 1
  }

  /** Block position k along an extent: `k` steps of `step` cells from `origin`. */
  function Position(origin: nat, k: nat, step: nat): nat
  {
    origin + k * step
  }

  /** The values in one scan row: `_block_hist_size` for each block position. */
  function ScanRowLength(c: Config, cw: CellWindow): nat
    requires c.Valid() && cw.width >= c.CellsPerBlock()
  {
    BlockCount(cw.width, c.CellsPerBlock(), c.StrideUnit()) * c.BlockHistSize()
  }

  /** The cell histogram at (i, j), or nothing outside the grid. */
  function GridCell(grid: seq<seq<seq<real>>>, i: nat, j: nat): seq<real>
  {
    if i < |grid| && j < |grid[i]| then grid[i][j] else []
  }

  /** The cells of the `cpb × cpb` block at cell (`blockY`, `blockX`), concatenated in
      row-major order. */
  function BlockHist(grid: seq<seq<seq<real>>>, blockY: nat, blockX: nat, cpb: nat): seq<real>
  {
    Concat(BlockRows(grid, blockY, blockX, cpb))
  }

  function BlockRows(grid: seq<seq<seq<real>>>, blockY: nat, blockX: nat, cpb: nat): (rows: seq<seq<real>>)
    ensures |rows| == cpb
  {
    seq(cpb, r requires 0 <= r < cpb => BlockRow(grid, blockY + r, blockX, cpb))
  }

  /** One row of a block: `cpb` cells of grid row `cy` from column `blockX`. */
  function BlockRow(grid: seq<seq<seq<real>>>, cy: nat, blockX: nat, cpb: nat): seq<real>
  {
    Concat(RowCells(grid, cy, blockX, cpb))
  }

  function RowCells(grid: seq<seq<seq<real>>>, cy: nat, blockX: nat, cpb: nat): (cells: seq<seq<real>>)
    ensures |cells| == cpb
  {
    seq(cpb, col requires 0 <= col < cpb => GridCell(grid, cy, blockX + col))
  }

  /** One row of the scan: the normalized blocks at block row `blockY`, left to right. */
  function DescriptorRow(c: Config, grid: seq<seq<seq<real>>>, blockY: nat, cw: CellWindow, sqrt: real -> real): seq<real>
    requires c.Valid() && cw.width >= c.CellsPerBlock()
  {
    Concat(RowBlocks(c, grid, blockY, cw, sqrt))
  }

  function RowBlocks(c: Config, grid: seq<seq<seq<real>>>, blockY: nat, cw: CellWindow, sqrt: real -> real)
    : (blocks: seq<seq<real>>)
    requires c.Valid() && cw.width >= c.CellsPerBlock()
    ensures |blocks| == BlockCount(cw.width, c.CellsPerBlock(), c.StrideUnit())
  {
    var cpb, su := c.CellsPerBlock(), c.StrideUnit();
    seq(BlockCount(cw.width, cpb, su), s requires 0 <= s =>
      Normalized(c.norm, BlockHist(grid, blockY, Position(cw.x, s, su), cpb), sqrt))
  }

  /** The descriptor of a cell window: every block position in row-major scan
      order, each block normalized, all laid end to end. */
  function Descriptor(c: Config, grid: seq<seq<seq<real>>>, cw: CellWindow, sqrt: real -> real): seq<real>
    requires c.Valid() && cw.width >= c.CellsPerBlock() && cw.height >= c.CellsPerBlock()
  {
    Concat(ScanRows(c, grid, cw, sqrt))
  }

  function ScanRows(c: Config, grid: seq<seq<seq<real>>>, cw: CellWindow, sqrt: real -> real): (rows: seq<seq<real>>)
    requires c.Valid() && cw.width >= c.CellsPerBlock() && cw.height >= c.CellsPerBlock()
    ensures |rows| == BlockCount(cw.height, c.CellsPerBlock(), c.StrideUnit())
  {
    var cpb, su := c.CellsPerBlock(), c.StrideUnit();
    seq(BlockCount(cw.height, cpb, su), t requires 0 <= t => DescriptorRow(c, grid, Position(cw.y, t, su), cw, sqrt))
  }

  /** What `retrieve` returns for a window over `rows × cols` maps with cell grid `grid`. */
  function RetrieveResult(c: Config, grid: seq<seq<seq<real>>>, rows: nat, cols: nat, w: Rect, sqrt: real -> real)
    : (r: Result<seq<real>, WindowError>)
    requires c.Valid()
    ensures r.Err? <==> CheckWindow(c, w, rows, cols).Some?
  {
    match CheckWindow(c, w, rows, cols)
    case Some(e) => Err(e)
    case None =>
      WindowInGrid(c, w, rows, cols);
      Ok(Descriptor(c, grid, ToCells(c, w), sqrt))
  }

  /** A block row, appended after `prefix`, extended by one cell. */
  lemma RowCellsStep(prefix: seq<real>, grid: seq<seq<seq<real>>>, cy: nat, blockX: nat, cpb: nat, k: nat)
    requires k < cpb && cy < |grid| && blockX + k < |grid[cy]|
    ensures prefix + Concat(RowCells(grid, cy, blockX, cpb)[..k + 1])
            == (prefix + Concat(RowCells(grid, cy, blockX, cpb)[..k])) + grid[cy][blockX + k]
  {
    ConcatPrefixStep(RowCells(grid, cy, blockX, cpb), k);
    assert RowCells(grid, cy, blockX, cpb)[k] == GridCell(grid, cy, blockX + k);
  }

  /** A block extended by one block row. */
  lemma BlockRowsStep(grid: seq<seq<seq<real>>>, blockY: nat, blockX: nat, cpb: nat, r: nat)
    requires r < cpb
    ensures Concat(BlockRows(grid, blockY, blockX, cpb)[..r + 1])
            == Concat(BlockRows(grid, blockY, blockX, cpb)[..r]) + Concat(RowCells(grid, blockY + r, blockX, cpb)[..cpb])
  {
    ConcatPrefixStep(BlockRows(grid, blockY, blockX, cpb), r);
    assert BlockRows(grid, blockY, blockX, cpb)[r] == BlockRow(grid, blockY + r, blockX, cpb);
    assert RowCells(grid, blockY + r, blockX, cpb)[..cpb] == RowCells(grid, blockY + r, blockX, cpb);
  }

  /** All `cpb` rows of a block make the block. */
  lemma BlockRowsComplete(grid: seq<seq<seq<real>>>, blockY: nat, blockX: nat, cpb: nat)
    ensures Concat(BlockRows(grid, blockY, blockX, cpb)[..cpb]) == BlockHist(grid, blockY, blockX, cpb)
  {
    assert BlockRows(grid, blockY, blockX, cpb)[..cpb] == BlockRows(grid, blockY, blockX, cpb);
  }

  /** The scan of a block row, appended after `prefix`, extended by one block position. */
  lemma RowBlocksStep(prefix: seq<real>, c: Config, grid: seq<seq<seq<real>>>, blockY: nat, cw: CellWindow,
                      sqrt: real -> real, s: nat)
    requires c.Valid() && cw.width >= c.CellsPerBlock()
    requires s < BlockCount(cw.width, c.CellsPerBlock(), c.StrideUnit())
    ensures prefix + Concat(RowBlocks(c, grid, blockY, cw, sqrt)[..s + 1])
            == (prefix + Concat(RowBlocks(c, grid, blockY, cw, sqrt)[..s]))
               + Normalized(c.norm, BlockHist(grid, blockY, Position(cw.x, s, c.StrideUnit()), c.CellsPerBlock()), sqrt)
  {
    ConcatPrefixStep(RowBlocks(c, grid, blockY, cw, sqrt), s);
  }

  /** The scan of a block row, complete. */
  lemma RowBlocksComplete(c: Config, grid: seq<seq<seq<real>>>, blockY: nat, cw: CellWindow, sqrt: real -> real, s: nat)
    requires c.Valid() && cw.width >= c.CellsPerBlock()
    requires s == BlockCount(cw.width, c.CellsPerBlock(), c.StrideUnit())
    ensures Concat(RowBlocks(c, grid, blockY, cw, sqrt)[..s]) == DescriptorRow(c, grid, blockY, cw, sqrt)
  {
    assert RowBlocks(c, grid, blockY, cw, sqrt)[..s] == RowBlocks(c, grid, blockY, cw, sqrt);
  }

  /** The scan of a window extended by one block row. */
  lemma ScanRowsStep(c: Config, grid: seq<seq<seq<real>>>, cw: CellWindow, sqrt: real -> real, t: nat)
    requires c.Valid() && cw.width >= c.CellsPerBlock() && cw.height >= c.CellsPerBlock()
    requires t < BlockCount(cw.height, c.CellsPerBlock(), c.StrideUnit())
    ensures Concat(ScanRows(c, grid, cw, sqrt)[..t + 1])
            == Concat(ScanRows(c, grid, cw, sqrt)[..t]) + DescriptorRow(c, grid, Position(cw.y, t, c.StrideUnit()), cw, sqrt)
  {
    ConcatPrefixStep(ScanRows(c, grid, cw, sqrt), t);
  }

  /** The scan of a window, complete. */
  lemma ScanRowsComplete(c: Config, grid: seq<seq<seq<real>>>, cw: CellWindow, sqrt: real -> real, t: nat)
    requires c.Valid() && cw.width >= c.CellsPerBlock() && cw.height >= c.CellsPerBlock()
    requires t == BlockCount(cw.height, c.CellsPerBlock(), c.StrideUnit())
    ensures Concat(ScanRows(c, grid, cw, sqrt)[..t]) == Descriptor(c, grid, cw, sqrt)
  {
    assert ScanRows(c, grid, cw, sqrt)[..t] == ScanRows(c, grid, cw, sqrt);
  }

  // ----- Arithmetic on cell units -----

  lemma DivMonotone(a: nat, b: nat, d: nat)
    requires d >= 1 && a <= b
    ensures a / d <= b / d
  {
    if a / d > b / d {
      assert a == (a / d) * d + a % d;
      assert b == (b / d) * d + b % d;
      MulLe(b / d + 1, a / d, d);
    }
  }

  lemma DivAddBelow(a: nat, b: nat, d: nat)
    requires d >= 1
    ensures a / d + b / d <= (a + b) / d
  {
    var qa, qb := a / d, b / d;
    DivFloor(a, d);
    DivFloor(b, d);
    MulAdd(qa, qb, d);
    DivLowerBound(a + b, d, qa + qb);
  }

  lemma DivFloor(n: nat, d: nat)
    requires d >= 1
    ensures (n / d) * d <= n
  {
  }

  lemma MulAdd(x: nat, y: nat, d: nat)
    ensures (x + y) * d == x * d + y * d
  {
  }

  /** k·d ≤ n makes k a lower bound of n / d. */
  lemma DivLowerBound(n: nat, d: nat, k: nat)
    requires d >= 1 && k * d <= n
    ensures k <= n / d
  {
    assert n == (n / d) * d + n % d;
    if n / d < k {
      MulSucc(n / d, d);
      MulLe(n / d + 1, k, d);
    }
  }

  /** For a block count along `extent`: position t < count starts within the room
      left for a block, and the next position does not. */
  lemma StepBound(t: nat, room: nat, step: nat)
    requires step >= 1
    ensures t * step <= room <==> t < room / step + 1
  {
    var q := room / step;
    assert room == q * step + room % step;
    if t <= q {
      MulLe(t, q, step);
    } else {
      MulLe(q + 1, t, step);
    }
  }

  /** One step of a scan along an extent: block position k fits, the next position is
      `step` further, and it is a block position exactly when it still leaves room for a block. */
  lemma ScanStep(origin: nat, extent: nat, cpb: nat, step: nat, k: nat)
    requires step >= 1 && extent >= cpb && k < BlockCount(extent, cpb, step)
    ensures Position(origin, k, step) + cpb <= origin + extent
    ensures Position(origin, k + 1, step) == Position(origin, k, step) + step
    ensures k + 1 < BlockCount(extent, cpb, step) <==> Position(origin, k + 1, step) + cpb <= origin + extent
  {
    StepBound(k, extent - cpb, step);
    StepBound(k + 1, extent - cpb, step);
    assert (k + 1) * step == k * step + step;
  }

  /** A window the corrected check accepts is, in cell units, at least a block in
      each direction (so `y + height - _n_cells_per_block_y` does not wrap around)
      and inside the cell grid. */
  lemma WindowInGrid(c: Config, w: Rect, rows: nat, cols: nat)
    requires c.Valid() && CheckWindow(c, w, rows, cols) == None
    ensures WindowFits(c, ToCells(c, w), rows / c.cellsize, cols / c.cellsize)
  {
    var cs := c.cellsize;
    assert c.blocksize / cs == c.CellsPerBlock() by {
      DivModUnique(c.blocksize, cs, c.CellsPerBlock(), 0);
    }
    DivMonotone(c.blocksize, w.height, cs);
    DivMonotone(c.blocksize, w.width, cs);
    DivAddBelow(w.y, w.height, cs);
    DivMonotone(w.y + w.height, rows, cs);
    DivAddBelow(w.x, w.width, cs);
    DivMonotone(w.x + w.width, cols, cs);
  }

  /** Every cell a block at scan position (t, s) reads lies inside the cell grid. */
  lemma BlockCellsInGrid(c: Config, w: Rect, rows: nat, cols: nat, t: nat, s: nat)
    requires c.Valid() && CheckWindow(c, w, rows, cols) == None
    ensures var cw := ToCells(c, w);
      cw.height >= c.CellsPerBlock() && cw.width >= c.CellsPerBlock()
    ensures var cw := ToCells(c, w);
      var cpb, su := c.CellsPerBlock(), c.StrideUnit();
      t < BlockCount(cw.height, cpb, su) ==> Position(cw.y, t, su) + cpb <= rows / c.cellsize
    ensures var cw := ToCells(c, w);
      var cpb, su := c.CellsPerBlock(), c.StrideUnit();
      s < BlockCount(cw.width, cpb, su) ==> Position(cw.x, s, su) + cpb <= cols / c.cellsize
  {
    WindowInGrid(c, w, rows, cols);
    var cw := ToCells(c, w);
    var cpb, su := c.CellsPerBlock(), c.StrideUnit();
    StepBound(t, cw.height - cpb, su);
    StepBound(s, cw.width - cpb, su);
  }

  lemma SliceOfSlice(a: seq<real>, i: nat, j: nat, k: nat, l: nat)
    requires i <= j <= |a| && k <= l <= j - i
    ensures a[i..j][k..l] == a[i + k..i + l]
  {
    forall m | 0 <= m < l - k ensures a[i..j][k..l][m] == a[i + k..i + l][m] {
      assert a[i..j][k..l][m] == a[i + k + m];
    }
  }

  /** The cells of one block row, each a part of `bins` values. */
  lemma BlockRowCells(grid: seq<seq<seq<real>>>, ny: nat, nx: nat, bins: nat, cy: nat, blockX: nat, cpb: nat)
    requires GridShape(grid, ny, nx, bins)
    requires cy < ny && blockX + cpb <= nx
    ensures PartsOfLength(RowCells(grid, cy, blockX, cpb), bins)
  {
    var cells := RowCells(grid, cy, blockX, cpb);
    forall k | 0 <= k < cpb ensures |cells[k]| == bins {
      assert |grid[cy]| == nx;
      assert cells[k] == GridCell(grid, cy, blockX + k);
      assert cells[k] == grid[cy][blockX + k];
    }
  }

  lemma BlockRowLength(grid: seq<seq<seq<real>>>, ny: nat, nx: nat, bins: nat, cy: nat, blockX: nat, cpb: nat)
    requires GridShape(grid, ny, nx, bins)
    requires cy < ny && blockX + cpb <= nx
    ensures |BlockRow(grid, cy, blockX, cpb)| == cpb * bins
  {
    BlockRowCells(grid, ny, nx, bins, cy, blockX, cpb);
    ConcatLength(RowCells(grid, cy, blockX, cpb), bins);
  }

  /** Cell `col` of a block row sits at [col·bins, col·bins + bins). */
  lemma BlockRowSegment(grid: seq<seq<seq<real>>>, ny: nat, nx: nat, bins: nat, cy: nat, blockX: nat, cpb: nat, col: nat)
    requires GridShape(grid, ny, nx, bins)
    requires cy < ny && blockX + cpb <= nx && col < cpb
    ensures Offset(col, bins) + bins <= |BlockRow(grid, cy, blockX, cpb)|
    ensures BlockRow(grid, cy, blockX, cpb)[Offset(col, bins) .. Offset(col, bins) + bins] == grid[cy][blockX + col]
  {
    var cells := RowCells(grid, cy, blockX, cpb);
    BlockRowCells(grid, ny, nx, bins, cy, blockX, cpb);
    ConcatSegment(cells, bins, col);
    assert cells[col] == GridCell(grid, cy, blockX + col);
    assert |grid[cy]| == nx;
    assert cells[col] == grid[cy][blockX + col];
  }

  /** Row `r` of a block sits at [r·rowLen, r·rowLen + rowLen), rowLen being cpb·bins. */
  lemma BlockRowsSegment(grid: seq<seq<seq<real>>>, ny: nat, nx: nat, bins: nat, blockY: nat, blockX: nat, cpb: nat, r: nat)
    requires GridShape(grid, ny, nx, bins)
    requires blockY + cpb <= ny && blockX + cpb <= nx && r < cpb
    ensures |BlockHist(grid, blockY, blockX, cpb)| == cpb * (cpb * bins)
    ensures Offset(r, cpb * bins) + cpb * bins <= |BlockHist(grid, blockY, blockX, cpb)|
    ensures BlockHist(grid, blockY, blockX, cpb)[Offset(r, cpb * bins) .. Offset(r, cpb * bins) + cpb * bins]
      == BlockRow(grid, blockY + r, blockX, cpb)
  {
    var rowParts := BlockRows(grid, blockY, blockX, cpb);
    forall r' | 0 <= r' < cpb ensures |rowParts[r']| == cpb * bins {
      BlockRowLength(grid, ny, nx, bins, blockY + r', blockX, cpb);
    }
    ConcatSegment(rowParts, cpb * bins, r);
  }

  /** A block inside the grid holds `binning · cpb²` values, and the histogram of
      its cell (r, col) sits at the `binning` positions starting at (r·cpb + col)·binning:
      the cells in row-major order. */
  lemma BlockLayout(grid: seq<seq<seq<real>>>, ny: nat, nx: nat, bins: nat,
                    blockY: nat, blockX: nat, cpb: nat, r: nat, col: nat)
    requires GridShape(grid, ny, nx, bins)
    requires blockY + cpb <= ny && blockX + cpb <= nx
    requires r < cpb && col < cpb
    ensures |BlockHist(grid, blockY, blockX, cpb)| == bins * (cpb * cpb)
    ensures var start := RowMajorOffset(cpb, bins, r, col);
      start + bins <= |BlockHist(grid, blockY, blockX, cpb)|
      && BlockHist(grid, blockY, blockX, cpb)[start .. start + bins] == grid[blockY + r][blockX + col]
  {
    BlockRowsSegment(grid, ny, nx, bins, blockY, blockX, cpb, r);
    BlockRowSegment(grid, ny, nx, bins, blockY + r, blockX, cpb, col);
    SquareArith(cpb, bins);
    ScanArith(r, col, cpb, bins);
    NestedSlice(BlockHist(grid, blockY, blockX, cpb), BlockRow(grid, blockY + r, blockX, cpb),
                grid[blockY + r][blockX + col], r, cpb * bins, col, bins);
  }

  lemma SquareArith(cpb: nat, bins: nat)
    ensures cpb * (cpb * bins) == bins * (cpb * cpb)
  {
  }

  /** A cell window at least one block in each direction, inside an `ny × nx` grid. */
  ghost predicate WindowFits(c: Config, cw: CellWindow, ny: nat, nx: nat)
    requires c.Valid()
  {
    cw.width >= c.CellsPerBlock() && cw.height >= c.CellsPerBlock()
    && cw.y + cw.height <= ny && cw.x + cw.width <= nx
  }

  /** Each block of a scan row holds `_block_hist_size` values once normalized. */
  lemma RowBlocksLength(c: Config, grid: seq<seq<seq<real>>>, cw: CellWindow, ny: nat, nx: nat,
                        blockY: nat, sqrt: real -> real)
    requires c.Valid() && WindowFits(c, cw, ny, nx) && GridShape(grid, ny, nx, c.binning)
    requires blockY + c.CellsPerBlock() <= ny
    ensures PartsOfLength(RowBlocks(c, grid, blockY, cw, sqrt), c.BlockHistSize())
  {
    var cpb, su := c.CellsPerBlock(), c.StrideUnit();
    var blocks := RowBlocks(c, grid, blockY, cw, sqrt);
    forall s | 0 <= s < |blocks| ensures |blocks[s]| == c.BlockHistSize() {
      StepBound(s, cw.width - cpb, su);
      BlockLayout(grid, ny, nx, c.binning, blockY, Position(cw.x, s, su), cpb, 0, 0);
    }
  }

  /** Each scan row holds `nx` normalized blocks. */
  lemma ScanRowsLength(c: Config, grid: seq<seq<seq<real>>>, cw: CellWindow, ny: nat, nx: nat, sqrt: real -> real)
    requires c.Valid() && WindowFits(c, cw, ny, nx) && GridShape(grid, ny, nx, c.binning)
    ensures PartsOfLength(ScanRows(c, grid, cw, sqrt), ScanRowLength(c, cw))
  {
    var cpb, su := c.CellsPerBlock(), c.StrideUnit();
    var scan := ScanRows(c, grid, cw, sqrt);
    forall t | 0 <= t < |scan| ensures |scan[t]| == ScanRowLength(c, cw) {
      StepBound(t, cw.height - cpb, su);
      RowBlocksLength(c, grid, cw, ny, nx, Position(cw.y, t, su), sqrt);
      ConcatLength(RowBlocks(c, grid, Position(cw.y, t, su), cw, sqrt), c.BlockHistSize());
    }
  }

  /** Scan row t of the descriptor sits at [t·rowLen, t·rowLen + rowLen) once every scan row
      has `rowLen` values. */
  lemma DescriptorRowSegment(c: Config, grid: seq<seq<seq<real>>>, cw: CellWindow, sqrt: real -> real,
                             rowLen: nat, t: nat)
    requires c.Valid() && cw.width >= c.CellsPerBlock() && cw.height >= c.CellsPerBlock()
    requires PartsOfLength(ScanRows(c, grid, cw, sqrt), rowLen)
    requires t < BlockCount(cw.height, c.CellsPerBlock(), c.StrideUnit())
    ensures Offset(t, rowLen) + rowLen <= |Descriptor(c, grid, cw, sqrt)|
    ensures Descriptor(c, grid, cw, sqrt)[Offset(t, rowLen) .. Offset(t, rowLen) + rowLen]
            == DescriptorRow(c, grid, Position(cw.y, t, c.StrideUnit()), cw, sqrt)
  {
    var scan := ScanRows(c, grid, cw, sqrt);
    assert scan[t] == DescriptorRow(c, grid, Position(cw.y, t, c.StrideUnit()), cw, sqrt);
    ConcatSegment(scan, rowLen, t);
  }

  /** Block s of a scan row sits at [s·size, s·size + size) once every block has `size` values. */
  lemma RowBlockSegment(c: Config, grid: seq<seq<seq<real>>>, cw: CellWindow, blockY: nat, sqrt: real -> real, s: nat)
    requires c.Valid() && cw.width >= c.CellsPerBlock()
    requires PartsOfLength(RowBlocks(c, grid, blockY, cw, sqrt), c.BlockHistSize())
    requires s < BlockCount(cw.width, c.CellsPerBlock(), c.StrideUnit())
    ensures var size := c.BlockHistSize();
      Offset(s, size) + size <= |DescriptorRow(c, grid, blockY, cw, sqrt)|
      && DescriptorRow(c, grid, blockY, cw, sqrt)[Offset(s, size) .. Offset(s, size) + size]
         == Normalized(c.norm, BlockHist(grid, blockY, Position(cw.x, s, c.StrideUnit()), c.CellsPerBlock()), sqrt)
  {
    var blocks := RowBlocks(c, grid, blockY, cw, sqrt);
    assert blocks[s] == Normalized(c.norm, BlockHist(grid, blockY, Position(cw.x, s, c.StrideUnit()), c.CellsPerBlock()), sqrt);
    ConcatSegment(blocks, c.BlockHistSize(), s);
  }

  /** The descriptor of a fitting cell window has ny · nx blocks of `_block_hist_size`
      values each, ny and nx being the block counts of the window. */
  lemma DescriptorLength(c: Config, grid: seq<seq<seq<real>>>, cw: CellWindow, gridY: nat, gridX: nat,
                         sqrt: real -> real)
    requires c.Valid() && WindowFits(c, cw, gridY, gridX) && GridShape(grid, gridY, gridX, c.binning)
    ensures |Descriptor(c, grid, cw, sqrt)|
            == BlockCount(cw.height, c.CellsPerBlock(), c.StrideUnit())
               * (BlockCount(cw.width, c.CellsPerBlock(), c.StrideUnit()) * c.BlockHistSize())
  {
    var rowLen := ScanRowLength(c, cw);
    var scan := ScanRows(c, grid, cw, sqrt);
    ScanRowsLength(c, grid, cw, gridY, gridX, sqrt);
    ConcatLength(scan, rowLen);
  }

  /** Block (t, s) of the row-major scan occupies `_block_hist_size` values of the
      descriptor starting at (t·nx + s)·size: the block whose top-left cell is
      (y + t·stride_unit, x + s·stride_unit), normalized. */
  lemma DescriptorSegment(c: Config, grid: seq<seq<seq<real>>>, cw: CellWindow, gridY: nat, gridX: nat,
                          sqrt: real -> real, t: nat, s: nat)
    requires c.Valid() && WindowFits(c, cw, gridY, gridX) && GridShape(grid, gridY, gridX, c.binning)
    requires t < BlockCount(cw.height, c.CellsPerBlock(), c.StrideUnit())
    requires s < BlockCount(cw.width, c.CellsPerBlock(), c.StrideUnit())
    ensures var start := RowMajorOffset(BlockCount(cw.width, c.CellsPerBlock(), c.StrideUnit()), c.BlockHistSize(), t, s);
      start + c.BlockHistSize() <= |Descriptor(c, grid, cw, sqrt)|
      && Descriptor(c, grid, cw, sqrt)[start .. start + c.BlockHistSize()]
         == Normalized(c.norm, BlockHist(grid, Position(cw.y, t, c.StrideUnit()), Position(cw.x, s, c.StrideUnit()),
                                         c.CellsPerBlock()), sqrt)
  {
    var cpb, su, size := c.CellsPerBlock(), c.StrideUnit(), c.BlockHistSize();
    var nx := BlockCount(cw.width, cpb, su);
    var rowLen := ScanRowLength(c, cw);
    assert rowLen == nx * size;
    var blockY := Position(cw.y, t, su);
    ScanRowsLength(c, grid, cw, gridY, gridX, sqrt);
    StepBound(t, cw.height - cpb, su);
    RowBlocksLength(c, grid, cw, gridY, gridX, blockY, sqrt);
    DescriptorRowSegment(c, grid, cw, sqrt, rowLen, t);
    RowBlockSegment(c, grid, cw, blockY, sqrt, s);
    ScanArith(t, s, nx, size);
    NestedSlice(Descriptor(c, grid, cw, sqrt), DescriptorRow(c, grid, blockY, cw, sqrt),
                Normalized(c.norm, BlockHist(grid, blockY, Position(cw.x, s, su), cpb), sqrt), t, rowLen, s, size);
  }

  /** A slice of a slice: part s (of `size` values) of a row that is itself part t (of
      `rowLen` values) of `d`. */
  lemma NestedSlice(d: seq<real>, row: seq<real>, x: seq<real>, t: nat, rowLen: nat, s: nat, size: nat)
    requires Offset(t, rowLen) + rowLen <= |d| && d[Offset(t, rowLen) .. Offset(t, rowLen) + rowLen] == row
    requires Offset(s, size) + size <= |row| && row[Offset(s, size) .. Offset(s, size) + size] == x
    ensures Offset(t, rowLen) + Offset(s, size) + size <= |d|
    ensures d[Offset(t, rowLen) + Offset(s, size) .. Offset(t, rowLen) + Offset(s, size) + size] == x
  {
    var lo, a := Offset(t, rowLen), Offset(s, size);
    SliceOfSlice(d, lo, lo + rowLen, a, a + size);
  }

  lemma ScanArith(t: nat, s: nat, nx: nat, size: nat)
    ensures RowMajorOffset(nx, size, t, s) == Offset(t, nx * size) + Offset(s, size)
  {
    assert (t * nx + s) * size == t * (nx * size) + s * size;
  }

  // ----- Retrieve, end to end -----

  /** Floor division by a product is floor division twice. */
  lemma BlockCountInPixels(extent: nat, blocksize: nat, cellsize: nat, stride: nat, cpb: nat, su: nat)
    requires cellsize >= 1 && su >= 1 && cpb * cellsize == blocksize && su * cellsize == stride
    requires extent >= blocksize
    ensures extent / cellsize >= cpb
    ensures BlockCount(extent / cellsize, cpb, su) == (extent - blocksize) / stride + 1
  {
    var q, r := extent / cellsize, extent % cellsize;
    assert extent == q * cellsize + r;
    if q < cpb {
      MulLe(q + 1, cpb, cellsize);
    }
    var k, r2 := (q - cpb) / su, (q - cpb) % su;
    assert q - cpb == k * su + r2;
    assert extent - blocksize == (q - cpb) * cellsize + r;
    assert (q - cpb) * cellsize == k * stride + r2 * cellsize by {
      assert (q - cpb) * cellsize == (k * su + r2) * cellsize;
    }
    MulLe(r2 + 1, su, cellsize);
    DivModUnique(extent - blocksize, stride, k, r2 * cellsize + r);
  }

  /** `retrieve` on a processed image: a window the check accepts gives a descriptor of
      `_block_hist_size` values per block position, with (height − blocksize)/stride + 1
      block rows of (width − blocksize)/stride + 1 blocks each. */
  lemma RetrieveLength(c: Config, grid: seq<seq<seq<real>>>, rows: nat, cols: nat, w: Rect, sqrt: real -> real)
    requires c.Valid() && GridShape(grid, rows / c.cellsize, cols / c.cellsize, c.binning)
    requires CheckWindow(c, w, rows, cols) == None
    ensures RetrieveResult(c, grid, rows, cols, w, sqrt).Ok?
    ensures |RetrieveResult(c, grid, rows, cols, w, sqrt).value|
            == ((w.height - c.blocksize) / c.stride + 1)
               * (((w.width - c.blocksize) / c.stride + 1) * c.BlockHistSize())
  {
    var cw := ToCells(c, w);
    WindowInGrid(c, w, rows, cols);
    DescriptorLength(c, grid, cw, rows / c.cellsize, cols / c.cellsize, sqrt);
    BlockCountInPixels(w.height, c.blocksize, c.cellsize, c.stride, c.CellsPerBlock(), c.StrideUnit());
    BlockCountInPixels(w.width, c.blocksize, c.cellsize, c.stride, c.CellsPerBlock(), c.StrideUnit());
  }

  /** The driver's configuration (blocksize 32, cellsize 16, stride 16, 9 bins, unsigned
      gradient) on a 128 × 256 crop: 36 values per block, 7 × 15 blocks, 3780 values,
      the size the driver allocates and asserts. */
  lemma DriverDescriptorSize(grid: seq<seq<seq<real>>>, sqrt: real -> real)
    requires GridShape(grid, 256 / 16, 128 / 16, 9)
    ensures var c := Config(32, 16, 16, 9, GRADIENT_UNSIGNED, L2Hys);
      c.Valid()
      && RetrieveResult(c, grid, 256, 128, Rect(0, 0, 128, 256), sqrt).Ok?
      && |RetrieveResult(c, grid, 256, 128, Rect(0, 0, 128, 256), sqrt).value|
         == 9 * (2 * 2) * (((128 - 32) / 16 + 1) * ((256 - 32) / 16 + 1))
      && 9 * (2 * 2) * (((128 - 32) / 16 + 1) * ((256 - 32) / 16 + 1)) == 3780
  {
    var c := Config(32, 16, 16, 9, GRADIENT_UNSIGNED, L2Hys);
    assert CheckCtorParamsStrict(32, 16, 16, 9, GRADIENT_UNSIGNED) == None;
    DivModUnique(32, 16, 2, 0);
    DivModUnique(16, 16, 1, 0);
    assert c.CellsPerBlock() == 2 && c.BlockHistSize() == 36;
    DivModUnique(128 - 32, 16, 6, 0);
    DivModUnique(256 - 32, 16, 14, 0);
    RetrieveLength(c, grid, 256, 128, Rect(0, 0, 128, 256), sqrt);
    assert |RetrieveResult(c, grid, 256, 128, Rect(0, 0, 128, 256), sqrt).value| == 15 * (7 * 36);
  }

  /** The cell coordinate `retrieve` computes from a pixel coordinate as written: the
      `int` is converted to `size_t` for the division, the quotient is cast to `int`
      (wrapping modulo 2^32) and stored in a `size_t`. */
  function CellCoordAsWritten(v: int, cellsize: nat): nat
    requires cellsize >= 1
  {
    var q := AsSizeT(v) / cellsize;
    var asInt := if q % 0x1_0000_0000 <= INT32_MAX then q % 0x1_0000_0000 else q % 0x1_0000_0000 - 0x1_0000_0000;
    AsSizeT(asInt)
  }

  /** The checks as written let windows through that lie outside the maps. On 64 × 64
      maps with blocksize 32 and cellsize 16, the window at x = −16 of width 32 passes,
      and its first cell column lies far outside the 4-column grid. A negative height
      passes too, because it is compared as a `size_t`. Even on the 0 × 0 maps of an
      object that has processed nothing, a window at (−40, −40) passes. The corrected
      check rejects all three. */
  lemma NegativeWindowAccepted()
    ensures var c := Config(32, 16, 16, 9, GRADIENT_UNSIGNED, L2Hys);
      var w := Rect(-16, 0, 32, 32);
      c.Valid() && RectInt32(w)
      && CheckWindowAsWritten(c, w, 64, 64) == None
      && CellCoordAsWritten(w.x, c.cellsize) >= 64 / c.cellsize
      && CheckWindow(c, w, 64, 64) == Some(WindowOutOfBounds)
    ensures var c := Config(32, 16, 16, 9, GRADIENT_UNSIGNED, L2Hys);
      CheckWindowAsWritten(c, Rect(0, 0, 32, -5), 64, 64) == None
      && CheckWindow(c, Rect(0, 0, 32, -5), 64, 64) == Some(WindowTooSmall)
    ensures var c := Config(32, 16, 16, 9, GRADIENT_UNSIGNED, L2Hys);
      CheckWindowAsWritten(c, Rect(-40, -40, 32, 32), 0, 0) == None
      && CheckWindow(c, Rect(-40, -40, 32, 32), 0, 0) == Some(WindowOutOfBounds)
  {
    assert CheckCtorParamsStrict(32, 16, 16, 9, GRADIENT_UNSIGNED) == None;
  }

  /** As written, the argument checks let a stride of 0 through (`0 % cellsize == 0`).
      Its stride unit `stride / cellsize` is then 0, so after any number k of steps
      `block_y += _stride_unit` leaves the block at its origin, and the loop condition
      `block_y <= y + height - cpb` still holds: the scan never ends. The corrected
      check rejects the stride. */
  lemma ZeroStrideAccepted(origin: nat, height: nat, k: nat)
    requires height >= 32 / 16
    ensures CheckCtorParams(32, 16, 0, 9, GRADIENT_UNSIGNED) == None
    ensures var c := Config(32, 16, 0, 9, GRADIENT_UNSIGNED, L2Hys);
      var unit := c.stride / c.cellsize;
      Position(origin, k, unit) == origin
      && Position(origin, k, unit) + c.blocksize / c.cellsize <= origin + height
    ensures CheckCtorParamsStrict(32, 16, 0, 9, GRADIENT_UNSIGNED) == Some(StrideZero)
  {
  }

  /** On windows with non-negative fields (the only ones a caller can mean) the corrected
      check decides exactly as the code does, so the correction changes nothing else. */
  lemma CheckWindowAgrees(c: Config, w: Rect, rows: int, cols: int)
    requires 0 <= w.x && 0 <= w.y && 0 <= w.width < SIZE_T_MODULUS && 0 <= w.height < SIZE_T_MODULUS
    ensures CheckWindow(c, w, rows, cols) == CheckWindowAsWritten(c, w, rows, cols)
  {
  }

  /** Every `int` window the corrected check accepts, the code accepts too. */
  lemma CheckWindowStricter(c: Config, w: Rect, rows: int, cols: int)
    requires RectInt32(w) && CheckWindow(c, w, rows, cols) == None
    ensures CheckWindowAsWritten(c, w, rows, cols) == None
  {
  }
}
