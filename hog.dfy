/** The `HOG` extractor object: a configuration fixed at construction, and the state
    one call of `process` leaves behind (the magnitude and orientation maps, the cell
    counts and the grid of cell histograms) for later calls of `retrieve`. */
module Hog {
  import opened Wrappers
  import opened Histogram
  import opened HogConfig
  import opened BlockNormalize
  import opened CellPass
  import opened BlockPass

  /** The exceptions of `process`: no image data, an image smaller than a block, and
      the out-of-range `cell_hist.at(k)` of a vote without a bin. */
  datatype ProcessError = InvalidImage | ImageTooSmall | BinIndexOutOfRange

  class Hog {
    /** The const members, validated by the constructor. */
    const cfg: Config
    /** `std::sqrt`, which the square-root normalizers apply. */
    const sqrt: real -> real

    var mag: Mat
    var ori: Mat
    var nCellsY: nat
    var nCellsX: nat
    var cellHists: seq<seq<seq<real>>>

    /** The maps are well formed and the cell counts are those of the maps. */
    ghost predicate Valid()
      reads this
    {
      cfg.Valid() && Maps(mag, ori)
      && nCellsY == mag.rows / cfg.cellsize && nCellsX == mag.cols / cfg.cellsize
    }

    /** The grid holds the cell pass of the current maps, completely. */
    ghost predicate Ready()
      reads this
    {
      Valid() && CellGrid(cfg, mag, ori) == Ok(cellHists)
    }

    /** The rebuild of the grid has filled rows `0 .. i - 1` and cells `0 .. j - 1` of row `i`. */
    ghost predicate Filled(i: nat, j: nat)
      reads this
    {
      Valid() && FilledGrid(cfg, mag, ori, cellHists, i, j)
    }

    /** A fresh extractor holds no image: empty maps and an empty grid. */
    constructor (cfg: Config, sqrt: real -> real)
      requires cfg.Valid()
      ensures this.cfg == cfg && this.sqrt == sqrt
      ensures mag == Mat(0, 0, []) && ori == Mat(0, 0, [])
      ensures nCellsY == 0 && nCellsX == 0 && cellHists == []
      ensures Ready()
    {
      this.cfg := cfg;
      this.sqrt := sqrt;
      mag := Mat(0, 0, []);
      ori := Mat(0, 0, []);
      nCellsY := 0;
      nCellsX := 0;
      cellHists := [];
    }

    /** `clear_internals`: empties the grid and nothing else. */
    method ClearInternals()
      modifies this
      ensures cellHists == []
      ensures mag == old(mag) && ori == old(ori) && nCellsY == old(nCellsY) && nCellsX == old(nCellsX)
    {
      cellHists := [];
    }

    /** `process_cell`: the histogram of the cell whose top-left pixel is (`top`, `left`),
        accumulated vote by vote; a vote whose bin index is outside the histogram throws. */
    method ProcessCell(top: nat, left: nat) returns (r: Result<seq<real>, CellError>)
      requires Valid()
      requires top + cfg.cellsize <= mag.rows && left + cfg.cellsize <= mag.cols
      ensures r == CellHistogram(cfg, mag, ori, top, left)
    {
      var cs := cfg.cellsize;
      var hist := new real[cfg.binning](k => 0.0);
      assert hist[..] == Zeros(cfg.binning);
      var i := 0;
      while i < cs
        invariant 0 <= i <= cs
        invariant CellVotes(cfg, mag, ori, top, left, i) == Ok(hist[..])
      {
        var before := CellVotes(cfg, mag, ori, top, left, i).value;
        var j := 0;
        while j < cs
          invariant 0 <= j <= cs
          invariant RowVotes(cfg, before, mag, ori, top + i, left, j) == Ok(hist[..])
        {
          var o := ori.at[top + i][left + j];
          if cfg.gradType != GRADIENT_SIGNED && o >= 180.0 {
            o := o - 180.0;
          }
          assert o == Folded(cfg, ori.at[top + i][left + j]);
          var width := cfg.BinWidth();
          var k := if width == 0 then -1 else Trunc(o / width as real);
          RowVotesStep(cfg, before, mag, ori, top + i, left, j, hist[..], k);
          if k < 0 || k >= cfg.binning {
            CellHistogramFails(top, left, top + i, left + j);
            return Err(BinOutOfRange);
          }
          hist[k] := hist[k] + mag.at[top + i][left + j];
          j := j + 1;
        }
        i := i + 1;
      }
      r := Ok(hist[..]);
    }

    /** A pixel of the cell without a bin makes the whole cell throw. */
    lemma CellHistogramFails(top: nat, left: nat, y: nat, x: nat)
      requires Valid()
      requires top + cfg.cellsize <= mag.rows && left + cfg.cellsize <= mag.cols
      requires top <= y < top + cfg.cellsize && left <= x < left + cfg.cellsize
      requires !HasBin(cfg, ori.at[y][x])
      ensures CellHistogram(cfg, mag, ori, top, left) == Err(BinOutOfRange)
    {
      CellVotesOk(cfg, mag, ori, top, left, cfg.cellsize);
      assert !RegionBinned(cfg, ori, top, left, cfg.cellsize, cfg.cellsize);
      assert CellHistogram(cfg, mag, ori, top, left).Err?;
      assert CellHistogram(cfg, mag, ori, top, left).error.BinOutOfRange?;
    }

    /** `process` on the magnitude and orientation maps of an image. An image without
        data or smaller than a block throws before anything changes. Otherwise the grid
        is cleared and rebuilt from the new maps, row by row and cell by cell; a cell that
        throws stops the rebuild, leaving the cells before it filled and the rest empty. */
    method Process(newMag: Mat, newOri: Mat) returns (r: Result<(), ProcessError>)
      requires Valid() && Maps(newMag, newOri)
      modifies this
      ensures Valid()
      ensures newMag.Empty() ==> r == Err(InvalidImage)
      ensures !newMag.Empty() && (newMag.rows < cfg.blocksize || newMag.cols < cfg.blocksize)
              ==> r == Err(ImageTooSmall)
      ensures r == Err(InvalidImage) || r == Err(ImageTooSmall) ==>
        mag == old(mag) && ori == old(ori) && nCellsY == old(nCellsY) && nCellsX == old(nCellsX)
        && cellHists == old(cellHists)
      ensures r.Ok? || r == Err(BinIndexOutOfRange) ==> mag == newMag && ori == newOri
      ensures r.Ok? <==>
        !newMag.Empty() && cfg.blocksize <= newMag.rows && cfg.blocksize <= newMag.cols
        && CellGrid(cfg, newMag, newOri).Ok?
      ensures r.Ok? ==> Ready() && cellHists == CellGrid(cfg, newMag, newOri).value
      ensures r == Err(BinIndexOutOfRange) ==>
        exists i: nat, j: nat :: Filled(i, j) && j < nCellsX && CellAt(cfg, mag, ori, i, j).Err?
    {
      if newMag.Empty() {
        return Err(InvalidImage);
      }
      if newMag.rows < cfg.blocksize || newMag.cols < cfg.blocksize {
        return Err(ImageTooSmall);
      }
      ClearInternals();
      mag, ori := newMag, newOri;
      nCellsY := mag.rows / cfg.cellsize;
      nCellsX := mag.cols / cfg.cellsize;
      cellHists := seq(nCellsY, k => []);
      assert RowsFilledGrid(cfg, mag, ori, cellHists, 0);
      var ok := FillGrid();
      r := if ok then Ok(()) else Err(BinIndexOutOfRange);
    }

    /** The outer loop of `process`: the rows of the resized grid filled top to bottom
        until a cell throws. */
    method FillGrid() returns (ok: bool)
      requires Valid() && RowsFilledGrid(cfg, mag, ori, cellHists, 0)
      modifies this
      ensures Valid() && mag == old(mag) && ori == old(ori)
      ensures ok <==> CellGrid(cfg, mag, ori).Ok?
      ensures ok ==> Ready()
      ensures !ok ==> exists i: nat, j: nat :: Filled(i, j) && j < nCellsX && CellAt(cfg, mag, ori, i, j).Err?
    {
      var i := 0;
      while i < nCellsY
        invariant Valid() && mag == old(mag) && ori == old(ori)
        invariant RowsFilledGrid(cfg, mag, ori, cellHists, i)
      {
        ok := FillRow(i);
        if !ok {
          RowFailsGrid(cfg, mag, ori, i);
          return;
        }
        i := i + 1;
      }
      assert cellHists[..nCellsY] == cellHists;
      ok := true;
    }

    /** One pass of the outer loop of `process`: row i resized to `_n_cells_x` empty
        cells, then filled left to right until a cell throws. */
    method FillRow(i: nat) returns (ok: bool)
      requires Valid() && RowsFilledGrid(cfg, mag, ori, cellHists, i) && i < nCellsY
      modifies this
      ensures Valid() && mag == old(mag) && ori == old(ori)
      ensures ok <==> GridRow(cfg, mag, ori, i, nCellsX).Ok?
      ensures ok ==> RowsFilledGrid(cfg, mag, ori, cellHists, i + 1)
      ensures !ok ==> exists j: nat :: Filled(i, j) && j < nCellsX && CellAt(cfg, mag, ori, i, j).Err?
    {
      StartRow(cfg, mag, ori, cellHists, i);
      cellHists := cellHists[i := seq(nCellsX, l => [])];
      var j := 0;
      while j < nCellsX
        invariant Valid() && mag == old(mag) && ori == old(ori)
        invariant Filled(i, j)
      {
        CellFits(i, mag.rows, cfg.cellsize);
        CellFits(j, mag.cols, cfg.cellsize);
        var h := ProcessCell(i * cfg.cellsize, j * cfg.cellsize);
        if h.Err? {
          assert CellAt(cfg, mag, ori, i, j).Err?;
          return false;
        }
        FillStep(cfg, mag, ori, cellHists, i, j);
        cellHists := cellHists[i := cellHists[i][j := h.value]];
        j := j + 1;
      }
      FinishRow(cfg, mag, ori, cellHists, i);
      ok := true;
    }

    /** `retrieve`: the descriptor of a pixel window, with the corrected window check.
        Only reads the state, so equal windows give equal descriptors. */
    method Retrieve(w: Rect) returns (r: Result<seq<real>, WindowError>)
      requires Ready()
      ensures r == RetrieveResult(cfg, cellHists, mag.rows, mag.cols, w, sqrt)
    {
      if w.height < cfg.blocksize || w.width < cfg.blocksize {
        return Err(WindowTooSmall);
      }
      if w.x < 0 || w.y < 0 || w.x > mag.cols - w.width || w.y > mag.rows - w.height {
        return Err(WindowOutOfBounds);
      }
      var cw := ToCells(cfg, w);
      var x, y, width, height := cw.x, cw.y, cw.width, cw.height;
      WindowInGrid(cfg, w, mag.rows, mag.cols);
      CellGridShape(cfg, mag, ori);
      var cpb, su := cfg.CellsPerBlock(), cfg.StrideUnit();
      var hog: seq<real> := [];
      var blockY := y;
      ghost var t := 0;
      StepBound(0, height - cpb, su);
      while blockY + cpb <= y + height
        invariant blockY == Position(y, t, su)
        invariant t <= BlockCount(height, cpb, su)
        invariant t < BlockCount(height, cpb, su) <==> blockY + cpb <= y + height
        invariant hog == Concat(ScanRows(cfg, cellHists, cw, sqrt)[..t])
        decreases BlockCount(height, cpb, su) - t
      {
        ScanStep(y, height, cpb, su, t);
        ScanRowsStep(cfg, cellHists, cw, sqrt, t);
        hog := AppendScanRow(cfg, cellHists, nCellsY, nCellsX, sqrt, hog, blockY, cw);
        blockY := blockY + su;
        t := t + 1;
      }
      ScanRowsComplete(cfg, cellHists, cw, sqrt, t);
      assert CheckWindow(cfg, w, mag.rows, mag.cols) == None;
      r := Ok(hog);
    }
  }

  /** Rows `0 .. i - 1` of `grid` hold their cell histograms; the rows after are empty. */
  ghost predicate RowsFilledGrid(c: Config, mag: Mat, ori: Mat, grid: seq<seq<seq<real>>>, i: nat)
    requires c.Valid() && Maps(mag, ori)
  {
    var ny := mag.rows / c.cellsize;
    i <= ny && |grid| == ny
    && GridRows(c, mag, ori, i).Ok? && grid[..i] == GridRows(c, mag, ori, i).value
    && (forall k :: i <= k < ny ==> grid[k] == [])
  }

  /** Rows `0 .. i - 1` and cells `0 .. j - 1` of row `i` hold their cell histograms;
      every other slot of the grid is empty. */
  ghost predicate FilledGrid(c: Config, mag: Mat, ori: Mat, grid: seq<seq<seq<real>>>, i: nat, j: nat)
    requires c.Valid() && Maps(mag, ori)
  {
    var ny, nx := mag.rows / c.cellsize, mag.cols / c.cellsize;
    i < ny && j <= nx && |grid| == ny
    && GridRows(c, mag, ori, i).Ok? && grid[..i] == GridRows(c, mag, ori, i).value
    && GridRow(c, mag, ori, i, j).Ok? && |grid[i]| == nx
    && grid[i][..j] == GridRow(c, mag, ori, i, j).value
    && (forall l :: j <= l < nx ==> grid[i][l] == [])
    && (forall k :: i < k < ny ==> grid[k] == [])
  }

  /** `_cell_hists[i].resize(_n_cells_x)` starts row i with empty cells. */
  lemma StartRow(c: Config, mag: Mat, ori: Mat, grid: seq<seq<seq<real>>>, i: nat)
    requires c.Valid() && Maps(mag, ori)
    requires RowsFilledGrid(c, mag, ori, grid, i) && i < mag.rows / c.cellsize
    ensures FilledGrid(c, mag, ori, grid[i := seq(mag.cols / c.cellsize, l => [])], i, 0)
  {
    var g := grid[i := seq(mag.cols / c.cellsize, l => [])];
    assert g[..i] == grid[..i];
  }

  /** Storing the histogram of cell (i, j) extends the filled part by one cell. */
  lemma FillStep(c: Config, mag: Mat, ori: Mat, grid: seq<seq<seq<real>>>, i: nat, j: nat)
    requires c.Valid() && Maps(mag, ori)
    requires FilledGrid(c, mag, ori, grid, i, j) && j < mag.cols / c.cellsize
    requires CellAt(c, mag, ori, i, j).Ok?
    ensures FilledGrid(c, mag, ori, grid[i := grid[i][j := CellAt(c, mag, ori, i, j).value]], i, j + 1)
  {
    var h := CellAt(c, mag, ori, i, j).value;
    var g := grid[i := grid[i][j := h]];
    assert g[..i] == grid[..i];
    assert g[i][..j + 1] == grid[i][..j] + [h];
  }

  /** A completely filled row i makes rows `0 .. i` filled. */
  lemma FinishRow(c: Config, mag: Mat, ori: Mat, grid: seq<seq<seq<real>>>, i: nat)
    requires c.Valid() && Maps(mag, ori)
    requires FilledGrid(c, mag, ori, grid, i, mag.cols / c.cellsize)
    ensures RowsFilledGrid(c, mag, ori, grid, i + 1)
  {
    assert grid[i][..mag.cols / c.cellsize] == grid[i];
    assert grid[..i + 1] == grid[..i] + [grid[i]];
  }

  /** A row of the grid that throws makes the whole cell pass throw. */
  lemma RowFailsGrid(c: Config, mag: Mat, ori: Mat, i: nat)
    requires c.Valid() && Maps(mag, ori)
    requires i < mag.rows / c.cellsize && GridRow(c, mag, ori, i, mag.cols / c.cellsize).Err?
    ensures CellGrid(c, mag, ori).Err?
  {
    var j :| 0 <= j < mag.cols / c.cellsize && CellAt(c, mag, ori, i, j).Err?;
  }

  /** The histograms of the `cpb × cpb` block at cell (`blockY`, `blockX`),
      concatenated cell by cell in row-major order. */
  method AssembleBlock(grid: seq<seq<seq<real>>>, ny: nat, nx: nat, bins: nat, blockY: nat, blockX: nat, cpb: nat)
    returns (blockHist: seq<real>)
    requires GridShape(grid, ny, nx, bins)
    requires blockY + cpb <= ny && blockX + cpb <= nx
    ensures blockHist == BlockHist(grid, blockY, blockX, cpb)
  {
    blockHist := [];
    var cellY := blockY;
    while cellY < blockY + cpb
      invariant blockY <= cellY <= blockY + cpb
      invariant blockHist == Concat(BlockRows(grid, blockY, blockX, cpb)[..cellY - blockY])
    {
      var rowStart := blockHist;
      var cellX := blockX;
      while cellX < blockX + cpb
        invariant blockX <= cellX <= blockX + cpb
        invariant blockHist == rowStart + Concat(RowCells(grid, cellY, blockX, cpb)[..cellX - blockX])
      {
        RowCellsStep(rowStart, grid, cellY, blockX, cpb, cellX - blockX);
        blockHist := blockHist + grid[cellY][cellX];
        cellX := cellX + 1;
      }
      BlockRowsStep(grid, blockY, blockX, cpb, cellY - blockY);
      cellY := cellY + 1;
    }
    BlockRowsComplete(grid, blockY, blockX, cpb);
  }

  /** One pass of the outer scan of `retrieve`: the blocks of block row `blockY`, left
      to right, each assembled, normalized in place and appended to `hog`. */
  method AppendScanRow(c: Config, grid: seq<seq<seq<real>>>, ny: nat, nx: nat, sqrt: real -> real,
                       hog: seq<real>, blockY: nat, cw: CellWindow) returns (out: seq<real>)
    requires c.Valid() && GridShape(grid, ny, nx, c.binning)
    requires cw.width >= c.CellsPerBlock() && cw.x + cw.width <= nx
    requires blockY + c.CellsPerBlock() <= ny
    ensures out == hog + DescriptorRow(c, grid, blockY, cw, sqrt)
  {
    var cpb, su := c.CellsPerBlock(), c.StrideUnit();
    var x, width := cw.x, cw.width;
    out := hog;
    var blockX := x;
    ghost var s := 0;
    StepBound(0, width - cpb, su);
    while blockX + cpb <= x + width
      invariant blockX == Position(x, s, su)
      invariant s <= BlockCount(width, cpb, su)
      invariant s < BlockCount(width, cpb, su) <==> blockX + cpb <= x + width
      invariant out == hog + Concat(RowBlocks(c, grid, blockY, cw, sqrt)[..s])
      decreases BlockCount(width, cpb, su) - s
    {
      ScanStep(x, width, cpb, su, s);
      RowBlocksStep(hog, c, grid, blockY, cw, sqrt, s);
      out := AppendBlock(c, grid, ny, nx, sqrt, out, blockY, blockX);
      blockX := blockX + su;
      s := s + 1;
    }
    RowBlocksComplete(c, grid, blockY, cw, sqrt, s);
  }

  /** The body of the inner scan of `retrieve`: the block at cell (`blockY`, `blockX`)
      assembled, normalized in place by `_block_norm` and appended to `out`. */
  method AppendBlock(c: Config, grid: seq<seq<seq<real>>>, ny: nat, nx: nat, sqrt: real -> real,
                     out: seq<real>, blockY: nat, blockX: nat) returns (out': seq<real>)
    requires c.Valid() && GridShape(grid, ny, nx, c.binning)
    requires blockY + c.CellsPerBlock() <= ny && blockX + c.CellsPerBlock() <= nx
    ensures out' == out + Normalized(c.norm, BlockHist(grid, blockY, blockX, c.CellsPerBlock()), sqrt)
  {
    var blockHist := AssembleBlock(grid, ny, nx, c.binning, blockY, blockX, c.CellsPerBlock());
    var v := new real[|blockHist|](k requires 0 <= k < |blockHist| => blockHist[k]);
    assert v[..] == blockHist;
    NormalizeBlock(c.norm, v, sqrt);
    out' := out + v[..];
  }
}
