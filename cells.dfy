/** The cell pass: magnitude-weighted, hard-assignment orientation histograms of
    the `cellsize × cellsize` cells of a magnitude map and an orientation map. */
module CellPass {
  import opened Wrappers
  import opened Histogram
  import opened HogConfig

  /** A single-channel float matrix (`cv::Mat` of `CV_32F`): `rows × cols` values. */
  datatype Mat = Mat(rows: nat, cols: nat, at: seq<seq<real>>)
  {
    ghost predicate Valid()
    {
      |at| == rows && forall i :: 0 <= i < rows ==> |at[i]| == cols
    }

    /** A matrix without data (`!img.data`). */
    predicate Empty()
    {
      rows == 0 || cols == 0
    }
  }

  /** The magnitude and orientation maps of one image: same shape, both well formed. */
  ghost predicate Maps(mag: Mat, ori: Mat)
  {
    mag.Valid() && ori.Valid() && mag.rows == ori.rows && mag.cols == ori.cols
  }

  /** `std::vector::at` throws when the computed bin is outside the histogram. */
  datatype CellError = BinOutOfRange

  /** `static_cast<int>` of a float: rounds toward zero. */
  function Trunc(x: real): (n: int)
    ensures x >= 0.0 ==> n as real <= x < n as real + 1.0
    ensures x < 0.0 ==> n as real - 1.0 < x <= n as real
  {
    if x >= 0.0 then x.Floor else -((-x).Floor)
  }

  /** The orientation that is binned: in unsigned mode 180 or more is reduced by 180. */
  function Folded(c: Config, o: real): (f: real)
    ensures c.gradType == GRADIENT_SIGNED ==> f == o
    ensures c.gradType != GRADIENT_SIGNED && 0.0 <= o < 360.0 ==> 0.0 <= f < 180.0
  {
    if c.gradType == GRADIENT_SIGNED then o
    else if o >= 180.0 then o - 180.0
    else o
  }

  /** `static_cast<int>(orientation / _bin_width)`; defined when the bin width is not 0. */
  function RawBin(c: Config, o: real): int
    requires c.Valid() && c.BinWidth() > 0
  {
    Trunc(Folded(c, o) / c.BinWidth() as real)
  }

  /** The vote of orientation `o` lands inside the histogram. A bin width of 0
      (more bins than degrees) divides by zero; that vote has no bin either. */
  predicate HasBin(c: Config, o: real)
    requires c.Valid()
  {
    c.BinWidth() > 0 && 0 <= RawBin(c, o) < c.binning
  }

  /** `cell_hist.at(k) += mag` for the bin k of orientation `o`. */
  function AddVote(c: Config, hist: seq<real>, o: real, m: real): (r: Result<seq<real>, CellError>)
    requires c.Valid() && |hist| == c.binning
    ensures r.Ok? <==> HasBin(c, o)
    ensures r.Ok? ==> |r.value| == c.binning
  {
    if HasBin(c, o) then
      var k := RawBin(c, o);
      Ok(hist[k := hist[k] + m])
    else
      Err(BinOutOfRange)
  }

  /** The histogram after the votes of pixels `left .. left + n - 1` of row `r`,
      starting from `hist`, left to right; the first vote without a bin throws. */
  function RowVotes(c: Config, hist: seq<real>, mag: Mat, ori: Mat, r: nat, left: nat, n: nat)
    : (res: Result<seq<real>, CellError>)
    requires c.Valid() && |hist| == c.binning && Maps(mag, ori)
    requires r < mag.rows && left + n <= mag.cols
    ensures res.Ok? ==> |res.value| == c.binning
  {
    if n == 0 then Ok(hist)
    else match RowVotes(c, hist, mag, ori, r, left, n - 1)
      case Err(e) => Err(e)
      case Ok(h) => AddVote(c, h, ori.at[r][left + n - 1], mag.at[r][left + n - 1])
  }

  /** One more vote: bin k, computed as `process_cell` computes it, is inside the
      histogram exactly when the orientation has a bin, and then the vote adds the
      magnitude to entry k. */
  lemma RowVotesStep(c: Config, before: seq<real>, mag: Mat, ori: Mat, r: nat, left: nat, j: nat,
                     hist: seq<real>, k: int)
    requires c.Valid() && |before| == c.binning && Maps(mag, ori)
    requires r < mag.rows && left + j < mag.cols
    requires RowVotes(c, before, mag, ori, r, left, j) == Ok(hist)
    requires k == if c.BinWidth() == 0 then -1 else Trunc(Folded(c, ori.at[r][left + j]) / c.BinWidth() as real)
    ensures 0 <= k < c.binning <==> HasBin(c, ori.at[r][left + j])
    ensures 0 <= k < c.binning ==>
      RowVotes(c, before, mag, ori, r, left, j + 1) == Ok(hist[k := hist[k] + mag.at[r][left + j]])
  {
  }

  /** The histogram after the rows `top .. top + n - 1` of the cell at (`top`, `left`),
      row by row, starting from an all-zero histogram. */
  function CellVotes(c: Config, mag: Mat, ori: Mat, top: nat, left: nat, n: nat)
    : (res: Result<seq<real>, CellError>)
    requires c.Valid() && Maps(mag, ori)
    requires top + n <= mag.rows && left + c.cellsize <= mag.cols
    ensures res.Ok? ==> |res.value| == c.binning
  {
    if n == 0 then Ok(Zeros(c.binning))
    else match CellVotes(c, mag, ori, top, left, n - 1)
      case Err(e) => Err(e)
      case Ok(h) => RowVotes(c, h, mag, ori, top + n - 1, left, c.cellsize)
  }

  /** `process_cell`: the histogram of the cell whose top-left pixel is (`top`, `left`). */
  function CellHistogram(c: Config, mag: Mat, ori: Mat, top: nat, left: nat)
    : (res: Result<seq<real>, CellError>)
    requires c.Valid() && Maps(mag, ori)
    requires top + c.cellsize <= mag.rows && left + c.cellsize <= mag.cols
    ensures res.Ok? ==> |res.value| == c.binning
  {
    CellVotes(c, mag, ori, top, left, c.cellsize)
  }

  // ----- Reference definitions: what a cell histogram should contain -----

  /** Sum of the magnitudes of pixels `left .. left + n - 1` of row `r` whose vote goes to bin `k`. */
  ghost function RowBinMass(c: Config, mag: Mat, ori: Mat, k: int, r: nat, left: nat, n: nat): real
    requires c.Valid() && Maps(mag, ori)
    requires r < mag.rows && left + n <= mag.cols
  {
    if n == 0 then 0.0
    else
      var o := ori.at[r][left + n - 1];
      RowBinMass(c, mag, ori, k, r, left, n - 1)
        + (if HasBin(c, o) && RawBin(c, o) == k then mag.at[r][left + n - 1] else 0.0)
  }

  /** Sum of the magnitudes of the cell's first `n` rows whose vote goes to bin `k`. */
  ghost function CellBinMass(c: Config, mag: Mat, ori: Mat, k: int, top: nat, left: nat, n: nat): real
    requires c.Valid() && Maps(mag, ori)
    requires top + n <= mag.rows && left + c.cellsize <= mag.cols
  {
    if n == 0 then 0.0
    else CellBinMass(c, mag, ori, k, top, left, n - 1) + RowBinMass(c, mag, ori, k, top + n - 1, left, c.cellsize)
  }

  /** Sum of all magnitudes of pixels `left .. left + n - 1` of row `r`. */
  ghost function RowMass(mag: Mat, r: nat, left: nat, n: nat): real
    requires mag.Valid() && r < mag.rows && left + n <= mag.cols
  {
    if n == 0 then 0.0 else RowMass(mag, r, left, n - 1) + mag.at[r][left + n - 1]
  }

  /** Sum of all magnitudes of the first `n` rows of a `width`-wide region. */
  ghost function RegionMass(mag: Mat, top: nat, left: nat, width: nat, n: nat): real
    requires mag.Valid() && top + n <= mag.rows && left + width <= mag.cols
  {
    if n == 0 then 0.0 else RegionMass(mag, top, left, width, n - 1) + RowMass(mag, top + n - 1, left, width)
  }

  /** Every pixel of rows `top .. top + height - 1`, columns `left .. left + width - 1` has a bin. */
  ghost predicate RegionBinned(c: Config, ori: Mat, top: nat, left: nat, height: nat, width: nat)
    requires c.Valid() && ori.Valid() && top + height <= ori.rows && left + width <= ori.cols
  {
    forall i, j :: top <= i < top + height && left <= j < left + width ==> HasBin(c, ori.at[i][j])
  }

  // ----- Properties of one row of votes -----

  /** A row of votes succeeds exactly when each of its pixels has a bin. */
  lemma {:induction false} RowVotesOk(c: Config, hist: seq<real>, mag: Mat, ori: Mat, r: nat, left: nat, n: nat)
    requires c.Valid() && |hist| == c.binning && Maps(mag, ori)
    requires r < mag.rows && left + n <= mag.cols
    ensures RowVotes(c, hist, mag, ori, r, left, n).Ok? <==> RegionBinned(c, ori, r, left, 1, n)
  {
    if n > 0 {
      RowVotesOk(c, hist, mag, ori, r, left, n - 1);
      if RegionBinned(c, ori, r, left, 1, n) {
        assert HasBin(c, ori.at[r][left + n - 1]);
      } else if RowVotes(c, hist, mag, ori, r, left, n - 1).Ok? {
        assert RegionBinned(c, ori, r, left, 1, n - 1);
        assert !HasBin(c, ori.at[r][left + n - 1]);
      }
    }
  }

  /** Each bin of a row's result grows by exactly the magnitudes voting for it. */
  lemma {:induction false} RowVotesBins(c: Config, hist: seq<real>, mag: Mat, ori: Mat, r: nat, left: nat, n: nat)
    requires c.Valid() && |hist| == c.binning && Maps(mag, ori)
    requires r < mag.rows && left + n <= mag.cols
    requires RowVotes(c, hist, mag, ori, r, left, n).Ok?
    ensures forall k :: 0 <= k < c.binning ==>
      RowVotes(c, hist, mag, ori, r, left, n).value[k] == hist[k] + RowBinMass(c, mag, ori, k, r, left, n)
  {
    if n > 0 {
      RowVotesBins(c, hist, mag, ori, r, left, n - 1);
    }
  }

  /** The histogram total grows by the row's total magnitude: every pixel votes once. */
  lemma {:induction false} RowVotesTotal(c: Config, hist: seq<real>, mag: Mat, ori: Mat, r: nat, left: nat, n: nat)
    requires c.Valid() && |hist| == c.binning && Maps(mag, ori)
    requires r < mag.rows && left + n <= mag.cols
    requires RowVotes(c, hist, mag, ori, r, left, n).Ok?
    ensures Sum(RowVotes(c, hist, mag, ori, r, left, n).value) == Sum(hist) + RowMass(mag, r, left, n)
  {
    if n > 0 {
      RowVotesTotal(c, hist, mag, ori, r, left, n - 1);
      var h := RowVotes(c, hist, mag, ori, r, left, n - 1).value;
      var o := ori.at[r][left + n - 1];
      SumUpdate(h, RawBin(c, o), mag.at[r][left + n - 1]);
    }
  }

  // ----- Properties of a cell histogram -----

  /** A cell's histogram is computed exactly when every pixel of the cell has a bin. */
  lemma {:induction false} CellVotesOk(c: Config, mag: Mat, ori: Mat, top: nat, left: nat, n: nat)
    requires c.Valid() && Maps(mag, ori)
    requires top + n <= mag.rows && left + c.cellsize <= mag.cols
    ensures CellVotes(c, mag, ori, top, left, n).Ok? <==> RegionBinned(c, ori, top, left, n, c.cellsize)
  {
    if n > 0 {
      CellVotesOk(c, mag, ori, top, left, n - 1);
      var prev := CellVotes(c, mag, ori, top, left, n - 1);
      var r := top + n - 1;
      if prev.Ok? {
        RowVotesOk(c, prev.value, mag, ori, r, left, c.cellsize);
      }
      if RegionBinned(c, ori, top, left, n, c.cellsize) {
        assert RegionBinned(c, ori, top, left, n - 1, c.cellsize);
        assert RegionBinned(c, ori, r, left, 1, c.cellsize);
      } else if RegionBinned(c, ori, top, left, n - 1, c.cellsize) {
        assert !RegionBinned(c, ori, r, left, 1, c.cellsize);
      }
    }
  }

  /** Hard assignment: bin k of a cell's histogram is the sum of the magnitudes of
      exactly those cell pixels whose orientation falls in bin k. */
  lemma {:induction false} CellVotesBins(c: Config, mag: Mat, ori: Mat, top: nat, left: nat, n: nat)
    requires c.Valid() && Maps(mag, ori)
    requires top + n <= mag.rows && left + c.cellsize <= mag.cols
    requires CellVotes(c, mag, ori, top, left, n).Ok?
    ensures forall k :: 0 <= k < c.binning ==>
      CellVotes(c, mag, ori, top, left, n).value[k] == CellBinMass(c, mag, ori, k, top, left, n)
  {
    if n > 0 {
      CellVotesBins(c, mag, ori, top, left, n - 1);
      RowVotesBins(c, CellVotes(c, mag, ori, top, left, n - 1).value, mag, ori, top + n - 1, left, c.cellsize);
    }
  }

  /** Every pixel votes once: a cell histogram's total is the cell's total magnitude. */
  lemma {:induction false} CellVotesTotal(c: Config, mag: Mat, ori: Mat, top: nat, left: nat, n: nat)
    requires c.Valid() && Maps(mag, ori)
    requires top + n <= mag.rows && left + c.cellsize <= mag.cols
    requires CellVotes(c, mag, ori, top, left, n).Ok?
    ensures Sum(CellVotes(c, mag, ori, top, left, n).value) == RegionMass(mag, top, left, c.cellsize, n)
  {
    if n == 0 {
      SumZeros(Zeros(c.binning));
    } else {
      CellVotesTotal(c, mag, ori, top, left, n - 1);
      RowVotesTotal(c, CellVotes(c, mag, ori, top, left, n - 1).value, mag, ori, top + n - 1, left, c.cellsize);
    }
  }

  /** The three facts together for a whole cell (`process_cell`). */
  lemma CellHistogramSpec(c: Config, mag: Mat, ori: Mat, top: nat, left: nat)
    requires c.Valid() && Maps(mag, ori)
    requires top + c.cellsize <= mag.rows && left + c.cellsize <= mag.cols
    ensures CellHistogram(c, mag, ori, top, left).Ok? <==> RegionBinned(c, ori, top, left, c.cellsize, c.cellsize)
    ensures CellHistogram(c, mag, ori, top, left).Ok? ==>
      && |CellHistogram(c, mag, ori, top, left).value| == c.binning
      && Sum(CellHistogram(c, mag, ori, top, left).value) == RegionMass(mag, top, left, c.cellsize, c.cellsize)
      && forall k :: 0 <= k < c.binning ==>
           CellHistogram(c, mag, ori, top, left).value[k] == CellBinMass(c, mag, ori, k, top, left, c.cellsize)
  {
    CellVotesOk(c, mag, ori, top, left, c.cellsize);
    if CellHistogram(c, mag, ori, top, left).Ok? {
      CellVotesTotal(c, mag, ori, top, left, c.cellsize);
      CellVotesBins(c, mag, ori, top, left, c.cellsize);
    }
  }

  // ----- Which orientations have a bin -----

  /** When the bin count divides the gradient range, every orientation in [0, 360)
      falls in a bin of [0, binning). */
  lemma BinInRange(c: Config, o: real)
    requires c.Valid() && c.gradType % c.binning == 0
    requires 0.0 <= o < 360.0
    ensures HasBin(c, o)
  {
    var w := c.BinWidth();
    assert w * c.binning == c.gradType by {
      assert c.gradType == (c.gradType / c.binning) * c.binning + c.gradType % c.binning;
    }
    assert w > 0;
    var f := Folded(c, o);
    assert 0.0 <= f < c.gradType as real;
    var q := f / w as real;
    assert q >= 0.0;
    assert q < c.binning as real by {
      assert f < (w * c.binning) as real == w as real * c.binning as real;
      QuotientBelow(f, w as real, c.binning as real);
    }
  }

  lemma QuotientBelow(f: real, w: real, b: real)
    requires w > 0.0 && f < w * b
    ensures f / w < b
  {
  }

  /** Conversely, when the bin count does not divide the gradient range there is an
      orientation in [0, 360) whose bin index is past the end of the histogram, and
      `cell_hist.at` throws on it. */
  lemma BinPastEnd(c: Config)
    requires c.Valid() && c.gradType % c.binning != 0
    ensures var o := (c.BinWidth() * c.binning) as real;
      0.0 <= o < 360.0 && !HasBin(c, o)
  {
    var w := c.BinWidth();
    var o := (w * c.binning) as real;
    assert o < c.gradType as real;
    if w > 0 {
      assert Folded(c, o) == o;
      assert o / w as real == c.binning as real by {
        assert o == w as real * c.binning as real;
      }
    }
  }

  /** Both directions: all orientations in [0, 360) have a bin exactly when the bin
      count divides the gradient range (`_bin_width` is then exact). */
  lemma AllOrientationsBinned(c: Config)
    requires c.Valid()
    ensures (forall o: real :: 0.0 <= o < 360.0 ==> HasBin(c, o)) <==> c.gradType % c.binning == 0
  {
    if c.gradType % c.binning == 0 {
      forall o: real | 0.0 <= o < 360.0 ensures HasBin(c, o) {
        BinInRange(c, o);
      }
    } else {
      BinPastEnd(c);
    }
  }

  // ----- The grid of cells -----

  /** Cell `i` of an extent fits inside it when there are more than `i` whole cells. */
  lemma CellFits(i: nat, extent: nat, cellsize: nat)
    requires cellsize >= 1 && i < extent / cellsize
    ensures i * cellsize + cellsize <= extent
  {
    var q := extent / cellsize;
    assert extent == q * cellsize + extent % cellsize;
    assert i * cellsize + cellsize == (i + 1) * cellsize;
    MulLe(i + 1, q, cellsize);
  }

  /** The histogram of the cell in grid row `i`, grid column `j`. */
  function CellAt(c: Config, mag: Mat, ori: Mat, i: nat, j: nat): Result<seq<real>, CellError>
    requires c.Valid() && Maps(mag, ori)
    requires i < mag.rows / c.cellsize && j < mag.cols / c.cellsize
  {
    CellFits(i, mag.rows, c.cellsize);
    CellFits(j, mag.cols, c.cellsize);
    CellHistogram(c, mag, ori, i * c.cellsize, j * c.cellsize)
  }

  /** The first `n` cells of grid row `i`, left to right; the first failing cell throws. */
  function GridRow(c: Config, mag: Mat, ori: Mat, i: nat, n: nat): (res: Result<seq<seq<real>>, CellError>)
    requires c.Valid() && Maps(mag, ori)
    requires i < mag.rows / c.cellsize && n <= mag.cols / c.cellsize
    ensures res.Ok? <==> forall j :: 0 <= j < n ==> CellAt(c, mag, ori, i, j).Ok?
    ensures res.Ok? ==> |res.value| == n
    ensures res.Ok? ==> forall j :: 0 <= j < n ==> res.value[j] == CellAt(c, mag, ori, i, j).value
  {
    if n == 0 then Ok([])
    else match GridRow(c, mag, ori, i, n - 1)
      case Err(e) => Err(e)
      case Ok(row) =>
        match CellAt(c, mag, ori, i, n - 1)
        case Err(e) => Err(e)
        case Ok(h) => Ok(row + [h])
  }

  /** The first `n` rows of the grid, top to bottom. */
  function GridRows(c: Config, mag: Mat, ori: Mat, n: nat): (res: Result<seq<seq<seq<real>>>, CellError>)
    requires c.Valid() && Maps(mag, ori)
    requires n <= mag.rows / c.cellsize
    ensures res.Ok? <==>
      forall i, j :: 0 <= i < n && 0 <= j < mag.cols / c.cellsize ==> CellAt(c, mag, ori, i, j).Ok?
    ensures res.Ok? ==> |res.value| == n
    ensures res.Ok? ==> forall i :: 0 <= i < n ==> |res.value[i]| == mag.cols / c.cellsize
    ensures res.Ok? ==> forall i, j :: 0 <= i < n && 0 <= j < mag.cols / c.cellsize ==>
      res.value[i][j] == CellAt(c, mag, ori, i, j).value
  {
    if n == 0 then Ok([])
    else match GridRows(c, mag, ori, n - 1)
      case Err(e) => Err(e)
      case Ok(rows) =>
        match GridRow(c, mag, ori, n - 1, mag.cols / c.cellsize)
        case Err(e) => Err(e)
        case Ok(row) => Ok(rows + [row])
  }

  /** The cell pass of `process`: `rows/cellsize` rows of `cols/cellsize` cells. */
  function CellGrid(c: Config, mag: Mat, ori: Mat): Result<seq<seq<seq<real>>>, CellError>
    requires c.Valid() && Maps(mag, ori)
  {
    GridRows(c, mag, ori, mag.rows / c.cellsize)
  }

  /** A grid of `ny` rows of `nx` histograms of `bins` entries each. */
  ghost predicate GridShape(grid: seq<seq<seq<real>>>, ny: nat, nx: nat, bins: nat)
  {
    |grid| == ny
    && (forall i :: 0 <= i < ny ==> |grid[i]| == nx)
    && forall i, j :: 0 <= i < ny && 0 <= j < nx ==> |grid[i][j]| == bins
  }

  /** A computed grid has floor(rows/cellsize) × floor(cols/cellsize) histograms of
      `binning` entries; cell (i, j) covers pixel rows i*cellsize .. i*cellsize + cellsize - 1
      and columns j*cellsize .. j*cellsize + cellsize - 1, so the remainder rows and columns
      at the bottom and right edges belong to no cell. */
  lemma CellGridShape(c: Config, mag: Mat, ori: Mat)
    requires c.Valid() && Maps(mag, ori)
    requires CellGrid(c, mag, ori).Ok?
    ensures GridShape(CellGrid(c, mag, ori).value, mag.rows / c.cellsize, mag.cols / c.cellsize, c.binning)
    ensures (mag.rows / c.cellsize) * c.cellsize <= mag.rows
    ensures (mag.cols / c.cellsize) * c.cellsize <= mag.cols
  {
    var g := CellGrid(c, mag, ori).value;
    var ny, nx := mag.rows / c.cellsize, mag.cols / c.cellsize;
    forall i, j | 0 <= i < ny && 0 <= j < nx ensures |g[i][j]| == c.binning {
      assert g[i][j] == CellAt(c, mag, ori, i, j).value;
    }
    FloorTimesBelow(mag.rows, c.cellsize);
    FloorTimesBelow(mag.cols, c.cellsize);
  }

  lemma FloorTimesBelow(extent: nat, d: nat)
    requires d >= 1
    ensures (extent / d) * d <= extent
  {
    assert extent == (extent / d) * d + extent % d;
  }

  /** With orientations in [0, 360) (what `cv::phase` in degrees returns) and a bin
      count that divides the gradient range, the cell pass cannot throw. */
  lemma CellGridOk(c: Config, mag: Mat, ori: Mat)
    requires c.Valid() && Maps(mag, ori)
    requires forall i, j :: 0 <= i < ori.rows && 0 <= j < ori.cols ==> 0.0 <= ori.at[i][j] < 360.0
    requires c.gradType % c.binning == 0
    ensures CellGrid(c, mag, ori).Ok?
  {
    var ny, nx := mag.rows / c.cellsize, mag.cols / c.cellsize;
    forall i, j | 0 <= i < ny && 0 <= j < nx ensures CellAt(c, mag, ori, i, j).Ok? {
      CellFits(i, mag.rows, c.cellsize);
      CellFits(j, mag.cols, c.cellsize);
      var top, left := i * c.cellsize, j * c.cellsize;
      forall y, x | top <= y < top + c.cellsize && left <= x < left + c.cellsize
        ensures HasBin(c, ori.at[y][x])
      {
        BinInRange(c, ori.at[y][x]);
      }
      CellVotesOk(c, mag, ori, top, left, c.cellsize);
    }
  }
}
