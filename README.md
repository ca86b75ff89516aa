# HOG descriptor extractor — a Dafny model

This project models the core of a CPU implementation of the Histogram of Oriented
Gradients (HOG) descriptor: the class `HOG` declared in `HOG.hpp` and implemented in
`HOG.cpp`. It covers:

- **Configuration.** The class constants, the argument checks every constructor runs
  (`check_ctor_params`) and the four constructors. It also covers the integer constants
  derived from the arguments: bin width, cells per block, block-histogram size and stride
  unit.
- **Block normalizers.** The static normalizers `L1norm`, `L1sqrt`, `L2norm`, `L2hys`
  and `none`. Each works in place on an array and is proved equal to a function on
  sequences. Lemmas then prove what each function guarantees: the L1 sum stays below 1,
  the L2 energy stays below 1, and L2-Hys values stay in [0, 0.2] after clipping.
- **Per-cell histogram** (`process_cell`). Every pixel votes its magnitude into the bin
  `trunc(orientation / bin_width)`. Unsigned gradients fold the orientation into
  [0, 180) first. A bin outside the histogram is the `std::out_of_range` error that
  `.at()` throws. The lemmas prove:
  - each bin holds exactly the magnitude voted into it;
  - the bins sum to the cell's total magnitude;
  - the cell fails exactly when some pixel has no bin;
  - every orientation finds a bin if and only if `binning` divides the gradient range.
- **`process`.** The two guards, clearing the state, and filling the grid of cell
  histograms row by row. It is modelled as a method of class `Hog` and proved against
  the function `CellGrid`.
- **`retrieve`.** The window guard and the conversion of the window to cell units. Then
  come the four nested loops that concatenate cell histograms into block histograms,
  normalize each block and append it to the descriptor. `Retrieve` and its helper
  methods are proved equal to the function `RetrieveResult`. Lemmas about that function
  give:
  - the descriptor length `((H - blocksize)/stride + 1) * ((W - blocksize)/stride + 1) * block_hist_size`;
  - the exact position in the descriptor of each cell histogram of each block.
- **`clear_internals`.**

The gradient images (`mag`, `ori`) come from OpenCV filtering and are not modelled.
`Process` takes them as inputs (`Mat`, a row-major matrix of reals). The square root
behind `std::sqrt` is a parameter `sqrt: real -> real`. The lemmas that need it assume
that it returns the exact non-negative square root of every non-negative value.

Modules:

| module | file | models |
|---|---|---|
| `Wrappers` | wrappers.dfy | `Option`, `Result` |
| `Histogram` | histogram.dfy | sums and concatenations of histogram vectors |
| `HogConfig` | config.dfy | constants, constructor checks, derived constants |
| `BlockNormalize` | normalize.dfy | the five block normalizers |
| `CellPass` | cells.dfy | `process_cell` and the grid `process` builds |
| `BlockPass` | blocks.dfy | the window guard and the block scan of `retrieve` |
| `Hog` | hog.dfy | the mutable object: `process`, `retrieve`, `clear_internals` |

## Model

| member | source | states |
|---|---|---|
| HogConfig.CheckCtorParams | HOG.cpp:86-100 | The argument check as written. It accepts exactly when every rule holds and reports the first failing rule in source order, each as an if-and-only-if. It never reports a zero stride. |
| HogConfig.CheckCtorParamsStrict | HOG.cpp:86-100 | The corrected check. It accepts exactly the valid arguments whose stride is at least one cell, so the stride unit is at least 1. Any error of the as-written check is reported unchanged. |
| BlockPass.ZeroStrideAccepted | HOG.cpp:98-99 | A stride of 0 passes the as-written check. The stride unit `stride / cellsize` is then 0, so after any number of steps the block is still at its origin and the `block_y` loop condition still holds. The corrected check rejects the stride. |
| HogConfig.New | HOG.cpp:120-125 | The full constructor succeeds exactly on valid arguments. On success it yields a configuration holding the arguments as given. On failure it yields the check's error. |
| HogConfig.NewFromBlockCell | HOG.cpp:108-113 | The two-size constructor (stride is half the block, 9 bins, unsigned) succeeds exactly when the block is at least 2 and both the block and its half are multiples of the cell size. That is exactly when the as-written check accepts, because the half is never 0. On success the stride is half the block. |
| HogConfig.NewFromBlockCellStride | HOG.cpp:114-119 | The three-size constructor succeeds exactly when the as-written check accepts and the stride is not 0. A zero stride that the as-written check accepts gives `StrideZero`. On success there are 9 bins, unsigned gradients and a stride unit of at least 1. |
| HogConfig.NewFromBlockAccepts | HOG.cpp:102-107 | The one-argument constructor (cell and stride are half the block, 9 bins, unsigned) succeeds exactly for even block sizes of at least 2 and for 3. Its stride unit is 1. |
| HogConfig.Config.BinWidth | HOG.cpp:104 | `_bin_width = _grad_type / _binning`, characterised as the floor of the quotient: `w*binning <= grad_type < (w+1)*binning`. |
| HogConfig.Config.CellsPerBlock | HOG.hpp:63-64 | The block side in cells is at least 1 and exactly `blocksize / cellsize`. |
| HogConfig.Config.StrideUnit | HOG.hpp:67 | The stride in cells is at least 1 and exactly `stride / cellsize`. |
| HogConfig.DerivedConstants | HOG.hpp:62-66 | The block-histogram size is `binning * cpb * cpb` and covers `binning * blocksize^2` pixels' worth of cells. The bin width is non-zero exactly when `binning <= grad_type`. |
| Histogram.Zeros | HOG.cpp:203 | Definition of the fresh `THist(binning)`: its contract gives `binning` zero entries. `SumZeros` proves that such a histogram totals 0. |
| Histogram.SumUpdate | HOG.cpp:209 | Adding a vote to one bin adds it to the histogram's total. |
| Histogram.SumZeros | HOG.cpp:203 | An all-zero histogram sums to 0. |
| Histogram.ConcatPrefixStep | HOG.cpp:184 | Appending one more part extends the concatenation by that part. |
| Histogram.ConcatLength | HOG.cpp:184 | Concatenating equal-length parts gives `|parts| * len` values. |
| Histogram.ConcatSegment | HOG.cpp:184 | In a concatenation of equal-length parts, part k occupies exactly the positions from `k*len` to `k*len + len`. |
| BlockNormalize.Scaled | HOG.cpp:47-49 | Dividing by a non-zero denominator keeps the length, and each value times the denominator gives back the original. |
| BlockNormalize.Clipped | HOG.cpp:75-80 | Clipping keeps the length, puts every value in [0, 0.2] and leaves values already in that range unchanged. |
| BlockNormalize.Normalized | HOG.cpp:43-84 | Every normalizer keeps the block length. `none` returns the block unchanged. |
| BlockNormalize.Accumulate | HOG.cpp:44 | The accumulation loop returns the left-to-right sum of the array. |
| BlockNormalize.DivideAll | HOG.cpp:47-49 | The in-place transform leaves the array equal to its old contents divided by the denominator. |
| BlockNormalize.L1norm | HOG.cpp:43-50 | The in-place L1 normalizer leaves the array equal to `L1Normalized` of its old contents. |
| BlockNormalize.L1sqrt | HOG.cpp:52-57 | The in-place L1-sqrt normalizer leaves the array equal to `L1SqrtNormalized` of its old contents. |
| BlockNormalize.L2norm | HOG.cpp:59-71 | The in-place L2 normalizer leaves the array equal to `L2Normalized` of its old contents. |
| BlockNormalize.L2hys | HOG.cpp:73-82 | The in-place L2-Hys normalizer leaves the array equal to `L2HysNormalized` of its old contents. |
| BlockNormalize.NoNormalization | HOG.cpp:84 | `none` leaves the array unchanged. |
| BlockNormalize.NormalizeBlock | HOG.cpp:187 | Applying the configured normalizer to a block array leaves it equal to `Normalized(norm, old contents)`. |
| BlockNormalize.SumScaled | HOG.cpp:47-49 | Dividing every entry by `den` divides the sum by `den`. |
| BlockNormalize.L1NormOfZero | HOG.cpp:43-50 | An all-zero block is a fixed point of L1 normalization, thanks to epsilon. |
| BlockNormalize.L1NormSum | HOG.cpp:43-50 | For a non-negative block, the L1-normalized entries sum to a value in [0, 1). The shortfall times `(sum + epsilon)` is exactly epsilon. |
| BlockNormalize.L1NormRatio | HOG.cpp:43-50 | For a block with non-negative sum, the normalized sum times `(sum + epsilon)` is the original sum. |
| BlockNormalize.L1SqrtEnergy | HOG.cpp:52-57 | For a non-negative block and an exact square root, every L1-sqrt entry is non-negative. The squares of the entries sum to the L1-normalized total, which is below 1. |
| BlockNormalize.SumNonNegative | HOG.cpp:44 | A histogram of non-negative votes has a non-negative sum. |
| BlockNormalize.SumSquaresScaled | HOG.cpp:61-69 | Dividing every entry by `den` divides the sum of squares by `den^2`. |
| BlockNormalize.SquaresNonNegative | HOG.cpp:61-64 | The sum of squares is non-negative. |
| BlockNormalize.L2NormBelowOne | HOG.cpp:59-71 | After L2 normalization the sum of squares is below 1, because epsilon sits under the root. |
| BlockNormalize.L2HysBounds | HOG.cpp:73-82 | After L2-Hys the sum of squares is below 1, and the clipped intermediate values lie in [0, 0.2]. |
| CellPass.Trunc | HOG.cpp:209 | `static_cast<int>` truncates toward zero: floor for non-negative values, ceiling for negative ones. |
| CellPass.Folded | HOG.cpp:217-219 | Signed orientations are kept as they are. Unsigned orientations in [0, 360) are folded into [0, 180). |
| CellPass.AddVote | HOG.cpp:209 | One vote succeeds exactly when the orientation has a bin, and keeps `binning` entries. |
| CellPass.RowVotesStep | HOG.cpp:216-220 | The bin index computed for the next pixel is in range exactly when that pixel has a bin. In that case the running histogram gains the pixel's magnitude in that bin. |
| CellPass.RowVotesOk | HOG.cpp:208-210 | Voting a row succeeds exactly when every pixel of the row has a bin. |
| CellPass.RowVotesBins | HOG.cpp:208-210 | After a row, every bin holds its old value plus the magnitudes of the row's pixels in that bin. |
| CellPass.RowVotesTotal | HOG.cpp:208-210 | After a row, the histogram's total grew by the row's total magnitude. |
| CellPass.CellVotesOk | HOG.cpp:205-211 | Voting a cell succeeds exactly when every pixel of the cell has a bin. |
| CellPass.CellVotesBins | HOG.cpp:205-211 | Each bin of a cell histogram is the magnitude mass of the cell's pixels in that bin. |
| CellPass.CellVotesTotal | HOG.cpp:205-211 | The bins of a cell histogram sum to the cell's total magnitude. |
| CellPass.CellHistogramSpec | HOG.cpp:202-225 | `process_cell` succeeds exactly when every pixel has a bin. It then returns `binning` bins, each the mass voted into it, summing to the cell's magnitude. |
| CellPass.BinInRange | HOG.cpp:209 | When `binning` divides the gradient range, every orientation in [0, 360) finds a bin. |
| CellPass.BinPastEnd | HOG.cpp:209 | When `binning` does not divide the gradient range, the orientation `bin_width * binning` is below 360 and has no bin. |
| CellPass.AllOrientationsBinned | HOG.cpp:202-225 | Every orientation in [0, 360) finds a bin if and only if `binning` divides the gradient range. |
| CellPass.CellFits | HOG.cpp:141-153 | Cell `i` of a grid of `extent / cellsize` cells lies inside the image. |
| CellPass.GridRow | HOG.cpp:151-156 | A grid row succeeds exactly when each of its cells does. It then holds `_n_cells_x` histograms, cell `j` at index `j`. |
| CellPass.GridRows | HOG.cpp:144-158 | The grid succeeds exactly when every cell does. It then has `_n_cells_y` rows of `_n_cells_x` cells, and `(i, j)` holds cell `(i, j)`'s histogram. |
| CellPass.CellGridShape | HOG.cpp:141-158 | A built grid has shape `rows/cellsize` by `cols/cellsize`, each cell holding `binning` bins, and the cells cover no pixel outside the image. |
| CellPass.CellGridOk | HOG.cpp:141-158 | When `binning` divides the gradient range and every orientation lies in [0, 360), building the grid cannot fail. |
| Hog.Hog.constructor | HOG.cpp:120-125 | A new object holds its configuration, empty gradient images, zero cell counts and an empty grid. |
| Hog.Hog.ClearInternals | HOG.cpp:295-302 | Empties the grid of cell histograms and changes nothing else. |
| Hog.Hog.ProcessCell | HOG.cpp:202-225 | The nested voting loops return exactly `CellHistogram`: the histogram, or the out-of-range error. |
| Hog.Hog.CellHistogramFails | HOG.cpp:209 | One pixel without a bin makes the whole cell fail. |
| Hog.Hog.Process | HOG.cpp:128-159 | An empty image is `InvalidImage`. An image smaller than the block is `ImageTooSmall`. Both leave the state unchanged. Otherwise the gradients are stored and the call succeeds exactly when the grid builds; the grid is then exactly `CellGrid`. On a bin error, some cell already visited has no histogram. |
| Hog.Hog.FillGrid | HOG.cpp:144-158 | The row loop succeeds exactly when `CellGrid` does and then leaves a complete grid. On failure it names a failing cell. |
| Hog.Hog.FillRow | HOG.cpp:151-156 | The column loop for row `i` succeeds exactly when `GridRow` does and extends the filled prefix by one row. |
| Hog.StartRow | HOG.cpp:151 | Resizing row `i` keeps the filled-rows invariant with no cells of row `i` filled yet. |
| Hog.FillStep | HOG.cpp:153-155 | Storing cell `(i, j)` extends the filled prefix of row `i` by one cell. |
| Hog.FinishRow | HOG.cpp:152-157 | A fully filled row extends the filled rows by one. |
| Hog.RowFailsGrid | HOG.cpp:150-158 | A failing row makes the whole grid fail. |
| Hog.Hog.Retrieve | HOG.cpp:161-192 | The guard and the four nested loops return exactly `RetrieveResult`: an error exactly when the window check fails, otherwise the concatenated normalized blocks. |
| Hog.AssembleBlock | HOG.cpp:179-186 | The two inner loops build exactly `BlockHist`: the block's cell histograms, row by row, left to right. |
| Hog.AppendBlock | HOG.cpp:179-188 | One block step appends the normalized block histogram to the descriptor. |
| Hog.AppendScanRow | HOG.cpp:178-189 | The `block_x` loop appends one descriptor row: every normalized block of that block row, left to right. |
| BlockPass.AsSizeT | HOG.cpp:170-173 | Conversion to `size_t` keeps non-negative values and sends negative `int` values to at least `2^64 - 2^31`. |
| BlockPass.CheckWindow | HOG.cpp:163-166 | The corrected guard accepts exactly the windows at least a block in size that lie inside the image, and reports `WindowTooSmall` exactly when the window is smaller than a block. |
| BlockPass.CheckWindowAgrees | HOG.cpp:163-166 | For windows with non-negative origin and size, the corrected guard and the guard as written agree. |
| BlockPass.CheckWindowStricter | HOG.cpp:163-166 | Every window the corrected guard accepts is also accepted as written. |
| BlockPass.NegativeWindowAccepted | HOG.cpp:163-170 | Three windows pass the guard as written. The first is at x = -16, and its converted cell column lies outside the grid. The second has height -5, which is compared as a `size_t`. The third is at (-40, -40) on the 0x0 maps of an object that has processed nothing. The corrected guard rejects all three. |
| BlockPass.RetrieveResult | HOG.cpp:161-192 | `retrieve` fails exactly when the window check fails. |
| BlockPass.BlockRows | HOG.cpp:181 | Definition of the `cell_y` rows of a block; its contract gives only the length. Its content is proved in `BlockLayout`. |
| BlockPass.RowCells | HOG.cpp:182 | Definition of the `cell_x` cells of a block row; its contract gives only the length. Its content is proved in `BlockLayout`. |
| BlockPass.RowBlocks | HOG.cpp:178 | Definition of the `block_x` scan of one block row; its contract gives only the length. Its content is proved in `DescriptorSegment`. |
| BlockPass.ScanRows | HOG.cpp:177 | Definition of the `block_y` scan; its contract gives only the length. Its content is proved in `DescriptorSegment`. |
| BlockPass.RowCellsStep | HOG.cpp:182-184 | One `cell_x` step appends cell `(cy, blockX + k)` to the block histogram. |
| BlockPass.BlockRowsStep | HOG.cpp:181-185 | One `cell_y` step appends one full row of cells. |
| BlockPass.BlockRowsComplete | HOG.cpp:181-186 | After `cpb` cell rows the block histogram is complete. |
| BlockPass.RowBlocksStep | HOG.cpp:178-188 | One `block_x` step appends the normalized block at column `x + s*stride_unit`. |
| BlockPass.RowBlocksComplete | HOG.cpp:178-189 | After `BlockCount(width)` steps the descriptor row is complete. |
| BlockPass.ScanRowsStep | HOG.cpp:177-190 | One `block_y` step appends the descriptor row at `y + t*stride_unit`. |
| BlockPass.ScanRowsComplete | HOG.cpp:177-190 | After `BlockCount(height)` steps the descriptor is complete. |
| BlockPass.StepBound | HOG.cpp:177 | `t*step <= room` exactly when `t < room/step + 1`, which is the loop bound of the block scan. |
| BlockPass.ScanStep | HOG.cpp:177-178 | The k-th block position fits in the window. The next position is one stride unit further. It still fits exactly when `k + 1 < BlockCount`. |
| BlockPass.WindowInGrid | HOG.cpp:168-173 | An accepted window, converted to cells, fits in the grid. |
| BlockPass.BlockCellsInGrid | HOG.cpp:177-183 | Every block visited by the scan lies inside the grid, so each `_cell_hists[cell_y][cell_x]` is in range. |
| BlockPass.BlockRowCells | HOG.cpp:182-184 | Each cell of a block row holds `binning` bins. |
| BlockPass.BlockRowLength | HOG.cpp:182-184 | A block row holds `cpb * binning` values. |
| BlockPass.BlockRowSegment | HOG.cpp:182-184 | Cell `col` of a block row sits at `col*binning`. |
| BlockPass.BlockRowsSegment | HOG.cpp:181-186 | A block histogram has `cpb*cpb*binning` values, and its cell row `r` sits at `r*cpb*binning`. |
| BlockPass.BlockLayout | HOG.cpp:179-186 | A block histogram has `_block_hist_size` values. Cell `(r, col)` of the block sits at `(r*cpb + col)*binning`. |
| BlockPass.RowBlocksLength | HOG.cpp:178-188 | Every normalized block of a scan row has `_block_hist_size` values. |
| BlockPass.ScanRowsLength | HOG.cpp:177-190 | Every descriptor row has the same length. |
| BlockPass.DescriptorRowSegment | HOG.cpp:177-190 | Descriptor row `t` sits at `t*rowLen` in the descriptor. |
| BlockPass.RowBlockSegment | HOG.cpp:178-188 | Block `s` of a descriptor row sits at `s*_block_hist_size`. |
| BlockPass.DescriptorLength | HOG.cpp:176-191 | The descriptor has `BlockCount(height) * BlockCount(width) * _block_hist_size` values. |
| BlockPass.DescriptorSegment | HOG.cpp:176-191 | Block `(t, s)` of the scan sits at `(t*nx + s)*_block_hist_size` in the descriptor. It holds the normalized histogram of the block at cell `(y + t*su, x + s*su)`. |
| BlockPass.BlockCountInPixels | HOG.cpp:170-177 | The number of block positions along a side, counted in cells, is `(extent - blocksize)/stride + 1`, counted in pixels. |
| BlockPass.RetrieveLength | HOG.cpp:161-192 | For an accepted window over a complete grid, `retrieve` succeeds with `((H - blocksize)/stride + 1) * ((W - blocksize)/stride + 1) * _block_hist_size` values. |
| BlockPass.DriverDescriptorSize | main.cpp:44-48 | With the driver's settings (block 32, cell 16, stride 16, 9 bins, 128x256 window), `retrieve` returns `hog_size` = 3780 values, so the driver's assertion holds. |

## Left out

- Gradient computation (`magnitude_and_orientation`, the `_kernelx`/`_kernely` filters, `cv::magnitude`, `cv::phase`) is OpenCV code and is not modelled. `Process` receives the magnitude and orientation images as inputs instead of an image.
- `get_vector_mask`, `get_magnitudes` and `get_orientations` only draw or return state. They are not modelled.
- Floating point: `float` values are modelled as exact reals. Rounding, infinities and NaN are not modelled.
- `std::sqrt` is the parameter `sqrt`. Lemmas about the L1-sqrt, L2 and L2-Hys normalizers assume that it returns the exact non-negative root: `sqrt(x) >= 0` and `sqrt(x) * sqrt(x) == x` for every `x >= 0`.
- The OpenMP remarks in `process` and `retrieve` describe no parallel code, so nothing concurrent is modelled.
- `size_t` and `int` overflow in sizes and products is not modelled: integers are unbounded. The exceptions are the `size_t` conversions in `retrieve`. A negative window origin is converted into a cell coordinate (`CellCoordAsWritten`). A negative window height or width is compared with the `size_t` `_blocksize` (`CheckWindowAsWritten`).
- The magnitude and orientation maps are taken to be single-channel `CV_32F` images (`CellPass.Mat`). The driver loads images with `CV_LOAD_IMAGE_UNCHANGED`. A colour image gives multi-channel maps, and the `ptr<float>` reads of `process_cell` would then walk interleaved channel values. That case is not modelled.
- `_n_cells_y` and `_n_cells_x` are uninitialized until the first `process`. The model starts them at 0.
- HogConfig.New: with `cellsize == 0` the source divides by zero in the member initialisers `_n_cells_per_block_y = _blocksize/_cellsize` (HOG.hpp:63) and `_stride_unit = _stride/_cellsize` (HOG.hpp:67). These run before the constructor body calls `check_ctor_params`, so the source never throws "cellsize must be at least 1". The model returns `CellsizeTooSmall` instead of modelling that undefined behaviour.
- HogConfig.NewFromBlockAccepts: `HOG(0)` and `HOG(1)` have cell size `blocksize/2 == 0` and divide by zero before the check, as above. The model reports `BlocksizeTooSmall` for them.
- HogConfig.NewFromBlockCell: with `cellsize == 0` it divides by zero before the check, as above. The model reports the check's error.
- HogConfig.NewFromBlockCellStride: with `cellsize == 0` it divides by zero before the check, as above. The model reports the check's error.
- `_bin_width` is computed before `check_ctor_params`, so `binning == 0` divides by zero before the check runs. Configurations are only built after the check, so this is not modelled. A bin width of 0 (when `binning > grad_type`) makes the source divide a float by 0. The model treats it as "no bin", which is the out-of-range error.
- Hog.Hog.Retrieve: requires a complete grid (`Ready`). After `process` fails at cell (i, j), the source leaves a partial grid, and `Process` states that grid exactly:
  - rows before i are complete, so a window over them is well defined in the source;
  - row i holds `_n_cells_x` histograms, and those from column j on are empty, so a window reaching row i returns shortened blocks without an error;
  - rows after i are empty, and reading them with `operator[]` is undefined behaviour.

  The model gives `Retrieve` no result in any of these states.
- Hog.Hog.Retrieve: uses the corrected window guard `CheckWindow`. The guard as written is `CheckWindowAsWritten` (see Findings).
- HogConfig.New: uses the corrected argument check `CheckCtorParamsStrict`. The check as written is `CheckCtorParams` (see Findings).
- BlockPass.CellCoordAsWritten: models `static_cast<int>(window.x/_cellsize)` stored into a `size_t` as a wrap-around to 2^64. The exact value depends on the platform's integer widths.
- `retrieve` has no "not processed" error. Before the first `process` the gradient images are 0x0, so every window fails the corrected bounds check. The guard as written still lets a window with a negative origin through, such as `Rect(-40, -40, 32, 32)` (see `NegativeWindowAccepted` and the second Findings row), and that window then indexes the empty `_cell_hists`.
- main.cpp runs `process` on the uncropped image (line 77) and `retrieve` on a window the size of the crop. `DriverDescriptorSize` covers the descriptor length when the processed image has the crop's size, 128x256. File listing, image loading, resizing and output are I/O and are not modelled.

## Findings

| source | as written | input that shows it | evidently intended | confidence | as-written member | corrected member |
|---|---|---|---|---|---|---|
| HOG.cpp:98-99, HOG.hpp:67, HOG.cpp:177 | `check_ctor_params` accepts any stride that is a multiple of the cell size, including 0. The stride unit is then 0, and `block_y += _stride_unit` never advances, so `retrieve` does not terminate normally: it keeps appending the same block until allocation fails. | `HOG(32, 16, 0, 9)` with a 32x32 window | reject a zero stride | not executed | BlockPass.ZeroStrideAccepted | HogConfig.CheckCtorParamsStrict |
| HOG.cpp:163-172 | The bounds guard checks only `x > cols - width` and `y > rows - height`. A negative origin passes, and its cell coordinate, stored into a `size_t`, lies far outside `_cell_hists`. A negative width or height is compared with `_blocksize` as a `size_t`, so it passes as well. | blocksize 32, cellsize 16, stride 16, 64x64 image, `Rect(-16, 0, 32, 32)` or `Rect(0, 0, 32, -5)` | reject windows with a negative origin or size | not executed | BlockPass.NegativeWindowAccepted | BlockPass.CheckWindow |
