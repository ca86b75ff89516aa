/** The immutable configuration of a HOG extractor: the constants of class `HOG`,
    the argument checks its constructors run, and the integer constants derived
    from the arguments once at construction. */
module HogConfig {
  import opened Wrappers

  /** Orientation range of a signed gradient, in degrees (0..360). */
  const GRADIENT_SIGNED: nat := 360
  /** Orientation range of an unsigned gradient, in degrees (0..180). */
  const GRADIENT_UNSIGNED: nat := 180
  /** Added to every normalizer's denominator: 1e-6. */
  const EPSILON: real := 0.000001
  /** Bin count when the constructor is not given one. */
  const DEFAULT_BINNING: nat := 9

  /** The block normalizers the class provides; the selected one is applied to
      every block histogram. */
  datatype BlockNorm = L1Norm | L1Sqrt | L2Norm | L2Hys | NoNorm

  /** The exceptions `check_ctor_params` throws, in the order it tests for them.
      `StrideZero` is raised only by the corrected check `CheckCtorParamsStrict`. */
  datatype CtorError =
    | BlocksizeTooSmall
    | CellsizeTooSmall
    | BinningTooSmall
    | UnknownGradType
    | BlocksizeNotMultiple
    | StrideNotMultiple
    | StrideZero

  /** Every rule of `check_ctor_params` holds. */
  predicate ParamsValid(blocksize: nat, cellsize: nat, stride: nat, binning: nat, gradType: nat)
  {
    && blocksize >= 2
    && cellsize >= 1
    && binning >= 2
    && (gradType == GRADIENT_UNSIGNED || gradType == GRADIENT_SIGNED)
    && blocksize % cellsize == 0
    && stride % cellsize == 0
  }

  /** `check_ctor_params` as written: the first rule that fails, in source order.
      The cell-size rule precedes both remainders, so neither divides by zero. */
  function CheckCtorParams(blocksize: nat, cellsize: nat, stride: nat, binning: nat, gradType: nat)
    : (r: Option<CtorError>)
    ensures r == None <==> ParamsValid(blocksize, cellsize, stride, binning, gradType)
    ensures r == Some(BlocksizeTooSmall) <==> blocksize < 2
    ensures r == Some(CellsizeTooSmall) <==> blocksize >= 2 && cellsize < 1
    ensures r == Some(BinningTooSmall) <==> blocksize >= 2 && cellsize >= 1 && binning < 2
    ensures r == Some(UnknownGradType) <==>
      blocksize >= 2 && cellsize >= 1 && binning >= 2 && gradType != 180 && gradType != 360
    ensures r == Some(BlocksizeNotMultiple) <==>
      blocksize >= 2 && cellsize >= 1 && binning >= 2 && (gradType == 180 || gradType == 360)
      && blocksize % cellsize != 0
    ensures r != Some(StrideZero)
  {
    if blocksize < 2 then Some(BlocksizeTooSmall)
    else if cellsize < 1 then Some(CellsizeTooSmall)
    else if binning < 2 then Some(BinningTooSmall)
    else if gradType != GRADIENT_UNSIGNED && gradType != GRADIENT_SIGNED then Some(UnknownGradType)
    else if blocksize % cellsize != 0 then Some(BlocksizeNotMultiple)
    else if stride % cellsize != 0 then Some(StrideNotMultiple)
    else None
  }

  /** The corrected check: as `CheckCtorParams`, and a stride of 0 (which passes
      `stride % cellsize == 0`) is refused as well, so the block scan always advances. */
  function CheckCtorParamsStrict(blocksize: nat, cellsize: nat, stride: nat, binning: nat, gradType: nat)
    : (r: Option<CtorError>)
    ensures r == None <==> ParamsValid(blocksize, cellsize, stride, binning, gradType) && stride >= cellsize
    ensures r == None ==> stride / cellsize >= 1
    ensures CheckCtorParams(blocksize, cellsize, stride, binning, gradType).Some? ==>
      r == CheckCtorParams(blocksize, cellsize, stride, binning, gradType)
  {
    var asWritten := CheckCtorParams(blocksize, cellsize, stride, binning, gradType);
    if asWritten.Some? then asWritten
    else if stride == 0 then Some(StrideZero)
    else
      assert stride == (stride / cellsize) * cellsize;
      None
  }

  /** The const fields of a `HOG` object. */
  datatype Config = Config(
    blocksize: nat,
    cellsize: nat,
    stride: nat,
    binning: nat,
    gradType: nat,
    norm: BlockNorm)
  {
    ghost predicate Valid()
    {
      CheckCtorParamsStrict(blocksize, cellsize, stride, binning, gradType) == None
    }

    /** `_bin_width`: degrees per bin, by integer division. */
    function BinWidth(): (w: nat)
      requires Valid()
      ensures w * binning <= gradType < (w + 1) * binning
    {
      gradType / binning
    }

    /** `_n_cells_per_block_y` (and `_x`): the block side in cells, exactly. */
    function CellsPerBlock(): (n: nat)
      requires Valid()
      ensures n >= 1 && n * cellsize == blocksize
    {
      assert blocksize == (blocksize / cellsize) * cellsize;
      blocksize / cellsize
    }

    /** `_block_hist_size`: one histogram per cell of a square block. */
    function BlockHistSize(): nat
      requires Valid()
    {
      binning * (CellsPerBlock() * CellsPerBlock())
    }

    /** `_stride_unit`: the stride in cells, exactly. */
    function StrideUnit(): (u: nat)
      requires Valid()
      ensures u >= 1 && u * cellsize == stride
    {
      assert stride == (stride / cellsize) * cellsize;
      stride / cellsize
    }
  }

  /** The four-size constructor (with its defaults): a configuration, or the
      exception `check_ctor_params` throws. */
  function New(blocksize: nat, cellsize: nat, stride: nat, binning: nat := DEFAULT_BINNING,
               gradType: nat := GRADIENT_UNSIGNED, norm: BlockNorm := L2Hys)
    : (r: Result<Config, CtorError>)
    ensures r.Ok? <==> ParamsValid(blocksize, cellsize, stride, binning, gradType) && stride >= cellsize
    ensures r.Ok? ==> r.value == Config(blocksize, cellsize, stride, binning, gradType, norm) && r.value.Valid()
    ensures r.Err? ==> r.error == CheckCtorParamsStrict(blocksize, cellsize, stride, binning, gradType).value
  {
    match CheckCtorParamsStrict(blocksize, cellsize, stride, binning, gradType)
    case Some(e) => Err(e)
    case None => Ok(Config(blocksize, cellsize, stride, binning, gradType, norm))
  }

  /** `HOG(blocksize, block_norm)`: cell size and stride are half the block. */
  function NewFromBlock(blocksize: nat, norm: BlockNorm := L2Hys): Result<Config, CtorError>
  {
    New(blocksize, blocksize / 2, blocksize / 2, DEFAULT_BINNING, GRADIENT_UNSIGNED, norm)
  }

  /** `HOG(blocksize, cellsize, block_norm)`: the stride is half the block. That stride is
      never 0, so the corrected check accepts exactly what the check as written accepts:
      both the block and its half must be multiples of the cell size. */
  function NewFromBlockCell(blocksize: nat, cellsize: nat, norm: BlockNorm := L2Hys)
    : (r: Result<Config, CtorError>)
    ensures r.Ok? <==>
      blocksize >= 2 && cellsize >= 1 && blocksize % cellsize == 0 && (blocksize / 2) % cellsize == 0
    ensures r.Ok? <==> CheckCtorParams(blocksize, cellsize, blocksize / 2, DEFAULT_BINNING, GRADIENT_UNSIGNED) == None
    ensures r.Ok? ==> r.value.Valid() && r.value.stride == blocksize / 2 && r.value.StrideUnit() * cellsize * 2 <= blocksize
  {
    PositiveMultiple(blocksize / 2, cellsize);
    New(blocksize, cellsize, blocksize / 2, DEFAULT_BINNING, GRADIENT_UNSIGNED, norm)
  }

  /** `HOG(blocksize, cellsize, stride, block_norm)`: 9 bins, unsigned gradients. */
  function NewFromBlockCellStride(blocksize: nat, cellsize: nat, stride: nat, norm: BlockNorm := L2Hys)
    : (r: Result<Config, CtorError>)
    ensures r.Ok? <==>
      CheckCtorParams(blocksize, cellsize, stride, DEFAULT_BINNING, GRADIENT_UNSIGNED) == None && stride != 0
    ensures r.Ok? ==>
      r.value.Valid() && r.value.binning == 9 && r.value.gradType == GRADIENT_UNSIGNED && r.value.StrideUnit() >= 1
    ensures CheckCtorParams(blocksize, cellsize, stride, DEFAULT_BINNING, GRADIENT_UNSIGNED) == None && stride == 0
            ==> r == Err(StrideZero)
  {
    PositiveMultiple(stride, cellsize);
    New(blocksize, cellsize, stride, DEFAULT_BINNING, GRADIENT_UNSIGNED, norm)
  }

  /** The one-argument constructor accepts exactly the even block sizes from 2 up,
      and 3 (cell size 1); any other odd block size is not a multiple of its half. */
  lemma NewFromBlockAccepts(blocksize: nat, norm: BlockNorm)
    ensures NewFromBlock(blocksize, norm).Ok? <==>
      blocksize >= 2 && (blocksize % 2 == 0 || blocksize == 3)
    ensures NewFromBlock(blocksize, norm).Ok? ==>
      var c := NewFromBlock(blocksize, norm).value;
      c.cellsize == c.stride == blocksize / 2 && c.binning == 9 && c.gradType == GRADIENT_UNSIGNED
      && c.StrideUnit() == 1 && c.CellsPerBlock() == blocksize / (blocksize / 2)
  {
    var half := blocksize / 2;
    if blocksize >= 4 && blocksize % 2 == 1 {
      assert blocksize == 2 * half + 1;
      ModOfTwiceplusOne(half);
      assert blocksize % half == 1;
    } else if blocksize >= 4 {
      assert blocksize == 2 * half;
      assert blocksize % half == 0 by { ModOfMultiple(2, half); }
    }
  }

  lemma ModOfMultiple(q: nat, d: nat)
    requires d >= 1
    ensures (q * d) % d == 0
  {
    DivModUnique(q * d, d, q, 0);
  }

  lemma ModOfTwiceplusOne(k: nat)
    requires k >= 2
    ensures (2 * k + 1) % k == 1
  {
    DivModUnique(2 * k + 1, k, 2, 1);
  }

  /** Euclidean division is determined by its defining equation. */
  lemma DivModUnique(a: nat, d: nat, q: nat, r: nat)
    requires d >= 1 && r < d && a == q * d + r
    ensures a / d == q && a % d == r
  {
    var q', r' := a / d, a % d;
    assert a == q' * d + r';
    if q' > q {
      MulAtLeastOnce(q' - q, d);
    } else if q' < q {
      MulAtLeastOnce(q - q', d);
    }
  }

  lemma MulAtLeastOnce(k: nat, d: nat)
    requires k >= 1
    ensures k * d >= d
  {
    assert k * d == (k - 1) * d + d;
  }

  /** A positive multiple of `d` is at least `d`. */
  lemma PositiveMultiple(n: nat, d: nat)
    ensures d >= 1 && n >= 1 && n % d == 0 ==> n >= d
  {
    if 1 <= n < d {
      DivModUnique(n, d, 0, n);
    }
  }

  /** The derived block constants agree with the formulas of the declaration. */
  lemma DerivedConstants(c: Config)
    requires c.Valid()
    ensures c.BlockHistSize() == c.binning * (c.blocksize / c.cellsize) * (c.blocksize / c.cellsize)
    ensures c.BlockHistSize() * c.cellsize * c.cellsize == c.binning * c.blocksize * c.blocksize
    ensures c.BinWidth() >= 1 <==> c.binning <= c.gradType
  {
    var n := c.CellsPerBlock();
    assert n * c.cellsize == c.blocksize;
    calc {
      c.BlockHistSize() * c.cellsize * c.cellsize;
      c.binning * (n * c.cellsize) * (n * c.cellsize);
      c.binning * c.blocksize * c.blocksize;
    }
  }
}
