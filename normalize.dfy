/** The block normalizers `L1norm`, `L1sqrt`, `L2norm`, `L2hys` and `none`.
    Each rewrites a histogram vector in place and keeps its length. Values are
    reals; the square root of the float library is the parameter `sqrt`. */
module BlockNormalize {
  import opened Histogram
  import opened HogConfig

  /** Every entry divided by `den`. */
  function Scaled(v: seq<real>, den: real): (r: seq<real>)
    requires den != 0.0
    ensures |r| == |v|
    ensures forall i :: 0 <= i < |v| ==> r[i] * den == v[i]
  {
    seq(|v|, i requires 0 <= i < |v| => v[i] / den)
  }

  function Squares(v: seq<real>): (r: seq<real>)
    ensures |r| == |v|
  {
    seq(|v|, i requires 0 <= i < |v| => v[i] * v[i])
  }

  function Roots(v: seq<real>, sqrt: real -> real): (r: seq<real>)
    ensures |r| == |v|
  {
    seq(|v|, i requires 0 <= i < |v| => sqrt(v[i]))
  }

  /** The clip of `L2hys`: above 0.2 becomes 0.2, below 0 becomes 0. */
  function Clip(x: real): real
  {
    if x > 0.2 then 0.2 else if x < 0.0 then 0.0 else x
  }

  function Clipped(v: seq<real>): (r: seq<real>)
    ensures |r| == |v|
    ensures forall i :: 0 <= i < |r| ==> 0.0 <= r[i] <= 0.2
    ensures forall i :: 0 <= i < |r| && 0.0 <= v[i] <= 0.2 ==> r[i] == v[i]
  {
    seq(|v|, i requires 0 <= i < |v| => Clip(v[i]))
  }

  /** `L1norm`: divide by the sum plus epsilon, unless that denominator is 0. */
  function L1Normalized(v: seq<real>): (r: seq<real>)
    ensures |r| == |v|
  {
    var den := Sum(v) + EPSILON;
    if den != 0.0 then Scaled(v, den) else v
  }

  /** `L1sqrt`: `L1norm`, then the square root of every entry. */
  function L1SqrtNormalized(v: seq<real>, sqrt: real -> real): (r: seq<real>)
    ensures |r| == |v|
  {
    Roots(L1Normalized(v), sqrt)
  }

  /** `L2norm`: divide by the square root of the sum of squares plus epsilon,
      unless that denominator is 0. */
  function L2Normalized(v: seq<real>, sqrt: real -> real): (r: seq<real>)
    ensures |r| == |v|
  {
    var den := sqrt(Sum(Squares(v)) + EPSILON);
    if den != 0.0 then Scaled(v, den) else v
  }

  /** `L2hys`: `L2norm`, clip into [0, 0.2], `L2norm` again. */
  function L2HysNormalized(v: seq<real>, sqrt: real -> real): (r: seq<real>)
    ensures |r| == |v|
  {
    L2Normalized(Clipped(L2Normalized(v, sqrt)), sqrt)
  }

  /** The selected normalizer applied to a block histogram. */
  function Normalized(norm: BlockNorm, v: seq<real>, sqrt: real -> real): (r: seq<real>)
    ensures |r| == |v|
    ensures norm == NoNorm ==> r == v
  {
    match norm
    case L1Norm => L1Normalized(v)
    case L1Sqrt => L1SqrtNormalized(v, sqrt)
    case L2Norm => L2Normalized(v, sqrt)
    case L2Hys => L2HysNormalized(v, sqrt)
    case NoNorm => v
  }

  /** std::accumulate over a vector, starting from 0. */
  method Accumulate(v: array<real>) returns (s: real)
    ensures s == Sum(v[..])
  {
    s := 0.0;
    var i := 0;
    while i < v.Length
      invariant 0 <= i <= v.Length
      invariant s == Sum(v[..i])
    {
      assert v[..i + 1][..i] == v[..i];
      s := s + v[i];
      i := i + 1;
    }
    assert v[..v.Length] == v[..];
  }

  /** std::transform dividing every entry by `den`. */
  method DivideAll(v: array<real>, den: real)
    requires den != 0.0
    modifies v
    ensures v[..] == Scaled(old(v[..]), den)
  {
    var i := 0;
    while i < v.Length
      invariant 0 <= i <= v.Length
      invariant forall k :: 0 <= k < i ==> v[k] == old(v[k]) / den
      invariant forall k :: i <= k < v.Length ==> v[k] == old(v[k])
    {
      v[i] := v[i] / den;
      i := i + 1;
    }
  }

  method L1norm(v: array<real>)
    modifies v
    ensures v[..] == L1Normalized(old(v[..]))
  {
    var s := Accumulate(v);
    var den := s + EPSILON;
    if den != 0.0 {
      DivideAll(v, den);
    }
  }

  method L1sqrt(v: array<real>, sqrt: real -> real)
    modifies v
    ensures v[..] == L1SqrtNormalized(old(v[..]), sqrt)
  {
    L1norm(v);
    ghost var normed := v[..];
    var i := 0;
    while i < v.Length
      invariant 0 <= i <= v.Length
      invariant forall k :: 0 <= k < i ==> v[k] == sqrt(normed[k])
      invariant forall k :: i <= k < v.Length ==> v[k] == normed[k]
    {
      v[i] := sqrt(v[i]);
      i := i + 1;
    }
  }

  method L2norm(v: array<real>, sqrt: real -> real)
    modifies v
    ensures v[..] == L2Normalized(old(v[..]), sqrt)
  {
    var temp := new real[v.Length];
    var i := 0;
    while i < v.Length
      invariant 0 <= i <= v.Length
      invariant forall k :: 0 <= k < i ==> temp[k] == v[k] * v[k]
      invariant v[..] == old(v[..])
    {
      temp[i] := v[i] * v[i];
      i := i + 1;
    }
    assert temp[..] == Squares(v[..]) by {
      forall k | 0 <= k < v.Length ensures temp[..][k] == Squares(v[..])[k] {
        assert temp[k] == v[k] * v[k];
      }
    }
    var den := Accumulate(temp);
    den := sqrt(den + EPSILON);
    if den != 0.0 {
      DivideAll(v, den);
    }
  }

  method L2hys(v: array<real>, sqrt: real -> real)
    modifies v
    ensures v[..] == L2HysNormalized(old(v[..]), sqrt)
  {
    L2norm(v, sqrt);
    ghost var normed := v[..];
    var i := 0;
    while i < v.Length
      invariant 0 <= i <= v.Length
      invariant forall k :: 0 <= k < i ==> v[k] == Clip(normed[k])
      invariant forall k :: i <= k < v.Length ==> v[k] == normed[k]
    {
      v[i] := Clip(v[i]);
      i := i + 1;
    }
    assert v[..] == Clipped(normed);
    L2norm(v, sqrt);
  }

  /** `none`: leaves the histogram as it is. */
  method NoNormalization(v: array<real>)
    ensures v[..] == old(v[..])
  {
  }

  /** `_block_norm(block_hist)`: the configured normalizer, in place. */
  method NormalizeBlock(norm: BlockNorm, v: array<real>, sqrt: real -> real)
    modifies v
    ensures v[..] == Normalized(norm, old(v[..]), sqrt)
  {
    match norm
    case L1Norm => L1norm(v);
    case L1Sqrt => L1sqrt(v, sqrt);
    case L2Norm => L2norm(v, sqrt);
    case L2Hys => L2hys(v, sqrt);
    case NoNorm => NoNormalization(v);
  }

  /** Dividing every entry by `den` divides the sum by `den`. */
  lemma {:induction false} SumScaled(v: seq<real>, den: real)
    requires den != 0.0
    ensures Sum(Scaled(v, den)) == Sum(v) / den
  {
    if v != [] {
      var n := |v| - 1;
      assert Scaled(v, den)[..n] == Scaled(v[..n], den);
      SumScaled(v[..n], den);
    }
  }

  /** An all-zero block stays all-zero under `L1norm`: the denominator is epsilon. */
  lemma L1NormOfZero(v: seq<real>)
    requires forall i :: 0 <= i < |v| ==> v[i] == 0.0
    ensures L1Normalized(v) == v
  {
    SumZeros(v);
    assert Sum(v) + EPSILON == EPSILON;
  }

  /** After `L1norm` a histogram of non-negative votes sums to Sum/(Sum + epsilon):
      a value in [0, 1) that falls short of 1 by epsilon/(Sum + epsilon). */
  lemma L1NormSum(v: seq<real>)
    requires forall i :: 0 <= i < |v| ==> v[i] >= 0.0
    ensures 0.0 <= Sum(L1Normalized(v)) < 1.0
    ensures (1.0 - Sum(L1Normalized(v))) * (Sum(v) + EPSILON) == EPSILON
  {
    SumNonNegative(v);
    L1NormRatio(v);
  }

  /** The same for any vector whose total is non-negative. */
  lemma L1NormRatio(v: seq<real>)
    requires Sum(v) >= 0.0
    ensures Sum(L1Normalized(v)) * (Sum(v) + EPSILON) == Sum(v)
    ensures (1.0 - Sum(L1Normalized(v))) * (Sum(v) + EPSILON) == EPSILON
    ensures 0.0 <= Sum(L1Normalized(v)) < 1.0
  {
    var s := Sum(v);
    var den := s + EPSILON;
    assert L1Normalized(v) == Scaled(v, den);
    SumScaled(v, den);
    var r := Sum(Scaled(v, den));
    DivTimes(s, den, r);
    RatioBelowOne(s, den, r);
  }

  /** After `L1sqrt` a histogram of non-negative votes has non-negative entries whose
      squares sum to the L1-normalized total, so its energy is below 1: the root of each
      entry undoes itself when squared. */
  lemma L1SqrtEnergy(v: seq<real>, sqrt: real -> real)
    requires forall i :: 0 <= i < |v| ==> v[i] >= 0.0
    requires forall x :: x >= 0.0 ==> sqrt(x) >= 0.0 && sqrt(x) * sqrt(x) == x
    ensures forall i :: 0 <= i < |v| ==> L1SqrtNormalized(v, sqrt)[i] >= 0.0
    ensures Sum(Squares(L1SqrtNormalized(v, sqrt))) == Sum(L1Normalized(v))
    ensures Sum(Squares(L1SqrtNormalized(v, sqrt))) < 1.0
  {
    SumNonNegative(v);
    var den := Sum(v) + EPSILON;
    var u := L1Normalized(v);
    assert u == Scaled(v, den);
    forall i | 0 <= i < |u| ensures u[i] >= 0.0 {
      QuotientNonNegative(v[i], den, u[i]);
    }
    var r := L1SqrtNormalized(v, sqrt);
    assert Squares(r) == u by {
      forall i | 0 <= i < |u| ensures Squares(r)[i] == u[i] {
        assert r[i] == sqrt(u[i]);
      }
    }
    L1NormSum(v);
  }

  lemma QuotientNonNegative(x: real, den: real, q: real)
    requires x >= 0.0 && den > 0.0 && q * den == x
    ensures q >= 0.0
  {
  }

  lemma DivTimes(s: real, den: real, r: real)
    requires den != 0.0 && r == s / den
    ensures r * den == s
  {
  }

  lemma RatioBelowOne(s: real, den: real, r: real)
    requires s >= 0.0 && den > s && r * den == s
    ensures 0.0 <= r < 1.0
    ensures (1.0 - r) * den == den - s
  {
  }

  lemma {:induction false} SumNonNegative(v: seq<real>)
    requires forall i :: 0 <= i < |v| ==> v[i] >= 0.0
    ensures Sum(v) >= 0.0
  {
    if v != [] {
      SumNonNegative(v[..|v| - 1]);
    }
  }

  /** Scaling by 1/den divides the sum of squares by den². */
  lemma {:induction false} SumSquaresScaled(v: seq<real>, den: real)
    requires den != 0.0
    ensures Sum(Squares(Scaled(v, den))) * (den * den) == Sum(Squares(v))
  {
    if v != [] {
      var n := |v| - 1;
      SquaresLast(v, den);
      SumSquaresScaled(v[..n], den);
      SquareStep(Sum(Squares(Scaled(v[..n], den))), v[n] / den, den, v[n]);
    }
  }

  /** Both sums of squares split off their last term. */
  lemma SquaresLast(v: seq<real>, den: real)
    requires den != 0.0 && v != []
    ensures var n := |v| - 1;
      Sum(Squares(Scaled(v, den))) == Sum(Squares(Scaled(v[..n], den))) + (v[n] / den) * (v[n] / den)
    ensures var n := |v| - 1;
      Sum(Squares(v)) == Sum(Squares(v[..n])) + v[n] * v[n]
  {
    var n := |v| - 1;
    var sv, s0 := Squares(Scaled(v, den)), Squares(v);
    assert sv[..n] == Squares(Scaled(v[..n], den)) by {
      forall i | 0 <= i < n ensures sv[..n][i] == Squares(Scaled(v[..n], den))[i] {
        assert Scaled(v, den)[i] == v[i] / den == Scaled(v[..n], den)[i];
      }
    }
    assert s0[..n] == Squares(v[..n]) by {
      forall i | 0 <= i < n ensures s0[..n][i] == Squares(v[..n])[i] {
        assert v[..n][i] == v[i];
      }
    }
    assert sv[n] == (v[n] / den) * (v[n] / den);
  }

  lemma SquareStep(p: real, y: real, den: real, x: real)
    requires den != 0.0 && y == x / den
    ensures (p + y * y) * (den * den) == p * (den * den) + x * x
  {
    assert y * den == x;
    assert (y * y) * (den * den) == (y * den) * (y * den);
  }

  /** With a square root that is exact on non-negative reals, `L2norm` leaves a
      vector whose squared length is below 1. */
  lemma L2NormBelowOne(v: seq<real>, sqrt: real -> real)
    requires forall x :: x >= 0.0 ==> sqrt(x) >= 0.0 && sqrt(x) * sqrt(x) == x
    ensures Sum(Squares(L2Normalized(v, sqrt))) < 1.0
  {
    var s := Sum(Squares(v));
    SquaresNonNegative(v);
    var den := sqrt(s + EPSILON);
    assert den * den == s + EPSILON;
    assert den != 0.0;
    SumSquaresScaled(v, den);
    RatioBelowOne(s, den * den, Sum(Squares(Scaled(v, den))));
  }

  lemma SquaresNonNegative(v: seq<real>)
    ensures Sum(Squares(v)) >= 0.0
  {
    var sq := Squares(v);
    forall i | 0 <= i < |sq| ensures sq[i] >= 0.0 {
      assert sq[i] == v[i] * v[i];
    }
    SumNonNegative(sq);
  }

  /** With an exact square root, every `L2hys` output has squared length below 1,
      and the clipped intermediate vector lies in [0, 0.2]. */
  lemma L2HysBounds(v: seq<real>, sqrt: real -> real)
    requires forall x :: x >= 0.0 ==> sqrt(x) >= 0.0 && sqrt(x) * sqrt(x) == x
    ensures Sum(Squares(L2HysNormalized(v, sqrt))) < 1.0
    ensures forall i :: 0 <= i < |v| ==> 0.0 <= Clipped(L2Normalized(v, sqrt))[i] <= 0.2
  {
    L2NormBelowOne(Clipped(L2Normalized(v, sqrt)), sqrt);
  }
}
