/** Sequences of histogram values: sums and concatenation of equal-length parts. */
module Histogram {

  /** Left-to-right sum, the order std::accumulate visits a vector in. */
  function Sum(v: seq<real>): real
  {
    if v == [] then 0.0 else Sum(v[..|v| - 1]) + v[|v| - 1]
  }

  /** The histogram a freshly constructed `THist(n)` holds: n zeros. */
  function Zeros(n: nat): (z: seq<real>)
    ensures |z| == n
    ensures forall k :: 0 <= k < n ==> z[k] == 0.0
  {
    seq(n, _ => 0.0)
  }

  /** Adding m to one entry adds m to the total. */
  lemma {:induction false} SumUpdate(v: seq<real>, k: nat, m: real)
    requires k < |v|
    ensures Sum(v[k := v[k] + m]) == Sum(v) + m
  {
    var w := v[k := v[k] + m];
    if k == |v| - 1 {
      assert w[..|w| - 1] == v[..|v| - 1];
    } else {
      assert w[..|w| - 1] == v[..|v| - 1][k := v[k] + m];
      SumUpdate(v[..|v| - 1], k, m);
    }
  }

  /** A vector of zeros sums to zero. */
  lemma {:induction false} SumZeros(v: seq<real>)
    requires forall k :: 0 <= k < |v| ==> v[k] == 0.0
    ensures Sum(v) == 0.0
  {
    if v != [] {
      SumZeros(v[..|v| - 1]);
    }
  }

  /** The parts laid end to end, first part first. */
  function Concat(parts: seq<seq<real>>): seq<real>
  {
    if parts == [] then [] else Concat(parts[..|parts| - 1]) + parts[|parts| - 1]
  }

  /** Appending one more part to a prefix appends it to the concatenation. */
  lemma ConcatPrefixStep(parts: seq<seq<real>>, n: nat)
    requires n < |parts|
    ensures Concat(parts[..n + 1]) == Concat(parts[..n]) + parts[n]
  {
    assert parts[..n + 1][..n] == parts[..n];
  }

  ghost predicate PartsOfLength(parts: seq<seq<real>>, len: nat)
  {
    forall k :: 0 <= k < |parts| ==> |parts[k]| == len
  }

  /** Where part k begins when every part holds `len` values. */
  function Offset(k: nat, len: nat): nat
  {
    k * len
  }

  /** Where part (`row`, `col`) of a row-major layout begins, each row holding `width`
      parts of `size` values. */
  function RowMajorOffset(width: nat, size: nat, row: nat, col: nat): nat
  {
    (row * width + col) * size
  }

  /** Parts of equal length `len`: the concatenation has `|parts| * len` entries and
      part k occupies the `len` positions from k * len. */
  lemma {:induction false} ConcatSegment(parts: seq<seq<real>>, len: nat, k: nat)
    requires PartsOfLength(parts, len)
    requires k < |parts|
    ensures |Concat(parts)| == |parts| * len
    ensures Offset(k, len) + len <= |Concat(parts)|
    ensures Concat(parts)[Offset(k, len) .. Offset(k, len) + len] == parts[k]
  {
    var n := |parts| - 1;
    var init := parts[..n];
    assert PartsOfLength(init, len);
    ConcatLength(init, len);
    MulSucc(n, len);
    if k < n {
      ConcatSegment(init, len, k);
      MulSucc(k, len);
      MulLe(k + 1, n, len);
      var lo := Offset(k, len);
      assert Concat(parts)[lo .. lo + len] == Concat(init)[lo .. lo + len];
    }
  }

  lemma {:induction false} ConcatLength(parts: seq<seq<real>>, len: nat)
    requires PartsOfLength(parts, len)
    ensures |Concat(parts)| == |parts| * len
  {
    if parts != [] {
      var n := |parts| - 1;
      assert PartsOfLength(parts[..n], len);
      ConcatLength(parts[..n], len);
      MulSucc(n, len);
    }
  }

  lemma MulSucc(k: nat, len: nat)
    ensures (k + 1) * len == k * len + len
  {
  }

  lemma MulLe(a: nat, b: nat, c: nat)
    requires a <= b
    ensures a * c <= b * c
  {
  }
}
