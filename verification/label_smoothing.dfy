/** The target distribution that `LabelSmoothing.forward` builds before
    handing it to the KL-divergence criterion (sl_transformer.py).

    `x` is the N × C matrix of log-probabilities; only its shape matters for
    the distribution.  Each row gets `confidence = 1 - smoothing` on its true
    class, `smoothing / (size - 2)` on every other class, nothing on the
    padding class, and nothing at all when its target is padding. */
module LabelSmoothing {
  import opened Wrappers
  import opened Tensors

  /** `LabelSmoothing(size, padding_idx, smoothing)`. */
  datatype Criterion = Criterion(size: int, paddingIdx: int, smoothing: real)
  {
    function Confidence(): real
    {
      1.0 - smoothing
    }
  }

  /** The ways `forward` fails before any distribution is built. */
  datatype SmoothingError =
    | ShapeMismatch      // the assertion x.size(1) == size fails
    | DivisionByZero     // smoothing / (size - 2) with size == 2
    | TargetOutOfRange   // scatter_ with a target outside [0, C)
    | PaddingOutOfRange  // true_dist[:, padding_idx] outside Python's [-C, C)

  /** `true_dist.fill_(v)` on an N × C tensor. */
  function Fill(rows: nat, classes: nat, v: real): (d: seq<seq<real>>)
    ensures IsMatrix(d, rows, classes)
    ensures forall n, k :: 0 <= n < rows && 0 <= k < classes ==> d[n][k] == v
  {
    seq(rows, _ => seq(classes, _ => v))
  }

  /** `true_dist.scatter_(1, target.unsqueeze(1), v)`: row n gets `v` in column target[n]. */
  function Scatter(d: seq<seq<real>>, classes: nat, target: seq<int>, v: real): (r: seq<seq<real>>)
    requires IsMatrix(d, |d|, classes) && |target| == |d|
    requires forall n :: 0 <= n < |target| ==> 0 <= target[n] < classes
    ensures IsMatrix(r, |d|, classes)
    ensures forall n, k :: 0 <= n < |d| && 0 <= k < classes ==>
              r[n][k] == (if k == target[n] then v else d[n][k])
  {
    seq(|d|, n requires 0 <= n < |d| => d[n][target[n] := v])
  }

  /** `true_dist[:, col] = 0`. */
  function ZeroColumn(d: seq<seq<real>>, classes: nat, col: nat): (r: seq<seq<real>>)
    requires IsMatrix(d, |d|, classes) && col < classes
    ensures IsMatrix(r, |d|, classes)
    ensures forall n, k :: 0 <= n < |d| && 0 <= k < classes ==>
              r[n][k] == (if k == col then 0.0 else d[n][k])
  {
    seq(|d|, n requires 0 <= n < |d| => d[n][col := 0.0])
  }

  /** `true_dist.index_fill_(0, nonzero(target == pad), 0.0)`: zero every row whose target is `pad`. */
  function ZeroRows(d: seq<seq<real>>, classes: nat, target: seq<int>, pad: int): (r: seq<seq<real>>)
    requires IsMatrix(d, |d|, classes) && |target| == |d|
    ensures IsMatrix(r, |d|, classes)
    ensures forall n, k :: 0 <= n < |d| && 0 <= k < classes ==>
              r[n][k] == (if target[n] == pad then 0.0 else d[n][k])
  {
    seq(|d|, n requires 0 <= n < |d| => if target[n] == pad then seq(classes, _ => 0.0) else d[n])
  }

  /** The column a Python index `i` denotes in a dimension of `classes` entries. */
  function PythonIndex(i: int, classes: nat): int
  {
    if i < 0 then i + classes else i
  }

  /** Every target is a valid class index. */
  predicate TargetsInRange(target: seq<int>, classes: nat)
  {
    forall n :: 0 <= n < |target| ==> 0 <= target[n] < classes
  }

  /** `i` is a valid Python index into a dimension of `classes` entries. */
  predicate IndexInRange(i: int, classes: nat)
  {
    -(classes as int) <= i < classes
  }

  /** What a cell of the finished distribution holds. */
  function Expected(c: Criterion, classes: nat, t: int, k: nat): real
    requires c.size != 2
  {
    if t == c.paddingIdx || k == PythonIndex(c.paddingIdx, classes) then 0.0
    else if k == t then c.Confidence()
    else c.smoothing / (c.size - 2) as real
  }

  /** `LabelSmoothing.forward(x, target)` up to (not including) the KL divergence:
      the target distribution `true_dist`, or the error raised on the way. */
  function TrueDist(c: Criterion, x: seq<seq<real>>, classes: nat, target: seq<int>): (r: Result<seq<seq<real>>, SmoothingError>)
    requires IsMatrix(x, |x|, classes) && |target| == |x|
    ensures classes != c.size ==> r == Err(ShapeMismatch)
    ensures classes == c.size == 2 ==> r == Err(DivisionByZero)
    ensures classes == c.size != 2 && !TargetsInRange(target, classes) ==> r == Err(TargetOutOfRange)
    ensures classes == c.size != 2 && TargetsInRange(target, classes) && !IndexInRange(c.paddingIdx, classes)
            ==> r == Err(PaddingOutOfRange)
    ensures r.Ok? <==> (classes == c.size != 2 && TargetsInRange(target, classes)
                        && IndexInRange(c.paddingIdx, classes))
    ensures r.Ok? ==> IsMatrix(r.value, |x|, classes)
    ensures r.Ok? ==> forall n, k :: 0 <= n < |x| && 0 <= k < classes ==>
                        r.value[n][k] == Expected(c, classes, target[n], k)
  {
    if classes != c.size then Err(ShapeMismatch)
    else if c.size == 2 then Err(DivisionByZero)
    else if !TargetsInRange(target, classes) then Err(TargetOutOfRange)
    else if !IndexInRange(c.paddingIdx, classes) then Err(PaddingOutOfRange)
    else
      var filled := Fill(|x|, classes, c.smoothing / (c.size - 2) as real);
      var scattered := Scatter(filled, classes, target, c.Confidence());
      var noPadColumn := ZeroColumn(scattered, classes, PythonIndex(c.paddingIdx, classes));
      Ok(ZeroRows(noPadColumn, classes, target, c.paddingIdx))
  }

  /** With the default `smoothing=0.0` the distribution is one-hot: 1 at a
      row's target, 0 everywhere else, and nothing for a padding target or in
      the padding column. */
  lemma DefaultSmoothingIsOneHot(size: int, paddingIdx: int, x: seq<seq<real>>, classes: nat, target: seq<int>)
    requires IsMatrix(x, |x|, classes) && |target| == |x|
    requires TrueDist(Criterion(size, paddingIdx, 0.0), x, classes, target).Ok?
    ensures var d := TrueDist(Criterion(size, paddingIdx, 0.0), x, classes, target).value;
            forall n, k :: 0 <= n < |x| && 0 <= k < classes ==>
              d[n][k] == (if target[n] != paddingIdx && k == target[n] && k != PythonIndex(paddingIdx, classes)
                          then 1.0 else 0.0)
  {
    var c := Criterion(size, paddingIdx, 0.0);
    assert c.Confidence() == 1.0;
    assert 0.0 / (size - 2) as real == 0.0;
  }

  /** Sum of a row of reals. */
  function SumReal(s: seq<real>): real
  {
    if |s| == 0 then 0.0 else SumReal(s[..|s| - 1]) + s[|s| - 1]
  }

  /** A row that is zero everywhere sums to zero. */
  lemma {:induction false} SumRealZero(s: seq<real>)
    requires forall k :: 0 <= k < |s| ==> s[k] == 0.0
    ensures SumReal(s) == 0.0
  {
    if |s| > 0 {
      SumRealZero(s[..|s| - 1]);
    }
  }

  /** How many of the first m positions are neither p nor t. */
  function Ordinary(m: nat, p: nat, t: nat): int
  {
    m - (if p < m then 1 else 0) - (if t < m then 1 else 0)
  }

  /** c copies of v added up, one at a time. */
  function Times(c: int, v: real): real
  {
    if c <= 0 then 0.0 else Times(c - 1, v) + v
  }

  /** Adding up c copies of v is multiplying v by c. */
  lemma {:induction false} TimesIsProduct(c: nat, v: real)
    ensures Times(c, v) == c as real * v
  {
    if c > 0 {
      TimesIsProduct(c - 1, v);
      assert (c - 1) as real * v + v == c as real * v;
    }
  }

  /** Partial sums of a row holding 0 at `p`, `a` at `t` and `v` elsewhere. */
  lemma {:induction false} SumTwoSpecial(s: seq<real>, p: nat, t: nat, a: real, v: real, m: nat)
    requires p < |s| && t < |s| && p != t && m <= |s|
    requires forall k :: 0 <= k < |s| ==> s[k] == (if k == p then 0.0 else if k == t then a else v)
    ensures SumReal(s[..m]) == (if t < m then a else 0.0) + Times(Ordinary(m, p, t), v)
  {
    if m > 0 {
      SumTwoSpecial(s, p, t, a, v, m - 1);
      assert s[..m][..m - 1] == s[..m - 1];
      assert SumReal(s[..m]) == SumReal(s[..m - 1]) + s[m - 1];
      if m - 1 != p && m - 1 != t {
        assert Ordinary(m, p, t) == Ordinary(m - 1, p, t) + 1;
      } else {
        assert Ordinary(m, p, t) == Ordinary(m - 1, p, t);
      }
    }
  }

  /** A whole row holding 0 at `p`, `a` at `t` and `v` at the |s| - 2 other places. */
  lemma SumTwoSpecialWhole(s: seq<real>, p: nat, t: nat, a: real, v: real)
    requires p < |s| && t < |s| && p != t
    requires forall k :: 0 <= k < |s| ==> s[k] == (if k == p then 0.0 else if k == t then a else v)
    ensures SumReal(s) == a + (|s| - 2) as real * v
  {
    SumTwoSpecial(s, p, t, a, v, |s|);
    assert s[..|s|] == s;
    assert Ordinary(|s|, p, t) == |s| - 2;
    TimesIsProduct(|s| - 2, v);
    assert SumReal(s) == a + Times(|s| - 2, v);
  }

  /** The smoothing mass spread over the size - 2 ordinary classes adds up to `smoothing`. */
  lemma SpreadMassAddsUp(size: int, smoothing: real, v: real)
    requires size != 2 && v == smoothing / (size - 2) as real
    ensures (1.0 - smoothing) + (size - 2) as real * v == 1.0
  {
  }

  /** For a non-padding target and a padding index given as a plain column,
      the row is a probability distribution: it sums to 1. */
  lemma RowSumsToOne(c: Criterion, x: seq<seq<real>>, classes: nat, target: seq<int>, n: nat)
    requires IsMatrix(x, |x|, classes) && |target| == |x|
    requires TrueDist(c, x, classes, target).Ok?
    requires 0 <= c.paddingIdx && n < |x| && target[n] != c.paddingIdx
    ensures SumReal(TrueDist(c, x, classes, target).value[n]) == 1.0
  {
    var row := TrueDist(c, x, classes, target).value[n];
    var v := c.smoothing / (c.size - 2) as real;
    RowLayout(c, x, classes, target, n);
    SumTwoSpecialWhole(row, c.paddingIdx, target[n], c.Confidence(), v);
    SpreadMassAddsUp(c.size, c.smoothing, v);
  }

  /** A non-padding row holds 0 in the padding column, the confidence at its
      target and the spread value everywhere else. */
  lemma RowLayout(c: Criterion, x: seq<seq<real>>, classes: nat, target: seq<int>, n: nat)
    requires IsMatrix(x, |x|, classes) && |target| == |x|
    requires TrueDist(c, x, classes, target).Ok?
    requires 0 <= c.paddingIdx && n < |x| && target[n] != c.paddingIdx
    ensures var row := TrueDist(c, x, classes, target).value[n];
            && |row| == classes && c.size == classes && c.size != 2
            && c.paddingIdx < classes && 0 <= target[n] < classes
            && forall k :: 0 <= k < |row| ==>
                 row[k] == (if k == c.paddingIdx then 0.0
                            else if k == target[n] then c.Confidence()
                            else c.smoothing / (c.size - 2) as real)
  {
    var row := TrueDist(c, x, classes, target).value[n];
    assert forall k :: 0 <= k < classes ==> row[k] == Expected(c, classes, target[n], k);
  }

  /** A row whose target is padding carries no mass at all, and the padding
      class never carries mass in any row. */
  lemma PaddingCarriesNoMass(c: Criterion, x: seq<seq<real>>, classes: nat, target: seq<int>)
    requires IsMatrix(x, |x|, classes) && |target| == |x|
    requires TrueDist(c, x, classes, target).Ok?
    ensures var d := TrueDist(c, x, classes, target).value;
            forall n :: 0 <= n < |x| ==> d[n][PythonIndex(c.paddingIdx, classes)] == 0.0
    ensures var d := TrueDist(c, x, classes, target).value;
            forall n :: 0 <= n < |x| && target[n] == c.paddingIdx ==> SumReal(d[n]) == 0.0
  {
    var d := TrueDist(c, x, classes, target).value;
    forall n | 0 <= n < |x| && target[n] == c.paddingIdx
      ensures SumReal(d[n]) == 0.0
    {
      SumRealZero(d[n]);
    }
  }
}
