/** Integer token tensors and boolean masks as nested sequences.

    A 2-D tensor of shape rows × cols is a `seq<seq<T>>` of `rows` rows, each
    of length `cols`.  Operations whose result shape depends on the column
    count even when there are no rows (a transpose of a 0 × B tensor is
    B × 0) take that count as an explicit parameter. */
module Tensors {

  /** `m` has `rows` rows of exactly `cols` entries each. */
  predicate IsMatrix<T>(m: seq<seq<T>>, rows: nat, cols: nat)
  {
    |m| == rows && forall i :: 0 <= i < |m| ==> |m[i]| == cols
  }

  /** `tensor.transpose(0, 1)` of a |m| × cols tensor. */
  function Transpose<T>(m: seq<seq<T>>, cols: nat): (t: seq<seq<T>>)
    requires IsMatrix(m, |m|, cols)
    ensures IsMatrix(t, cols, |m|)
    ensures forall i, j :: 0 <= i < cols && 0 <= j < |m| ==> t[i][j] == m[j][i]
  {
    seq(cols, i requires 0 <= i < cols => seq(|m|, j requires 0 <= j < |m| => m[j][i]))
  }

  /** Transposing twice gives back the original tensor, so `rebatch` loses nothing. */
  lemma TransposeInvolutive<T>(m: seq<seq<T>>, cols: nat)
    requires IsMatrix(m, |m|, cols)
    ensures Transpose(Transpose(m, cols), |m|) == m
  {
    var t := Transpose(Transpose(m, cols), |m|);
    assert |t| == |m|;
    forall i | 0 <= i < |m|
      ensures t[i] == m[i]
    {
      assert |t[i]| == |m[i]|;
    }
  }

  /** Column `c` of a matrix, top to bottom. */
  function Column<T>(m: seq<seq<T>>, c: nat): (col: seq<T>)
    requires forall i :: 0 <= i < |m| ==> c < |m[i]|
    ensures |col| == |m|
    ensures forall i :: 0 <= i < |m| ==> col[i] == m[i][c]
  {
    seq(|m|, i requires 0 <= i < |m| => m[i][c])
  }

  /** Elementwise `s != v` of a token vector. */
  function RowNotEqual(s: seq<int>, v: int): (r: seq<bool>)
    ensures |r| == |s|
    ensures forall i :: 0 <= i < |s| ==> (r[i] <==> s[i] != v)
  {
    seq(|s|, i requires 0 <= i < |s| => s[i] != v)
  }

  /** Elementwise `s == v` of a token vector. */
  function RowEqual(s: seq<int>, v: int): (r: seq<bool>)
    ensures |r| == |s|
    ensures forall i :: 0 <= i < |s| ==> (r[i] <==> s[i] == v)
  {
    seq(|s|, i requires 0 <= i < |s| => s[i] == v)
  }

  /** Elementwise `m != v` of a token tensor. */
  function NotEqual(m: seq<seq<int>>, v: int): (r: seq<seq<bool>>)
    ensures |r| == |m|
    ensures forall i :: 0 <= i < |m| ==> r[i] == RowNotEqual(m[i], v)
  {
    seq(|m|, i requires 0 <= i < |m| => RowNotEqual(m[i], v))
  }

  /** Elementwise `m == v` of a token tensor. */
  function Equal(m: seq<seq<int>>, v: int): (r: seq<seq<bool>>)
    ensures |r| == |m|
    ensures forall i :: 0 <= i < |m| ==> r[i] == RowEqual(m[i], v)
  {
    seq(|m|, i requires 0 <= i < |m| => RowEqual(m[i], v))
  }

  /** `.sum()` of a boolean vector: the number of true entries. */
  function CountTrue(s: seq<bool>): (n: nat)
    ensures n <= |s|
  {
    if |s| == 0 then 0 else CountTrue(s[..|s| - 1]) + (if s[|s| - 1] then 1 else 0)
  }

  /** The positions holding true. */
  function TrueIndices(s: seq<bool>): set<nat>
  {
    set i: nat | i < |s| && s[i]
  }

  /** `CountTrue` is the number of positions holding true. */
  lemma {:induction false} CountTrueIsCardinality(s: seq<bool>)
    ensures CountTrue(s) == |TrueIndices(s)|
  {
    if |s| > 0 {
      var n := |s| - 1;
      CountTrueIsCardinality(s[..n]);
      var before := TrueIndices(s[..n]);
      assert n !in before;
      if s[n] {
        assert TrueIndices(s) == before + {n};
      } else {
        assert TrueIndices(s) == before;
      }
    }
  }

  /** The entries different from `v` and the entries equal to `v` make up the whole vector. */
  lemma {:induction false} CountNotEqual(s: seq<int>, v: int)
    ensures CountTrue(RowNotEqual(s, v)) + multiset(s)[v] == |s|
    ensures CountTrue(RowEqual(s, v)) == multiset(s)[v]
  {
    if |s| > 0 {
      var n := |s| - 1;
      CountNotEqual(s[..n], v);
      assert RowNotEqual(s, v)[..n] == RowNotEqual(s[..n], v);
      assert RowEqual(s, v)[..n] == RowEqual(s[..n], v);
      assert s == s[..n] + [s[n]];
      assert multiset(s) == multiset(s[..n]) + multiset{s[n]};
    }
  }

  /** Every entry is true exactly when all of them are counted. */
  lemma {:induction false} CountTrueFull(s: seq<bool>)
    ensures CountTrue(s) == |s| <==> forall i :: 0 <= i < |s| ==> s[i]
  {
    if |s| > 0 {
      var n := |s| - 1;
      CountTrueFull(s[..n]);
      assert forall i :: 0 <= i < n ==> s[..n][i] == s[i];
    }
  }

  /** `.sum()` of a whole boolean matrix: the number of true cells. */
  function CountTrueAll(m: seq<seq<bool>>): (n: nat)
    ensures n <= |Flatten(m)|
  {
    if |m| == 0 then 0 else CountTrueAll(m[..|m| - 1]) + CountTrue(m[|m| - 1])
  }

  /** The cells of a matrix in row-major order. */
  function Flatten<T>(m: seq<seq<T>>): (f: seq<T>)
  {
    if |m| == 0 then [] else Flatten(m[..|m| - 1]) + m[|m| - 1]
  }

  /** A rows × cols matrix has rows * cols cells. */
  lemma {:induction false} FlattenSize<T>(m: seq<seq<T>>, rows: nat, cols: nat)
    requires IsMatrix(m, rows, cols)
    ensures |Flatten(m)| == rows * cols
  {
    if rows > 0 {
      FlattenSize(m[..rows - 1], rows - 1, cols);
    }
  }

  /** Counting the cells different from `v` row by row is counting them in the
      flattened tensor. */
  lemma {:induction false} CountNotEqualAll(m: seq<seq<int>>, v: int)
    ensures CountTrueAll(NotEqual(m, v)) + multiset(Flatten(m))[v] == |Flatten(m)|
  {
    if |m| > 0 {
      var n := |m| - 1;
      CountNotEqualAll(m[..n], v);
      assert NotEqual(m, v)[..n] == NotEqual(m[..n], v);
      CountNotEqual(m[n], v);
    }
  }
}
