/** Attention-mask and padding helpers of the model package (model/util/util.py).

    Tensors here are time-major: `data` has one row per time step and one
    column per sequence of the batch.  Boolean masks follow the convention of
    the attention library they are handed to: true means "may NOT attend"
    (causal mask) or "ignore this key" (padding mask).  The vocabulary lookup
    `get_pad_idx` is done by the caller; every helper takes the padding id. */
module Util {
  import opened Tensors

  /** A float cell of the additive attention mask: a finite value or -inf. */
  datatype MaskFloat = Finite(x: real) | NegInf

  /** `torch.triu(torch.ones(n, n)) == 1`: true on and above the diagonal. */
  function TriuOnes(n: nat): (u: seq<seq<bool>>)
    ensures IsMatrix(u, n, n)
    ensures forall i, j :: 0 <= i < n && 0 <= j < n ==> (u[i][j] <==> i <= j)
  {
    seq(n, i => seq(n, j => i <= j))
  }

  /** `m.masked_fill(mask == when, v)`: overwrite with `v` every cell whose mask entry is `when`. */
  function MaskedFill(m: seq<seq<MaskFloat>>, mask: seq<seq<bool>>, when: bool, v: MaskFloat): (r: seq<seq<MaskFloat>>)
    requires |mask| == |m|
    requires forall i :: 0 <= i < |m| ==> |mask[i]| == |m[i]|
    ensures |r| == |m|
    ensures forall i :: 0 <= i < |m| ==> |r[i]| == |m[i]|
    ensures forall i, j :: 0 <= i < |m| && 0 <= j < |m[i]| ==>
              r[i][j] == (if mask[i][j] == when then v else m[i][j])
  {
    seq(|m|, i requires 0 <= i < |m| =>
      seq(|m[i]|, j requires 0 <= j < |m[i]| => if mask[i][j] == when then v else m[i][j]))
  }

  /** `generate_square_subsequent_mask(n)`: the lower triangle (diagonal included)
      holds 0.0 and the strict upper triangle holds -inf. */
  function SquareSubsequentMask(n: nat): (f: seq<seq<MaskFloat>>)
    ensures IsMatrix(f, n, n)
    ensures forall i, j :: 0 <= i < n && 0 <= j < n ==>
              f[i][j] == (if j <= i then Finite(0.0) else NegInf)
  {
    var lower := Transpose(TriuOnes(n), n);
    var asFloat := seq(n, i requires 0 <= i < n =>
                     seq(n, j requires 0 <= j < n => if lower[i][j] then Finite(1.0) else Finite(0.0)));
    var withInf := MaskedFill(asFloat, lower, false, NegInf);
    MaskedFill(withInf, lower, true, Finite(0.0))
  }

  /** `generate_mask(data)`: an n × n boolean mask for n = data.size(0) in which
      query position i may not attend key position j exactly when j lies after i. */
  function GenerateMask(data: seq<seq<int>>): (r: seq<seq<bool>>)
    ensures IsMatrix(r, |data|, |data|)
    ensures forall i, j :: 0 <= i < |data| && 0 <= j < |data| ==> (r[i][j] <==> j > i)
  {
    var n := |data|;
    var f := SquareSubsequentMask(n);
    seq(n, i requires 0 <= i < n => seq(n, j requires 0 <= j < n => f[i][j] != Finite(0.0)))
  }

  /** A row of a strict upper-triangular mask: position j is set exactly when j > i. */
  lemma {:induction false} StrictRowCount(row: seq<bool>, i: nat, k: nat)
    requires i < |row| && k <= |row|
    requires forall j :: 0 <= j < |row| ==> (row[j] <==> j > i)
    ensures CountTrue(row[..k]) == if k > i then k - i - 1 else 0
  {
    if k > 0 {
      StrictRowCount(row, i, k - 1);
      assert row[..k][..k - 1] == row[..k - 1];
    }
  }

  /** (n-1) + (n-2) + ... + (n-k): the set cells in the first k rows of an
      n-wide strict upper triangle. */
  function StrictCells(n: nat, k: nat): nat
    requires k <= n
  {
    if k == 0 then 0 else StrictCells(n, k - 1) + (n - k)
  }

  /** The first k rows of an n-wide strict upper-triangular mask hold
      (n-1) + (n-2) + ... + (n-k) set cells. */
  lemma {:induction false} StrictUpperCount(m: seq<seq<bool>>, n: nat, k: nat)
    requires k <= n
    requires IsMatrix(m, k, n)
    requires forall i, j :: 0 <= i < k && 0 <= j < n ==> (m[i][j] <==> j > i)
    ensures CountTrueAll(m) == StrictCells(n, k)
  {
    if k > 0 {
      assert forall i :: 0 <= i < k - 1 ==> m[..k - 1][i] == m[i];
      StrictUpperCount(m[..k - 1], n, k - 1);
      StrictRowCount(m[k - 1], k - 1, n);
      assert m[k - 1][..n] == m[k - 1];
    }
  }

  /** The closed form of the strict triangle: 2 * ((n-1) + ... + (n-k)) = k(2n-k-1). */
  lemma {:induction false} StrictCellsClosedForm(n: nat, k: nat)
    requires k <= n
    ensures 2 * StrictCells(n, k) == k * (2 * n - k - 1)
  {
    if k > 0 {
      StrictCellsClosedForm(n, k - 1);
      TriangleStep(n, k);
    }
  }

  /** One more row of the triangle: (k-1)(2n-k) + 2(n-k) = k(2n-k-1). */
  lemma TriangleStep(n: nat, k: nat)
    requires 1 <= k <= n
    ensures (k - 1) * (2 * n - (k - 1) - 1) + 2 * (n - k) == k * (2 * n - k - 1)
  {
    calc {
      (k - 1) * (2 * n - (k - 1) - 1) + 2 * (n - k);
      (k - 1) * (2 * n - k) + 2 * n - 2 * k;
      k * (2 * n - k) - (2 * n - k) + 2 * n - 2 * k;
      k * (2 * n - k) - k;
      k * (2 * n - k - 1);
    }
  }

  /** The causal mask never forbids a position from attending to itself, and
      it forbids exactly the n(n-1)/2 strictly upper-triangular pairs. */
  lemma CausalMaskCount(data: seq<seq<int>>)
    ensures forall i :: 0 <= i < |data| ==> !GenerateMask(data)[i][i]
    ensures CountTrueAll(GenerateMask(data)) == |data| * (|data| - 1) / 2
  {
    var n := |data|;
    StrictUpperCount(GenerateMask(data), n, n);
    StrictCellsClosedForm(n, n);
  }

  /** `generate_padding_mask(data, vocab)`: the transposed `data == pad` matrix,
      batch-major, true where the key is padding. */
  function GeneratePaddingMask(data: seq<seq<int>>, batch: nat, pad: int): (r: seq<seq<bool>>)
    requires IsMatrix(data, |data|, batch)
    ensures IsMatrix(r, batch, |data|)
    ensures forall b, t :: 0 <= b < batch && 0 <= t < |data| ==> (r[b][t] <==> data[t][b] == pad)
  {
    Transpose(Equal(data, pad), batch)
  }

  /** `generate_seq_lengths(data, vocab)`: per sequence (column of `data`),
      the number of time steps holding a non-padding token. */
  function GenerateSeqLengths(data: seq<seq<int>>, batch: nat, pad: int): (r: seq<nat>)
    requires IsMatrix(data, |data|, batch)
    ensures |r| == batch
    ensures forall b :: 0 <= b < batch ==> r[b] + multiset(Column(data, b))[pad] == |data|
  {
    var notPad := Transpose(NotEqual(data, pad), batch);
    SeqLengthsAreNonPadCounts(data, batch, pad, notPad);
    seq(batch, b requires 0 <= b < batch => CountTrue(notPad[b]))
  }

  lemma SeqLengthsAreNonPadCounts(data: seq<seq<int>>, batch: nat, pad: int, notPad: seq<seq<bool>>)
    requires IsMatrix(data, |data|, batch)
    requires notPad == Transpose(NotEqual(data, pad), batch)
    ensures forall b :: 0 <= b < batch ==>
              notPad[b] == RowNotEqual(Column(data, b), pad) &&
              CountTrue(notPad[b]) + multiset(Column(data, b))[pad] == |data|
  {
    forall b | 0 <= b < batch
      ensures notPad[b] == RowNotEqual(Column(data, b), pad)
      ensures CountTrue(notPad[b]) + multiset(Column(data, b))[pad] == |data|
    {
      assert notPad[b] == RowNotEqual(Column(data, b), pad);
      CountNotEqual(Column(data, b), pad);
    }
  }

  /** A sequence length counts the time steps t with data[t][b] != pad; it is
      at most T, and with the padding-mask row of the same sequence it adds up to T. */
  lemma SeqLengthsComplementPadding(data: seq<seq<int>>, batch: nat, pad: int)
    requires IsMatrix(data, |data|, batch)
    ensures forall b :: 0 <= b < batch ==>
              GenerateSeqLengths(data, batch, pad)[b]
                == |set t: nat | t < |data| && data[t][b] != pad|
    ensures forall b :: 0 <= b < batch ==> GenerateSeqLengths(data, batch, pad)[b] <= |data|
    ensures forall b :: 0 <= b < batch ==>
              GenerateSeqLengths(data, batch, pad)[b]
                + CountTrue(GeneratePaddingMask(data, batch, pad)[b]) == |data|
  {
    var lengths := GenerateSeqLengths(data, batch, pad);
    var mask := GeneratePaddingMask(data, batch, pad);
    forall b | 0 <= b < batch
      ensures lengths[b] == |set t: nat | t < |data| && data[t][b] != pad|
      ensures lengths[b] + CountTrue(mask[b]) == |data|
    {
      var column := Column(data, b);
      CountNotEqual(column, pad);
      assert mask[b] == RowEqual(column, pad);
      CountTrueIsCardinality(RowNotEqual(column, pad));
      assert TrueIndices(RowNotEqual(column, pad)) == set t: nat | t < |data| && data[t][b] != pad;
      assert lengths[b] == |data| - multiset(column)[pad];
    }
  }

  /** `pad_len` rows of `cols` padding ids. */
  function PadRows(count: nat, cols: nat, pad: int): (p: seq<seq<int>>)
    ensures IsMatrix(p, count, cols)
    ensures forall i, j :: 0 <= i < count && 0 <= j < cols ==> p[i][j] == pad
  {
    seq(count, _ => seq(cols, _ => pad))
  }

  /** `pad_to_shape(data, shape, vocab, pad_first)` with `targetRows = shape[0]`:
      a |data| × cols tensor shorter than the target gains rows of padding
      (in front with `padFirst`, behind otherwise); any other tensor is
      returned unchanged. */
  function PadToShape(data: seq<seq<int>>, cols: nat, targetRows: int, pad: int, padFirst: bool): (r: seq<seq<int>>)
    requires IsMatrix(data, |data|, cols)
    ensures IsMatrix(r, |r|, cols)
    ensures |data| < targetRows ==> |r| == targetRows
    ensures |data| >= targetRows ==> r == data
    ensures padFirst ==> |data| <= |r| && r[|r| - |data|..] == data
    ensures padFirst ==> forall i, j :: 0 <= i < |r| - |data| && 0 <= j < cols ==> r[i][j] == pad
    ensures !padFirst ==> |data| <= |r| && r[..|data|] == data
    ensures !padFirst ==> forall i, j :: |data| <= i < |r| && 0 <= j < cols ==> r[i][j] == pad
  {
    var padLen := targetRows - |data|;
    if padLen > 0 then
      var rows := PadRows(padLen, cols, pad);
      if padFirst then rows + data else data + rows
    else
      data
  }

  /** Padding an already padded tensor to the same shape changes nothing. */
  lemma PadToShapeIdempotent(data: seq<seq<int>>, cols: nat, targetRows: int, pad: int, padFirst: bool)
    requires IsMatrix(data, |data|, cols)
    ensures PadToShape(PadToShape(data, cols, targetRows, pad, padFirst), cols, targetRows, pad, padFirst)
            == PadToShape(data, cols, targetRows, pad, padFirst)
  {
  }
}
