/** Batch construction and masking for the encoder-decoder training loop
    (`rebatch`, `Batch`, `Batch.make_std_mask` in sl_transformer.py).

    Here a mask value of true means "may attend".  Tensors are batch-major:
    one row per sequence.  The singleton dimension added by `unsqueeze(-2)`
    is dropped: the source mask is B × S and the target mask B × L × L. */
module Batching {
  import opened Wrappers
  import opened Tensors
  import Util

  /** `subsequent_mask(n)` of the model package, which is not part of this
      model.  It is ASSUMED to allow query position i to attend key position
      j exactly when j <= i (lower triangle, diagonal included). */
  function SubsequentMask(n: nat): (r: seq<seq<bool>>)
    ensures IsMatrix(r, n, n)
    ensures forall i, j :: 0 <= i < n && 0 <= j < n ==> (r[i][j] <==> j <= i)
  {
    seq(n, i => seq(n, j => j <= i))
  }

  /** Under that assumption the allowed positions are exactly those the
      model package's `generate_mask` does not forbid. */
  lemma SubsequentMaskComplementsGenerateMask(data: seq<seq<int>>)
    ensures forall i, j :: 0 <= i < |data| && 0 <= j < |data| ==>
              (SubsequentMask(|data|)[i][j] <==> !Util.GenerateMask(data)[i][j])
  {
  }

  /** `(src != pad).unsqueeze(-2)`: true at every non-padding position. */
  function SrcMask(src: seq<seq<int>>, pad: int): (r: seq<seq<bool>>)
    ensures |r| == |src|
    ensures forall b :: 0 <= b < |src| ==> |r[b]| == |src[b]|
    ensures forall b, j :: 0 <= b < |src| && 0 <= j < |src[b]| ==> (r[b][j] <==> src[b][j] != pad)
  {
    NotEqual(src, pad)
  }

  /** Each source-mask row allows as many keys as the sequence has
      non-padding tokens, the length `generate_seq_lengths` reports for the
      same batch laid out time-major. */
  lemma SrcMaskCountsSeqLength(src: seq<seq<int>>, len: nat, pad: int)
    requires IsMatrix(src, |src|, len)
    ensures forall b :: 0 <= b < |src| ==>
              CountTrue(SrcMask(src, pad)[b])
                == Util.GenerateSeqLengths(Transpose(src, len), |src|, pad)[b]
  {
    var timeMajor := Transpose(src, len);
    TransposeInvolutive(src, len);
    forall b | 0 <= b < |src|
      ensures CountTrue(SrcMask(src, pad)[b]) == Util.GenerateSeqLengths(timeMajor, |src|, pad)[b]
    {
      assert Column(timeMajor, b) == src[b];
      CountNotEqual(src[b], pad);
    }
  }

  /** `Batch.make_std_mask(tgt, pad)`: the key-padding mask (B × 1 × L)
      broadcast against the causal mask (1 × L × L). */
  function MakeStdMask(tgt: seq<seq<int>>, len: nat, pad: int): (r: seq<seq<seq<bool>>>)
    requires IsMatrix(tgt, |tgt|, len)
    ensures |r| == |tgt|
    ensures forall b :: 0 <= b < |tgt| ==> |r[b]| == len
    ensures forall b, i :: 0 <= b < |tgt| && 0 <= i < len ==> |r[b][i]| == len
    ensures forall b, i, j :: 0 <= b < |tgt| && 0 <= i < len && 0 <= j < len ==>
              (r[b][i][j] <==> tgt[b][j] != pad && j <= i)
  {
    var keys := SrcMask(tgt, pad);
    var causal := SubsequentMask(len);
    seq(|tgt|, b requires 0 <= b < |tgt| =>
      seq(len, i requires 0 <= i < len =>
        seq(len, j requires 0 <= j < len => keys[b][j] && causal[i][j])))
  }

  /** The "allowed" target mask is the complement of what the model package's
      two "forbidden" masks flag: query i of sequence b may attend key j iff
      `generate_mask` does not forbid (i, j) and `generate_padding_mask` does
      not flag key j. */
  lemma StdMaskComplementsUtilMasks(tgt: seq<seq<int>>, len: nat, pad: int)
    requires IsMatrix(tgt, |tgt|, len)
    ensures forall b, i, j :: 0 <= b < |tgt| && 0 <= i < len && 0 <= j < len ==>
              (MakeStdMask(tgt, len, pad)[b][i][j] <==>
                 (!Util.GenerateMask(Transpose(tgt, len))[i][j]
                  && !Util.GeneratePaddingMask(Transpose(tgt, len), |tgt|, pad)[b][j]))
  {
  }

  /** Query i of sequence b attends to exactly the non-padding keys among the
      first i + 1 target positions. */
  lemma StdMaskRowCount(tgt: seq<seq<int>>, len: nat, pad: int, b: nat, i: nat)
    requires IsMatrix(tgt, |tgt|, len)
    requires b < |tgt| && i < len
    ensures CountTrue(MakeStdMask(tgt, len, pad)[b][i]) + CountTrue(RowEqual(tgt[b][..i + 1], pad)) == i + 1
  {
    var row := MakeStdMask(tgt, len, pad)[b][i];
    PrefixMaskCount(row, tgt[b], pad, i, len);
    assert row[..len] == row;
    CountNotEqual(tgt[b][..i + 1], pad);
  }

  lemma {:induction false} PrefixMaskCount(row: seq<bool>, keys: seq<int>, pad: int, i: nat, k: nat)
    requires |row| == |keys| && i < |row| && k <= |row|
    requires forall j :: 0 <= j < |row| ==> (row[j] <==> keys[j] != pad && j <= i)
    ensures CountTrue(row[..k]) == CountTrue(RowNotEqual(keys[..if k <= i then k else i + 1], pad))
  {
    if k > 0 {
      PrefixMaskCount(row, keys, pad, i, k - 1);
      assert row[..k][..k - 1] == row[..k - 1];
      if k <= i + 1 {
        assert keys[..k][..k - 1] == keys[..k - 1];
        assert RowNotEqual(keys[..k], pad)[..k - 1] == RowNotEqual(keys[..k - 1], pad);
      }
    }
  }

  /** `x[:-1]` of a Python sequence: every element but the last (empty stays empty). */
  function DropLast(row: seq<int>): (r: seq<int>)
    ensures |row| > 0 ==> |r| == |row| - 1 && r == row[..|row| - 1]
    ensures |row| == 0 ==> r == []
  {
    if |row| == 0 then [] else row[..|row| - 1]
  }

  /** `x[1:]` of a Python sequence: every element but the first (empty stays empty). */
  function DropFirst(row: seq<int>): (r: seq<int>)
    ensures |row| > 0 ==> |r| == |row| - 1 && r == row[1..]
    ensures |row| == 0 ==> r == []
  {
    if |row| == 0 then [] else row[1..]
  }

  /** The decoder side of a batch: teacher-forcing input, shifted target,
      their mask and the number of target tokens that are not padding. */
  datatype Target = Target(trg: seq<seq<int>>, trgY: seq<seq<int>>, trgMask: seq<seq<seq<bool>>>, ntokens: nat)

  /** `Batch`: the (batch-major) source, its mask and, when a target was given, the decoder side. */
  datatype Batch = Batch(src: seq<seq<int>>, srcMask: seq<seq<bool>>, target: Option<Target>)

  /** Width of a target tensor after dropping one column (Python slicing never goes below 0). */
  function ShiftedLen(len: nat): nat
  {
    if len == 0 then 0 else len - 1
  }

  /** `trg[:, :-1]` of a B × len tensor: the decoder input. */
  function DropLastColumn(rows: seq<seq<int>>, len: nat): (r: seq<seq<int>>)
    requires IsMatrix(rows, |rows|, len)
    ensures IsMatrix(r, |rows|, ShiftedLen(len))
    ensures forall b, i :: 0 <= b < |rows| && 0 <= i < ShiftedLen(len) ==> r[b][i] == rows[b][i]
  {
    seq(|rows|, b requires 0 <= b < |rows| => DropLast(rows[b]))
  }

  /** `trg[:, 1:]` of a B × len tensor: the decoder target. */
  function DropFirstColumn(rows: seq<seq<int>>, len: nat): (r: seq<seq<int>>)
    requires IsMatrix(rows, |rows|, len)
    ensures IsMatrix(r, |rows|, ShiftedLen(len))
    ensures forall b, i :: 0 <= b < |rows| && 0 <= i < ShiftedLen(len) ==> r[b][i] == rows[b][i + 1]
  {
    seq(|rows|, b requires 0 <= b < |rows| => DropFirst(rows[b]))
  }

  /** `(trg_y != pad).data.sum()`: the number of target tokens that are not padding. */
  function NTokens(trgY: seq<seq<int>>, len: nat, pad: int): (n: nat)
    requires IsMatrix(trgY, |trgY|, len)
    ensures n + multiset(Flatten(trgY))[pad] == |Flatten(trgY)|
  {
    CountNotEqualAll(trgY, pad);
    CountTrueAll(NotEqual(trgY, pad))
  }

  /** The decoder side of `Batch(src, trg, pad)` for a B × len target tensor. */
  function MakeTarget(rows: seq<seq<int>>, len: nat, pad: int): (t: Target)
    requires IsMatrix(rows, |rows|, len)
    ensures IsMatrix(t.trg, |rows|, ShiftedLen(len))
    ensures IsMatrix(t.trgY, |rows|, ShiftedLen(len))
    ensures forall b, i :: 0 <= b < |rows| && 0 <= i < ShiftedLen(len) ==>
              t.trg[b][i] == rows[b][i] && t.trgY[b][i] == rows[b][i + 1]
    ensures |t.trgMask| == |rows|
    ensures forall b :: 0 <= b < |rows| ==> |t.trgMask[b]| == ShiftedLen(len)
    ensures forall b, i :: 0 <= b < |rows| && 0 <= i < ShiftedLen(len) ==> |t.trgMask[b][i]| == ShiftedLen(len)
    ensures forall b, i, j :: 0 <= b < |rows| && 0 <= i < ShiftedLen(len) && 0 <= j < ShiftedLen(len) ==>
              (t.trgMask[b][i][j] <==> rows[b][j] != pad && j <= i)
  {
    var shifted := ShiftedLen(len);
    var input := DropLastColumn(rows, len);
    var output := DropFirstColumn(rows, len);
    Target(input, output, MakeStdMask(input, shifted, pad), NTokens(output, shifted, pad))
  }

  /** `ntokens` and the padding cells of `trg_y` together fill the whole
      B × (T-1) tensor, so `ntokens` is at most B * (T-1). */
  lemma NTokensFillTarget(rows: seq<seq<int>>, len: nat, pad: int)
    requires IsMatrix(rows, |rows|, len)
    ensures var t := MakeTarget(rows, len, pad);
            t.ntokens + multiset(Flatten(t.trgY))[pad] == |Flatten(t.trgY)| == |rows| * ShiftedLen(len)
  {
    var t := MakeTarget(rows, len, pad);
    FlattenSize(t.trgY, |rows|, ShiftedLen(len));
  }

  /** `Batch(src, trg, pad)`; `trg` may be absent, and then so is the decoder
      side.  The source mask allows exactly the non-padding source tokens. */
  function MakeBatch(src: seq<seq<int>>, trg: Option<seq<seq<int>>>, len: nat, pad: int): (r: Batch)
    requires trg.Some? ==> IsMatrix(trg.value, |trg.value|, len)
    ensures r.src == src
    ensures |r.srcMask| == |src| && forall b :: 0 <= b < |src| ==> |r.srcMask[b]| == |src[b]|
    ensures forall b, j :: 0 <= b < |src| && 0 <= j < |src[b]| ==> (r.srcMask[b][j] <==> src[b][j] != pad)
    ensures r.target.Some? <==> trg.Some?
    ensures trg.Some? ==> r.target.value == MakeTarget(trg.value, len, pad)
  {
    match trg
    case None => Batch(src, SrcMask(src, pad), None)
    case Some(rows) => Batch(src, SrcMask(src, pad), Some(MakeTarget(rows, len, pad)))
  }

  /** The decoder side of a batch built with a target: input and output are
      the target rows one step apart, query i may attend exactly the
      non-padding target keys j <= i, and `ntokens` counts the output cells
      that are not padding. */
  lemma MakeBatchTarget(src: seq<seq<int>>, rows: seq<seq<int>>, len: nat, pad: int)
    requires IsMatrix(rows, |rows|, len)
    ensures MakeBatch(src, Some(rows), len, pad).target.Some?
    ensures var t := MakeBatch(src, Some(rows), len, pad).target.value;
            && IsMatrix(t.trg, |rows|, ShiftedLen(len))
            && IsMatrix(t.trgY, |rows|, ShiftedLen(len))
            && forall b, i :: 0 <= b < |rows| && 0 <= i < ShiftedLen(len) ==>
                 t.trg[b][i] == rows[b][i] && t.trgY[b][i] == rows[b][i + 1]
    ensures var t := MakeBatch(src, Some(rows), len, pad).target.value;
            && |t.trgMask| == |rows|
            && (forall b :: 0 <= b < |rows| ==> |t.trgMask[b]| == ShiftedLen(len))
            && (forall b, i :: 0 <= b < |rows| && 0 <= i < ShiftedLen(len) ==> |t.trgMask[b][i]| == ShiftedLen(len))
            && forall b, i, j :: 0 <= b < |rows| && 0 <= i < ShiftedLen(len) && 0 <= j < ShiftedLen(len) ==>
                 (t.trgMask[b][i][j] <==> rows[b][j] != pad && j <= i)
    ensures var t := MakeBatch(src, Some(rows), len, pad).target.value;
            t.ntokens + multiset(Flatten(t.trgY))[pad] == |rows| * ShiftedLen(len)
  {
    NTokensFillTarget(rows, len, pad);
  }

  /** Decoder input and decoder target are the same row seen one step apart:
      putting back the dropped last token, or the dropped first token, gives
      back the original target row. */
  lemma BatchShiftRoundTrip(trg: seq<seq<int>>, len: nat, pad: int)
    requires IsMatrix(trg, |trg|, len) && len > 0
    ensures var t := MakeTarget(trg, len, pad);
            forall b :: 0 <= b < |trg| ==>
              t.trg[b] + [trg[b][len - 1]] == trg[b] && [trg[b][0]] + t.trgY[b] == trg[b]
  {
    var t := MakeTarget(trg, len, pad);
    forall b | 0 <= b < |trg|
      ensures t.trg[b] + [trg[b][len - 1]] == trg[b] && [trg[b][0]] + t.trgY[b] == trg[b]
    {
      ShiftedRow(trg[b], t.trg[b], t.trgY[b]);
    }
  }

  /** A row is its decoder input plus its last token, and its first token
      plus its decoder output. */
  lemma ShiftedRow(row: seq<int>, input: seq<int>, output: seq<int>)
    requires |row| > 0 && |input| == |row| - 1 && |output| == |row| - 1
    requires forall i :: 0 <= i < |row| - 1 ==> input[i] == row[i] && output[i] == row[i + 1]
    ensures input + [row[|row| - 1]] == row && [row[0]] + output == row
  {
    assert input + [row[|row| - 1]] == row;
    assert [row[0]] + output == row;
  }

  /** A raw batch as the data iterator yields it: time-major `src` and `trg`
      tensors whose columns are the `size` sequences of the batch. */
  datatype RawBatch = RawBatch(src: seq<seq<int>>, trg: seq<seq<int>>, size: nat)

  predicate WellShaped(raw: RawBatch)
  {
    IsMatrix(raw.src, |raw.src|, raw.size) && IsMatrix(raw.trg, |raw.trg|, raw.size)
  }

  /** `rebatch(pad_idx, batch)`: transpose both tensors to batch-major and build the `Batch`. */
  function Rebatch(pad: int, raw: RawBatch): (r: Batch)
    requires WellShaped(raw)
    ensures IsMatrix(r.src, raw.size, |raw.src|)
    ensures forall b, t :: 0 <= b < raw.size && 0 <= t < |raw.src| ==> r.src[b][t] == raw.src[t][b]
    ensures r.target.Some?
    ensures var t := r.target.value;
            var len := ShiftedLen(|raw.trg|);
            IsMatrix(t.trg, raw.size, len) && IsMatrix(t.trgY, raw.size, len)
  {
    MakeBatch(Transpose(raw.src, raw.size), Some(Transpose(raw.trg, raw.size)), |raw.trg|, pad)
  }

  /** Sequence b of the rebatched target reads time steps 0 .. len-2 of
      column b of the time-major target as decoder input and steps 1 .. len-1
      as expected output. */
  lemma RebatchTarget(pad: int, raw: RawBatch)
    requires WellShaped(raw)
    ensures var t := Rebatch(pad, raw).target.value;
            forall b, i :: 0 <= b < raw.size && 0 <= i < ShiftedLen(|raw.trg|) ==>
              t.trg[b][i] == raw.trg[i][b] && t.trgY[b][i] == raw.trg[i + 1][b]
  {
  }
}
