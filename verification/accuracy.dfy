/** Exact-match accuracy of greedy decoding over a validation set
    (`calculate_accuracy`, with its helpers `get_mask` and `matches`, in
    sl_transformer.py).

    Begin and end markers are removed from decoded and reference rows before
    comparing them; padding is not removed, and neither is anything a row
    produced after its own end marker while the rest of the batch was still
    decoding. */
module Accuracy {
  import opened Tensors
  import Batching
  import GreedyDecoding

  /** `torch.ones_like(tensor).fill_(True)`. */
  function AllTrue(t: seq<seq<int>>): (m: seq<seq<bool>>)
    ensures |m| == |t|
    ensures forall i :: 0 <= i < |t| ==> |m[i]| == |t[i]|
    ensures forall i, j :: 0 <= i < |t| && 0 <= j < |t[i]| ==> m[i][j]
  {
    seq(|t|, i requires 0 <= i < |t| => seq(|t[i]|, _ => true))
  }

  /** `mask & other` of two boolean tensors of the same shape. */
  function And(m: seq<seq<bool>>, other: seq<seq<bool>>): (r: seq<seq<bool>>)
    requires |other| == |m| && forall i :: 0 <= i < |m| ==> |other[i]| == |m[i]|
    ensures |r| == |m|
    ensures forall i :: 0 <= i < |m| ==> |r[i]| == |m[i]|
    ensures forall i, j :: 0 <= i < |m| && 0 <= j < |m[i]| ==> (r[i][j] <==> m[i][j] && other[i][j])
  {
    seq(|m|, i requires 0 <= i < |m| =>
      seq(|m[i]|, j requires 0 <= j < |m[i]| => m[i][j] && other[i][j]))
  }

  /** `get_mask(tensor, to_ignore)`: start all true and, for each symbol in
      turn, clear the cells holding it. */
  function GetMask(t: seq<seq<int>>, toIgnore: seq<int>): (m: seq<seq<bool>>)
    ensures |m| == |t|
    ensures forall i :: 0 <= i < |t| ==> |m[i]| == |t[i]|
    ensures forall i, j :: 0 <= i < |t| && 0 <= j < |t[i]| ==> (m[i][j] <==> t[i][j] !in toIgnore)
  {
    if |toIgnore| == 0 then AllTrue(t)
    else
      var symbol := toIgnore[|toIgnore| - 1];
      var m := GetMask(t, toIgnore[..|toIgnore| - 1]);
      assert forall x :: x in toIgnore <==> x in toIgnore[..|toIgnore| - 1] || x == symbol;
      And(m, NotEqual(t, symbol))
  }

  /** `row[mask]`: the entries whose mask is true, in order. */
  function MaskedSelect(row: seq<int>, mask: seq<bool>): (r: seq<int>)
    requires |mask| == |row|
    ensures |r| == CountTrue(mask)
  {
    if |row| == 0 then []
    else
      var n := |row| - 1;
      MaskedSelect(row[..n], mask[..n]) + (if mask[n] then [row[n]] else [])
  }

  /** Reference definition: `[x for x in row if x not in to_ignore]`. */
  function Filter(row: seq<int>, toIgnore: seq<int>): (r: seq<int>)
    ensures |r| <= |row|
  {
    if |row| == 0 then []
    else (if row[0] in toIgnore then [] else [row[0]]) + Filter(row[1..], toIgnore)
  }

  /** Filtering keeps every occurrence of a token not in `to_ignore` (padding
      included) and drops every occurrence of a token in it. */
  lemma {:induction false} FilterContents(row: seq<int>, toIgnore: seq<int>)
    ensures forall x :: x !in toIgnore ==> multiset(Filter(row, toIgnore))[x] == multiset(row)[x]
    ensures forall x :: x in toIgnore ==> multiset(Filter(row, toIgnore))[x] == 0
    ensures forall x :: x in Filter(row, toIgnore) <==> x in row && x !in toIgnore
  {
    if |row| > 0 {
      FilterContents(row[1..], toIgnore);
      assert row == [row[0]] + row[1..];
      assert multiset(row) == multiset{row[0]} + multiset(row[1..]);
    }
  }

  /** Filtering distributes over concatenation. */
  lemma {:induction false} FilterAppend(a: seq<int>, b: seq<int>, toIgnore: seq<int>)
    ensures Filter(a + b, toIgnore) == Filter(a, toIgnore) + Filter(b, toIgnore)
  {
    if |a| > 0 {
      var head := if a[0] in toIgnore then [] else [a[0]];
      assert (a + b)[0] == a[0];
      assert (a + b)[1..] == a[1..] + b;
      FilterAppend(a[1..], b, toIgnore);
      calc {
        Filter(a + b, toIgnore);
        head + Filter(a[1..] + b, toIgnore);
        head + (Filter(a[1..], toIgnore) + Filter(b, toIgnore));
        (head + Filter(a[1..], toIgnore)) + Filter(b, toIgnore);
        Filter(a, toIgnore) + Filter(b, toIgnore);
      }
    } else {
      assert a + b == b;
    }
  }

  /** Selecting with `get_mask` keeps exactly the tokens not in `to_ignore`,
      in their original order. */
  lemma {:induction false} MaskedSelectFilters(row: seq<int>, mask: seq<bool>, toIgnore: seq<int>)
    requires |mask| == |row|
    requires forall j :: 0 <= j < |row| ==> (mask[j] <==> row[j] !in toIgnore)
    ensures MaskedSelect(row, mask) == Filter(row, toIgnore)
  {
    if |row| > 0 {
      var n := |row| - 1;
      MaskedSelectFilters(row[..n], mask[..n], toIgnore);
      assert row == row[..n] + [row[n]];
      FilterAppend(row[..n], [row[n]], toIgnore);
    }
  }

  /** `matches(out, tgt)`: same length and equal at every position. */
  function Matches(out: seq<int>, tgt: seq<int>): (r: bool)
    ensures r <==> out == tgt
  {
    |out| == |tgt| && forall i :: 0 <= i < |out| ==> out[i] == tgt[i]
  }

  /** The per-row verdicts of one batch: `zip` stops at the shorter of the
      decoded and reference tensors. */
  function CorrectItems(out: seq<seq<int>>, tgt: seq<seq<int>>, toIgnore: seq<int>): (items: seq<bool>)
    ensures |items| == (if |out| <= |tgt| then |out| else |tgt|)
    ensures forall i :: 0 <= i < |items| ==>
              (items[i] <==> Filter(out[i], toIgnore) == Filter(tgt[i], toIgnore))
  {
    var outMask := GetMask(out, toIgnore);
    var tgtMask := GetMask(tgt, toIgnore);
    var n := if |out| <= |tgt| then |out| else |tgt|;
    SelectionsFilter(out, outMask, toIgnore);
    SelectionsFilter(tgt, tgtMask, toIgnore);
    seq(n, i requires 0 <= i < n =>
      Matches(MaskedSelect(out[i], outMask[i]), MaskedSelect(tgt[i], tgtMask[i])))
  }

  lemma SelectionsFilter(t: seq<seq<int>>, mask: seq<seq<bool>>, toIgnore: seq<int>)
    requires mask == GetMask(t, toIgnore)
    ensures forall i :: 0 <= i < |t| ==> MaskedSelect(t[i], mask[i]) == Filter(t[i], toIgnore)
  {
    forall i | 0 <= i < |t|
      ensures MaskedSelect(t[i], mask[i]) == Filter(t[i], toIgnore)
    {
      MaskedSelectFilters(t[i], mask[i], toIgnore);
    }
  }

  /** An end marker does not end the comparison: whatever a row holds after
      its end marker is compared too. */
  lemma TokensAfterEndAreCompared(row: seq<int>, rest: seq<int>, bos: int, eos: int)
    ensures Filter(row + [eos] + rest, [bos, eos]) == Filter(row, [bos, eos]) + Filter(rest, [bos, eos])
  {
    var toIgnore := [bos, eos];
    FilterAppend(row + [eos], rest, toIgnore);
    FilterAppend(row, [eos], toIgnore);
    assert Filter([eos], toIgnore) == [] by {
      assert [eos][1..] == [];
    }
    assert Filter(row, toIgnore) + [] == Filter(row, toIgnore);
  }

  /** Padding is not ignored: a decoded row and a reference row that hold a
      different number of padding tokens never match. */
  lemma PaddingMustMatch(out: seq<int>, tgt: seq<int>, pad: int, bos: int, eos: int)
    requires pad != bos && pad != eos
    requires multiset(out)[pad] != multiset(tgt)[pad]
    ensures Filter(out, [bos, eos]) != Filter(tgt, [bos, eos])
  {
    FilterContents(out, [bos, eos]);
    FilterContents(tgt, [bos, eos]);
  }

  /** The trained model as the decoder sees it: source batch, source mask,
      tokens so far, sequence index -> next token. */
  type SourceModel = (seq<seq<int>>, seq<seq<bool>>, seq<seq<int>>, nat) -> int

  /** The `max_len` that `calculate_accuracy` passes to `greedy_decode`. */
  const MaxDecodeLen: int := 60

  /** Decode one validation batch: transpose the source to batch-major, mask
      its padding and run greedy decoding from `<bos>` to `<eos>`.  Every row
      starts with `<bos>`, at least one and at most `MaxDecodeLen - 1` tokens
      follow, and decoding stops early only after a column of `<eos>`. */
  function DecodeBatch(model: SourceModel, raw: Batching.RawBatch, srcPad: int, bos: int, eos: int)
    : (out: GreedyDecoding.Decoded)
    requires Batching.WellShaped(raw)
    ensures out.Valid() && |out.ys| == raw.size
    ensures 2 <= out.width <= MaxDecodeLen
    ensures forall b :: 0 <= b < raw.size ==> out.ys[b][0] == bos
    ensures out.width < MaxDecodeLen ==> GreedyDecoding.AllEnd(Column(out.ys, out.width - 1), eos)
    ensures forall k :: 1 <= k < out.width - 1 ==> !GreedyDecoding.AllEnd(Column(out.ys, k), eos)
  {
    var src := Transpose(raw.src, raw.size);
    var srcMask := Batching.SrcMask(src, srcPad);
    GreedyDecoding.GreedyDecode((ys: seq<seq<int>>, b: nat) => model(src, srcMask, ys, b), |src|, MaxDecodeLen, bos, eos)
  }

  /** Token k >= 1 of row b is what the model predicts for row b from the
      batch-major source, its padding mask and the first k decoded columns. */
  lemma DecodeBatchPredicts(model: SourceModel, raw: Batching.RawBatch, srcPad: int, bos: int, eos: int)
    requires Batching.WellShaped(raw)
    ensures var out := DecodeBatch(model, raw, srcPad, bos, eos);
            var src := Transpose(raw.src, raw.size);
            forall k, b :: 1 <= k < out.width && 0 <= b < raw.size ==>
              out.ys[b][k] == model(src, Batching.SrcMask(src, srcPad), GreedyDecoding.Prefix(out.ys, k), b)
  {
    var out := DecodeBatch(model, raw, srcPad, bos, eos);
    var src := Transpose(raw.src, raw.size);
    var srcMask := Batching.SrcMask(src, srcPad);
    var next := (ys: seq<seq<int>>, b: nat) => model(src, srcMask, ys, b);
    assert out == GreedyDecoding.GreedyDecode(next, |src|, MaxDecodeLen, bos, eos);
    forall k, b | 1 <= k < out.width && 0 <= b < raw.size
      ensures out.ys[b][k] == model(src, srcMask, GreedyDecoding.Prefix(out.ys, k), b)
    {
      assert GreedyDecoding.NextColumn(next, GreedyDecoding.Prefix(out.ys, k)) == Column(out.ys, k);
      assert Column(out.ys, k)[b] == out.ys[b][k];
    }
  }

  /** Correct rows and total rows of one batch. */
  function ScoreBatch(model: SourceModel, raw: Batching.RawBatch, srcPad: int, bos: int, eos: int): (score: (nat, nat))
    requires Batching.WellShaped(raw)
    ensures score.0 <= score.1 == raw.size
  {
    var out := DecodeBatch(model, raw, srcPad, bos, eos);
    var tgt := Transpose(raw.trg, raw.size);
    (CountTrue(CorrectItems(out.ys, tgt, [bos, eos])), raw.size)
  }

  /** The score of every batch, in order. */
  function BatchScores(model: SourceModel, batches: seq<Batching.RawBatch>, srcPad: int, bos: int, eos: int)
    : (scores: seq<(nat, nat)>)
    requires forall i :: 0 <= i < |batches| ==> Batching.WellShaped(batches[i])
    ensures |scores| == |batches|
    ensures forall i :: 0 <= i < |batches| ==> scores[i] == ScoreBatch(model, batches[i], srcPad, bos, eos)
    ensures Bounded(scores)
  {
    seq(|batches|, i requires 0 <= i < |batches| => ScoreBatch(model, batches[i], srcPad, bos, eos))
  }

  /** No batch has more correct rows than rows. */
  predicate Bounded(scores: seq<(nat, nat)>)
  {
    forall i :: 0 <= i < |scores| ==> scores[i].0 <= scores[i].1
  }

  /** Correct rows and total rows summed over the batch scores. */
  function Tally(scores: seq<(nat, nat)>): (score: (nat, nat))
    requires Bounded(scores)
    ensures score.0 <= score.1
  {
    if |scores| == 0 then (0, 0)
    else
      var n := |scores| - 1;
      var before := Tally(scores[..n]);
      (before.0 + scores[n].0, before.1 + scores[n].1)
  }

  /** The tally of one more batch adds that batch's score. */
  lemma TallyStep(scores: seq<(nat, nat)>, i: nat)
    requires Bounded(scores) && i < |scores|
    ensures Tally(scores[..i + 1]) == (Tally(scores[..i]).0 + scores[i].0, Tally(scores[..i]).1 + scores[i].1)
  {
    assert scores[..i + 1][..i] == scores[..i];
  }

  /** The tally is perfect exactly when every batch is. */
  lemma {:induction false} PerfectTally(scores: seq<(nat, nat)>)
    requires Bounded(scores)
    ensures Tally(scores).0 == Tally(scores).1 <==> forall i :: 0 <= i < |scores| ==> scores[i].0 == scores[i].1
  {
    if |scores| > 0 {
      var n := |scores| - 1;
      PerfectTally(scores[..n]);
      assert forall i :: 0 <= i < n ==> scores[..n][i] == scores[i];
    }
  }

  /** A batch scores full marks exactly when every decoded row, stripped of
      its markers, equals its reference row. */
  lemma PerfectBatch(model: SourceModel, raw: Batching.RawBatch, srcPad: int, bos: int, eos: int)
    requires Batching.WellShaped(raw)
    ensures var score := ScoreBatch(model, raw, srcPad, bos, eos);
            var out := DecodeBatch(model, raw, srcPad, bos, eos).ys;
            var tgt := Transpose(raw.trg, raw.size);
            score.0 == score.1 <==>
              forall b :: 0 <= b < raw.size ==> Filter(out[b], [bos, eos]) == Filter(tgt[b], [bos, eos])
  {
    var out := DecodeBatch(model, raw, srcPad, bos, eos).ys;
    var tgt := Transpose(raw.trg, raw.size);
    CountTrueFull(CorrectItems(out, tgt, [bos, eos]));
  }

  /** `correct / total`, or 0 when there are no rows. */
  function Ratio(correct: nat, total: nat): (r: real)
    ensures total > 0 ==> r * total as real == correct as real
    ensures total == 0 ==> r == 0.0
  {
    if total > 0 then correct as real / total as real else 0.0
  }

  /** With no more correct rows than rows, the ratio is a fraction in [0, 1]. */
  lemma RatioInUnit(correct: nat, total: nat)
    requires correct <= total
    ensures 0.0 <= Ratio(correct, total) <= 1.0
    ensures total > 0 && correct == total ==> Ratio(correct, total) == 1.0
    ensures correct == 0 ==> Ratio(correct, total) == 0.0
  {
    if total > 0 {
      assert correct as real <= total as real;
    }
  }

  /** `calculate_accuracy(model, test_iter, SRC, TGT)`: score every batch,
      add the scores up and divide. */
  method CalculateAccuracy(model: SourceModel, batches: seq<Batching.RawBatch>, srcPad: int, bos: int, eos: int)
    returns (accuracy: real)
    requires forall i :: 0 <= i < |batches| ==> Batching.WellShaped(batches[i])
    ensures 0.0 <= accuracy <= 1.0
    ensures var score := Tally(BatchScores(model, batches, srcPad, bos, eos));
            accuracy == Ratio(score.0, score.1)
    ensures Tally(BatchScores(model, batches, srcPad, bos, eos)).1 == 0 ==> accuracy == 0.0
  {
    var scores := BatchScores(model, batches, srcPad, bos, eos);
    var correct, total := TallyLoop(scores);
    accuracy := if total > 0 then correct as real / total as real else 0.0;
    RatioInUnit(correct, total);
  }

  /** The loop over batches accumulating `correct` and `total`. */
  method TallyLoop(scores: seq<(nat, nat)>) returns (correct: nat, total: nat)
    requires Bounded(scores)
    ensures (correct, total) == Tally(scores)
  {
    correct, total := 0, 0;
    var i := 0;
    while i < |scores|
      invariant 0 <= i <= |scores|
      invariant correct == Tally(scores[..i]).0
      invariant total == Tally(scores[..i]).1
    {
      TallyStep(scores, i);
      correct := correct + scores[i].0;
      total := total + scores[i].1;
      i := i + 1;
    }
    assert scores[..i] == scores;
  }
}
