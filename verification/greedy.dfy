/** Batch-synchronous greedy decoding (`greedy_decode` in sl_transformer.py).

    The encoder, the decoder with its causal mask, the generator and the
    arg-max are one abstract function: given the tokens produced so far
    (one row per sequence, all of the same width) it names the next token of
    sequence b.  The source batch and its mask are fixed for the whole
    decode, so they live inside that function. */
module GreedyDecoding {
  import opened Tensors

  /** `torch.max(generator(decode(memory, src_mask, ys, subsequent_mask(...))[:, -1]), dim=1)`
      for sequence b. */
  type NextToken = (seq<seq<int>>, nat) -> int

  /** The token matrix `ys` together with its width, which a batch of zero
      sequences does not reveal on its own. */
  datatype Decoded = Decoded(ys: seq<seq<int>>, width: nat)
  {
    predicate Valid()
    {
      IsMatrix(ys, |ys|, width)
    }
  }

  /** `torch.ones(B, 1).fill_(start_symbol)`. */
  function StartColumn(rows: nat, start: int): (d: Decoded)
    ensures d.Valid() && |d.ys| == rows && d.width == 1
    ensures forall b :: 0 <= b < rows ==> d.ys[b] == [start]
  {
    Decoded(seq(rows, _ => [start]), 1)
  }

  /** The next token of every sequence, computed from the current matrix. */
  function NextColumn(next: NextToken, ys: seq<seq<int>>): (col: seq<int>)
    ensures |col| == |ys|
    ensures forall b :: 0 <= b < |ys| ==> col[b] == next(ys, b)
  {
    seq(|ys|, b requires 0 <= b < |ys| => next(ys, b))
  }

  /** `torch.cat([ys, col.unsqueeze(-1)], dim=1)`. */
  function AppendColumn(d: Decoded, col: seq<int>): (r: Decoded)
    requires d.Valid() && |col| == |d.ys|
    ensures r.Valid() && |r.ys| == |d.ys| && r.width == d.width + 1
    ensures forall b :: 0 <= b < |d.ys| ==> r.ys[b] == d.ys[b] + [col[b]]
  {
    Decoded(seq(|d.ys|, b requires 0 <= b < |d.ys| => d.ys[b] + [col[b]]), d.width + 1)
  }

  /** `all(col == end_symbol)`; true of an empty batch, as Python's `all` is. */
  predicate AllEnd(col: seq<int>, end: int)
  {
    forall b :: 0 <= b < |col| ==> col[b] == end
  }

  /** The first `w` tokens of every row. */
  function Prefix(ys: seq<seq<int>>, w: nat): (p: seq<seq<int>>)
    requires forall b :: 0 <= b < |ys| ==> w <= |ys[b]|
    ensures |p| == |ys|
    ensures forall b :: 0 <= b < |ys| ==> p[b] == ys[b][..w]
  {
    seq(|ys|, b requires 0 <= b < |ys| => ys[b][..w])
  }

  /** `e` is a possible outcome of running at most `steps` more decoding steps from `d`:
      it extends every row of `d`, each new token is what the model predicts
      from the columns before it, no new column but the last is all
      `end`, and it stops short of `steps` new columns only right after an
      all-`end` column. */
  predicate Continues(next: NextToken, d: Decoded, steps: int, end: int, e: Decoded)
    requires d.Valid()
  {
    ContinuesShape(d, steps, e) && ContinuesColumns(next, d, steps, end, e)
  }

  /** `e` extends every row of `d` by at most `steps` columns. */
  predicate ContinuesShape(d: Decoded, steps: int, e: Decoded)
    requires d.Valid()
  {
    && e.Valid() && |e.ys| == |d.ys|
    && d.width <= e.width <= d.width + (if steps < 0 then 0 else steps)
    && (forall b :: 0 <= b < |d.ys| ==> e.ys[b][..d.width] == d.ys[b])
  }

  /** Every new column of `e` is the predicted one, only the last may be all
      `end`, and `e` stops early only right after an all-`end` column. */
  predicate ContinuesColumns(next: NextToken, d: Decoded, steps: int, end: int, e: Decoded)
    requires d.Valid() && ContinuesShape(d, steps, e)
  {
    && (forall k :: d.width <= k < e.width ==> NextColumn(next, Prefix(e.ys, k)) == Column(e.ys, k))
    && (forall k :: d.width <= k < e.width - 1 ==> !AllEnd(Column(e.ys, k), end))
    && (e.width < d.width + steps ==> d.width < e.width && AllEnd(Column(e.ys, e.width - 1), end))
  }

  /** The loop of `greedy_decode` from matrix `d` with `steps` iterations of
      `range(max_len - 1)` left: predict a column, append it, stop once the
      whole column is `end_symbol`. */
  function DecodeSteps(next: NextToken, d: Decoded, steps: int, end: int): (r: Decoded)
    requires d.Valid()
    ensures r.Valid() && |r.ys| == |d.ys|
    ensures steps <= 0 ==> r == d
    ensures steps > 0 ==> d.width < r.width <= d.width + steps
    decreases steps
  {
    if steps <= 0 then d
    else
      var col := NextColumn(next, d.ys);
      var d' := AppendColumn(d, col);
      if AllEnd(col, end) then d' else DecodeSteps(next, d', steps - 1, end)
  }

  /** The loop's outcome is a continuation: it meets everything `Continues` demands. */
  lemma {:induction false} DecodeStepsContinues(next: NextToken, d: Decoded, steps: int, end: int)
    requires d.Valid()
    ensures Continues(next, d, steps, end, DecodeSteps(next, d, steps, end))
    decreases steps
  {
    if steps <= 0 {
      ContinuesStop(next, d, steps, end);
    } else {
      var col := NextColumn(next, d.ys);
      var d' := AppendColumn(d, col);
      if AllEnd(col, end) {
        ContinuesLast(next, d, steps, end);
      } else {
        DecodeStepsContinues(next, d', steps - 1, end);
        ContinuesStep(next, d, d', steps, end, DecodeSteps(next, d', steps - 1, end));
      }
    }
  }

  /** With no steps left, the matrix itself is the only continuation. */
  lemma ContinuesStop(next: NextToken, d: Decoded, steps: int, end: int)
    requires d.Valid() && steps <= 0
    ensures Continues(next, d, steps, end, d)
  {
    assert forall b :: 0 <= b < |d.ys| ==> d.ys[b][..d.width] == d.ys[b];
  }

  /** Appending a predicted column that is all `end` gives a continuation. */
  lemma ContinuesLast(next: NextToken, d: Decoded, steps: int, end: int)
    requires d.Valid() && steps > 0
    requires AllEnd(NextColumn(next, d.ys), end)
    ensures Continues(next, d, steps, end, AppendColumn(d, NextColumn(next, d.ys)))
  {
    var col := NextColumn(next, d.ys);
    var d' := AppendColumn(d, col);
    assert Prefix(d'.ys, d.width) == d.ys;
    assert Column(d'.ys, d.width) == col;
    assert forall b :: 0 <= b < |d.ys| ==> d'.ys[b][..d.width] == d.ys[b];
  }

  /** One appended column followed by a continuation of `steps - 1` steps is a
      continuation of `steps` steps. */
  lemma ContinuesStep(next: NextToken, d: Decoded, d': Decoded, steps: int, end: int, r: Decoded)
    requires d.Valid() && steps > 0
    requires d' == AppendColumn(d, NextColumn(next, d.ys))
    requires !AllEnd(NextColumn(next, d.ys), end)
    requires Continues(next, d', steps - 1, end, r)
    ensures Continues(next, d, steps, end, r)
  {
    var col := NextColumn(next, d.ys);
    forall b | 0 <= b < |d.ys|
      ensures r.ys[b][..d.width] == d.ys[b]
      ensures r.ys[b][d.width] == col[b]
    {
      assert r.ys[b][..d'.width] == d.ys[b] + [col[b]];
      assert r.ys[b][..d.width] == r.ys[b][..d'.width][..d.width];
    }
    assert Prefix(r.ys, d.width) == d.ys;
    assert Column(r.ys, d.width) == col;
  }

  /** `greedy_decode(model, src, src_mask, max_len, start_symbol, end_symbol)`
      for a batch of `rows` sequences. */
  function GreedyDecode(next: NextToken, rows: nat, maxLen: int, start: int, end: int): (r: Decoded)
    ensures r.Valid() && |r.ys| == rows && r.width >= 1
    ensures forall b :: 0 <= b < rows ==> r.ys[b][0] == start
    ensures maxLen <= 1 ==> r.width == 1
    ensures maxLen >= 2 ==> 2 <= r.width <= maxLen
    ensures r.width < maxLen ==> AllEnd(Column(r.ys, r.width - 1), end)
    ensures forall k :: 1 <= k < r.width - 1 ==> !AllEnd(Column(r.ys, k), end)
    ensures forall k :: 1 <= k < r.width ==> NextColumn(next, Prefix(r.ys, k)) == Column(r.ys, k)
  {
    var init := StartColumn(rows, start);
    var r := DecodeSteps(next, init, maxLen - 1, end);
    DecodeStepsContinues(next, init, maxLen - 1, end);
    assert forall b :: 0 <= b < rows ==> r.ys[b][0] == r.ys[b][..1][0];
    r
  }

  /** Everything `Continues` demands pins the outcome down: the decoding
      loop is the only matrix that meets it. */
  lemma {:induction false} ContinuesUnique(next: NextToken, d: Decoded, steps: int, end: int, e: Decoded)
    requires d.Valid()
    requires Continues(next, d, steps, end, e)
    ensures e == DecodeSteps(next, d, steps, end)
    decreases steps
  {
    if steps <= 0 {
      ContinuesNoSteps(next, d, steps, end, e);
    } else {
      var d' := AppendColumn(d, NextColumn(next, d.ys));
      DecodeStepsUnfold(next, d, steps, end);
      ContinuesFirstColumn(next, d, steps, end, e);
      if AllEnd(NextColumn(next, d.ys), end) {
        SameRowsAndWidth(d', e);
      } else {
        ContinuesUnique(next, d', steps - 1, end, e);
      }
    }
  }

  /** With no steps left, a continuation adds nothing. */
  lemma ContinuesNoSteps(next: NextToken, d: Decoded, steps: int, end: int, e: Decoded)
    requires d.Valid() && steps <= 0
    requires Continues(next, d, steps, end, e)
    ensures e == d
  {
    SameRowsAndWidth(d, e);
  }

  /** Two matrices of the same width whose rows agree on that width are equal. */
  lemma SameRowsAndWidth(d: Decoded, e: Decoded)
    requires d.Valid() && e.Valid() && |e.ys| == |d.ys| && e.width == d.width
    requires forall b :: 0 <= b < |d.ys| ==> e.ys[b][..d.width] == d.ys[b]
    ensures e == d
  {
    forall b | 0 <= b < |d.ys|
      ensures e.ys[b] == d.ys[b]
    {
      assert e.ys[b] == e.ys[b][..d.width];
    }
  }

  /** The first new column of a continuation is the predicted one, and after
      it the continuation is one of the matrix with that column appended:
      either it stops right there, or it continues for one step fewer. */
  lemma ContinuesFirstColumn(next: NextToken, d: Decoded, steps: int, end: int, e: Decoded)
    requires d.Valid() && steps > 0
    requires Continues(next, d, steps, end, e)
    ensures var d' := AppendColumn(d, NextColumn(next, d.ys));
            && e.width >= d'.width
            && (forall b :: 0 <= b < |d.ys| ==> e.ys[b][..d'.width] == d'.ys[b])
            && (AllEnd(NextColumn(next, d.ys), end) ==> e.width == d'.width)
            && (!AllEnd(NextColumn(next, d.ys), end) ==> Continues(next, d', steps - 1, end, e))
  {
    var col := NextColumn(next, d.ys);
    var d' := AppendColumn(d, col);
    assert Prefix(e.ys, d.width) == d.ys;
    assert Column(e.ys, d.width) == col;
    forall b | 0 <= b < |d.ys|
      ensures e.ys[b][..d'.width] == d'.ys[b]
    {
      assert e.ys[b][..d'.width] == e.ys[b][..d.width] + [e.ys[b][d.width]];
    }
  }

  /** A matrix that starts every row with `start_symbol` and meets what
      `greedy_decode` promises (model-predicted columns, width bound,
      batch-wide stop) is exactly the output of `greedy_decode`. */
  lemma GreedyOutputUnique(next: NextToken, rows: nat, maxLen: int, start: int, end: int, e: Decoded)
    requires e.Valid() && |e.ys| == rows && e.width >= 1
    requires forall b :: 0 <= b < rows ==> e.ys[b][0] == start
    requires e.width <= (if maxLen <= 1 then 1 else maxLen)
    requires e.width < maxLen ==> 1 < e.width && AllEnd(Column(e.ys, e.width - 1), end)
    requires forall k :: 1 <= k < e.width - 1 ==> !AllEnd(Column(e.ys, k), end)
    requires forall k :: 1 <= k < e.width ==> NextColumn(next, Prefix(e.ys, k)) == Column(e.ys, k)
    ensures e == GreedyDecode(next, rows, maxLen, start, end)
  {
    var init := StartColumn(rows, start);
    forall b | 0 <= b < rows
      ensures e.ys[b][..1] == init.ys[b]
    {
    }
    ContinuesUnique(next, init, maxLen - 1, end, e);
  }

  /** When every sequence predicts `end_symbol` at the first step, decoding
      stops at width 2 (start symbol, end symbol); an empty batch stops there
      too, since `all` of nothing holds. */
  lemma ImmediateEndStopsAtTwo(next: NextToken, rows: nat, maxLen: int, start: int, end: int)
    requires maxLen >= 2
    requires rows == 0 || forall b :: 0 <= b < rows ==> next(StartColumn(rows, start).ys, b) == end
    ensures GreedyDecode(next, rows, maxLen, start, end).width == 2
  {
  }

  /** One iteration of the decoding loop, unfolded. */
  lemma DecodeStepsUnfold(next: NextToken, d: Decoded, steps: int, end: int)
    requires d.Valid()
    ensures steps <= 0 ==> DecodeSteps(next, d, steps, end) == d
    ensures steps > 0 ==>
              var col := NextColumn(next, d.ys);
              DecodeSteps(next, d, steps, end)
                == if AllEnd(col, end) then AppendColumn(d, col)
                   else DecodeSteps(next, AppendColumn(d, col), steps - 1, end)
  {
  }

  /** The `for i in range(max_len - 1)` loop with its `break`, step by step. */
  method GreedyDecodeLoop(next: NextToken, rows: nat, maxLen: int, start: int, end: int)
    returns (ys: seq<seq<int>>, width: nat)
    ensures Decoded(ys, width) == GreedyDecode(next, rows, maxLen, start, end)
  {
    ghost var target := DecodeSteps(next, StartColumn(rows, start), maxLen - 1, end);
    assert target == GreedyDecode(next, rows, maxLen, start, end);
    var d := StartColumn(rows, start);
    var i := 0;
    while i < maxLen - 1
      invariant d.Valid() && |d.ys| == rows
      invariant 0 <= i && (i <= maxLen - 1 || i == 0)
      invariant DecodeSteps(next, d, maxLen - 1 - i, end) == target
    {
      DecodeStepsUnfold(next, d, maxLen - 1 - i, end);
      var col := NextColumn(next, d.ys);
      d := AppendColumn(d, col);
      if AllEnd(col, end) {
        break;
      }
      i := i + 1;
    }
    DecodeStepsUnfold(next, d, maxLen - 1 - i, end);
    ys, width := d.ys, d.width;
  }
}
