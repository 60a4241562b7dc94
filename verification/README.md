# Sign-language transformer: the discrete core in Dafny

This project models the exact, sequential rules beneath the tensor calls of
the sign-language transformer training code (`sl_transformer.py` and
`model/util/util.py`), and proves properties of them. Token tensors are
`seq<seq<int>>`, masks are `seq<seq<bool>>`, probabilities are `real`.
Where a tensor can have zero rows, its width is an explicit parameter.

The model covers:

- **Tensors** (`tensors.dfy`): transpose, element-wise comparisons, counting
  of true entries, and flattening.
- **Util** (`util.dfy`): `generate_mask`, a causal mask in which `true`
  means *forbidden*; `generate_padding_mask`; `generate_seq_lengths`; and
  `pad_to_shape`.
- **Batching** (`batching.dfy`): `Batch`, `make_std_mask` and `rebatch`.
  Here `true` means *allowed*.
- **LabelSmoothing** (`label_smoothing.dfy`): the target distribution that
  `LabelSmoothing.forward` builds before the KL divergence, or the error
  raised on the way.
- **GreedyDecoding** (`greedy.dfy`): the batch-synchronous loop of
  `greedy_decode`. The model itself is an abstract next-token function.
- **Accuracy** (`accuracy.dfy`): `calculate_accuracy` with `get_mask` and
  `matches`.
- **Vocabulary** (`vocab.dfy`): `build_static_src_vocab` and
  `build_dynamic_vocab`.
- **Fields** (`compose.dfy`): `compose_field`.
- **Strings** (`strings.dfy`): Python's `str.join` and left-justification,
  as the two string builders use them. Neither builder splits anything:
  `Split` and `SplitJoin` are the inverse of `join`, used only to prove
  that `join` is injective (`Strings.JoinInjective`,
  `Vocabulary.EntryInjective`).
- **Wrappers** (`wrappers.dfy`): `Option` and `Result`.

Behaviour of the code as written that the model keeps on purpose:

- `calculate_accuracy` removes only the begin and end markers.
  - Padding in a reference row must be matched token for token
    (`Accuracy.PaddingMustMatch`).
  - Tokens that a row decodes after its own end marker are compared too,
    while the rest of the batch is still decoding
    (`Accuracy.TokensAfterEndAreCompared`).
- `greedy_decode` stops only when every row's newest token is the end
  symbol. An empty batch stops after one step, because Python's `all` of
  nothing is true.
- The label-smoothing spread `smoothing / (size - 2)` fails with a
  division by zero when `size == 2`.
- A negative `padding_idx` is a Python index from the end of the row.

## Model

| member | source | states |
|---|---|---|
| Tensors.Transpose | sl_transformer.py:496 | the batch-major result has the time and batch axes swapped: entry [i][j] is entry [j][i] of the input |
| Tensors.TransposeInvolutive | sl_transformer.py:496 | transposing twice gives back the original tensor, so `rebatch` loses no token |
| Tensors.CountNotEqual | model/util/util.py:53 | the entries different from pad and the pad entries together make up the whole vector; the entries equal to pad are counted by the multiset |
| Util.TriuOnes | model/util/util.py:27 | `triu(ones) == 1` is true exactly on and above the diagonal |
| Util.MaskedFill | model/util/util.py:28-29 | every cell whose mask entry matches is overwritten; every other cell is kept |
| Util.SquareSubsequentMask | model/util/util.py:19-30 | cell [i][j] is 0.0 when j <= i and -inf when j > i |
| Util.GenerateMask | model/util/util.py:9-34 | for n = data.size(0) the mask is n × n and forbids exactly the future positions j > i |
| Util.CausalMaskCount | model/util/util.py:27-33 | no position is forbidden from attending to itself, and exactly n(n-1)/2 cells are forbidden |
| Util.StrictUpperCount | model/util/util.py:27-33 | the first k rows of an n-wide strict upper-triangular mask hold (n-1) + (n-2) + ... + (n-k) true cells |
| Util.StrictCellsClosedForm | model/util/util.py:27-33 | that sum is k(2n-k-1)/2 |
| Util.GeneratePaddingMask | model/util/util.py:37-48 | the mask is B × T; entry [b][t] is true exactly when token t of sequence b is padding |
| Util.GenerateSeqLengths | model/util/util.py:51-53 | each length plus the number of pad tokens in that column equals T |
| Util.SeqLengthsComplementPadding | model/util/util.py:46-53 | a length is the size of the set of non-pad time steps; it is at most T; with that sequence's padding-mask row it adds up to T |
| Util.PadRows | model/util/util.py:61-65 | the added rows have the data's width and hold only the pad id |
| Util.PadToShape | model/util/util.py:56-67 | shorter data grows to exactly `shape[0]` rows; longer or equal data is returned unchanged; `pad_first` puts the pad rows before the data, otherwise after |
| Util.PadToShapeIdempotent | model/util/util.py:56-67 | padding an already padded tensor to the same shape changes nothing |
| Batching.SubsequentMask | sl_transformer.py:516-517 | the causal mask is L × L and lets query i attend key j exactly when j <= i |
| Batching.SubsequentMaskComplementsGenerateMask | sl_transformer.py:516-517 | the causal mask of this file allows exactly the cells that `generate_mask` does not forbid |
| Batching.SrcMask | sl_transformer.py:505 | a source position is allowed exactly when it is not padding |
| Batching.SrcMaskCountsSeqLength | sl_transformer.py:505 | each source-mask row allows as many keys as `generate_seq_lengths` counts for that sequence |
| Batching.MakeStdMask | sl_transformer.py:512-518 | query i of sequence b may attend key j exactly when key j is not padding and j <= i; the mask is B × L × L |
| Batching.StdMaskComplementsUtilMasks | sl_transformer.py:512-518 | the allowed target mask is the complement of the union of the padding mask and the causal mask of the model package |
| Batching.StdMaskRowCount | sl_transformer.py:512-518 | query i attends to i + 1 keys minus the padding keys among keys 0..i |
| Batching.DropLastColumn | sl_transformer.py:507 | `trg[:, :-1]` keeps every row's first max(T-1, 0) tokens in place |
| Batching.DropFirstColumn | sl_transformer.py:508 | `trg[:, 1:]` moves every token one place left and drops the first |
| Batching.NTokens | sl_transformer.py:510 | `ntokens` plus the pad tokens of `trg_y` is the size of `trg_y` |
| Batching.MakeTarget | sl_transformer.py:506-509 | `trg[b][i]` is `row[i]` and `trg_y[b][i]` is `row[i+1]`, both B × (T-1); query i of row b may attend key j exactly when `row[j]` is not padding and j <= i |
| Batching.NTokensFillTarget | sl_transformer.py:508-510 | `ntokens` plus the pad tokens of `trg_y` is B × (T-1), the number of cells of `trg_y` |
| Batching.MakeBatch | sl_transformer.py:503-510 | the source is kept; the source mask has its shape and allows a position exactly when its token is not padding; the decoder side exists exactly when a target was given |
| Batching.MakeBatchTarget | sl_transformer.py:506-510 | with a target: `trg[b][i]` is `row[i]` and `trg_y[b][i]` is `row[i+1]`; query i may attend key j exactly when `row[j]` is not padding and j <= i; `ntokens` plus the pad cells of `trg_y` is B × (T-1) |
| Batching.BatchShiftRoundTrip | sl_transformer.py:507-508 | putting back the dropped last token of `trg`, or the dropped first token of `trg_y`, gives back the original target row |
| Batching.Rebatch | sl_transformer.py:494-497 | the batch holds the transposed source and always has a decoder side of shape B × (T-1) |
| Batching.RebatchTarget | sl_transformer.py:494-497 | `trg`/`trg_y` of sequence b read the time-major target at steps i and i + 1 of column b |
| LabelSmoothing.Fill | sl_transformer.py:440 | every cell holds the fill value |
| LabelSmoothing.Scatter | sl_transformer.py:441 | row n gets the value at its target column; other cells are unchanged |
| LabelSmoothing.ZeroColumn | sl_transformer.py:442 | the padding column is zero in every row; other cells are unchanged |
| LabelSmoothing.ZeroRows | sl_transformer.py:443-445 | a row whose target is padding is zero everywhere; other rows are unchanged |
| LabelSmoothing.TrueDist | sl_transformer.py:437-446 | errors, in the order raised: shape assertion, division by zero at size 2, target out of range, padding index out of range; it succeeds exactly when none applies. On success, a cell is 0 in the padding column or a padding row, `1 - smoothing` at the target, and `smoothing / (size - 2)` elsewhere |
| LabelSmoothing.RowLayout | sl_transformer.py:440-442 | a non-padding row holds 0 in the padding column, `1 - smoothing` at its target and `smoothing / (size - 2)` everywhere else |
| LabelSmoothing.SumTwoSpecialWhole | sl_transformer.py:440-442 | a row with 0 in the padding column, a at the target and v elsewhere sums to a + (size - 2) v |
| LabelSmoothing.RowSumsToOne | sl_transformer.py:432-445 | a row whose target is not padding sums to exactly 1 |
| LabelSmoothing.DefaultSmoothingIsOneHot | sl_transformer.py:428-446 | with the default smoothing 0.0 (confidence 1.0) each row is one-hot at its target, and all zero for a padding target or in the padding column |
| LabelSmoothing.PaddingCarriesNoMass | sl_transformer.py:442-445 | the padding column is 0 in every row, and a padding-target row sums to 0 |
| GreedyDecoding.StartColumn | sl_transformer.py:478 | every row starts as the single start symbol |
| GreedyDecoding.NextColumn | sl_transformer.py:481-486 | the new column holds, for each row, the token the model predicts for it from the current matrix |
| GreedyDecoding.AppendColumn | sl_transformer.py:487 | each row gains exactly its new token at the end |
| GreedyDecoding.DecodeSteps | sl_transformer.py:480-490 | no steps leave the matrix unchanged; n > 0 steps add at least one and at most n columns, keeping the row count |
| GreedyDecoding.DecodeStepsContinues | sl_transformer.py:480-490 | the result extends the input, each new column is what the model predicts from the columns before it, only the last new column can be all end symbols, and it stops early only right after such a column |
| GreedyDecoding.GreedyDecode | sl_transformer.py:476-491 | the row count is kept and column 0 is the start symbol. The width is 1 when max_len <= 1, and between 2 and max_len otherwise. A width below max_len means the last column is all end symbols, and no column 1..width-2 is. Every column after the first is model-predicted |
| GreedyDecoding.ContinuesUnique | sl_transformer.py:480-490 | any matrix meeting the loop's specification from a given start is the loop's output |
| GreedyDecoding.GreedyOutputUnique | sl_transformer.py:476-491 | a matrix with the start column, the width bounds, the batch-wide stop and model-predicted columns is exactly `greedy_decode`'s output |
| GreedyDecoding.ImmediateEndStopsAtTwo | sl_transformer.py:489-490 | when every row predicts the end symbol first, or the batch is empty, the output has width 2 |
| GreedyDecoding.GreedyDecodeLoop | sl_transformer.py:476-491 | the `for`/`break` loop computes the same matrix as the recursive definition |
| Accuracy.AllTrue | sl_transformer.py:125 | the starting mask has the tensor's shape and is true everywhere |
| Accuracy.And | sl_transformer.py:128 | a cell is true exactly when it is true in both masks |
| Accuracy.GetMask | sl_transformer.py:124-129 | a cell is true exactly when its token is not one of the symbols to ignore |
| Accuracy.MaskedSelect | sl_transformer.py:156 | `o[o_mask]` has as many tokens as the mask has true cells |
| Accuracy.FilterContents | sl_transformer.py:122-129 | filtering keeps every occurrence of each token not ignored, padding included, and drops every occurrence of the begin and end markers |
| Accuracy.MaskedSelectFilters | sl_transformer.py:155-157 | selecting with `get_mask` equals the reference filter: the tokens not ignored, in their original order |
| Accuracy.Matches | sl_transformer.py:131-132 | `matches` holds exactly when the two rows are equal |
| Accuracy.CorrectItems | sl_transformer.py:155-158 | there is one verdict per row, for as many rows as the shorter tensor has; a row is correct exactly when its filtered decoded and reference rows are equal |
| Accuracy.TokensAfterEndAreCompared | sl_transformer.py:122 | an end marker inside a row does not end the comparison; the tokens after it are compared too |
| Accuracy.PaddingMustMatch | sl_transformer.py:122 | rows with different numbers of padding tokens never match, because padding is not ignored |
| Accuracy.DecodeBatch | sl_transformer.py:145-152 | one decoded row per sequence; every row starts with `<bos>`; the width is between 2 and `max_len = 60`; a width below 60 means the last column is all `<eos>`, and no earlier generated column is |
| Accuracy.DecodeBatchPredicts | sl_transformer.py:145-152 | token k >= 1 of row b is the model's prediction for row b from the transposed source, its padding mask and the first k columns |
| Accuracy.ScoreBatch | sl_transformer.py:154-160 | a batch adds `tgt.size(0)` rows to the total and at most that many to the correct count |
| Accuracy.PerfectBatch | sl_transformer.py:155-160 | a batch scores full marks exactly when every decoded row, stripped of its markers, equals its reference row |
| Accuracy.BatchScores | sl_transformer.py:143-160 | there is one score per batch, and no batch has more correct rows than rows |
| Accuracy.Tally | sl_transformer.py:143-160 | the running correct count never exceeds the running total |
| Accuracy.TallyStep | sl_transformer.py:159-160 | one more batch adds its correct rows to `correct` and its rows to `total` |
| Accuracy.PerfectTally | sl_transformer.py:143-161 | the summed correct count equals the summed total exactly when every batch is perfect |
| Accuracy.TallyLoop | sl_transformer.py:143-160 | the loop's `correct` and `total` are the sums of the batch scores |
| Accuracy.Ratio | sl_transformer.py:161 | with rows, the ratio times the total is the correct count; with none it is 0 |
| Accuracy.RatioInUnit | sl_transformer.py:161 | the accuracy is in [0, 1]; it is 1 when every row is correct and 0 when none is |
| Accuracy.CalculateAccuracy | sl_transformer.py:121-162 | the result is correct / total over all batches, in [0, 1], and 0 when there are no rows |
| Strings.Join | sl_transformer.py:308 | joining no parts gives "" (an all-empty direction triple becomes the empty word) |
| Strings.JoinTotalLength | sl_transformer.py:251 | a join of n >= 1 parts is as long as the parts together plus n - 1 separators |
| Strings.SplitJoin | sl_transformer.py:308 | splitting on the separator undoes joining, when no part contains it; this inverse of `join` serves to prove injectivity, the source itself never splits |
| Strings.JoinInjective | sl_transformer.py:308 | lists of non-empty, separator-free words with the same join are equal |
| Strings.JoinLayout | sl_transformer.py:251 | every part sits at its offset in the joined string, followed by the separator unless it is last |
| Strings.LeftJustify | sl_transformer.py:252 | the result is the text followed by spaces, of length max(width, length); it is never truncated |
| Vocabulary.BuildDynamicVocab | sl_transformer.py:314-315 | the vocabulary holds exactly the tokens that occur in the data |
| Vocabulary.DynamicVocabSize | sl_transformer.py:314-315 | the vocabulary is no larger than the data, and exactly as large when no token repeats |
| Vocabulary.ProductContains | sl_transformer.py:309 | `itertools.product` yields exactly the triples drawn from the three lists |
| Vocabulary.ProductDistinct | sl_transformer.py:309 | lists without duplicates give a product without duplicates |
| Vocabulary.Product3 | sl_transformer.py:309 | the product of lists of lengths a, b, c has a · b · c triples |
| Vocabulary.NonEmptyParts | sl_transformer.py:308 | the filter keeps exactly the non-empty words |
| Vocabulary.NonEmptyPartsAppend | sl_transformer.py:308 | filtering a concatenation gives the filtered halves concatenated, so order is kept |
| Vocabulary.NonEmptyPartsOne | sl_transformer.py:308 | a single word is kept exactly when it is not empty |
| Vocabulary.NonEmptyPartsTriple | sl_transformer.py:308 | the kept words of a triple are those of its three words, in order |
| Vocabulary.Entry | sl_transformer.py:308 | the entry of a triple is empty exactly when all three directions are empty |
| Vocabulary.EntryOfThree | sl_transformer.py:308 | three non-empty words are joined as `a_b_c` |
| Vocabulary.Entries | sl_transformer.py:307-310 | the comprehension has one entry per direction triple, in `itertools.product` order |
| Vocabulary.Directions | sl_transformer.py:303-309 | 27 direction triples are enumerated |
| Vocabulary.DirectionsContain | sl_transformer.py:303-309 | a triple is enumerated exactly when each word comes from its own list |
| Vocabulary.BuildStaticSrcVocab | sl_transformer.py:300-311 | the vocabulary contains the entry of every triple, and every word in it is the entry of some triple |
| Vocabulary.EntryInjective | sl_transformer.py:308 | different direction triples are written as different entries |
| Vocabulary.StaticVocabSize | sl_transformer.py:300-311 | the static vocabulary has exactly 27 words |
| Vocabulary.InStaticVocab | sl_transformer.py:300-311 | the entry of every triple drawn from the three lists is in the vocabulary |
| Vocabulary.EmptyWordInStaticVocab | sl_transformer.py:300-311 | the empty word, from three empty directions, is in the vocabulary |
| Vocabulary.FullEntryInStaticVocab | sl_transformer.py:300-311 | "left_up_front" is in the vocabulary |
| Vocabulary.SingleEntryInStaticVocab | sl_transformer.py:300-311 | "right" is in the vocabulary |
| Vocabulary.PairEntryInStaticVocab | sl_transformer.py:300-311 | "down_back" is in the vocabulary |
| Vocabulary.LeftRightNotInStaticVocab | sl_transformer.py:300-311 | "left_right" is not in the vocabulary |
| Vocabulary.PairEntry | sl_transformer.py:308 | empty directions are skipped, not written as doubled separators |
| Vocabulary.NoEntryCombinesOneList | sl_transformer.py:303-309 | no triple is written "left_right": two words of one list never share an entry |
| Fields.Failure | sl_transformer.py:252 | a missing attribute raises `KeyError` naming the attribute; an attribute object without "value" raises `KeyError('value')` |
| Fields.Segment | sl_transformer.py:252 | the segment is the value, or "" when the attribute is falsy, followed by spaces up to 20 characters; it is never truncated |
| Fields.Segments | sl_transformer.py:251-253 | it succeeds exactly when every selected attribute can be read, giving one segment per field in `fields` order |
| Fields.FirstUnreadable | sl_transformer.py:251-252 | the index names an unreadable field and every field before it is readable, or is the field count when all are readable |
| Fields.SegmentsFirstError | sl_transformer.py:251-252 | on failure the error is the one raised by the first field that cannot be read |
| Fields.ComposeRow | sl_transformer.py:251-253 | the row is composed exactly when every selected attribute can be read |
| Fields.ComposeRowError | sl_transformer.py:251-252 | on failure the error is the one of the first field that cannot be read |
| Fields.ComposeRowLength | sl_transformer.py:251-253 | no fields give ""; otherwise the token is as long as its segments together plus one "-" per gap |
| Fields.ComposeRowLayout | sl_transformer.py:251-253 | the segment of field k sits at the total length of the segments before it plus k |
| Fields.ComposeRowSeparator | sl_transformer.py:251-253 | a "-" follows the segment of every field but the last |
| Fields.ComposeField | sl_transformer.py:248-254 | it succeeds exactly when every row can be composed, giving one token per row in order |
| Fields.FirstFailingRow | sl_transformer.py:250-253 | the index names a row that fails and every row before it succeeds, or is the row count when none fails |
| Fields.ComposeFieldFirstError | sl_transformer.py:248-254 | on failure the error is that of the first row that fails |
| Fields.FixedWidthLayout | sl_transformer.py:251-253 | with values of at most 20 characters, a token of n fields has 21n - 1 characters; field k fills positions 21k..21k+19, followed by "-" unless it is last |
| Fields.ColumnsRecoverValues | sl_transformer.py:251-253 | with such values, none ending in a space, stripping each column of the token gives back the field's value |
| Fields.StripSegment | sl_transformer.py:252 | stripping trailing spaces from a segment gives back its value, when the value does not end in a space |

## Left out

- `NoamOpt`: the learning-rate schedule uses floating-point powers and mutates optimizer state.
- `SimpleLossCompute` and `MultiGPULossCompute`: these are autograd and multi-GPU scatter/gather.
- The KL divergence in `LabelSmoothing.forward`: only the target distribution is modelled; the loss is floating point.
- `run_epoch`: this is wall-clock timing, logging and float loss accumulation.
- `run`, `run_training`, `get_iter` and `build_dataset` apart from `compose_field`: these are torchtext dataset loading, file checks and vocabulary building.
- `visualize_attention`: this is plotting.
- model/transformer.py, model/gru.py and main.py: these are wrappers over PyTorch modules and command-line setup.
- `get_pad_idx`: the vocabulary lookup is not modelled. Every helper takes the pad id directly.
- Batching.SubsequentMask: `subsequent_mask` of the model package is not part of this model. It is taken to allow key j for query i exactly when j <= i, the convention of the annotated Transformer.
- Batching.MakeStdMask: the singleton `unsqueeze(-2)` axes are dropped. The source mask is B × S and the target mask is B × L × L, the shape that broadcasting produces.
- LabelSmoothing.TrueDist: requires one target per row of `x`. Torch's own shape errors for a mismatched target are not modelled.
- LabelSmoothing.TrueDist: float32 rounding of the fill value `smoothing / (size - 2)`, of `1 - smoothing` and of row sums is modelled as exact real arithmetic, so the "sums to exactly 1" of RowSumsToOne holds for reals, not necessarily bit for bit in float32.
- LabelSmoothing.RowSumsToOne: stated only for a padding index given as a plain, non-negative column.
- GreedyDecoding.GreedyDecode: the encoder, decoder, generator and arg-max are one abstract next-token function, so ties in the arg-max are whatever that function returns.
- Accuracy.CalculateAccuracy: the trained model is an abstract function, and `test_iter` is a finite sequence of raw batches. Python's `correct / total` is exact real division here.
- Fields.ComposeField: attribute values are strings. Formatting a number with `:<20` is not modelled, and neither are attributes that are truthy non-objects.
