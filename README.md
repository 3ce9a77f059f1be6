# Bracket-completion evaluation harness, modelled in Dafny

This project models the evaluation harness of a bracket-completion language model
(`modules/evaluate.py`). The harness decides whether the model's output counts as correct:

- a fixed nine-token vocabulary with ids 1..9 (id 0 is padding);
- a character-scanning tokenizer;
- a lossy codec that encodes strings to ids and decodes ids to strings;
- a record splitter that cuts each dataset record on the literal `,output:`;
- a greedy sliding-window decoding loop that asks the model for one next id per expected
  token and rolls its fixed-length context window after every step;
- an exact-string scoring tally.

The trained model is an opaque parameter. `Decoder.Predictor` is a total function from a
window to a non-empty vector of integer scores. `Decoder.Argmax` then takes the first
highest-scoring position, as `np.argmax` does.

Modules, one per component:

- `Results` (`results.dfy`): `Option`, `Result`, and the three exceptions the harness can raise.
- `Vocabulary` (`vocabulary.dfy`): the token list and its two dictionaries.
- `Tokenizer` (`tokenizer.dfy`): `tokenize_string` as a loop. It is proved equal to a recursive
  reference segmentation. That segmentation is characterised by properties that determine it
  uniquely.
- `Codec` (`codec.dfy`): `preprocess_input` and `decode_output`.
- `Splitter` (`splitter.dfy`): Python's `str.split` on a non-empty separator, and
  `split_input_output` as a loop.
- `Decoder` (`decoder.dfy`): padding, argmax, and the decoding loop over an `array<int>`
  window that is rolled in place.
- `Evaluator` (`evaluator.dfy`): the per-sample verdicts, the count of correct ones, and the
  whole run with its error cases.

In these places the model follows what the code actually does:

- A string record without `,output:` does not get dropped with the batch carrying on.
  `item.split(",output:")[1]` raises `IndexError`, and that aborts the whole call.
- The expected output is the second piece of the split. When a record holds the marker twice,
  it stops at the second marker rather than running to the end.
- `,output` is never produced as a segment, because `,` is a token by itself. The id of
  `,output` (8) therefore never comes out of the encoder, and `input,output` encodes to `[7, 9]`.
- The window is never appended to. After padding it already has `max_seq_length` slots, so the
  branch at lines 126-127 is dead. Every step rolls the whole window left, dropping the oldest
  slot even while trailing padding zeros remain (`Decoder.FirstStepShiftsPastPadding`).
- Over-long inputs are truncated to their last `max_seq_length` ids. This is Keras's
  `pad_sequences` default (`truncating='pre'`), which the file does not spell out. It is an
  assumption of this model.

## Model

| member | source | states |
|---|---|---|
| `Vocabulary.TokensDistinct` | modules/evaluate.py:28 | no token appears twice in the literal list, so neither dictionary loses an entry |
| `Vocabulary.IdsAreListPositions` | modules/evaluate.py:28-30 | the list has nine tokens; `token2id`'s keys are exactly the listed tokens, and the token at position i gets id i + 1; `id2token`'s keys are exactly 1..9 and map back to the listed token; the padding id 0 names no token |
| `Vocabulary.TokenToId` | modules/evaluate.py:29 | `token2id`: each listed token mapped to its position plus one; its keys and values are stated by `IdsAreListPositions` and `TokenIdsInRange` |
| `Vocabulary.IdToToken` | modules/evaluate.py:30 | `id2token`: each id 1..9 mapped to the token at that position minus one; stated by `IdsAreListPositions` and `MapsAreInverse` |
| `Vocabulary.MapsAreInverse` | modules/evaluate.py:29-30 | `token2id` and `id2token` are inverse to each other in both directions |
| `Vocabulary.TokenIdsInRange` | modules/evaluate.py:29 | every id `token2id` hands out lies in 1..9, and only `,output` gets id 8 |
| `Vocabulary.SingleCharTokens` | modules/evaluate.py:58 | the scanner's test `char in token2id` holds exactly for the seven one-character tokens `( ) 【 】 { } ,` |
| `Vocabulary.OutputWordNotAToken` | modules/evaluate.py:28 | the bare word `output` is not a key of `token2id` |
| `Tokenizer.Tokenize` | modules/evaluate.py:54-67 | the reference segmentation the scanner is proved against: a token character on its own, otherwise the longest run of non-token characters; characterised by `TokenizeIsSegmentation` and `SegmentationUnique` |
| `Tokenizer.TokenizeString` | modules/evaluate.py:54-67 | the scanning loop returns exactly the reference segmentation `Tokenize(s)` |
| `Tokenizer.ScanTokenChar` | modules/evaluate.py:58-62 | on a token character, flushing the pending word and then emitting the character keeps the segments a valid segmentation of the text scanned so far |
| `Tokenizer.ScanWordChar` | modules/evaluate.py:63-64 | on any other character, growing the pending word keeps it a word and keeps the segments a valid segmentation of the text scanned so far |
| `Tokenizer.ScanFinished` | modules/evaluate.py:65-67 | after the final flush, any valid segmentation of the whole input equals `Tokenize(s)` |
| `Tokenizer.TokenizeIsSegmentation` | modules/evaluate.py:54-67 | the segments join back to exactly `s`; every segment is non-empty and is either a one-character token or a run with no token character; no two such runs are adjacent |
| `Tokenizer.SegmentationUnique` | modules/evaluate.py:54-67 | those properties admit only one segmentation of a string |
| `Tokenizer.OutputMarkerNeverSegment` | modules/evaluate.py:58-62 | no segment ever equals `,output` |
| `Tokenizer.TokenizeExample` | modules/evaluate.py:54-67 | `(input,output)` becomes `(`, `input`, `,`, `output`, `)`, and the empty string gives no segments |
| `Codec.EncodeSegments` | modules/evaluate.py:72 | every id kept from a list of segments lies in 1..9 |
| `Codec.PreprocessInput` | modules/evaluate.py:69-72 | every id `preprocess_input` returns lies in 1..9 |
| `Codec.PreprocessNeverOutputMarker` | modules/evaluate.py:72 | `preprocess_input` never yields id 8 |
| `Codec.PreprocessExample` | modules/evaluate.py:69-72 | `input,output` encodes to `[7, 9]`, so the word `output` is dropped |
| `Codec.TokenizeMarkerExample` | modules/evaluate.py:54-67 | `input,output` is cut into `input`, `,`, `output` |
| `Codec.DecodeOutput` | modules/evaluate.py:74-77 | `decode_output`: the tokens of the ids found in `id2token`, joined in order; its behaviour is stated by `DecodeSingle`, `DecodeAppend`, `DecodeDropsUnknown` and `DecodePreprocess` |
| `Codec.DecodeSingle` | modules/evaluate.py:74-77 | one id decodes to its listed token if it lies in 1..9, and to the empty string otherwise |
| `Codec.DecodeAppend` | modules/evaluate.py:74-77 | decoding distributes over concatenation of id sequences |
| `Codec.DecodeDropsUnknown` | modules/evaluate.py:75 | a sequence of ids all outside 1..9 (padding zeros included) decodes to the empty string |
| `Codec.DecodeEncodeSegments` | modules/evaluate.py:72-75 | decoding the encoding of a list of segments gives the vocabulary segments, joined in order |
| `Codec.DecodePreprocess` | modules/evaluate.py:69-77 | `decode_output(preprocess_input(s))` equals the in-order concatenation of the segments of `tokenize_string(s)` that are vocabulary tokens |
| `Splitter.IndexOf` | modules/evaluate.py:83 | the result is the first occurrence of the separator at or after the start, or none when it occurs nowhere |
| `Splitter.Split` | modules/evaluate.py:83-84 | `str.split` always yields at least one piece |
| `Splitter.SplitJoin` | modules/evaluate.py:83-84 | joining the pieces with the separator gives back the original string |
| `Splitter.SplitCount` | modules/evaluate.py:84 | there is a second piece (so `[1]` succeeds) exactly when the separator occurs |
| `Splitter.SplitPiecesFree` | modules/evaluate.py:83-84 | no piece contains the separator |
| `Splitter.SampleOf` | modules/evaluate.py:83-84 | the pair built from one marked record: piece 0 of the split plus `,output`, and piece 1; characterised by `SampleOfParts` and `SampleOfSingleMarker` |
| `Splitter.SampleOfParts` | modules/evaluate.py:83-84 | the input is the text before the first marker plus `,output`; the expected output follows the marker and runs to the end or up to the next marker; neither part contains the marker |
| `Splitter.FirstTwoPieces` | modules/evaluate.py:83-84 | when the separator first occurs at `i`, piece 0 is the text before it, and the string up to the end of piece 1 is piece 0, the separator and piece 1, followed by the end or another separator |
| `Splitter.SampleOfSingleMarker` | modules/evaluate.py:83-84 | a record `head + ",output:" + tail` with a comma-free head and a marker-free tail gives input `head + ",output"` and expected `tail` |
| `Splitter.SampleOfExample` | modules/evaluate.py:83-84 | `(input:A,output:B)` gives input `(input:A,output` and expected output `B)` |
| `Splitter.SplitPairs` | modules/evaluate.py:79-88 | the reference split the loop is proved against: one pair per string record in order, non-strings skipped, the first unmarked string record aborting; characterised by `SplitPairsOk` and `SplitPairsErr` |
| `Splitter.TextRecords` | modules/evaluate.py:81-82 | the string records are never more than the records |
| `Splitter.SplitPairsOk` | modules/evaluate.py:79-88 | the split succeeds exactly when every string record holds the marker; it then yields one pair per string record, in order, skipping non-strings, so never more pairs than records |
| `Splitter.SplitPairsErr` | modules/evaluate.py:81-84 | a failed split names the first string record without the marker; every string record before it had one |
| `Splitter.SplitPairsErrPersists` | modules/evaluate.py:81-85 | once a record has raised, the later records do not matter |
| `Splitter.SplitInputOutput` | modules/evaluate.py:79-88 | the loop returns exactly the reference split, the `IndexError` abort included |
| `Decoder.Argmax` | modules/evaluate.py:123 | the result is a position of the score vector holding the maximum, and no earlier position holds it |
| `Decoder.Pad` | modules/evaluate.py:110-112 | the window has exactly `max_seq_length` slots; a short input is kept as a prefix and followed by zeros, and a long one keeps its last `max_seq_length` ids |
| `Decoder.Step` | modules/evaluate.py:129-130 | one rolling step keeps the window's length |
| `Decoder.WindowAfter` | modules/evaluate.py:116-131 | the window keeps its length through any number of steps |
| `Decoder.Predictions` | modules/evaluate.py:116-124 | `k` steps make exactly `k` predictions |
| `Decoder.WindowSlides` | modules/evaluate.py:124-130 | after `k` steps the window equals the start window followed by the predictions, with the first `k` ids dropped |
| `Decoder.WindowHoldsLastPredictions` | modules/evaluate.py:126-130 | after at least `max_seq_length` steps the window holds exactly the last `max_seq_length` predictions, oldest first |
| `Decoder.PredictionsPrefix` | modules/evaluate.py:124 | later steps never change earlier predictions |
| `Decoder.PredictionIsArgmax` | modules/evaluate.py:122-124 | prediction `i` is the first maximum of the scores for the window after `i` steps |
| `Decoder.FirstStepShiftsPastPadding` | modules/evaluate.py:110-130 | for an input shorter than the window, the first step drops the first input id while padding remains, and the prediction lands after the padding |
| `Decoder.RollLeft` | modules/evaluate.py:129 | every slot moves one place left and the first slot's value goes last, in place |
| `Decoder.GreedyDecode` | modules/evaluate.py:109-131 | the loop starts from the padded input and makes exactly `steps` predictor calls with no early stop; it returns exactly the reference predictions, and the append branch is proved unreachable |
| `Evaluator.Judge` | modules/evaluate.py:132-139 | the verdict on one sample: numbered from 1, correct when the decoded prediction equals the decoded expected output as strings |
| `Evaluator.JudgeAll` | modules/evaluate.py:108-139 | one verdict per sample |
| `Evaluator.JudgeSample` | modules/evaluate.py:109-139 | one pass of the sample loop yields exactly the verdict of the reference judgement: greedy decoding for as many steps as the expected output has ids, then string comparison of both decoded texts |
| `Evaluator.JudgeAllAt` | modules/evaluate.py:108-139 | verdict `i` is the judgement of sample `i`, carries number `i + 1` and the sample's input |
| `Evaluator.CountCorrect` | modules/evaluate.py:94-137 | `correct_predictions`: the number of correct verdicts; its bounds are stated by `CountCorrectBounds` |
| `Evaluator.CountCorrectAppend` | modules/evaluate.py:135-137 | the count of correct verdicts adds up over concatenated verdict lists |
| `Evaluator.CountCorrectBounds` | modules/evaluate.py:94-137 | `0 <= correct_predictions <= len(pairs)`; the upper bound is reached exactly when all verdicts are correct, and zero exactly when none is |
| `Evaluator.EmptyExpectedIsCorrect` | modules/evaluate.py:114-135 | a sample whose expected output encodes to no ids gets no predictor call and is judged correct |
| `Evaluator.AccuracyPercent` | modules/evaluate.py:141 | the accuracy lies between 0 and 100; it is 100 exactly when all samples are correct and 0 exactly when none is |
| `Evaluator.AccuracyExample` | modules/evaluate.py:141 | three correct out of four is 75 percent |
| `Evaluator.Evaluate` | modules/evaluate.py:90-139 | the reference run the method is proved against; characterised by `EvaluateSpec` |
| `Evaluator.EvaluateSpec` | modules/evaluate.py:90-139 | an empty list raises `EmptyTestData`; then a string record with no marker raises `MissingMarker`; then no pairs raises `NoInputOutputPairs`; otherwise there is one verdict per string record, in order, each the string comparison of the decoded prediction with the decoded expectation, and `0 <= correct <= total` |
| `Evaluator.EvaluateModel` | modules/evaluate.py:90-139 | the evaluation loop returns exactly the reference evaluation, errors included |

## Left out

- `load_dataset` (lines 46-52) is left out: it checks the filesystem and parses JSON. A dataset
  is given as a sequence of `Splitter.Item` values, each a string or some other JSON value.
- `get_model_type_from_model` (lines 32-44) is left out. It inspects Keras layers, and the
  decoding does not use its result.
- `main` (lines 159-187) is left out. It loads and compiles the model and generates the test
  data with `modules.data_generator`, which is not part of this model.
- Directory creation, logging setup and the `logging` calls (lines 12-25, 71, 76, 87) are left
  out. They are side effects only.
- The predictor's internals and its float scores (line 122) are left out. Scores are integers.
  The single-input and dual-input branch (lines 117-120) is not modelled: both arms feed the
  same window.
- The report text and its two file writes (lines 136, 139, 143-155) are left out. Each verdict is
  kept as an `Evaluator.Outcome` holding the number, input, both decoded strings and the verdict.
- `Evaluator.AccuracyPercent`: does not model float rounding or the `:.2f` formatting. It
  computes the percentage as an exact real number.
- `Decoder.GreedyDecode`: requires `max_seq_length >= 1`. When the model's input length is
  unknown (`None`), `pad_sequences` pads to the input's own length and succeeds, but the
  comparison `len(preprocessed_input_padded) < max_seq_length` (line 126) raises `TypeError` as
  soon as one decoding step runs. A length of 0 fails in `pad_sequences` for a non-empty input,
  or at the `[-1]` assignment (line 130) otherwise. Neither failure is modelled.
- `Decoder.RollLeft`: `np.roll` builds a new array, which is then updated. The model rotates the
  one window array in place; nothing else refers to that array, so the visible result is the same.
- `Decoder.Pad`: for a window length of 0 it returns the empty window, whereas Keras keeps the
  whole list (`s[-0:]`) and then fails to fit it into a zero-width row. The harness never pads
  to 0 here, since `Decoder.GreedyDecode` requires `max_seq_length >= 1`.
- `Decoder.Pad`: the internals of Keras `pad_sequences` are not modelled, only the effect stated
  above, including the assumed default `truncating='pre'`.
- `Splitter.SplitInputOutput`: the source splits each record twice (lines 83 and 84); the model
  splits once, since both splits give the same pieces.
