/**
 * The scoring part of `evaluate_model` (modules/evaluate.py, lines 90-141): split the records,
 * decode every sample greedily, compare the decoded prediction with the decoded expectation as
 * strings, and count the correct ones.
 */
module Evaluator {
  import opened Results
  import opened Codec
  import opened Splitter
  import opened Decoder

  /** One verdict: the sample's number (from 1), its input, both decoded strings, and the verdict. */
  datatype Outcome = Outcome(number: nat, input: string, predicted: string, expected: string, correct: bool)

  /** The verdicts in sample order, the number of correct ones and the number of samples. */
  datatype Evaluation = Evaluation(outcomes: seq<Outcome>, correctPredictions: nat, total: nat)

  /** The ids predicted for one sample: one step per id of the encoded expected output. */
  function PredictedIds(predict: Predictor, maxSeqLength: nat, sample: Sample): seq<int>
    requires maxSeqLength > 0
  {
    Predictions(predict, Pad(PreprocessInput(sample.input), maxSeqLength), |PreprocessInput(sample.expected)|)
  }

  /** The verdict on the sample at position `index`: correct when both decode to the same string. */
  function Judge(predict: Predictor, maxSeqLength: nat, index: nat, sample: Sample): Outcome
    requires maxSeqLength > 0
  {
    var predicted := DecodeOutput(PredictedIds(predict, maxSeqLength, sample));
    var expected := DecodeOutput(PreprocessInput(sample.expected));
    Outcome(index + 1, sample.input, predicted, expected, predicted == expected)
  }

  /** The verdicts on all samples, in order. */
  function JudgeAll(predict: Predictor, maxSeqLength: nat, samples: seq<Sample>): (outcomes: seq<Outcome>)
    requires maxSeqLength > 0
    ensures |outcomes| == |samples|
  {
    if samples == [] then []
    else
      JudgeAll(predict, maxSeqLength, samples[..|samples| - 1])
      + [Judge(predict, maxSeqLength, |samples| - 1, samples[|samples| - 1])]
  }

  /** The number of correct verdicts. */
  function CountCorrect(outcomes: seq<Outcome>): nat {
    if outcomes == [] then 0
    else CountCorrect(outcomes[..|outcomes| - 1]) + (if outcomes[|outcomes| - 1].correct then 1 else 0)
  }

  /** Reference definition of a whole evaluation run, errors included. */
  function Evaluate(predict: Predictor, maxSeqLength: nat, data: seq<Item>): Result<Evaluation, HarnessError>
    requires maxSeqLength > 0
  {
    if data == [] then Err(EmptyTestData)
    else
      match SplitPairs(data)
      case Err(e) => Err(e)
      case Ok(samples) =>
        if samples == [] then Err(NoInputOutputPairs)
        else
          var outcomes := JudgeAll(predict, maxSeqLength, samples);
          Ok(Evaluation(outcomes, CountCorrect(outcomes), |samples|))
  }

  /** `accurate_percentage`, as an exact fraction rather than a float. */
  function AccuracyPercent(correctPredictions: nat, total: nat): (p: real)
    requires 0 < total && correctPredictions <= total
    ensures 0.0 <= p <= 100.0
    ensures p == 100.0 <==> correctPredictions == total
    ensures p == 0.0 <==> correctPredictions == 0
  {
    correctPredictions as real / total as real * 100.0
  }

  /** Worked instance: three correct out of four is 75 percent. */
  lemma AccuracyExample()
    ensures AccuracyPercent(3, 4) == 75.0
  {
  }

  /** Verdict `i` is the judgement of sample `i`, numbered `i + 1`. */
  lemma {:induction false} JudgeAllAt(predict: Predictor, maxSeqLength: nat, samples: seq<Sample>, i: nat)
    requires maxSeqLength > 0 && i < |samples|
    ensures JudgeAll(predict, maxSeqLength, samples)[i] == Judge(predict, maxSeqLength, i, samples[i])
    ensures JudgeAll(predict, maxSeqLength, samples)[i].number == i + 1
    ensures JudgeAll(predict, maxSeqLength, samples)[i].input == samples[i].input
    decreases |samples|
  {
    if i < |samples| - 1 {
      var init := samples[..|samples| - 1];
      JudgeAllAt(predict, maxSeqLength, init, i);
    }
  }

  /** Judging one more sample appends its verdict. */
  lemma JudgeAllStep(predict: Predictor, maxSeqLength: nat, samples: seq<Sample>, idx: nat)
    requires maxSeqLength > 0 && idx < |samples|
    ensures JudgeAll(predict, maxSeqLength, samples[..idx + 1])
         == JudgeAll(predict, maxSeqLength, samples[..idx]) + [Judge(predict, maxSeqLength, idx, samples[idx])]
  {
    assert samples[..idx + 1][..idx] == samples[..idx];
  }

  /** Counting distributes over concatenation of verdict lists. */
  lemma {:induction false} CountCorrectAppend(a: seq<Outcome>, b: seq<Outcome>)
    ensures CountCorrect(a + b) == CountCorrect(a) + CountCorrect(b)
    decreases |b|
  {
    if b == [] {
      assert a + b == a;
    } else {
      var init := b[..|b| - 1];
      CountCorrectAppend(a, init);
      assert (a + b)[..|a + b| - 1] == a + init;
    }
  }

  /** The count lies between zero and the number of verdicts, reaching each bound exactly when
      no verdict, respectively every verdict, is correct. */
  lemma {:induction false} CountCorrectBounds(outcomes: seq<Outcome>)
    ensures CountCorrect(outcomes) <= |outcomes|
    ensures CountCorrect(outcomes) == |outcomes| <==> forall k :: 0 <= k < |outcomes| ==> outcomes[k].correct
    ensures CountCorrect(outcomes) == 0 <==> forall k :: 0 <= k < |outcomes| ==> !outcomes[k].correct
    decreases |outcomes|
  {
    if outcomes != [] {
      var init := outcomes[..|outcomes| - 1];
      CountCorrectBounds(init);
      assert forall k :: 0 <= k < |init| ==> init[k] == outcomes[k];
    }
  }

  /** A sample whose expected output encodes to no ids gets no predictor call and is always correct. */
  lemma EmptyExpectedIsCorrect(predict: Predictor, maxSeqLength: nat, index: nat, sample: Sample)
    requires maxSeqLength > 0 && PreprocessInput(sample.expected) == []
    ensures Judge(predict, maxSeqLength, index, sample).correct
    ensures Judge(predict, maxSeqLength, index, sample).predicted == ""
  {
    assert PredictedIds(predict, maxSeqLength, sample) == [];
  }

  /**
   * What a run yields: the empty list fails first, then a string record with no marker, then a
   * list with no string record; otherwise there is one verdict per string record, in order,
   * and the count of correct verdicts is between zero and the number of samples.
   */
  lemma EvaluateSpec(predict: Predictor, maxSeqLength: nat, data: seq<Item>)
    requires maxSeqLength > 0
    ensures var r := Evaluate(predict, maxSeqLength, data);
      && (data == [] ==> r == Err(EmptyTestData))
      && (data != [] && !AllMarked(data) ==> r.Err? && r.error.MissingMarker?)
      && (data != [] && AllMarked(data) && TextRecords(data) == [] ==> r == Err(NoInputOutputPairs))
      && (r.Ok? <==> data != [] && AllMarked(data) && TextRecords(data) != [])
      && (r.Ok? ==>
            && r.value.total == |r.value.outcomes| == |TextRecords(data)| > 0
            && r.value.correctPredictions <= r.value.total
            && forall k :: 0 <= k < |r.value.outcomes| ==>
                 && HasMarker(TextRecords(data)[k])
                 && r.value.outcomes[k] == Judge(predict, maxSeqLength, k, SampleOf(TextRecords(data)[k])))
  {
    SplitPairsOk(data);
    if data != [] && SplitPairs(data).Err? {
      SplitPairsErr(data);
    }
    if data != [] && SplitPairs(data).Ok? {
      var samples := SplitPairs(data).value;
      var outcomes := JudgeAll(predict, maxSeqLength, samples);
      CountCorrectBounds(outcomes);
      forall k | 0 <= k < |outcomes|
        ensures outcomes[k] == Judge(predict, maxSeqLength, k, SampleOf(TextRecords(data)[k]))
      {
        JudgeAllAt(predict, maxSeqLength, samples, k);
      }
    }
  }

  /**
   * The body of the sample loop (lines 109-139): encode the input and the expected output,
   * decode greedily for as many steps as the expected output has ids, then compare the two
   * decoded strings.
   */
  method JudgeSample(predict: Predictor, maxSeqLength: nat, idx: nat, sample: Sample)
    returns (outcome: Outcome)
    requires maxSeqLength > 0
    ensures outcome == Judge(predict, maxSeqLength, idx, sample)
  {
    var preprocessedInput := PreprocessInput(sample.input);
    var expectedTokens := PreprocessInput(sample.expected);
    var predictedIds := GreedyDecode(predict, preprocessedInput, maxSeqLength, |expectedTokens|);
    var predictedOutput := DecodeOutput(predictedIds);
    var expectedReconstructed := DecodeOutput(expectedTokens);
    if predictedOutput == expectedReconstructed {
      outcome := Outcome(idx + 1, sample.input, predictedOutput, expectedReconstructed, true);
    } else {
      outcome := Outcome(idx + 1, sample.input, predictedOutput, expectedReconstructed, false);
    }
  }

  /**
   * `evaluate_model` up to the accuracy: refuses an empty list, splits the records, refuses a
   * split with no pairs, then decodes and judges each sample in order, counting correct ones.
   */
  method EvaluateModel(predict: Predictor, data: seq<Item>, maxSeqLength: nat)
    returns (r: Result<Evaluation, HarnessError>)
    requires maxSeqLength > 0
    ensures r == Evaluate(predict, maxSeqLength, data)
  {
    if data == [] {
      return Err(EmptyTestData);
    }
    var split := SplitInputOutput(data);
    if split.Err? {
      return Err(split.error);
    }
    var pairs := split.value;
    if |pairs| == 0 {
      return Err(NoInputOutputPairs);
    }
    var correctPredictions := 0;
    var results: seq<Outcome> := [];
    for idx := 0 to |pairs|
      invariant results == JudgeAll(predict, maxSeqLength, pairs[..idx])
      invariant correctPredictions == CountCorrect(results)
    {
      var outcome := JudgeSample(predict, maxSeqLength, idx, pairs[idx]);
      if outcome.correct {
        correctPredictions := correctPredictions + 1;
      }
      JudgeAllStep(predict, maxSeqLength, pairs, idx);
      CountCorrectAppend(results, [outcome]);
      results := results + [outcome];
    }
    assert pairs[..|pairs|] == pairs;
    r := Ok(Evaluation(results, correctPredictions, |pairs|));
  }
}
