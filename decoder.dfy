/**
 * The greedy sliding-window decoding loop inside `evaluate_model`
 * (modules/evaluate.py, lines 109-131).  The encoded input is padded to the model's length,
 * then the predictor is asked once per expected token; each time the first highest-scoring id
 * is taken, the window is rolled left and the new id is written into its last slot.
 */
module Decoder {

  /** The scores the predictor gives every id of its output space for the next position. */
  type Scores = s: seq<int> | |s| > 0 witness [0]

  /** The trained model (`model.predict`), seen only through its result on one window. */
  type Predictor = seq<int> -> Scores

  /** `np.argmax`: the first position holding the highest score. */
  function Argmax(scores: Scores): (r: nat)
    ensures r < |scores|
    ensures forall j :: 0 <= j < |scores| ==> scores[j] <= scores[r]
    ensures forall j :: 0 <= j < r ==> scores[j] < scores[r]
    decreases |scores|
  {
    if |scores| == 1 then 0
    else
      var m := Argmax(scores[..|scores| - 1]);
      if scores[|scores| - 1] > scores[m] then |scores| - 1 else m
  }

  /** `n` padding ids. */
  function Zeros(n: nat): (z: seq<int>)
    ensures |z| == n && forall k :: 0 <= k < n ==> z[k] == 0
  {
    seq(n, _ => 0)
  }

  /**
   * `pad_sequences([ids], maxlen=n, padding='post', value=0)[0]`: a short input is followed by
   * padding ids; a long one keeps its last `n` ids (Keras's default `truncating='pre'`).
   */
  function Pad(ids: seq<int>, n: nat): (w: seq<int>)
    ensures |w| == n
    ensures |ids| <= n ==> w[..|ids|] == ids && forall k :: |ids| <= k < n ==> w[k] == 0
    ensures |ids| > n ==> w == ids[|ids| - n..]
  {
    if |ids| <= n then ids + Zeros(n - |ids|) else ids[|ids| - n..]
  }

  /** One decoding step on the window: roll it left and put the predicted id in the last slot. */
  function Step(predict: Predictor, window: seq<int>): (next: seq<int>)
    requires |window| > 0
    ensures |next| == |window|
  {
    window[1..] + [Argmax(predict(window))]
  }

  /** The window after `k` decoding steps from `start`; its length never changes. */
  function WindowAfter(predict: Predictor, start: seq<int>, k: nat): (window: seq<int>)
    requires |start| > 0
    ensures |window| == |start|
  {
    if k == 0 then start else Step(predict, WindowAfter(predict, start, k - 1))
  }

  /** The ids predicted in the first `k` decoding steps from `start`, one per step. */
  function Predictions(predict: Predictor, start: seq<int>, k: nat): (ids: seq<int>)
    requires |start| > 0
    ensures |ids| == k
  {
    if k == 0 then []
    else Predictions(predict, start, k - 1) + [Argmax(predict(WindowAfter(predict, start, k - 1)))]
  }

  /** The window slides over the start window followed by the predictions: after `k` steps it
      holds exactly the `|start|` ids that follow the first `k`. */
  lemma {:induction false} WindowSlides(predict: Predictor, start: seq<int>, k: nat)
    requires |start| > 0
    ensures WindowAfter(predict, start, k) == (start + Predictions(predict, start, k))[k..]
  {
    if k > 0 {
      WindowSlides(predict, start, k - 1);
      var all := start + Predictions(predict, start, k - 1);
      var id := Argmax(predict(WindowAfter(predict, start, k - 1)));
      assert all[k - 1..][1..] == all[k..];
      assert start + Predictions(predict, start, k) == all + [id];
      assert (all + [id])[k..] == all[k..] + [id];
    }
  }

  /** Once at least `|start|` steps have run, the window holds exactly the last `|start|` predictions. */
  lemma WindowHoldsLastPredictions(predict: Predictor, start: seq<int>, k: nat)
    requires |start| > 0 && k >= |start|
    ensures WindowAfter(predict, start, k) == Predictions(predict, start, k)[k - |start|..]
  {
    WindowSlides(predict, start, k);
    var ps := Predictions(predict, start, k);
    assert (start + ps)[k..] == ps[k - |start|..];
  }

  /** Later steps never change earlier predictions. */
  lemma {:induction false} PredictionsPrefix(predict: Predictor, start: seq<int>, j: nat, k: nat)
    requires |start| > 0 && j <= k
    ensures Predictions(predict, start, k)[..j] == Predictions(predict, start, j)
    decreases k
  {
    if j < k {
      PredictionsPrefix(predict, start, j, k - 1);
      assert Predictions(predict, start, k)[..k - 1] == Predictions(predict, start, k - 1);
    }
  }

  /** Every prediction is the first highest-scoring id for the window at its step. */
  lemma PredictionIsArgmax(predict: Predictor, start: seq<int>, i: nat, k: nat)
    requires |start| > 0 && i < k
    ensures Predictions(predict, start, k)[i] == Argmax(predict(WindowAfter(predict, start, i)))
  {
    PredictionsPrefix(predict, start, i + 1, k);
    assert Predictions(predict, start, k)[i] == Predictions(predict, start, i + 1)[i];
  }

  /**
   * The first step rolls the whole padded window, so it drops the first input id even while
   * padding remains, and the prediction lands after the padding rather than after the input.
   */
  lemma FirstStepShiftsPastPadding(predict: Predictor, ids: seq<int>, n: nat)
    requires 0 < |ids| < n
    ensures WindowAfter(predict, Pad(ids, n), 1)
         == ids[1..] + Zeros(n - |ids|) + [Predictions(predict, Pad(ids, n), 1)[0]]
  {
    var start := Pad(ids, n);
    assert start == ids + Zeros(n - |ids|);
    assert start[1..] == ids[1..] + Zeros(n - |ids|);
  }

  /** `np.roll(window, -1)` done in place: every id moves one slot left, the first goes last. */
  method RollLeft(window: array<int>)
    requires window.Length > 0
    modifies window
    ensures window[..] == old(window[..])[1..] + [old(window[0])]
  {
    var first := window[0];
    var n := window.Length;
    for i := 0 to n - 1
      invariant forall k :: 0 <= k < i ==> window[k] == old(window[k + 1])
      invariant forall k :: i <= k < n ==> window[k] == old(window[k])
    {
      window[i] := window[i + 1];
    }
    window[n - 1] := first;
  }

  /**
   * The decoding loop for one sample: exactly `steps` predictor calls, no early stop, with the
   * window initialised to the padded input and updated in place after every call.
   */
  method GreedyDecode(predict: Predictor, inputIds: seq<int>, maxSeqLength: nat, steps: nat)
    returns (predicted: seq<int>)
    requires maxSeqLength > 0
    ensures predicted == Predictions(predict, Pad(inputIds, maxSeqLength), steps)
  {
    var padded := Pad(inputIds, maxSeqLength);
    var window := new int[maxSeqLength](k requires 0 <= k < maxSeqLength => padded[k]);
    predicted := [];
    for i := 0 to steps
      invariant window[..] == WindowAfter(predict, padded, i)
      invariant predicted == Predictions(predict, padded, i)
    {
      var scores := predict(window[..]);
      var id := Argmax(scores);
      predicted := predicted + [id];
      if window.Length < maxSeqLength {
        // The append branch (lines 126-127) is unreachable: the padded window is already full.
        assert false;
      }
      RollLeft(window);
      window[window.Length - 1] := id;
    }
  }
}
