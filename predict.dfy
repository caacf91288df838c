/** `predict_lotto_numbers`: the autoregressive loop that asks the trained network for one
    row per game, clamps it, turns it into a game, and slides the input window forward. */
module Predict {
  import opened Wrappers
  import opened Seqs
  import opened Fill

  /** Rows of history the window holds at most (`scaled_data[-60:]`). */
  const WindowSize := 60
  /** Games produced per request (`range(5)`). */
  const GameCount := 5

  /** One row of the network's input window. The window starts out holding rows of the
      min-max scaled history; each slide appends the clamped, de-normalised prediction,
      which is on the integer scale of the draws and not on the scaled one. */
  datatype Row = Scaled(features: seq<real>) | Denormalised(numbers: seq<int>)

  function Abs(x: int): nat {
    if x < 0 then -x else x
  }

  /** `np.clip(x, 1, 45)` on one integer: the number in [1,45] nearest to `x`. */
  function Clip(x: int): (r: int)
    ensures InRange(r)
    ensures InRange(x) ==> r == x
    ensures forall y :: InRange(y) ==> Abs(r - x) <= Abs(y - x)
  {
    if x < Lowest then Lowest else if x > Highest then Highest else x
  }

  /** `np.clip` on a predicted row, component by component. */
  function ClipRow(row: seq<int>): (r: seq<int>)
    ensures |r| == |row|
    ensures forall i :: 0 <= i < |r| ==> InRange(r[i])
    ensures forall i :: 0 <= i < |r| && InRange(row[i]) ==> r[i] == row[i]
    ensures forall i :: 0 <= i < |r| && row[i] < Lowest ==> r[i] == Lowest
    ensures forall i :: 0 <= i < |r| && row[i] > Highest ==> r[i] == Highest
  {
    seq(|row|, i requires 0 <= i < |row| => Clip(row[i]))
  }

  /** `scaled_data[-60:]`: the last rows of the scaled history, at most sixty of them, in order. */
  function InitialWindow(scaled: seq<seq<real>>): (w: seq<Row>)
    ensures |w| == Min(WindowSize, |scaled|)
    ensures forall i :: 0 <= i < |w| ==> w[i] == Scaled(scaled[|scaled| - |w| + i])
  {
    var start := |scaled| - Min(WindowSize, |scaled|);
    seq(|scaled| - start, i requires 0 <= i < |scaled| - start => Scaled(scaled[start + i]))
  }

  /** The concatenation at line 55: drop the oldest row (`x_test[:, 1:, :]`, which is empty
      for an empty window) and append `row` as the newest. */
  function Slide(w: seq<Row>, row: Row): (r: seq<Row>)
    ensures |r| == if |w| == 0 then 1 else |w|
    ensures forall i :: 0 <= i < |r| - 1 ==> r[i] == w[i + 1]
    ensures r[|r| - 1] == row
  {
    (if |w| == 0 then [] else w[1..]) + [row]
  }

  /** The window the network sees for game `k`, given the first window and the predictor
      `infer` (the network, the inverse scaling and the rounding together). */
  function WindowAt(w0: seq<Row>, infer: seq<Row> -> seq<int>, k: nat): seq<Row>
  {
    if k == 0 then w0
    else
      var w := WindowAt(w0, infer, k - 1);
      Slide(w, Denormalised(ClipRow(infer(w))))
  }

  /** The clamped prediction for game `k`: what becomes both the game and the newest row. */
  function PredictionAt(w0: seq<Row>, infer: seq<Row> -> seq<int>, k: nat): seq<int>
  {
    ClipRow(infer(WindowAt(w0, infer, k)))
  }

  /** Sliding keeps a non-empty window at its length. */
  lemma {:induction false} WindowLength(w0: seq<Row>, infer: seq<Row> -> seq<int>, k: nat)
    requires |w0| > 0
    ensures |WindowAt(w0, infer, k)| == |w0|
  {
    if k > 0 {
      WindowLength(w0, infer, k - 1);
    }
  }

  /** After `k` slides the rows of the first window that are left have moved `k` places
      towards the front, unchanged. */
  lemma {:induction false} WindowShift(w0: seq<Row>, infer: seq<Row> -> seq<int>, k: nat)
    requires k <= |w0|
    ensures |WindowAt(w0, infer, k)| == |w0|
    ensures forall i :: 0 <= i < |w0| - k ==> WindowAt(w0, infer, k)[i] == w0[i + k]
  {
    if k > 0 {
      WindowShift(w0, infer, k - 1);
      var w := WindowAt(w0, infer, k - 1);
      var r := WindowAt(w0, infer, k);
      SlideStep(w0, infer, k);
      forall i | 0 <= i < |w0| - k ensures r[i] == w0[i + k] {
        assert r[i] == w[i + 1];
      }
    }
  }

  /** After a slide, the newest row is the clamped prediction of the previous game. */
  lemma NewestRow(w0: seq<Row>, infer: seq<Row> -> seq<int>, k: nat)
    requires 0 < k && 0 < |w0|
    ensures |WindowAt(w0, infer, k)| == |w0|
    ensures WindowAt(w0, infer, k)[|w0| - 1] == Denormalised(PredictionAt(w0, infer, k - 1))
  {
    WindowLength(w0, infer, k - 1);
    SlideStep(w0, infer, k);
  }

  /** Window `k` is window `k - 1` slid by the clamped prediction for game `k - 1`. */
  lemma SlideStep(w0: seq<Row>, infer: seq<Row> -> seq<int>, k: nat)
    requires k > 0
    ensures WindowAt(w0, infer, k) == Slide(WindowAt(w0, infer, k - 1), Denormalised(PredictionAt(w0, infer, k - 1)))
  {
  }

  /** Once the first window has been pushed out entirely, every row is a de-normalised
      prediction: row `i` of window `k` is the prediction for game `k - |w0| + i`. */
  lemma {:induction false} WindowOfPredictions(w0: seq<Row>, infer: seq<Row> -> seq<int>, k: nat)
    requires 0 < |w0| <= k
    ensures |WindowAt(w0, infer, k)| == |w0|
    ensures forall i :: 0 <= i < |w0| ==>
      WindowAt(w0, infer, k)[i] == Denormalised(PredictionAt(w0, infer, k - |w0| + i))
  {
    if k == |w0| {
      WindowOfFirstPredictions(w0, infer);
    } else {
      WindowOfPredictions(w0, infer, k - 1);
      var w := WindowAt(w0, infer, k - 1);
      var r := WindowAt(w0, infer, k);
      SlideStep(w0, infer, k);
      forall i | 0 <= i < |w0|
        ensures r[i] == Denormalised(PredictionAt(w0, infer, k - |w0| + i))
      {
        if i < |w0| - 1 {
          assert r[i] == w[i + 1];
        }
      }
    }
  }

  /** After `|w0|` slides, row `i` is the prediction for game `i`. */
  lemma WindowOfFirstPredictions(w0: seq<Row>, infer: seq<Row> -> seq<int>)
    requires 0 < |w0|
    ensures |WindowAt(w0, infer, |w0|)| == |w0|
    ensures forall i :: 0 <= i < |w0| ==>
      WindowAt(w0, infer, |w0|)[i] == Denormalised(PredictionAt(w0, infer, i))
  {
    WindowLength(w0, infer, |w0|);
    forall i | 0 <= i < |w0|
      ensures WindowAt(w0, infer, |w0|)[i] == Denormalised(PredictionAt(w0, infer, i))
    {
      PredictionsAtBack(w0, infer, |w0|, i);
    }
  }

  /** For `k <= |w0|`, the newest `k` rows of window `k` are the predictions of games 0 to k-1. */
  lemma {:induction false} PredictionsAtBack(w0: seq<Row>, infer: seq<Row> -> seq<int>, k: nat, i: nat)
    requires k <= |w0| && |w0| - k <= i < |w0|
    ensures |WindowAt(w0, infer, k)| == |w0|
    ensures WindowAt(w0, infer, k)[i] == Denormalised(PredictionAt(w0, infer, k - |w0| + i))
  {
    WindowLength(w0, infer, k);
    if i == |w0| - 1 {
      NewestRow(w0, infer, k);
    } else {
      PredictionsAtBack(w0, infer, k - 1, i + 1);
      SlideStep(w0, infer, k);
      assert WindowAt(w0, infer, k)[i] == WindowAt(w0, infer, k - 1)[i + 1];
    }
  }

  /** The five games for `history`. `scaler` stands for the fitted `MinMaxScaler`'s
      `fit_transform`; `infer` for `model.predict` followed by `inverse_transform` and
      `np.around`. An empty history makes `fit_transform` raise, modelled as `None`. */
  method PredictLottoNumbers(history: seq<seq<int>>, scaler: seq<seq<int>> -> seq<seq<real>>,
                             infer: seq<Row> -> seq<int>)
    returns (result: Option<seq<seq<int>>>)
    requires |scaler(history)| == |history|
    ensures result.None? <==> |history| == 0
    ensures result.Some? ==> |result.value| == GameCount
    ensures result.Some? ==> forall k :: 0 <= k < GameCount ==>
      IsFillOf(PredictionAt(InitialWindow(scaler(history)), infer, k), result.value[k])
    ensures result.Some? ==> forall k ::
      (0 <= k < GameCount && |infer(WindowAt(InitialWindow(scaler(history)), infer, k))| == GameSize) ==>
      (&& |result.value[k]| == GameSize
       && StrictlyAscending(result.value[k])
       && forall i :: 0 <= i < GameSize ==> InRange(result.value[k][i]))
  {
    if |history| == 0 {
      return None;
    }
    var scaled := scaler(history);
    ghost var w0 := InitialWindow(scaled);
    var window := InitialWindow(scaled);
    var games: seq<seq<int>> := [];
    for game := 0 to GameCount
      invariant window == WindowAt(w0, infer, game)
      invariant |games| == game
      invariant forall k :: 0 <= k < game ==> IsFillOf(PredictionAt(w0, infer, k), games[k])
    {
      var predicted := ClipRow(infer(window));
      var unique := RemoveDuplicatesAndFill(predicted);
      games := games + [unique];
      window := Slide(window, Denormalised(predicted));
    }
    forall k | 0 <= k < GameCount && |infer(WindowAt(w0, infer, k))| == GameSize
      ensures |games[k]| == GameSize && StrictlyAscending(games[k])
      ensures forall i :: 0 <= i < GameSize ==> InRange(games[k][i])
    {
      GameIsValid(w0, infer, k, games[k]);
    }
    return Some(games);
  }

  /** Every game of a prediction (six components per predicted row) is six distinct numbers
      in [1,45], sorted ascending. */
  lemma GameIsValid(w0: seq<Row>, infer: seq<Row> -> seq<int>, k: nat, game: seq<int>)
    requires |infer(WindowAt(w0, infer, k))| == GameSize
    requires IsFillOf(PredictionAt(w0, infer, k), game)
    ensures |game| == GameSize
    ensures StrictlyAscending(game)
    ensures forall i :: 0 <= i < |game| ==> InRange(game[i])
  {
    FillOfShortRow(PredictionAt(w0, infer, k), game);
    FillInRange(PredictionAt(w0, infer, k), game);
  }

  /** The window of every game holds `min(60, n)` rows for a scaled history of `n > 0` rows
      (one per history row). */
  lemma WindowSizeKept(scaled: seq<seq<real>>, infer: seq<Row> -> seq<int>, k: nat)
    requires |scaled| > 0
    ensures |WindowAt(InitialWindow(scaled), infer, k)| == Min(WindowSize, |scaled|)
  {
    WindowLength(InitialWindow(scaled), infer, k);
  }
}
