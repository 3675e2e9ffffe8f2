/** Forward-looking rise call from the last row: `analyze_rise_predictions`. */
module Rise {
  import opened Optional
  import opened Frames

  /** One row of the rise table. `predictedRise` and `riseProbability` are
      `None` (NaN) when either price of the last row is missing. */
  datatype RiseCall = RiseCall(
    stock: string,
    lastActual: Option<real>,
    predictedFuture: Option<real>,
    predictedRise: Option<bool>,
    riseProbability: Option<real>)

  /** The rise percentage of instrument `col` involves no division by zero:
      when both last-row prices are present, the actual one is non-zero. */
  predicate RiseDefined(data: Frame, col: string)
    requires data.WellFormed()
  {
    data.height > 0 ==>
      var actual, predicted := LastValue(data, ActualName(col)), LastValue(data, PredictedName(col));
      actual.Some? && predicted.Some? ==> actual.value != 0.0
  }

  predicate AllRiseDefined(data: Frame, targets: seq<string>)
    requires data.WellFormed()
  {
    forall j :: 0 <= j < |targets| ==> RiseDefined(data, targets[j])
  }

  /** The rise call of instrument `col`, from the last row only. */
  function RiseFor(data: Frame, col: string): (r: RiseCall)
    requires data.WellFormed() && data.height > 0 && RiseDefined(data, col)
    ensures r.stock == col
    ensures r.lastActual == LastValue(data, ActualName(col))
    ensures r.predictedFuture == LastValue(data, PredictedName(col))
    ensures r.predictedRise.Some? <==> r.lastActual.Some? && r.predictedFuture.Some?
    ensures r.riseProbability.Some? <==> r.predictedRise.Some?
  {
    var actual, predicted := LastValue(data, ActualName(col)), LastValue(data, PredictedName(col));
    if actual.Some? && predicted.Some? then
      RiseCall(col, actual, predicted,
               Some(predicted.value > actual.value),
               Some((predicted.value - actual.value) / actual.value * 100.0))
    else
      RiseCall(col, actual, predicted, None, None)
  }

  /** When both prices are known, the rise percentage is the signed change
      from the last actual price to the predicted one, relative to the former:
      predicted = actual * (1 + rise / 100). */
  lemma RiseIsRelativeChange(data: Frame, col: string)
    requires data.WellFormed() && data.height > 0 && RiseDefined(data, col)
    requires LastValue(data, ActualName(col)).Some? && LastValue(data, PredictedName(col)).Some?
    ensures var r, a, p := RiseFor(data, col), LastValue(data, ActualName(col)).value, LastValue(data, PredictedName(col)).value;
      && r.predictedRise == Some(p > a)
      && r.riseProbability.Some?
      && a + a * r.riseProbability.value / 100.0 == p
  {
  }

  /** With a positive last price, the percentage is positive exactly when
      the call is a rise, negative exactly when the prediction is below the
      last price, and zero exactly when the two prices are equal. */
  lemma RiseSignAgreesWithCall(data: Frame, col: string)
    requires data.WellFormed() && data.height > 0 && RiseDefined(data, col)
    requires LastValue(data, ActualName(col)).Some? && LastValue(data, ActualName(col)).value > 0.0
    requires LastValue(data, PredictedName(col)).Some?
    ensures var r, a, p := RiseFor(data, col), LastValue(data, ActualName(col)).value, LastValue(data, PredictedName(col)).value;
      && (r.riseProbability.value > 0.0 <==> r.predictedRise == Some(true))
      && (r.riseProbability.value < 0.0 <==> p < a)
      && (r.riseProbability.value == 0.0 <==> p == a)
  {
  }

  /** An unchanged prediction is no rise, with a percentage of exactly zero. */
  lemma NoChangeNoRise(data: Frame, col: string)
    requires data.WellFormed() && data.height > 0 && RiseDefined(data, col)
    requires LastValue(data, ActualName(col)).Some?
    requires LastValue(data, PredictedName(col)) == LastValue(data, ActualName(col))
    ensures RiseFor(data, col).predictedRise == Some(false)
    ensures RiseFor(data, col).riseProbability == Some(0.0)
  {
  }

  /** A missing price, or a missing column, leaves both the call and the
      percentage undefined rather than false or zero. */
  lemma MissingPriceUndefined(data: Frame, col: string)
    requires data.WellFormed() && data.height > 0 && RiseDefined(data, col)
    requires LastValue(data, ActualName(col)).None? || LastValue(data, PredictedName(col)).None?
    ensures RiseFor(data, col).predictedRise.None? && RiseFor(data, col).riseProbability.None?
  {
  }

  /** The rise table: one call per target, in target order. */
  function RiseTable(data: Frame, targets: seq<string>): (r: seq<RiseCall>)
    requires data.WellFormed() && data.height > 0 && AllRiseDefined(data, targets)
    ensures |r| == |targets|
  {
    seq(|targets|, k requires 0 <= k < |targets| => RiseFor(data, targets[k]))
  }

  /** Lines 67-86: reads the last row (which fails on an empty table) and
      emits one rise call per target, in target order. */
  method AnalyzeRisePredictions(data: Frame, targets: seq<string>) returns (calls: Option<seq<RiseCall>>)
    requires data.WellFormed() && AllRiseDefined(data, targets)
    ensures calls.None? <==> data.height == 0
    ensures calls.Some? ==> calls.value == RiseTable(data, targets)
  {
    if data.height == 0 {
      return None;
    }
    var results: seq<RiseCall> := [];
    for i := 0 to |targets|
      invariant |results| == i
      invariant forall k :: 0 <= k < i ==> results[k] == RiseFor(data, targets[k])
    {
      var col := targets[i];
      var lastActual := LastValue(data, ActualName(col));
      var predictedFuture := LastValue(data, PredictedName(col));
      var predictedRise: Option<bool>, riseProbability: Option<real>;
      if lastActual.Some? && predictedFuture.Some? {
        predictedRise := Some(predictedFuture.value > lastActual.value);
        riseProbability := Some((predictedFuture.value - lastActual.value) / lastActual.value * 100.0);
      } else {
        predictedRise, riseProbability := None, None;
      }
      results := results + [RiseCall(col, lastActual, predictedFuture, predictedRise, riseProbability)];
    }
    assert results == RiseTable(data, targets);
    return Some(results);
  }
}
