/** Backward-looking accuracy of the forecasts: `evaluate_predictions`. */
module Evaluation {
  import opened Optional
  import opened Frames
  import opened Masks

  /** A retained (predicted, actual) pair, both present. */
  datatype Pair = Pair(predicted: real, actual: real)

  /** One row of the metrics table. */
  datatype Metrics = Metrics(stock: string, mae: real, mse: real, rmse: real, mape: real, accuracy: real)

  // ---------------------------------------------------------------------------
  // Alignment: shift, mask, select
  // ---------------------------------------------------------------------------

  /** `s.shift(-h)`: position i holds the cell h rows later; the last h
      positions are missing. */
  function ShiftBack(s: Column, h: nat): (r: Column)
    ensures |r| == |s|
  {
    seq(|s|, i requires 0 <= i < |s| => if i + h < |s| then s[i + h] else None)
  }

  /** `~predicted.isna() & ~actual.isna()`. */
  function ValidMask(predicted: Column, actual: Column): (r: seq<bool>)
    requires |predicted| == |actual|
    ensures |r| == |predicted|
  {
    seq(|predicted|, i requires 0 <= i < |predicted| => predicted[i].Some? && actual[i].Some?)
  }

  /** Row positions that survive the mask, in ascending order. */
  function AlignedPositions(predicted: Column, actual: Column, h: nat): (r: seq<nat>)
    requires |predicted| == |actual|
    ensures forall k, l :: 0 <= k < l < |r| ==> r[k] < r[l]
    ensures forall k :: 0 <= k < |r| ==>
      r[k] + h < |actual| && predicted[r[k]].Some? && actual[r[k] + h].Some?
  {
    Keep(ValidMask(predicted, ShiftBack(actual, h)))
  }

  /** `predicted[valid_idx]` paired with the shifted `actual[valid_idx]`. */
  function AlignedPairs(predicted: Column, actual: Column, h: nat): (r: seq<Pair>)
    requires |predicted| == |actual|
    ensures |r| == |AlignedPositions(predicted, actual, h)|
  {
    var shifted := ShiftBack(actual, h);
    var idx := AlignedPositions(predicted, actual, h);
    seq(|idx|, k requires 0 <= k < |idx| => Pair(predicted[idx[k]].value, shifted[idx[k]].value))
  }

  /** Every retained pair is (predicted[i], actual[i + h]) with both present,
      in ascending order of i, and every such i is retained. */
  lemma Alignment(predicted: Column, actual: Column, h: nat)
    requires |predicted| == |actual|
    ensures var idx, r := AlignedPositions(predicted, actual, h), AlignedPairs(predicted, actual, h);
      && (forall k, l :: 0 <= k < l < |idx| ==> idx[k] < idx[l])
      && (forall k :: 0 <= k < |idx| ==>
            && idx[k] + h < |actual|
            && predicted[idx[k]] == Some(r[k].predicted)
            && actual[idx[k] + h] == Some(r[k].actual))
      && (forall i :: 0 <= i < |predicted| && i + h < |actual| && predicted[i].Some? && actual[i + h].Some? ==> i in idx)
  {
    var shifted := ShiftBack(actual, h);
    var idx := AlignedPositions(predicted, actual, h);
    forall i | 0 <= i < |predicted| && i + h < |actual| && predicted[i].Some? && actual[i + h].Some?
      ensures i in idx
    {
      assert ValidMask(predicted, shifted)[i];
      KeepComplete(ValidMask(predicted, shifted), i);
    }
  }

  /** At most len - h pairs survive: a table of at most h rows yields none. */
  lemma PairCountBound(predicted: Column, actual: Column, h: nat)
    requires |predicted| == |actual|
    ensures |AlignedPairs(predicted, actual, h)| <= if h <= |actual| then |actual| - h else 0
  {
    Alignment(predicted, actual, h);
    var idx := AlignedPositions(predicted, actual, h);
    IncreasingBelow(idx, if h <= |actual| then |actual| - h else 0);
  }

  // ---------------------------------------------------------------------------
  // Metric definitions
  // ---------------------------------------------------------------------------

  function Abs(x: real): (r: real)
    ensures 0.0 <= r && (r == x || r == -x)
  {
    if x < 0.0 then -x else x
  }

  function Sum(xs: seq<real>): real
    decreases |xs|
  {
    if xs == [] then 0.0 else Sum(xs[..|xs| - 1]) + xs[|xs| - 1]
  }

  function Mean(xs: seq<real>): real
    requires |xs| > 0
  {
    Sum(xs) / (|xs| as real)
  }

  /** A sum of non-negative terms is non-negative, and zero exactly when
      every term is zero. */
  lemma {:induction false} SumOfNonNegative(xs: seq<real>)
    requires forall k :: 0 <= k < |xs| ==> 0.0 <= xs[k]
    ensures 0.0 <= Sum(xs)
    ensures Sum(xs) == 0.0 <==> forall k :: 0 <= k < |xs| ==> xs[k] == 0.0
    decreases |xs|
  {
    if xs != [] {
      var init := xs[..|xs| - 1];
      SumOfNonNegative(init);
      if Sum(xs) == 0.0 {
        forall k | 0 <= k < |xs| ensures xs[k] == 0.0 {
          if k < |xs| - 1 {
            assert xs[k] == init[k];
          }
        }
      }
      if forall k :: 0 <= k < |xs| ==> xs[k] == 0.0 {
        assert forall k :: 0 <= k < |init| ==> init[k] == xs[k];
      }
    }
  }

  /** The mean of non-negative terms is non-negative, and zero exactly when
      every term is zero. */
  lemma MeanOfNonNegative(xs: seq<real>)
    requires |xs| > 0
    requires forall k :: 0 <= k < |xs| ==> 0.0 <= xs[k]
    ensures 0.0 <= Mean(xs)
    ensures Mean(xs) == 0.0 <==> forall k :: 0 <= k < |xs| ==> xs[k] == 0.0
  {
    SumOfNonNegative(xs);
  }

  /** |actual - predicted| per pair (sklearn's mean_absolute_error terms). */
  function AbsoluteErrors(ps: seq<Pair>): (r: seq<real>)
    ensures |r| == |ps|
  {
    seq(|ps|, k requires 0 <= k < |ps| => Abs(ps[k].actual - ps[k].predicted))
  }

  /** (actual - predicted)² per pair (sklearn's mean_squared_error terms). */
  function SquaredErrors(ps: seq<Pair>): (r: seq<real>)
    ensures |r| == |ps|
  {
    seq(|ps|, k requires 0 <= k < |ps| => (ps[k].actual - ps[k].predicted) * (ps[k].actual - ps[k].predicted))
  }

  /** Every retained actual can be divided by. */
  predicate ActualsNonZero(ps: seq<Pair>) {
    forall k :: 0 <= k < |ps| ==> ps[k].actual != 0.0
  }

  /** |(actual - predicted) / actual| per pair. */
  function AbsolutePercentageErrors(ps: seq<Pair>): (r: seq<real>)
    requires ActualsNonZero(ps)
    ensures |r| == |ps|
  {
    seq(|ps|, k requires 0 <= k < |ps| => Abs((ps[k].actual - ps[k].predicted) / ps[k].actual))
  }

  /** Every retained prediction equals its actual. */
  predicate Exact(ps: seq<Pair>) {
    forall k :: 0 <= k < |ps| ==> ps[k].predicted == ps[k].actual
  }

  /** The contract of `x ** 0.5` on non-negative reals. */
  ghost predicate IsSquareRoot(sqrt: real -> real) {
    forall x :: 0.0 <= x ==> 0.0 <= sqrt(x) && sqrt(x) * sqrt(x) == x
  }

  /** MAE: never negative, and zero exactly when every prediction is exact. */
  function MeanAbsoluteError(ps: seq<Pair>): (r: real)
    requires |ps| > 0
    ensures 0.0 <= r
    ensures r == 0.0 <==> Exact(ps)
  {
    MeanOfNonNegative(AbsoluteErrors(ps));
    AbsoluteErrorsZero(ps);
    Mean(AbsoluteErrors(ps))
  }

  /** MSE: never negative, and zero when every prediction is exact. */
  function MeanSquaredError(ps: seq<Pair>): (r: real)
    requires |ps| > 0
    ensures 0.0 <= r
    ensures Exact(ps) ==> r == 0.0
  {
    MeanOfNonNegative(SquaredErrors(ps));
    if Exact(ps) then SquaredErrorsZero(ps); Mean(SquaredErrors(ps))
    else Mean(SquaredErrors(ps))
  }

  /** MAPE in percent: never negative, and zero exactly when every
      prediction is exact. */
  function MeanAbsolutePercentageError(ps: seq<Pair>): (r: real)
    requires |ps| > 0 && ActualsNonZero(ps)
    ensures 0.0 <= r
    ensures r == 0.0 <==> Exact(ps)
  {
    MeanOfNonNegative(AbsolutePercentageErrors(ps));
    PercentageErrorsZero(ps);
    Mean(AbsolutePercentageErrors(ps)) * 100.0
  }

  /** The metrics row of one instrument over its retained pairs. */
  function MetricsOf(stock: string, ps: seq<Pair>, sqrt: real -> real): (m: Metrics)
    requires |ps| > 0 && ActualsNonZero(ps) && IsSquareRoot(sqrt)
    ensures m.stock == stock
    ensures m.mae == MeanAbsoluteError(ps) && m.mse == MeanSquaredError(ps)
    ensures 0.0 <= m.rmse && m.rmse * m.rmse == m.mse
    ensures m.mape == MeanAbsolutePercentageError(ps) && m.accuracy == 100.0 - m.mape
  {
    var mse := MeanSquaredError(ps);
    MeanOfNonNegative(SquaredErrors(ps));
    var mape := MeanAbsolutePercentageError(ps);
    Metrics(stock, MeanAbsoluteError(ps), mse, sqrt(mse), mape, 100.0 - mape)
  }

  /** All five metrics are non-negative except Accuracy, which is 100 - MAPE
      and is not clamped: it is negative exactly when MAPE exceeds 100. */
  lemma MetricsBounds(stock: string, ps: seq<Pair>, sqrt: real -> real)
    requires |ps| > 0 && ActualsNonZero(ps) && IsSquareRoot(sqrt)
    ensures var m := MetricsOf(stock, ps, sqrt);
      && 0.0 <= m.mae && 0.0 <= m.mse && 0.0 <= m.rmse && 0.0 <= m.mape
      && m.rmse * m.rmse == m.mse
      && m.accuracy <= 100.0
      && (m.accuracy < 0.0 <==> m.mape > 100.0)
  {
    MeanOfNonNegative(AbsoluteErrors(ps));
    MeanOfNonNegative(SquaredErrors(ps));
    MeanOfNonNegative(AbsolutePercentageErrors(ps));
  }

  /** A quotient by a non-zero divisor is zero exactly when the dividend is. */
  lemma QuotientZero(d: real, a: real)
    requires a != 0.0
    ensures d / a == 0.0 <==> d == 0.0
  {
    if d / a == 0.0 {
      assert d == (d / a) * a;
    }
  }

  /** The absolute errors are all zero exactly when the pairs are exact. */
  lemma AbsoluteErrorsZero(ps: seq<Pair>)
    ensures (forall k :: 0 <= k < |ps| ==> AbsoluteErrors(ps)[k] == 0.0) <==> Exact(ps)
  {
    var abs := AbsoluteErrors(ps);
    forall k | 0 <= k < |ps| ensures abs[k] == 0.0 <==> ps[k].predicted == ps[k].actual {
    }
  }

  /** The squared errors are all zero when the pairs are exact. */
  lemma SquaredErrorsZero(ps: seq<Pair>)
    requires Exact(ps)
    ensures forall k :: 0 <= k < |ps| ==> SquaredErrors(ps)[k] == 0.0
  {
  }

  /** The percentage errors are all zero exactly when the pairs are exact. */
  lemma PercentageErrorsZero(ps: seq<Pair>)
    requires ActualsNonZero(ps)
    ensures (forall k :: 0 <= k < |ps| ==> AbsolutePercentageErrors(ps)[k] == 0.0) <==> Exact(ps)
  {
    var pct := AbsolutePercentageErrors(ps);
    forall k | 0 <= k < |ps| ensures pct[k] == 0.0 <==> ps[k].predicted == ps[k].actual {
      QuotientZero(ps[k].actual - ps[k].predicted, ps[k].actual);
    }
  }

  /** MAE and MAPE are zero exactly when every retained prediction equals
      its actual, so Accuracy is 100 exactly then; MSE is zero then too. */
  lemma MetricsZeroIffExact(stock: string, ps: seq<Pair>, sqrt: real -> real)
    requires |ps| > 0 && ActualsNonZero(ps) && IsSquareRoot(sqrt)
    ensures var m := MetricsOf(stock, ps, sqrt);
      && (m.mae == 0.0 <==> Exact(ps))
      && (m.mape == 0.0 <==> Exact(ps))
      && (m.accuracy == 100.0 <==> Exact(ps))
      && (Exact(ps) ==> m.mse == 0.0)
  {
    MeanOfNonNegative(AbsoluteErrors(ps));
    AbsoluteErrorsZero(ps);
    MeanOfNonNegative(AbsolutePercentageErrors(ps));
    PercentageErrorsZero(ps);
    MeanOfNonNegative(SquaredErrors(ps));
    if Exact(ps) {
      SquaredErrorsZero(ps);
    }
  }

  // ---------------------------------------------------------------------------
  // Per column and per table
  // ---------------------------------------------------------------------------

  /** Both `<col>_Predicted` and `<col>_Actual` exist. */
  predicate HasColumns(data: Frame, col: string) {
    PredictedName(col) in data.columns && ActualName(col) in data.columns
  }

  /** The retained pairs of instrument `col`. */
  function ColumnPairs(data: Frame, col: string, h: nat): seq<Pair>
    requires data.WellFormed() && HasColumns(data, col)
  {
    AlignedPairs(data.columns[PredictedName(col)], data.columns[ActualName(col)], h)
  }

  /** The instrument gets a metrics row: both columns exist and at least one
      pair survives. */
  predicate Reportable(data: Frame, col: string, h: nat)
    requires data.WellFormed()
  {
    HasColumns(data, col) && |ColumnPairs(data, col, h)| > 0
  }

  /** MAPE of instrument `col` involves no division by zero. */
  predicate MapeDefined(data: Frame, col: string, h: nat)
    requires data.WellFormed()
  {
    HasColumns(data, col) ==> ActualsNonZero(ColumnPairs(data, col, h))
  }

  predicate AllMapeDefined(data: Frame, targets: seq<string>, h: nat)
    requires data.WellFormed()
  {
    forall j :: 0 <= j < |targets| ==> MapeDefined(data, targets[j], h)
  }

  /** Which targets get a metrics row. */
  function ReportMask(data: Frame, targets: seq<string>, h: nat): (r: seq<bool>)
    requires data.WellFormed()
    ensures |r| == |targets|
  {
    seq(|targets|, j requires 0 <= j < |targets| => Reportable(data, targets[j], h))
  }

  /** The metrics table: one row per reportable target, in target order. */
  function Evaluated(data: Frame, targets: seq<string>, h: nat, sqrt: real -> real): (r: seq<Metrics>)
    requires data.WellFormed() && IsSquareRoot(sqrt) && AllMapeDefined(data, targets, h)
    ensures |r| <= |targets|
    ensures forall k :: 0 <= k < |r| ==> r[k].stock in targets && Reportable(data, r[k].stock, h)
  {
    var origin := Keep(ReportMask(data, targets, h));
    seq(|origin|, k requires 0 <= k < |origin| =>
      MetricsOf(targets[origin[k]], ColumnPairs(data, targets[origin[k]], h), sqrt))
  }

  /** Row k of the metrics table belongs to target origin[k]; origin is
      strictly increasing (target order, at most one row per target entry),
      each row was computed over at least one pair, and every reportable
      target has a row. */
  lemma EvaluatedRows(data: Frame, targets: seq<string>, h: nat, sqrt: real -> real)
    requires data.WellFormed() && IsSquareRoot(sqrt) && AllMapeDefined(data, targets, h)
    ensures var r, origin := Evaluated(data, targets, h, sqrt), Keep(ReportMask(data, targets, h));
      && |r| == |origin| <= |targets|
      && (forall k, l :: 0 <= k < l < |origin| ==> origin[k] < origin[l])
      && (forall k :: 0 <= k < |r| ==>
            && origin[k] < |targets|
            && r[k].stock == targets[origin[k]]
            && HasColumns(data, targets[origin[k]])
            && |ColumnPairs(data, targets[origin[k]], h)| >= 1
            && r[k] == MetricsOf(targets[origin[k]], ColumnPairs(data, targets[origin[k]], h), sqrt))
      && (forall j :: 0 <= j < |targets| && Reportable(data, targets[j], h) ==> j in origin)
  {
    var mask := ReportMask(data, targets, h);
    forall j | 0 <= j < |targets| && Reportable(data, targets[j], h) ensures j in Keep(mask) {
      assert mask[j];
      KeepComplete(mask, j);
    }
  }

  /** An instrument missing either column gets no metrics row. */
  lemma MissingColumnSkipped(data: Frame, targets: seq<string>, h: nat, sqrt: real -> real, col: string)
    requires data.WellFormed() && IsSquareRoot(sqrt) && AllMapeDefined(data, targets, h)
    requires PredictedName(col) !in data.columns || ActualName(col) !in data.columns
    ensures forall m :: m in Evaluated(data, targets, h, sqrt) ==> m.stock != col
  {
    EvaluatedRows(data, targets, h, sqrt);
  }

  /** A table with at most `h` rows yields an empty metrics table. */
  lemma ShortTableNoMetrics(data: Frame, targets: seq<string>, h: nat, sqrt: real -> real)
    requires data.WellFormed() && IsSquareRoot(sqrt) && AllMapeDefined(data, targets, h)
    requires data.height <= h
    ensures Evaluated(data, targets, h, sqrt) == []
  {
    var mask := ReportMask(data, targets, h);
    forall j | 0 <= j < |targets| ensures !mask[j] {
      var col := targets[j];
      if HasColumns(data, col) {
        PairCountBound(data.columns[PredictedName(col)], data.columns[ActualName(col)], h);
      }
    }
    KeepNone(mask);
  }

  /** Appending one target appends its flag to the mask. */
  lemma ReportMaskSnoc(data: Frame, pre: seq<string>, t: string, h: nat)
    requires data.WellFormed()
    ensures ReportMask(data, pre + [t], h) == ReportMask(data, pre, h) + [Reportable(data, t, h)]
  {
    var post := pre + [t];
    assert forall j :: 0 <= j < |pre| ==> post[j] == pre[j];
  }

  /** Row k of the metrics table is the metrics of target origin[k]. */
  lemma EvaluatedAt(data: Frame, targets: seq<string>, h: nat, sqrt: real -> real, k: nat)
    requires data.WellFormed() && IsSquareRoot(sqrt) && AllMapeDefined(data, targets, h)
    requires k < |Evaluated(data, targets, h, sqrt)|
    ensures var o := Keep(ReportMask(data, targets, h));
      && k < |o| && o[k] < |targets| && Reportable(data, targets[o[k]], h)
      && Evaluated(data, targets, h, sqrt)[k]
         == MetricsOf(targets[o[k]], ColumnPairs(data, targets[o[k]], h), sqrt)
  {
  }

  /** Appending one target appends at most its own metrics row. */
  lemma EvaluatedSnoc(data: Frame, pre: seq<string>, t: string, h: nat, sqrt: real -> real)
    requires data.WellFormed() && IsSquareRoot(sqrt) && AllMapeDefined(data, pre + [t], h)
    ensures AllMapeDefined(data, pre, h) && MapeDefined(data, t, h)
    ensures Evaluated(data, pre + [t], h, sqrt)
         == Evaluated(data, pre, h, sqrt)
            + (if Reportable(data, t, h) then [MetricsOf(t, ColumnPairs(data, t, h), sqrt)] else [])
  {
    var post := pre + [t];
    assert forall j :: 0 <= j < |pre| ==> post[j] == pre[j];
    assert post[|pre|] == t;
    var b := Reportable(data, t, h);
    ReportMaskSnoc(data, pre, t, h);
    KeepSnoc(ReportMask(data, pre, h), b);
    var o1, o2 := Keep(ReportMask(data, pre, h)), Keep(ReportMask(data, post, h));
    var e1, e2 := Evaluated(data, pre, h, sqrt), Evaluated(data, post, h, sqrt);
    var tail := if b then [MetricsOf(t, ColumnPairs(data, t, h), sqrt)] else [];
    assert o2 == o1 + (if b then [|pre|] else []);
    assert |e2| == |o2| == |o1| + |tail| == |e1| + |tail|;
    forall k | 0 <= k < |e2| ensures e2[k] == (e1 + tail)[k] {
      EvaluatedAt(data, post, h, sqrt, k);
      if k < |o1| {
        EvaluatedAt(data, pre, h, sqrt, k);
        var j := o1[k];
        assert o2[k] == j && post[j] == pre[j];
        assert e2[k] == e1[k] == (e1 + tail)[k];
      } else {
        assert b && o2[k] == |pre| && post[|pre|] == t;
        assert e2[k] == tail[0] == (e1 + tail)[k];
      }
    }
    assert e2 == e1 + tail;
  }

  /** Lines 23-57: walks the targets, skipping an instrument whose columns
      are missing or whose aligned pairs are all incomplete, and appends one
      metrics row for every other one. */
  method EvaluatePredictions(data: Frame, targets: seq<string>, h: nat, sqrt: real -> real)
    returns (metrics: seq<Metrics>)
    requires data.WellFormed() && IsSquareRoot(sqrt) && AllMapeDefined(data, targets, h)
    ensures metrics == Evaluated(data, targets, h, sqrt)
  {
    metrics := [];
    for i := 0 to |targets|
      invariant AllMapeDefined(data, targets[..i], h)
      invariant metrics == Evaluated(data, targets[..i], h, sqrt)
    {
      assert targets[..i + 1] == targets[..i] + [targets[i]];
      EvaluatedSnoc(data, targets[..i], targets[i], h, sqrt);
      var col := targets[i];
      var predictedCol, actualCol := PredictedName(col), ActualName(col);
      if predictedCol !in data.columns || actualCol !in data.columns {
        continue;
      }
      var pairs := AlignedPairs(data.columns[predictedCol], data.columns[actualCol], h);
      if |pairs| == 0 {
        continue;
      }
      metrics := metrics + [MetricsOf(col, pairs, sqrt)];
    }
    assert targets[..|targets|] == targets;
  }
}
