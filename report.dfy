/** The main block: evaluate, analyse the last row, combine. */
module Report {
  import opened Optional
  import opened Frames
  import opened Evaluation
  import opened Rise
  import opened Combine
  import opened Masks

  /** No instrument is listed twice. */
  predicate DistinctTargets(targets: seq<string>) {
    forall i, j :: 0 <= i < j < |targets| ==> targets[i] != targets[j]
  }

  /** Lines 99-117 as written: the final records, or `None` when the
      script stops with an error. `iloc[-1]` fails on a table without rows,
      and the merge on the `Stock` column fails when the metrics table is
      empty, because an empty metrics table has no columns at all. */
  function ReportOf(data: Frame, targets: seq<string>, h: nat, sqrt: real -> real): (r: Option<seq<Record>>)
    requires data.WellFormed() && IsSquareRoot(sqrt)
    requires AllMapeDefined(data, targets, h) && AllRiseDefined(data, targets)
    ensures r.Some? ==> r == IntendedReport(data, targets, h, sqrt)
    ensures IntendedReport(data, targets, h, sqrt).Some? && r.None? ==>
      forall m :: m !in Evaluated(data, targets, h, sqrt)
  {
    var ms := Evaluated(data, targets, h, sqrt);
    if data.height == 0 || ms == [] then None
    else Some(FinalRecords(ms, RiseTable(data, targets)))
  }

  /** The report as evidently intended: only a table without rows has no
      last row to analyse; an empty metrics table joins as a table without
      matches. */
  function IntendedReport(data: Frame, targets: seq<string>, h: nat, sqrt: real -> real): (r: Option<seq<Record>>)
    requires data.WellFormed() && IsSquareRoot(sqrt)
    requires AllMapeDefined(data, targets, h) && AllRiseDefined(data, targets)
    ensures r.None? <==> data.height == 0
    ensures r.Some? ==> SortedByRise(r.value)
  {
    if data.height == 0 then None
    else Some(FinalRecords(Evaluated(data, targets, h, sqrt), RiseTable(data, targets)))
  }

  /** Lines 99-117, with the instrument list, the horizon and the square
      root as parameters. */
  method BuildReport(data: Frame, targets: seq<string>, h: nat, sqrt: real -> real)
    returns (report: Option<seq<Record>>)
    requires data.WellFormed() && IsSquareRoot(sqrt)
    requires AllMapeDefined(data, targets, h) && AllRiseDefined(data, targets)
    ensures report == ReportOf(data, targets, h, sqrt)
  {
    var evaluation := EvaluatePredictions(data, targets, h, sqrt);
    var rise := AnalyzeRisePredictions(data, targets);
    if rise.None? || evaluation == [] {
      return None;
    }
    return Some(FinalRecords(evaluation, rise.value));
  }

  /** The script as written yields a report exactly when the table has rows
      and at least one target is reportable. */
  lemma ReportFails(data: Frame, targets: seq<string>, h: nat, sqrt: real -> real)
    requires data.WellFormed() && IsSquareRoot(sqrt)
    requires AllMapeDefined(data, targets, h) && AllRiseDefined(data, targets)
    ensures ReportOf(data, targets, h, sqrt).None? <==>
      data.height == 0 || forall j :: 0 <= j < |targets| ==> !Reportable(data, targets[j], h)
  {
    var ms := Evaluated(data, targets, h, sqrt);
    var origin := Keep(ReportMask(data, targets, h));
    EvaluatedRows(data, targets, h, sqrt);
    if ms != [] {
      assert Reportable(data, targets[origin[0]], h);
    }
  }

  /** A table with rows but no more than `h` of them: every target still has
      a rise call, yet the script as written produces no report. */
  lemma ShortTableNoReport(data: Frame, targets: seq<string>, h: nat, sqrt: real -> real)
    requires data.WellFormed() && IsSquareRoot(sqrt)
    requires AllMapeDefined(data, targets, h) && AllRiseDefined(data, targets)
    requires 0 < data.height <= h && targets != []
    ensures |RiseTable(data, targets)| == |targets| > 0
    ensures ReportOf(data, targets, h, sqrt).None?
    ensures IntendedReport(data, targets, h, sqrt).Some?
  {
    ShortTableNoMetrics(data, targets, h, sqrt);
  }

  /** With distinct targets the rise table has one call per target: its
      instruments are the targets, none repeats, and each call is the one of
      its instrument. */
  lemma RiseTableCalls(data: Frame, targets: seq<string>)
    requires data.WellFormed() && data.height > 0 && AllRiseDefined(data, targets)
    requires DistinctTargets(targets)
    ensures var cs := RiseTable(data, targets);
      && UniqueCalls(cs)
      && CallStocks(cs) == (set t | t in targets)
      && (forall c :: c in cs ==> RiseDefined(data, c.stock) && c == RiseFor(data, c.stock))
  {
    var cs := RiseTable(data, targets);
    forall t | t in targets ensures t in CallStocks(cs) {
      var k :| 0 <= k < |targets| && targets[k] == t;
      assert cs[k] in cs;
    }
    forall c | c in cs ensures RiseDefined(data, c.stock) && c == RiseFor(data, c.stock) {
      var k :| 0 <= k < |cs| && cs[k] == c;
    }
  }

  /** With distinct targets the metrics table repeats no instrument, holds
      only targets, holds every reportable target, and each row is the
      metrics of its instrument's aligned pairs. */
  lemma EvaluatedMetrics(data: Frame, targets: seq<string>, h: nat, sqrt: real -> real)
    requires data.WellFormed() && IsSquareRoot(sqrt) && AllMapeDefined(data, targets, h)
    requires DistinctTargets(targets)
    ensures var ms := Evaluated(data, targets, h, sqrt);
      && UniqueMetrics(ms)
      && MetricsStocks(ms) <= (set t | t in targets)
      && (forall t :: t in targets && Reportable(data, t, h) ==> t in MetricsStocks(ms))
      && (forall m :: m in ms ==>
            && Reportable(data, m.stock, h)
            && MapeDefined(data, m.stock, h)
            && m == MetricsOf(m.stock, ColumnPairs(data, m.stock, h), sqrt))
  {
    var ms := Evaluated(data, targets, h, sqrt);
    var origin := Keep(ReportMask(data, targets, h));
    EvaluatedRows(data, targets, h, sqrt);
    forall m | m in ms
      ensures m.stock in targets
      ensures Reportable(data, m.stock, h) && MapeDefined(data, m.stock, h)
      ensures m == MetricsOf(m.stock, ColumnPairs(data, m.stock, h), sqrt)
    {
      var k :| 0 <= k < |ms| && ms[k] == m;
      assert targets[origin[k]] in targets;
    }
    forall t | t in targets && Reportable(data, t, h) ensures t in MetricsStocks(ms) {
      var j :| 0 <= j < |targets| && targets[j] == t;
      assert j in origin;
      var k :| 0 <= k < |origin| && origin[k] == j;
      assert ms[k] in ms;
    }
  }

  /** A record that is well joined against the two tables of distinct
      targets carries its instrument's rise call, and its metrics exactly
      when the instrument is reportable. */
  lemma RecordOfTarget(data: Frame, targets: seq<string>, h: nat, sqrt: real -> real, x: Record)
    requires data.WellFormed() && IsSquareRoot(sqrt) && data.height > 0
    requires AllMapeDefined(data, targets, h) && AllRiseDefined(data, targets)
    requires DistinctTargets(targets)
    requires WellJoined(x, Evaluated(data, targets, h, sqrt), RiseTable(data, targets))
    ensures RiseDefined(data, x.stock)
    ensures CarriesCall(x, RiseFor(data, x.stock))
    ensures Reportable(data, x.stock, h) ==>
              && MapeDefined(data, x.stock, h)
              && CarriesMetrics(x, MetricsOf(x.stock, ColumnPairs(data, x.stock, h), sqrt))
    ensures !Reportable(data, x.stock, h) ==> LacksMetrics(x)
  {
    var ms, cs := Evaluated(data, targets, h, sqrt), RiseTable(data, targets);
    RiseTableCalls(data, targets);
    EvaluatedMetrics(data, targets, h, sqrt);
    assert x.stock in CallStocks(cs);
    var c :| c in cs && c.stock == x.stock && CarriesCall(x, c);
    if x.stock in MetricsStocks(ms) {
      var m :| m in ms && m.stock == x.stock && CarriesMetrics(x, m);
    }
  }

  /** For a distinct instrument list and a non-empty table, the final report
      holds exactly one record per listed instrument, sorted by rise
      percentage with nulls last; each record carries the instrument's rise
      call, and its metrics when it is reportable and nulls otherwise. */
  lemma ReportPerTarget(data: Frame, targets: seq<string>, h: nat, sqrt: real -> real)
    requires data.WellFormed() && IsSquareRoot(sqrt) && data.height > 0
    requires AllMapeDefined(data, targets, h) && AllRiseDefined(data, targets)
    requires DistinctTargets(targets)
    ensures IntendedReport(data, targets, h, sqrt).Some?
    ensures var r := IntendedReport(data, targets, h, sqrt).value;
      && |r| == |targets|
      && RecordStocks(r) == (set t | t in targets)
      && UniqueRecords(r)
      && SortedByRise(r)
      && (forall x :: x in r ==>
            && RiseDefined(data, x.stock)
            && CarriesCall(x, RiseFor(data, x.stock))
            && (Reportable(data, x.stock, h) ==>
                  && MapeDefined(data, x.stock, h)
                  && CarriesMetrics(x, MetricsOf(x.stock, ColumnPairs(data, x.stock, h), sqrt)))
            && (!Reportable(data, x.stock, h) ==> LacksMetrics(x)))
  {
    var ms, cs := Evaluated(data, targets, h, sqrt), RiseTable(data, targets);
    var r := FinalRecords(ms, cs);
    RiseTableCalls(data, targets);
    EvaluatedMetrics(data, targets, h, sqrt);
    CombineRecords(ms, cs);
    UniqueCallsCount(cs);
    assert MetricsStocks(ms) + CallStocks(cs) == CallStocks(cs);
    forall x | x in r
      ensures RiseDefined(data, x.stock)
      ensures CarriesCall(x, RiseFor(data, x.stock))
      ensures Reportable(data, x.stock, h) ==>
                && MapeDefined(data, x.stock, h)
                && CarriesMetrics(x, MetricsOf(x.stock, ColumnPairs(data, x.stock, h), sqrt))
      ensures !Reportable(data, x.stock, h) ==> LacksMetrics(x)
    {
      RecordOfTarget(data, targets, h, sqrt, x);
    }
  }
}
