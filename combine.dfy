/** The final report: outer join of the metrics table and the rise table on
    `Stock`, sorted by rise percentage, projected to ten fields. */
module Combine {
  import opened Optional
  import opened Evaluation
  import opened Rise
  import opened Masks

  /** One record of the final report: exactly the ten fields of the column
      order, `None` standing for a null. */
  datatype Record = Record(
    stock: string,
    mae: Option<real>,
    mse: Option<real>,
    rmse: Option<real>,
    mape: Option<real>,
    accuracy: Option<real>,
    lastActual: Option<real>,
    predictedFuture: Option<real>,
    predictedRise: Option<bool>,
    riseProbability: Option<real>)

  /** A record joining a metrics row with a rise call of the same instrument. */
  function Joined(m: Metrics, c: RiseCall): Record {
    Record(m.stock, Some(m.mae), Some(m.mse), Some(m.rmse), Some(m.mape), Some(m.accuracy),
           c.lastActual, c.predictedFuture, c.predictedRise, c.riseProbability)
  }

  /** A metrics row with no rise call: the rise fields are null. */
  function MetricsOnly(m: Metrics): Record {
    Record(m.stock, Some(m.mae), Some(m.mse), Some(m.rmse), Some(m.mape), Some(m.accuracy),
           None, None, None, None)
  }

  /** A rise call with no metrics row: the metrics fields are null. */
  function CallOnly(c: RiseCall): Record {
    Record(c.stock, None, None, None, None, None,
           c.lastActual, c.predictedFuture, c.predictedRise, c.riseProbability)
  }

  /** The record carries the five metrics of `m`. */
  predicate CarriesMetrics(x: Record, m: Metrics) {
    x.mae == Some(m.mae) && x.mse == Some(m.mse) && x.rmse == Some(m.rmse)
    && x.mape == Some(m.mape) && x.accuracy == Some(m.accuracy)
  }

  /** The record's five metrics fields are null. */
  predicate LacksMetrics(x: Record) {
    x.mae.None? && x.mse.None? && x.rmse.None? && x.mape.None? && x.accuracy.None?
  }

  /** The record carries the four rise fields of `c`. */
  predicate CarriesCall(x: Record, c: RiseCall) {
    x.lastActual == c.lastActual && x.predictedFuture == c.predictedFuture
    && x.predictedRise == c.predictedRise && x.riseProbability == c.riseProbability
  }

  /** The record's four rise fields are null. */
  predicate LacksCall(x: Record) {
    x.lastActual.None? && x.predictedFuture.None? && x.predictedRise.None? && x.riseProbability.None?
  }

  function MetricsStocks(ms: seq<Metrics>): set<string> {
    set m | m in ms :: m.stock
  }

  function CallStocks(cs: seq<RiseCall>): set<string> {
    set c | c in cs :: c.stock
  }

  function RecordStocks(rs: seq<Record>): set<string> {
    set x | x in rs :: x.stock
  }

  /** No two entries share an instrument. */
  predicate UniqueMetrics(ms: seq<Metrics>) {
    forall i, j :: 0 <= i < j < |ms| ==> ms[i].stock != ms[j].stock
  }

  predicate UniqueCalls(cs: seq<RiseCall>) {
    forall i, j :: 0 <= i < j < |cs| ==> cs[i].stock != cs[j].stock
  }

  predicate UniqueRecords(rs: seq<Record>) {
    forall i, j :: 0 <= i < j < |rs| ==> rs[i].stock != rs[j].stock
  }

  // ---------------------------------------------------------------------------
  // Outer join
  // ---------------------------------------------------------------------------

  /** `m` joined with every rise call of its instrument. */
  function MatchesOf(m: Metrics, cs: seq<RiseCall>): (r: seq<Record>)
    ensures |r| <= |cs|
    ensures forall x :: x in r ==> x.stock == m.stock
    decreases |cs|
  {
    if cs == [] then []
    else
      var c := cs[|cs| - 1];
      MatchesOf(m, cs[..|cs| - 1]) + (if c.stock == m.stock then [Joined(m, c)] else [])
  }

  /** The rows of one metrics row: joined with each rise call of its
      instrument, or alone when there is none. */
  function RowsOf(m: Metrics, cs: seq<RiseCall>): (r: seq<Record>)
    ensures |r| >= 1
    ensures forall x :: x in r ==> x.stock == m.stock
  {
    if m.stock in CallStocks(cs) then MatchesOfNonEmpty(m, cs); MatchesOf(m, cs)
    else [MetricsOnly(m)]
  }

  /** The rows contributed by the metrics table. */
  function LeftRows(ms: seq<Metrics>, cs: seq<RiseCall>): (r: seq<Record>)
    ensures |ms| <= |r|
    decreases |ms|
  {
    if ms == [] then []
    else LeftRows(ms[..|ms| - 1], cs) + RowsOf(ms[|ms| - 1], cs)
  }

  /** The rise calls of instruments that have no metrics row. */
  function RightOnlyRows(ms: seq<Metrics>, cs: seq<RiseCall>): (r: seq<Record>)
    ensures |r| <= |cs|
    ensures forall x :: x in r ==> LacksMetrics(x) && x.stock !in MetricsStocks(ms)
    decreases |cs|
  {
    if cs == [] then []
    else
      var c := cs[|cs| - 1];
      RightOnlyRows(ms, cs[..|cs| - 1]) + (if c.stock in MetricsStocks(ms) then [] else [CallOnly(c)])
  }

  /** `pd.merge(metrics, rise, on='Stock', how='outer')`, up to row order. */
  function OuterJoin(ms: seq<Metrics>, cs: seq<RiseCall>): (r: seq<Record>)
    ensures |ms| <= |r|
  {
    LeftRows(ms, cs) + RightOnlyRows(ms, cs)
  }

  lemma RecordStocksConcat(a: seq<Record>, b: seq<Record>)
    ensures RecordStocks(a + b) == RecordStocks(a) + RecordStocks(b)
  {
    forall x ensures x in a + b <==> x in a || x in b {}
  }

  lemma CallStocksSnoc(cs: seq<RiseCall>)
    requires cs != []
    ensures CallStocks(cs) == CallStocks(cs[..|cs| - 1]) + {cs[|cs| - 1].stock}
  {
    assert forall c :: c in cs <==> c in cs[..|cs| - 1] || c == cs[|cs| - 1];
  }

  lemma MetricsStocksSnoc(ms: seq<Metrics>)
    requires ms != []
    ensures MetricsStocks(ms) == MetricsStocks(ms[..|ms| - 1]) + {ms[|ms| - 1].stock}
  {
    assert forall m :: m in ms <==> m in ms[..|ms| - 1] || m == ms[|ms| - 1];
  }

  /** The rows for `m` join it with rise calls of its own instrument. */
  lemma {:induction false} MatchesOfOrigin(m: Metrics, cs: seq<RiseCall>)
    ensures forall x :: x in MatchesOf(m, cs) ==>
      exists c :: c in cs && c.stock == m.stock && x == Joined(m, c)
    decreases |cs|
  {
    if cs != [] {
      var init := cs[..|cs| - 1];
      MatchesOfOrigin(m, init);
      forall x | x in MatchesOf(m, cs)
        ensures exists c :: c in cs && c.stock == m.stock && x == Joined(m, c)
      {
        if x in MatchesOf(m, init) {
          var c :| c in init && c.stock == m.stock && x == Joined(m, c);
          assert c in cs;
        }
      }
    }
  }

  /** Which rise calls share the instrument of `m`. */
  function SameStock(m: Metrics, cs: seq<RiseCall>): (r: seq<bool>)
    ensures |r| == |cs|
  {
    seq(|cs|, i requires 0 <= i < |cs| => cs[i].stock == m.stock)
  }

  /** The rows for `m` are `m` joined with every rise call of its
      instrument, one row per such call, in the order of the calls: a
      repeated instrument yields the product of the matches. */
  lemma {:induction false} MatchesOfSelects(m: Metrics, cs: seq<RiseCall>)
    ensures var idx := Keep(SameStock(m, cs));
      MatchesOf(m, cs) == seq(|idx|, k requires 0 <= k < |idx| => Joined(m, cs[idx[k]]))
    decreases |cs|
  {
    if cs != [] {
      var init, c := cs[..|cs| - 1], cs[|cs| - 1];
      MatchesOfSelects(m, init);
      assert SameStock(m, cs) == SameStock(m, init) + [c.stock == m.stock];
      KeepSnoc(SameStock(m, init), c.stock == m.stock);
      var idx0, idx := Keep(SameStock(m, init)), Keep(SameStock(m, cs));
      var rows0, rows := MatchesOf(m, init), MatchesOf(m, cs);
      var tail := if c.stock == m.stock then [Joined(m, c)] else [];
      assert rows == rows0 + tail;
      assert idx == idx0 + (if c.stock == m.stock then [|init|] else []);
      forall k | 0 <= k < |idx| ensures rows[k] == Joined(m, cs[idx[k]]) {
        if k < |idx0| {
          assert rows[k] == rows0[k] == Joined(m, init[idx0[k]]);
          assert cs[idx[k]] == init[idx0[k]];
        } else {
          assert rows[k] == Joined(m, c) && cs[idx[k]] == c;
        }
      }
    }
  }

  /** Every rise call of the instrument of `m` is joined with it. */
  lemma {:induction false} MatchesOfComplete(m: Metrics, cs: seq<RiseCall>)
    ensures forall c :: c in cs && c.stock == m.stock ==> Joined(m, c) in MatchesOf(m, cs)
    decreases |cs|
  {
    if cs != [] {
      var init := cs[..|cs| - 1];
      MatchesOfComplete(m, init);
      forall c | c in cs && c.stock == m.stock ensures Joined(m, c) in MatchesOf(m, cs) {
        if c != cs[|cs| - 1] {
          var i :| 0 <= i < |cs| && cs[i] == c;
          assert init[i] == c;
        }
      }
    }
  }

  /** There is a row for `m` exactly when its instrument has a rise call. */
  lemma {:induction false} MatchesOfNonEmpty(m: Metrics, cs: seq<RiseCall>)
    ensures |MatchesOf(m, cs)| >= 1 <==> m.stock in CallStocks(cs)
    decreases |cs|
  {
    if cs != [] {
      MatchesOfNonEmpty(m, cs[..|cs| - 1]);
      CallStocksSnoc(cs);
    }
  }

  /** With unique rise calls there is at most one row for `m`. */
  lemma {:induction false} MatchesOfAtMostOne(m: Metrics, cs: seq<RiseCall>)
    requires UniqueCalls(cs)
    ensures |MatchesOf(m, cs)| <= 1
    decreases |cs|
  {
    if cs != [] {
      var init, c := cs[..|cs| - 1], cs[|cs| - 1];
      assert UniqueCalls(init);
      MatchesOfAtMostOne(m, init);
      if c.stock == m.stock {
        assert m.stock !in CallStocks(init) by {
          forall c' | c' in init ensures c'.stock != m.stock {
            var i :| 0 <= i < |init| && init[i] == c';
            assert cs[i] == c';
          }
        }
        MatchesOfNonEmpty(m, init);
      }
    }
  }

  /** The rows of `m` all belong to its instrument; with unique rise calls
      there is exactly one. */
  lemma RowsOfStocks(m: Metrics, cs: seq<RiseCall>)
    ensures RecordStocks(RowsOf(m, cs)) == {m.stock}
    ensures UniqueCalls(cs) ==> |RowsOf(m, cs)| == 1
  {
    MatchesOfOrigin(m, cs);
    MatchesOfNonEmpty(m, cs);
    var rows := RowsOf(m, cs);
    forall x | x in rows ensures x.stock == m.stock {
      if m.stock in CallStocks(cs) {
        var c :| c in cs && c.stock == m.stock && x == Joined(m, c);
      }
    }
    assert rows[0] in rows;
    if UniqueCalls(cs) {
      MatchesOfAtMostOne(m, cs);
    }
  }

  /** Every left row carries the metrics of a metrics row of its instrument,
      and either a rise call of that instrument or null rise fields when
      there is none. */
  lemma {:induction false} LeftRowsOrigin(ms: seq<Metrics>, cs: seq<RiseCall>)
    ensures forall x :: x in LeftRows(ms, cs) ==>
      && (exists m :: m in ms && m.stock == x.stock && CarriesMetrics(x, m))
      && (x.stock in CallStocks(cs) ==> exists c :: c in cs && c.stock == x.stock && CarriesCall(x, c))
      && (x.stock !in CallStocks(cs) ==> LacksCall(x))
    decreases |ms|
  {
    if ms != [] {
      var init, m := ms[..|ms| - 1], ms[|ms| - 1];
      LeftRowsOrigin(init, cs);
      MatchesOfOrigin(m, cs);
      forall x | x in LeftRows(ms, cs)
        ensures exists m' :: m' in ms && m'.stock == x.stock && CarriesMetrics(x, m')
      {
        if x in LeftRows(init, cs) {
          var m' :| m' in init && m'.stock == x.stock && CarriesMetrics(x, m');
          assert m' in ms;
        } else {
          assert CarriesMetrics(x, m);
        }
      }
    }
  }

  /** Every instrument of the metrics table has a left row, and left rows
      belong to instruments of the metrics table only. */
  lemma {:induction false} LeftRowsStocks(ms: seq<Metrics>, cs: seq<RiseCall>)
    ensures RecordStocks(LeftRows(ms, cs)) == MetricsStocks(ms)
    decreases |ms|
  {
    if ms != [] {
      var init, m := ms[..|ms| - 1], ms[|ms| - 1];
      LeftRowsStocks(init, cs);
      MetricsStocksSnoc(ms);
      MatchesOfOrigin(m, cs);
      MatchesOfNonEmpty(m, cs);
      RowsOfStocks(m, cs);
      RecordStocksConcat(LeftRows(init, cs), RowsOf(m, cs));
    }
  }

  /** The right-only rows are the rise calls of instruments without a metrics
      row, one per such call. */
  lemma {:induction false} RightOnlyRowsStocks(ms: seq<Metrics>, cs: seq<RiseCall>)
    ensures forall x :: x in RightOnlyRows(ms, cs) ==>
      x.stock !in MetricsStocks(ms) && LacksMetrics(x)
      && exists c :: c in cs && c.stock == x.stock && CarriesCall(x, c)
    ensures RecordStocks(RightOnlyRows(ms, cs)) == CallStocks(cs) - MetricsStocks(ms)
    decreases |cs|
  {
    if cs != [] {
      var init, c := cs[..|cs| - 1], cs[|cs| - 1];
      RightOnlyRowsStocks(ms, init);
      CallStocksSnoc(cs);
      var tail := if c.stock in MetricsStocks(ms) then [] else [CallOnly(c)];
      assert RightOnlyRows(ms, cs) == RightOnlyRows(ms, init) + tail;
      forall x | x in RightOnlyRows(ms, cs)
        ensures exists c' :: c' in cs && c'.stock == x.stock && CarriesCall(x, c')
      {
        if x in RightOnlyRows(ms, init) {
          var c' :| c' in init && c'.stock == x.stock && CarriesCall(x, c');
          assert c' in cs;
        } else {
          assert CarriesCall(x, c);
        }
      }
      RecordStocksConcat(RightOnlyRows(ms, init), tail);
    }
  }

  /** Every record of the join is the record of an instrument of either
      table, carrying the fields of the side(s) that have it and nulls for a
      side that does not. */
  predicate WellJoined(x: Record, ms: seq<Metrics>, cs: seq<RiseCall>) {
    && x.stock in MetricsStocks(ms) + CallStocks(cs)
    && (x.stock in MetricsStocks(ms) ==> exists m :: m in ms && m.stock == x.stock && CarriesMetrics(x, m))
    && (x.stock !in MetricsStocks(ms) ==> LacksMetrics(x))
    && (x.stock in CallStocks(cs) ==> exists c :: c in cs && c.stock == x.stock && CarriesCall(x, c))
    && (x.stock !in CallStocks(cs) ==> LacksCall(x))
  }

  /** The outer join has exactly the instruments of the union of both
      tables, and every record is well joined. */
  lemma OuterJoinRows(ms: seq<Metrics>, cs: seq<RiseCall>)
    ensures RecordStocks(OuterJoin(ms, cs)) == MetricsStocks(ms) + CallStocks(cs)
    ensures forall x :: x in OuterJoin(ms, cs) ==> WellJoined(x, ms, cs)
  {
    LeftRowsOrigin(ms, cs);
    LeftRowsStocks(ms, cs);
    RightOnlyRowsStocks(ms, cs);
    var left, right := LeftRows(ms, cs), RightOnlyRows(ms, cs);
    RecordStocksConcat(left, right);
    forall x | x in left ensures WellJoined(x, ms, cs) {
      assert x.stock in RecordStocks(left);
    }
    forall x | x in right ensures WellJoined(x, ms, cs) {
      assert x.stock in RecordStocks(right);
    }
  }

  // ---------------------------------------------------------------------------
  // One record per instrument
  // ---------------------------------------------------------------------------

  lemma UniqueRecordsConcat(a: seq<Record>, b: seq<Record>)
    requires UniqueRecords(a) && UniqueRecords(b) && RecordStocks(a) !! RecordStocks(b)
    ensures UniqueRecords(a + b)
  {
    forall i, j | 0 <= i < j < |a + b| ensures (a + b)[i].stock != (a + b)[j].stock {
      if j < |a| {
        assert (a + b)[i] == a[i] && (a + b)[j] == a[j];
      } else if |a| <= i {
        assert (a + b)[i] == b[i - |a|] && (a + b)[j] == b[j - |a|];
      } else {
        assert (a + b)[i] == a[i] && (a + b)[j] == b[j - |a|];
        assert a[i] in a && b[j - |a|] in b;
        assert a[i].stock in RecordStocks(a) && b[j - |a|].stock in RecordStocks(b);
      }
    }
  }

  /** With unique inputs, the left rows hold one record per metrics row. */
  lemma {:induction false} LeftRowsUnique(ms: seq<Metrics>, cs: seq<RiseCall>)
    requires UniqueMetrics(ms) && UniqueCalls(cs)
    ensures UniqueRecords(LeftRows(ms, cs))
    decreases |ms|
  {
    if ms != [] {
      var init, m := ms[..|ms| - 1], ms[|ms| - 1];
      assert UniqueMetrics(init);
      LeftRowsUnique(init, cs);
      LeftRowsStocks(init, cs);
      RowsOfStocks(m, cs);
      assert m.stock !in MetricsStocks(init) by {
        forall m' | m' in init ensures m'.stock != m.stock {
          var i :| 0 <= i < |init| && init[i] == m';
          assert ms[i] == m';
        }
      }
      UniqueRecordsConcat(LeftRows(init, cs), RowsOf(m, cs));
    }
  }

  /** With unique rise calls, the right-only rows are unique too. */
  lemma {:induction false} RightOnlyRowsUnique(ms: seq<Metrics>, cs: seq<RiseCall>)
    requires UniqueCalls(cs)
    ensures UniqueRecords(RightOnlyRows(ms, cs))
    decreases |cs|
  {
    if cs != [] {
      var init, c := cs[..|cs| - 1], cs[|cs| - 1];
      assert UniqueCalls(init);
      RightOnlyRowsUnique(ms, init);
      RightOnlyRowsStocks(ms, init);
      assert c.stock !in CallStocks(init) by {
        forall c' | c' in init ensures c'.stock != c.stock {
          var i :| 0 <= i < |init| && init[i] == c';
          assert cs[i] == c';
        }
      }
      var tail := if c.stock in MetricsStocks(ms) then [] else [CallOnly(c)];
      assert RecordStocks(tail) <= {c.stock};
      UniqueRecordsConcat(RightOnlyRows(ms, init), tail);
    }
  }

  /** The instruments of a table grown by one record. */
  lemma RecordStocksSnoc(rs: seq<Record>)
    requires rs != []
    ensures RecordStocks(rs) == RecordStocks(rs[..|rs| - 1]) + {rs[|rs| - 1].stock}
  {
    assert forall x :: x in rs <==> x in rs[..|rs| - 1] || x == rs[|rs| - 1];
  }

  /** Distinct instruments: as many records as instruments. */
  lemma {:induction false} UniqueRecordsCount(rs: seq<Record>)
    requires UniqueRecords(rs)
    ensures |RecordStocks(rs)| == |rs|
    decreases |rs|
  {
    if rs != [] {
      var init, x := rs[..|rs| - 1], rs[|rs| - 1];
      assert UniqueRecords(init);
      UniqueRecordsCount(init);
      RecordStocksSnoc(rs);
      assert x.stock !in RecordStocks(init) by {
        forall y | y in init ensures y.stock != x.stock {
          var i :| 0 <= i < |init| && init[i] == y;
          assert rs[i] == y;
        }
      }
    }
  }

  /** Distinct instrument identifiers: as many rise calls as instruments. */
  lemma {:induction false} UniqueCallsCount(cs: seq<RiseCall>)
    requires UniqueCalls(cs)
    ensures |CallStocks(cs)| == |cs|
    decreases |cs|
  {
    if cs != [] {
      var init, c := cs[..|cs| - 1], cs[|cs| - 1];
      assert UniqueCalls(init);
      UniqueCallsCount(init);
      CallStocksSnoc(cs);
      assert c.stock !in CallStocks(init) by {
        forall c' | c' in init ensures c'.stock != c.stock {
          var i :| 0 <= i < |init| && init[i] == c';
          assert cs[i] == c';
        }
      }
    }
  }

  /** When neither table repeats an instrument, the join holds exactly one
      record per instrument of their union. */
  lemma OuterJoinUnique(ms: seq<Metrics>, cs: seq<RiseCall>)
    requires UniqueMetrics(ms) && UniqueCalls(cs)
    ensures UniqueRecords(OuterJoin(ms, cs))
    ensures |OuterJoin(ms, cs)| == |MetricsStocks(ms) + CallStocks(cs)|
  {
    LeftRowsUnique(ms, cs);
    RightOnlyRowsUnique(ms, cs);
    LeftRowsStocks(ms, cs);
    RightOnlyRowsStocks(ms, cs);
    UniqueRecordsConcat(LeftRows(ms, cs), RightOnlyRows(ms, cs));
    OuterJoinRows(ms, cs);
    UniqueRecordsCount(OuterJoin(ms, cs));
  }

  // ---------------------------------------------------------------------------
  // Sort by rise percentage, nulls last
  // ---------------------------------------------------------------------------

  /** `x` may precede `y` in a descending sort with nulls last. */
  predicate RanksBefore(x: Option<real>, y: Option<real>) {
    match x
    case None => y.None?
    case Some(a) => y.None? || y.value <= a
  }

  /** Rise percentages are non-increasing and every null comes after every
      defined percentage. */
  predicate SortedByRise(rs: seq<Record>) {
    forall i, j :: 0 <= i < j < |rs| ==> RanksBefore(rs[i].riseProbability, rs[j].riseProbability)
  }

  /** Places `x` into a sorted table. */
  function Insert(x: Record, rs: seq<Record>): (r: seq<Record>)
    requires SortedByRise(rs)
    ensures SortedByRise(r)
    ensures multiset(r) == multiset(rs) + multiset{x}
    decreases |rs|
  {
    if rs == [] then [x]
    else if RanksBefore(x.riseProbability, rs[0].riseProbability) then [x] + rs
    else
      var rest := Insert(x, rs[1..]);
      InsertBehindHead(x, rs, rest);
      [rs[0]] + rest
  }

  /** When `x` does not rank before the head of a sorted table, the head
      followed by the sorted insertion of `x` into the tail is sorted and
      holds exactly the table plus `x`. */
  lemma InsertBehindHead(x: Record, rs: seq<Record>, rest: seq<Record>)
    requires SortedByRise(rs) && rs != []
    requires !RanksBefore(x.riseProbability, rs[0].riseProbability)
    requires SortedByRise(rest) && multiset(rest) == multiset(rs[1..]) + multiset{x}
    ensures SortedByRise([rs[0]] + rest)
    ensures multiset([rs[0]] + rest) == multiset(rs) + multiset{x}
  {
    assert rs == [rs[0]] + rs[1..];
    forall k | 0 <= k < |rest| ensures RanksBefore(rs[0].riseProbability, rest[k].riseProbability) {
      assert rest[k] in multiset(rest);
      if rest[k] != x {
        assert rest[k] in rs[1..];
        var i :| 0 <= i < |rs[1..]| && rs[1..][i] == rest[k];
        assert rs[i + 1] == rest[k];
      }
    }
  }

  /** `sort_values(by='Rise Probability (%)', ascending=False)`: a
      permutation of the rows in that order; the order among equal
      percentages is not fixed. */
  function SortByRise(rs: seq<Record>): (r: seq<Record>)
    ensures SortedByRise(r)
    ensures multiset(r) == multiset(rs)
    decreases |rs|
  {
    if rs == [] then []
    else
      assert rs == [rs[0]] + rs[1..];
      Insert(rs[0], SortByRise(rs[1..]))
  }

  /** Lines 108-117: join, sort, and project to the ten-field records. */
  function FinalRecords(ms: seq<Metrics>, cs: seq<RiseCall>): (r: seq<Record>)
    ensures SortedByRise(r)
    ensures multiset(r) == multiset(OuterJoin(ms, cs))
  {
    SortByRise(OuterJoin(ms, cs))
  }

  /** The final report is sorted by rise percentage with nulls last, holds
      the records of every instrument of either table and of no other, each
      well joined; when neither table repeats an instrument, it holds exactly
      one record per instrument of the union. */
  lemma CombineRecords(ms: seq<Metrics>, cs: seq<RiseCall>)
    ensures var r := FinalRecords(ms, cs);
      && SortedByRise(r)
      && RecordStocks(r) == MetricsStocks(ms) + CallStocks(cs)
      && (forall x :: x in r ==> WellJoined(x, ms, cs))
      && (UniqueMetrics(ms) && UniqueCalls(cs) ==>
            |r| == |MetricsStocks(ms) + CallStocks(cs)| && UniqueRecords(r))
  {
    var j, r := OuterJoin(ms, cs), FinalRecords(ms, cs);
    OuterJoinRows(ms, cs);
    assert forall x :: x in r <==> x in j by {
      forall x ensures x in r <==> x in j {
        assert x in r <==> x in multiset(r);
      }
    }
    assert RecordStocks(r) == RecordStocks(j);
    if UniqueMetrics(ms) && UniqueCalls(cs) {
      OuterJoinUnique(ms, cs);
      assert |r| == |multiset(r)| == |multiset(j)| == |j|;
      CountForcesUnique(r);
    }
  }

  /** A repeated instrument leaves fewer instruments than records. */
  lemma DuplicateShrinks(rs: seq<Record>, i: nat, j: nat)
    requires i < j < |rs| && rs[i].stock == rs[j].stock
    ensures |RecordStocks(rs)| < |rs|
  {
    var rest := rs[..j] + rs[j + 1..];
    assert rs == rs[..j] + [rs[j]] + rs[j + 1..];
    RecordStocksConcat(rs[..j] + [rs[j]], rs[j + 1..]);
    RecordStocksConcat(rs[..j], [rs[j]]);
    RecordStocksConcat(rs[..j], rs[j + 1..]);
    assert rs[..j][i] == rs[i];
    assert RecordStocks(rs) == RecordStocks(rest);
    RecordStocksBound(rest);
  }

  /** A table has at most as many instruments as records. */
  lemma {:induction false} RecordStocksBound(rs: seq<Record>)
    ensures |RecordStocks(rs)| <= |rs|
    decreases |rs|
  {
    if rs != [] {
      var init := rs[..|rs| - 1];
      RecordStocksBound(init);
      RecordStocksSnoc(rs);
    }
  }

  /** As many instruments as records: no instrument is repeated. */
  lemma CountForcesUnique(rs: seq<Record>)
    requires |RecordStocks(rs)| == |rs|
    ensures UniqueRecords(rs)
  {
    forall i, j | 0 <= i < j < |rs| ensures rs[i].stock != rs[j].stock {
      if rs[i].stock == rs[j].stock {
        DuplicateShrinks(rs, i, j);
        assert false;
      }
    }
  }
}
