# Stock forecast report, modelled in Dafny

This project models the reporting core of the AI-Stock-Pilot forecast
pipeline, `src/stock_dl_report.py`. It reads a table of dated rows that
holds, for each instrument `col`, a column `col_Predicted` and a column
`col_Actual`. It then builds three things.

* **Evaluation** (`evaluate_predictions`). For every target instrument that
  has both columns, the actual prices are shifted `forecast_horizon` rows
  back. A prediction then lines up with the actual price `h` rows later.
  Rows where either side is missing are dropped. The script reports MAE,
  MSE, RMSE, MAPE (in percent) and Accuracy = 100 - MAPE. An instrument
  without columns, or without a single complete pair, gets no row.
* **Rise analysis** (`analyze_rise_predictions`). From the last row only, the
  script reports:
  * the last actual price;
  * the predicted price;
  * whether the prediction is a rise;
  * the rise percentage, (predicted - actual) / actual * 100.

  When either price is missing, the call and the percentage are null.
* **Final report** (main block). The script builds the outer join of both
  tables on `Stock`. It sorts the join by rise percentage, descending with
  nulls last, and projects it to the ten report fields.

Modules:

* `Optional`: the `Option` type, which stands for a NaN or null cell.
* `Masks`: boolean-mask selection of positions.
* `Frames`: the input table.
* `Evaluation`: the metrics table, as the method `EvaluatePredictions`
  proved against the function `Evaluated`.
* `Rise`: the rise table, as the method `AnalyzeRisePredictions` proved
  against `RiseFor` and `RiseTable`.
* `Combine`: outer join, sort and projection.
* `Report`: the main block, as the method `BuildReport` proved against
  `ReportOf`.

## Model

| member | source | states |
|---|---|---|
| Masks.Keep | src/stock_dl_report.py:37-39 | Boolean-mask selection keeps only positions where the mask holds, in ascending order, each at most once. |
| Masks.KeepComplete | src/stock_dl_report.py:37-39 | Every position where the mask holds is kept. |
| Masks.KeepNone | src/stock_dl_report.py:37-40 | An all-false mask selects nothing. |
| Masks.IncreasingBelow | src/stock_dl_report.py:37-40 | Helper (counting): a strictly increasing selection of positions below `n` has at most `n` entries. |
| Frames.LastValue | src/stock_dl_report.py:67-71 | `last_row.get(name, NaN)` gives the last cell of an existing column, or missing when the column is absent. |
| Evaluation.ShiftBack | src/stock_dl_report.py:35 | `shift(-h)` keeps the column's length (its content is stated by `Evaluation.Alignment`). |
| Evaluation.AlignedPairs | src/stock_dl_report.py:35-39 | One retained pair per position that survives the validity mask (their content is stated by `Evaluation.Alignment`). |
| Evaluation.ValidMask | src/stock_dl_report.py:37 | One validity flag per row. Which rows it keeps is stated by `Evaluation.AlignedPositions` and `Evaluation.Alignment`. |
| Evaluation.AlignedPositions | src/stock_dl_report.py:35-39 | The rows kept by `~predicted.isna() & ~actual.isna()` on the shifted actuals, in ascending order. Each kept row i has a predicted price at i and an actual price at i + h. |
| Evaluation.Alignment | src/stock_dl_report.py:35-39 | Every retained pair is (predicted[i], actual[i+h]) with both present, in ascending i. Every i with both present is retained. |
| Evaluation.PairCountBound | src/stock_dl_report.py:35-42 | At most len - h pairs survive, so a table of at most h rows yields no pair. |
| Evaluation.SumOfNonNegative | src/stock_dl_report.py:44-47 | A sum of non-negative errors is non-negative, and it is zero exactly when every error is zero. |
| Evaluation.MeanOfNonNegative | src/stock_dl_report.py:44-47 | A mean of non-negative errors is non-negative, and zero exactly when every error is zero. |
| Evaluation.MeanAbsoluteError | src/stock_dl_report.py:44 | MAE is never negative, and it is zero exactly when every retained prediction equals its actual price. |
| Evaluation.MeanSquaredError | src/stock_dl_report.py:45 | MSE is never negative, and exact predictions give zero. |
| Evaluation.MeanAbsolutePercentageError | src/stock_dl_report.py:47 | MAPE (in percent) is never negative, and it is zero exactly when every retained prediction equals its actual price. |
| Evaluation.MetricsOf | src/stock_dl_report.py:44-56 | The metrics row records the instrument and the MAE, MSE and MAPE of its pairs. RMSE is the non-negative root of MSE. Accuracy is 100 - MAPE. |
| Evaluation.MetricsBounds | src/stock_dl_report.py:13-21 | MAE, MSE, RMSE and MAPE are non-negative and RMSE² = MSE. Accuracy is at most 100 and is not clamped: it is negative exactly when MAPE exceeds 100. |
| Evaluation.QuotientZero | src/stock_dl_report.py:47 | Helper (real arithmetic): an error divided by a non-zero actual price is zero exactly when the error is. |
| Evaluation.AbsoluteErrorsZero | src/stock_dl_report.py:44 | Every absolute error is zero exactly when each prediction equals its actual price. |
| Evaluation.SquaredErrorsZero | src/stock_dl_report.py:45 | Exact predictions give zero squared errors. |
| Evaluation.PercentageErrorsZero | src/stock_dl_report.py:47 | Every percentage error is zero exactly when each prediction equals its actual price. |
| Evaluation.MetricsZeroIffExact | src/stock_dl_report.py:44-48 | MAE = 0, MAPE = 0 and Accuracy = 100 each hold exactly when every retained prediction equals its actual price. Exact predictions give MSE = 0. |
| Evaluation.Evaluated | src/stock_dl_report.py:23-57 | The metrics table has at most one row per target entry. Each row belongs to a target that has both columns and at least one pair (fully stated by `Evaluation.EvaluatedRows`). |
| Evaluation.EvaluatedRows | src/stock_dl_report.py:24-56 | Rows come in target order, one per target entry that has both columns and at least one pair. Each row is the metrics of that target's aligned pairs, and every such target has a row. |
| Evaluation.MissingColumnSkipped | src/stock_dl_report.py:27-30 | An instrument missing either column gets no metrics row. |
| Evaluation.ShortTableNoMetrics | src/stock_dl_report.py:35-42 | A table of at most h rows yields an empty metrics table. |
| Evaluation.ReportMaskSnoc | src/stock_dl_report.py:24-42 | Processing one more target appends exactly its reportability flag. |
| Evaluation.EvaluatedAt | src/stock_dl_report.py:49-56 | Row k of the metrics table is the metrics of the k-th reportable target entry. |
| Evaluation.EvaluatedSnoc | src/stock_dl_report.py:24-56 | Processing one more target appends its metrics row exactly when it is reportable, and nothing otherwise. |
| Evaluation.EvaluatePredictions | src/stock_dl_report.py:9-57 | The loop, with its two `continue` paths, returns exactly the metrics table `Evaluated`. |
| Rise.RiseFor | src/stock_dl_report.py:69-85 | The call carries the instrument and both last-row prices. The flag and the percentage are defined exactly when both prices are present. |
| Rise.RiseIsRelativeChange | src/stock_dl_report.py:73-75 | The flag is `predicted > actual`, and actual * (1 + rise/100) = predicted. |
| Rise.RiseSignAgreesWithCall | src/stock_dl_report.py:73-75 | With a positive last price, the percentage is positive iff the call is a rise, negative iff the prediction is lower, and zero iff the prices are equal. |
| Rise.NoChangeNoRise | src/stock_dl_report.py:73-75 | An unchanged prediction is no rise, at exactly 0 %. |
| Rise.MissingPriceUndefined | src/stock_dl_report.py:70-78 | A missing price or column leaves the flag and the percentage null. |
| Rise.RiseTable | src/stock_dl_report.py:68-86 | One rise call per target. |
| Rise.AnalyzeRisePredictions | src/stock_dl_report.py:61-86 | It fails (`None`) exactly on a table without rows. Otherwise it returns one call per target, in target order. |
| Combine.MatchesOf | src/stock_dl_report.py:108 | The matches of a metrics row belong to its instrument, and there are no more of them than rise calls. |
| Combine.MatchesOfComplete | src/stock_dl_report.py:108 | Every rise call of the metrics row's instrument is joined with it. |
| Combine.MatchesOfSelects | src/stock_dl_report.py:108 | The matches of a metrics row are that row joined with each rise call of its instrument: one per call, in call order. A repeated instrument therefore yields the product of the matches. |
| Combine.MatchesOfOrigin | src/stock_dl_report.py:108 | Every match of a metrics row joins it with a rise call of the same instrument. |
| Combine.MatchesOfNonEmpty | src/stock_dl_report.py:108 | A metrics row has a match iff its instrument has a rise call. |
| Combine.MatchesOfAtMostOne | src/stock_dl_report.py:108 | A metrics row has at most one match when no rise call repeats an instrument. |
| Combine.RowsOfStocks | src/stock_dl_report.py:108 | A metrics row contributes only records of its own instrument, and exactly one when rise calls are unique. |
| Combine.RowsOf | src/stock_dl_report.py:108 | An outer join keeps every metrics row: it contributes at least one record, all of its own instrument. |
| Combine.LeftRows | src/stock_dl_report.py:108 | The metrics side of the join has at least one record per metrics row. |
| Combine.RightOnlyRows | src/stock_dl_report.py:108 | The rise-only records are at most one per rise call. Each has null metrics and an instrument absent from the metrics table. |
| Combine.OuterJoin | src/stock_dl_report.py:108 | The join loses no metrics row. Its full content is stated by `Combine.OuterJoinRows` and `Combine.OuterJoinUnique`. |
| Combine.LeftRowsOrigin | src/stock_dl_report.py:108 | Every record from the metrics side carries the metrics of its instrument. It carries that instrument's rise call, or nulls when there is none. |
| Combine.LeftRowsStocks | src/stock_dl_report.py:108 | The metrics side contributes exactly the instruments of the metrics table. |
| Combine.RightOnlyRowsStocks | src/stock_dl_report.py:108 | The rise-only records are exactly the instruments with a call but no metrics, with the metrics fields null. |
| Combine.OuterJoinRows | src/stock_dl_report.py:108 | The outer join covers exactly the instruments of either table. Each record carries each side's fields when that side has the instrument, and nulls when it does not. |
| Combine.LeftRowsUnique | src/stock_dl_report.py:108 | Unique inputs give a metrics side without repeated instruments. |
| Combine.RightOnlyRowsUnique | src/stock_dl_report.py:108 | Unique rise calls give rise-only records without repeated instruments. |
| Combine.UniqueRecordsCount | src/stock_dl_report.py:108 | Helper (counting): records without repeated instruments are as many as their instruments. |
| Combine.UniqueCallsCount | src/stock_dl_report.py:68-86 | Helper (counting): rise calls without repeated instruments are as many as their instruments. |
| Combine.OuterJoinUnique | src/stock_dl_report.py:108 | With unique inputs the join repeats no instrument and has one record per instrument of the union. |
| Combine.Insert | src/stock_dl_report.py:110 | Inserting into a table sorted by rise (descending, nulls last) keeps it sorted and adds exactly that record. |
| Combine.InsertBehindHead | src/stock_dl_report.py:110 | A record that does not rank before the head goes behind it: the result stays sorted and holds exactly the table plus that record. |
| Combine.SortByRise | src/stock_dl_report.py:110 | The result is sorted descending by rise percentage with nulls last, and is a permutation of the input. |
| Combine.FinalRecords | src/stock_dl_report.py:108-117 | The final records are the outer join's records, reordered by rise percentage (descending, nulls last). |
| Combine.DuplicateShrinks | src/stock_dl_report.py:108-110 | Helper (counting): A repeated instrument leaves fewer instruments than records. |
| Combine.RecordStocksBound | src/stock_dl_report.py:108-110 | Helper (counting): there are never more instruments than records. |
| Combine.CountForcesUnique | src/stock_dl_report.py:108-110 | Helper (counting): as many instruments as records means that no instrument repeats. |
| Combine.CombineRecords | src/stock_dl_report.py:108-117 | The final report is sorted and covers exactly the union of instruments, each record well joined. With unique inputs it has one record per instrument. |
| Report.ReportOf | src/stock_dl_report.py:99-117 | As written, the script's report, when there is one, is the intended report. It fails where the intended one exists only when the metrics table is empty. |
| Report.IntendedReport | src/stock_dl_report.py:99-117 | The corrected report exists exactly when the table has rows, and it is sorted by rise. |
| Report.BuildReport | src/stock_dl_report.py:99-117 | The main block yields `ReportOf`: no report when a step fails, otherwise the combined records. |
| Report.ReportFails | src/stock_dl_report.py:100-108 | As written, the script yields no report exactly when the table has no rows or no target is reportable. |
| Report.ShortTableNoReport | src/stock_dl_report.py:35-108 | A table of 1..h rows and a non-empty target list yields a rise call per target, but no report as written. The intended report exists. |
| Report.RiseTableCalls | src/stock_dl_report.py:68-86 | With distinct targets, the rise table's instruments are the targets without repeats, each call that of its instrument. |
| Report.EvaluatedMetrics | src/stock_dl_report.py:24-56 | With distinct targets, the metrics table repeats no instrument and holds exactly the reportable targets, each with its own metrics. |
| Report.RecordOfTarget | src/stock_dl_report.py:100-117 | A well-joined record carries its instrument's rise call. It carries its metrics when the instrument is reportable, and nulls otherwise. |
| Report.ReportPerTarget | src/stock_dl_report.py:95-117 | With distinct targets and a non-empty table, the intended report has exactly one record per target, in rise order. Each record carries the target's rise call, plus its metrics iff reportable. |

## Left out

- Floating point: prices and metrics are exact reals. Rounding, overflow and
  the float comparison inside `sort_values` are not modelled.
- NaN is `None`. A NaN produced by arithmetic is not modelled. This includes
  a zero actual price, which makes `/ actual` infinite or NaN in pandas.
  `Evaluation.MapeDefined` and `Rise.RiseDefined` exclude it as preconditions.
- The square root in `mse ** 0.5` is a parameter `sqrt`, characterised by
  `Evaluation.IsSquareRoot`. The model only assumes that such a function
  exists.
- `sklearn.metrics.mean_absolute_error` and `mean_squared_error` are modelled
  by their mathematical definitions. Their input validation is not part of
  this model.
- Evaluation.MetricsZeroIffExact: states MSE = 0 only in the direction from
  exact predictions. It states nothing about RMSE = 0. The converse needs a
  nonlinear step (x² = 0 ⇒ x = 0 summed over rows) that the model does not
  prove.
- Reading the CSV, the date column, console output and writing the JSON file
  (lines 90-93, 101-106 and 118-125) are I/O and are left out.
- The target list `['구글 A']` and the horizon 7 (lines 95-98) are
  parameters. The results hold for any list and any horizon.
- `pd.merge` orders the joined rows by key, and `sort_values` does not keep
  ties in order. The model fixes neither order: the report is specified as
  sorted by rise percentage, and as a permutation of the join. The order among
  equal percentages is left unspecified. No tie-break on any other field
  exists in the code.
- Combine.OuterJoin: the row order of the joined table is not stated. Only
  its contents are stated.
- Combine: the projection to the ten report columns (lines 111-117) is the
  shape of `Record`. No separate operation exists.
- The other scripts of the repository (`stock_analyzer.py`,
  `stock_movingaverage.py`, `yf_companyinfo.py`, `yf_newsdata.py`) download
  data, call external services or a language model. They are not part of
  this model.

## Findings

| source | as written | input that shows it | evidently intended | confidence | as-written member | corrected member |
|---|---|---|---|---|---|---|
| src/stock_dl_report.py:57,108 | When no target has metrics, `evaluate_predictions` returns `pd.DataFrame([])`, which has no `Stock` column, so `pd.merge(..., on='Stock')` stops the script with a key error. | A table with one row, horizon 7, target `A` with both columns: the rise analysis yields a call for `A`, but no report is produced. | An empty metrics table joins as a table without matches, and every target appears with its rise call and null metrics. | high, from pandas' documented behaviour; not executed | Report.ReportOf, Report.ShortTableNoReport | Report.IntendedReport, Report.ReportPerTarget |
