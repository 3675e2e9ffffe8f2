/** The table the evaluator reads: one row per date, and for each instrument
    `col` a column `col_Predicted` and a column `col_Actual`. */
module Frames {
  import opened Optional

  /** One column: per row a price, or `None` where the cell is missing (NaN). */
  type Column = seq<Option<real>>

  /** A table of `height` rows whose columns are looked up by name. */
  datatype Frame = Frame(height: nat, columns: map<string, Column>) {
    /** Every column has exactly one cell per row. */
    predicate WellFormed() {
      forall name :: name in columns ==> |columns[name]| == height
    }
  }

  /** Name of the column of predicted prices of instrument `col`. */
  function PredictedName(col: string): string {
    col + "_Predicted"
  }

  /** Name of the column of actual prices of instrument `col`. */
  function ActualName(col: string): string {
    col + "_Actual"
  }

  /** `row.get(name, NaN)` on the last row: the cell, or missing when the
      column does not exist. */
  function LastValue(data: Frame, name: string): (v: Option<real>)
    requires data.WellFormed() && data.height > 0
    ensures name !in data.columns ==> v.None?
    ensures name in data.columns ==> v == data.columns[name][|data.columns[name]| - 1]
  {
    if name in data.columns then data.columns[name][data.height - 1] else None
  }
}
