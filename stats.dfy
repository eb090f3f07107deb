/** One row of the detailed summary: the missing-value statistics of one
    column of one sheet. */
module Stats {
  import opened Workbook
  import Rounding

  /** `missingPct` is in hundredths of a percent (3000 stands for 30.00). */
  datatype ColumnStat = ColumnStat(
    sheet: string,
    column: string,
    totalRows: nat,
    missingCount: nat,
    missingPct: nat,
    nonMissingCount: nat)

  /** The statistics of column `col` of a table with at least one row. */
  function StatOf(sheet: string, t: Table, col: string): (s: ColumnStat)
    requires |t.rows| > 0
    ensures s.sheet == sheet && s.column == col
    ensures s.totalRows == |t.rows| > 0
    ensures s.missingCount == CountMissing(ColumnCells(t, col)) <= s.totalRows
    ensures s.nonMissingCount == CountPresent(ColumnCells(t, col))
    ensures s.missingCount + s.nonMissingCount == s.totalRows
    ensures Rounding.IsRounding(10000 * s.missingCount, s.totalRows, s.missingPct)
    ensures s.missingPct <= 10000
  {
    var total := |t.rows|;
    var missing := MissingCount(t, col);
    CountsPartition(ColumnCells(t, col));
    ColumnStat(sheet, col, total, missing, Rounding.Percentage(missing, total), total - missing)
  }

  /** The column names of a sequence of summary rows, in order. */
  function ColumnNames(rows: seq<ColumnStat>): seq<string>
  {
    seq(|rows|, k requires 0 <= k < |rows| => rows[k].column)
  }

  /** What a summary row promises on its own, whatever its origin. */
  predicate WellFormed(s: ColumnStat)
  {
    && s.totalRows > 0
    && s.missingCount <= s.totalRows
    && s.nonMissingCount == s.totalRows - s.missingCount
    && s.missingPct == Rounding.Percentage(s.missingCount, s.totalRows)
    && s.missingPct <= 10000
  }

  /** Every computed row is well formed, and the percentage lies in [0, 100]. */
  lemma StatOfWellFormed(sheet: string, t: Table, col: string)
    requires |t.rows| > 0
    ensures WellFormed(StatOf(sheet, t, col))
  {
    var s := StatOf(sheet, t, col);
    Rounding.RoundingUnique(10000 * s.missingCount, s.totalRows, s.missingPct,
      Rounding.Percentage(s.missingCount, s.totalRows));
  }
}
