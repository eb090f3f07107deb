/** The cross-sheet summary: the detailed summary grouped by column name,
    summing the row and missing counts and averaging the percentages. */
module Aggregation {
  import opened Stats
  import Rounding

  /** Running totals of one group while the summary is scanned. */
  datatype Group = Group(totalRows: nat, missingCount: nat, pctSum: nat, size: nat)

  /** One aggregated row; `missingPct` in hundredths of a percent. */
  datatype AggregatedStat = AggregatedStat(column: string, totalRows: nat, missingCount: nat, missingPct: nat)

  function Add(g: Group, s: ColumnStat): Group
  {
    Group(g.totalRows + s.totalRows, g.missingCount + s.missingCount, g.pctSum + s.missingPct, g.size + 1)
  }

  /** The groups, built row by row as the summary is read. */
  function GroupBy(rows: seq<ColumnStat>): (groups: map<string, Group>)
    ensures forall c :: c in groups ==> groups[c].size > 0
  {
    if rows == [] then map[]
    else
      var groups := GroupBy(rows[..|rows| - 1]);
      var s := rows[|rows| - 1];
      var g := if s.column in groups then groups[s.column] else Group(0, 0, 0, 0);
      groups[s.column := Add(g, s)]
  }

  /** `groupby('Column').agg(sum, sum, mean).round(2)`, keyed by column. */
  function Aggregate(rows: seq<ColumnStat>): (agg: map<string, AggregatedStat>)
    ensures forall c :: c in agg ==> agg[c].column == c
  {
    var groups := GroupBy(rows);
    map c | c in groups :: AggregatedStat(c, groups[c].totalRows, groups[c].missingCount,
                                          Rounding.Mean(groups[c].pctSum, groups[c].size))
  }

  // ---------------------------------------------------------------------
  // Reference definition: filter the rows of a column, then add up

  function RowsOfColumn(rows: seq<ColumnStat>, c: string): (r: seq<ColumnStat>)
    ensures |r| <= |rows|
  {
    if rows == [] then []
    else
      RowsOfColumn(rows[..|rows| - 1], c)
        + (if rows[|rows| - 1].column == c then [rows[|rows| - 1]] else [])
  }

  function SumTotalRows(rows: seq<ColumnStat>): nat
  {
    if rows == [] then 0 else SumTotalRows(rows[..|rows| - 1]) + rows[|rows| - 1].totalRows
  }

  function SumMissing(rows: seq<ColumnStat>): nat
  {
    if rows == [] then 0 else SumMissing(rows[..|rows| - 1]) + rows[|rows| - 1].missingCount
  }

  function SumPct(rows: seq<ColumnStat>): nat
  {
    if rows == [] then 0 else SumPct(rows[..|rows| - 1]) + rows[|rows| - 1].missingPct
  }

  lemma RowsOfColumnLast(rows: seq<ColumnStat>, c: string)
    requires rows != []
    ensures var init, s := rows[..|rows| - 1], rows[|rows| - 1];
      RowsOfColumn(rows, c) == RowsOfColumn(init, c) + (if s.column == c then [s] else [])
  {
  }

  /** The sums of a sequence extended by one row. */
  lemma SumsSnoc(f: seq<ColumnStat>, s: ColumnStat)
    ensures SumTotalRows(f + [s]) == SumTotalRows(f) + s.totalRows
    ensures SumMissing(f + [s]) == SumMissing(f) + s.missingCount
    ensures SumPct(f + [s]) == SumPct(f) + s.missingPct
  {
    assert (f + [s])[..|f + [s]| - 1] == f;
  }

  /** The group of column `c` holds exactly the sums over the rows of `c`,
      and a column has a group exactly when some row names it. */
  lemma GroupByLast(rows: seq<ColumnStat>, c: string)
    requires rows != []
    ensures var init, s := rows[..|rows| - 1], rows[|rows| - 1];
      && (s.column != c ==> (c in GroupBy(rows) <==> c in GroupBy(init)))
      && (s.column != c && c in GroupBy(init) ==> GroupBy(rows)[c] == GroupBy(init)[c])
      && (s.column == c && c in GroupBy(init) ==> c in GroupBy(rows) && GroupBy(rows)[c] == Add(GroupBy(init)[c], s))
      && (s.column == c && c !in GroupBy(init) ==> c in GroupBy(rows) && GroupBy(rows)[c] == Add(Group(0, 0, 0, 0), s))
  {
  }

  /** What the group of `c` says about the rows of `c`. */
  predicate GroupMatches(rows: seq<ColumnStat>, c: string)
  {
    var f := RowsOfColumn(rows, c);
    && (c in GroupBy(rows) <==> f != [])
    && (c in GroupBy(rows) ==> GroupBy(rows)[c] == Group(SumTotalRows(f), SumMissing(f), SumPct(f), |f|))
  }

  /** The induction step when the last row belongs to `c`. */
  lemma StepSameColumn(rows: seq<ColumnStat>, c: string)
    requires rows != [] && rows[|rows| - 1].column == c
    requires GroupMatches(rows[..|rows| - 1], c)
    ensures GroupMatches(rows, c)
  {
    var init, s := rows[..|rows| - 1], rows[|rows| - 1];
    RowsOfColumnLast(rows, c);
    GroupByLast(rows, c);
    var f0 := RowsOfColumn(init, c);
    assert RowsOfColumn(rows, c) == f0 + [s];
    SumsSnoc(f0, s);
    if c !in GroupBy(init) {
      assert f0 == [];
    }
  }

  /** The induction step when the last row belongs to another column. */
  lemma StepOtherColumn(rows: seq<ColumnStat>, c: string)
    requires rows != [] && rows[|rows| - 1].column != c
    requires GroupMatches(rows[..|rows| - 1], c)
    ensures GroupMatches(rows, c)
  {
    var init := rows[..|rows| - 1];
    RowsOfColumnLast(rows, c);
    GroupByLast(rows, c);
    assert RowsOfColumn(rows, c) == RowsOfColumn(init, c) + [] == RowsOfColumn(init, c);
  }

  /** The group of column `c` holds exactly the sums over the rows of `c`,
      and a column has a group exactly when some row names it. */
  lemma {:induction false} GroupByIsSumOverColumn(rows: seq<ColumnStat>, c: string)
    ensures var f := RowsOfColumn(rows, c);
      && (c in GroupBy(rows) <==> f != [])
      && (c in GroupBy(rows) ==> GroupBy(rows)[c] == Group(SumTotalRows(f), SumMissing(f), SumPct(f), |f|))
  {
    if rows != [] {
      GroupByIsSumOverColumn(rows[..|rows| - 1], c);
      if rows[|rows| - 1].column == c {
        StepSameColumn(rows, c);
      } else {
        StepOtherColumn(rows, c);
      }
    }
  }

  lemma {:induction false} RowsOfColumnNonEmpty(rows: seq<ColumnStat>, c: string)
    ensures RowsOfColumn(rows, c) != [] <==> exists k :: 0 <= k < |rows| && rows[k].column == c
  {
    if rows != [] {
      var init := rows[..|rows| - 1];
      RowsOfColumnNonEmpty(init, c);
      RowsOfColumnLast(rows, c);
      assert forall k :: 0 <= k < |init| ==> init[k] == rows[k];
    }
  }

  /** The aggregate has one entry per distinct column of the summary; its
      row and missing counts are the sums over that column's rows and its
      percentage is the mean of their percentages rounded to two decimals. */
  lemma AggregateIsPerColumnSums(rows: seq<ColumnStat>, c: string)
    ensures c in Aggregate(rows) <==> exists k :: 0 <= k < |rows| && rows[k].column == c
    ensures c in Aggregate(rows) ==>
      var f := RowsOfColumn(rows, c);
      |f| > 0 && Aggregate(rows)[c] == AggregatedStat(c, SumTotalRows(f), SumMissing(f), Rounding.Mean(SumPct(f), |f|))
  {
    GroupByIsSumOverColumn(rows, c);
    RowsOfColumnNonEmpty(rows, c);
  }

  /** Sums over well-formed rows keep missing within total and the
      percentages within 100 each. */
  lemma {:induction false} SumsBounded(f: seq<ColumnStat>)
    requires forall k :: 0 <= k < |f| ==> WellFormed(f[k])
    ensures SumMissing(f) <= SumTotalRows(f)
    ensures SumPct(f) <= 10000 * |f|
  {
    if f != [] {
      SumsBounded(f[..|f| - 1]);
    }
  }

  lemma {:induction false} RowsOfColumnIn(rows: seq<ColumnStat>, c: string)
    ensures forall k :: 0 <= k < |RowsOfColumn(rows, c)| ==>
      RowsOfColumn(rows, c)[k].column == c && RowsOfColumn(rows, c)[k] in rows
  {
    if rows != [] {
      var init := rows[..|rows| - 1];
      RowsOfColumnIn(init, c);
      RowsOfColumnLast(rows, c);
      assert forall x :: x in init ==> x in rows;
    }
  }

  /** Aggregating well-formed rows gives, per column, no more missing cells
      than rows and a mean percentage within [0, 100]. */
  lemma AggregateBounded(rows: seq<ColumnStat>)
    requires forall k :: 0 <= k < |rows| ==> WellFormed(rows[k])
    ensures forall c :: c in Aggregate(rows) ==>
      Aggregate(rows)[c].missingCount <= Aggregate(rows)[c].totalRows && Aggregate(rows)[c].missingPct <= 10000
  {
    forall c | c in Aggregate(rows)
      ensures Aggregate(rows)[c].missingCount <= Aggregate(rows)[c].totalRows
      ensures Aggregate(rows)[c].missingPct <= 10000
    {
      AggregateIsPerColumnSums(rows, c);
      var f := RowsOfColumn(rows, c);
      RowsOfColumnIn(rows, c);
      SumsBounded(f);
    }
  }

  /** A column seen in one row only is aggregated to that row's own figures. */
  lemma SingleRowColumn(rows: seq<ColumnStat>, k: nat)
    requires k < |rows|
    requires forall j :: 0 <= j < |rows| && j != k ==> rows[j].column != rows[k].column
    ensures var s := rows[k];
      s.column in Aggregate(rows) && Aggregate(rows)[s.column] == AggregatedStat(s.column, s.totalRows, s.missingCount, s.missingPct)
  {
    var s := rows[k];
    AggregateIsPerColumnSums(rows, s.column);
    SingleRowFilter(rows, k);
    var f := RowsOfColumn(rows, s.column);
    assert f[..0] == [];
    Rounding.RoundExact(s.missingPct, 1);
  }

  lemma {:induction false} SingleRowFilter(rows: seq<ColumnStat>, k: nat)
    requires k < |rows|
    requires forall j :: 0 <= j < |rows| && j != k ==> rows[j].column != rows[k].column
    ensures RowsOfColumn(rows, rows[k].column) == [rows[k]]
  {
    var c := rows[k].column;
    var init := rows[..|rows| - 1];
    RowsOfColumnLast(rows, c);
    if k == |rows| - 1 {
      NoRowOfColumn(init, c);
    } else {
      assert init[k] == rows[k];
      SingleRowFilter(init, k);
    }
  }

  lemma {:induction false} NoRowOfColumn(rows: seq<ColumnStat>, c: string)
    requires forall j :: 0 <= j < |rows| ==> rows[j].column != c
    ensures RowsOfColumn(rows, c) == []
  {
    if rows != [] {
      NoRowOfColumn(rows[..|rows| - 1], c);
    }
  }
}
