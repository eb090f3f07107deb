/** Worked examples: concrete workbooks and the statistics the model gives them. */
module Scenarios {
  import opened Wrappers
  import opened Workbook
  import opened Stats
  import opened Aggregation
  import Rounding
  import Analysis

  /** Column "A" over ten rows, the last three empty. */
  const TenRows: Table := Table(["A"], [[Some("x")], [Some("x")], [Some("x")], [Some("x")], [Some("x")],
                                        [Some("x")], [Some("x")], [None], [None], [None]])

  /** Column "A" over two rows, the second empty. */
  const TwoRows: Table := Table(["A"], [[Some("y")], [None]])

  /** Ten rows of column "A", the last three empty: 3 missing, 30.00 %, 7 present. */
  lemma TenRowsThreeMissing()
    ensures StatOf("S1", TenRows, "A") == ColumnStat("S1", "A", 10, 3, 3000, 7)
  {
    var cells := ColumnCells(TenRows, "A");
    assert cells == [Some("x"), Some("x"), Some("x"), Some("x"), Some("x"),
                     Some("x"), Some("x"), None, None, None];
    // Counting from the end, one suffix at a time.
    assert CountMissing(cells[10..]) == 0;
    assert CountMissing(cells[9..]) == 1;
    assert CountMissing(cells[8..]) == 2;
    assert CountMissing(cells[7..]) == 3;
    assert CountMissing(cells[6..]) == 3;
    assert CountMissing(cells[5..]) == 3;
    assert CountMissing(cells[4..]) == 3;
    assert CountMissing(cells[3..]) == 3;
    assert CountMissing(cells[2..]) == 3;
    assert CountMissing(cells[1..]) == 3;
    assert CountMissing(cells[0..]) == 3;
    assert cells[0..] == cells;
    Rounding.RoundExact(3000, 10);
    assert 10000 * 3 == 3000 * 10;
  }

  /** Two rows of column "A", one empty: 1 missing, 50.00 %, 1 present. */
  lemma TwoRowsOneMissing()
    ensures StatOf("S2", TwoRows, "A") == ColumnStat("S2", "A", 2, 1, 5000, 1)
  {
    assert ColumnCells(TwoRows, "A") == [Some("y"), None];
    Rounding.RoundExact(5000, 2);
    assert 10000 * 1 == 5000 * 2;
  }

  /** Column "A" in two sheets, 3 of 10 and 1 of 2 missing (30.00 % and
      50.00 %): the aggregate sums to 12 rows and 4 missing, mean 40.00 %. */
  lemma TwoSheetsOneColumn()
    ensures var rows := [StatOf("S1", TenRows, "A"), StatOf("S2", TwoRows, "A")];
      "A" in Aggregate(rows) && Aggregate(rows)["A"] == AggregatedStat("A", 12, 4, 4000)
  {
    TenRowsThreeMissing();
    TwoRowsOneMissing();
    var rows := [ColumnStat("S1", "A", 10, 3, 3000, 7), ColumnStat("S2", "A", 2, 1, 5000, 1)];
    assert rows[..1] == [rows[0]];
    assert rows[..1][..0] == [];
    assert GroupBy(rows)["A"] == Group(12, 4, 8000, 2);
    Rounding.RoundExact(4000, 2);
  }

  /** Requesting "Z" and "A" of a sheet with columns "A" and "B": one warning
      naming "Z", and a single summary row, for "A". */
  lemma AbsentColumnWarned(gen: Analysis.Generator)
    ensures var t := Table(["A", "B"], [[Some("1"), None]]);
      var wb := Workbook(["S1"], map["S1" := t]);
      var r := Analysis.ProcessSheet(wb, "S1", ["Z", "A"], gen);
      && ColumnNames(r.rows) == ["A"]
      && (forall cs :: Analysis.ColumnsNotFound("S1", cs) in r.warnings <==> cs == ["Z"])
  {
    var t := Table(["A", "B"], [[Some("1"), None]]);
    var wb := Workbook(["S1"], map["S1" := t]);
    assert Present(["Z", "A"], t) == ["A"] by {
      assert ["Z", "A"][1..] == ["A"];
    }
    assert Absent(["Z", "A"], t) == ["Z"] by {
      assert ["Z", "A"][1..] == ["A"];
    }
    Analysis.ProcessSheetRows(wb, "S1", ["Z", "A"], gen);
    Analysis.ProcessSheetWarnings(wb, "S1", ["Z", "A"], gen);
  }
}
