/** The workbook as the analysis sees it once the spreadsheet has been parsed:
    named sheets, each a table of ordered column names and ordered rows whose
    cells are either present or missing. */
module Workbook {
  import opened Wrappers

  /** A cell: `None` is a missing value (an empty spreadsheet cell); any
      present value, the empty text included, is `Some`. */
  type Cell = Option<string>

  type Row = seq<Cell>

  datatype Table = Table(columns: seq<string>, rows: seq<Row>)

  /** `sheetNames` is the container's list of sheet names; `sheets` holds the
      tables that can be loaded. A listed name with no table is a sheet whose
      loading fails. */
  datatype Workbook = Workbook(sheetNames: seq<string>, sheets: map<string, Table>)

  /** Position of the first occurrence of `x` in `s`, or `|s|` when absent. */
  function IndexOf(s: seq<string>, x: string): (i: nat)
    ensures i <= |s|
    ensures i < |s| ==> s[i] == x
    ensures i == |s| ==> x !in s
  {
    if s == [] then 0
    else if s[0] == x then 0
    else 1 + IndexOf(s[1..], x)
  }

  /** The cell in position `j` of a row; a row shorter than the header reads
      as missing beyond its end, as the parser pads it. */
  function CellAt(row: Row, j: nat): Cell
  {
    if j < |row| then row[j] else None
  }

  /** The cell of column `c` in `row` under the header `columns`: missing
      when the header lacks `c`, so no cell past the header is ever read. */
  function CellIn(columns: seq<string>, row: Row, c: string): (cell: Cell)
    ensures c !in columns ==> cell.None?
  {
    var j := IndexOf(columns, c);
    if j < |columns| then CellAt(row, j) else None
  }

  /** The cells of column `c`, top to bottom (`df[c]`). */
  function ColumnCells(t: Table, c: string): (cells: seq<Cell>)
    ensures |cells| == |t.rows|
  {
    seq(|t.rows|, i requires 0 <= i < |t.rows| => CellIn(t.columns, t.rows[i], c))
  }

  function CountMissing(cells: seq<Cell>): (n: nat)
    ensures n <= |cells|
  {
    if cells == [] then 0
    else (if cells[0].None? then 1 else 0) + CountMissing(cells[1..])
  }

  function CountPresent(cells: seq<Cell>): (n: nat)
    ensures n <= |cells|
  {
    if cells == [] then 0
    else (if cells[0].Some? then 1 else 0) + CountPresent(cells[1..])
  }

  /** Every cell is either missing or present, never both. */
  lemma {:induction false} CountsPartition(cells: seq<Cell>)
    ensures CountMissing(cells) + CountPresent(cells) == |cells|
  {
    if cells != [] {
      CountsPartition(cells[1..]);
    }
  }

  /** `df[c].isnull().sum()`. */
  function MissingCount(t: Table, c: string): (n: nat)
    ensures n <= |t.rows|
  {
    CountMissing(ColumnCells(t, c))
  }

  lemma {:induction false} AllMissing(cells: seq<Cell>)
    requires forall i :: 0 <= i < |cells| ==> cells[i].None?
    ensures CountMissing(cells) == |cells|
  {
    if cells != [] {
      AllMissing(cells[1..]);
    }
  }

  /** A column the table lacks reads as missing in every row, whatever the
      length of the rows. */
  lemma AbsentColumnAllMissing(t: Table, c: string)
    requires c !in t.columns
    ensures MissingCount(t, c) == |t.rows|
  {
    AllMissing(ColumnCells(t, c));
  }

  /** The requested columns that the table has, in request order. */
  function Present(requested: seq<string>, t: Table): (r: seq<string>)
    ensures forall c :: c in r <==> c in requested && c in t.columns
    ensures |r| <= |requested|
  {
    if requested == [] then []
    else (if requested[0] in t.columns then [requested[0]] else []) + Present(requested[1..], t)
  }

  /** The requested columns that the table lacks, in request order. */
  function Absent(requested: seq<string>, t: Table): (r: seq<string>)
    ensures forall c :: c in r <==> c in requested && c !in t.columns
    ensures |Present(requested, t)| + |r| == |requested|
  {
    if requested == [] then []
    else (if requested[0] !in t.columns then [requested[0]] else []) + Absent(requested[1..], t)
  }

  /** When nothing requested is absent, the filter keeps the whole request. */
  lemma {:induction false} NothingAbsent(requested: seq<string>, t: Table)
    requires Absent(requested, t) == []
    ensures Present(requested, t) == requested
  {
    if requested != [] {
      NothingAbsent(requested[1..], t);
    }
  }

  /** `df[cols]`: the table restricted to the given columns, in that order. */
  function Select(t: Table, cols: seq<string>): (s: Table)
    ensures s.columns == cols && |s.rows| == |t.rows|
  {
    Table(cols, seq(|t.rows|, i requires 0 <= i < |t.rows| =>
      seq(|cols|, k requires 0 <= k < |cols| => CellIn(t.columns, t.rows[i], cols[k]))))
  }

  /** `DataFrame.empty`: no column or no row. */
  predicate IsEmpty(t: Table)
  {
    |t.columns| == 0 || |t.rows| == 0
  }

  /** A selected column holds the same cells as in the full table. */
  lemma SelectKeepsColumn(t: Table, cols: seq<string>, c: string)
    requires c in cols
    ensures ColumnCells(Select(t, cols), c) == ColumnCells(t, c)
  {
    var s := Select(t, cols);
    var k := IndexOf(cols, c);
    forall i | 0 <= i < |t.rows|
      ensures ColumnCells(s, c)[i] == ColumnCells(t, c)[i]
    {
      assert CellIn(cols, s.rows[i], c) == s.rows[i][k] == CellIn(t.columns, t.rows[i], cols[k]);
    }
  }
}
