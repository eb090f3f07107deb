/** The analysis pass: for each (sheet, requested columns) entry of the
    configuration, in order, validate the request against the workbook,
    emit one summary row per surviving column and ask the report generator
    for one document per sheet. Problems are collected as warnings and never
    stop the run. */
module Analysis {
  import opened Wrappers
  import opened OrderedDict
  import opened Workbook
  import opened Stats
  import Rounding

  /** The configuration: sheet name to requested columns, in dictionary order. */
  type Mapping = Dict<string, seq<string>>

  /** The descriptive-report generator: given the selected table and a title,
      a document or the reason it failed. */
  type Generator = (Table, string) -> Result<string, string>

  datatype Warning =
    | WorkbookUnreadable(reason: string)
    | SheetNotFound(sheet: string)
    | SheetUnreadable(sheet: string)
    | ColumnsNotFound(sheet: string, columns: seq<string>)
    | ReportFailed(sheet: string, reason: string)

  /** What one configuration entry contributes. */
  datatype SheetResult = SheetResult(rows: seq<ColumnStat>, report: Option<string>, warnings: seq<Warning>)

  /** The result of a run: the detailed summary, the documents by sheet, the warnings. */
  datatype Outcome = Outcome(summary: seq<ColumnStat>, reports: Dict<string, string>, warnings: seq<Warning>)

  const Empty := Outcome([], [], [])

  function Title(sheet: string): string
  {
    "Missing Values Analysis - " + sheet
  }

  predicate AboutSheet(w: Warning, sheet: string)
  {
    !w.WorkbookUnreadable? && w.sheet == sheet
  }

  /** The sheet yields statistics: it is listed, it loads, some requested
      column exists in it and it has at least one row. */
  predicate Contributes(wb: Workbook, sheet: string, requested: seq<string>)
  {
    && sheet in wb.sheetNames
    && sheet in wb.sheets
    && Present(requested, wb.sheets[sheet]) != []
    && |wb.sheets[sheet].rows| > 0
  }

  /** The table handed to the report generator for a contributing sheet. */
  function Selected(wb: Workbook, sheet: string, requested: seq<string>): Table
    requires sheet in wb.sheets
  {
    Select(wb.sheets[sheet], Present(requested, wb.sheets[sheet]))
  }

  /** A summary row agrees with the column of the sheet it names, and is well formed. */
  predicate Describes(wb: Workbook, s: ColumnStat)
  {
    && s.sheet in wb.sheetNames
    && s.sheet in wb.sheets
    && var t := wb.sheets[s.sheet];
    && s.column in t.columns
    && s.totalRows == |t.rows|
    && s.missingCount == MissingCount(t, s.column)
    && s.nonMissingCount == CountPresent(ColumnCells(t, s.column))
    && WellFormed(s)
  }

  function SheetRows(sheet: string, t: Table, cols: seq<string>): (rows: seq<ColumnStat>)
    requires |t.rows| > 0
    ensures |rows| == |cols|
  {
    seq(|cols|, k requires 0 <= k < |cols| => StatOf(sheet, t, cols[k]))
  }

  lemma SheetRowsPrefix(sheet: string, t: Table, cols: seq<string>, j: nat)
    requires |t.rows| > 0 && j < |cols|
    ensures SheetRows(sheet, t, cols)[..j + 1] == SheetRows(sheet, t, cols)[..j] + [StatOf(sheet, t, cols[j])]
  {
  }

  /** One configuration entry. */
  function ProcessSheet(wb: Workbook, sheet: string, requested: seq<string>, gen: Generator): (r: SheetResult)
    ensures forall k :: 0 <= k < |r.rows| ==> r.rows[k].sheet == sheet
    ensures forall k :: 0 <= k < |r.warnings| ==> AboutSheet(r.warnings[k], sheet)
  {
    if sheet !in wb.sheetNames then SheetResult([], None, [SheetNotFound(sheet)])
    else if sheet !in wb.sheets then SheetResult([], None, [SheetUnreadable(sheet)])
    else
      var t := wb.sheets[sheet];
      var absent := Absent(requested, t);
      var noted := if absent != [] then [ColumnsNotFound(sheet, absent)] else [];
      var cols := Present(requested, t);
      if cols == [] || |t.rows| == 0 then SheetResult([], None, noted)
      else
        var selected := Select(t, cols);
        var rows := SheetRows(sheet, selected, cols);
        match gen(selected, Title(sheet))
        case Success(html) => SheetResult(rows, Some(html), noted)
        case Failure(e) => SheetResult(rows, None, noted + [ReportFailed(sheet, e)])
  }

  /** The rows of an entry are exactly the requested columns the sheet has,
      in request order, each describing that column of the sheet; a sheet
      that is unknown, fails to load, has none of the columns or has no row
      gives none. */
  lemma ProcessSheetRows(wb: Workbook, sheet: string, requested: seq<string>, gen: Generator)
    ensures var r := ProcessSheet(wb, sheet, requested, gen);
      && ColumnNames(r.rows) == (if Contributes(wb, sheet, requested) then Present(requested, wb.sheets[sheet]) else [])
      && forall k :: 0 <= k < |r.rows| ==> Describes(wb, r.rows[k])
  {
    if Contributes(wb, sheet, requested) {
      var t := wb.sheets[sheet];
      var cols := Present(requested, t);
      var rows := SheetRows(sheet, Select(t, cols), cols);
      assert ProcessSheet(wb, sheet, requested, gen).rows == rows;
      assert ColumnNames(rows) == cols;
      forall k | 0 <= k < |rows| ensures Describes(wb, rows[k]) {
        SelectKeepsColumn(t, cols, cols[k]);
        StatOfWellFormed(sheet, Select(t, cols), cols[k]);
      }
    }
  }

  /** An entry yields a document exactly when it contributes rows and the
      generator succeeds on its selected table; the document is the
      generator's. When the generator fails instead, the entry carries one
      "report failed" warning with the generator's reason, and no entry
      carries one otherwise. */
  lemma ProcessSheetReport(wb: Workbook, sheet: string, requested: seq<string>, gen: Generator)
    ensures var r := ProcessSheet(wb, sheet, requested, gen);
      && (r.report.Some? <==> Contributes(wb, sheet, requested) && gen(Selected(wb, sheet, requested), Title(sheet)).Success?)
      && (r.report.Some? ==> r.report.value == gen(Selected(wb, sheet, requested), Title(sheet)).value)
      && (r.report.Some? ==> r.rows != [])
      && (Contributes(wb, sheet, requested) && gen(Selected(wb, sheet, requested), Title(sheet)).Failure? ==>
            ReportFailed(sheet, gen(Selected(wb, sheet, requested), Title(sheet)).error) in r.warnings)
      && (forall k :: 0 <= k < |r.warnings| && r.warnings[k].ReportFailed? ==>
            && Contributes(wb, sheet, requested)
            && gen(Selected(wb, sheet, requested), Title(sheet)).Failure?
            && r.warnings[k] == ReportFailed(sheet, gen(Selected(wb, sheet, requested), Title(sheet)).error))
  {
    var r := ProcessSheet(wb, sheet, requested, gen);
    if Contributes(wb, sheet, requested) {
      var t := wb.sheets[sheet];
      var absent := Absent(requested, t);
      var noted := if absent != [] then [ColumnsNotFound(sheet, absent)] else [];
      var g := gen(Selected(wb, sheet, requested), Title(sheet));
      assert r.warnings == if g.Success? then noted else noted + [ReportFailed(sheet, g.error)];
    }
  }

  /** An unknown sheet contributes one "not found" warning and nothing else,
      and a listed sheet that fails to load one "unreadable" warning and
      nothing else; the "columns not found" warning names exactly the absent
      columns. A sheet that is listed and loads carries the absent-columns
      warning first, then, when it reached the report and the generator
      failed, exactly one "report failed" warning: at most two warnings, at
      most one of them about absent columns. */
  lemma ProcessSheetWarnings(wb: Workbook, sheet: string, requested: seq<string>, gen: Generator)
    ensures var r := ProcessSheet(wb, sheet, requested, gen);
      && (sheet !in wb.sheetNames ==> r == SheetResult([], None, [SheetNotFound(sheet)]))
      && (sheet in wb.sheetNames && sheet !in wb.sheets ==> r == SheetResult([], None, [SheetUnreadable(sheet)]))
      && (SheetNotFound(sheet) in r.warnings <==> sheet !in wb.sheetNames)
      && (SheetUnreadable(sheet) in r.warnings <==> sheet in wb.sheetNames && sheet !in wb.sheets)
      && (forall cs :: ColumnsNotFound(sheet, cs) in r.warnings <==>
           sheet in wb.sheetNames && sheet in wb.sheets && cs == Absent(requested, wb.sheets[sheet]) != [])
      && (sheet in wb.sheetNames && sheet in wb.sheets ==>
            r.warnings == (if Absent(requested, wb.sheets[sheet]) != [] then [ColumnsNotFound(sheet, Absent(requested, wb.sheets[sheet]))] else [])
              + (if Contributes(wb, sheet, requested) && gen(Selected(wb, sheet, requested), Title(sheet)).Failure?
                 then [ReportFailed(sheet, gen(Selected(wb, sheet, requested), Title(sheet)).error)] else []))
      && |r.warnings| <= 2
      && (forall i, j :: (0 <= i < |r.warnings| && 0 <= j < |r.warnings|
                           && r.warnings[i].ColumnsNotFound? && r.warnings[j].ColumnsNotFound?) ==> i == j)
  {
    var r := ProcessSheet(wb, sheet, requested, gen);
    if sheet in wb.sheetNames && sheet in wb.sheets {
      var t := wb.sheets[sheet];
      var absent := Absent(requested, t);
      var noted := if absent != [] then [ColumnsNotFound(sheet, absent)] else [];
      var cols := Present(requested, t);
      if cols == [] || |t.rows| == 0 {
        assert r.warnings == noted;
      } else {
        var g := gen(Select(t, cols), Title(sheet));
        assert r.warnings == if g.Success? then noted else noted + [ReportFailed(sheet, g.error)];
      }
    }
  }

  /** Adding one entry's contribution to the run so far. */
  function Step(acc: Outcome, sheet: string, r: SheetResult): Outcome
  {
    Outcome(
      acc.summary + r.rows,
      if r.report.Some? then Put(acc.reports, sheet, r.report.value) else acc.reports,
      acc.warnings + r.warnings)
  }

  /** The run over the configuration entries, in order. */
  function Run(wb: Workbook, items: Mapping, gen: Generator): Outcome
  {
    if items == [] then Empty
    else
      var (sheet, requested) := items[|items| - 1];
      Step(Run(wb, items[..|items| - 1], gen), sheet, ProcessSheet(wb, sheet, requested, gen))
  }

  /** The whole analysis: an unreadable workbook gives no rows and no documents. */
  function AnalysisOf(source: Result<Workbook, string>, mapping: Mapping, gen: Generator): Outcome
  {
    match source
    case Failure(e) => Outcome([], [], [WorkbookUnreadable(e)])
    case Success(wb) => Run(wb, mapping, gen)
  }

  method Analyze(source: Result<Workbook, string>, mapping: Mapping, gen: Generator)
    returns (summary: seq<ColumnStat>, reports: Dict<string, string>, warnings: seq<Warning>)
    ensures Outcome(summary, reports, warnings) == AnalysisOf(source, mapping, gen)
  {
    if source.Failure? {
      return [], [], [WorkbookUnreadable(source.error)];
    }
    var wb := source.value;
    summary, reports, warnings := [], [], [];
    var i := 0;
    while i < |mapping|
      invariant 0 <= i <= |mapping|
      invariant Outcome(summary, reports, warnings) == Run(wb, mapping[..i], gen)
    {
      var (sheet, columns) := mapping[i];
      assert mapping[..i + 1][..i] == mapping[..i];
      assert Run(wb, mapping[..i + 1], gen)
        == Step(Run(wb, mapping[..i], gen), sheet, ProcessSheet(wb, sheet, columns, gen));
      summary, reports, warnings := AnalyzeSheet(wb, sheet, columns, gen, summary, reports, warnings);
      i := i + 1;
    }
    assert mapping[..i] == mapping;
  }

  /** The body of the loop over configuration entries: validate one entry
      and append what it yields to the accumulated summary, documents and
      warnings. */
  method AnalyzeSheet(wb: Workbook, sheet: string, columns: seq<string>, gen: Generator,
                      summary0: seq<ColumnStat>, reports0: Dict<string, string>, warnings0: seq<Warning>)
    returns (summary: seq<ColumnStat>, reports: Dict<string, string>, warnings: seq<Warning>)
    ensures Outcome(summary, reports, warnings)
      == Step(Outcome(summary0, reports0, warnings0), sheet, ProcessSheet(wb, sheet, columns, gen))
  {
    summary, reports, warnings := summary0, reports0, warnings0;
    if sheet !in wb.sheetNames {
      assert ProcessSheet(wb, sheet, columns, gen) == SheetResult([], None, [SheetNotFound(sheet)]);
      warnings := warnings + [SheetNotFound(sheet)];
      return;
    }
    if sheet !in wb.sheets {
      assert ProcessSheet(wb, sheet, columns, gen) == SheetResult([], None, [SheetUnreadable(sheet)]);
      warnings := warnings + [SheetUnreadable(sheet)];
      return;
    }
    var t := wb.sheets[sheet];
    var cols := columns;
    var absent := Absent(columns, t);
    if absent != [] {
      warnings := warnings + [ColumnsNotFound(sheet, absent)];
      var available := Present(columns, t);
      if available == [] {
        assert ProcessSheet(wb, sheet, columns, gen) == SheetResult([], None, [ColumnsNotFound(sheet, absent)]);
        return;
      }
      cols := available;
    } else {
      NothingAbsent(columns, t);
    }
    ghost var noted := if absent != [] then [ColumnsNotFound(sheet, absent)] else [];
    assert warnings == warnings0 + noted;
    assert cols == Present(columns, t);
    var selected := Select(t, cols);
    if IsEmpty(selected) {
      assert ProcessSheet(wb, sheet, columns, gen) == SheetResult([], None, noted);
      return;
    }
    summary := AppendColumnStats(sheet, selected, cols, summary);
    assert summary == summary0 + SheetRows(sheet, selected, cols);
    match gen(selected, Title(sheet)) {
      case Success(html) =>
        assert ProcessSheet(wb, sheet, columns, gen)
          == SheetResult(SheetRows(sheet, selected, cols), Some(html), noted);
        reports := Put(reports, sheet, html);
      case Failure(e) =>
        assert ProcessSheet(wb, sheet, columns, gen)
          == SheetResult(SheetRows(sheet, selected, cols), None, noted + [ReportFailed(sheet, e)]);
        warnings := warnings + [ReportFailed(sheet, e)];
    }
  }

  /** The loop over the surviving columns: one summary row per column, appended in order. */
  method AppendColumnStats(sheet: string, selected: Table, cols: seq<string>, summary0: seq<ColumnStat>)
    returns (summary: seq<ColumnStat>)
    requires |selected.rows| > 0
    ensures summary == summary0 + SheetRows(sheet, selected, cols)
  {
    summary := summary0;
    var total := |selected.rows|;
    var j := 0;
    while j < |cols|
      invariant 0 <= j <= |cols|
      invariant summary == summary0 + SheetRows(sheet, selected, cols)[..j]
    {
      var missing := MissingCount(selected, cols[j]);
      var stat := ColumnStat(sheet, cols[j], total, missing,
        Rounding.Percentage(missing, total), total - missing);
      assert stat == StatOf(sheet, selected, cols[j]);
      SheetRowsPrefix(sheet, selected, cols, j);
      summary := summary + [stat];
      j := j + 1;
    }
    assert SheetRows(sheet, selected, cols)[..j] == SheetRows(sheet, selected, cols);
  }

  // ---------------------------------------------------------------------
  // Properties of a whole run

  /** The rows of `rows` that belong to `sheet`, in order. */
  function RowsOfSheet(rows: seq<ColumnStat>, sheet: string): (r: seq<ColumnStat>)
    ensures forall k :: 0 <= k < |r| ==> r[k].sheet == sheet
  {
    if rows == [] then []
    else (if rows[0].sheet == sheet then [rows[0]] else []) + RowsOfSheet(rows[1..], sheet)
  }

  /** The warnings of `ws` about `sheet`, in order. */
  function WarningsOfSheet(ws: seq<Warning>, sheet: string): seq<Warning>
  {
    if ws == [] then []
    else (if AboutSheet(ws[0], sheet) then [ws[0]] else []) + WarningsOfSheet(ws[1..], sheet)
  }

  lemma {:induction false} RowsOfSheetAppend(a: seq<ColumnStat>, b: seq<ColumnStat>, sheet: string)
    ensures RowsOfSheet(a + b, sheet) == RowsOfSheet(a, sheet) + RowsOfSheet(b, sheet)
  {
    if a == [] {
      assert a + b == b;
    } else {
      assert (a + b)[1..] == a[1..] + b;
      RowsOfSheetAppend(a[1..], b, sheet);
    }
  }

  lemma {:induction false} WarningsOfSheetAppend(a: seq<Warning>, b: seq<Warning>, sheet: string)
    ensures WarningsOfSheet(a + b, sheet) == WarningsOfSheet(a, sheet) + WarningsOfSheet(b, sheet)
  {
    if a == [] {
      assert a + b == b;
    } else {
      var head := if AboutSheet(a[0], sheet) then [a[0]] else [];
      assert (a + b)[0] == a[0];
      assert (a + b)[1..] == a[1..] + b;
      WarningsOfSheetAppend(a[1..], b, sheet);
      assert WarningsOfSheet(a + b, sheet) == head + WarningsOfSheet(a[1..] + b, sheet);
      assert WarningsOfSheet(a, sheet) == head + WarningsOfSheet(a[1..], sheet);
    }
  }

  /** Rows that all name `one` are kept whole for `one` and dropped for any other sheet. */
  lemma {:induction false} RowsOfOneSheet(rows: seq<ColumnStat>, one: string, sheet: string)
    requires forall k :: 0 <= k < |rows| ==> rows[k].sheet == one
    ensures RowsOfSheet(rows, sheet) == if one == sheet then rows else []
  {
    if rows != [] {
      RowsOfOneSheet(rows[1..], one, sheet);
    }
  }

  lemma {:induction false} WarningsOfOneSheet(ws: seq<Warning>, one: string, sheet: string)
    requires forall k :: 0 <= k < |ws| ==> AboutSheet(ws[k], one)
    ensures WarningsOfSheet(ws, sheet) == if one == sheet then ws else []
  {
    if ws != [] {
      WarningsOfOneSheet(ws[1..], one, sheet);
    }
  }

  /** The configured sheets that end up with a document, in configuration order. */
  function Reported(wb: Workbook, items: Mapping, gen: Generator): (r: seq<string>)
    ensures forall s :: s in r ==> s in Keys(items)
  {
    if items == [] then []
    else
      var init := items[..|items| - 1];
      var (sheet, requested) := items[|items| - 1];
      KeysAppend(init, [items[|items| - 1]]);
      assert items == init + [items[|items| - 1]];
      assert Keys([items[|items| - 1]]) == [sheet];
      Reported(wb, init, gen)
        + (if ProcessSheet(wb, sheet, requested, gen).report.Some? then [sheet] else [])
  }

  lemma RunLast(wb: Workbook, items: Mapping, gen: Generator)
    requires items != []
    ensures var (sheet, requested) := items[|items| - 1];
      Run(wb, items, gen) == Step(Run(wb, items[..|items| - 1], gen), sheet, ProcessSheet(wb, sheet, requested, gen))
  {
  }

  /** The document dictionary of a run is a dictionary whose keys are the
      configured sheets that got a document, in configuration order. */
  lemma {:induction false} ReportKeys(wb: Workbook, items: Mapping, gen: Generator)
    requires Valid(items)
    ensures Valid(Run(wb, items, gen).reports)
    ensures Keys(Run(wb, items, gen).reports) == Reported(wb, items, gen)
  {
    if items != [] {
      var init, last := items[..|items| - 1], items[|items| - 1];
      assert items == init + [last];
      ValidSplit(init, [last]);
      ReportKeys(wb, init, gen);
      RunLast(wb, items, gen);
      var prev := Run(wb, init, gen).reports;
      var r := ProcessSheet(wb, last.0, last.1, gen);
      if r.report.Some? {
        assert Keys([last]) == [last.0];
        assert last.0 !in Keys(prev);
        KeysAppend(prev, [(last.0, r.report.value)]);
      }
    }
  }

  /** Running the concatenation of two configurations is running each and
      concatenating the results: the summary is the entries' rows in
      configuration order, and so are the documents and the warnings. */
  lemma {:induction false} RunAppend(wb: Workbook, a: Mapping, b: Mapping, gen: Generator)
    requires Valid(a + b)
    ensures Run(wb, a + b, gen) == Outcome(
      Run(wb, a, gen).summary + Run(wb, b, gen).summary,
      Run(wb, a, gen).reports + Run(wb, b, gen).reports,
      Run(wb, a, gen).warnings + Run(wb, b, gen).warnings)
  {
    if b == [] {
      assert a + b == a;
    } else {
      var init, last := b[..|b| - 1], b[|b| - 1];
      assert b == init + [last];
      assert a + b == (a + init) + [last];
      assert (a + b)[..|a + b| - 1] == a + init;
      ValidSplit(a + init, [last]);
      ValidSplit(a, init);
      ValidSplit(a, b);
      RunAppend(wb, a, init, gen);
      RunLast(wb, a + b, gen);
      RunLast(wb, b, gen);
      var k := last.0;
      KeysAppend(a, init);
      assert Keys([last]) == [k];
      assert k !in Keys(a + init);
      assert k !in Keys(a) && k !in Keys(init);
      ReportKeys(wb, a, gen);
      ReportKeys(wb, init, gen);
      StepAppend(Run(wb, a, gen), Run(wb, init, gen), k, ProcessSheet(wb, k, last.1, gen));
    }
  }

  /** Step on a concatenated outcome only touches the second part, as long as
      the sheet has no document in the first. */
  lemma StepAppend(A: Outcome, B: Outcome, k: string, r: SheetResult)
    requires k !in Keys(A.reports) && k !in Keys(B.reports)
    ensures Step(Outcome(A.summary + B.summary, A.reports + B.reports, A.warnings + B.warnings), k, r)
      == Outcome(A.summary + Step(B, k, r).summary, A.reports + Step(B, k, r).reports, A.warnings + Step(B, k, r).warnings)
  {
    KeysAppend(A.reports, B.reports);
    assert (A.summary + B.summary) + r.rows == A.summary + (B.summary + r.rows);
    assert (A.warnings + B.warnings) + r.warnings == A.warnings + (B.warnings + r.warnings);
    if r.report.Some? {
      var h := r.report.value;
      assert Put(A.reports + B.reports, k, h) == A.reports + Put(B.reports, k, h);
    }
  }

  /** A sheet missing from the workbook adds one warning and nothing else,
      and the run carries on with the next entry unchanged. */
  lemma UnknownSheetSkipped(wb: Workbook, a: Mapping, sheet: string, requested: seq<string>, b: Mapping, gen: Generator)
    requires Valid(a + [(sheet, requested)] + b)
    requires sheet !in wb.sheetNames
    ensures Run(wb, a + [(sheet, requested)] + b, gen) == Outcome(
      Run(wb, a, gen).summary + Run(wb, b, gen).summary,
      Run(wb, a, gen).reports + Run(wb, b, gen).reports,
      Run(wb, a, gen).warnings + [SheetNotFound(sheet)] + Run(wb, b, gen).warnings)
  {
    var e: Mapping := [(sheet, requested)];
    ValidSplit(a + e, b);
    RunAppend(wb, a + e, b, gen);
    RunAppend(wb, a, e, gen);
    ProcessSheetWarnings(wb, sheet, requested, gen);
    RunLast(wb, e, gen);
    assert e[..0] == [];
    var E := Run(wb, e, gen);
    assert E == Outcome([], [], [SheetNotFound(sheet)]);
    var A, B, AE := Run(wb, a, gen), Run(wb, b, gen), Run(wb, a + e, gen);
    assert AE == Outcome(A.summary, A.reports, A.warnings + [SheetNotFound(sheet)]) by {
      assert A.summary + [] == A.summary;
      assert A.reports + [] == A.reports;
    }
  }

  /** What a run records about one sheet is exactly what that sheet's own
      entry yields: its rows, its document and its warnings; a sheet that is
      not configured has none. */
  lemma {:induction false} SheetLocality(wb: Workbook, items: Mapping, gen: Generator, sheet: string)
    requires Valid(items)
    ensures var o := Run(wb, items, gen);
      match Lookup(items, sheet)
      case None =>
        RowsOfSheet(o.summary, sheet) == [] && Lookup(o.reports, sheet) == None
        && WarningsOfSheet(o.warnings, sheet) == []
      case Some(requested) =>
        var r := ProcessSheet(wb, sheet, requested, gen);
        RowsOfSheet(o.summary, sheet) == r.rows && Lookup(o.reports, sheet) == r.report
        && WarningsOfSheet(o.warnings, sheet) == r.warnings
  {
    if items != [] {
      var init, last := items[..|items| - 1], items[|items| - 1];
      assert items == init + [last];
      ValidSplit(init, [last]);
      SheetLocality(wb, init, gen, sheet);
      RunLast(wb, items, gen);
      LookupAppend(init, [last], sheet);
      assert Keys([last]) == [last.0];
      var prev := Run(wb, init, gen);
      var r := ProcessSheet(wb, last.0, last.1, gen);
      RowsOfSheetAppend(prev.summary, r.rows, sheet);
      RowsOfOneSheet(r.rows, last.0, sheet);
      WarningsOfSheetAppend(prev.warnings, r.warnings, sheet);
      WarningsOfOneSheet(r.warnings, last.0, sheet);
    }
  }

  /** Every summary row of a run describes the sheet and column it names:
      the sheet's row count (at least one), the column's missing count, the
      non-missing count as the number of present cells and their difference,
      and the percentage rounded to two decimals within [0, 100]. */
  lemma {:induction false} SummaryDescribesWorkbook(wb: Workbook, items: Mapping, gen: Generator)
    ensures forall k :: 0 <= k < |Run(wb, items, gen).summary| ==> Describes(wb, Run(wb, items, gen).summary[k])
  {
    if items != [] {
      var init, last := items[..|items| - 1], items[|items| - 1];
      SummaryDescribesWorkbook(wb, init, gen);
      RunLast(wb, items, gen);
      ProcessSheetRows(wb, last.0, last.1, gen);
    }
  }

  /** Every row of a run's summary is well formed. */
  lemma RunRowsWellFormed(wb: Workbook, items: Mapping, gen: Generator)
    ensures forall k :: 0 <= k < |Run(wb, items, gen).summary| ==> WellFormed(Run(wb, items, gen).summary[k])
  {
    SummaryDescribesWorkbook(wb, items, gen);
  }

  /** The summary does not depend on the report generator: a failing
      document leaves every row in place. */
  lemma {:induction false} SummaryIgnoresGenerator(wb: Workbook, items: Mapping, gen1: Generator, gen2: Generator)
    ensures Run(wb, items, gen1).summary == Run(wb, items, gen2).summary
  {
    if items != [] {
      var init, last := items[..|items| - 1], items[|items| - 1];
      SummaryIgnoresGenerator(wb, init, gen1, gen2);
      RunLast(wb, items, gen1);
      RunLast(wb, items, gen2);
      ProcessSheetRows(wb, last.0, last.1, gen1);
      ProcessSheetRows(wb, last.0, last.1, gen2);
      var r1, r2 := ProcessSheet(wb, last.0, last.1, gen1), ProcessSheet(wb, last.0, last.1, gen2);
      assert r1.rows == r2.rows by {
        if Contributes(wb, last.0, last.1) {
          var t := wb.sheets[last.0];
          var cols := Present(last.1, t);
          assert r1.rows == SheetRows(last.0, Select(t, cols), cols) == r2.rows;
        }
      }
    }
  }

  /** Every sheet with a document also has summary rows. */
  lemma ReportedSheetsHaveRows(wb: Workbook, items: Mapping, gen: Generator, sheet: string)
    requires Valid(items)
    requires Lookup(Run(wb, items, gen).reports, sheet).Some?
    ensures RowsOfSheet(Run(wb, items, gen).summary, sheet) != []
    ensures sheet in Keys(items) && Contributes(wb, sheet, Lookup(items, sheet).value)
  {
    SheetLocality(wb, items, gen, sheet);
    var requested := Lookup(items, sheet).value;
    ProcessSheetReport(wb, sheet, requested, gen);
  }

  /** An unknown sheet is warned about exactly once, and a known one never. */
  lemma SheetNotFoundWarning(wb: Workbook, items: Mapping, gen: Generator, sheet: string)
    requires Valid(items)
    ensures var ws := WarningsOfSheet(Run(wb, items, gen).warnings, sheet);
      if sheet in Keys(items) && sheet !in wb.sheetNames then ws == [SheetNotFound(sheet)]
      else SheetNotFound(sheet) !in ws
  {
    SheetLocality(wb, items, gen, sheet);
    if sheet in Keys(items) {
      ProcessSheetWarnings(wb, sheet, Lookup(items, sheet).value, gen);
    }
  }
}
