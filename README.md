# Missing-value analysis engine, modelled in Dafny

This project models the analysis core of a spreadsheet missing-value tool
(`missing_values_app.py`). The engine takes a workbook and a configuration
that maps sheet names to the columns to check. It validates the
configuration against the workbook. For every surviving column it computes
the total rows, the missing cells, the missing percentage rounded to two
decimals and the present cells. It asks a report generator for one document
per sheet. It then packs everything into an archive: the detailed summary,
the summary aggregated by column, and one HTML document per sheet.

Modules, one per component:

- `Wrappers` (`wrappers.dfy`): `Option` and `Result`.
- `OrderedDict` (`ordered_dict.dfy`): a Python dictionary. It is a sequence of
  (key, value) entries in insertion order with distinct keys. `Put` is
  `d[k] = v`: it replaces the value in place or appends a new entry.
- `Rounding` (`rounding.dfy`): exact round-half-to-even of a rational number.
  It gives the percentage `100·m/n` to two decimals, kept as an integer count
  of hundredths (3000 is 30.00 %), and the rounded mean of percentages.
- `Workbook` (`workbook.dfy`): tables are ordered column names plus rows of
  cells; a cell is `None` when missing. A workbook is the list of sheet names
  plus the sheets that load. Also here: column selection, both filters of the
  requested columns, and missing/present counts.
- `Stats` (`stats.dfy`): the summary row `ColumnStat` and how one is computed.
- `Analysis` (`analysis.dfy`): `analyze_missing_values_streamlit`. The method
  `Analyze` loops over the configuration entries. `AnalyzeSheet` is the body
  of that loop and `AppendColumnStats` is the inner loop over columns. All
  three are proved against the functions `ProcessSheet`, `Step` and `Run`;
  the lemmas about a whole run are stated on `Run`.
- `Aggregation` (`aggregation.dfy`): group-by-column. `GroupBy` folds the
  summary row by row, the way the group-by accumulates. It is proved equal to
  the reference definition: sums over the rows of each column.
- `Archive` (`archive.dfy`): `create_download_zip`. `ZipWriter` is the zip
  file that `writestr` appends to. `CreateDownloadZip` writes the entries and
  is proved against `ArchiveOf`.
- `Configuration` (`configuration.dfy`): the two mapping builders of the UI.
  One gives every sheet the same columns; the other flattens the
  configuration into (sheet, column) pairs.
- `Scenarios` (`scenarios.dfy`): four worked examples.

Collaborators that are outside the model become parameters:

- the parsed workbook is a `Result<Workbook, string>`; `Failure` is a file
  that cannot be opened;
- the report generator (a profiling library) is a `Generator`, a function
  from the selected table and a title to a document or an error;
- `st.warning` and `st.error` become a returned list of `Warning` values.

Two choices about the aggregated summary:

- The archive gets the aggregated summary whenever the summary has at least
  one row (line 97). Only the on-screen table and its separate download
  button require more than one row (lines 263, 310).
- `groupby` sorts its keys. The model keys the aggregate by column as a map
  and leaves the order out.

## Model

| member | source | states |
|---|---|---|
| `OrderedDict.Put` | missing_values_app.py:71 | `d[k] = v`: afterwards `k` maps to `v` and every other key keeps its value. A new key is appended at the end; an existing key keeps its position. Distinct keys stay distinct. |
| `OrderedDict.LookupAppend` | missing_values_app.py:109-110 | Lookup in a concatenation of entry lists finds the first list's entry first. |
| `Rounding.RoundHalfEven` | missing_values_app.py:57 | The result is within one half of `num/den`, and on an exact half it is even. |
| `Rounding.RoundingUnique` | missing_values_app.py:57 | At most one integer meets that rounding characterisation, so the rounding is fully determined. |
| `Rounding.RoundExact` | missing_values_app.py:102 | Rounding an exact whole number returns it unchanged. |
| `Rounding.RoundBelow` | missing_values_app.py:57 | If `num/den <= m`, the rounded value is at most `m`. |
| `Rounding.RoundAbove` | missing_values_app.py:57 | If `m <= num/den`, the rounded value is at least `m`. |
| `Rounding.Percentage` | missing_values_app.py:49-57 | The percentage is `100·missing/total` rounded to hundredths. It lies in [0, 100] when `missing <= total`, is 0 when nothing is missing and 100 when everything is. |
| `Rounding.Mean` | missing_values_app.py:101-102 | The mean `sum/count` rounded to hundredths; it is at most any whole bound on each averaged value. |
| `Workbook.CountsPartition` | missing_values_app.py:48-50 | Missing cells plus present cells equal the row count. |
| `Workbook.Present` | missing_values_app.py:34 | `available_cols`: a column is kept exactly when it was requested and the sheet has it. |
| `Workbook.Absent` | missing_values_app.py:31 | `missing_cols`: a column is listed exactly when it was requested and the sheet lacks it. With `Present` it accounts for every requested column. |
| `Workbook.NothingAbsent` | missing_values_app.py:32-37 | When no requested column is missing, the request is used unchanged, and it equals the filtered list. |
| `Workbook.ColumnCells` | missing_values_app.py:48 | `df_selected[col]`: the column's cells from top to bottom, one per row. A row shorter than the header reads as missing there, and a column the header lacks reads as missing in every row. |
| `Workbook.AbsentColumnAllMissing` | missing_values_app.py:48 | A column the table lacks counts as missing in every row, however long the rows are. No cell is invented from beyond the header. |
| `Workbook.CountMissing` | missing_values_app.py:48 | `.isnull().sum()` over a column's cells: the number of missing cells, never more than the number of cells. |
| `Workbook.MissingCount` | missing_values_app.py:48 | `df[c].isnull().sum()`: the number of missing cells of the column, never more than the row count. |
| `Workbook.Select` | missing_values_app.py:39 | `df[cols]`: the table keeps exactly the given columns in the given order, and all of its rows. |
| `Workbook.IsEmpty` | missing_values_app.py:41 | `DataFrame.empty`: the table has no column or no row. |
| `Workbook.SelectKeepsColumn` | missing_values_app.py:39 | A column of the selected table holds the same cells as in the sheet. |
| `Stats.StatOf` | missing_values_app.py:44-59 | A summary row has total rows equal to the table's row count (> 0), the column's missing count (≤ total), the present count as the non-missing count (total − missing), and the percentage rounded to two decimals within [0, 100]. |
| `Analysis.Title` | missing_values_app.py:65 | The report title is `Missing Values Analysis - ` followed by the sheet name. |
| `Analysis.Contributes` | missing_values_app.py:23-42 | The condition under which an entry reaches the statistics. The sheet is listed and loads, at least one requested column exists in it, and it has at least one row, so the selection is not empty. |
| `Analysis.Selected` | missing_values_app.py:31-39 | `df_selected`: the sheet restricted to the requested columns it has, in request order. |
| `Analysis.SheetRows` | missing_values_app.py:47-59 | The rows the column loop emits: one summary row per selected column, in column order. |
| `Analysis.ProcessSheet` | missing_values_app.py:23-78 | One configuration entry, branch by branch. An unknown sheet gives a "not found" warning. A sheet that does not load gives an "unreadable" warning. Absent columns give one warning, and the entry then keeps the present columns. No present column or no row means no rows. Otherwise there is one row per column, plus the generator's document or a "report failed" warning. Its contract: every row and every warning names the entry's sheet. |
| `Analysis.Step` | missing_values_app.py:52-74 | Adds one entry's result to the run so far: rows and warnings are appended, and a document is stored with `d[k] = v`. |
| `Analysis.Run` | missing_values_app.py:22-80 | The loop over the configuration entries in dictionary order, folding `Step` over `ProcessSheet`, starting from no rows, documents or warnings. |
| `Analysis.AnalysisOf` | missing_values_app.py:10-84 | The whole function: an unreadable workbook gives no rows, no documents and one warning with the reason; otherwise `Run`. |
| `Analysis.ProcessSheetRows` | missing_values_app.py:22-59 | One entry's rows are exactly the requested columns the sheet has, in request order, and each describes its column of the sheet. An unknown sheet, a sheet that fails to load, one with none of the columns, or one with no rows gives no rows. |
| `Analysis.ProcessSheetReport` | missing_values_app.py:61-74 | An entry gets a document exactly when it yields rows and the generator succeeds on its selected table with the sheet's title. The document is the generator's output. When the generator fails on a contributing sheet, the entry carries a "report failed" warning with the generator's reason. No other entry carries such a warning. |
| `Analysis.ProcessSheetWarnings` | missing_values_app.py:23-78 | An unknown sheet gives exactly one "not found" warning and nothing else. A listed sheet that fails to load gives exactly one "unreadable" warning and nothing else (lines 28, 76-77). A "columns not found" warning appears exactly when some requested column is absent, and it names exactly those columns. A listed sheet that loads carries exactly this list: the absent-columns warning when some column is absent (line 33), then one "report failed" warning when it reached the report and the generator failed (line 74). So an entry carries at most two warnings, and at most one of them is about absent columns. |
| `Analysis.Analyze` | missing_values_app.py:10-84 | The analysis method returns exactly the summary, documents and warnings of `AnalysisOf`: a run over the entries in order, or no rows and no documents for an unreadable workbook. |
| `Analysis.AnalyzeSheet` | missing_values_app.py:22-78 | One iteration of the entry loop appends exactly that entry's rows, document and warnings to what was accumulated. |
| `Analysis.AppendColumnStats` | missing_values_app.py:46-59 | The column loop appends one summary row per selected column, in order. |
| `Analysis.ReportKeys` | missing_values_app.py:71 | The document dictionary has distinct keys: the configured sheets that got a document, in configuration order. |
| `Analysis.RunAppend` | missing_values_app.py:22 | Running two configurations one after the other gives the concatenation of their summaries, their document dictionaries and their warnings. |
| `Analysis.UnknownSheetSkipped` | missing_values_app.py:23-25 | An entry for a sheet the workbook lacks adds one warning. It adds no rows and no document, and the entries before and after are processed as if it were absent. |
| `Analysis.SheetLocality` | missing_values_app.py:22-78 | The rows, document and warnings a run records for a sheet are exactly those of that sheet's own entry. A sheet that is not configured has none. |
| `Analysis.SummaryDescribesWorkbook` | missing_values_app.py:44-59 | Every summary row of a run names a listed, loaded sheet and a column it has. Its counts and percentage are those of that column of that sheet. |
| `Analysis.SummaryIgnoresGenerator` | missing_values_app.py:62-74 | The summary is the same whatever the report generator does, so a failed document removes no rows. |
| `Analysis.ReportedSheetsHaveRows` | missing_values_app.py:41-71 | Every sheet with a document is configured, passes validation and has summary rows. |
| `Analysis.SheetNotFoundWarning` | missing_values_app.py:23-24 | A configured sheet missing from the workbook is warned about exactly once; any other sheet is never reported as missing. |
| `Analysis.RunRowsWellFormed` | missing_values_app.py:44-59 | Every row of a run's summary is well formed. It has a positive row count, missing ≤ total and present = total − missing. Its percentage is exactly the rounded percentage of its counts. |
| `Aggregation.GroupBy` | missing_values_app.py:98-101 | Scans the summary once and accumulates, per column, the row sum, the missing sum, the percentage sum and the row count. Every group it creates holds at least one row. |
| `Aggregation.Aggregate` | missing_values_app.py:98-102 | The `agg(sum, sum, mean).round(2)` of each group, keyed and labelled by its column. |
| `Aggregation.GroupByIsSumOverColumn` | missing_values_app.py:98-101 | Folding the summary into groups gives, for each column, the sums of rows, missing counts and percentages over that column's rows, and the number of such rows. A column has a group exactly when some row names it. |
| `Aggregation.AggregateIsPerColumnSums` | missing_values_app.py:98-102 | The aggregate has one entry per distinct column of the summary. Its counts are sums over that column's rows; its percentage is the mean of their percentages, rounded to two decimals. |
| `Aggregation.SumsBounded` | missing_values_app.py:99-101 | Over well-formed rows, summed missing counts never exceed summed row counts, and the percentages add up to at most 100 per row. |
| `Aggregation.AggregateBounded` | missing_values_app.py:98-102 | For well-formed rows, each aggregated column has missing ≤ total and a mean percentage within [0, 100]. |
| `Aggregation.SingleRowColumn` | missing_values_app.py:98-102 | A column that appears in one row only is aggregated to that row's own figures. |
| `Archive.ReportName` | missing_values_app.py:110 | A document entry is named `{sheet}_missing_values_report.html`. |
| `Archive.ReportEntries` | missing_values_app.py:109-110 | One HTML entry per dictionary entry, in dictionary order, named after its sheet. |
| `Archive.ArchiveOf` | missing_values_app.py:90-110 | The archive's entries in writing order: `missing_values_summary.csv`, then `aggregated_missing_summary.csv` when the summary has a row, then the documents. |
| `Archive.ZipWriter.constructor` | missing_values_app.py:88-90 | Opening a fresh archive for writing: it starts with no entries. |
| `Archive.ZipWriter.WriteStr` | missing_values_app.py:94 | `writestr` appends one named entry and keeps the earlier ones. |
| `Archive.CreateDownloadZip` | missing_values_app.py:86-112 | The archive method writes exactly the entries of `ArchiveOf`, in order: the detailed summary, then the aggregate when the summary is non-empty, then one document per dictionary entry. |
| `Archive.ReportNameInjective` | missing_values_app.py:110 | Different sheets get different document entry names. |
| `Archive.ReportNameNotCsv` | missing_values_app.py:94-110 | No document entry name equals either CSV entry name. |
| `Archive.FindReport` | missing_values_app.py:109-110 | A sheet's document is found under `{sheet}_missing_values_report.html` exactly when the dictionary holds one, and it has that text. |
| `Archive.ArchiveLookup` | missing_values_app.py:94-110 | `missing_values_summary.csv` always holds the summary. `aggregated_missing_summary.csv` holds the aggregate exactly when the summary is non-empty. Each sheet's document is present exactly when the dictionary holds one. |
| `Archive.ArchiveNames` | missing_values_app.py:94-110 | The entry names in writing order: `missing_values_summary.csv` first, then `aggregated_missing_summary.csv` when the summary has a row, then `{sheet}_missing_values_report.html` for each dictionary entry in order. Nothing else is written. |
| `Archive.ArchiveNamesDistinct` | missing_values_app.py:94-110 | When the documents come from a dictionary, all archive entry names are different. |
| `Archive.ArchiveNamesKnown` | missing_values_app.py:94-110 | Every entry is named as a CSV or as the document of a dictionary sheet, and the aggregate entry is present exactly when the summary is non-empty. |
| `Archive.RunAggregateBounded` | missing_values_app.py:97-106 | In the aggregate archived for an analysis run, every column has missing ≤ total rows and a mean percentage within [0, 100]. |
| `Archive.ArchiveOfRun` | missing_values_app.py:109-110 | Every entry in the archive of an analysis result is one of three things: the summary CSV, the aggregate (only when the summary is non-empty), or the document of a sheet that has summary rows. |
| `Configuration.Pairs` | missing_values_app.py:224-226 | The (sheet, column) display list: each entry's columns in order, entries in dictionary order. |
| `Configuration.QuickMapping` | missing_values_app.py:168-171 | With columns selected, every workbook sheet maps to the selection; with none selected, nothing is configured. For distinct sheet names the keys follow the workbook order. |
| `Configuration.ConfigPairs` | missing_values_app.py:224-226 | The display list is exactly `Pairs` of the configuration, entry by entry and column by column. |
| `Configuration.PairsMembership` | missing_values_app.py:224-226 | A (sheet, column) pair is listed exactly when some entry requests that column for that sheet. |
| `Configuration.PairsLength` | missing_values_app.py:224-226 | The list has one pair per requested column of every entry. |
| `Scenarios.TenRowsThreeMissing` | missing_values_app.py:44-59 | With 10 rows and 3 missing cells, the row is (10, 3, 30.00, 7). |
| `Scenarios.TwoRowsOneMissing` | missing_values_app.py:44-59 | With 2 rows and 1 missing cell, the row is (2, 1, 50.00, 1). |
| `Scenarios.TwoSheetsOneColumn` | missing_values_app.py:44-102 | Two tables' rows for column A, computed as above (3 of 10 and 1 of 2 missing), aggregate to (12, 4, 40.00). |
| `Scenarios.AbsentColumnWarned` | missing_values_app.py:31-37 | Requesting Z and A of a sheet with columns A and B gives a row for A only and a warning naming Z. |

## Left out

- The Streamlit page (lines 114-368): uploader, radio buttons, multiselects, metrics, charts and download buttons. Only the two mapping builders (lines 168-171, 224-226) are modelled.
- Spreadsheet parsing (`pd.ExcelFile`, `pd.read_excel`, lines 20 and 28). The workbook is given as data. Any load failure of a listed sheet appears as a sheet with no table and gives an "unreadable" warning. Other exceptions inside the per-sheet `try` (lines 76-78) are not modelled separately.
- pandas renames duplicate column headers, so a sheet's columns are distinct in practice. The model looks up the first column with a given name and does not depend on this.
- A column requested twice: pandas then selects a two-column frame and the statistics turn into series. The model emits one row per request.
- The profiling report library (lines 63-70) is the `Generator` parameter; what the document contains is not modelled.
- Byte-exact CSV text (`to_csv`), zip compression, `BytesIO` and the unused temporary directory (line 15). Archive entries carry the table to be serialised, not its bytes.
- Floating point: percentages and means are exact rationals rounded half-to-even to hundredths, not binary floats.
- `Aggregation.Aggregate`: the aggregate is a map keyed by column, so it does not model the sorted row order that the group-by produces.
- JSON decoding of a typed configuration (line 215), the summary metrics on the page (lines 248-256) and the "no data" message (line 345).
