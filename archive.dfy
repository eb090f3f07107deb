/** The downloadable archive: the detailed summary, the aggregated summary
    when there is anything to aggregate, and one HTML document per sheet
    that got one, as named entries written one after another. */
module Archive {
  import opened Wrappers
  import opened OrderedDict
  import opened Stats
  import opened Aggregation
  import Workbook
  import Analysis

  /** What an entry holds. The CSV text itself is not modelled: an entry
      carries the table that would be serialised. */
  datatype Content =
    | SummaryCsv(rows: seq<ColumnStat>)
    | AggregateCsv(stats: map<string, AggregatedStat>)
    | Html(text: string)

  /** The archive as its entries in writing order, name first. */
  type Entries = Dict<string, Content>

  const SummaryName: string := "missing_values_summary.csv"
  const AggregateName: string := "aggregated_missing_summary.csv"
  const ReportSuffix: string := "_missing_values_report.html"

  function ReportName(sheet: string): string
  {
    sheet + ReportSuffix
  }

  /** An archive being written: `writestr` appends one named entry. */
  class ZipWriter {
    var entries: Entries

    constructor ()
      ensures entries == []
    {
      entries := [];
    }

    method WriteStr(name: string, content: Content)
      modifies this
      ensures entries == old(entries) + [(name, content)]
    {
      entries := entries + [(name, content)];
    }
  }

  function ReportEntries(reports: Dict<string, string>): Entries
  {
    seq(|reports|, k requires 0 <= k < |reports| => (ReportName(reports[k].0), Html(reports[k].1)))
  }

  /** The archive's entries, in the order they are written. */
  function ArchiveOf(summary: seq<ColumnStat>, reports: Dict<string, string>): Entries
  {
    [(SummaryName, SummaryCsv(summary))]
      + (if |summary| > 0 then [(AggregateName, AggregateCsv(Aggregate(summary)))] else [])
      + ReportEntries(reports)
  }

  method CreateDownloadZip(summary: seq<ColumnStat>, reports: Dict<string, string>) returns (archive: Entries)
    ensures archive == ArchiveOf(summary, reports)
  {
    var zip := new ZipWriter();
    zip.WriteStr(SummaryName, SummaryCsv(summary));
    if |summary| > 0 {
      var aggregated := Aggregate(summary);
      zip.WriteStr(AggregateName, AggregateCsv(aggregated));
    }
    ghost var head := zip.entries;
    var i := 0;
    while i < |reports|
      invariant 0 <= i <= |reports|
      invariant zip.entries == head + ReportEntries(reports[..i])
    {
      var (sheet, html) := reports[i];
      assert ReportEntries(reports[..i + 1]) == ReportEntries(reports[..i]) + [(ReportName(sheet), Html(html))];
      zip.WriteStr(ReportName(sheet), Html(html));
      i := i + 1;
    }
    assert reports[..i] == reports;
    archive := zip.entries;
  }

  // ---------------------------------------------------------------------
  // Entry names

  /** Distinct sheets give distinct document names. */
  lemma ReportNameInjective(s1: string, s2: string)
    requires ReportName(s1) == ReportName(s2)
    ensures s1 == s2
  {
    assert |s1| == |s2|;
    assert s1 == ReportName(s1)[..|s1|];
    assert s2 == ReportName(s2)[..|s2|];
  }

  /** A document name never clashes with either CSV name. */
  lemma ReportNameNotCsv(sheet: string)
    ensures ReportName(sheet) != SummaryName && ReportName(sheet) != AggregateName
  {
    var n := ReportName(sheet);
    assert n[|n| - 1] == ReportSuffix[|ReportSuffix| - 1] == 'l';
    assert SummaryName[|SummaryName| - 1] == 'v';
    assert AggregateName[|AggregateName| - 1] == 'v';
  }

  lemma ReportEntriesCons(reports: Dict<string, string>)
    requires reports != []
    ensures ReportEntries(reports) == [(ReportName(reports[0].0), Html(reports[0].1))] + ReportEntries(reports[1..])
  {
  }

  /** A sheet's document is found in the archive under its document name
      exactly when the dictionary holds one for it. */
  lemma {:induction false} FindReport(reports: Dict<string, string>, sheet: string)
    ensures Lookup(ReportEntries(reports), ReportName(sheet))
      == match Lookup(reports, sheet) case None => None case Some(h) => Some(Html(h))
  {
    if reports != [] {
      ReportEntriesCons(reports);
      FindReport(reports[1..], sheet);
      if reports[0].0 != sheet {
        if ReportName(reports[0].0) == ReportName(sheet) {
          ReportNameInjective(reports[0].0, sheet);
        }
      }
    }
  }

  lemma {:induction false} NoCsvAmongReports(reports: Dict<string, string>)
    ensures Lookup(ReportEntries(reports), SummaryName) == None
    ensures Lookup(ReportEntries(reports), AggregateName) == None
  {
    if reports != [] {
      ReportEntriesCons(reports);
      ReportNameNotCsv(reports[0].0);
      NoCsvAmongReports(reports[1..]);
    }
  }

  /** Looking entries up by name: the detailed summary is always there, the
      aggregated summary exactly when the summary has rows, and each sheet's
      document exactly when the dictionary holds one, with its text. */
  lemma ArchiveLookup(summary: seq<ColumnStat>, reports: Dict<string, string>)
    ensures Lookup(ArchiveOf(summary, reports), SummaryName) == Some(SummaryCsv(summary))
    ensures Lookup(ArchiveOf(summary, reports), AggregateName)
      == if |summary| > 0 then Some(AggregateCsv(Aggregate(summary))) else None
    ensures forall sheet ::
      Lookup(ArchiveOf(summary, reports), ReportName(sheet)) == (match Lookup(reports, sheet) case None => None case Some(h) => Some(Html(h)))
  {
    var first: Entries := [(SummaryName, SummaryCsv(summary))];
    var agg: Entries := if |summary| > 0 then [(AggregateName, AggregateCsv(Aggregate(summary)))] else [];
    var rest := ReportEntries(reports);
    assert ArchiveOf(summary, reports) == first + (agg + rest);
    LookupAppend(first, agg + rest, SummaryName);
    LookupAppend(first, agg + rest, AggregateName);
    LookupAppend(agg, rest, AggregateName);
    NoCsvAmongReports(reports);
    forall sheet
      ensures Lookup(ArchiveOf(summary, reports), ReportName(sheet))
        == match Lookup(reports, sheet) case None => None case Some(h) => Some(Html(h))
    {
      ReportNameNotCsv(sheet);
      LookupAppend(first, agg + rest, ReportName(sheet));
      LookupAppend(agg, rest, ReportName(sheet));
      FindReport(reports, sheet);
    }
  }

  /** The names in the archive: the CSV names first, then one document name per sheet. */
  lemma ArchiveNames(summary: seq<ColumnStat>, reports: Dict<string, string>)
    ensures var names, off := Keys(ArchiveOf(summary, reports)), if |summary| > 0 then 2 else 1;
      && |names| == off + |reports|
      && names[0] == SummaryName
      && (off == 2 ==> names[1] == AggregateName)
      && forall k :: 0 <= k < |reports| ==> names[off + k] == ReportName(reports[k].0)
  {
  }

  /** Entry names are all different when the documents come from a dictionary. */
  lemma ArchiveNamesDistinct(summary: seq<ColumnStat>, reports: Dict<string, string>)
    requires Valid(reports)
    ensures Distinct(Keys(ArchiveOf(summary, reports)))
  {
    var names := Keys(ArchiveOf(summary, reports));
    var off := if |summary| > 0 then 2 else 1;
    ArchiveNames(summary, reports);
    forall i, j | 0 <= i < j < |names| ensures names[i] != names[j] {
      if j >= off {
        var sj := reports[j - off].0;
        assert names[j] == ReportName(sj);
        ReportNameNotCsv(sj);
        if i >= off {
          var si := reports[i - off].0;
          assert names[i] == ReportName(si);
          assert Keys(reports)[i - off] != Keys(reports)[j - off];
          if names[i] == names[j] {
            ReportNameInjective(si, sj);
          }
        }
      }
    }
  }

  /** Every entry name is one of the two CSV names or the document name of
      a sheet in the dictionary; the aggregated CSV appears exactly when the
      summary is not empty. */
  lemma ArchiveNamesKnown(summary: seq<ColumnStat>, reports: Dict<string, string>)
    ensures forall k :: 0 <= k < |ArchiveOf(summary, reports)| ==>
      var name := ArchiveOf(summary, reports)[k].0;
      name == SummaryName || (name == AggregateName && |summary| > 0)
      || exists j :: 0 <= j < |reports| && name == ReportName(reports[j].0)
    ensures AggregateName in Keys(ArchiveOf(summary, reports)) <==> |summary| > 0
  {
    ArchiveLookup(summary, reports);
    var a := ArchiveOf(summary, reports);
    var off := if |summary| > 0 then 2 else 1;
    forall k | 0 <= k < |a|
      ensures a[k].0 == SummaryName || (a[k].0 == AggregateName && |summary| > 0)
        || exists j :: 0 <= j < |reports| && a[k].0 == ReportName(reports[j].0)
    {
      if k >= off {
        assert a[k].0 == ReportName(reports[k - off].0);
      }
    }
  }

  /** Archiving the result of an analysis run adds no document beyond the
      sheets that produced summary rows. */
  lemma ArchiveOfRun(wb: Workbook.Workbook, items: Analysis.Mapping, gen: Analysis.Generator)
    requires Valid(items)
    ensures var o := Analysis.Run(wb, items, gen);
      forall k :: 0 <= k < |ArchiveOf(o.summary, o.reports)| ==>
        var name := ArchiveOf(o.summary, o.reports)[k].0;
        name == SummaryName || (name == AggregateName && |o.summary| > 0)
        || exists sheet :: name == ReportName(sheet) && Analysis.RowsOfSheet(o.summary, sheet) != []
  {
    var o := Analysis.Run(wb, items, gen);
    ArchiveNamesKnown(o.summary, o.reports);
    forall j | 0 <= j < |o.reports|
      ensures Analysis.RowsOfSheet(o.summary, o.reports[j].0) != []
    {
      assert Keys(o.reports)[j] == o.reports[j].0;
      Analysis.ReportedSheetsHaveRows(wb, items, gen, o.reports[j].0);
    }
  }

  /** The aggregate an analysis run's archive holds keeps, for every column,
      the missing count within the row count and the percentage within 100. */
  lemma RunAggregateBounded(wb: Workbook.Workbook, items: Analysis.Mapping, gen: Analysis.Generator)
    ensures var agg := Aggregate(Analysis.Run(wb, items, gen).summary);
      forall c :: c in agg ==> agg[c].missingCount <= agg[c].totalRows && agg[c].missingPct <= 10000
  {
    Analysis.RunRowsWellFormed(wb, items, gen);
    AggregateBounded(Analysis.Run(wb, items, gen).summary);
  }
}
