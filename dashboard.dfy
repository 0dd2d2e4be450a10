/**
 * One run of the dashboard script on an uploaded file: load, filter, and
 * either the empty-selection warning, the result tables, or the error message
 * of the catch-all handler.
 */
module Dashboard {
  import opened Wrappers
  import opened Dates
  import opened Records
  import opened Groups
  import opened Filtering
  import Kpi
  import DailySeries
  import Distribution
  import Pivot
  import Keys

  /** The tables the page shows; `plotDates` is present when the overlay toggle is on. */
  datatype Tables = Tables(
    kpi: seq<Kpi.KpiRow>,
    daily: seq<DailySeries.DailyRow>,
    plotDates: Option<seq<Timestamp>>,
    distribution: seq<Distribution.DistRow>,
    pivot: seq<Pivot.PivotRow>)

  datatype Outcome =
    | NoData          // "No data found for the selected filters."
    | Shown(tables: Tables)
    | Failed          // "An error occurred: ..."

  /** The CSV loader is used for a file name ending in ".csv", the spreadsheet branch otherwise. */
  predicate IsCsvName(name: string) {
    |name| >= 4 && name[|name| - 4..] == ".csv"
  }

  /** Loads an upload through the loader its file name selects. */
  method Load(name: string, raw: seq<RawRow>, parse: string -> Option<Timestamp>) returns (df: seq<Sale>)
    ensures |df| == |raw|
    ensures IsCsvName(name) ==> forall i :: 0 <= i < |raw| ==> df[i] == CsvRow(raw[i], parse)
    ensures !IsCsvName(name) ==> forall i :: 0 <= i < |raw| ==> df[i] == SheetRow(raw[i], parse)
    ensures WellFormed(df)
    ensures ValidParser(parse) ==> ValidDates(df)
  {
    if IsCsvName(name) {
      df := LoadCsv(raw, parse);
    } else {
      df := LoadSheet(raw, parse);
    }
  }

  /** Everything after loading: the filter, then the tables of the page. */
  function Render(df: seq<Sale>, years: set<string>, series: set<string>, align: bool): Outcome {
    var f := Filter(df, years, series);
    if f == [] then NoData
    else
      var daily := DailySeries.DailyTable(f);
      var plot := if align then DailySeries.PlotDates(daily) else None;
      if align && plot.None? then Failed
      else Shown(Tables(Kpi.KpiTable(f), daily, plot, Distribution.DistTable(f), Pivot.PivotTable(f)))
  }

  /** The warning is shown exactly when no row has a selected year and series. */
  lemma RenderNoData(df: seq<Sale>, years: set<string>, series: set<string>, align: bool)
    ensures Render(df, years, series, align).NoData? <==>
            forall s :: s in df ==> s.year !in years || s.series !in series
  {
    FilterEmpty(df, years, series);
  }

  /**
   * With real dates the run never reaches the error handler: the tables are
   * shown whenever a row is selected, with the aligned dates when asked for.
   */
  lemma RenderNeverFails(df: seq<Sale>, years: set<string>, series: set<string>, align: bool)
    requires ValidDates(df)
    ensures Render(df, years, series, align).Failed? == false
    ensures Render(df, years, series, align).Shown? ==>
            (Render(df, years, series, align).tables.plotDates.Some? <==> align)
  {
    var f := Filter(df, years, series);
    assert ValidDates(f);
    DailySeries.AlignedDailyTable(f);
  }

  /**
   * The end-to-end totals of a shown page: the KPI totals add up to the number
   * of selected rows, the daily counts to the number of those with a parsed
   * date, and every KPI row's figures lie in range.
   */
  lemma RenderTotals(df: seq<Sale>, years: set<string>, series: set<string>, align: bool)
    requires WellFormed(df)
    requires Render(df, years, series, align).Shown?
    ensures var t := Render(df, years, series, align).tables;
      var f := Filter(df, years, series);
      && Kpi.SumTotals(t.kpi) == |f| > 0
      && DailySeries.SumDaily(t.daily) == |Dated(f)|
      && (forall i :: 0 <= i < |t.kpi| ==>
            1 <= t.kpi[i].totalSales && 0.0 <= t.kpi[i].avgContacts <= 5.0 && 0.0 <= t.kpi[i].pctZeroTouch <= 100.0)
  {
    var f := Filter(df, years, series);
    var t := Render(df, years, series, align).tables;
    Kpi.KpiTableTotal(f);
    DailySeries.DailyTableTotal(f);
    assert WellFormed(f);
    var ks := Keys.Distinct(Keys.StrLess, Years(f));
    forall i | 0 <= i < |t.kpi|
      ensures 1 <= t.kpi[i].totalSales && 0.0 <= t.kpi[i].avgContacts <= 5.0 && 0.0 <= t.kpi[i].pctZeroTouch <= 100.0
    {
      assert ks[i] in ks;
      Kpi.KpiOfCounts(f, ks[i]);
      Kpi.KpiOfAvgContacts(f, ks[i]);
      Kpi.KpiOfPctZeroTouch(f, ks[i]);
    }
  }

  /**
   * The page as written: with the toggle off the daily charts take their x
   * axis from `close_date`, a column `daily_sales` does not have, so plotting
   * raises and the handler's message follows the KPI table.
   */
  function RenderAsWritten(df: seq<Sale>, years: set<string>, series: set<string>, align: bool): Outcome {
    var f := Filter(df, years, series);
    if f != [] && !align then Failed else Render(df, years, series, align)
  }

  /**
   * With the toggle off (the default) and any row selected, the page as
   * written fails where the corrected page shows its tables.
   */
  lemma RenderAsWrittenUnalignedFails(df: seq<Sale>, years: set<string>, series: set<string>)
    requires exists s :: s in df && s.year in years && s.series in series
    ensures RenderAsWritten(df, years, series, false).Failed?
    ensures Render(df, years, series, false).Shown?
  {
    FilterEmpty(df, years, series);
  }

  /** With the toggle on, the page as written and the corrected page agree. */
  lemma RenderAsWrittenAligned(df: seq<Sale>, years: set<string>, series: set<string>)
    ensures RenderAsWritten(df, years, series, true) == Render(df, years, series, true)
  {
  }

  /** One run: load the upload, then render with the sidebar selection and the toggle. */
  method Run(name: string, raw: seq<RawRow>, parse: string -> Option<Timestamp>,
             years: set<string>, series: set<string>, align: bool)
    returns (df: seq<Sale>, outcome: Outcome)
    ensures |df| == |raw| && WellFormed(df)
    ensures IsCsvName(name) ==> forall i :: 0 <= i < |raw| ==> df[i] == CsvRow(raw[i], parse)
    ensures !IsCsvName(name) ==> forall i :: 0 <= i < |raw| ==> df[i] == SheetRow(raw[i], parse)
    ensures outcome == Render(df, years, series, align)
    ensures outcome.NoData? <==> forall s :: s in df ==> s.year !in years || s.series !in series
    ensures ValidParser(parse) ==> !outcome.Failed?
  {
    df := Load(name, raw, parse);
    outcome := Render(df, years, series, align);
    RenderNoData(df, years, series, align);
    if ValidParser(parse) {
      RenderNeverFails(df, years, series, align);
    }
  }
}
