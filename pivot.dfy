/** The series performance pivot: mean contact count per (series, year) pair present. */
module Pivot {
  import opened Records
  import opened Groups
  import Keys

  datatype PivotRow = PivotRow(series: string, year: string, avgContacts: real)

  /** Every year of `ys` occurs in `g`. */
  ghost predicate AllPresent(g: seq<Sale>, ys: seq<string>) {
    ys == [] || (ys[0] in Years(g) && AllPresent(g, ys[1..]))
  }

  lemma {:induction false} AllPresentFrom(g: seq<Sale>, ys: seq<string>)
    requires forall y :: y in ys ==> y in Years(g)
    ensures AllPresent(g, ys)
  {
    if ys != [] {
      AllPresentFrom(g, ys[1..]);
    }
  }

  /** The rows of series `s` (its sales `g`) for the years `ys`. */
  function PivotYears(g: seq<Sale>, s: string, ys: seq<string>): (p: seq<PivotRow>)
    requires AllPresent(g, ys)
    ensures |p| == |ys|
    ensures forall r :: r in p ==> r.series == s
  {
    if ys == [] then [] else [PivotCell(g, s, ys[0])] + PivotYears(g, s, ys[1..])
  }

  /** The row of series `s` (its sales `g`) and year `y`. */
  function PivotCell(g: seq<Sale>, s: string, y: string): (r: PivotRow)
    requires y in Years(g)
    ensures r.series == s && r.year == y
    ensures OfYear(g, y) != [] && r.avgContacts == MeanContacts(OfYear(g, y))
  {
    InYearsNonEmpty(g, y);
    PivotRow(s, y, MeanContacts(OfYear(g, y)))
  }

  /** The rows of series `s`: one per year of that series, ascending. */
  function PivotOfSeries(rows: seq<Sale>, s: string): seq<PivotRow> {
    var g := OfSeries(rows, s);
    var ks := Keys.Distinct(Keys.StrLess, Years(g));
    AllPresentFrom(g, ks);
    PivotYears(g, s, ks)
  }

  function PivotSeries(rows: seq<Sale>, ss: seq<string>): (p: seq<PivotRow>)
    ensures forall r :: r in p ==> r.series in ss
  {
    if ss == [] then [] else PivotOfSeries(rows, ss[0]) + PivotSeries(rows, ss[1..])
  }

  /** `groupby(['campaign_series', 'campaign_year'])['contact_count'].mean()`. */
  function PivotTable(rows: seq<Sale>): seq<PivotRow> {
    PivotSeries(rows, Keys.Distinct(Keys.StrLess, SeriesColumn(rows)))
  }

  /** Row `a` precedes row `b` in (series, year) order. */
  predicate PivotBefore(a: PivotRow, b: PivotRow) {
    Keys.StrLess(a.series, b.series) || (a.series == b.series && Keys.StrLess(a.year, b.year))
  }

  /** Some sale has series `s` and year `y`. */
  ghost predicate PairPresent(rows: seq<Sale>, s: string, y: string) {
    exists r :: r in rows && r.series == s && r.year == y
  }

  /** Some pivot row is keyed by series `s` and year `y`. */
  ghost predicate PairListed(p: seq<PivotRow>, s: string, y: string) {
    exists i :: 0 <= i < |p| && p[i].series == s && p[i].year == y
  }

  /** The pivot row's mean is that of the sales with its series and year. */
  ghost predicate MeanOfPair(rows: seq<Sale>, r: PivotRow) {
    OfYear(OfSeries(rows, r.series), r.year) != [] &&
    r.avgContacts == MeanContacts(OfYear(OfSeries(rows, r.series), r.year))
  }

  /** Row `i` is the cell of the `i`-th year. */
  lemma {:induction false} PivotYearsCells(g: seq<Sale>, s: string, ys: seq<string>)
    requires AllPresent(g, ys)
    ensures var p := PivotYears(g, s, ys);
      forall i :: 0 <= i < |p| ==> ys[i] in Years(g) && p[i] == PivotCell(g, s, ys[i])
  {
    if ys != [] {
      PivotYearsCells(g, s, ys[1..]);
      var p := PivotYears(g, s, ys);
      assert p[1..] == PivotYears(g, s, ys[1..]);
      assert p[0] == PivotCell(g, s, ys[0]);
    }
  }

  /** The rows of series `s` are keyed by `s` and its distinct years, in order. */
  lemma PivotOfSeriesRows(rows: seq<Sale>, s: string)
    ensures var h := PivotOfSeries(rows, s);
      var ks := Keys.Distinct(Keys.StrLess, Years(OfSeries(rows, s)));
      |h| == |ks| && forall i :: 0 <= i < |h| ==> h[i].series == s && h[i].year == ks[i]
  {
    var g := OfSeries(rows, s);
    var ks := Keys.Distinct(Keys.StrLess, Years(g));
    AllPresentFrom(g, ks);
    PivotYearsCells(g, s, ks);
  }

  /** Within one series: the rows carry the series, with distinct years ascending. */
  lemma PivotOfSeriesKeys(rows: seq<Sale>, s: string)
    ensures var h := PivotOfSeries(rows, s);
      && (forall i :: 0 <= i < |h| ==> h[i].series == s)
      && (forall i, j :: 0 <= i < j < |h| ==> Keys.StrLess(h[i].year, h[j].year))
  {
    Keys.StrDistinct(Years(OfSeries(rows, s)));
    PivotOfSeriesRows(rows, s);
  }

  /** Within one series each row has the mean of its year's sales. */
  lemma PivotOfSeriesMeans(rows: seq<Sale>, s: string)
    ensures forall r :: r in PivotOfSeries(rows, s) ==> MeanOfPair(rows, r)
  {
    var g := OfSeries(rows, s);
    var ks := Keys.Distinct(Keys.StrLess, Years(g));
    var h := PivotOfSeries(rows, s);
    AllPresentFrom(g, ks);
    PivotYearsCells(g, s, ks);
    forall r | r in h ensures MeanOfPair(rows, r) {
      var i :| 0 <= i < |h| && h[i] == r;
      assert r == PivotCell(g, s, ks[i]);
    }
  }

  lemma {:induction false} PivotSeriesSorted(rows: seq<Sale>, ss: seq<string>)
    requires Keys.Increasing(Keys.StrLess, ss)
    ensures Keys.Increasing(PivotBefore, PivotSeries(rows, ss))
  {
    if ss != [] {
      var s := ss[0];
      var h := PivotOfSeries(rows, s);
      var rest := PivotSeries(rows, ss[1..]);
      PivotOfSeriesKeys(rows, s);
      PivotSeriesSorted(rows, ss[1..]);
      var p := h + rest;
      forall i, j | 0 <= i < j < |p| ensures PivotBefore(p[i], p[j]) {
        if j < |h| {
          assert p[i] == h[i] && p[j] == h[j];
        } else if i < |h| {
          assert p[i] == h[i] && p[i].series == s;
          assert p[j] == rest[j - |h|] && p[j] in rest;
          var k :| 0 <= k < |ss| - 1 && ss[1..][k] == p[j].series;
          assert ss[k + 1] == p[j].series;
          assert Keys.StrLess(ss[0], ss[k + 1]);
        } else {
          assert p[i] == rest[i - |h|] && p[j] == rest[j - |h|];
        }
      }
    }
  }

  lemma {:induction false} PivotSeriesMeans(rows: seq<Sale>, ss: seq<string>)
    ensures forall r :: r in PivotSeries(rows, ss) ==> MeanOfPair(rows, r)
  {
    if ss != [] {
      PivotOfSeriesMeans(rows, ss[0]);
      PivotSeriesMeans(rows, ss[1..]);
    }
  }

  /** A pair listed in either part is listed in their concatenation. */
  lemma PairListedAppend(h: seq<PivotRow>, rest: seq<PivotRow>, s: string, y: string)
    requires PairListed(h, s, y) || PairListed(rest, s, y)
    ensures PairListed(h + rest, s, y)
  {
    var p := h + rest;
    if PairListed(h, s, y) {
      var k :| 0 <= k < |h| && h[k].series == s && h[k].year == y;
      assert p[k] == h[k];
    } else {
      var i :| 0 <= i < |rest| && rest[i].series == s && rest[i].year == y;
      assert p[|h| + i] == rest[i];
    }
  }

  /** Every year of series `s` is listed in that series' rows. */
  lemma PivotOfSeriesListed(rows: seq<Sale>, s: string, y: string)
    requires y in Years(OfSeries(rows, s))
    ensures PairListed(PivotOfSeries(rows, s), s, y)
  {
    var ks := Keys.Distinct(Keys.StrLess, Years(OfSeries(rows, s)));
    var h := PivotOfSeries(rows, s);
    PivotOfSeriesRows(rows, s);
    var k :| 0 <= k < |ks| && ks[k] == y;
    assert h[k].series == s && h[k].year == y;
  }

  lemma {:induction false} PivotSeriesCovers(rows: seq<Sale>, ss: seq<string>, s: string, y: string)
    requires s in ss && y in Years(OfSeries(rows, s))
    ensures PairListed(PivotSeries(rows, ss), s, y)
  {
    if ss[0] == s {
      PivotOfSeriesListed(rows, s, y);
    } else {
      assert s in ss[1..];
      PivotSeriesCovers(rows, ss[1..], s, y);
    }
    PairListedAppend(PivotOfSeries(rows, ss[0]), PivotSeries(rows, ss[1..]), s, y);
  }

  /** Strictly ascending (series, year) order means no pair appears twice. */
  lemma PivotBeforeDistinct(a: PivotRow, b: PivotRow)
    requires PivotBefore(a, b)
    ensures a.series != b.series || a.year != b.year
  {
    Keys.StrLessIrreflexive(a.series);
    Keys.StrLessIrreflexive(a.year);
  }

  /** The pivot is sorted by (series, year) and no pair appears twice. */
  lemma PivotTableOrder(rows: seq<Sale>)
    ensures var p := PivotTable(rows);
      && Keys.Increasing(PivotBefore, p)
      && (forall i, j :: 0 <= i < j < |p| ==> p[i].series != p[j].series || p[i].year != p[j].year)
  {
    var p := PivotTable(rows);
    Keys.StrDistinct(SeriesColumn(rows));
    PivotSeriesSorted(rows, Keys.Distinct(Keys.StrLess, SeriesColumn(rows)));
    forall i, j | 0 <= i < j < |p| ensures p[i].series != p[j].series || p[i].year != p[j].year {
      PivotBeforeDistinct(p[i], p[j]);
    }
  }

  /** A (series, year) pair is listed in the pivot exactly when some sale has it. */
  lemma PivotTablePairs(rows: seq<Sale>, s: string, y: string)
    ensures PairListed(PivotTable(rows), s, y) <==> PairPresent(rows, s, y)
  {
    var ss := Keys.Distinct(Keys.StrLess, SeriesColumn(rows));
    var p := PivotTable(rows);
    if PairPresent(rows, s, y) {
      var r :| r in rows && r.series == s && r.year == y;
      var k :| 0 <= k < |rows| && rows[k] == r;
      assert SeriesColumn(rows)[k] == s;
      var g := OfSeries(rows, s);
      assert r in g;
      var m :| 0 <= m < |g| && g[m] == r;
      assert Years(g)[m] == y;
      PivotSeriesCovers(rows, ss, s, y);
    }
    if PairListed(p, s, y) {
      PivotSeriesMeans(rows, ss);
      var i :| 0 <= i < |p| && p[i].series == s && p[i].year == y;
      assert p[i] in p;
      var g := OfYear(OfSeries(rows, s), y);
      assert g[0] in g;
    }
  }

  /** Each row's mean is the mean contact count of its pair's sales, in [0, 5]. */
  lemma PivotTableMeans(rows: seq<Sale>)
    requires WellFormed(rows)
    ensures var p := PivotTable(rows);
      forall i :: 0 <= i < |p| ==> MeanOfPair(rows, p[i]) && 0.0 <= p[i].avgContacts <= 5.0
  {
    var p := PivotTable(rows);
    PivotSeriesMeans(rows, Keys.Distinct(Keys.StrLess, SeriesColumn(rows)));
    forall i | 0 <= i < |p| ensures MeanOfPair(rows, p[i]) && 0.0 <= p[i].avgContacts <= 5.0 {
      assert p[i] in p;
      assert WellFormed(OfYear(OfSeries(rows, p[i].series), p[i].year));
    }
  }
}
