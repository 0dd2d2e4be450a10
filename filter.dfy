/** The sidebar filter: keep the rows whose year and series were selected. */
module Filtering {
  import opened Records

  /** `df[df.campaign_year.isin(years) & df.campaign_series.isin(series)]`. */
  function Filter(rows: seq<Sale>, years: set<string>, series: set<string>): (r: seq<Sale>)
    ensures |r| <= |rows|
    ensures forall s :: s in r <==> s in rows && s.year in years && s.series in series
  {
    if rows == [] then []
    else
      var rest := Filter(rows[1..], years, series);
      if rows[0].year in years && rows[0].series in series then [rows[0]] + rest else rest
  }

  /** Filtering distributes over concatenation, so the kept rows stay in their original order. */
  lemma {:induction false} FilterAppend(a: seq<Sale>, b: seq<Sale>, years: set<string>, series: set<string>)
    ensures Filter(a + b, years, series) == Filter(a, years, series) + Filter(b, years, series)
  {
    if a == [] {
      assert a + b == b;
    } else {
      assert (a + b)[1..] == a[1..] + b;
      FilterAppend(a[1..], b, years, series);
    }
  }

  /** The default selection (every year and series present) keeps the table as it is. */
  lemma {:induction false} FilterAllSelected(rows: seq<Sale>, years: set<string>, series: set<string>)
    requires forall s :: s in rows ==> s.year in years && s.series in series
    ensures Filter(rows, years, series) == rows
  {
    if rows != [] {
      FilterAllSelected(rows[1..], years, series);
    }
  }

  /** The warning branch is taken exactly when no row has a selected year and series. */
  lemma FilterEmpty(rows: seq<Sale>, years: set<string>, series: set<string>)
    ensures Filter(rows, years, series) == [] <==>
            forall s :: s in rows ==> s.year !in years || s.series !in series
  {
    var r := Filter(rows, years, series);
    if r != [] {
      assert r[0] in r;
    }
  }
}
