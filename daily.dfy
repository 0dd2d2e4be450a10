/**
 * The daily sales series: one row per (campaign year, parsed `plan_close_dt`)
 * present, sorted by year and then date, with the running sum of the daily
 * counts within each year; and the month-day aligned plot dates.
 */
module DailySeries {
  import opened Wrappers
  import opened Dates
  import opened Records
  import opened Groups
  import Keys

  datatype DailyRow = DailyRow(year: string, closedAt: Timestamp, dailySales: nat, cumulativeSales: nat)

  /**
   * The rows of one year: the count of each date in `keys`, and the running sum
   * of those counts on top of `acc` (`groupby('campaign_year').cumsum()`).
   */
  function RunningCounts(y: string, keys: seq<Timestamp>, stamps: seq<Timestamp>, acc: nat): (r: seq<DailyRow>)
    ensures |r| == |keys|
    ensures forall i :: 0 <= i < |r| ==>
      r[i].year == y && r[i].closedAt == keys[i] && r[i].dailySales == Keys.Count(stamps, keys[i])
  {
    if keys == [] then []
    else
      var c := Keys.Count(stamps, keys[0]);
      [DailyRow(y, keys[0], c, acc + c)] + RunningCounts(y, keys[1..], stamps, acc + c)
  }

  function SumDaily(r: seq<DailyRow>): nat {
    if r == [] then 0 else r[0].dailySales + SumDaily(r[1..])
  }

  /** The series of cohort `y`, over its parsed close timestamps. */
  function DailyOfYear(rows: seq<Sale>, y: string): seq<DailyRow> {
    var stamps := Stamps(OfYear(rows, y));
    RunningCounts(y, Keys.Distinct(TsLess, stamps), stamps, 0)
  }

  function DailyYears(rows: seq<Sale>, ys: seq<string>): (t: seq<DailyRow>)
    ensures forall r :: r in t ==> r.year in ys
  {
    if ys == [] then [] else DailyOfYear(rows, ys[0]) + DailyYears(rows, ys[1..])
  }

  /** `daily_sales` after the sort and the cumulative sum. */
  function DailyTable(rows: seq<Sale>): seq<DailyRow> {
    DailyYears(rows, Keys.Distinct(Keys.StrLess, Years(Dated(rows))))
  }

  lemma {:induction false} SumDailyAppend(a: seq<DailyRow>, b: seq<DailyRow>)
    ensures SumDaily(a + b) == SumDaily(a) + SumDaily(b)
  {
    if a == [] {
      assert a + b == b;
    } else {
      assert (a + b)[1..] == a[1..] + b;
      SumDailyAppend(a[1..], b);
    }
  }

  lemma {:induction false} RunningCountsSum(y: string, keys: seq<Timestamp>, stamps: seq<Timestamp>, acc: nat)
    ensures SumDaily(RunningCounts(y, keys, stamps, acc)) == Keys.SumCounts(stamps, keys)
  {
    if keys != [] {
      var c := Keys.Count(stamps, keys[0]);
      var r := RunningCounts(y, keys, stamps, acc);
      var r' := RunningCounts(y, keys[1..], stamps, acc + c);
      assert r[1..] == r';
      RunningCountsSum(y, keys[1..], stamps, acc + c);
    }
  }

  /** Each cumulative value is `acc` plus the running sum of the daily counts so far. */
  lemma {:induction false} RunningCountsCumulative(y: string, keys: seq<Timestamp>, stamps: seq<Timestamp>, acc: nat, i: nat)
    requires i < |keys|
    ensures var r := RunningCounts(y, keys, stamps, acc);
      r[i].cumulativeSales == acc + SumDaily(r[..i + 1])
  {
    RunningCountsRun(y, keys, stamps, acc);
    RunPrefix(RunningCounts(y, keys, stamps, acc), acc, i);
  }

  /** Each row's cumulative count is the previous one (`acc` before the first) plus its own. */
  ghost predicate RunFrom(r: seq<DailyRow>, acc: nat) {
    r == [] || (r[0].cumulativeSales == acc + r[0].dailySales && RunFrom(r[1..], r[0].cumulativeSales))
  }

  lemma {:induction false} RunningCountsRun(y: string, keys: seq<Timestamp>, stamps: seq<Timestamp>, acc: nat)
    ensures RunFrom(RunningCounts(y, keys, stamps, acc), acc)
  {
    if keys != [] {
      var c := Keys.Count(stamps, keys[0]);
      RunningCountsRun(y, keys[1..], stamps, acc + c);
      var r := RunningCounts(y, keys, stamps, acc);
      assert r[1..] == RunningCounts(y, keys[1..], stamps, acc + c);
    }
  }

  lemma {:induction false} RunPrefix(r: seq<DailyRow>, acc: nat, i: nat)
    requires RunFrom(r, acc) && i < |r|
    ensures r[i].cumulativeSales == acc + SumDaily(r[..i + 1])
  {
    SumDailyCons(r[0], r[1..], i);
    assert [r[0]] + r[1..] == r;
    if i > 0 {
      RunPrefix(r[1..], r[0].cumulativeSales, i - 1);
    }
  }

  /** A prefix of `[d] + r` sums to `d`'s sales plus the shorter prefix of `r`. */
  lemma SumDailyCons(d: DailyRow, r: seq<DailyRow>, i: nat)
    requires i <= |r|
    ensures SumDaily(([d] + r)[..i + 1]) == d.dailySales + SumDaily(r[..i])
    ensures 0 < i ==> ([d] + r)[i] == r[i - 1]
  {
    assert ([d] + r)[..i + 1] == [d] + r[..i];
    assert ([d] + r[..i])[1..] == r[..i];
  }

  /** A running sum never decreases. */
  lemma CumulativeMonotone(d: seq<DailyRow>, i: nat, j: nat)
    requires forall k :: 0 <= k < |d| ==> d[k].cumulativeSales == SumDaily(d[..k + 1])
    requires i <= j < |d|
    ensures d[i].cumulativeSales <= d[j].cumulativeSales
  {
    assert d[..j + 1] == d[..i + 1] + d[i + 1..j + 1];
    SumDailyAppend(d[..i + 1], d[i + 1..j + 1]);
  }

  /** Within one year the rows carry that year, and the dates are those parsed, strictly ascending. */
  lemma DailyOfYearDates(rows: seq<Sale>, y: string)
    ensures var d := DailyOfYear(rows, y);
      && (forall i :: 0 <= i < |d| ==> d[i].year == y)
      && (forall i, j :: 0 <= i < j < |d| ==> TsLess(d[i].closedAt, d[j].closedAt))
      && (forall t :: (exists i :: 0 <= i < |d| && d[i].closedAt == t) <==> t in Stamps(OfYear(rows, y)))
  {
    var d := DailyOfYear(rows, y);
    var stamps := Stamps(OfYear(rows, y));
    var keys := Keys.Distinct(TsLess, stamps);
    TsDistinct(stamps);
    forall t | t in stamps ensures exists i :: 0 <= i < |d| && d[i].closedAt == t {
      var i :| 0 <= i < |keys| && keys[i] == t;
      assert d[i].closedAt == t;
    }
  }

  /** Each daily count is the number of the year's sales at that timestamp, at least 1. */
  lemma DailyOfYearCounts(rows: seq<Sale>, y: string)
    ensures var d := DailyOfYear(rows, y);
      forall i :: 0 <= i < |d| ==> d[i].dailySales == Keys.Count(Stamps(OfYear(rows, y)), d[i].closedAt) >= 1
  {
    var d := DailyOfYear(rows, y);
    var keys := Keys.Distinct(TsLess, Stamps(OfYear(rows, y)));
    forall i | 0 <= i < |d| ensures d[i].dailySales >= 1 {
      assert keys[i] in keys;
    }
  }

  /**
   * The cumulative column is the running sum of the daily column, never
   * decreases, and ends at the number of the year's rows with a parsed date.
   */
  lemma DailyOfYearCumulative(rows: seq<Sale>, y: string)
    ensures var d := DailyOfYear(rows, y);
      && (forall i :: 0 <= i < |d| ==> d[i].cumulativeSales == SumDaily(d[..i + 1]))
      && (forall i, j :: 0 <= i <= j < |d| ==> d[i].cumulativeSales <= d[j].cumulativeSales)
      && SumDaily(d) == |OfYear(Dated(rows), y)|
      && (|d| > 0 ==> d[|d| - 1].cumulativeSales == |OfYear(Dated(rows), y)|)
  {
    var d := DailyOfYear(rows, y);
    var stamps := Stamps(OfYear(rows, y));
    var keys := Keys.Distinct(TsLess, stamps);
    forall i | 0 <= i < |d| ensures d[i].cumulativeSales == SumDaily(d[..i + 1]) {
      RunningCountsCumulative(y, keys, stamps, 0, i);
    }
    forall i, j | 0 <= i <= j < |d| ensures d[i].cumulativeSales <= d[j].cumulativeSales {
      CumulativeMonotone(d, i, j);
    }
    if |d| > 0 {
      assert d[..|d|] == d;
    }
    TsDistinct(stamps);
    RunningCountsSum(y, keys, stamps, 0);
    Keys.SumCountsCover(stamps, keys);
    DatedOfYear(rows, y);
  }

  /** Picks the rows of one year out of the daily table. */
  function RowsOfYear(t: seq<DailyRow>, y: string): seq<DailyRow> {
    if t == [] then []
    else if t[0].year == y then [t[0]] + RowsOfYear(t[1..], y)
    else RowsOfYear(t[1..], y)
  }

  lemma {:induction false} RowsOfYearAppend(a: seq<DailyRow>, b: seq<DailyRow>, y: string)
    ensures RowsOfYear(a + b, y) == RowsOfYear(a, y) + RowsOfYear(b, y)
  {
    if a == [] {
      assert a + b == b;
    } else {
      assert (a + b)[1..] == a[1..] + b;
      RowsOfYearAppend(a[1..], b, y);
    }
  }

  lemma {:induction false} RowsOfYearAll(t: seq<DailyRow>, y: string)
    requires forall i :: 0 <= i < |t| ==> t[i].year == y
    ensures RowsOfYear(t, y) == t
  {
    if t != [] {
      RowsOfYearAll(t[1..], y);
    }
  }

  lemma {:induction false} RowsOfYearNone(t: seq<DailyRow>, y: string)
    requires forall i :: 0 <= i < |t| ==> t[i].year != y
    ensures RowsOfYear(t, y) == []
  {
    if t != [] {
      RowsOfYearNone(t[1..], y);
    }
  }

  lemma {:induction false} DailyYearsOfYear(rows: seq<Sale>, ys: seq<string>, y: string)
    requires Keys.NoDuplicates(ys)
    ensures RowsOfYear(DailyYears(rows, ys), y) == if y in ys then DailyOfYear(rows, y) else []
  {
    if ys != [] {
      RowsOfYearAppend(DailyOfYear(rows, ys[0]), DailyYears(rows, ys[1..]), y);
      Keys.NoDuplicatesTail(ys);
      DailyYearsOfYear(rows, ys[1..], y);
      if ys[0] == y {
        RowsOfYearAll(DailyOfYear(rows, y), y);
      } else {
        RowsOfYearNone(DailyOfYear(rows, ys[0]), y);
      }
    }
  }

  /**
   * The rows of year `y` in the daily table are exactly that year's series, and
   * a year appears only when it has a sale with a parsed close date.
   */
  lemma DailyTableByYear(rows: seq<Sale>, y: string)
    ensures RowsOfYear(DailyTable(rows), y) ==
      if y in Years(Dated(rows)) then DailyOfYear(rows, y) else []
  {
    Keys.StrDistinct(Years(Dated(rows)));
    DailyYearsOfYear(rows, Keys.Distinct(Keys.StrLess, Years(Dated(rows))), y);
  }

  /** Row `a` comes before row `b` in `sort_values(['campaign_year', 'plan_close_dt'])`. */
  predicate Before(a: DailyRow, b: DailyRow) {
    Keys.StrLess(a.year, b.year) || (a.year == b.year && TsLess(a.closedAt, b.closedAt))
  }

  lemma {:induction false} DailyYearsSorted(rows: seq<Sale>, ys: seq<string>)
    requires Keys.Increasing(Keys.StrLess, ys)
    ensures Keys.Increasing(Before, DailyYears(rows, ys))
  {
    if ys != [] {
      var h := DailyOfYear(rows, ys[0]);
      var rest := DailyYears(rows, ys[1..]);
      DailyOfYearDates(rows, ys[0]);
      DailyYearsSorted(rows, ys[1..]);
      var t := h + rest;
      forall i, j | 0 <= i < j < |t| ensures Before(t[i], t[j]) {
        if j < |h| {
          assert t[i] == h[i] && t[j] == h[j];
        } else if i < |h| {
          assert t[i] == h[i] && t[i].year == ys[0];
          assert t[j] == rest[j - |h|] && t[j] in rest;
          var k :| 0 <= k < |ys| - 1 && ys[1..][k] == t[j].year;
          assert ys[k + 1] == t[j].year;
          assert Keys.StrLess(ys[0], ys[k + 1]);
        } else {
          assert t[i] == rest[i - |h|] && t[j] == rest[j - |h|];
        }
      }
    }
  }

  /** `sort_values(['campaign_year', 'plan_close_dt'])`: the table is ordered by year, then date. */
  lemma DailyTableSorted(rows: seq<Sale>)
    ensures Keys.Increasing(Before, DailyTable(rows))
  {
    var ks := Keys.Distinct(Keys.StrLess, Years(Dated(rows)));
    Keys.StrDistinct(Years(Dated(rows)));
    DailyYearsSorted(rows, ks);
  }

  lemma {:induction false} DailyYearsSum(rows: seq<Sale>, ys: seq<string>)
    ensures SumDaily(DailyYears(rows, ys)) == Keys.SumCounts(Years(Dated(rows)), ys)
  {
    if ys != [] {
      DailyOfYearCumulative(rows, ys[0]);
      OfYearSize(Dated(rows), ys[0]);
      SumDailyAppend(DailyOfYear(rows, ys[0]), DailyYears(rows, ys[1..]));
      DailyYearsSum(rows, ys[1..]);
    }
  }

  /** The daily counts add up to the number of rows with a parsed date: undated rows are left out. */
  lemma DailyTableTotal(rows: seq<Sale>)
    ensures SumDaily(DailyTable(rows)) == |Dated(rows)|
  {
    var ks := Keys.Distinct(Keys.StrLess, Years(Dated(rows)));
    Keys.StrDistinct(Years(Dated(rows)));
    DailyYearsSum(rows, ks);
    Keys.SumCountsCover(Years(Dated(rows)), ks);
  }

  /** Every row of the table stands for sales of its year at its timestamp. */
  lemma {:induction false} DailyYearsFromRows(rows: seq<Sale>, ys: seq<string>)
    ensures forall r :: r in DailyYears(rows, ys) ==>
      exists s :: s in rows && s.year == r.year && s.planClose == Some(r.closedAt)
  {
    if ys != [] {
      var h := DailyOfYear(rows, ys[0]);
      DailyOfYearDates(rows, ys[0]);
      DailyYearsFromRows(rows, ys[1..]);
      forall r | r in h ensures exists s :: s in rows && s.year == r.year && s.planClose == Some(r.closedAt) {
        var i :| 0 <= i < |h| && h[i] == r;
        assert r.closedAt in Stamps(OfYear(rows, ys[0]));
      }
    }
  }

  /**
   * The aligned plot dates: `replace(year=2020)` on every row, or `None` when a
   * replacement raises, which sends the run to the error handler.
   */
  function PlotDates(t: seq<DailyRow>): (p: Option<seq<Timestamp>>)
    ensures p.Some? ==> |p.value| == |t| && forall i :: 0 <= i < |t| ==> Align(t[i].closedAt) == Some(p.value[i])
    ensures p.None? <==> exists i :: 0 <= i < |t| && Align(t[i].closedAt).None?
  {
    if t == [] then Some([])
    else
      var rest := PlotDates(t[1..]);
      match Align(t[0].closedAt)
      case None => None
      case Some(a) => if rest.None? then None else Some([a] + rest.value)
  }

  /**
   * With real parsed dates the alignment never raises, moves every date to 2020
   * keeping month, day and time, and orders the plot dates by month-day order.
   */
  lemma AlignedDailyTable(rows: seq<Sale>)
    requires ValidDates(rows)
    ensures var t := DailyTable(rows);
      var p := PlotDates(t);
      && p.Some? && |p.value| == |t|
      && (forall i :: 0 <= i < |t| ==>
            p.value[i] == Timestamp(Date(AlignmentYear, t[i].closedAt.date.month, t[i].closedAt.date.day), t[i].closedAt.nanos))
      && (forall i, j :: 0 <= i < |t| && 0 <= j < |t| ==>
            (TsLess(p.value[i], p.value[j]) <==> MonthDayLess(t[i].closedAt, t[j].closedAt)))
  {
    var t := DailyTable(rows);
    DailyYearsFromRows(rows, Keys.Distinct(Keys.StrLess, Years(Dated(rows))));
    forall i | 0 <= i < |t| ensures ValidTimestamp(t[i].closedAt) {
      assert t[i] in t;
    }
    var p := PlotDates(t);
    forall i | 0 <= i < |t| ensures Align(t[i].closedAt).Some? {
      AlignTotal(t[i].closedAt);
    }
    forall i | 0 <= i < |t| ensures p.value[i] ==
        Timestamp(Date(AlignmentYear, t[i].closedAt.date.month, t[i].closedAt.date.day), t[i].closedAt.nanos) {
      AlignTotal(t[i].closedAt);
    }
    forall i, j | 0 <= i < |t| && 0 <= j < |t|
      ensures TsLess(p.value[i], p.value[j]) <==> MonthDayLess(t[i].closedAt, t[j].closedAt)
    {
      AlignOrder(t[i].closedAt, t[j].closedAt);
    }
  }
}
