/** The year-over-year KPI table: one summary row per campaign year. */
module Kpi {
  import opened Wrappers
  import opened Records
  import opened Groups
  import Keys

  /**
   * One row of `kpi_df`. `zeroTouchCount` is `None` (NaN) for a year with no
   * zero-contact sale: the zero-touch group-by has no such group.
   */
  datatype KpiRow = KpiRow(
    year: string,
    totalSales: nat,
    avgContacts: real,
    avgDaysToClose: Option<real>,
    zeroTouchCount: Option<nat>,
    pctZeroTouch: real)

  lemma PercentBound(part: nat, whole: nat)
    requires 0 < whole && part <= whole
    ensures 0.0 <= (part as real) / (whole as real) * 100.0 <= 100.0
  {
    assert (part as real) / (whole as real) <= 1.0;
  }

  /** The KPI row of year `y`: group-by count and means, then the zero-touch columns. */
  function KpiOf(rows: seq<Sale>, y: string): KpiRow
    requires y in Years(rows)
  {
    InYearsNonEmpty(rows, y);
    var g := OfYear(rows, y);
    var zero := |OfYear(WithContacts(rows, 0), y)|;
    var zeroTouchCount := if zero > 0 then Some(zero) else None;
    KpiRow(y, |g|, MeanContacts(g), MeanDays(g), zeroTouchCount, PctZeroTouch(zeroTouchCount, |g|))
  }

  function KpiRows(rows: seq<Sale>, ys: seq<string>): (t: seq<KpiRow>)
    requires forall y :: y in ys ==> y in Years(rows)
    ensures |t| == |ys|
    ensures forall i :: 0 <= i < |ys| ==> t[i] == KpiOf(rows, ys[i])
  {
    if ys == [] then [] else [KpiOf(rows, ys[0])] + KpiRows(rows, ys[1..])
  }

  /** `filtered_df.groupby('campaign_year').agg(...)` with the zero-touch columns added. */
  function KpiTable(rows: seq<Sale>): seq<KpiRow> {
    KpiRows(rows, Keys.Distinct(Keys.StrLess, Years(rows)))
  }

  function SumTotals(t: seq<KpiRow>): nat {
    if t == [] then 0 else t[0].totalSales + SumTotals(t[1..])
  }

  /** The number of zero-contact sales of cohort `y`. */
  function ZeroTouchOf(rows: seq<Sale>, y: string): nat {
    |WithContacts(OfYear(rows, y), 0)|
  }

  /** The counts of one KPI row: its cohort's size, and the zero-touch count (NaN when 0). */
  lemma KpiOfCounts(rows: seq<Sale>, y: string)
    requires y in Years(rows)
    ensures var k := KpiOf(rows, y);
      && k.year == y
      && k.totalSales == |OfYear(rows, y)| >= 1
      && k.totalSales == Keys.Count(Years(rows), y)
      && (k.zeroTouchCount.None? <==> ZeroTouchOf(rows, y) == 0)
      && (k.zeroTouchCount.Some? ==> k.zeroTouchCount.value == ZeroTouchOf(rows, y))
      && ZeroTouchOf(rows, y) <= k.totalSales
  {
    InYearsNonEmpty(rows, y);
    OfYearSize(rows, y);
    SelectionsCommute(rows, y, 0);
    WithContactsSize(OfYear(rows, y), 0);
  }

  /** `(Zero_Touch_Count / Total_Sales * 100).fillna(0)`. */
  function PctZeroTouch(zeroTouchCount: Option<nat>, total: nat): real
    requires total > 0
  {
    match zeroTouchCount
    case None => 0.0
    case Some(z) => (z as real) / (total as real) * 100.0
  }

  /** The mean contacts of a KPI row lie in [0, 5]. */
  lemma KpiOfAvgContacts(rows: seq<Sale>, y: string)
    requires WellFormed(rows) && y in Years(rows)
    ensures 0.0 <= KpiOf(rows, y).avgContacts <= 5.0
  {
    InYearsNonEmpty(rows, y);
    var g := OfYear(rows, y);
    assert WellFormed(g);
    assert KpiOf(rows, y).avgContacts == MeanContacts(g);
  }

  /** The zero-touch percentage is the zero-touch share of the cohort, in [0, 100]. */
  lemma KpiOfPctZeroTouch(rows: seq<Sale>, y: string)
    requires y in Years(rows)
    ensures var k := KpiOf(rows, y);
      && k.pctZeroTouch == (ZeroTouchOf(rows, y) as real) / (k.totalSales as real) * 100.0
      && 0.0 <= k.pctZeroTouch <= 100.0
  {
    KpiOfCounts(rows, y);
    var k := KpiOf(rows, y);
    assert k.pctZeroTouch == PctZeroTouch(k.zeroTouchCount, k.totalSales);
    PctZeroTouchShare(k.zeroTouchCount, k.totalSales, ZeroTouchOf(rows, y));
  }

  /** `fillna(0)` turns the NaN of a year without zero-touch sales into the share 0. */
  lemma PctZeroTouchShare(zeroTouchCount: Option<nat>, total: nat, zero: nat)
    requires 0 < total && zero <= total
    requires zeroTouchCount.None? <==> zero == 0
    requires zeroTouchCount.Some? ==> zeroTouchCount.value == zero
    ensures PctZeroTouch(zeroTouchCount, total) == (zero as real) / (total as real) * 100.0
    ensures 0.0 <= PctZeroTouch(zeroTouchCount, total) <= 100.0
  {
    PercentBound(zero, total);
  }

  lemma {:induction false} SumTotalsIsSumCounts(rows: seq<Sale>, ys: seq<string>)
    requires forall y :: y in ys ==> y in Years(rows)
    ensures SumTotals(KpiRows(rows, ys)) == Keys.SumCounts(Years(rows), ys)
  {
    if ys != [] {
      assert KpiRows(rows, ys)[1..] == KpiRows(rows, ys[1..]);
      OfYearSize(rows, ys[0]);
      SumTotalsIsSumCounts(rows, ys[1..]);
    }
  }

  /** The KPI table has one row per year present, in ascending string order. */
  lemma KpiTableYears(rows: seq<Sale>)
    ensures var t := KpiTable(rows);
      && (forall i, j :: 0 <= i < j < |t| ==> Keys.StrLess(t[i].year, t[j].year))
      && (forall y :: y in Years(rows) <==> exists i :: 0 <= i < |t| && t[i].year == y)
  {
    var ks := Keys.Distinct(Keys.StrLess, Years(rows));
    Keys.StrDistinct(Years(rows));
    var t := KpiTable(rows);
    forall i | 0 <= i < |t| ensures t[i].year == ks[i] {
      KpiOfCounts(rows, ks[i]);
    }
    forall y | y in Years(rows) ensures exists i :: 0 <= i < |t| && t[i].year == y {
      var i :| 0 <= i < |ks| && ks[i] == y;
      assert t[i].year == y;
    }
  }

  /** The `Total_Sales` column adds up to the number of filtered rows. */
  lemma KpiTableTotal(rows: seq<Sale>)
    ensures SumTotals(KpiTable(rows)) == |rows|
  {
    var ks := Keys.Distinct(Keys.StrLess, Years(rows));
    Keys.StrDistinct(Years(rows));
    SumTotalsIsSumCounts(rows, ks);
    Keys.SumCountsCover(Years(rows), ks);
  }

  /** A sale of cohort `y` with `c` contacts and no dates. */
  function ExampleSale(y: string, c: nat): Sale {
    Sale("c", y, "s", None, None, None, None, c, None)
  }

  /** Two cohorts: "2025" with contact counts 0, 1, 2 and "2026" with 0, 0. */
  function ExampleRows(): seq<Sale> {
    [ExampleSale("2025", 0), ExampleSale("2025", 1), ExampleSale("2025", 2),
     ExampleSale("2026", 0), ExampleSale("2026", 0)]
  }

  lemma ExampleYears()
    ensures Keys.Distinct(Keys.StrLess, Years(ExampleRows())) == ["2025", "2026"]
  {
    var a, b := "2025", "2026";
    assert Keys.StrLess(a, b) by {
      assert a[1..] == "025" && b[1..] == "026";
      assert a[2..] == "25" && b[2..] == "26";
      assert a[3..] == "5" && b[3..] == "6";
      assert Keys.StrLess("5", "6");
    }
    var ys := Years(ExampleRows());
    assert ys == [a, a, a, b, b];
    assert ys[1..] == [a, a, b, b] && ys[2..] == [a, b, b] && ys[3..] == [b, b] && ys[4..] == [b];
    assert Keys.Distinct(Keys.StrLess, [b]) == [b];
    assert Keys.Distinct(Keys.StrLess, [b, b]) == [b];
    assert Keys.Distinct(Keys.StrLess, [a, b, b]) == [a, b];
    assert Keys.Distinct(Keys.StrLess, [a, a, b, b]) == [a, b];
  }

  /** The example rows one by one; the two "2026" sales are equal values. */
  lemma ExampleRowsShape()
    ensures var rows := ExampleRows();
      && |rows| == 5
      && rows[0].year == "2025" && rows[1].year == "2025" && rows[2].year == "2025"
      && rows[3].year == "2026" && rows[4].year == "2026"
      && rows[0].contactCount == 0 && rows[1].contactCount == 1 && rows[2].contactCount == 2
      && rows[3] == rows[4] && rows[4].contactCount == 0
  {
  }

  lemma ExampleCohortA()
    ensures OfYear(ExampleRows(), "2025") == ExampleRows()[..3]
  {
    var rows := ExampleRows();
    ExampleRowsShape();
    assert "2025" != "2026" by {
      assert "2025"[3] != "2026"[3];
    }
    assert OfYear(rows[4..], "2025") == [];
    assert OfYear(rows[3..], "2025") == [];
    assert OfYear(rows[2..], "2025") == rows[2..3];
    assert OfYear(rows[1..], "2025") == rows[1..3];
  }

  lemma ExampleCohortB()
    ensures OfYear(ExampleRows(), "2026") == ExampleRows()[3..]
  {
    var rows := ExampleRows();
    ExampleRowsShape();
    assert "2025" != "2026" by {
      assert "2025"[3] != "2026"[3];
    }
    assert OfYear(rows[4..], "2026") == rows[4..];
    assert OfYear(rows[3..], "2026") == rows[3..];
    assert OfYear(rows[2..], "2026") == rows[3..];
    assert OfYear(rows[1..], "2026") == rows[3..];
  }

  lemma ExampleZeroTouch()
    ensures WithContacts(ExampleRows(), 0) == [ExampleRows()[0]] + ExampleRows()[3..]
  {
    var rows := ExampleRows();
    ExampleRowsShape();
    assert WithContacts(rows[4..], 0) == rows[4..];
    assert WithContacts(rows[3..], 0) == rows[3..];
    assert WithContacts(rows[2..], 0) == rows[3..];
    assert WithContacts(rows[1..], 0) == rows[3..];
  }

  lemma ExampleZeroTouchCohorts()
    ensures OfYear(WithContacts(ExampleRows(), 0), "2025") == ExampleRows()[..1]
    ensures OfYear(WithContacts(ExampleRows(), 0), "2026") == ExampleRows()[3..]
  {
    var rows := ExampleRows();
    ExampleRowsShape();
    ExampleZeroTouch();
    var z := [rows[0]] + rows[3..];
    assert "2025" != "2026" by {
      assert "2025"[3] != "2026"[3];
    }
    assert z[1..] == rows[3..] && z[2..] == rows[4..];
    assert OfYear(z[2..], "2025") == [];
    assert OfYear(z[1..], "2025") == [];
    assert OfYear(z[2..], "2026") == rows[4..];
    assert OfYear(z[1..], "2026") == rows[3..];
  }

  lemma ExampleMeans()
    ensures var rows := ExampleRows();
      && MeanContacts(rows[..3]) == 1.0 && MeanDays(rows[..3]) == None
      && MeanContacts(rows[3..]) == 0.0 && MeanDays(rows[3..]) == None
  {
    var rows := ExampleRows();
    assert rows[..3][1..] == rows[1..3] && rows[1..3][1..] == rows[2..3];
    assert rows[3..][1..] == rows[4..];
    assert SumContacts(rows[2..3]) == 2;
    assert SumContacts(rows[1..3]) == 3;
    assert SumContacts(rows[..3]) == 3;
    assert SumContacts(rows[3..]) == 0;
  }

  /** A KPI row is fixed by its cohort's size, zero-touch count and means. */
  lemma KpiOfFromParts(rows: seq<Sale>, y: string, n: nat, zero: nat, m: real, pct: real)
    requires y in Years(rows)
    requires |OfYear(rows, y)| == n && |OfYear(WithContacts(rows, 0), y)| == zero > 0
    requires MeanContacts(OfYear(rows, y)) == m && MeanDays(OfYear(rows, y)) == None
    requires pct == (zero as real) / (n as real) * 100.0
    ensures KpiOf(rows, y) == KpiRow(y, n, m, None, Some(zero), pct)
  {
  }

  /** The two shares of the example, as plain real arithmetic. */
  lemma ExampleShares()
    ensures (1 as real) / (3 as real) * 100.0 == 1.0 / 3.0 * 100.0
    ensures (2 as real) / (2 as real) * 100.0 == 100.0
  {
  }

  lemma ExampleKpiA(rows: seq<Sale>)
    requires rows == ExampleRows()
    ensures "2025" in Years(rows)
    ensures KpiOf(rows, "2025") == KpiRow("2025", 3, 1.0, None, Some(1), 1.0 / 3.0 * 100.0)
  {
    assert Years(rows)[0] == "2025" by {
      ExampleRowsShape();
    }
    assert OfYear(rows, "2025") == rows[..3] by {
      ExampleCohortA();
    }
    assert OfYear(WithContacts(rows, 0), "2025") == rows[..1] by {
      ExampleZeroTouchCohorts();
    }
    assert MeanContacts(rows[..3]) == 1.0 && MeanDays(rows[..3]) == None by {
      ExampleMeans();
    }
    assert |OfYear(rows, "2025")| == 3;
    assert |OfYear(WithContacts(rows, 0), "2025")| == 1;
    assert MeanContacts(OfYear(rows, "2025")) == 1.0;
    assert MeanDays(OfYear(rows, "2025")) == None;
    ExampleShares();
    KpiOfFromParts(rows, "2025", 3, 1, 1.0, 1.0 / 3.0 * 100.0);
  }

  lemma ExampleKpiB(rows: seq<Sale>)
    requires rows == ExampleRows()
    ensures "2026" in Years(rows)
    ensures KpiOf(rows, "2026") == KpiRow("2026", 2, 0.0, None, Some(2), 100.0)
  {
    assert Years(rows)[3] == "2026" by {
      ExampleRowsShape();
    }
    assert OfYear(rows, "2026") == rows[3..] by {
      ExampleCohortB();
    }
    assert OfYear(WithContacts(rows, 0), "2026") == rows[3..] by {
      ExampleZeroTouchCohorts();
    }
    assert MeanContacts(rows[3..]) == 0.0 && MeanDays(rows[3..]) == None by {
      ExampleMeans();
    }
    assert |OfYear(rows, "2026")| == 2;
    assert |OfYear(WithContacts(rows, 0), "2026")| == 2;
    assert MeanContacts(OfYear(rows, "2026")) == 0.0;
    assert MeanDays(OfYear(rows, "2026")) == None;
    ExampleShares();
    KpiOfFromParts(rows, "2026", 2, 2, 0.0, 100.0);
  }

  lemma KpiRowsPair(rows: seq<Sale>, a: string, b: string)
    requires a in Years(rows) && b in Years(rows)
    ensures KpiRows(rows, [a, b]) == [KpiOf(rows, a), KpiOf(rows, b)]
  {
    var t := KpiRows(rows, [a, b]);
    assert |t| == 2 && t[0] == KpiOf(rows, a) && t[1] == KpiOf(rows, b);
  }

  /**
   * The KPI table of the two cohorts: totals 3 and 2, means 1 and 0, and
   * zero-touch shares of a third and of all sales.
   */
  lemma TwoCohortExample(rows: seq<Sale>)
    requires rows == ExampleRows()
    ensures KpiTable(rows) ==
      [KpiRow("2025", 3, 1.0, None, Some(1), 1.0 / 3.0 * 100.0),
       KpiRow("2026", 2, 0.0, None, Some(2), 100.0)]
  {
    ExampleKpiA(rows);
    ExampleKpiB(rows);
    assert KpiTable(rows) == KpiRows(rows, ["2025", "2026"]) by {
      ExampleYears();
    }
    KpiRowsPair(rows, "2025", "2026");
  }
}
