/**
 * The contact distribution: per campaign year, the number of sales at each
 * contact count and its percentage of the year's sales.
 */
module Distribution {
  import opened Records
  import opened Groups
  import Keys

  datatype DistRow = DistRow(year: string, contactCount: nat, count: nat, percentage: real)

  /** `count / count.sum() * 100` for each contact count in `keys`. */
  function Percentages(y: string, keys: seq<nat>, cs: seq<nat>, total: nat): (d: seq<DistRow>)
    requires total > 0
    ensures |d| == |keys|
    ensures forall i :: 0 <= i < |d| ==>
      d[i].year == y && d[i].contactCount == keys[i] && d[i].count == Keys.Count(cs, keys[i])
      && d[i].percentage == (d[i].count as real) / (total as real) * 100.0
  {
    if keys == [] then []
    else
      var c := Keys.Count(cs, keys[0]);
      [DistRow(y, keys[0], c, (c as real) / (total as real) * 100.0)] + Percentages(y, keys[1..], cs, total)
  }

  /** The rows of year `y`: group-by on `contact_count`, then the percentage transform. */
  function DistOfYear(rows: seq<Sale>, y: string): seq<DistRow> {
    var cs := Contacts(OfYear(rows, y));
    var keys := Keys.Distinct(Keys.NatLess, cs);
    var total := Keys.SumCounts(cs, keys);
    Keys.NatDistinct(cs);
    Keys.SumCountsCover(cs, keys);
    if total == 0 then [] else Percentages(y, keys, cs, total)
  }

  function DistYears(rows: seq<Sale>, ys: seq<string>): seq<DistRow> {
    if ys == [] then [] else DistOfYear(rows, ys[0]) + DistYears(rows, ys[1..])
  }

  /** `contact_counts` with its `percentage` column. */
  function DistTable(rows: seq<Sale>): seq<DistRow> {
    DistYears(rows, Keys.Distinct(Keys.StrLess, Years(rows)))
  }

  function SumCountColumn(d: seq<DistRow>): nat {
    if d == [] then 0 else d[0].count + SumCountColumn(d[1..])
  }

  function SumPercentages(d: seq<DistRow>): real {
    if d == [] then 0.0 else d[0].percentage + SumPercentages(d[1..])
  }

  lemma {:induction false} PercentagesCounts(y: string, keys: seq<nat>, cs: seq<nat>, total: nat)
    requires total > 0
    ensures SumCountColumn(Percentages(y, keys, cs, total)) == Keys.SumCounts(cs, keys)
  {
    if keys != [] {
      var d := Percentages(y, keys, cs, total);
      assert d[1..] == Percentages(y, keys[1..], cs, total);
      PercentagesCounts(y, keys[1..], cs, total);
    }
  }

  lemma ShareAdd(a: real, b: real, t: real)
    requires t > 0.0
    ensures a / t * 100.0 + b / t * 100.0 == (a + b) / t * 100.0
  {
    assert (a + b) / t == a / t + b / t;
  }

  lemma {:induction false} PercentagesTotal(y: string, keys: seq<nat>, cs: seq<nat>, total: nat)
    requires total > 0
    ensures SumPercentages(Percentages(y, keys, cs, total)) ==
            (Keys.SumCounts(cs, keys) as real) / (total as real) * 100.0
  {
    if keys != [] {
      var d := Percentages(y, keys, cs, total);
      assert d[1..] == Percentages(y, keys[1..], cs, total);
      PercentagesTotal(y, keys[1..], cs, total);
      var c := Keys.Count(cs, keys[0]);
      var rest := Keys.SumCounts(cs, keys[1..]);
      assert d[0].percentage == (c as real) / (total as real) * 100.0;
      ShareAdd(c as real, rest as real, total as real);
      assert (c + rest) as real == c as real + rest as real;
    }
  }

  /** The series of one year is the percentages over its sorted contact counts, or empty. */
  lemma DistOfYearUnfold(rows: seq<Sale>, y: string)
    ensures var cs := Contacts(OfYear(rows, y));
      DistOfYear(rows, y) ==
        if OfYear(rows, y) == [] then []
        else Percentages(y, Keys.Distinct(Keys.NatLess, cs), cs, |OfYear(rows, y)|)
  {
    var cs := Contacts(OfYear(rows, y));
    Keys.NatDistinct(cs);
    Keys.SumCountsCover(cs, Keys.Distinct(Keys.NatLess, cs));
  }

  /** Within one year: the distinct contact counts that occur, ascending. */
  lemma DistOfYearKeys(rows: seq<Sale>, y: string)
    ensures var d := DistOfYear(rows, y);
      && (forall i :: 0 <= i < |d| ==> d[i].year == y)
      && (forall i, j :: 0 <= i < j < |d| ==> d[i].contactCount < d[j].contactCount)
      && (forall c :: (exists i :: 0 <= i < |d| && d[i].contactCount == c) <==> c in Contacts(OfYear(rows, y)))
  {
    var cs := Contacts(OfYear(rows, y));
    var keys := Keys.Distinct(Keys.NatLess, cs);
    var d := DistOfYear(rows, y);
    DistOfYearUnfold(rows, y);
    Keys.NatDistinct(cs);
    forall c | c in cs ensures exists i :: 0 <= i < |d| && d[i].contactCount == c {
      var i :| 0 <= i < |keys| && keys[i] == c;
      assert d[i].contactCount == c;
    }
  }

  /**
   * Within one year: each count is the number of the year's sales with that
   * contact count, at least 1, and the counts add up to the year's sales.
   */
  lemma DistOfYearCounts(rows: seq<Sale>, y: string)
    ensures var d := DistOfYear(rows, y);
      && (forall i :: 0 <= i < |d| ==> d[i].count == |WithContacts(OfYear(rows, y), d[i].contactCount)| >= 1)
      && SumCountColumn(d) == |OfYear(rows, y)|
      && (d == [] <==> OfYear(rows, y) == [])
  {
    var g := OfYear(rows, y);
    var cs := Contacts(g);
    var keys := Keys.Distinct(Keys.NatLess, cs);
    var d := DistOfYear(rows, y);
    DistOfYearUnfold(rows, y);
    Keys.NatDistinct(cs);
    Keys.SumCountsCover(cs, keys);
    if g != [] {
      PercentagesCounts(y, keys, cs, |g|);
      forall i | 0 <= i < |d| ensures d[i].count == |WithContacts(g, d[i].contactCount)| >= 1 {
        assert keys[i] in keys;
        WithContactsSize(g, keys[i]);
      }
      assert g[0] in g;
      assert cs[0] in keys;
    }
  }

  /** Percentages over a key list that covers every value add up to exactly 100. */
  lemma PercentagesHundred(y: string, keys: seq<nat>, cs: seq<nat>)
    requires |cs| > 0 && Keys.NoDuplicates(keys)
    requires forall c :: c in cs ==> c in keys
    ensures SumPercentages(Percentages(y, keys, cs, |cs|)) == 100.0
  {
    Keys.SumCountsCover(cs, keys);
    PercentagesTotal(y, keys, cs, |cs|);
    WholeShare(|cs|);
  }

  lemma WholeShare(n: nat)
    requires n > 0
    ensures (n as real) / (n as real) * 100.0 == 100.0
  {
  }

  /** Picks the rows of one year out of the distribution table. */
  function DistRowsOfYear(d: seq<DistRow>, y: string): seq<DistRow> {
    if d == [] then []
    else if d[0].year == y then [d[0]] + DistRowsOfYear(d[1..], y)
    else DistRowsOfYear(d[1..], y)
  }

  lemma {:induction false} DistRowsOfYearAppend(a: seq<DistRow>, b: seq<DistRow>, y: string)
    ensures DistRowsOfYear(a + b, y) == DistRowsOfYear(a, y) + DistRowsOfYear(b, y)
  {
    if a == [] {
      assert a + b == b;
    } else {
      assert (a + b)[1..] == a[1..] + b;
      DistRowsOfYearAppend(a[1..], b, y);
    }
  }

  lemma {:induction false} DistRowsOfYearAll(d: seq<DistRow>, y: string)
    requires forall i :: 0 <= i < |d| ==> d[i].year == y
    ensures DistRowsOfYear(d, y) == d
  {
    if d != [] {
      DistRowsOfYearAll(d[1..], y);
    }
  }

  lemma {:induction false} DistRowsOfYearNone(d: seq<DistRow>, y: string)
    requires forall i :: 0 <= i < |d| ==> d[i].year != y
    ensures DistRowsOfYear(d, y) == []
  {
    if d != [] {
      DistRowsOfYearNone(d[1..], y);
    }
  }

  /** A year's rows carry that year. */
  lemma DistOfYearYear(rows: seq<Sale>, y: string)
    ensures forall i :: 0 <= i < |DistOfYear(rows, y)| ==> DistOfYear(rows, y)[i].year == y
  {
    DistOfYearUnfold(rows, y);
  }

  lemma {:induction false} DistYearsOfYear(rows: seq<Sale>, ys: seq<string>, y: string)
    requires Keys.NoDuplicates(ys)
    ensures DistRowsOfYear(DistYears(rows, ys), y) == if y in ys then DistOfYear(rows, y) else []
  {
    if ys != [] {
      DistRowsOfYearAppend(DistOfYear(rows, ys[0]), DistYears(rows, ys[1..]), y);
      Keys.NoDuplicatesTail(ys);
      DistYearsOfYear(rows, ys[1..], y);
      DistOfYearYear(rows, ys[0]);
      if ys[0] == y {
        DistRowsOfYearAll(DistOfYear(rows, y), y);
      } else {
        DistRowsOfYearNone(DistOfYear(rows, ys[0]), y);
      }
    }
  }

  /**
   * The rows of year `y` in the distribution table are exactly that year's
   * distribution, and a year appears only when it has a filtered sale.
   */
  lemma DistTableByYear(rows: seq<Sale>, y: string)
    ensures DistRowsOfYear(DistTable(rows), y) ==
      if y in Years(rows) then DistOfYear(rows, y) else []
  {
    Keys.StrDistinct(Years(rows));
    DistYearsOfYear(rows, Keys.Distinct(Keys.StrLess, Years(rows)), y);
  }

  /** Within one year the percentages add up to exactly 100. */
  lemma DistOfYearPercent(rows: seq<Sale>, y: string)
    requires OfYear(rows, y) != []
    ensures SumPercentages(DistOfYear(rows, y)) == 100.0
  {
    var cs := Contacts(OfYear(rows, y));
    DistOfYearUnfold(rows, y);
    Keys.NatDistinct(cs);
    PercentagesHundred(y, Keys.Distinct(Keys.NatLess, cs), cs);
  }
}
