/**
 * Column projections and group selections shared by the aggregations: the
 * rows of one group, and sums and counts over them.
 */
module Groups {
  import opened Wrappers
  import opened Dates
  import opened Records
  import Keys

  /** The `campaign_year` column. */
  function Years(rows: seq<Sale>): (ys: seq<string>)
    ensures |ys| == |rows|
    ensures forall i :: 0 <= i < |rows| ==> ys[i] == rows[i].year
  {
    if rows == [] then [] else [rows[0].year] + Years(rows[1..])
  }

  /** The `campaign_series` column. */
  function SeriesColumn(rows: seq<Sale>): (ss: seq<string>)
    ensures |ss| == |rows|
    ensures forall i :: 0 <= i < |rows| ==> ss[i] == rows[i].series
  {
    if rows == [] then [] else [rows[0].series] + SeriesColumn(rows[1..])
  }

  /** The `contact_count` column. */
  function Contacts(rows: seq<Sale>): (cs: seq<nat>)
    ensures |cs| == |rows|
    ensures forall i :: 0 <= i < |rows| ==> cs[i] == rows[i].contactCount
  {
    if rows == [] then [] else [rows[0].contactCount] + Contacts(rows[1..])
  }

  /** The rows of cohort `y`, in table order. */
  function OfYear(rows: seq<Sale>, y: string): (g: seq<Sale>)
    ensures forall s :: s in g <==> s in rows && s.year == y
  {
    if rows == [] then []
    else if rows[0].year == y then [rows[0]] + OfYear(rows[1..], y)
    else OfYear(rows[1..], y)
  }

  /** The rows of series `s`, in table order. */
  function OfSeries(rows: seq<Sale>, s: string): (g: seq<Sale>)
    ensures forall x :: x in g <==> x in rows && x.series == s
  {
    if rows == [] then []
    else if rows[0].series == s then [rows[0]] + OfSeries(rows[1..], s)
    else OfSeries(rows[1..], s)
  }

  /** The rows with a given contact count, in table order. */
  function WithContacts(rows: seq<Sale>, c: nat): (g: seq<Sale>)
    ensures forall s :: s in g <==> s in rows && s.contactCount == c
  {
    if rows == [] then []
    else if rows[0].contactCount == c then [rows[0]] + WithContacts(rows[1..], c)
    else WithContacts(rows[1..], c)
  }

  /** The rows whose `plan_close_dt` parsed (group-by drops NaT keys). */
  function Dated(rows: seq<Sale>): (d: seq<Sale>)
    ensures forall s :: s in d <==> s in rows && s.planClose.Some?
  {
    if rows == [] then []
    else if rows[0].planClose.Some? then [rows[0]] + Dated(rows[1..])
    else Dated(rows[1..])
  }

  /** The parsed `plan_close_dt` values of the dated rows. */
  function Stamps(rows: seq<Sale>): (ts: seq<Timestamp>)
    ensures |ts| == |Dated(rows)|
    ensures forall t :: t in ts <==> exists s :: s in rows && s.planClose == Some(t)
  {
    if rows == [] then []
    else if rows[0].planClose.Some? then [rows[0].planClose.value] + Stamps(rows[1..])
    else Stamps(rows[1..])
  }

  /** A year in the year column has a non-empty cohort. */
  lemma InYearsNonEmpty(rows: seq<Sale>, y: string)
    requires y in Years(rows)
    ensures OfYear(rows, y) != []
  {
    var i :| 0 <= i < |rows| && Years(rows)[i] == y;
    assert rows[i] in OfYear(rows, y);
  }

  /** The size of a cohort is the count of its label in the year column. */
  lemma {:induction false} OfYearSize(rows: seq<Sale>, y: string)
    ensures |OfYear(rows, y)| == Keys.Count(Years(rows), y)
  {
    if rows != [] {
      assert Years(rows)[1..] == Years(rows[1..]);
      OfYearSize(rows[1..], y);
    }
  }

  lemma {:induction false} WithContactsSize(rows: seq<Sale>, c: nat)
    ensures |WithContacts(rows, c)| == Keys.Count(Contacts(rows), c)
  {
    if rows != [] {
      assert Contacts(rows)[1..] == Contacts(rows[1..]);
      WithContactsSize(rows[1..], c);
    }
  }

  /** Selecting zero-contact rows before or after the cohort gives the same count. */
  lemma {:induction false} SelectionsCommute(rows: seq<Sale>, y: string, c: nat)
    ensures |OfYear(WithContacts(rows, c), y)| == |WithContacts(OfYear(rows, y), c)|
  {
    if rows != [] {
      SelectionsCommute(rows[1..], y, c);
    }
  }

  /** The cohorts of the dated rows: a year counts once per parsed timestamp. */
  lemma {:induction false} DatedOfYear(rows: seq<Sale>, y: string)
    ensures Stamps(OfYear(rows, y)) == Stamps(OfYear(Dated(rows), y))
    ensures |Stamps(OfYear(rows, y))| == |OfYear(Dated(rows), y)|
  {
    if rows != [] {
      DatedOfYear(rows[1..], y);
    }
    DatedStamps(OfYear(Dated(rows), y));
  }

  lemma {:induction false} DatedStamps(rows: seq<Sale>)
    requires forall s :: s in rows ==> s.planClose.Some?
    ensures |Stamps(rows)| == |rows|
  {
    if rows != [] {
      DatedStamps(rows[1..]);
    }
  }

  /** The sum of the `contact_count` column. */
  function SumContacts(rows: seq<Sale>): (n: nat)
    ensures WellFormed(rows) ==> n <= 5 * |rows|
  {
    if rows == [] then 0 else rows[0].contactCount + SumContacts(rows[1..])
  }

  /** `mean(contact_count)` of a non-empty group. */
  function MeanContacts(rows: seq<Sale>): (m: real)
    requires |rows| > 0
    ensures 0.0 <= m
    ensures WellFormed(rows) ==> m <= 5.0
  {
    MeanBound(SumContacts(rows), |rows|, 5);
    (SumContacts(rows) as real) / (|rows| as real)
  }

  lemma MeanBound(sum: nat, n: nat, k: nat)
    requires n > 0
    ensures 0.0 <= (sum as real) / (n as real)
    ensures sum <= k * n ==> (sum as real) / (n as real) <= k as real
  {
    if sum <= k * n {
      assert (sum as real) <= (k as real) * (n as real);
    }
  }

  /** The present `days_to_plan_close` values (the mean skips NaN). */
  function DaysValues(rows: seq<Sale>): (vs: seq<real>)
    ensures |vs| <= |rows|
    ensures (|vs| == 0) <==> forall s :: s in rows ==> s.daysToClose.None?
  {
    if rows == [] then []
    else if rows[0].daysToClose.Some? then [rows[0].daysToClose.value] + DaysValues(rows[1..])
    else DaysValues(rows[1..])
  }

  function SumReals(vs: seq<real>): real {
    if vs == [] then 0.0 else vs[0] + SumReals(vs[1..])
  }

  /** `mean(days_to_plan_close)`: NaN (`None`) exactly when no value is present. */
  function MeanDays(rows: seq<Sale>): (m: Option<real>)
    ensures m.None? <==> forall s :: s in rows ==> s.daysToClose.None?
    ensures m.Some? ==> m.value * (|DaysValues(rows)| as real) == SumReals(DaysValues(rows))
  {
    var vs := DaysValues(rows);
    if |vs| == 0 then None else Some(SumReals(vs) / (|vs| as real))
  }
}
