/**
 * Calendar dates and pandas timestamps, and the month-day alignment of the
 * daily series onto the reference year 2020.
 */
module Dates {
  import opened Wrappers
  import Keys

  datatype Date = Date(year: int, month: int, day: int)

  /** A parsed timestamp: a calendar date and the nanoseconds into that day. */
  datatype Timestamp = Timestamp(date: Date, nanos: int)

  const NanosPerDay: int := 86_400_000_000_000

  /** The year every aligned date is moved to; it is a leap year. */
  const AlignmentYear: int := 2020

  predicate IsLeapYear(y: int) {
    y % 4 == 0 && (y % 100 != 0 || y % 400 == 0)
  }

  function DaysInMonth(y: int, m: int): int {
    if m == 2 then (if IsLeapYear(y) then 29 else 28)
    else if m == 4 || m == 6 || m == 9 || m == 11 then 30
    else 31
  }

  predicate ValidDate(d: Date) {
    1 <= d.month <= 12 && 1 <= d.day <= DaysInMonth(d.year, d.month)
  }

  predicate ValidTimestamp(t: Timestamp) {
    ValidDate(t.date) && 0 <= t.nanos < NanosPerDay
  }

  /** Chronological order on timestamps. */
  predicate TsLess(a: Timestamp, b: Timestamp) {
    || a.date.year < b.date.year
    || (a.date.year == b.date.year && a.date.month < b.date.month)
    || (a.date.year == b.date.year && a.date.month == b.date.month && a.date.day < b.date.day)
    || (a.date == b.date && a.nanos < b.nanos)
  }

  /** Order by month, day and time of day, ignoring the year. */
  predicate MonthDayLess(a: Timestamp, b: Timestamp) {
    || a.date.month < b.date.month
    || (a.date.month == b.date.month && a.date.day < b.date.day)
    || (a.date.month == b.date.month && a.date.day == b.date.day && a.nanos < b.nanos)
  }

  lemma TsLessIsStrictTotalOrder()
    ensures Keys.StrictTotalOrder(TsLess)
  {
  }

  /**
   * `Timestamp.replace(year=y)` under the calendar rule: the same month, day
   * and time in year `y`, or `None` where that day does not exist in `y`
   * (Python raises ValueError). The range check on `y` itself is not modelled.
   */
  function ReplaceYear(t: Timestamp, y: int): (r: Option<Timestamp>)
    ensures r.Some? ==> r.value.date == Date(y, t.date.month, t.date.day) && r.value.nanos == t.nanos
    ensures ValidDate(t.date) ==> (r.None? <==> t.date.month == 2 && t.date.day == 29 && !IsLeapYear(y))
  {
    var d := Date(y, t.date.month, t.date.day);
    if ValidDate(d) then Some(Timestamp(d, t.nanos)) else None
  }

  /** The plot date of the aligned overlay. */
  function Align(t: Timestamp): Option<Timestamp> {
    ReplaceYear(t, AlignmentYear)
  }

  /** Every valid timestamp, February 29 included, has a valid aligned image in 2020. */
  lemma AlignTotal(t: Timestamp)
    requires ValidTimestamp(t)
    ensures Align(t).Some? && ValidTimestamp(Align(t).value)
    ensures Align(t).value == Timestamp(Date(AlignmentYear, t.date.month, t.date.day), t.nanos)
  {
  }

  /**
   * A reference year takes every valid timestamp exactly when it is a leap
   * year: any other year rejects February 29.
   */
  lemma NonLeapReferenceRejectsLeapDay(y: int)
    ensures (forall t :: ValidTimestamp(t) ==> ReplaceYear(t, y).Some?) <==> IsLeapYear(y)
  {
    if !IsLeapYear(y) {
      var t := Timestamp(Date(2024, 2, 29), 0);
      assert ValidTimestamp(t) && ReplaceYear(t, y).None?;
    }
  }

  /** Aligned order is exactly month-day order of the originals. */
  lemma AlignOrder(a: Timestamp, b: Timestamp)
    requires ValidTimestamp(a) && ValidTimestamp(b)
    ensures TsLess(Align(a).value, Align(b).value) <==> MonthDayLess(a, b)
  {
    AlignTotal(a);
    AlignTotal(b);
  }

  /** Within one literal year, alignment keeps chronological order both ways. */
  lemma AlignOrderSameYear(a: Timestamp, b: Timestamp)
    requires ValidTimestamp(a) && ValidTimestamp(b) && a.date.year == b.date.year
    ensures TsLess(a, b) <==> TsLess(Align(a).value, Align(b).value)
  {
    AlignOrder(a, b);
  }

  lemma TsDistinct(xs: seq<Timestamp>)
    ensures Keys.Increasing(TsLess, Keys.Distinct(TsLess, xs))
    ensures Keys.NoDuplicates(Keys.Distinct(TsLess, xs))
  {
    TsLessIsStrictTotalOrder();
    Keys.DistinctIncreasing(TsLess, xs);
  }
}
