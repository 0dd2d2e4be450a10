/**
 * Record normalisation: the CSV loader `load_data` and the spreadsheet branch.
 * Each raw row becomes a `Sale` whose dates are parsed (an unparseable value
 * becomes `None`, pandas' NaT), whose closing step is mapped to an ordinal
 * contact count, and whose campaign year is turned into a string.
 */
module Records {
  import opened Wrappers
  import opened Dates

  /** The six closing-step labels, at the index of the contact count they stand for. */
  const StepLabels: seq<string> := [
    "TKT - To start",
    "TKT - 1st contact complete",
    "TKT - 2nd contact complete",
    "TKT - 3rd contact complete",
    "TKT - 4th contact complete",
    "TKT - 5th contact complete"
  ]

  /** The table of the CSV loader. */
  const CsvContactMap: map<string, nat> := map[
    "TKT - To start" := 0,
    "TKT - 1st contact complete" := 1,
    "TKT - 2nd contact complete" := 2,
    "TKT - 3rd contact complete" := 3,
    "TKT - 4th contact complete" := 4,
    "TKT - 5th contact complete" := 5
  ]

  /** The shorter table of the spreadsheet branch. */
  const SheetContactMap: map<string, nat> := map[
    "TKT - To start" := 0,
    "TKT - 1st contact complete" := 1,
    "TKT - 2nd contact complete" := 2,
    "TKT - 3rd contact complete" := 3
  ]

  /** `Series.map(table).fillna(0)`: a missing or unlisted label counts as 0. */
  function ContactCount(table: map<string, nat>, step: Option<string>): nat {
    if step.Some? && step.value in table then table[step.value] else 0
  }

  /** Every listed label maps to its ordinal and every other label, or none, to 0. */
  lemma CsvContactCount(step: Option<string>)
    ensures ContactCount(CsvContactMap, step) <= 5
    ensures forall i :: 0 <= i < |StepLabels| ==> ContactCount(CsvContactMap, Some(StepLabels[i])) == i
    ensures (step.None? || step.value !in StepLabels) ==> ContactCount(CsvContactMap, step) == 0
  {
    assert CsvContactMap.Keys == set l | l in StepLabels;
  }

  /** The spreadsheet table agrees on its four labels and sends the 4th and 5th to 0. */
  lemma SheetContactCount(step: Option<string>)
    ensures ContactCount(SheetContactMap, step) <= 3
    ensures forall i :: 0 <= i < 4 ==>
      ContactCount(SheetContactMap, Some(StepLabels[i])) == ContactCount(CsvContactMap, Some(StepLabels[i])) == i
    ensures ContactCount(SheetContactMap, Some(StepLabels[4])) == 0
    ensures ContactCount(SheetContactMap, Some(StepLabels[5])) == 0
    ensures (step.None? || step.value !in StepLabels) ==> ContactCount(SheetContactMap, step) == 0
  {
  }

  /** A `campaign_year` cell as read: a number or text. */
  datatype YearCell = YearNumber(n: int) | YearText(s: string)

  function DigitChar(d: nat): char
    requires d < 10
  {
    "0123456789"[d]
  }

  /** `str(n)` for a non-negative integer. */
  function NatToDecimal(n: nat): (s: string)
    ensures |s| > 0
    ensures forall i :: 0 <= i < |s| ==> '0' <= s[i] <= '9'
  {
    if n < 10 then [DigitChar(n)] else NatToDecimal(n / 10) + [DigitChar(n % 10)]
  }

  /** `str(n)` for an integer. */
  function IntToDecimal(n: int): (s: string)
    ensures |s| > 0
  {
    if n < 0 then "-" + NatToDecimal(-n) else NatToDecimal(n)
  }

  /** The value of a string of decimal digits. */
  function DecimalValue(s: string): int
    decreases |s|
  {
    if s == [] then 0 else DecimalValue(s[..|s| - 1]) * 10 + ((s[|s| - 1] as int) - ('0' as int))
  }

  function SignedDecimalValue(s: string): int {
    if |s| > 0 && s[0] == '-' then -DecimalValue(s[1..]) else DecimalValue(s)
  }

  lemma {:induction false} NatToDecimalRoundTrip(n: nat)
    ensures DecimalValue(NatToDecimal(n)) == n
  {
    if n >= 10 {
      var s := NatToDecimal(n);
      assert s[..|s| - 1] == NatToDecimal(n / 10);
      NatToDecimalRoundTrip(n / 10);
    }
  }

  /** Reading back `str(n)` gives `n`. */
  lemma IntToDecimalRoundTrip(n: int)
    ensures SignedDecimalValue(IntToDecimal(n)) == n
  {
    var s := IntToDecimal(n);
    if n < 0 {
      assert s[0] == '-' && s[1..] == NatToDecimal(-n);
      NatToDecimalRoundTrip(-n);
    } else {
      assert s == NatToDecimal(n) && '0' <= s[0] <= '9';
      NatToDecimalRoundTrip(n);
    }
  }

  /** `astype(str)`: the year label of a cell. */
  function YearLabel(c: YearCell): string {
    match c
    case YearNumber(n) => IntToDecimal(n)
    case YearText(s) => s
  }

  /** Distinct numeric years get distinct labels, so no two cohorts merge. */
  lemma YearLabelInjective(a: int, b: int)
    requires YearLabel(YearNumber(a)) == YearLabel(YearNumber(b))
    ensures a == b
  {
    IntToDecimalRoundTrip(a);
    IntToDecimalRoundTrip(b);
  }

  datatype RawRow = RawRow(
    customerNo: string,
    campaignYear: YearCell,
    series: string,
    planCloseText: string,
    orderText: string,
    step: Option<string>,
    daysToClose: Option<real>)

  datatype Sale = Sale(
    customerNo: string,
    year: string,
    series: string,
    planClose: Option<Timestamp>,
    closeDate: Option<Date>,
    orderedAt: Option<Timestamp>,
    step: Option<string>,
    contactCount: nat,
    daysToClose: Option<real>)

  /** The date part of an optional timestamp. */
  function DatePart(t: Option<Timestamp>): Option<Date> {
    if t.Some? then Some(t.value.date) else None
  }

  /** One row of `load_data`; `parse` is `pd.to_datetime(..., errors='coerce')`. */
  function CsvRow(raw: RawRow, parse: string -> Option<Timestamp>): Sale {
    var planClose := parse(raw.planCloseText);
    Sale(raw.customerNo, YearLabel(raw.campaignYear), raw.series, planClose, DatePart(planClose),
         parse(raw.orderText), raw.step, ContactCount(CsvContactMap, raw.step), raw.daysToClose)
  }

  /** One row of the spreadsheet branch, which adds no `close_date` column. */
  function SheetRow(raw: RawRow, parse: string -> Option<Timestamp>): Sale {
    Sale(raw.customerNo, YearLabel(raw.campaignYear), raw.series, parse(raw.planCloseText), None,
         parse(raw.orderText), raw.step, ContactCount(SheetContactMap, raw.step), raw.daysToClose)
  }

  /** The invariant every normalised table keeps: contact counts lie in 0..5. */
  ghost predicate WellFormed(rows: seq<Sale>) {
    forall s :: s in rows ==> s.contactCount <= 5
  }

  /** The parser only yields real timestamps. */
  ghost predicate ValidParser(parse: string -> Option<Timestamp>) {
    forall s :: parse(s).Some? ==> ValidTimestamp(parse(s).value)
  }

  /** Every date column of the table holds only real timestamps. */
  ghost predicate ValidDates(rows: seq<Sale>) {
    forall s :: s in rows ==>
      && (s.planClose.Some? ==> ValidTimestamp(s.planClose.value))
      && (s.orderedAt.Some? ==> ValidTimestamp(s.orderedAt.value))
      && (s.closeDate.Some? ==> ValidDate(s.closeDate.value))
  }

  /** The dtype a column gets from `read_csv`: without `parse_dates`, date text stays text. */
  datatype ColumnType = TextColumn | DatetimeColumn

  /** `load_data`: normalises every row, keeping the row order. */
  method LoadCsv(raw: seq<RawRow>, parse: string -> Option<Timestamp>) returns (df: seq<Sale>)
    ensures |df| == |raw|
    ensures forall i :: 0 <= i < |raw| ==> df[i] == CsvRow(raw[i], parse)
    ensures WellFormed(df)
    ensures forall i :: 0 <= i < |raw| ==> df[i].closeDate == DatePart(df[i].planClose)
    ensures ValidParser(parse) ==> ValidDates(df)
    ensures LoadCsvAsWritten(raw, DatetimeColumn, parse) == Some(df)
  {
    df := [];
    for i := 0 to |raw|
      invariant |df| == i
      invariant forall k :: 0 <= k < i ==> df[k] == CsvRow(raw[k], parse)
      invariant forall k :: 0 <= k < i ==> df[k].contactCount <= 5
    {
      CsvContactCount(raw[i].step);
      df := df + [CsvRow(raw[i], parse)];
    }
    LoadCsvAsWrittenOnDatetime(raw, parse);
    assert LoadCsvAsWritten(raw, DatetimeColumn, parse).value == df;
  }

  /** The spreadsheet branch: as `LoadCsv`, but with the four-entry table. */
  method LoadSheet(raw: seq<RawRow>, parse: string -> Option<Timestamp>) returns (df: seq<Sale>)
    ensures |df| == |raw|
    ensures forall i :: 0 <= i < |raw| ==> df[i] == SheetRow(raw[i], parse)
    ensures forall s :: s in df ==> s.contactCount <= 3
    ensures ValidParser(parse) ==> ValidDates(df)
  {
    df := [];
    for i := 0 to |raw|
      invariant |df| == i
      invariant forall k :: 0 <= k < i ==> df[k] == SheetRow(raw[k], parse)
      invariant forall k :: 0 <= k < i ==> df[k].contactCount <= 3
    {
      SheetContactCount(raw[i].step);
      df := df + [SheetRow(raw[i], parse)];
    }
  }

  /**
   * `load_data` as written takes `close_date` from `plan_close_dt` before that
   * column is converted: the `.dt` accessor raises on a text column, so the
   * result is `None` (the exception) unless the column is already datetime.
   */
  function CloseDatesAsWritten(raw: seq<RawRow>, planCloseType: ColumnType, parse: string -> Option<Timestamp>)
    : Option<seq<Option<Date>>>
  {
    if planCloseType == TextColumn then None
    else Some(seq(|raw|, i requires 0 <= i < |raw| => DatePart(parse(raw[i].planCloseText))))
  }

  /**
   * `load_data` in source order: the close dates of the unconverted column
   * first, then the conversions, the contact counts and the year labels.
   */
  function LoadCsvAsWritten(raw: seq<RawRow>, planCloseType: ColumnType, parse: string -> Option<Timestamp>)
    : Option<seq<Sale>>
  {
    var cds := CloseDatesAsWritten(raw, planCloseType, parse);
    if cds.None? then None
    else Some(seq(|raw|, i requires 0 <= i < |raw| => CsvRow(raw[i], parse).(closeDate := cds.value[i])))
  }

  /** `read_csv` leaves `plan_close_dt` as text, so the loader as written fails on every upload. */
  lemma CsvLoaderAsWrittenFails(raw: seq<RawRow>, parse: string -> Option<Timestamp>)
    ensures LoadCsvAsWritten(raw, TextColumn, parse).None?
  {
  }

  /**
   * Had the column already been datetime, the loader as written would give
   * exactly the normalised rows: the two differ only in the column type at line 18.
   */
  lemma LoadCsvAsWrittenOnDatetime(raw: seq<RawRow>, parse: string -> Option<Timestamp>)
    ensures var r := LoadCsvAsWritten(raw, DatetimeColumn, parse);
      r.Some? && |r.value| == |raw| && forall i :: 0 <= i < |raw| ==> r.value[i] == CsvRow(raw[i], parse)
  {
  }

  /** The two loaders differ only where the 4th or 5th contact label occurs. */
  lemma LoadersAgreeBelowFourth(raw: RawRow, parse: string -> Option<Timestamp>)
    requires raw.step != Some(StepLabels[4]) && raw.step != Some(StepLabels[5])
    ensures SheetRow(raw, parse) == CsvRow(raw, parse).(closeDate := None)
  {
    if raw.step.Some? && raw.step.value in StepLabels {
      var i :| 0 <= i < 6 && StepLabels[i] == raw.step.value;
      CsvContactCount(raw.step);
      SheetContactCount(raw.step);
    } else {
      CsvContactCount(raw.step);
      SheetContactCount(raw.step);
    }
  }
}
