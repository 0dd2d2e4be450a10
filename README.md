# Outbound campaign comparison dashboard: the data pipeline

This project models the data pipeline of the Streamlit script
`outbound_dashboard.py`. The script compares outbound sales campaigns year
against year. An uploaded table of sales is normalised: dates are parsed, the
closing step becomes a contact count, and the campaign year becomes a label.
The table is then filtered on the selected years and series. The page builds
four result tables from it, one shown as a table (`st.dataframe`) and three
as Plotly charts:

- the per-year KPI table (total sales, average contacts, average days to
  close, zero-touch share);
- the daily and cumulative sales series, optionally moved onto the reference
  year 2020 for an overlay;
- the distribution of contact counts within each year;
- the mean contact count per (series, year) pair.

The model works on a sequence of rows. The modules are:

- `Keys`: pandas group-by keys as sorted distinct key lists. The generic
  `Distinct` is used with Python's string order (`StrLess`, proved a strict
  total order), chronological order (`TsLess`) and the order of naturals.
  `Count` and `SumCounts` count per key.
- `Dates`: dates, timestamps, `replace(year=...)` and the alignment onto 2020.
- `Records`: the raw row, the normalised `Sale`, both contact tables, the year
  label, and the two loaders. The loaders are methods with a per-row loop,
  proved against the row functions `CsvRow` and `SheetRow`.
- `Filtering`: the year/series selection.
- `Groups`: column projections, group selections and means.
- `Kpi`, `DailySeries`, `Distribution`, `Pivot`: the four tables.
- `Dashboard`: one run. It loads through the loader the file name selects. It
  then renders either the "no data" warning, the tables, or the catch-all
  error.

Date parsing (`pd.to_datetime(..., errors='coerce')`) is a parameter
`parse: string -> Option<Timestamp>`, where `None` is NaT. A missing value
(NaN) is `None` throughout. Means and percentages are exact `real`s.

## Model

| member | source | states |
|---|---|---|
| Records.CsvContactCount | outbound_dashboard.py:25-33 | The CSV contact table maps each of the six step labels to its ordinal 0..5. Any other label, or a missing one, maps to 0. Every count is at most 5. |
| Records.SheetContactCount | outbound_dashboard.py:54-56 | The spreadsheet table agrees with the CSV table on the first four labels. It sends the 4th- and 5th-contact labels to 0, so counts there are at most 3. |
| Records.ContactCount | outbound_dashboard.py:33 | `map(contact_map).fillna(0)` on one cell. Its properties for the two tables are the rows `Records.CsvContactCount` and `Records.SheetContactCount`. |
| Records.YearLabel | outbound_dashboard.py:36 | `astype(str)` on one year cell. Its properties are the rows `Records.IntToDecimalRoundTrip` and `Records.YearLabelInjective`. |
| Records.CsvRow | outbound_dashboard.py:14-38 | One normalised row of `load_data`, with `close_date` as lines 18-21 evidently intend. `Records.LoadCsv` and `Records.LoadersAgreeBelowFourth` state its properties. |
| Records.SheetRow | outbound_dashboard.py:51-57 | One row of the spreadsheet branch, which adds no `close_date`. `Records.LoadSheet` and `Records.LoadersAgreeBelowFourth` state its properties. |
| Records.LoadersAgreeBelowFourth | outbound_dashboard.py:54-56 | Away from the 4th and 5th labels, a spreadsheet row equals the CSV row without its `close_date`. |
| Records.IntToDecimalRoundTrip | outbound_dashboard.py:36 | `astype(str)` on an integer year can be read back to the same integer. |
| Records.YearLabelInjective | outbound_dashboard.py:36 | Distinct numeric years get distinct labels, so no two cohorts merge. |
| Records.LoadCsv | outbound_dashboard.py:14-38 | Row by row, in order, each row is the normalised row. `close_date` is the date part of the parsed `plan_close_dt`. Contact counts lie in 0..5. With a parser that yields only real dates, every date column (`plan_close_dt`, `order_dt`, `close_date`) holds only real dates. The result is what `load_data` in source order would give on a datetime column. |
| Records.LoadSheet | outbound_dashboard.py:51-57 | Row by row, in order, each row is the spreadsheet-normalised row. Contact counts lie in 0..3. |
| Records.CsvLoaderAsWrittenFails | outbound_dashboard.py:15-21 | `load_data` in source order (`LoadCsvAsWritten`) takes `.dt.date` of `plan_close_dt` before line 21 converts it. On the text column `read_csv` gives, it fails for every upload, whatever the rows. |
| Records.LoadCsvAsWrittenOnDatetime | outbound_dashboard.py:14-38 | Had `plan_close_dt` already been a datetime column, `load_data` in source order would give exactly the normalised rows. The as-written and corrected loaders differ only in the column type at line 18. |
| Records.CloseDatesAsWritten | outbound_dashboard.py:18 | `.dt.date` on `plan_close_dt` before it is converted: a raise on a text column. Its consequence for the loader is the row `Records.CsvLoaderAsWrittenFails`. |
| Records.LoadCsvAsWritten | outbound_dashboard.py:14-38 | `load_data` in source order. Its properties are the rows `Records.CsvLoaderAsWrittenFails` and `Records.LoadCsvAsWrittenOnDatetime`. |
| Dashboard.Load | outbound_dashboard.py:47-57 | A name ending in ".csv" uses the CSV loader and any other name the spreadsheet branch. Either way, row count and order are kept and counts lie in 0..5. |
| Filtering.Filter | outbound_dashboard.py:70-73 | The result holds no more rows than the input. A row is kept exactly when its year and its series are both selected. |
| Filtering.FilterAppend | outbound_dashboard.py:70-73 | Filtering distributes over concatenation, so the original order is kept. |
| Filtering.FilterAllSelected | outbound_dashboard.py:70-73 | With every year and series selected (the widgets' default), the table is unchanged. |
| Filtering.FilterEmpty | outbound_dashboard.py:75 | The filtered table is empty exactly when no row has a selected year and a selected series. |
| Groups.OfYearSize | outbound_dashboard.py:84-85 | A cohort's size is the count of its label in the year column. |
| Groups.SelectionsCommute | outbound_dashboard.py:92 | Taking zero-contact rows and then a year gives as many rows as the other order. |
| Groups.MeanContacts | outbound_dashboard.py:86 | The mean contact count of a non-empty well-formed group lies in [0, 5]. |
| Groups.MeanDays | outbound_dashboard.py:87 | The mean days to close is NaN exactly when no value is present. Otherwise it times the number of values is their sum. |
| Kpi.KpiOf | outbound_dashboard.py:84-94 | The KPI row of one year. Its columns are stated by `Kpi.KpiOfCounts`, `Kpi.KpiOfAvgContacts` and `Kpi.KpiOfPctZeroTouch`. |
| Kpi.KpiTable | outbound_dashboard.py:84-94 | The KPI table. Its keys and order are `Kpi.KpiTableYears`, its total is `Kpi.KpiTableTotal`, and a worked instance is `Kpi.TwoCohortExample`. |
| Kpi.KpiOfCounts | outbound_dashboard.py:84-93 | A year's row has `Total_Sales` equal to its cohort size, which is at least 1. `Zero_Touch_Count` is NaN exactly when the cohort has no zero-contact sale; otherwise it is that number. It never exceeds `Total_Sales`. |
| Kpi.KpiOfAvgContacts | outbound_dashboard.py:86 | `Avg_Contacts` lies in [0, 5]. |
| Kpi.KpiOfPctZeroTouch | outbound_dashboard.py:94 | `%_Zero_Touch` is the zero-contact count over `Total_Sales` times 100 (0 after `fillna` when there is none). It lies in [0, 100]. |
| Kpi.PctZeroTouch | outbound_dashboard.py:94 | `(Zero_Touch_Count / Total_Sales * 100).fillna(0)`. Its meaning is the row `Kpi.PctZeroTouchShare`. |
| Kpi.PctZeroTouchShare | outbound_dashboard.py:94 | `fillna(0)` turns the NaN of a year without zero-touch sales into the share 0. |
| Kpi.KpiTableYears | outbound_dashboard.py:84-89 | The table has one row per year present, in strictly ascending string order. A year has a row exactly when some filtered sale has it. |
| Kpi.KpiTableTotal | outbound_dashboard.py:84-85 | The `Total_Sales` column sums to the number of filtered rows. |
| Kpi.TwoCohortExample | outbound_dashboard.py:84-94 | Cohort "2025" with counts 0, 1, 2 and cohort "2026" with 0, 0 give the rows (3, 1.0, NaN, 1, 33.3…%) and (2, 0.0, NaN, 2, 100%). |
| DailySeries.DailyOfYear | outbound_dashboard.py:121-126 | The daily series of one year. `DailySeries.DailyOfYearDates`, `DailySeries.DailyOfYearCounts` and `DailySeries.DailyOfYearCumulative` state its columns. |
| DailySeries.DailyTable | outbound_dashboard.py:121-126 | The daily table. `DailySeries.DailyTableByYear`, `DailySeries.DailyTableSorted` and `DailySeries.DailyTableTotal` state its properties. |
| DailySeries.DailyOfYearDates | outbound_dashboard.py:121-125 | A year's daily rows carry that year. Their timestamps are strictly ascending. They are exactly the parsed close timestamps of the cohort, so NaT rows are left out. |
| DailySeries.DailyOfYearCounts | outbound_dashboard.py:121 | Each `daily_sales` is the number of the cohort's sales at that timestamp, which is at least 1. |
| DailySeries.RunningCounts | outbound_dashboard.py:126 | The `cumsum` over one year's daily counts: one row per key, carrying the year, the timestamp and its count. The rows `DailySeries.RunningCountsCumulative` and `DailySeries.CumulativeMonotone` state the running sum. |
| DailySeries.RunningCountsCumulative | outbound_dashboard.py:126 | Each cumulative value is the starting value plus the sum of the daily counts up to and including its row. |
| DailySeries.CumulativeMonotone | outbound_dashboard.py:126 | A running sum never decreases along the rows. |
| DailySeries.DailyOfYearCumulative | outbound_dashboard.py:126 | Within a year, `cumulative_sales` is the running sum of `daily_sales` and never decreases. The daily counts sum to the cohort's number of dated rows, and the last cumulative value equals it. |
| DailySeries.DailyTableByYear | outbound_dashboard.py:121-126 | The rows of year `y` in the daily table are exactly that year's series. A year appears only when some sale of it has a parsed date. |
| DailySeries.DailyTableSorted | outbound_dashboard.py:125 | The table is strictly ascending by (year, timestamp). |
| DailySeries.DailyTableTotal | outbound_dashboard.py:121 | The `daily_sales` column sums to the number of filtered rows with a parsed close timestamp. |
| DailySeries.PlotDates | outbound_dashboard.py:137 | The plot dates are the aligned timestamps row by row. They are missing exactly when some row cannot be aligned. |
| DailySeries.AlignedDailyTable | outbound_dashboard.py:137 | With valid dates every row aligns. The plot column has one 2020 date per row, with month, day and time kept. It is ordered exactly as the month-day order of the originals. |
| Dates.Align | outbound_dashboard.py:137 | `replace(year=2020)`, the plot date of the overlay. `Dates.AlignTotal`, `Dates.AlignOrder` and `Dates.AlignOrderSameYear` state its properties. |
| Dates.ReplaceYear | outbound_dashboard.py:137 | Under the calendar rule, `replace(year=y)` keeps month, day and time. For a valid date it fails exactly on February 29 into a non-leap year. |
| Dates.AlignTotal | outbound_dashboard.py:137 | Every valid timestamp, February 29 included, has a valid image in 2020 with the same month, day and time. |
| Dates.NonLeapReferenceRejectsLeapDay | outbound_dashboard.py:136-137 | Under the calendar rule, a reference year takes every valid timestamp exactly when it is a leap year. Any other year would reject February 29, which is why the leap year 2020 needs no special handling. |
| Dates.AlignOrder | outbound_dashboard.py:137 | Aligned timestamps are in chronological order exactly when the originals are in month-day order. |
| Dates.AlignOrderSameYear | outbound_dashboard.py:137 | Within one year, alignment keeps chronological order in both directions. |
| Keys.StrLessIsStrictTotalOrder | outbound_dashboard.py:84 | Python's string order, used to sort group keys, is a strict total order. |
| Keys.DistinctIncreasing | outbound_dashboard.py:84 | Under a strict total order the group keys are strictly ascending and duplicate-free. |
| Keys.SumCountsCover | outbound_dashboard.py:85 | Over duplicate-free keys covering every value, the per-key counts sum to the number of values. |
| Distribution.DistOfYear | outbound_dashboard.py:186-189 | The distribution rows of one year. `Distribution.DistOfYearKeys`, `Distribution.DistOfYearCounts` and `Distribution.DistOfYearPercent` state its columns. |
| Distribution.DistTable | outbound_dashboard.py:186-189 | The `contact_counts` table. `Distribution.DistTableByYear` relates it to the per-year rows. |
| Distribution.DistTableByYear | outbound_dashboard.py:186 | The rows of year `y` in the table are exactly that year's distribution. A year appears only when some filtered sale has it. |
| Distribution.DistOfYearKeys | outbound_dashboard.py:186 | A year's distribution rows carry that year. Their contact counts are strictly ascending and are exactly the counts occurring in the cohort. |
| Distribution.DistOfYearCounts | outbound_dashboard.py:186 | Each `count` is the number of the cohort's sales with that contact count, at least 1. The counts sum to the cohort's size. A year has rows exactly when it has sales. |
| Distribution.Percentages | outbound_dashboard.py:189 | The `x / x.sum() * 100` transform: one row per contact count, with its count and its share of the total. The row `Distribution.PercentagesHundred` states that the shares add up to 100. |
| Distribution.PercentagesHundred | outbound_dashboard.py:189 | Shares of a whole over duplicate-free keys covering it sum to exactly 100. |
| Distribution.DistOfYearPercent | outbound_dashboard.py:189 | Within each year present, the percentages sum to exactly 100. |
| Pivot.PivotTable | outbound_dashboard.py:222 | The (series, year) mean table. `Pivot.PivotTableOrder`, `Pivot.PivotTablePairs` and `Pivot.PivotTableMeans` state its properties. |
| Pivot.PivotTableOrder | outbound_dashboard.py:222 | The pivot is strictly ascending by (series, year), so no pair appears twice. |
| Pivot.PivotTablePairs | outbound_dashboard.py:222 | A (series, year) pair has a row exactly when some sale has that series and year. |
| Pivot.PivotTableMeans | outbound_dashboard.py:222 | Every row's value is the mean contact count of its pair's sales, and it lies in [0, 5]. |
| Dashboard.Render | outbound_dashboard.py:70-137 | The page after loading, with line 142 corrected: the filter, the warning, and then the tables. `Dashboard.RenderNoData`, `Dashboard.RenderNeverFails` and `Dashboard.RenderTotals` state its properties. |
| Dashboard.RenderAsWritten | outbound_dashboard.py:131-149 | The page as written, whose x-axis choice at line 142 sends the plot call at line 149 to the handler with the toggle off. Its properties are the rows `Dashboard.RenderAsWrittenUnalignedFails` and `Dashboard.RenderAsWrittenAligned`. |
| Dashboard.RenderAsWrittenUnalignedFails | outbound_dashboard.py:131-149 | With the toggle off (its default) and any row selected, the page as written (`RenderAsWritten`) fails where the corrected page shows its tables. |
| Dashboard.RenderAsWrittenAligned | outbound_dashboard.py:134-140 | With the toggle on, the page as written and the corrected page agree. |
| Dashboard.RenderNoData | outbound_dashboard.py:75-76 | The warning and no tables appear exactly when no row has a selected year and series. |
| Dashboard.RenderNeverFails | outbound_dashboard.py:134-137 | With valid dates, `replace(year=2020)` never sends the corrected page to the error handler. Aligned plot dates are present exactly when the toggle is on. |
| Dashboard.RenderTotals | outbound_dashboard.py:84-126 | On a shown page the KPI totals sum to the (positive) number of selected rows. The daily counts sum to the number of those with a parsed date. Every KPI row has a total of at least 1, a mean in [0, 5] and a share in [0, 100]. |
| Dashboard.Run | outbound_dashboard.py:44-137 | A run keeps every uploaded row. A ".csv" name gives each row as `CsvRow` and any other name as `SheetRow`, with counts in 0..5. Its outcome is the rendering of the loaded table. It warns exactly when nothing is selected, and with a well-behaved parser the corrected pipeline never fails. |

## Left out

- The page itself: the title, the sidebar, the widgets, tabs, columns, table styling and format strings, and every Plotly figure (lines 149-173 and 191-233, including the box plot). The model draws nothing; the one way the daily charts change the outcome is the raise described on the `Dashboard.Render` line below. The selections, the file name and the toggle are parameters of `Dashboard.Run`.
- File upload, `pd.read_csv` and `pd.read_excel`: library I/O. Each input is an already-parsed sequence of `RawRow`.
- The formats `pd.to_datetime` accepts: abstracted as the parameter `parse`. `ValidParser` states only that it yields real calendar dates.
- `parse` is applied to each cell on its own. On a whole column, `pd.to_datetime` (pandas 2 and later) infers one format from the first value and applies it to every cell. Whether a cell parses can therefore depend on other cells, and the model does not capture that.
- Dates.ReplaceYear: models only the calendar rule of `replace(year=y)`. The range check on the year itself is not modelled: Python's `datetime` accepts 1..9999 and a nanosecond pandas `Timestamp` roughly 1677-2262. The script passes only 2020, which lies inside both ranges, so the model of line 137 is unaffected. `Dates.NonLeapReferenceRejectsLeapDay` is likewise stated for the calendar rule only.
- `@st.cache_data`: process-level memoisation with no effect on results.
- The catch-all handler (lines 235-236) is `Outcome.Failed`. It models three raises: `.dt` on text at line 18 (`Records.LoadCsvAsWritten`), the missing `close_date` plot column at lines 142-149 (`Dashboard.RenderAsWritten`), and `replace(year=2020)` on an invalid timestamp. Other exceptions inside pandas or Plotly are not modelled. `Failed` does not record the output drawn before the raise, such as the KPI table.
- `Median_Days_to_Close` (line 88): computed, then dropped from the displayed table at line 97.
- Records.LoadCsv: models `close_date` as the date part of the parsed `plan_close_dt`, not the line-18 behaviour. The line-18 behaviour is `Records.LoadCsvAsWritten`; see Findings.
- Dashboard.Render: is the page with line 142 corrected; through `LoadCsv`, `Dashboard.Run` also has line 18 corrected. Their "never fails" (`Dashboard.RenderNeverFails`, `Dashboard.Run`) holds only for that corrected pipeline. As written, line 142 sets the x axis to `close_date` when the toggle is off. `daily_sales` (line 121) has no such column, so `px.line` at line 149 raises and the page ends in the line-236 message after the KPI table. That happens whichever loader ran. Together with the line-18 raise, the only as-written path that draws the whole page is a spreadsheet upload with the toggle on. `Dashboard.RenderAsWritten` models this; see Findings.
- `campaign_series` is modelled as text, ordered by `StrLess`. A numeric series column is sorted numerically by pandas at lines 66 and 222 (2 before 10), whereas `StrLess` puts "10" before "2". The pivot's row order for numeric series is therefore not modelled.
- Records.YearLabel: a numeric `campaign_year` column holding NaN is read as floats, and `astype(str)` then writes "2025.0". Year cells are modelled as integers or text only.
- `customer_no` counts (lines 85 and 92) count non-missing values. The model counts rows, treating `customer_no` as always present.
- The loaders update DataFrame columns one at a time. The model builds each output row in one step inside the per-row loop, which gives the same table.
- The script computes no weekly series, so none is modelled.
- Groups.MeanDays: every mean and percentage is an exact rational, and floating-point rounding is not modelled. This covers `Avg_Days_to_Close`, `Avg_Contacts` (`Groups.MeanContacts`), `%_Zero_Touch` (`Kpi.KpiOfPctZeroTouch`), the pivot means (`Pivot.PivotTableMeans`) and the distribution percentages. The "exactly 100" of `Distribution.DistOfYearPercent` and `Distribution.PercentagesHundred` holds in exact arithmetic only; over floats the sum is 100 up to rounding.

Notes on the code:

- The spreadsheet branch has a four-entry contact table.
- The pivot at line 222 computes only the mean; there is no count column.
- The reference year 2020 is a leap year, so February 29 aligns (`Dates.AlignTotal`).

## Findings

| source | as written | input that shows it | evidently intended | confidence | as-written member | corrected member |
|---|---|---|---|---|---|---|
| outbound_dashboard.py:18 | `df['close_date'] = df['plan_close_dt'].dt.date` runs before `plan_close_dt` is converted at line 21. `read_csv` leaves that column as text, so `.dt` raises, and every CSV upload ends in the error message of line 236. | Any CSV upload, e.g. one row with `plan_close_dt` = "2025-03-01". | `close_date` is the date part of the parsed `plan_close_dt`. | high, reasoning only; not executed | Records.CsvLoaderAsWrittenFails | Records.LoadCsv |
| outbound_dashboard.py:142-149 | With the toggle off (the default at line 131), `x_axis_col = 'close_date'`, but `daily_sales` from line 121 has only `campaign_year`, `plan_close_dt`, `daily_sales` and `cumulative_sales`. `px.line` raises, and the page ends in the line-236 message after the KPI table. | Any non-empty selection with the toggle off, e.g. a spreadsheet row with year 2025, series "A" and both selected. | The daily charts plot the actual dates (`plan_close_dt`) when not aligned. | high, reasoning only; not executed | Dashboard.RenderAsWrittenUnalignedFails | Dashboard.Render |
