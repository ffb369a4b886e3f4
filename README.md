# Inflation Impact Simulator — CPI comparison engine in Dafny

The Inflation Impact Simulator is a Streamlit page. It estimates what an amount of
money spent today was worth in a chosen past year, using a table of dated
Consumer Price Index (CPI) values. Most of the page is layout. Its logic is a
small comparison engine, and that engine is what this project models:

- the **time-series store**: the table's date column is read as calendar dates and
  the table is sorted by date in place (`series.dfy`, `dates.dfy`);
- the **headline rate**: the percent change between the latest CPI and the CPI on
  or before the date ten years before the newest date. When every row is later
  than that date, the first row is used instead (`headline.dfy`);
- the **comparison years**: the distinct years of the table, sorted newest first
  in place. The newest year is not offered. The selector starts on a default
  year, and a year's CPI is the mean of its observations (`years.dfy`);
- the **spending side**: one dictionary entry per category, keyed
  "Category (Subcategory)". The entries are totalled, and the total and each
  entry are scaled by the comparison year's CPI over the latest CPI
  (`spending.dfy`).

`cpi_types.dfy` holds the shared vocabulary: dates, observations, failures,
`Result`, chronological order and sums.

Inputs the page reads from its environment are parameters of the model:

- the CSV rows are a `seq<RawRow>`;
- the clock's current year is `currentYear`;
- the answers of the category widgets are a `seq<Choice>`.

CPI values and amounts are exact `real`s. Failures are values of `Fault`:

- an unreadable date, or a date outside 1677-09-22..2262-04-11 (pandas raises `OutOfBoundsDatetime`);
- an empty table (`iloc[-1]` raises);
- a comparison year without data (the page shows an error and `past_cpi_year`
  stays unbound);
- a default year missing from the list (`list.index` raises);
- a selector index past the options (Streamlit raises);
- a zero CPI used as divisor.

The page's float division by zero yields `inf` or `nan` rather than raising.
Exact reals have neither, so the model reports `ZeroDivisor` there.

## Model

| member | source | states |
|---|---|---|
| `Dates.ParseDate` | inflation_app.py:10 | an accepted date string yields a real calendar date (valid month, day within the month, leap years per the Gregorian rule) between 1677-09-22 and 2262-04-11, the days whose midnight a pandas nanosecond timestamp can hold; the error is `OutOfBoundsDate` exactly when the string is a well-formed real date outside that range, and `UnparsableDate` otherwise |
| `Dates.EarlyDateOutOfBounds` | inflation_app.py:10 | "1500-01-01" is a real date but is rejected as `OutOfBoundsDate` |
| `Dates.FirstDayInRange` | inflation_app.py:10 | "1677-09-22", the first day of the range, is read |
| `Dates.DayBeforeRangeOutOfBounds` | inflation_app.py:10 | "1677-09-21" is rejected as `OutOfBoundsDate`: its midnight precedes the earliest timestamp |
| `Dates.FormatThenParse` | inflation_app.py:10 | every date a pandas timestamp can hold, written as `YYYY-MM-DD`, is read back as the same date |
| `Dates.ParseThenFormat` | inflation_app.py:10 | a string the parser accepts is exactly the canonical `YYYY-MM-DD` form of the date it yields |
| `Dates.DigitsThenValue` | inflation_app.py:10 | a number below 10^width written in `width` zero-padded digits reads back as that number |
| `Dates.ValueThenDigits` | inflation_app.py:10 | a run of digits, read as a number and written back at the same width, is the same run |
| `Series.ParseRows` | inflation_app.py:10 | the date column converts iff every row's date parses, and otherwise fails with `UnparsableDate` or `OutOfBoundsDate`; the result keeps row order and CPI values, and every date in it is valid |
| `Series.SortByDate` | inflation_app.py:11 | sorting in place leaves the table ascending by date and a permutation of its rows |
| `Series.Load` | inflation_app.py:10-11 | loading succeeds iff every date parses (else `UnparsableDate` or `OutOfBoundsDate`), and then yields a date-sorted permutation of the parsed rows, all with valid dates |
| `Series.Latest` | inflation_app.py:51 | the last row exists iff the table is non-empty (else `EmptySeries`); it is a row of the table, and on a sorted table no row has a later date |
| `Series.MaxDate` | inflation_app.py:52 | the date column's maximum is the date of some row and no row is dated after it, in any row order |
| `Series.LatestHoldsMaxDate` | inflation_app.py:51-52 | on a sorted non-empty table the last row's date is the maximum date, so `latest_cpi` is the CPI of the newest observation |
| `Series.RowsOnOrBefore` | inflation_app.py:53 | the masked rows are rows of the table dated on or before the target, never more than the table |
| `Series.RowsOnOrBeforeNonEmpty` | inflation_app.py:53-54 | the masked rows are non-empty iff some row is dated on or before the target |
| `Series.RowsOnOrBeforeLast` | inflation_app.py:53-55 | the last masked row is the last row of the table dated on or before the target |
| `Series.NearestCpi` | inflation_app.py:53-57 | the lookup fails only on an empty table (`EmptySeries`), never for lack of an early enough row |
| `Series.NearestFindsLastOnOrBefore` | inflation_app.py:53-55 | when some row is dated on or before the target, the lookup gives the CPI of the last such row; on a sorted table that row has the greatest date not after the target |
| `Series.NearestFallsBackToFirst` | inflation_app.py:56-57 | when every row is later than the target, the lookup gives the first row's CPI, the earliest on a sorted table |
| `Dates.YearsBefore` | inflation_app.py:52 | stepping back keeps the month, subtracts the years, gives a valid date strictly before the original, and never a later day of month |
| `Dates.TenYearsBeforeKeepsDay` | inflation_app.py:52 | ten years back keeps the day of month, except that 29 February becomes 28 February |
| `Headline.PercentChange` | inflation_app.py:59 | for a nonzero past CPI, applying the rate to the past CPI gives back the latest CPI; the rate is 0 iff the CPIs are equal, and for a positive past CPI it is positive iff the latest CPI is higher |
| `Headline.TenYearRate` | inflation_app.py:51-59 | the headline rate fails with `EmptySeries` iff the table is empty; its only other failure is a zero past CPI |
| `Headline.TenYearRateCompares` | inflation_app.py:51-59 | the rate compares the last row's CPI with the last row dated on or before ten years before the newest date, or with the first row when none is |
| `Headline.ShortSeriesScenario` | inflation_app.py:51-59 | rows (2015-01-01, 100) and (2024-01-01, 400): the target 2014-01-01 predates both, so the first row is used and the rate is 300 |
| `Years.YearColumn` | inflation_app.py:78 | the year column has one year per row, the year of that row's date |
| `Years.Unique` | inflation_app.py:78 | `unique()` yields each year of its input exactly once and nothing else |
| `Years.SortDescending` | inflation_app.py:79 | sorting in reverse in place leaves the list newest first and a permutation of the input |
| `Years.ComparisonYears` | inflation_app.py:78-79 | the year list is strictly descending (no duplicates) and holds exactly the years that occur in the table |
| `Years.DistinctCountsOnce` | inflation_app.py:78 | a list without duplicates holds every value at most once as a multiset, which the reverse sort then preserves |
| `Years.CountsOnceDistinct` | inflation_app.py:79 | a list holding every value at most once as a multiset has no two equal positions |
| `Years.Options` | inflation_app.py:80 | the offered years are the list without its first element, position for position |
| `Years.OptionsAreOlderTableYears` | inflation_app.py:78-80 | the list's first year is the newest year of the table; the offered years are strictly descending and are exactly the table's years older than the newest |
| `Years.IndexOf` | inflation_app.py:80 | `list.index` succeeds iff the year is in the list, and then gives its first position; otherwise `YearNotListed` |
| `Years.DefaultSelection` | inflation_app.py:80 | as written: the preselected year is always one of the offered years, and fails with `YearNotListed` when `currentYear - 10` is not in the list |
| `Years.DefaultSelectionIsNextOlder` | inflation_app.py:80 | as written, on a newest-first list the preselected year is the one listed after `currentYear - 10`, so it is older than `currentYear - 10`; when `currentYear - 10` is the oldest year the index is out of range |
| `Years.DefaultSelectionMissesTarget` | inflation_app.py:80 | years 2024, 2016, 2015 with current year 2026: as written the selector starts on 2015, the corrected default on 2016 |
| `Years.IntendedDefault` | inflation_app.py:80 | the corrected default succeeds iff `currentYear - 10` is offered, and then is exactly `currentYear - 10` |
| `Years.CpisInYear` | inflation_app.py:84 | the CPI values taken for a year are the CPIs of the rows dated in that year, as many values as the year has rows, and they sum to the total CPI of those rows |
| `Years.CpisInYearCountsRows` | inflation_app.py:84 | each CPI value occurs among the year's values exactly as often as rows of that year carry it, so a CPI two rows share is kept twice |
| `Years.YearCpi` | inflation_app.py:83-86 | a year's CPI exists iff the table has a row in that year (else `YearNotFound`), and times the number of rows dated in that year it equals the sum of those rows' CPIs: the arithmetic mean over rows, repeated values included |
| `Years.SumAbove` | inflation_app.py:84 | values all above a bound sum to more than their count times the bound |
| `Years.SumBelow` | inflation_app.py:84 | values all below a bound sum to less than their count times the bound |
| `Years.SumConstant` | inflation_app.py:84 | values all equal to `c` sum to their count times `c` |
| `Years.MeanOfConstant` | inflation_app.py:84 | the mean of values all equal to `c` is `c` |
| `Years.MeanBetween` | inflation_app.py:84 | some value is at most the mean and some value is at least it, so the mean lies between minimum and maximum |
| `Years.YearCpiBetween` | inflation_app.py:84 | a year's CPI lies between the lowest and the highest CPI observed in that year |
| `Years.YearCpiOfUniformYear` | inflation_app.py:84 | when all rows of the year share one CPI (in particular a single row), that CPI is the year's CPI |
| `Years.OptionsHaveCpi` | inflation_app.py:80-86 | every offered year has a CPI, so the "not available" branch is never reached from a selection |
| `Years.YearMeanScenario` | inflation_app.py:83-86 | rows (2015-03-01, 90) and (2015-09-01, 110) give 2015 a CPI of 100; 1999 gives `YearNotFound` |
| `Years.RepeatedCpiScenario` | inflation_app.py:84 | 2015 rows with CPIs 100, 100 and 130 give 2015 a CPI of 110: the repeated 100 counts twice |
| `Spending.Put` | inflation_app.py:106 | assigning a new key appends the entry; assigning a present key replaces its value in place; keys stay distinct |
| `Spending.LabelsOfCategoriesDiffer` | inflation_app.py:91-118 | two different categories never produce the same dictionary key, whatever subcategories are chosen |
| `Spending.CollectInputs` | inflation_app.py:89-118 | the dictionary has exactly one entry per category, in the order Food, Transport, Housing, Clothing, Education, Health, Electronics; each is keyed "Category (Subcategory)", holds the amount entered, and is at least 0; keys are distinct |
| `Spending.SumNonNegative` | inflation_app.py:122 | a sum of amounts that are all at least 0 is at least 0 |
| `Spending.Total` | inflation_app.py:122 | today's total is 0 for an empty dictionary and at least 0 when every amount is |
| `Spending.Convert` | inflation_app.py:123 | the past value times the latest CPI equals the amount times the past CPI; equal CPIs leave the amount unchanged; positive CPIs keep an amount of at least 0 at least 0 |
| `Spending.ConvertRoundTrip` | inflation_app.py:123 | converting from one nonzero CPI to another and back returns the amount |
| `Spending.ConvertAdds` | inflation_app.py:123 | converting a sum equals summing the conversions |
| `Spending.PastValues` | inflation_app.py:147-153 | there is one past value per entry, aligned index for index with the labels, each the entry's amount scaled by past CPI over latest CPI |
| `Spending.PastValuesSumToTotalPast` | inflation_app.py:122-123 | the per-category past values add up to the past value of today's total |
| `Spending.Predict` | inflation_app.py:122-153 | the prediction's past total is the total scaled by past CPI over latest CPI and is the sum of the per-entry past values; labels and past values align with the entries; with amounts at least 0 and positive CPIs both totals are at least 0 |
| `Spending.Compare` | inflation_app.py:51-153 | a comparison succeeds iff the table is non-empty, has a row in the year and a nonzero last CPI. An empty table fails with `EmptySeries`, a missing year with `YearNotFound`. On success the prediction uses the last row's CPI and the year's mean CPI |
| `Spending.ConvertScenario` | inflation_app.py:123 | 60000 today, with CPI 400 now and 100 in the comparison year, is worth 15000 then |
| `Spending.TotalScenario` | inflation_app.py:122 | no entries total 0; entries of 5 and 3 total 8 |
| `CpiTypes.DaysInMonth` | inflation_app.py:10 | months have 28 to 31 days; only February has fewer than 30, and it has 28 exactly in a non-leap year |

## Findings

| source | as written | input that shows it | evidently intended | confidence | as-written member | corrected member |
|---|---|---|---|---|---|---|
| inflation_app.py:80 | the default index is the position of `now.year - 10` in the full year list, but it is applied to `years[1:]`, which lacks the list's first year; the preselected year is the next older one, and when `now.year - 10` is the oldest year the index is past the end of the options | years 2024, 2016, 2015 and current year 2026: index 1 selects 2015 from the options 2016, 2015 | preselect `now.year - 10` itself, i.e. its position within `years[1:]` | high, not executed | `Years.DefaultSelection` (with `Years.DefaultSelectionIsNextOlder`, `Years.DefaultSelectionMissesTarget`) | `Years.IntendedDefault` |

## Left out

- Reading the CSV file and renaming its columns (inflation_app.py:8-9) are file I/O. The raw rows are an input of `Series.Load`.
- `Dates.ParseDate` reads only the `YYYY-MM-DD` form of the table's dates. `pd.to_datetime` also infers other layouts and times of day, which are not modelled. Its range bound assumes pandas 2.x parsing dates to nanosecond timestamps. A missing or empty date becomes `NaT` in pandas rather than failing the load; here every date is a string, and an empty one is `UnparsableDate`.
- `Series.SortByDate`: the order of rows with equal dates after pandas' sort is library-internal. The model promises only a date-sorted permutation.
- `Dates.YearsBefore` models `pd.DateOffset(years=10)` as calendar-year subtraction with the day clamped to the end of the month. Other offset arithmetic in pandas is not modelled. Neither is the overflow pandas raises when the date ten years back falls before 1677-09-22.
- `datetime.now()` (inflation_app.py:80) is a clock read. The current year is the `currentYear` parameter.
- Streamlit widgets are left out: the selectors, the number inputs with their `min_value`, the button, and the metric and markdown output with its `,.2f` formatting. `Spending.WidgetAnswers` states what the category widgets can return: a listed subcategory and an amount of at least 0. Which year the user picks is the `year` parameter of `Spending.Compare`.
- `Years.DefaultSelection` treats an index past the end of empty options as out of range. Streamlit instead returns no selection there.
- The Matplotlib charts are rendering and are not modelled.
- The three page columns of the category inputs affect only layout. `Spending.CollectInputs` visits the categories in one loop, in the same order.
- `Spending.Compare` starts from a year already selected. It assumes the page got past the default preselection at inflation_app.py:80, where `years.index` raising or an index past the options stops the page before the button at line 121 exists. That stop is modelled separately by `Years.DefaultSelection`.
- `Headline.TenYearRate` and `Spending.Compare` report `ZeroDivisor` for a zero divisor CPI, where numpy's float division yields `inf` or `nan`, which exact reals cannot represent.
- IEEE-754 rounding of pandas float arithmetic and the NaN-skipping of `mean()` are not modelled. All values are exact reals.
