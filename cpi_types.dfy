/**
 * Shared vocabulary of the CPI comparison engine: calendar dates, CPI
 * observations, the failures the engine can end in, and the sum of a
 * sequence of reals that totals and means are built from.
 */
module CpiTypes {

  /** A calendar date as the loader parses it (proleptic Gregorian). */
  datatype Date = Date(year: int, month: int, day: int)

  /** One row of the CPI table: an observation date and its CPI value. */
  datatype Observation = Observation(date: Date, cpi: real)

  /** The ways a computation of the engine can fail. */
  datatype Fault =
    | UnparsableDate   // a date string the loader cannot read as a calendar date
    | OutOfBoundsDate  // a calendar date outside the range of pandas' nanosecond timestamps
    | EmptySeries      // the series has no rows, so there is no last row to read
    | YearNotFound     // the chosen comparison year has no observation
    | YearNotListed    // the default comparison year is not in the year list
    | IndexOutOfRange  // a preselection index past the end of the offered years
    | ZeroDivisor      // a CPI of zero as divisor: the floating-point result is not finite

  datatype Result<T> = Ok(value: T) | Err(fault: Fault)

  /** Chronological order: by year, then month, then day. */
  predicate OnOrBefore(a: Date, b: Date) {
    a.year < b.year
    || (a.year == b.year && (a.month < b.month || (a.month == b.month && a.day <= b.day)))
  }

  predicate IsLeapYear(y: int) {
    y % 4 == 0 && (y % 100 != 0 || y % 400 == 0)
  }

  function DaysInMonth(y: int, m: int): (n: int)
    requires 1 <= m <= 12
    ensures 28 <= n <= 31
    ensures m != 2 ==> n >= 30
    ensures n == 28 <==> m == 2 && !IsLeapYear(y)
  {
    if m == 2 then (if IsLeapYear(y) then 29 else 28)
    else if m == 4 || m == 6 || m == 9 || m == 11 then 30
    else 31
  }

  predicate ValidDate(d: Date) {
    1 <= d.month <= 12 && 1 <= d.day <= DaysInMonth(d.year, d.month)
  }

  /**
   * The days whose midnight pandas' nanosecond timestamps can hold:
   * 1677-09-22 through 2262-04-11 (the earliest timestamp is
   * 1677-09-21 00:12:43.145224193, after that day's midnight).
   */
  predicate InTimestampRange(d: Date) {
    OnOrBefore(Date(1677, 9, 22), d) && OnOrBefore(d, Date(2262, 4, 11))
  }

  /** Every observation carries a real calendar date. */
  predicate ValidSeries(s: seq<Observation>) {
    forall i :: 0 <= i < |s| ==> ValidDate(s[i].date)
  }

  /** Ascending by date: the order the loader leaves the table in. */
  predicate SortedByDate(s: seq<Observation>) {
    forall i, j :: 0 <= i < j < |s| ==> OnOrBefore(s[i].date, s[j].date)
  }

  /** The sum of a sequence of reals (over exact reals the order of additions does not matter). */
  function Sum(xs: seq<real>): real {
    if xs == [] then 0.0 else Sum(xs[..|xs| - 1]) + xs[|xs| - 1]
  }

}
