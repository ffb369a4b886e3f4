/**
 * The headline figure: the percent change between the latest CPI and the
 * CPI looked up ten years before the newest date of the table.
 */
module Headline {
  import opened CpiTypes
  import Dates
  import Series

  /** Percent change from `past` to `latest`. */
  function PercentChange(latest: real, past: real): (r: real)
    requires past != 0.0
    ensures past * (1.0 + r / 100.0) == latest
    ensures r == 0.0 <==> latest == past
    ensures past > 0.0 ==> (r > 0.0 <==> latest > past)
  {
    (latest - past) / past * 100.0
  }

  /** The headline 10-year rate over the date-sorted table. */
  function TenYearRate(s: seq<Observation>): (r: Result<real>)
    requires ValidSeries(s)
    ensures |s| == 0 <==> r == Err(EmptySeries)
    ensures r.Err? ==> r.fault in {EmptySeries, ZeroDivisor}
  {
    if |s| == 0 then Err(EmptySeries)
    else
      var latest := s[|s| - 1].cpi;
      var target := Dates.YearsBefore(Series.MaxDate(s), 10);
      var past := Series.NearestCpi(s, target).value;
      if past == 0.0 then Err(ZeroDivisor) else Ok(PercentChange(latest, past))
  }

  /**
   * The rate compares the last row's CPI with the CPI of the last row dated
   * on or before ten years before the newest date, or with the first row's
   * CPI when there is none.
   */
  lemma TenYearRateCompares(s: seq<Observation>)
    requires ValidSeries(s) && |s| > 0
    ensures var target := Dates.YearsBefore(Series.MaxDate(s), 10);
            exists k :: 0 <= k < |s|
              && (Series.IsLastOnOrBefore(s, target, k)
                  || (k == 0 && forall j :: 0 <= j < |s| ==> !OnOrBefore(s[j].date, target)))
              && TenYearRate(s) == if s[k].cpi == 0.0 then Err(ZeroDivisor)
                                   else Ok(PercentChange(s[|s| - 1].cpi, s[k].cpi))
  {
    var target := Dates.YearsBefore(Series.MaxDate(s), 10);
    if i :| 0 <= i < |s| && OnOrBefore(s[i].date, target) {
      Series.NearestFindsLastOnOrBefore(s, target, i);
    } else {
      Series.NearestFallsBackToFirst(s, target);
    }
  }

  /** A table starting less than ten years before its newest date is compared with its first row. */
  lemma ShortSeriesScenario()
    ensures TenYearRate([Observation(Date(2015, 1, 1), 100.0), Observation(Date(2024, 1, 1), 400.0)])
            == Ok(300.0)
  {
    var s := [Observation(Date(2015, 1, 1), 100.0), Observation(Date(2024, 1, 1), 400.0)];
    assert Series.MaxDate(s) == Date(2024, 1, 1);
    Series.NearestFallsBackToFirst(s, Date(2014, 1, 1));
  }
}
