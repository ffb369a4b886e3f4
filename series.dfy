/**
 * The time-series store: the CPI table read from its raw rows, sorted in
 * place by date, and the two point lookups the headline figure needs (the
 * latest CPI, and the CPI on or before a target date with a fall back to
 * the earliest row).
 */
module Series {
  import opened CpiTypes
  import Dates

  /** A row as it comes out of the CSV file: a date string and a CPI value. */
  datatype RawRow = RawRow(date: string, cpi: real)

  /** Converts the date column; one unreadable date fails the whole table. */
  function ParseRows(rows: seq<RawRow>): (r: Result<seq<Observation>>)
    ensures r.Ok? <==> forall i :: 0 <= i < |rows| ==> Dates.ParseDate(rows[i].date).Ok?
    ensures r.Err? ==> r.fault in {UnparsableDate, OutOfBoundsDate}
    ensures r.Ok? ==> |r.value| == |rows| && ValidSeries(r.value)
    ensures r.Ok? ==> forall i :: 0 <= i < |rows| ==>
              r.value[i] == Observation(Dates.ParseDate(rows[i].date).value, rows[i].cpi)
  {
    if rows == [] then Ok([])
    else
      var init := ParseRows(rows[..|rows| - 1]);
      var last := rows[|rows| - 1];
      var d := Dates.ParseDate(last.date);
      if init.Err? then init
      else if d.Err? then Err(d.fault)
      else Ok(init.value + [Observation(d.value, last.cpi)])
  }

  /** Sorts the table ascending by date, in place; rows with equal dates may end up in any order. */
  method SortByDate(a: array<Observation>)
    modifies a
    ensures SortedByDate(a[..])
    ensures multiset(a[..]) == old(multiset(a[..]))
  {
    var i := 0;
    while i < a.Length
      invariant 0 <= i <= a.Length
      invariant SortedByDate(a[..i])
      invariant multiset(a[..]) == old(multiset(a[..]))
    {
      var j := i;
      while j > 0 && !OnOrBefore(a[j - 1].date, a[j].date)
        invariant 0 <= j <= i
        invariant forall p, q :: 0 <= p < q <= i && q != j ==> OnOrBefore(a[p].date, a[q].date)
        invariant multiset(a[..]) == old(multiset(a[..]))
      {
        a[j - 1], a[j] := a[j], a[j - 1];
        j := j - 1;
      }
      i := i + 1;
    }
    assert a[..] == a[..a.Length];
  }

  /** Startup: read the rows, convert the dates, and sort the table by date. */
  method Load(rows: seq<RawRow>) returns (r: Result<seq<Observation>>)
    ensures r.Ok? <==> ParseRows(rows).Ok?
    ensures r.Err? ==> r.fault in {UnparsableDate, OutOfBoundsDate}
    ensures r.Ok? ==> SortedByDate(r.value) && ValidSeries(r.value)
    ensures r.Ok? ==> multiset(r.value) == multiset(ParseRows(rows).value)
  {
    var parsed := ParseRows(rows);
    if parsed.Err? {
      return Err(parsed.fault);
    }
    var obs := parsed.value;
    var a := new Observation[|obs|](i requires 0 <= i < |obs| => obs[i]);
    assert a[..] == obs;
    SortByDate(a);
    r := Ok(a[..]);
    forall i | 0 <= i < |a[..]|
      ensures ValidDate(a[..][i].date)
    {
      assert a[..][i] in multiset(obs);
    }
  }

  /** The last row of the table (`iloc[-1]`); the table must have one. */
  function Latest(s: seq<Observation>): (r: Result<Observation>)
    ensures r.Ok? <==> |s| > 0
    ensures r.Err? ==> r.fault == EmptySeries
    ensures r.Ok? ==> r.value in s
    ensures r.Ok? && SortedByDate(s) ==> forall o :: o in s ==> OnOrBefore(o.date, r.value.date)
  {
    if |s| == 0 then Err(EmptySeries) else Ok(s[|s| - 1])
  }

  /** The greatest date in the table (the date column's `max()`), whatever the row order. */
  function MaxDate(s: seq<Observation>): (d: Date)
    requires |s| > 0
    ensures exists i :: 0 <= i < |s| && s[i].date == d
    ensures forall i :: 0 <= i < |s| ==> OnOrBefore(s[i].date, d)
  {
    if |s| == 1 then s[0].date
    else
      var m := MaxDate(s[..|s| - 1]);
      var last := s[|s| - 1].date;
      if OnOrBefore(m, last) then last else m
  }

  /** On a sorted table the maximum date is the last row's date: the latest CPI is the newest one. */
  lemma LatestHoldsMaxDate(s: seq<Observation>)
    requires |s| > 0 && SortedByDate(s)
    ensures Latest(s).Ok? && Latest(s).value.date == MaxDate(s)
  {
    var m := MaxDate(s);
    var i :| 0 <= i < |s| && s[i].date == m;
    assert OnOrBefore(s[i].date, s[|s| - 1].date);
  }

  /** The rows dated on or before `target`, in table order (a boolean row mask). */
  function RowsOnOrBefore(s: seq<Observation>, target: Date): (f: seq<Observation>)
    ensures |f| <= |s|
    ensures forall o :: o in f ==> o in s && OnOrBefore(o.date, target)
  {
    if s == [] then []
    else
      var init := RowsOnOrBefore(s[..|s| - 1], target);
      if OnOrBefore(s[|s| - 1].date, target) then init + [s[|s| - 1]] else init
  }

  /**
   * The CPI of the last row dated on or before `target`; when every row is
   * later than `target`, the CPI of the first row.
   */
  function NearestCpi(s: seq<Observation>, target: Date): (r: Result<real>)
    ensures r.Ok? <==> |s| > 0
    ensures r.Err? ==> r.fault == EmptySeries
  {
    if |s| == 0 then Err(EmptySeries)
    else
      var before := RowsOnOrBefore(s, target);
      if |before| > 0 then Ok(before[|before| - 1].cpi) else Ok(s[0].cpi)
  }

  /** Index of the last row dated on or before `target`. */
  ghost predicate IsLastOnOrBefore(s: seq<Observation>, target: Date, k: int) {
    0 <= k < |s| && OnOrBefore(s[k].date, target)
    && forall j :: k < j < |s| ==> !OnOrBefore(s[j].date, target)
  }

  lemma {:induction false} RowsOnOrBeforeNonEmpty(s: seq<Observation>, target: Date)
    ensures |RowsOnOrBefore(s, target)| > 0 <==> exists i :: 0 <= i < |s| && OnOrBefore(s[i].date, target)
  {
    if s != [] {
      var init := s[..|s| - 1];
      RowsOnOrBeforeNonEmpty(init, target);
      if exists i :: 0 <= i < |s| && OnOrBefore(s[i].date, target) {
        var i :| 0 <= i < |s| && OnOrBefore(s[i].date, target);
        if i < |s| - 1 {
          assert init[i].date == s[i].date;
        }
      }
    }
  }

  lemma {:induction false} RowsOnOrBeforeLast(s: seq<Observation>, target: Date)
    requires |RowsOnOrBefore(s, target)| > 0
    ensures exists k :: IsLastOnOrBefore(s, target, k)
                        && RowsOnOrBefore(s, target)[|RowsOnOrBefore(s, target)| - 1] == s[k]
  {
    var init := s[..|s| - 1];
    if OnOrBefore(s[|s| - 1].date, target) {
      assert IsLastOnOrBefore(s, target, |s| - 1);
    } else {
      assert RowsOnOrBefore(s, target) == RowsOnOrBefore(init, target);
      RowsOnOrBeforeLast(init, target);
      var f := RowsOnOrBefore(init, target);
      var k :| IsLastOnOrBefore(init, target, k) && f[|f| - 1] == init[k];
      assert IsLastOnOrBefore(s, target, k);
    }
  }

  /**
   * When some row is dated on or before `target`, the lookup returns the CPI
   * of the last such row; on a sorted table that row has the greatest date
   * not after `target`.
   */
  lemma NearestFindsLastOnOrBefore(s: seq<Observation>, target: Date, i: int)
    requires 0 <= i < |s| && OnOrBefore(s[i].date, target)
    ensures exists k :: IsLastOnOrBefore(s, target, k) && NearestCpi(s, target) == Ok(s[k].cpi)
              && (SortedByDate(s) ==>
                    forall j :: 0 <= j < |s| && OnOrBefore(s[j].date, target) ==> OnOrBefore(s[j].date, s[k].date))
  {
    RowsOnOrBeforeNonEmpty(s, target);
    RowsOnOrBeforeLast(s, target);
    var k :| IsLastOnOrBefore(s, target, k)
             && RowsOnOrBefore(s, target)[|RowsOnOrBefore(s, target)| - 1] == s[k];
    assert NearestCpi(s, target) == Ok(s[k].cpi);
  }

  /** When every row is later than `target`, the lookup falls back to the first (on a sorted table, earliest) row. */
  lemma NearestFallsBackToFirst(s: seq<Observation>, target: Date)
    requires |s| > 0
    requires forall i :: 0 <= i < |s| ==> !OnOrBefore(s[i].date, target)
    ensures NearestCpi(s, target) == Ok(s[0].cpi)
    ensures SortedByDate(s) ==> forall j :: 0 <= j < |s| ==> OnOrBefore(s[0].date, s[j].date)
  {
    RowsOnOrBeforeNonEmpty(s, target);
  }
}
