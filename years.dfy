/**
 * The comparison years: the distinct years of the table, newest first,
 * the options offered for comparison (all but the newest), the option the
 * year selector starts on, and the CPI of a chosen year (the mean of its
 * observations).
 */
module Years {
  import opened CpiTypes
  import Series

  /** The year of every row, in table order (the date column's `.dt.year`). */
  function YearColumn(s: seq<Observation>): (ys: seq<int>)
    ensures |ys| == |s| && forall i :: 0 <= i < |s| ==> ys[i] == s[i].date.year
  {
    seq(|s|, i requires 0 <= i < |s| => s[i].date.year)
  }

  /** The table has at least one observation in year `y`. */
  predicate HasYear(s: seq<Observation>, y: int) {
    exists i :: 0 <= i < |s| && s[i].date.year == y
  }

  predicate Distinct(xs: seq<int>) {
    forall i, j :: 0 <= i < j < |xs| ==> xs[i] != xs[j]
  }

  predicate Descending(xs: seq<int>) {
    forall i, j :: 0 <= i < j < |xs| ==> xs[i] >= xs[j]
  }

  predicate StrictlyDescending(xs: seq<int>) {
    forall i, j :: 0 <= i < j < |xs| ==> xs[i] > xs[j]
  }

  /** Each value once, in order of first appearance (pandas' `unique`). */
  function Unique(xs: seq<int>): (u: seq<int>)
    ensures Distinct(u)
    ensures forall x :: x in u <==> x in xs
  {
    if xs == [] then []
    else
      var init := Unique(xs[..|xs| - 1]);
      var last := xs[|xs| - 1];
      assert forall x :: x in xs <==> x in xs[..|xs| - 1] || x == last by {
        assert xs == xs[..|xs| - 1] + [last];
      }
      if last in init then init else init + [last]
  }

  lemma {:induction false} DistinctCountsOnce(xs: seq<int>)
    requires Distinct(xs)
    ensures forall x :: multiset(xs)[x] <= 1
  {
    if xs != [] {
      var init := xs[..|xs| - 1];
      DistinctCountsOnce(init);
      assert xs == init + [xs[|xs| - 1]];
      assert xs[|xs| - 1] !in init;
    }
  }

  lemma CountsOnceDistinct(xs: seq<int>)
    requires forall x :: multiset(xs)[x] <= 1
    ensures Distinct(xs)
  {
    forall i, j | 0 <= i < j < |xs|
      ensures xs[i] != xs[j]
    {
      assert xs == xs[..i] + [xs[i]] + xs[i + 1..j] + [xs[j]] + xs[j + 1..];
      var x := xs[i];
      assert multiset(xs)[x] >= 1 + (if xs[j] == x then 1 else 0);
    }
  }

  /** Sorts the year list newest first, in place (`sort(reverse=True)`). */
  method SortDescending(a: array<int>)
    modifies a
    ensures Descending(a[..])
    ensures multiset(a[..]) == old(multiset(a[..]))
  {
    var i := 0;
    while i < a.Length
      invariant 0 <= i <= a.Length
      invariant Descending(a[..i])
      invariant multiset(a[..]) == old(multiset(a[..]))
    {
      var j := i;
      while j > 0 && a[j - 1] < a[j]
        invariant 0 <= j <= i
        invariant forall p, q :: 0 <= p < q <= i && q != j ==> a[p] >= a[q]
        invariant multiset(a[..]) == old(multiset(a[..]))
      {
        a[j - 1], a[j] := a[j], a[j - 1];
        j := j - 1;
      }
      i := i + 1;
    }
    assert a[..] == a[..a.Length];
  }

  /** The distinct years of the table, newest first, each exactly once. */
  method ComparisonYears(s: seq<Observation>) returns (years: seq<int>)
    ensures StrictlyDescending(years)
    ensures forall y :: y in years <==> HasYear(s, y)
  {
    var column := YearColumn(s);
    var u := Unique(column);
    var a := new int[|u|](i requires 0 <= i < |u| => u[i]);
    assert a[..] == u;
    SortDescending(a);
    years := a[..];
    DistinctCountsOnce(u);
    CountsOnceDistinct(years);
    forall y
      ensures y in years <==> HasYear(s, y)
    {
      assert y in years <==> y in multiset(years);
      assert y in u <==> y in multiset(u);
      if y in column {
        var i :| 0 <= i < |column| && column[i] == y;
        assert s[i].date.year == y;
      }
      if HasYear(s, y) {
        var i :| 0 <= i < |s| && s[i].date.year == y;
        assert column[i] == y;
      }
    }
  }

  /** The years offered for comparison: the list without its first, newest, year (`years[1:]`). */
  function Options(years: seq<int>): (opts: seq<int>)
    ensures |opts| == if |years| == 0 then 0 else |years| - 1
    ensures forall i :: 0 <= i < |opts| ==> opts[i] == years[i + 1]
  {
    if |years| == 0 then [] else years[1..]
  }

  /**
   * Every offered year occurs in the table, is older than the newest year of
   * the table, and the offered years are distinct and newest first.
   */
  lemma OptionsAreOlderTableYears(s: seq<Observation>, years: seq<int>)
    requires StrictlyDescending(years)
    requires forall y :: y in years <==> HasYear(s, y)
    requires |s| > 0
    ensures years != [] && years[0] == Series.MaxDate(s).year
    ensures StrictlyDescending(Options(years))
    ensures forall y :: y in Options(years) <==> HasYear(s, y) && y < Series.MaxDate(s).year
  {
    var m := Series.MaxDate(s);
    var k :| 0 <= k < |s| && s[k].date == m;
    assert HasYear(s, m.year);
    assert m.year in years;
    assert years[0] in years;
    var i :| 0 <= i < |s| && s[i].date.year == years[0];
    assert OnOrBefore(s[i].date, m);
    forall y | y in years
      ensures y <= years[0]
    {
      var j :| 0 <= j < |years| && years[j] == y;
    }
    forall y
      ensures y in Options(years) <==> HasYear(s, y) && y < m.year
    {
      if HasYear(s, y) && y < m.year {
        var j :| 0 <= j < |years| && years[j] == y;
        assert j != 0;
        assert Options(years)[j - 1] == y;
      }
      if y in Options(years) {
        var j :| 0 <= j < |Options(years)| && Options(years)[j] == y;
        assert years[j + 1] == y;
      }
    }
  }

  /** Position of the first occurrence of `x` (Python's `list.index`, which raises when `x` is absent). */
  function IndexOf(xs: seq<int>, x: int): (r: Result<nat>)
    ensures r.Ok? <==> x in xs
    ensures r.Err? ==> r.fault == YearNotListed
    ensures r.Ok? ==> r.value < |xs| && xs[r.value] == x && forall j :: 0 <= j < r.value ==> xs[j] != x
  {
    if xs == [] then Err(YearNotListed)
    else if xs[0] == x then Ok(0)
    else
      match IndexOf(xs[1..], x)
      case Ok(i) => Ok(i + 1)
      case Err(f) => Err(f)
  }

  /**
   * The option the year selector starts on, as written: the position of
   * `currentYear - 10` in the full list, used as a position in the options,
   * which lack the list's first year.
   */
  function DefaultSelection(years: seq<int>, currentYear: int): (r: Result<int>)
    ensures r.Ok? ==> r.value in Options(years)
    ensures currentYear - 10 !in years ==> r == Err(YearNotListed)
  {
    var idx := IndexOf(years, currentYear - 10);
    if idx.Err? then Err(YearNotListed)
    else if idx.value < |Options(years)| then Ok(Options(years)[idx.value])
    else Err(IndexOutOfRange)
  }

  /**
   * On a newest-first year list the preselected option is the year listed
   * right after `currentYear - 10`, never `currentYear - 10` itself; the
   * oldest year as target is rejected.
   */
  lemma DefaultSelectionIsNextOlder(years: seq<int>, currentYear: int)
    requires StrictlyDescending(years)
    requires currentYear - 10 in years
    ensures var i := IndexOf(years, currentYear - 10).value;
            DefaultSelection(years, currentYear)
              == if i + 1 < |years| then Ok(years[i + 1]) else Err(IndexOutOfRange)
    ensures DefaultSelection(years, currentYear).Ok? ==>
              DefaultSelection(years, currentYear).value < currentYear - 10
  {
  }

  /** The year the selector was evidently meant to start on: `currentYear - 10` among the options. */
  function IntendedDefault(years: seq<int>, currentYear: int): (r: Result<int>)
    ensures r.Ok? <==> currentYear - 10 in Options(years)
    ensures r.Ok? ==> r.value == currentYear - 10
    ensures r.Err? ==> r.fault == YearNotListed
  {
    var opts := Options(years);
    var idx := IndexOf(opts, currentYear - 10);
    if idx.Err? then Err(YearNotListed) else Ok(opts[idx.value])
  }

  /** With years 2024, 2016, 2015 and current year 2026 the selector starts on 2015, not 2016. */
  lemma DefaultSelectionMissesTarget()
    ensures DefaultSelection([2024, 2016, 2015], 2026) == Ok(2015)
    ensures IntendedDefault([2024, 2016, 2015], 2026) == Ok(2016)
  {
    assert IndexOf([2024, 2016, 2015], 2016) == Ok(1);
    assert Options([2024, 2016, 2015]) == [2016, 2015];
    assert IndexOf([2016, 2015], 2016) == Ok(0);
  }

  /** The positions of the rows of year `y`. */
  ghost function YearRows(s: seq<Observation>, y: int): set<int> {
    set i | 0 <= i < |s| && s[i].date.year == y
  }

  /** The positions of the rows of year `y` whose CPI is `x`. */
  ghost function RowsWithCpi(s: seq<Observation>, y: int, x: real): set<int> {
    set i | 0 <= i < |s| && s[i].date.year == y && s[i].cpi == x
  }

  /** Row by row, the CPI where the row is of year `y` and zero elsewhere. */
  ghost function YearTerms(s: seq<Observation>, y: int): seq<real> {
    seq(|s|, i requires 0 <= i < |s| => if s[i].date.year == y then s[i].cpi else 0.0)
  }

  lemma SumSnoc(xs: seq<real>, x: real)
    ensures Sum(xs + [x]) == Sum(xs) + x
  {
    assert (xs + [x])[..|xs|] == xs;
  }

  /** Dropping the last row leaves the positions of the other rows of the year. */
  lemma YearRowsStep(s: seq<Observation>, y: int)
    requires |s| > 0
    ensures YearRows(s, y) == YearRows(s[..|s| - 1], y) + (if s[|s| - 1].date.year == y then {|s| - 1} else {})
    ensures |s| - 1 !in YearRows(s[..|s| - 1], y)
  {
    var init := s[..|s| - 1];
    forall i | 0 <= i < |s| - 1
      ensures (i in YearRows(s, y)) == (i in YearRows(init, y))
    {
      assert init[i] == s[i];
    }
  }

  /** Dropping the last row drops the last term. */
  lemma YearTermsStep(s: seq<Observation>, y: int)
    requires |s| > 0
    ensures YearTerms(s, y) == YearTerms(s[..|s| - 1], y) + [YearTerms(s, y)[|s| - 1]]
  {
    var init := s[..|s| - 1];
    forall i | 0 <= i < |s| - 1
      ensures YearTerms(s, y)[i] == YearTerms(init, y)[i]
    {
      assert init[i] == s[i];
    }
  }

  /**
   * The CPI values of the rows of year `y`, in table order: one value per
   * row of the year (repeated values are kept), summing to the year's terms.
   */
  function CpisInYear(s: seq<Observation>, y: int): (xs: seq<real>)
    ensures forall x :: x in xs <==> exists i :: 0 <= i < |s| && s[i].date.year == y && s[i].cpi == x
    ensures |xs| == |YearRows(s, y)|
    ensures Sum(xs) == Sum(YearTerms(s, y))
  {
    if s == [] then
      assert YearRows(s, y) == {};
      []
    else
      var init := CpisInYear(s[..|s| - 1], y);
      var last := s[|s| - 1];
      YearValuesStep(s, y, init);
      if last.date.year == y then init + [last.cpi] else init
  }

  /** Extending the values of all rows but the last by the last row keeps count and sum in step. */
  lemma YearValuesStep(s: seq<Observation>, y: int, init: seq<real>)
    requires |s| > 0
    requires |init| == |YearRows(s[..|s| - 1], y)| && Sum(init) == Sum(YearTerms(s[..|s| - 1], y))
    requires forall x :: x in init <==> exists i :: 0 <= i < |s| - 1 && s[i].date.year == y && s[i].cpi == x
    ensures var xs := if s[|s| - 1].date.year == y then init + [s[|s| - 1].cpi] else init;
            |xs| == |YearRows(s, y)| && Sum(xs) == Sum(YearTerms(s, y))
            && forall x :: x in xs <==> exists i :: 0 <= i < |s| && s[i].date.year == y && s[i].cpi == x
  {
    YearRowsStep(s, y);
    YearTermsStep(s, y);
    SumSnoc(YearTerms(s[..|s| - 1], y), YearTerms(s, y)[|s| - 1]);
    SumSnoc(init, s[|s| - 1].cpi);
  }

  /** Dropping the last row leaves the positions of the other rows of the year with CPI `x`. */
  lemma RowsWithCpiStep(s: seq<Observation>, y: int, x: real)
    requires |s| > 0
    ensures RowsWithCpi(s, y, x) == RowsWithCpi(s[..|s| - 1], y, x)
              + (if s[|s| - 1].date.year == y && s[|s| - 1].cpi == x then {|s| - 1} else {})
    ensures |s| - 1 !in RowsWithCpi(s[..|s| - 1], y, x)
  {
    var init := s[..|s| - 1];
    forall i | 0 <= i < |s| - 1
      ensures (i in RowsWithCpi(s, y, x)) == (i in RowsWithCpi(init, y, x))
    {
      assert init[i] == s[i];
    }
  }

  /** Each CPI value occurs among a year's values once per row of the year carrying it. */
  lemma {:induction false} CpisInYearCountsRows(s: seq<Observation>, y: int, x: real)
    ensures multiset(CpisInYear(s, y))[x] == |RowsWithCpi(s, y, x)|
  {
    if s == [] {
      assert RowsWithCpi(s, y, x) == {};
    } else {
      var init := s[..|s| - 1];
      var last := s[|s| - 1];
      CpisInYearCountsRows(init, y, x);
      RowsWithCpiStep(s, y, x);
      var xs := CpisInYear(init, y);
      if last.date.year == y {
        assert CpisInYear(s, y) == xs + [last.cpi];
        assert multiset(xs + [last.cpi]) == multiset(xs) + multiset{last.cpi};
      } else {
        assert CpisInYear(s, y) == xs;
      }
    }
  }

  function Mean(xs: seq<real>): real
    requires |xs| > 0
  {
    Sum(xs) / (|xs| as real)
  }

  /**
   * The CPI of a comparison year: the mean CPI of that year's rows, after
   * checking that the year occurs at all.
   */
  function YearCpi(s: seq<Observation>, y: int): (r: Result<real>)
    ensures r.Ok? <==> HasYear(s, y)
    ensures r.Err? ==> r.fault == YearNotFound
    ensures r.Ok? ==> r.value * (|YearRows(s, y)| as real) == Sum(YearTerms(s, y))
  {
    if !HasYear(s, y) then Err(YearNotFound)
    else
      var xs := CpisInYear(s, y);
      var i :| 0 <= i < |s| && s[i].date.year == y;
      assert s[i].cpi in xs;
      Ok(Mean(xs))
  }

  lemma {:induction false} SumAbove(xs: seq<real>, c: real)
    requires |xs| > 0 && forall i :: 0 <= i < |xs| ==> xs[i] > c
    ensures Sum(xs) > (|xs| as real) * c
  {
    if |xs| > 1 {
      SumAbove(xs[..|xs| - 1], c);
    }
  }

  lemma {:induction false} SumBelow(xs: seq<real>, c: real)
    requires |xs| > 0 && forall i :: 0 <= i < |xs| ==> xs[i] < c
    ensures Sum(xs) < (|xs| as real) * c
  {
    if |xs| > 1 {
      SumBelow(xs[..|xs| - 1], c);
    }
  }

  lemma {:induction false} SumConstant(xs: seq<real>, c: real)
    requires forall i :: 0 <= i < |xs| ==> xs[i] == c
    ensures Sum(xs) == (|xs| as real) * c
  {
    if xs != [] {
      SumConstant(xs[..|xs| - 1], c);
    }
  }

  lemma MeanOfConstant(xs: seq<real>, c: real)
    requires |xs| > 0 && forall i :: 0 <= i < |xs| ==> xs[i] == c
    ensures Mean(xs) == c
  {
    SumConstant(xs, c);
    var n := |xs| as real;
    assert Sum(xs) / n == (n * c) / n;
  }

  /** The mean lies between the smallest and the largest value averaged. */
  lemma MeanBetween(xs: seq<real>)
    requires |xs| > 0
    ensures exists i :: 0 <= i < |xs| && xs[i] <= Mean(xs)
    ensures exists j :: 0 <= j < |xs| && xs[j] >= Mean(xs)
  {
    var m := Mean(xs);
    var n := |xs| as real;
    assert n * m == Sum(xs);
    if forall i :: 0 <= i < |xs| ==> xs[i] > m {
      SumAbove(xs, m);
    }
    if forall j :: 0 <= j < |xs| ==> xs[j] < m {
      SumBelow(xs, m);
    }
  }

  /** A year's CPI lies between the lowest and the highest CPI observed in that year. */
  lemma YearCpiBetween(s: seq<Observation>, y: int)
    requires YearCpi(s, y).Ok?
    ensures exists i :: 0 <= i < |s| && s[i].date.year == y && s[i].cpi <= YearCpi(s, y).value
    ensures exists j :: 0 <= j < |s| && s[j].date.year == y && s[j].cpi >= YearCpi(s, y).value
  {
    var xs := CpisInYear(s, y);
    var k :| 0 <= k < |s| && s[k].date.year == y;
    assert s[k].cpi in xs;
    MeanBetween(xs);
    var i :| 0 <= i < |xs| && xs[i] <= Mean(xs);
    var j :| 0 <= j < |xs| && xs[j] >= Mean(xs);
    assert xs[i] in xs && xs[j] in xs;
  }

  /** When every row of the year has the same CPI (in particular, a single row), that CPI is the year's. */
  lemma YearCpiOfUniformYear(s: seq<Observation>, y: int, c: real)
    requires HasYear(s, y)
    requires forall i :: 0 <= i < |s| && s[i].date.year == y ==> s[i].cpi == c
    ensures YearCpi(s, y) == Ok(c)
  {
    var xs := CpisInYear(s, y);
    var i :| 0 <= i < |s| && s[i].date.year == y;
    assert s[i].cpi in xs;
    forall k | 0 <= k < |xs|
      ensures xs[k] == c
    {
      assert xs[k] in xs;
    }
    MeanOfConstant(xs, c);
    assert YearCpi(s, y) == Ok(Mean(xs));
  }

  /** Every year offered for selection has a CPI, so the "not available" branch is never taken for one. */
  lemma OptionsHaveCpi(s: seq<Observation>, years: seq<int>)
    requires forall y :: y in years <==> HasYear(s, y)
    ensures forall y :: y in Options(years) ==> YearCpi(s, y).Ok?
  {
    forall y | y in Options(years)
      ensures HasYear(s, y)
    {
      var j :| 0 <= j < |Options(years)| && Options(years)[j] == y;
      assert years[j + 1] == y;
    }
  }

  /** Two observations in 2015 average to 100; 1999 has none. */
  lemma YearMeanScenario()
    ensures YearCpi([Observation(Date(2015, 3, 1), 90.0), Observation(Date(2015, 9, 1), 110.0)], 2015) == Ok(100.0)
    ensures YearCpi([Observation(Date(2015, 3, 1), 90.0), Observation(Date(2015, 9, 1), 110.0)], 1999)
            == Err(YearNotFound)
  {
    var s := [Observation(Date(2015, 3, 1), 90.0), Observation(Date(2015, 9, 1), 110.0)];
    assert s[0].date.year == 2015;
    assert HasYear(s, 2015);
    assert s[..1] == [s[0]] && s[..1][..0] == [];
    assert CpisInYear(s[..1], 2015) == [90.0];
    assert CpisInYear(s, 2015) == [90.0, 110.0];
    assert Sum([90.0, 110.0]) == 200.0 by {
      assert [90.0, 110.0][..1] == [90.0];
    }
    assert YearCpi(s, 2015) == Ok(Mean([90.0, 110.0]));
    assert !HasYear(s, 1999);
  }

  /** A CPI value that two rows of the year share is counted twice in the mean. */
  lemma RepeatedCpiScenario()
    ensures YearCpi([Observation(Date(2015, 1, 1), 100.0), Observation(Date(2015, 2, 1), 100.0),
                     Observation(Date(2015, 3, 1), 130.0)], 2015) == Ok(110.0)
  {
    var s := [Observation(Date(2015, 1, 1), 100.0), Observation(Date(2015, 2, 1), 100.0),
              Observation(Date(2015, 3, 1), 130.0)];
    assert HasYear(s, 2015);
    assert s[..2] == [s[0], s[1]] && s[..2][..1] == [s[0]];
    assert CpisInYear(s, 2015) == [100.0, 100.0, 130.0];
    assert Sum([100.0, 100.0, 130.0]) == 330.0 by {
      assert [100.0, 100.0, 130.0][..2] == [100.0, 100.0];
      assert [100.0, 100.0][..1] == [100.0];
    }
  }
}
