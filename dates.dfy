/**
 * Reading the table's observation dates (`YYYY-MM-DD` strings) into
 * calendar dates, writing them back, and stepping a date back by whole
 * years the way a calendar offset does.
 */
module Dates {
  import opened CpiTypes

  predicate IsDigit(c: char) {
    '0' <= c <= '9'
  }

  predicate AllDigits(s: string) {
    forall i :: 0 <= i < |s| ==> IsDigit(s[i])
  }

  function DigitValue(c: char): (v: nat)
    requires IsDigit(c)
    ensures v <= 9
  {
    c as int - '0' as int
  }

  function DigitChar(v: nat): (c: char)
    requires v <= 9
    ensures IsDigit(c) && DigitValue(c) == v
  {
    ('0' as int + v) as char
  }

  function Pow10(n: nat): (p: nat)
    ensures p >= 1
  {
    if n == 0 then 1 else 10 * Pow10(n - 1)
  }

  /** The number a run of decimal digits denotes, most significant digit first. */
  function DigitsValue(s: string): (n: nat)
    requires AllDigits(s)
    ensures n < Pow10(|s|)
  {
    if s == [] then 0 else DigitsValue(s[..|s| - 1]) * 10 + DigitValue(s[|s| - 1])
  }

  /** `n` written in exactly `width` decimal digits, zero-padded on the left. */
  function Digits(n: nat, width: nat): (s: string)
    ensures |s| == width && AllDigits(s)
  {
    if width == 0 then [] else Digits(n / 10, width - 1) + [DigitChar(n % 10)]
  }

  lemma {:induction false} DigitsThenValue(n: nat, width: nat)
    requires n < Pow10(width)
    ensures DigitsValue(Digits(n, width)) == n
  {
    if width > 0 {
      var s := Digits(n, width);
      assert s[..|s| - 1] == Digits(n / 10, width - 1);
      DigitsThenValue(n / 10, width - 1);
    }
  }

  lemma {:induction false} ValueThenDigits(s: string)
    requires AllDigits(s)
    ensures Digits(DigitsValue(s), |s|) == s
  {
    if s != [] {
      var init, c := s[..|s| - 1], s[|s| - 1];
      var q, d := DigitsValue(init), DigitValue(c);
      LastDigit(q, d);
      assert Digits(q * 10 + d, |s|) == Digits(q, |init|) + [DigitChar(d)];
      ValueThenDigits(init);
      assert DigitChar(d) == c;
      assert s == init + [c];
    }
  }

  lemma LastDigit(q: nat, d: nat)
    requires d <= 9
    ensures (q * 10 + d) / 10 == q && (q * 10 + d) % 10 == d
  {
  }

  /**
   * The loader's date conversion for the table's ISO form: four year digits,
   * a dash, two month digits, a dash, two day digits, naming a real day
   * that a pandas timestamp can hold.
   */
  function ParseDate(s: string): (r: Result<Date>)
    ensures r.Ok? ==> ValidDate(r.value) && InTimestampRange(r.value)
    ensures r.Err? ==> r.fault in {UnparsableDate, OutOfBoundsDate}
    ensures r == Err(OutOfBoundsDate) <==>
              |s| == 10 && s[4] == '-' && s[7] == '-' && AllDigits(s[..4]) && AllDigits(s[5..7]) && AllDigits(s[8..])
              && ValidDate(Date(DigitsValue(s[..4]), DigitsValue(s[5..7]), DigitsValue(s[8..])))
              && !InTimestampRange(Date(DigitsValue(s[..4]), DigitsValue(s[5..7]), DigitsValue(s[8..])))
  {
    if |s| == 10 && s[4] == '-' && s[7] == '-'
       && AllDigits(s[..4]) && AllDigits(s[5..7]) && AllDigits(s[8..])
    then
      var d := Date(DigitsValue(s[..4]), DigitsValue(s[5..7]), DigitsValue(s[8..]));
      if !ValidDate(d) then Err(UnparsableDate)
      else if !InTimestampRange(d) then Err(OutOfBoundsDate)
      else Ok(d)
    else Err(UnparsableDate)
  }

  function FormatDate(d: Date): (s: string)
    requires 0 <= d.year < 10000 && ValidDate(d)
    ensures |s| == 10
  {
    Digits(d.year, 4) + "-" + Digits(d.month, 2) + "-" + Digits(d.day, 2)
  }

  /** Every date a pandas timestamp can hold survives being written out and read back. */
  lemma FormatThenParse(d: Date)
    requires InTimestampRange(d) && ValidDate(d)
    ensures ParseDate(FormatDate(d)) == Ok(d)
  {
    var s := FormatDate(d);
    assert s[..4] == Digits(d.year, 4);
    assert s[5..7] == Digits(d.month, 2);
    assert s[8..] == Digits(d.day, 2);
    DigitsThenValue(d.year, 4);
    DigitsThenValue(d.month, 2);
    DigitsThenValue(d.day, 2);
  }

  /** A real date before 1677-09-22 is rejected as out of bounds, not read. */
  lemma EarlyDateOutOfBounds()
    ensures ParseDate("1500-01-01") == Err(OutOfBoundsDate)
  {
    var s := "1500-01-01";
    assert s[..4] == "1500" && s[5..7] == "01" && s[8..] == "01";
    assert DigitsValue("1500") == 1500 by {
      assert "1500"[..3] == "150" && "150"[..2] == "15" && "15"[..1] == "1" && "1"[..0] == "";
    }
    assert DigitsValue("01") == 1 by {
      assert "01"[..1] == "0" && "0"[..0] == "";
    }
  }

  /** 1677-09-22 is the first day read: midnight of 1677-09-21 is before the earliest timestamp. */
  lemma FirstDayInRange()
    ensures ParseDate("1677-09-22") == Ok(Date(1677, 9, 22))
  {
    FormatThenParse(Date(1677, 9, 22));
    assert FormatDate(Date(1677, 9, 22)) == "1677-09-22";
  }

  lemma DayBeforeRangeOutOfBounds()
    ensures ParseDate("1677-09-21") == Err(OutOfBoundsDate)
  {
    var s := "1677-09-21";
    assert s[..4] == "1677" && s[5..7] == "09" && s[8..] == "21";
    assert DigitsValue("1677") == 1677 by {
      assert "1677"[..3] == "167" && "167"[..2] == "16" && "16"[..1] == "1" && "1"[..0] == "";
    }
    assert DigitsValue("09") == 9 by {
      assert "09"[..1] == "0" && "0"[..0] == "";
    }
    assert DigitsValue("21") == 21 by {
      assert "21"[..1] == "2" && "2"[..0] == "";
    }
  }

  /** A string the loader accepts is exactly the canonical form of the date it yields. */
  lemma ParseThenFormat(s: string)
    requires ParseDate(s).Ok?
    ensures FormatDate(ParseDate(s).value) == s
  {
    ValueThenDigits(s[..4]);
    ValueThenDigits(s[5..7]);
    ValueThenDigits(s[8..]);
    assert s == s[..4] + "-" + s[5..7] + "-" + s[8..];
  }

  /**
   * The date `years` calendar years before `d`: same month and day, except
   * that a day the earlier month does not have is clamped to its last day.
   */
  function YearsBefore(d: Date, years: nat): (r: Date)
    requires ValidDate(d)
    ensures ValidDate(r) && r.year == d.year - years && r.month == d.month
    ensures r.day <= d.day
    ensures years > 0 ==> OnOrBefore(r, d) && r != d
  {
    var y := d.year - years;
    var days := DaysInMonth(y, d.month);
    Date(y, d.month, if d.day <= days then d.day else days)
  }

  /** Ten years back keeps the day of month, except that 29 February becomes 28 February. */
  lemma TenYearsBeforeKeepsDay(d: Date)
    requires ValidDate(d)
    ensures YearsBefore(d, 10).day == if d.month == 2 && d.day == 29 then 28 else d.day
  {
    if d.month == 2 && d.day == 29 {
      assert IsLeapYear(d.year);
      assert (d.year - 10) % 4 == 2;
      assert !IsLeapYear(d.year - 10);
    }
  }
}
