/**
 * Calendar dates written `YYYY-MM-DD`, as produced by a date input field, and
 * the day of the week of such a date (0 = Sunday, ..., 6 = Saturday, the
 * numbering of `Date.prototype.getDay`), computed on the proleptic Gregorian
 * calendar.
 */
module Calendar {
  import opened Wrappers
  import opened JsString

  predicate IsDigit(c: char)
  {
    '0' <= c <= '9'
  }

  predicate AllDigits(s: string)
  {
    |s| == 0 || (IsDigit(s[0]) && AllDigits(s[1..]))
  }

  function Pow10(n: nat): (r: nat)
    ensures r > 0
  {
    if n == 0 then 1 else 10 * Pow10(n - 1)
  }

  /** The number a string of decimal digits denotes. */
  function DigitsValue(s: string): (r: nat)
    requires AllDigits(s)
    ensures r < Pow10(|s|)
  {
    if |s| == 0 then 0
    else
      var d, p, rest := DigitValue(s[0]), Pow10(|s| - 1), DigitsValue(s[1..]);
      LeadingDigitBound(d, p, rest);
      assert Pow10(|s|) == 10 * p;
      d * p + rest
  }

  function DigitValue(c: char): (r: nat)
    requires IsDigit(c)
    ensures r <= 9
  {
    c as int - '0' as int
  }

  lemma LeadingDigitBound(d: nat, p: nat, rest: nat)
    requires d <= 9 && rest < p
    ensures d * p + rest < 10 * p
  {
    MulMonotone(d + 1, 10, p);
  }

  lemma LeadingDigitDecides(da: nat, db: nat, p: nat, ra: nat, rb: nat)
    requires da < db && ra < p
    ensures da * p + ra < db * p + rb
  {
    MulMonotone(da + 1, db, p);
  }

  lemma MulMonotone(a: int, b: int, p: nat)
    requires a <= b
    ensures a * p <= b * p
  {
  }

  /** On strings of digits of one length, string order is numeric order and string equality numeric equality. */
  lemma {:induction false} DigitsOrder(a: string, b: string)
    requires |a| == |b| && AllDigits(a) && AllDigits(b)
    ensures Less(a, b) <==> DigitsValue(a) < DigitsValue(b)
    ensures a == b <==> DigitsValue(a) == DigitsValue(b)
  {
    if |a| > 0 {
      var p := Pow10(|a| - 1);
      var da, db := DigitValue(a[0]), DigitValue(b[0]);
      var ra, rb := DigitsValue(a[1..]), DigitsValue(b[1..]);
      assert DigitsValue(a) == da * p + ra && DigitsValue(b) == db * p + rb;
      if da < db {
        LeadingDigitDecides(da, db, p, ra, rb);
      } else if db < da {
        LeadingDigitDecides(db, da, p, rb, ra);
      } else {
        DigitsOrder(a[1..], b[1..]);
        assert a == [a[0]] + a[1..] && b == [b[0]] + b[1..];
      }
    }
  }

  /** A string of the form `YYYY-MM-DD` with decimal digits (the calendar is not consulted). */
  predicate IsDateShape(s: string)
  {
    |s| == 10 && s[4] == '-' && s[7] == '-'
    && AllDigits(s[..4]) && AllDigits(s[5..7]) && AllDigits(s[8..])
  }

  function Year(s: string): nat
    requires IsDateShape(s)
  {
    DigitsValue(s[..4])
  }

  function Month(s: string): nat
    requires IsDateShape(s)
  {
    DigitsValue(s[5..7])
  }

  function Day(s: string): nat
    requires IsDateShape(s)
  {
    DigitsValue(s[8..])
  }

  predicate IsLeapYear(y: nat)
  {
    y % 4 == 0 && (y % 100 != 0 || y % 400 == 0)
  }

  function YearLength(y: nat): nat
  {
    if IsLeapYear(y) then 366 else 365
  }

  function DaysInMonth(y: nat, m: nat): (r: nat)
    requires 1 <= m <= 12
    ensures 28 <= r <= 31
  {
    if m == 2 then (if IsLeapYear(y) then 29 else 28)
    else if m == 4 || m == 6 || m == 9 || m == 11 then 30
    else 31
  }

  /** A `YYYY-MM-DD` string that names a day of the calendar. */
  predicate IsValidDate(s: string)
  {
    IsDateShape(s) && 1 <= Month(s) <= 12 && 1 <= Day(s) <= DaysInMonth(Year(s), Month(s))
  }

  /** Days in the years 0 .. y-1 (year 0 is a leap year). */
  function DaysBeforeYear(y: nat): nat
  {
    365 * y + (y + 3) / 4 - (y + 99) / 100 + (y + 399) / 400
  }

  /** One more year than a multiple of k starts a new block of k years. */
  lemma DivStep4(y: nat)
    ensures (y + 4) / 4 == (y + 3) / 4 + (if y % 4 == 0 then 1 else 0)
  {
  }

  lemma DivStep100(y: nat)
    ensures (y + 100) / 100 == (y + 99) / 100 + (if y % 100 == 0 then 1 else 0)
  {
  }

  lemma DivStep400(y: nat)
    ensures (y + 400) / 400 == (y + 399) / 400 + (if y % 400 == 0 then 1 else 0)
  {
  }

  lemma DaysBeforeYearStep(y: nat)
    ensures DaysBeforeYear(y + 1) == DaysBeforeYear(y) + YearLength(y)
  {
    DivStep4(y);
    DivStep100(y);
    DivStep400(y);
    CenturyDivisibility(y);
  }

  lemma CenturyDivisibility(y: nat)
    ensures y % 100 == 0 ==> y % 4 == 0
    ensures y % 400 == 0 ==> y % 100 == 0
  {
    if y % 100 == 0 {
      assert y == 4 * (25 * (y / 100));
    }
    if y % 400 == 0 {
      assert y == 100 * (4 * (y / 400));
    }
  }

  lemma {:induction false} DaysBeforeYearGrows(y1: nat, y2: nat)
    requires y1 < y2
    ensures DaysBeforeYear(y1) + YearLength(y1) <= DaysBeforeYear(y2)
    decreases y2 - y1
  {
    DaysBeforeYearStep(y1);
    if y1 + 1 < y2 {
      DaysBeforeYearGrows(y1 + 1, y2);
    }
  }

  /** Days in the months 1 .. m-1 of year y; month 13 stands for the end of the year. */
  function DaysBeforeMonth(y: nat, m: nat): nat
    requires 1 <= m <= 13
  {
    [0, 31, 59, 90, 120, 151, 181, 212, 243, 273, 304, 334, 365][m - 1]
    + (if m > 2 && IsLeapYear(y) then 1 else 0)
  }

  /** The cumulative table agrees with the month lengths, and the year ends after YearLength days. */
  lemma DaysBeforeMonthStep(y: nat, m: nat)
    requires 1 <= m <= 12
    ensures DaysBeforeMonth(y, m + 1) == DaysBeforeMonth(y, m) + DaysInMonth(y, m)
    ensures DaysBeforeMonth(y, 13) == YearLength(y)
  {
  }

  lemma {:induction false} DaysBeforeMonthGrows(y: nat, m1: nat, m2: nat)
    requires 1 <= m1 < m2 <= 13
    ensures DaysBeforeMonth(y, m1) + DaysInMonth(y, m1) <= DaysBeforeMonth(y, m2)
    decreases m2 - m1
  {
    DaysBeforeMonthStep(y, m1);
    if m1 + 1 < m2 {
      DaysBeforeMonthGrows(y, m1 + 1, m2);
    }
  }

  /** The number of days from 0000-01-01 to the given day. */
  function DayNumber(y: nat, m: nat, d: nat): int
    requires 1 <= m <= 12
  {
    DaysBeforeYear(y) + DaysBeforeMonth(y, m) + d - 1
  }

  predicate LexLess(y1: nat, m1: nat, d1: nat, y2: nat, m2: nat, d2: nat)
  {
    y1 < y2 || (y1 == y2 && (m1 < m2 || (m1 == m2 && d1 < d2)))
  }

  /** Later calendar days have larger day numbers. */
  lemma DayNumberIncreasing(y1: nat, m1: nat, d1: nat, y2: nat, m2: nat, d2: nat)
    requires 1 <= m1 <= 12 && 1 <= d1 <= DaysInMonth(y1, m1)
    requires 1 <= m2 <= 12 && 1 <= d2 <= DaysInMonth(y2, m2)
    requires LexLess(y1, m1, d1, y2, m2, d2)
    ensures DayNumber(y1, m1, d1) < DayNumber(y2, m2, d2)
  {
    if y1 < y2 {
      DaysBeforeMonthGrows(y1, m1, 13);
      DaysBeforeMonthStep(y1, m1);
      DaysBeforeYearGrows(y1, y2);
    } else if m1 < m2 {
      DaysBeforeMonthGrows(y1, m1, m2);
    }
  }

  /** Day number of a valid date string. */
  function DateNumber(s: string): int
    requires IsValidDate(s)
  {
    DayNumber(Year(s), Month(s), Day(s))
  }

  /** Parts of `YYYY-MM-DD` strings compare like the strings do. */
  lemma DateShapeOrder(a: string, b: string)
    requires IsDateShape(a) && IsDateShape(b)
    ensures Less(a, b) <==> LexLess(Year(a), Month(a), Day(a), Year(b), Month(b), Day(b))
  {
    LessIrreflexive("-");
    // year, then "-MM-DD"
    LessSplit(a, b, 4);
    DigitsOrder(a[..4], b[..4]);
    // "-", then "MM-DD"
    LessSplit(a[4..], b[4..], 1);
    assert a[4..][..1] == "-" && b[4..][..1] == "-";
    assert a[4..][1..] == a[5..] && b[4..][1..] == b[5..];
    // month, then "-DD"
    LessSplit(a[5..], b[5..], 2);
    assert a[5..][..2] == a[5..7] && b[5..][..2] == b[5..7];
    assert a[5..][2..] == a[7..] && b[5..][2..] == b[7..];
    DigitsOrder(a[5..7], b[5..7]);
    // "-", then day
    LessSplit(a[7..], b[7..], 1);
    assert a[7..][..1] == "-" && b[7..][..1] == "-";
    assert a[7..][1..] == a[8..] && b[7..][1..] == b[8..];
    DigitsOrder(a[8..], b[8..]);
  }

  /** String order is calendar order wherever both strings are valid dates. */
  lemma CalendarOrderOfValidDates(a: string, b: string)
    ensures IsValidDate(a) && IsValidDate(b) ==> (Less(a, b) <==> DateNumber(a) < DateNumber(b))
  {
    if IsValidDate(a) && IsValidDate(b) {
      StringOrderIsCalendarOrder(a, b);
    }
  }

  /**
   * For valid dates, comparing the `YYYY-MM-DD` strings as strings orders them
   * exactly as the calendar does.
   */
  lemma StringOrderIsCalendarOrder(a: string, b: string)
    requires IsValidDate(a) && IsValidDate(b)
    ensures Less(a, b) <==> DateNumber(a) < DateNumber(b)
    ensures a == b <==> DateNumber(a) == DateNumber(b)
  {
    DateShapeOrder(a, b);
    DateShapeOrder(b, a);
    LessTotal(a, b);
    LessAsymmetric(a, b);
    LessIrreflexive(a);
    if Less(a, b) {
      DayNumberIncreasing(Year(a), Month(a), Day(a), Year(b), Month(b), Day(b));
    } else if Less(b, a) {
      DayNumberIncreasing(Year(b), Month(b), Day(b), Year(a), Month(a), Day(a));
    }
  }

  /**
   * The weekday of `date` (0 = Sunday); None when `date` names no calendar day,
   * where `getDay` answers NaN. Day 0, 0000-01-01, was a Saturday.
   */
  function WeekdayOf(date: string): (r: Option<int>)
    ensures r.Some? <==> IsValidDate(date)
    ensures r.Some? ==> 0 <= r.value < 7
  {
    if IsValidDate(date) then Some((DateNumber(date) + 6) % 7) else None
  }

  /** Dates a whole number of weeks apart fall on the same weekday, and consecutive days on consecutive weekdays. */
  lemma WeekdayPeriodic(a: string, b: string, weeks: nat)
    requires IsValidDate(a) && IsValidDate(b)
    ensures DateNumber(b) == DateNumber(a) + 7 * weeks ==> WeekdayOf(b) == WeekdayOf(a)
    ensures DateNumber(b) == DateNumber(a) + 1 ==> WeekdayOf(b).value == (WeekdayOf(a).value + 1) % 7
  {
    var n := DateNumber(a) + 6;
    assert WeekdayOf(a) == Some(n % 7);
    assert WeekdayOf(b) == Some((DateNumber(b) + 6) % 7);
    ModSevenShift(n, weeks);
  }

  lemma ModSevenShift(n: int, weeks: nat)
    ensures (n + 7 * weeks) % 7 == n % 7
    ensures (n + 1) % 7 == (n % 7 + 1) % 7
  {
  }

  /** A valid date's weekday, from its year, month and day. */
  lemma WeekdayFromParts(s: string, y: nat, m: nat, d: nat)
    requires IsDateShape(s) && Year(s) == y && Month(s) == m && Day(s) == d
    requires 1 <= m <= 12 && 1 <= d <= DaysInMonth(y, m)
    ensures WeekdayOf(s) == Some((DaysBeforeYear(y) + DaysBeforeMonth(y, m) + d + 5) % 7)
  {
  }

  lemma Year1970()
    ensures DigitsValue("1970") == 1970 && DaysBeforeYear(1970) == 719528
  {
  }

  lemma Year2024()
    ensures DigitsValue("2024") == 2024 && DaysBeforeYear(2024) == 739251
  {
  }

  /** Anchor: the Unix epoch was a Thursday. */
  lemma EpochWeekday()
    ensures WeekdayOf("1970-01-01") == Some(4)
  {
    var s := "1970-01-01";
    assert s[..4] == "1970" && s[5..7] == "01" && s[8..] == "01";
    Year1970();
    assert DigitsValue("01") == 1;
    WeekdayFromParts(s, 1970, 1, 1);
  }

  /** Monday 2024-01-08, a week after Monday 2024-01-01. */
  lemma SecondMondayOf2024()
    ensures WeekdayOf("2024-01-08") == Some(1)
  {
    var s := "2024-01-08";
    assert s[..4] == "2024" && s[5..7] == "01" && s[8..] == "08";
    Year2024();
    assert DigitsValue("01") == 1 && DigitsValue("08") == 8;
    WeekdayFromParts(s, 2024, 1, 8);
  }

  /** Tuesday 2024-01-02. */
  lemma FirstTuesdayOf2024()
    ensures WeekdayOf("2024-01-02") == Some(2)
  {
    var s := "2024-01-02";
    assert s[..4] == "2024" && s[5..7] == "01" && s[8..] == "02";
    Year2024();
    assert DigitsValue("01") == 1 && DigitsValue("02") == 2;
    WeekdayFromParts(s, 2024, 1, 2);
  }

  /** As strings, 2023-12-25 comes before 2024-01-01 and 2024-01-08 does not. */
  lemma StartOf2024Order()
    ensures Less("2023-12-25", "2024-01-01") && !Less("2024-01-08", "2024-01-01")
  {
  }
}
