/** Proleptic Gregorian dates as the schedule page's JavaScript Date objects
    expose them through getFullYear/getMonth/getDate: the date key written by
    formatDate, the Monday-first weekday of the first day of a month, the
    days-in-month rule, and the month step taken by Date.prototype.setMonth.

    A day count numbers every day consecutively (day 0 is Monday 1 January of
    year 1); weekdays are read off it, so the weekday rule is proved from the
    calendar's succession of days rather than from a table. */
module Calendar {
  import opened Text

  /** A local calendar date; `month` is 1-based (getMonth() + 1). */
  datatype Date = Date(year: int, month: int, day: int)

  predicate IsLeapYear(y: int)
  {
    y % 4 == 0 && (y % 100 != 0 || y % 400 == 0)
  }

  function DaysInMonth(y: int, m: int): (n: int)
    requires 1 <= m <= 12
    ensures 28 <= n <= 31
    ensures m == 2 ==> (n == 29 <==> IsLeapYear(y))
  {
    if m == 2 then (if IsLeapYear(y) then 29 else 28)
    else if m == 4 || m == 6 || m == 9 || m == 11 then 30
    else 31
  }

  /** The fields a JavaScript Date reports always name an existing day. */
  predicate Valid(d: Date)
  {
    1 <= d.month <= 12 && 1 <= d.day <= DaysInMonth(d.year, d.month)
  }

  function YearLength(y: int): int
  {
    if IsLeapYear(y) then 366 else 365
  }

  /** The number of leap years among 1..n (negative for n < 0, counting
      proleptic leap years downwards); `/` is floor division here. */
  function LeapsThrough(n: int): int
  {
    n / 4 - n / 100 + n / 400
  }

  function DaysBeforeYear(y: int): int
  {
    365 * (y - 1) + LeapsThrough(y - 1)
  }

  function DaysBeforeMonth(y: int, m: int): int
    requires 1 <= m <= 12
  {
    var common :=
      if m == 1 then 0 else if m == 2 then 31 else if m == 3 then 59
      else if m == 4 then 90 else if m == 5 then 120 else if m == 6 then 151
      else if m == 7 then 181 else if m == 8 then 212 else if m == 9 then 243
      else if m == 10 then 273 else if m == 11 then 304 else 334;
    if m > 2 && IsLeapYear(y) then common + 1 else common
  }

  /** Consecutive numbering of days; 0001-01-01 is day 0. */
  function DayNumber(d: Date): int
    requires 1 <= d.month <= 12
  {
    DaysBeforeYear(d.year) + DaysBeforeMonth(d.year, d.month) + d.day - 1
  }

  /** The day after `d`. */
  function NextDay(d: Date): (r: Date)
    requires Valid(d)
    ensures Valid(r)
  {
    if d.day < DaysInMonth(d.year, d.month) then Date(d.year, d.month, d.day + 1)
    else if d.month < 12 then Date(d.year, d.month + 1, 1)
    else Date(d.year + 1, 1, 1)
  }

  /** The first day of the month after (y, m). */
  function FirstOfNextMonth(y: int, m: int): (r: Date)
    requires 1 <= m <= 12
    ensures Valid(r) && r.day == 1
  {
    if m < 12 then Date(y, m + 1, 1) else Date(y + 1, 1, 1)
  }

  lemma LeapsStep(n: int)
    ensures LeapsThrough(n) - LeapsThrough(n - 1) == if IsLeapYear(n) then 1 else 0
  {
    DivStep(n, 4);
    DivStep(n, 100);
    DivStep(n, 400);
    assert n % 400 == 0 ==> n % 100 == 0 by {
      if n % 400 == 0 {
        var q := n / 400;
        assert n == 100 * (4 * q);
      }
    }
    assert n % 100 == 0 ==> n % 4 == 0 by {
      if n % 100 == 0 {
        var q := n / 100;
        assert n == 4 * (25 * q);
      }
    }
  }

  lemma DivStep(n: int, k: int)
    requires k > 0
    ensures n / k - (n - 1) / k == if n % k == 0 then 1 else 0
  {
    var q := (n - 1) / k;
    var r := (n - 1) % k;
    assert n - 1 == k * q + r && 0 <= r < k;
    if r == k - 1 {
      assert n == k * (q + 1) + 0;
      DivUnique(n, k, q + 1, 0);
    } else {
      assert n == k * q + (r + 1);
      DivUnique(n, k, q, r + 1);
    }
  }

  lemma DivUnique(n: int, k: int, q: int, r: int)
    requires k > 0 && n == k * q + r && 0 <= r < k
    ensures n / k == q && n % k == r
  {
    var q' := n / k;
    var r' := n % k;
    assert n == k * q' + r' && 0 <= r' < k;
    if q' < q {
      assert k * (q - q') == r' - r by {
        assert k * (q - q') == k * q - k * q';
      }
      MulAtLeast(k, q - q');
    } else if q' > q {
      assert k * (q' - q) == r - r' by {
        assert k * (q' - q) == k * q' - k * q;
      }
      MulAtLeast(k, q' - q);
    }
  }

  lemma MulAtLeast(k: int, x: int)
    requires k > 0 && x >= 1
    ensures k * x >= k
  {
    assert k * x == k * (x - 1) + k;
  }

  lemma ModSuccessor(a: int, k: int)
    requires k > 0
    ensures (a + 1) % k == (a % k + 1) % k
  {
    var q := a / k;
    var r := a % k;
    assert a == k * q + r;
    if r + 1 < k {
      DivUnique(a + 1, k, q, r + 1);
      DivUnique(r + 1, k, 0, r + 1);
    } else {
      assert a + 1 == k * (q + 1) + 0;
      DivUnique(a + 1, k, q + 1, 0);
      DivUnique(r + 1, k, 1, 0);
    }
  }

  /** Year lengths chain the year starts together. */
  lemma YearStep(y: int)
    ensures DaysBeforeYear(y + 1) == DaysBeforeYear(y) + YearLength(y)
  {
    LeapsStep(y);
  }

  /** "Day 0 of the next month" is the last day of this one: the month's
      first day plus its length is the next month's first day. */
  lemma MonthStep(y: int, m: int)
    requires 1 <= m <= 12
    ensures DayNumber(FirstOfNextMonth(y, m)) == DayNumber(Date(y, m, 1)) + DaysInMonth(y, m)
  {
    if m == 12 {
      YearStep(y);
    }
  }

  /** The day count advances by exactly one from each day to the next. */
  lemma DayNumberNext(d: Date)
    requires Valid(d)
    ensures DayNumber(NextDay(d)) == DayNumber(d) + 1
  {
    if d.day == DaysInMonth(d.year, d.month) {
      MonthStep(d.year, d.month);
    }
  }

  /** Weekday with Monday = 0 .. Sunday = 6, that is (getDay() + 6) % 7. */
  function MondayFirstWeekday(d: Date): (w: int)
    requires Valid(d)
    ensures 0 <= w <= 6
  {
    DayNumber(d) % 7
  }

  /** Weekdays run Monday..Sunday and wrap round. */
  lemma WeekdayNext(d: Date)
    requires Valid(d)
    ensures MondayFirstWeekday(NextDay(d)) == (MondayFirstWeekday(d) + 1) % 7
  {
    DayNumberNext(d);
    ModSuccessor(DayNumber(d), 7);
  }

  /** Anchors of the count: 1 January 1970 was a Thursday and 10 March 2025 a Monday. */
  lemma KnownWeekdays()
    ensures MondayFirstWeekday(Date(1970, 1, 1)) == 3
    ensures MondayFirstWeekday(Date(2025, 3, 10)) == 0
    ensures MondayFirstWeekday(Date(2024, 12, 1)) == 6
  {
  }

  /** getFirstDayOfMonth: the Monday-first weekday of day 1 of (y, m), so the
      number of blank cells before it in a Monday-first grid. */
  function FirstWeekdayOffset(y: int, m: int): (w: int)
    requires 1 <= m <= 12
    ensures 0 <= w <= 6
    ensures w == MondayFirstWeekday(Date(y, m, 1))
  {
    DayNumber(Date(y, m, 1)) % 7
  }

  /** The Date constructor with separate fields reads years 0..99 as 1900..1999. */
  function ConstructedYear(y: int): (r: int)
    ensures 0 <= y <= 99 ==> r == 1900 + y
    ensures !(0 <= y <= 99) ==> r == y
    ensures !(0 <= r <= 99)
  {
    if 0 <= y <= 99 then 1900 + y else y
  }

  /** The "-MM-DD" tail of a date key. */
  function MonthDaySuffix(month: nat, day: nat): (r: string)
    requires month < 100 && day < 100
    ensures |r| == 6 && r[0] == '-' && r[3] == '-'
    ensures r[1..3] == Pad2(month) && r[4..] == Pad2(day)
  {
    var p1 := Pad2(month);
    var p2 := Pad2(day);
    var r := "-" + p1 + "-" + p2;
    assert r[1..3] == p1 && r[4..] == p2;
    r
  }

  /** formatDate: YYYY-MM-DD with the year as String(year) (no padding) and
      the 1-based month and the day padded to two digits. */
  function FormatDate(d: Date): (s: string)
    requires Valid(d)
    ensures |s| == |IntToString(d.year)| + 6
    ensures s[..|s| - 6] == IntToString(d.year)
    ensures s[|s| - 6..] == MonthDaySuffix(d.month, d.day)
    ensures 1000 <= d.year <= 9999 ==> |s| == 10
  {
    FourDigitYears(d.year);
    var y := IntToString(d.year);
    var s := y + MonthDaySuffix(d.month, d.day);
    assert s[..|y|] == y;
    s
  }

  /** Reads a key of the FormatDate shape back into its three fields. */
  function ParseDateKey(s: string): Option<Date>
  {
    if |s| < 7 then None
    else
      var n := |s|;
      var mm := s[n - 5..n - 3];
      var dd := s[n - 2..];
      if s[n - 6] != '-' || s[n - 3] != '-' || !AllDigits(mm) || !AllDigits(dd) then None
      else match ParseInt(s[..n - 6])
        case None => None
        case Some(y) => Some(Date(y, ParseDecimal(mm), ParseDecimal(dd)))
  }

  lemma {:induction false} ParseFormatDate(d: Date)
    requires Valid(d)
    ensures ParseDateKey(FormatDate(d)) == Some(d)
  {
    var s := FormatDate(d);
    var t := MonthDaySuffix(d.month, d.day);
    var n := |s|;
    assert s[n - 6..] == t;
    assert s[n - 5..n - 3] == t[1..3];
    assert s[n - 2..] == t[4..];
    assert s[n - 6] == t[0] && s[n - 3] == t[3];
    Pad2RoundTrip(d.month);
    Pad2RoundTrip(d.day);
    ParseIntOfIntToString(d.year);
  }

  /** Distinct days get distinct keys, whatever the number of year digits. */
  lemma FormatDateInjective(a: Date, b: Date)
    requires Valid(a) && Valid(b)
    ensures FormatDate(a) == FormatDate(b) <==> a == b
  {
    if FormatDate(a) == FormatDate(b) {
      ParseFormatDate(a);
      ParseFormatDate(b);
    }
  }

  /** The (year, month) that setMonth(getMonth() + delta) aims at. */
  function TargetMonth(d: Date, delta: int): (r: (int, int))
    ensures 1 <= r.1 <= 12
    ensures 12 * r.0 + r.1 == 12 * d.year + d.month + delta
  {
    var mi := d.month - 1 + delta;
    (d.year + mi / 12, mi % 12 + 1)
  }

  /** currentDate.setMonth(currentDate.getMonth() + delta): the day of month
      is kept, and a day the target month lacks spills over into the next
      month, exactly as ECMAScript's MakeDay adds day - 1 to the target
      month's first day. */
  function ShiftMonth(d: Date, delta: int): (r: Date)
    requires Valid(d)
    ensures Valid(r)
    ensures var t := TargetMonth(d, delta);
      DayNumber(r) == DayNumber(Date(t.0, t.1, 1)) + d.day - 1
  {
    var t := TargetMonth(d, delta);
    var len := DaysInMonth(t.0, t.1);
    if d.day <= len then Date(t.0, t.1, d.day)
    else
      var next := FirstOfNextMonth(t.0, t.1);
      MonthStep(t.0, t.1);
      Date(next.year, next.month, d.day - len)
  }

  /** The step lands in the aimed-at month exactly when that month has the
      current day of month; otherwise it lands in the month after it. */
  lemma ShiftMonthLanding(d: Date, delta: int)
    requires Valid(d)
    ensures var t := TargetMonth(d, delta); var r := ShiftMonth(d, delta);
      (r.year == t.0 && r.month == t.1) <==> d.day <= DaysInMonth(t.0, t.1)
    ensures var t := TargetMonth(d, delta); var r := ShiftMonth(d, delta);
      d.day > DaysInMonth(t.0, t.1) ==>
        r.year == FirstOfNextMonth(t.0, t.1).year && r.month == FirstOfNextMonth(t.0, t.1).month
  {
  }

  /** On 31 January the "next month" button shows March and on 31 March the
      "previous month" button stays in March. */
  lemma MonthStepSkips()
    ensures ShiftMonth(Date(2025, 1, 31), 1) == Date(2025, 3, 3)
    ensures ShiftMonth(Date(2025, 3, 31), -1) == Date(2025, 3, 3)
    ensures ShiftMonth(Date(2024, 1, 30), 1) == Date(2024, 3, 1)
  {
    assert TargetMonth(Date(2025, 1, 31), 1) == (2025, 2);
    assert TargetMonth(Date(2025, 3, 31), -1) == (2025, 2);
    assert TargetMonth(Date(2024, 1, 30), 1) == (2024, 2);
    assert !IsLeapYear(2025) && IsLeapYear(2024);
  }
}
