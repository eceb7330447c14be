/**
 * The relative day arithmetic of the calendar grid. Dates are "YYYY-MM-DD" strings (the
 * extended calendar-date form of ISO 8601:2004, section 4.1.2.2) read at fixed positions;
 * day 1 of the grid is the week-start date. The firmware assumes that every month has
 * 31 days. This module models that as written and relates it to the Gregorian calendar.
 */
module DateArith {
  import opened ArduinoString

  /** The year, month and day read from positions 0-3, 5-6 and 8-9. */
  datatype DateFields = DateFields(year: int, month: int, day: int)

  /** The fields `substring(...).toInt()` reads from a date string. */
  function ReadDate(s: string): DateFields
  {
    DateFields(ToInt(Substring(s, 0, 4)), ToInt(Substring(s, 5, 7)), ToInt(Substring(s, 8, 10)))
  }

  /** Each read covers at most four characters, so the values are far inside the range of a
      C++ `int`. */
  lemma ReadDateBounds(s: string)
    ensures var f := ReadDate(s);
      -10000 < f.year < 10000 && -100 < f.month < 100 && -100 < f.day < 100
  {
    ToIntBound(Substring(s, 0, 4));
    ToIntBound(Substring(s, 5, 7));
    ToIntBound(Substring(s, 8, 10));
    Pow10Monotone(|Substring(s, 0, 4)|, 4);
    Pow10Monotone(|Substring(s, 5, 7)|, 2);
    Pow10Monotone(|Substring(s, 8, 10)|, 2);
    assert Pow10(2) == 100 && Pow10(4) == 10000;
  }

  /** `n` in exactly `width` decimal digits, with leading zeros. */
  function Pad(n: nat, width: nat): (s: string)
    requires n < Pow10(width)
    ensures |s| == width && AllDigits(s)
  {
    if width == 0 then "" else Pad(n / 10, width - 1) + [DigitChar(n % 10)]
  }

  lemma {:induction false} PadValue(n: nat, width: nat)
    requires n < Pow10(width)
    ensures DecimalValue(Pad(n, width)) == n
  {
    if width > 0 {
      PadValue(n / 10, width - 1);
      var s := Pad(n, width);
      assert s[..|s| - 1] == Pad(n / 10, width - 1);
    }
  }

  /** A number below 100 in two digits. */
  lemma TwoDigits(n: nat)
    requires n < 100
    ensures Pad(n, 2) == [DigitChar(n / 10), DigitChar(n % 10)]
  {
    assert Pow10(1) == 10 && Pow10(2) == 100;
    var a := n / 10;
    assert a < 10 && a / 10 == 0 && a % 10 == a;
    assert Pad(a, 1) == Pad(0, 0) + [DigitChar(a)];
  }

  /** The "YYYY-MM-DD" text of a date. */
  function FormatDate(year: nat, month: nat, day: nat): (s: string)
    requires year < 10000 && month < 100 && day < 100
    ensures |s| == 10 && s[4] == '-' && s[7] == '-'
  {
    assert Pow10(2) == 100 && Pow10(4) == 10000;
    Pad(year, 4) + "-" + Pad(month, 2) + "-" + Pad(day, 2)
  }

  /** Reading a formatted date gives back its fields. */
  lemma ReadFormattedDate(year: nat, month: nat, day: nat)
    requires year < 10000 && month < 100 && day < 100
    ensures ReadDate(FormatDate(year, month, day)) == DateFields(year, month, day)
  {
    assert Pow10(2) == 100 && Pow10(4) == 10000;
    var s := FormatDate(year, month, day);
    assert Substring(s, 0, 4) == Pad(year, 4);
    assert Substring(s, 5, 7) == Pad(month, 2);
    assert Substring(s, 8, 10) == Pad(day, 2);
    PadValue(year, 4);
    PadValue(month, 2);
    PadValue(day, 2);
    ToIntOfDigits(Pad(year, 4), "");
    ToIntOfDigits(Pad(month, 2), "");
    ToIntOfDigits(Pad(day, 2), "");
    assert Pad(year, 4) + "" == Pad(year, 4);
    assert Pad(month, 2) + "" == Pad(month, 2);
    assert Pad(day, 2) + "" == Pad(day, 2);
  }

  // ---------------------------------------------------------------------------
  // calculateGridPosition and calculateCalendarDay, as written
  // ---------------------------------------------------------------------------

  /** The grid position of `date` from its fields and those of the week start. */
  function GridFromFields(date: DateFields, weekStart: DateFields): int
  {
    if date.year == weekStart.year && date.month == weekStart.month then
      date.day - weekStart.day + 1
    else if date.year == weekStart.year && date.month == weekStart.month + 1 then
      (31 - weekStart.day + 1) + date.day
    else if date.year == weekStart.year && date.month == weekStart.month - 1 then
      date.day - weekStart.day + 1
    else if weekStart.year == date.year - 1 && weekStart.month == 12 && date.month == 1 then
      (31 - weekStart.day + 1) + date.day
    else
      1
  }

  /** `calculateGridPosition(date, weekStart)`: the 1-based day of `date` counted from the
      week start, assuming the week-start month has 31 days; 1 when the dates are further
      apart than one month. */
  function CalculateGridPosition(date: string, weekStart: string): int
  {
    GridFromFields(ReadDate(date), ReadDate(weekStart))
  }

  /** `calculateCalendarDay(weekStart, weekNumber, dayInWeek)`: the day of the month shown in
      the grid cell, wrapping once past 31. */
  function CalculateCalendarDay(weekStart: string, weekNumber: int, dayInWeek: int): (r: int)
    ensures var start := ReadDate(weekStart).day; var offset := weekNumber * 7 + dayInWeek;
      && (r == start + offset || r == start + offset - 31)
      && (r == start + offset - 31 <==> start + offset > 31)
      && (1 <= start <= 31 && 0 <= offset <= 31 ==> 1 <= r <= 31)
  {
    CalendarDayFrom(ReadDate(weekStart).day, weekNumber, dayInWeek)
  }

  /** The arithmetic of `calculateCalendarDay` once the week start's day has been read. */
  function CalendarDayFrom(weekStartDay: int, weekNumber: int, dayInWeek: int): int
  {
    var totalDaysOffset := weekNumber * 7 + dayInWeek;
    var resultDay := weekStartDay + totalDaysOffset;
    if resultDay > 31 then resultDay - 31 else resultDay
  }

  // ---------------------------------------------------------------------------
  // A Gregorian reference
  // ---------------------------------------------------------------------------

  predicate IsLeapYear(y: int) {
    y % 4 == 0 && (y % 100 != 0 || y % 400 == 0)
  }

  function DaysInMonth(y: int, m: int): (n: nat)
    requires 1 <= m <= 12
    ensures 28 <= n <= 31
  {
    if m == 2 then (if IsLeapYear(y) then 29 else 28)
    else if m == 4 || m == 6 || m == 9 || m == 11 then 30
    else 31
  }

  function DaysInYear(y: int): nat {
    if IsLeapYear(y) then 366 else 365
  }

  /** Days of year `y` before the first of month `m`. */
  function DaysBeforeMonth(y: int, m: int): nat
    requires 1 <= m <= 13
  {
    if m == 1 then 0 else DaysBeforeMonth(y, m - 1) + DaysInMonth(y, m - 1)
  }

  /** Days from 0000-01-01 to the first of January of year `y`. */
  function DaysBeforeYear(y: nat): nat
  {
    if y == 0 then 0 else DaysBeforeYear(y - 1) + DaysInYear(y - 1)
  }

  predicate ValidDate(y: int, m: int, d: int) {
    0 <= y < 10000 && 1 <= m <= 12 && 1 <= d <= DaysInMonth(y, m)
  }

  /** The number of a date in a count of days: consecutive dates have consecutive serials. */
  function Serial(y: nat, m: int, d: int): int
    requires 1 <= m <= 12
  {
    DaysBeforeYear(y) + DaysBeforeMonth(y, m) + d
  }

  /** The twelve months fill the year. */
  lemma MonthsFillYear(y: int)
    ensures DaysBeforeMonth(y, 12) + 31 == DaysInYear(y)
  {
    assert DaysBeforeMonth(y, 2) == 31;
    assert DaysBeforeMonth(y, 3) == 31 + DaysInMonth(y, 2);
    assert DaysBeforeMonth(y, 4) == DaysBeforeMonth(y, 3) + 31;
    assert DaysBeforeMonth(y, 5) == DaysBeforeMonth(y, 4) + 30;
    assert DaysBeforeMonth(y, 6) == DaysBeforeMonth(y, 5) + 31;
    assert DaysBeforeMonth(y, 7) == DaysBeforeMonth(y, 6) + 30;
    assert DaysBeforeMonth(y, 8) == DaysBeforeMonth(y, 7) + 31;
    assert DaysBeforeMonth(y, 9) == DaysBeforeMonth(y, 8) + 31;
    assert DaysBeforeMonth(y, 10) == DaysBeforeMonth(y, 9) + 30;
    assert DaysBeforeMonth(y, 11) == DaysBeforeMonth(y, 10) + 31;
    assert DaysBeforeMonth(y, 12) == DaysBeforeMonth(y, 11) + 30;
  }

  // ---------------------------------------------------------------------------
  // The 31-day assumption against the calendar
  // ---------------------------------------------------------------------------

  /** `calculateGridPosition` of two formatted dates works on their fields. */
  lemma GridOfFormatted(y1: nat, m1: nat, d1: nat, y2: nat, m2: nat, d2: nat)
    requires y1 < 10000 && m1 < 100 && d1 < 100 && y2 < 10000 && m2 < 100 && d2 < 100
    ensures CalculateGridPosition(FormatDate(y1, m1, d1), FormatDate(y2, m2, d2))
            == GridFromFields(DateFields(y1, m1, d1), DateFields(y2, m2, d2))
  {
    ReadFormattedDate(y1, m1, d1);
    ReadFormattedDate(y2, m2, d2);
  }

  lemma SerialNextMonth(y: nat, m: int, a: int, b: int)
    requires 1 <= m < 12
    ensures Serial(y, m + 1, b) - Serial(y, m, a) == DaysInMonth(y, m) + b - a
  {
  }

  lemma SerialYearTurn(y: nat, a: int, b: int)
    ensures Serial(y + 1, 1, b) - Serial(y, 12, a) == 31 + b - a
  {
    MonthsFillYear(y);
    assert DaysBeforeYear(y + 1) == DaysBeforeYear(y) + DaysInYear(y);
  }

  /** Within one month the grid position is the true distance in days plus one; in
      particular a date is at position 1 of the week that starts on it. */
  lemma GridPositionSameMonth(y: nat, m: nat, startDay: nat, day: nat)
    requires ValidDate(y, m, startDay) && ValidDate(y, m, day)
    ensures CalculateGridPosition(FormatDate(y, m, day), FormatDate(y, m, startDay))
            == Serial(y, m, day) - Serial(y, m, startDay) + 1
    ensures CalculateGridPosition(FormatDate(y, m, day), FormatDate(y, m, day)) == 1
  {
    GridOfFormatted(y, m, day, y, m, startDay);
    GridOfFormatted(y, m, day, y, m, day);
  }

  /** Into the next month of the same year, the grid position is off from the true distance
      by exactly the days the week-start month is short of 31: right after a 31-day month,
      3 too far after a 28-day February. */
  lemma GridPositionNextMonth(y: nat, m: nat, startDay: nat, day: nat)
    requires m < 12 && ValidDate(y, m, startDay) && ValidDate(y, m + 1, day)
    ensures CalculateGridPosition(FormatDate(y, m + 1, day), FormatDate(y, m, startDay))
            == Serial(y, m + 1, day) - Serial(y, m, startDay) + 1 + (31 - DaysInMonth(y, m))
  {
    GridOfFormatted(y, m + 1, day, y, m, startDay);
    SerialNextMonth(y, m, startDay, day);
  }

  /** From December into January the grid position is the true distance plus one. */
  lemma GridPositionYearTurn(y: nat, startDay: nat, day: nat)
    requires y + 1 < 10000 && ValidDate(y, 12, startDay) && ValidDate(y + 1, 1, day)
    ensures CalculateGridPosition(FormatDate(y + 1, 1, day), FormatDate(y, 12, startDay))
            == Serial(y + 1, 1, day) - Serial(y, 12, startDay) + 1
  {
    GridOfFormatted(y + 1, 1, day, y, 12, startDay);
    SerialYearTurn(y, startDay, day);
  }

  /** A date in the month before the week start reuses the same-month formula, which puts it
      a whole month later than the true distance. */
  lemma GridPositionPreviousMonth(y: nat, m: nat, startDay: nat, day: nat)
    requires m < 12 && ValidDate(y, m + 1, startDay) && ValidDate(y, m, day)
    ensures CalculateGridPosition(FormatDate(y, m, day), FormatDate(y, m + 1, startDay))
            == Serial(y, m, day) - Serial(y, m + 1, startDay) + 1 + DaysInMonth(y, m)
  {
    GridOfFormatted(y, m, day, y, m + 1, startDay);
    SerialNextMonth(y, m, day, startDay);
  }

  /** Any other pair of months, a year apart or more, or further apart within a year, gives
      the fallback position 1. */
  lemma GridPositionFallback(y1: nat, m1: nat, d1: nat, y2: nat, m2: nat, d2: nat)
    requires y1 < 10000 && m1 < 100 && d1 < 100 && y2 < 10000 && m2 < 100 && d2 < 100
    requires y1 == y2 ==> m1 != m2 && m1 != m2 + 1 && m1 != m2 - 1
    requires !(y2 == y1 - 1 && m2 == 12 && m1 == 1)
    ensures CalculateGridPosition(FormatDate(y1, m1, d1), FormatDate(y2, m2, d2)) == 1
  {
    GridOfFormatted(y1, m1, d1, y2, m2, d2);
  }

  lemma Year2025()
    ensures Pad(2025, 4) == "2025"
  {
    assert Pow10(4) == 10000;
    assert Pad(2, 1) == "2" && Pad(20, 2) == "20" && Pad(202, 3) == "202";
  }

  lemma FormattedExamples()
    ensures FormatDate(2025, 3, 1) == "2025-03-01"
    ensures FormatDate(2025, 2, 24) == "2025-02-24"
  {
    Year2025();
    TwoDigits(3);
    TwoDigits(1);
    TwoDigits(2);
    TwoDigits(24);
    assert DigitChar(0) == '0' && DigitChar(1) == '1' && DigitChar(2) == '2';
    assert DigitChar(3) == '3' && DigitChar(4) == '4';
  }

  /** A week that starts on Monday 24 February 2025 reaches Saturday 1 March on its sixth
      day, but the grid puts that date at position 9. */
  lemma GridPositionAfterFebruary()
    ensures CalculateGridPosition("2025-03-01", "2025-02-24") == 9
    ensures !IsLeapYear(2025) ==> Serial(2025, 3, 1) - Serial(2025, 2, 24) + 1 == 6
  {
    FormattedExamples();
    GridOfFormatted(2025, 3, 1, 2025, 2, 24);
    MarchFirstAfterFebruary24(2025);
  }

  /** In a common year 1 March is the sixth day counted from 24 February. */
  lemma MarchFirstAfterFebruary24(y: nat)
    ensures !IsLeapYear(y) ==> Serial(y, 3, 1) - Serial(y, 2, 24) + 1 == 6
  {
    SerialNextMonth(y, 2, 24, 1);
  }

  /** The day number in grid cell (`week`, `day`) is the true day of the month when the
      week-start month has room for it or has 31 days. */
  lemma CalendarDayAgreesWithCalendar(y: nat, m: nat, startDay: nat, week: nat, day: nat)
    requires m < 12 && ValidDate(y, m, startDay) && week < 2 && day < 7
    requires startDay + 7 * week + day <= DaysInMonth(y, m) || DaysInMonth(y, m) == 31
    ensures var r := CalculateCalendarDay(FormatDate(y, m, startDay), week, day);
      if startDay + 7 * week + day <= DaysInMonth(y, m) then
        ValidDate(y, m, r) && Serial(y, m, r) == Serial(y, m, startDay) + 7 * week + day
      else
        ValidDate(y, m + 1, r) && Serial(y, m + 1, r) == Serial(y, m, startDay) + 7 * week + day
  {
    ReadFormattedDate(y, m, startDay);
    var r := CalculateCalendarDay(FormatDate(y, m, startDay), week, day);
    SerialNextMonth(y, m, startDay, r);
  }

  /** The same for a week starting in December: past the 31st the grid shows January of the
      following year. */
  lemma CalendarDayAgreesAtYearTurn(y: nat, startDay: nat, week: nat, day: nat)
    requires y < 9999 && ValidDate(y, 12, startDay) && week < 2 && day < 7
    ensures var r := CalculateCalendarDay(FormatDate(y, 12, startDay), week, day);
      if startDay + 7 * week + day <= 31 then
        ValidDate(y, 12, r) && Serial(y, 12, r) == Serial(y, 12, startDay) + 7 * week + day
      else
        ValidDate(y + 1, 1, r) && Serial(y + 1, 1, r) == Serial(y, 12, startDay) + 7 * week + day
  {
    assert DaysInMonth(y, 12) == 31;
    ReadFormattedDate(y, 12, startDay);
    var r := CalculateCalendarDay(FormatDate(y, 12, startDay), week, day);
    if startDay + 7 * week + day <= 31 {
      assert r == startDay + 7 * week + day;
    } else {
      assert r == startDay + 7 * week + day - 31;
      SerialYearTurn(y, startDay, r);
    }
  }

  /** The date grid cell `offset` (0-based) shows for a week starting on day `startDay` of
      (`year`, `month`): the day number wraps once past 31 into the following month. */
  function ShownDate(year: nat, month: int, startDay: int, offset: int): (f: DateFields)
    requires 1 <= month <= 12 && 1 <= startDay <= 31 && 0 <= offset <= 31
    ensures 1 <= f.month <= 12 && 1 <= f.day <= 31 && year <= f.year <= year + 1
  {
    if startDay + offset <= 31 then DateFields(year, month, startDay + offset)
    else if month == 12 then DateFields(year + 1, 1, startDay + offset - 31)
    else DateFields(year, month + 1, startDay + offset - 31)
  }

  lemma ShownDateGrid(y: nat, m: int, startDay: int, offset: int)
    requires 1 <= m <= 12 && 1 <= startDay <= 31 && 0 <= offset <= 31
    ensures GridFromFields(ShownDate(y, m, startDay, offset), DateFields(y, m, startDay)) == offset + 1
  {
  }

  /** The two functions number the grid alike: cell (`week`, `day`) shows the day of the
      month of ShownDate, and `calculateGridPosition` places that date back in the same
      cell, `7 * week + day + 1`. This is what makes the "today" highlight land on the cell
      that shows today's date. */
  lemma GridPositionOfCalendarDay(y: nat, m: nat, startDay: nat, week: nat, day: nat)
    requires y + 1 < 10000 && 1 <= m <= 12 && 1 <= startDay <= 31 && week < 2 && day < 7
    ensures var f := ShownDate(y, m, startDay, 7 * week + day);
      && CalculateCalendarDay(FormatDate(y, m, startDay), week, day) == f.day
      && CalculateGridPosition(FormatDate(f.year, f.month, f.day), FormatDate(y, m, startDay)) == 7 * week + day + 1
  {
    ReadFormattedDate(y, m, startDay);
    var f := ShownDate(y, m, startDay, 7 * week + day);
    GridOfFormatted(f.year, f.month, f.day, y, m, startDay);
    ShownDateGrid(y, m, startDay, 7 * week + day);
    assert CalculateCalendarDay(FormatDate(y, m, startDay), week, day) == f.day;
  }
}
