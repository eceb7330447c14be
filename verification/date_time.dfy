/**
 * `parseHADateTime`: the date "YYYY-MM-DD" and the time "HH:MM:SS" of Home Assistant
 * become the fields of a C `struct tm` (ISO C11, section 7.27.1): years since 1900,
 * months from 0, and the day of the week (0 = Sunday) by Zeller's congruence.
 */
module DateTime {
  import opened CppInt
  import opened ArduinoString
  import opened DateArith

  /** The fields of `struct tm` that `parseHADateTime` writes. */
  datatype TmFields = TmFields(
    year: int, mon: int, mday: int, hour: int, min: int, sec: int,
    wday: int, yday: int, isdst: int)

  /** The caller's `struct tm`, written through the pointer. */
  class Tm {
    var tmYear: int
    var tmMon: int
    var tmMday: int
    var tmHour: int
    var tmMin: int
    var tmSec: int
    var tmWday: int
    var tmYday: int
    var tmIsdst: int

    /** `tm timeInfo = {0};` */
    constructor ()
      ensures Fields() == TmFields(0, 0, 0, 0, 0, 0, 0, 0, 0)
    {
      tmYear, tmMon, tmMday, tmHour, tmMin, tmSec := 0, 0, 0, 0, 0, 0;
      tmWday, tmYday, tmIsdst := 0, 0, 0;
    }

    /** Stores every field of `t`. */
    method Write(t: TmFields)
      modifies this
      ensures Fields() == t
    {
      tmYear, tmMon, tmMday := t.year, t.mon, t.mday;
      tmHour, tmMin, tmSec := t.hour, t.min, t.sec;
      tmWday, tmYday, tmIsdst := t.wday, t.yday, t.isdst;
    }

    function Fields(): TmFields
      reads this
    {
      TmFields(tmYear, tmMon, tmMday, tmHour, tmMin, tmSec, tmWday, tmYday, tmIsdst)
    }
  }

  // ---------------------------------------------------------------------------
  // Zeller's congruence, with C's truncating operators
  // ---------------------------------------------------------------------------

  /** `(h + 6) % 7` for `h` a C remainder by 7: `h` lies in -6..6, so `h + 6` is never
      negative and the C remainder is Dafny's. */
  lemma ShiftedRemainder(h: int)
    requires -6 <= h <= 6
    ensures CRem(h + 6, 7) == (h + 6) % 7 && 0 <= CRem(h + 6, 7) <= 6
  {
    NonNegativeDivision(h + 6, 7);
  }

  /** The weekday `parseHADateTime` computes from the year, month and day it read, with
      0 = Sunday. January and February count as months 13 and 14 of the year before. */
  function ZellerWeekday(year0: int, month0: int, day: int): int
  {
    var year := if month0 < 3 then year0 - 1 else year0;
    var month := if month0 < 3 then month0 + 12 else month0;
    Congruence(day, month, year)
  }

  /** The congruence itself, for day `q` of month `m` (3..14) of the shifted `year`, converted
      from 0 = Saturday to 0 = Sunday. */
  function Congruence(q: int, m: int, year: int): int
  {
    var k := CRem(year, 100);
    var j := CDiv(year, 100);
    var h := CRem(q + CDiv(13 * (m + 1), 5) + k + CDiv(k, 4) + CDiv(j, 4) - 2 * j, 7);
    CRem(h + 6, 7)
  }

  /** Whatever was read, the weekday is one of 0..6. */
  lemma ZellerWeekdayRange(year0: int, month0: int, day: int)
    ensures 0 <= ZellerWeekday(year0, month0, day) <= 6
  {
    var year := if month0 < 3 then year0 - 1 else year0;
    var m := if month0 < 3 then month0 + 12 else month0;
    var k := CRem(year, 100);
    var j := CDiv(year, 100);
    var sum := day + CDiv(13 * (m + 1), 5) + k + CDiv(k, 4) + CDiv(j, 4) - 2 * j;
    CRemBounds(sum, 7);
    ShiftedRemainder(CRem(sum, 7));
  }

  // ---------------------------------------------------------------------------
  // The parse
  // ---------------------------------------------------------------------------

  /** The hour, minute and second read from positions 0-1, 3-4 and 6-7. */
  datatype Clock = Clock(hour: int, minute: int, second: int)

  function ReadTime(s: string): Clock {
    Clock(ToInt(Substring(s, 0, 2)), ToInt(Substring(s, 3, 5)), ToInt(Substring(s, 6, 8)))
  }

  /** The `struct tm` fields for a date and a time of day as read. */
  function TmOf(f: DateFields, c: Clock): TmFields {
    TmFields(f.year - 1900, f.month - 1, f.day, c.hour, c.minute, c.second,
             ZellerWeekday(f.year, f.month, f.day), 0, -1)
  }

  /** What `parseHADateTime` writes into the `struct tm` when both strings are long enough. */
  function Parsed(date: string, time: string): TmFields
  {
    TmOf(ReadDate(date), ReadTime(time))
  }

  /** `parseHADateTime(date, time, timeInfo)`: false, with nothing written, when the date is
      shorter than 10 characters or the time shorter than 8; otherwise every field listed in
      TmFields is written and the result is true. */
  method ParseHADateTime(date: string, time: string, timeInfo: Tm) returns (ok: bool)
    modifies timeInfo
    ensures ok <==> |date| >= 10 && |time| >= 8
    ensures !ok ==> unchanged(timeInfo)
    ensures ok ==> timeInfo.Fields() == Parsed(date, time)
  {
    if |date| < 10 || |time| < 8 {
      return false;
    }

    var t := TmOf(ReadDate(date), ReadTime(time));
    timeInfo.Write(t);
    return true;
  }

  // ---------------------------------------------------------------------------
  // The weekday against the calendar
  // ---------------------------------------------------------------------------

  /** The day of the week of a date by counting days, 0 = Sunday: 1 January of year 1 of the
      proleptic Gregorian calendar was a Monday. */
  function Weekday(y: nat, m: int, d: int): int
    requires 1 <= m <= 12
  {
    (Serial(y, m, d) - Serial(1, 1, 1) + 1) % 7
  }

  /** The year part of Zeller's sum for the (shifted) year `y`: `K + K/4 + J/4 - 2J`. */
  function YearTerm(y: nat): int {
    y % 100 + (y % 100) / 4 + (y / 100) / 4 - 2 * (y / 100)
  }

  /** The month part of Zeller's sum, `13 * (m + 1) / 5`, for a date in month `m`, with January
      and February counted as months 13 and 14. */
  function MonthTerm(m: int): int
    requires 1 <= m <= 12
  {
    var mm := if m < 3 then m + 12 else m;
    (13 * (mm + 1)) / 5
  }

  /** How far Zeller's sum for the first of month `m` of `y` is ahead of the day count. */
  function Offset(y: nat, m: int): int
    requires y >= 1 && 1 <= m <= 12
  {
    YearTerm(if m < 3 then y - 1 else y) + MonthTerm(m) - DaysBeforeYear(y) - DaysBeforeMonth(y, m)
  }

  lemma DivisionUnique(a: int, b: int, q: int, r: int)
    requires b > 0 && 0 <= r < b && a == q * b + r
    ensures a / b == q && a % b == r
  {
    var q', r' := a / b, a % b;
    assert a == q' * b + r' && 0 <= r' < b;
    assert (q - q') * b == r' - r;
    if q > q' {
      MulAtLeast(q - q', b);
    } else if q < q' {
      MulAtLeast(q' - q, b);
    }
  }

  lemma MultipleOf7Sum(a: int, b: int)
    requires a % 7 == 0 && b % 7 == 0
    ensures (a + b) % 7 == 0
  {
    DivisionUnique(a + b, 7, a / 7 + b / 7, 0);
  }

  /** From one year to the next, the year part grows by one day, two into a leap year
      (whose 29 February lies between the two March starts of Zeller's years). */
  lemma YearTermStep(y: nat)
    requires y >= 1
    ensures (YearTerm(y) - YearTerm(y - 1) - 1 - (if IsLeapYear(y) then 1 else 0)) % 7 == 0
  {
    var j, k := y / 100, y % 100;
    DivisionUnique(y, 4, 25 * j + k / 4, k % 4);
    if k != 0 {
      DivisionUnique(y - 1, 100, j, k - 1);
      DivisionUnique(k - 1, 4, if k % 4 == 0 then k / 4 - 1 else k / 4, if k % 4 == 0 then 3 else k % 4 - 1);
      assert YearTerm(y) - YearTerm(y - 1) - 1 - (if IsLeapYear(y) then 1 else 0) == 0;
    } else {
      assert j >= 1;
      DivisionUnique(y - 1, 100, j - 1, 99);
      DivisionUnique(y, 400, j / 4, 100 * (j % 4));
      DivisionUnique(j - 1, 4, if j % 4 == 0 then j / 4 - 1 else j / 4, if j % 4 == 0 then 3 else j % 4 - 1);
      assert YearTerm(y) - YearTerm(y - 1) - 1 - (if IsLeapYear(y) then 1 else 0) == -126;
      DivisionUnique(-126, 7, -18, 0);
    }
  }

  /** Zeller's sum and the day count advance alike from one month to the next. */
  lemma OffsetStep(y: nat, m: int)
    requires y >= 1 && 1 <= m < 12
    ensures (Offset(y, m + 1) - Offset(y, m)) % 7 == 0
  {
    if m == 2 {
      FebruaryStep(y);
    } else {
      MonthStep(y, m);
    }
  }

  /** Into March Zeller's year changes: the year part grows by one day plus a leap day,
      the count by the days of February. */
  lemma FebruaryStep(y: nat)
    requires y >= 1
    ensures (Offset(y, 3) - Offset(y, 2)) % 7 == 0
  {
    YearTermStep(y);
    assert DaysBeforeMonth(y, 3) == DaysBeforeMonth(y, 2) + DaysInMonth(y, 2);
    assert Offset(y, 3) - Offset(y, 2) == YearTerm(y) - YearTerm(y - 1) - 29 - DaysInMonth(y, 2);
    var x := YearTerm(y) - YearTerm(y - 1) - 1 - (if IsLeapYear(y) then 1 else 0);
    assert Offset(y, 3) - Offset(y, 2) == x + (-56);
    MultipleOf7Sum(x, -56);
  }

  /** Within Zeller's year the month part grows by the length of the month, modulo 7. */
  lemma MonthStep(y: nat, m: int)
    requires y >= 1 && 1 <= m < 12 && m != 2
    ensures (Offset(y, m + 1) - Offset(y, m)) % 7 == 0
  {
    assert Offset(y, m + 1) - Offset(y, m) == MonthTerm(m + 1) - MonthTerm(m) - DaysInMonth(y, m) by {
      assert DaysBeforeMonth(y, m + 1) == DaysBeforeMonth(y, m) + DaysInMonth(y, m);
    }
    MonthTermStep(y, m);
  }

  lemma MonthTermStep(y: int, m: int)
    requires 1 <= m < 12 && m != 2
    ensures (MonthTerm(m + 1) - MonthTerm(m) - DaysInMonth(y, m)) % 7 == 0
  {
    assert MonthTerm(1) == 36 && MonthTerm(3) == 10 && MonthTerm(4) == 13;
    assert MonthTerm(5) == 15 && MonthTerm(6) == 18 && MonthTerm(7) == 20 && MonthTerm(8) == 23;
    assert MonthTerm(9) == 26 && MonthTerm(10) == 28 && MonthTerm(11) == 31 && MonthTerm(12) == 33;
  }

  /** ... and from December into January. */
  lemma OffsetYearStep(y: nat)
    requires y >= 1
    ensures Offset(y + 1, 1) - Offset(y, 12) == -28
  {
    MonthsFillYear(y);
    assert MonthTerm(1) == 36 && MonthTerm(12) == 33;
  }

  /** For every month the offset leaves the same remainder by 7 as in January of year 1,
      where it is -330. */
  lemma {:induction false} OffsetConstant(y: nat, m: int)
    requires y >= 1 && 1 <= m <= 12
    ensures (Offset(y, m) + 330) % 7 == 0
    decreases y, m
  {
    if m > 1 {
      OffsetConstant(y, m - 1);
      NextMonthOffset(y, m - 1);
    } else if y > 1 {
      OffsetConstant(y - 1, 12);
      NextYearOffset(y - 1);
    } else {
      YearOne();
    }
  }

  lemma NextMonthOffset(y: nat, m: int)
    requires y >= 1 && 1 <= m < 12
    requires (Offset(y, m) + 330) % 7 == 0
    ensures (Offset(y, m + 1) + 330) % 7 == 0
  {
    OffsetStep(y, m);
    StepBy7(Offset(y, m), Offset(y, m + 1));
  }

  lemma NextYearOffset(y: nat)
    requires y >= 1
    requires (Offset(y, 12) + 330) % 7 == 0
    ensures (Offset(y + 1, 1) + 330) % 7 == 0
  {
    OffsetYearStep(y);
    StepBy7(Offset(y, 12), Offset(y + 1, 1));
  }

  lemma StepBy7(a: int, b: int)
    requires (a + 330) % 7 == 0 && (b - a) % 7 == 0
    ensures (b + 330) % 7 == 0
  {
    MultipleOf7Sum(a + 330, b - a);
  }

  /** Adding a multiple of 7 keeps the remainder by 7. */
  lemma SameRemainder(a: int, b: int)
    requires (a - b) % 7 == 0
    ensures a % 7 == b % 7
  {
    DivisionUnique(a, 7, b / 7 + (a - b) / 7, b % 7);
  }

  /** The C remainder by 7, shifted by 6 and reduced again, is the plain remainder of the
      shifted sum. */
  lemma ShiftedSum(sum: int)
    ensures CRem(CRem(sum, 7) + 6, 7) == (sum + 6) % 7
  {
    CRemBounds(sum, 7);
    var h := CRem(sum, 7);
    ShiftedRemainder(h);
    DivisionUnique((sum + 6) - (h + 6), 7, CDiv(sum, 7), 0);
    SameRemainder(sum + 6, h + 6);
  }

  /** For a date from year 1 on every C operator in Zeller's congruence sees a
      non-negative operand except the last two remainders. */
  lemma ZellerOperands(y: nat, m: int, d: int)
    requires y >= 1 && 1 <= m <= 12
    ensures ZellerWeekday(y, m, d)
      == CRem(CRem(d + MonthTerm(m) + YearTerm(if m < 3 then y - 1 else y), 7) + 6, 7)
  {
    var mm := if m < 3 then m + 12 else m;
    CongruenceOperands(d, mm, if m < 3 then y - 1 else y);
  }

  lemma CongruenceOperands(q: int, m: nat, year: nat)
    ensures Congruence(q, m, year) == CRem(CRem(q + (13 * (m + 1)) / 5 + YearTerm(year), 7) + 6, 7)
  {
    NonNegativeDivision(year, 100);
    NonNegativeDivision(year % 100, 4);
    NonNegativeDivision(year / 100, 4);
    NonNegativeDivision(13 * (m + 1), 5);
  }

  /** The weekday is the plain sum plus 6, modulo 7. */
  lemma ZellerSum(y: nat, m: int, d: int)
    requires y >= 1 && 1 <= m <= 12
    ensures ZellerWeekday(y, m, d) == (d + MonthTerm(m) + YearTerm(if m < 3 then y - 1 else y) + 6) % 7
  {
    ZellerOperands(y, m, d);
    ShiftedSum(d + MonthTerm(m) + YearTerm(if m < 3 then y - 1 else y));
  }

  /** Zeller's congruence with C's operators gives the true day of the week for every date
      from year 1 on. */
  lemma ZellerIsWeekday(y: nat, m: int, d: int)
    requires y >= 1 && ValidDate(y, m, d)
    ensures ZellerWeekday(y, m, d) == Weekday(y, m, d)
  {
    ZellerSum(y, m, d);
    OffsetConstant(y, m);
    SumIsSerialPlusOffset(y, m, d);
    SerialWeekday(y, m, d);
    WeekdayFromOffset(d + MonthTerm(m) + YearTerm(if m < 3 then y - 1 else y), Serial(y, m, d), Offset(y, m));
  }

  /** 0001-01-01, day 367 of the count, was a Monday. */
  lemma SerialWeekday(y: nat, m: int, d: int)
    requires 1 <= m <= 12
    ensures Weekday(y, m, d) == (Serial(y, m, d) + 5) % 7
  {
    SerialOfYearOne();
    SameRemainder(Serial(y, m, d) - 367 + 1, Serial(y, m, d) + 5);
  }

  /** Zeller's sum plus 6 and the day count plus 5 leave the same remainder by 7 when the
      offset between them is -330 plus a multiple of 7. */
  lemma WeekdayFromOffset(sum: int, serial: int, offset: int)
    requires sum == serial + offset && (offset + 330) % 7 == 0
    ensures (sum + 6) % 7 == (serial + 5) % 7
  {
    MultipleOf7Sum(offset + 330, -329);
    SameRemainder(sum + 6, serial + 5);
  }

  /** Zeller's sum for a date is the day count of that date plus the offset of its month. */
  lemma SumIsSerialPlusOffset(y: nat, m: int, d: int)
    requires y >= 1 && 1 <= m <= 12
    ensures d + MonthTerm(m) + YearTerm(if m < 3 then y - 1 else y) == Serial(y, m, d) + Offset(y, m)
  {
  }

  /** 0001-01-01: the day count starts at 367 (year 0 is a leap year) and Zeller's sum
      is 330 behind it. */
  lemma YearOne()
    ensures Offset(1, 1) == -330
  {
    YearZero();
    OffsetOfYearOne();
  }

  lemma SerialOfYearOne()
    ensures Serial(1, 1, 1) == 367
  {
    YearZero();
  }

  lemma YearZero()
    ensures YearTerm(0) == 0 && DaysBeforeYear(1) == 366
  {
  }

  lemma OffsetOfYearOne()
    ensures Offset(1, 1) == YearTerm(0) + MonthTerm(1) - DaysBeforeYear(1) - DaysBeforeMonth(1, 1)
  {
  }

  // ---------------------------------------------------------------------------
  // Reading back what is written
  // ---------------------------------------------------------------------------

  /** The "HH:MM:SS" text of a time of day. */
  function FormatTime(hour: nat, minute: nat, second: nat): (s: string)
    requires hour < 100 && minute < 100 && second < 100
    ensures |s| == 8 && s[2] == ':' && s[5] == ':'
  {
    assert Pow10(2) == 100;
    Pad(hour, 2) + ":" + Pad(minute, 2) + ":" + Pad(second, 2)
  }

  lemma ReadFormattedTime(hour: nat, minute: nat, second: nat)
    requires hour < 100 && minute < 100 && second < 100
    ensures ReadTime(FormatTime(hour, minute, second)) == Clock(hour, minute, second)
  {
    assert Pow10(2) == 100;
    var s := FormatTime(hour, minute, second);
    assert Substring(s, 0, 2) == Pad(hour, 2) + "";
    assert Substring(s, 3, 5) == Pad(minute, 2) + "";
    assert Substring(s, 6, 8) == Pad(second, 2) + "";
    PadValue(hour, 2);
    PadValue(minute, 2);
    PadValue(second, 2);
    ToIntOfDigits(Pad(hour, 2), "");
    ToIntOfDigits(Pad(minute, 2), "");
    ToIntOfDigits(Pad(second, 2), "");
  }

  /** A well-formed date and time parse to the `struct tm` of that moment: years since 1900,
      months from 0, the day, the clock, the true day of the week, no day of the year and an
      unknown daylight-saving flag. */
  lemma ParsedFormatted(y: nat, m: nat, d: nat, hour: nat, minute: nat, second: nat)
    requires y >= 1 && ValidDate(y, m, d) && hour < 100 && minute < 100 && second < 100
    ensures Parsed(FormatDate(y, m, d), FormatTime(hour, minute, second))
      == TmFields(y - 1900, m - 1, d, hour, minute, second, Weekday(y, m, d), 0, -1)
  {
    ReadFormattedDate(y, m, d);
    ReadFormattedTime(hour, minute, second);
    ZellerIsWeekday(y, m, d);
  }

  lemma NewYearsEveText()
    ensures FormatDate(2024, 12, 31) == "2024-12-31"
  {
    Year2024();
    TwoDigits(12);
    TwoDigits(31);
    assert DigitChar(1) == '1' && DigitChar(2) == '2' && DigitChar(3) == '3';
  }

  lemma Year2024()
    ensures Pad(2024, 4) == "2024"
  {
    assert Pow10(4) == 10000;
    assert Pad(2, 1) == "2" && Pad(20, 2) == "20" && Pad(202, 3) == "202";
  }

  lemma MidnightEveText()
    ensures FormatTime(23, 59, 59) == "23:59:59"
  {
    TwoDigits(23);
    TwoDigits(59);
    assert DigitChar(2) == '2' && DigitChar(3) == '3' && DigitChar(5) == '5' && DigitChar(9) == '9';
  }

  /** "2024-12-31" at "23:59:59" is year 124, month 11, day 31, 23:59:59. */
  lemma ParsedNewYearsEve()
    ensures var t := Parsed("2024-12-31", "23:59:59");
      t.year == 124 && t.mon == 11 && t.mday == 31 && t.hour == 23 && t.min == 59 && t.sec == 59
  {
    NewYearsEveText();
    MidnightEveText();
    ReadFormattedDate(2024, 12, 31);
    ReadFormattedTime(23, 59, 59);
  }

  /** 9 January 2025 was a Thursday, 6 January a Monday and 5 January a Sunday. */
  lemma WeekdayExamples()
    ensures ZellerWeekday(2025, 1, 9) == 4
    ensures ZellerWeekday(2025, 1, 6) == 1
    ensures ZellerWeekday(2025, 1, 5) == 0
  {
    January2025(9);
    January2025(6);
    January2025(5);
  }

  lemma January2025(q: int)
    requires 1 <= q <= 31
    ensures ZellerWeekday(2025, 1, q) == (q + 37) % 7
  {
    assert CRem(2024, 100) == 24 && CDiv(2024, 100) == 20;
    assert CDiv(13 * 14, 5) == 36 && CDiv(24, 4) == 6 && CDiv(20, 4) == 5;
    NonNegativeDivision(q + 31, 7);
    ShiftedRemainder(CRem(q + 31, 7));
    NonNegativeDivision(CRem(q + 31, 7) + 6, 7);
  }
}
