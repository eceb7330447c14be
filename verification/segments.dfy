/**
 * Step 2 of `drawCalendar`: a multi-day event becomes one bar in the week row it starts in,
 * cut at the end of that week, plus a continuation bar at the start of the second week when
 * it starts in the first week and runs on. Bars are described in grid units: week row,
 * first day column, number of day columns, and the event's row among the multi-day bars.
 * `dayWidth` is the configured DAY_WIDTH.
 */
module Segments {
  import opened CppInt
  import opened ArduinoString
  import opened Events

  /** One drawn bar. `isStart` and `isEnd` say whether its left and right ends are rounded;
      `red` whether it is drawn in the highlight colour. */
  datatype Bar = Bar(week: int, column: int, days: int, row: int, title: string,
                     isStart: bool, isEnd: bool, red: bool)

  function Min(a: int, b: int): int {
    if a <= b then a else b
  }

  /** `totalAvailableChars`: the characters a span of `daysInCalendar` days has room for, at
      7 pixels per character. */
  function TotalAvailableChars(daysInCalendar: int, dayWidth: int): int {
    CDiv(daysInCalendar * dayWidth - 6, 7)
  }

  /** The title shown on the first bar. The length test is the unsigned comparison of
      `String::length()` with the converted `int`, and the cut position is converted to
      `unsigned int` as `substring` takes it. */
  function TruncatedTitle(title: string, totalAvailableChars: int): string {
    if |title| > U32(totalAvailableChars) then
      Substring(title, 0, U32(totalAvailableChars - 3)) + "..."
    else title
  }

  /** A title that fits the span is kept; so is every title when the span has a negative
      character budget (the unsigned comparison makes that budget huge). The budget is a
      32-bit `int`. */
  lemma TitleKept(title: string, totalAvailableChars: int)
    requires -0x8000_0000 <= totalAvailableChars < 0x8000_0000 && |title| <= 0x8000_0000
    requires |title| <= totalAvailableChars || totalAvailableChars < 0
    ensures TruncatedTitle(title, totalAvailableChars) == title
  {
    if totalAvailableChars < 0 {
      assert U32(totalAvailableChars) == totalAvailableChars + TWO_32;
    }
  }

  /** A longer title becomes its first `totalAvailableChars - 3` characters and "...", which
      is exactly as long as the budget. */
  lemma TitleTruncated(title: string, totalAvailableChars: int)
    requires 3 <= totalAvailableChars < |title| < TWO_32
    ensures TruncatedTitle(title, totalAvailableChars) == title[..totalAvailableChars - 3] + "..."
    ensures |TruncatedTitle(title, totalAvailableChars)| == totalAvailableChars
  {
  }

  /** With a budget of 0 to 2 characters the cut position `totalAvailableChars - 3` is
      negative; as an `unsigned int` it lies past the end, so the whole title is kept and
      "..." is appended, making it longer than before. */
  lemma TinyBudgetLengthens(title: string, totalAvailableChars: int)
    requires 0 <= totalAvailableChars < 3 && totalAvailableChars < |title| <= TWO_32 - 3
    ensures TruncatedTitle(title, totalAvailableChars) == title + "..."
  {
    assert U32(totalAvailableChars - 3) == totalAvailableChars - 3 + TWO_32;
  }

  /** The bars `drawCalendar` draws for event `e`, whose row is `row`, when today is day
      `currentDayNumber` of the window. */
  function MultiDayBars(e: CalendarEvent, row: int, dayWidth: int, currentDayNumber: int): seq<Bar>
  {
    if !e.isMultiDay then []
    else
      var startWeek := CDiv(e.startDay - 1, 7);
      var startDayInWeek := CRem(e.startDay - 1, 7);
      if startWeek >= 2 then []
      else
        var daysInCalendar := Min(e.endDay, 14) - e.startDay + 1;
        var daysInFirstWeek := Min(daysInCalendar, 7 - startDayInWeek);
        var title := TruncatedTitle(e.title, TotalAvailableChars(daysInCalendar, dayWidth));
        var isEnd := e.endDay <= e.startDay + daysInFirstWeek - 1;
        var red := currentDayNumber >= e.startDay && currentDayNumber <= e.endDay;
        var first := Bar(startWeek, startDayInWeek, daysInFirstWeek, row, title, true, isEnd, red);
        if daysInCalendar > daysInFirstWeek && startWeek == 0 then
          [first, Bar(1, 0, daysInCalendar - daysInFirstWeek, row, "", false, true, red)]
        else [first]
  }

  /** Window day `d` (1 to 14) lies under bar `b`. */
  predicate InBar(b: Bar, d: int) {
    b.week * 7 + b.column < d <= b.week * 7 + b.column + b.days
  }

  predicate Covered(bars: seq<Bar>, d: int) {
    exists k :: 0 <= k < |bars| && InBar(bars[k], d)
  }

  /** A multi-day event starting in the window, in day order. */
  predicate Drawable(e: CalendarEvent) {
    e.isMultiDay && 1 <= e.startDay <= e.endDay && e.startDay <= 14
  }

  lemma WeekAndColumn(startDay: int)
    requires 1 <= startDay <= 14
    ensures CDiv(startDay - 1, 7) == (startDay - 1) / 7 && CRem(startDay - 1, 7) == (startDay - 1) % 7
    ensures startDay <= 7 ==> CDiv(startDay - 1, 7) == 0 && CRem(startDay - 1, 7) == startDay - 1
    ensures startDay > 7 ==> CDiv(startDay - 1, 7) == 1 && CRem(startDay - 1, 7) == startDay - 8
  {
    NonNegativeDivision(startDay - 1, 7);
  }

  /** The bars of an event starting in the window cover exactly its days within the window;
      there are one or two of them, each inside one week row, the first starting at the start
      day, a second one only from the first day of the second week. Only non-multi-day events
      and events starting after the window get none. */
  lemma BarsCoverVisibleDays(e: CalendarEvent, row: int, dayWidth: int, today: int)
    requires Drawable(e)
    ensures var bars := MultiDayBars(e, row, dayWidth, today);
      && 1 <= |bars| <= 2
      && (forall k :: 0 <= k < |bars| ==>
            0 <= bars[k].week <= 1 && 0 <= bars[k].column && 1 <= bars[k].days
            && bars[k].column + bars[k].days <= 7 && bars[k].row == row)
      && bars[0].week * 7 + bars[0].column + 1 == e.startDay && bars[0].isStart
      && (|bars| == 2 ==> bars[1].week == 1 && bars[1].column == 0 && !bars[1].isStart)
      && (forall d :: Covered(bars, d) <==> e.startDay <= d <= Min(e.endDay, 14))
  {
    WeekAndColumn(e.startDay);
    var bars := MultiDayBars(e, row, dayWidth, today);
    forall d | e.startDay <= d <= Min(e.endDay, 14) ensures Covered(bars, d) {
      if InBar(bars[0], d) {
      } else {
        assert InBar(bars[1], d);
      }
    }
  }

  /** The continuation is drawn exactly for an event that starts in the first week and runs
      into the second. */
  lemma ContinuationExactly(e: CalendarEvent, row: int, dayWidth: int, today: int)
    requires Drawable(e)
    ensures |MultiDayBars(e, row, dayWidth, today)| == 2 <==> e.startDay <= 7 < e.endDay
  {
    WeekAndColumn(e.startDay);
  }

  /** The first bar has a rounded right end exactly when the event ends in the week row it
      starts in, inside the window; a continuation always has one, even for an event that
      goes on past the window. */
  lemma EndRoundedExactly(e: CalendarEvent, row: int, dayWidth: int, today: int)
    requires Drawable(e)
    ensures var bars := MultiDayBars(e, row, dayWidth, today);
      && (bars[0].isEnd <==> e.endDay <= 14 && (e.endDay - 1) / 7 == (e.startDay - 1) / 7)
      && (|bars| == 2 ==> bars[1].isEnd)
  {
    WeekAndColumn(e.startDay);
    NonNegativeDivision(e.endDay - 1, 7);
  }

  /** Both bars are red exactly when today lies within the event's days, the days past the
      window included. */
  lemma RedExactly(e: CalendarEvent, row: int, dayWidth: int, today: int)
    requires Drawable(e)
    ensures forall b :: b in MultiDayBars(e, row, dayWidth, today) ==>
      (b.red <==> e.startDay <= today <= e.endDay)
  {
    WeekAndColumn(e.startDay);
  }

  /** The first bar carries the title cut to the whole visible span's budget; a continuation
      carries none. */
  lemma BarTitles(e: CalendarEvent, row: int, dayWidth: int, today: int)
    requires Drawable(e)
    ensures var bars := MultiDayBars(e, row, dayWidth, today);
      && bars[0].title == TruncatedTitle(e.title, TotalAvailableChars(Min(e.endDay, 14) - e.startDay + 1, dayWidth))
      && (|bars| == 2 ==> bars[1].title == "")
  {
    WeekAndColumn(e.startDay);
  }

  /** Events that are not multi-day, and multi-day events starting after the window, get no bar. */
  lemma NoBars(e: CalendarEvent, row: int, dayWidth: int, today: int)
    requires !e.isMultiDay || e.startDay > 14
    ensures MultiDayBars(e, row, dayWidth, today) == []
  {
    if e.isMultiDay {
      CDivTruncates(e.startDay - 1, 7);
    }
  }
}
