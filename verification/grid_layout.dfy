/**
 * `drawCalendar`: the two-week grid. The header highlights today's weekday; every multi-day
 * event starting in the window gets a row and is drawn as bars (RowAssignment, Segments);
 * then each of the 14 day cells gets its day of the month, today's highlight, the depth of
 * the multi-day bars crossing it, and its single-day events sorted by start time (DaySort)
 * and stacked as cards under the bars (Stacking).
 *
 * The layout constants of the build configuration that decisions depend on (DAY_WIDTH,
 * ROW_HEIGHT and the card geometry) are parameters; pixel offsets that only place drawing
 * calls (header height, margins, font offsets) are left out, so card positions are measured
 * from the top of the cell's week row.
 */
module GridLayout {
  import opened CppInt
  import opened Events
  import opened DateArith
  import opened RowAssignment
  import opened DaySort
  import opened Stacking
  import opened Segments

  datatype GridConfig = GridConfig(dayWidth: int, rowHeight: int, cards: CardConfig)

  predicate ValidGrid(g: GridConfig) {
    g.dayWidth > 0 && g.rowHeight > 0 && ValidConfig(g.cards)
  }

  /** The cell's own reservations (the locals `dayNumberMargin` and the factor 30 of
      `drawCalendar`): the space kept above the cards for the day number, and the height
      reserved for one multi-day row. */
  const CELL_MARGIN: int := 25
  const MULTI_DAY_ROW: int := 30

  // ---------------------------------------------------------------------------
  // Today
  // ---------------------------------------------------------------------------

  /** `currentWeekday`: the header column drawn red, by C's remainder. */
  function TodayColumn(currentDayNumber: int): int {
    CRem(currentDayNumber - 1, 7)
  }

  /** Inside the window the header column drawn red is the column of today's cell, in
      whichever week it lies. */
  lemma HeaderMatchesToday(currentDayNumber: int, day: int)
    requires 1 <= currentDayNumber <= 14 && 0 <= day < 7
    ensures day == TodayColumn(currentDayNumber) <==>
      exists week :: 0 <= week < 2 && week * 7 + day + 1 == currentDayNumber
  {
    NonNegativeDivision(currentDayNumber - 1, 7);
    if day == TodayColumn(currentDayNumber) {
      var week := (currentDayNumber - 1) / 7;
      assert week * 7 + day + 1 == currentDayNumber;
    }
  }

  /** Outside the window (where no cell is today) the header still highlights a column for
      every later day, and for an earlier day that is a whole number of weeks before the
      window's first day. */
  lemma HeaderOutsideWindow(currentDayNumber: int)
    requires currentDayNumber > 14 || (currentDayNumber <= 0 && (1 - currentDayNumber) % 7 == 0)
    ensures 0 <= TodayColumn(currentDayNumber) < 7
  {
    CRemBounds(currentDayNumber - 1, 7);
    if currentDayNumber <= 0 {
      var q := (1 - currentDayNumber) / 7;
      assert currentDayNumber - 1 == -q * 7;
      assert CDiv(currentDayNumber - 1, 7) == -q;
    }
  }

  // ---------------------------------------------------------------------------
  // Multi-day depth of a cell
  // ---------------------------------------------------------------------------

  /** Event `i` is a multi-day event whose days include day `d`. */
  predicate CrossesDay(events: seq<CalendarEvent>, i: int, d: int)
    requires 0 <= i < |events|
  {
    events[i].isMultiDay && d >= events[i].startDay && d <= events[i].endDay
  }

  /** `multiDayCount`: one more than the highest row of a multi-day event crossing day `d`,
      or 0 when none has a row. */
  method MultiDayDepth(events: seq<CalendarEvent>, rows: seq<int>, d: int) returns (multiDayCount: int)
    requires |rows| == |events|
    ensures CellDepth(events, rows, d, multiDayCount)
  {
    multiDayCount := 0;
    var i := 0;
    while i < |events|
      invariant 0 <= i <= |events| && multiDayCount >= 0
      invariant forall k :: 0 <= k < i && CrossesDay(events, k, d) ==> rows[k] + 1 <= multiDayCount
      invariant multiDayCount == 0 || exists k :: 0 <= k < i && CrossesDay(events, k, d) && rows[k] + 1 == multiDayCount
    {
      if events[i].isMultiDay && d >= events[i].startDay && d <= events[i].endDay {
        if rows[i] + 1 > multiDayCount {
          multiDayCount := rows[i] + 1;
        }
      }
      i := i + 1;
    }
  }

  /** With rows from the placement, the depth of a cell is below the number of events plus
      one, and every bar crossing the cell lies in a row above the cards. */
  lemma DepthBound(events: seq<CalendarEvent>, rows: seq<int>, d: int, depth: int)
    requires ValidRows(events, rows)
    requires depth == 0 || exists i :: 0 <= i < |events| && CrossesDay(events, i, d) && rows[i] + 1 == depth
    ensures 0 <= depth <= |events|
  {
    RowsInRange(events, rows);
  }

  /** `availableHeight` of the cell. */
  function AvailableHeight(g: GridConfig, depth: int): int {
    g.rowHeight - CELL_MARGIN - depth * MULTI_DAY_ROW
  }

  // ---------------------------------------------------------------------------
  // One day cell
  // ---------------------------------------------------------------------------

  /** What is drawn in one day cell: the day of the month, the highlight, the multi-day
      depth, the single-day events in drawing order, the cards shown and the overflow label
      ("" when there is none). */
  datatype DayCell = DayCell(dayNumber: int, today: bool, depth: int, order: seq<int>,
                             cards: seq<Card>, overflow: string)

  /** The day of the month shown in cell `(week, day)` and whether the cell is today's. */
  predicate CellDate(weekStartDay: int, currentDayNumber: int, week: int, day: int, cell: DayCell) {
    && cell.dayNumber == CalendarDayFrom(weekStartDay, week, day)
    && (cell.today <==> week * 7 + day + 1 == currentDayNumber)
  }

  /** The depth of cell day `d`: one more than the highest row crossing it, 0 when none has
      a row. */
  predicate CellDepth(events: seq<CalendarEvent>, rows: seq<int>, d: int, depth: int)
    requires |rows| == |events|
  {
    && depth >= 0
    && (forall i :: 0 <= i < |events| && CrossesDay(events, i, d) ==> rows[i] + 1 <= depth)
    && (depth == 0 || exists i :: 0 <= i < |events| && CrossesDay(events, i, d) && rows[i] + 1 == depth)
  }

  /** The single-day events of day `d`, each once, in stable start-time order. */
  predicate CellOrder(events: seq<CalendarEvent>, d: int, order: seq<int>) {
    && multiset(order) == multiset(DayIndices(events, d))
    && ValidIndices(events, order) && TimeSorted(events, order)
    && EqualTimesInListOrder(events, order)
  }

  /** The cards and the overflow label of a cell with the given depth and event order. */
  predicate CellCards(g: GridConfig, depth: int, order: seq<int>, cards: seq<Card>, overflow: string)
    requires ValidGrid(g)
  {
    var shown := EventsToShow(|order|, AvailableHeight(g, depth), g.cards);
    && |cards| == shown
    && (forall k :: 0 <= k < shown ==>
          && cards[k].event == order[k]
          && cards[k].y == CELL_MARGIN + depth * MULTI_DAY_ROW + k * g.cards.spacing
          && (cards[k].singleLine <==> k == shown - 1 && shown < |order|)
          && cards[k].height == (if cards[k].singleLine then g.cards.reducedHeight else g.cards.height))
    && overflow == (if shown < |order| then OverflowLabel(|order|, shown) else "")
  }

  /** Cell `(week, day)` as `drawCalendar` draws it, given the rows of step 1. */
  predicate IsCell(events: seq<CalendarEvent>, rows: seq<int>, weekStartDay: int,
                   currentDayNumber: int, g: GridConfig, week: int, day: int, cell: DayCell)
    requires ValidGrid(g) && |rows| == |events|
  {
    && CellDate(weekStartDay, currentDayNumber, week, day, cell)
    && CellDepth(events, rows, week * 7 + day + 1, cell.depth)
    && CellOrder(events, week * 7 + day + 1, cell.order)
    && CellCards(g, cell.depth, cell.order, cell.cards, cell.overflow)
  }

  /** The body of the per-day loop of step 3, with the corrected card count. */
  method DrawDay(events: seq<CalendarEvent>, rows: seq<int>, weekStartDay: int,
                 currentDayNumber: int, g: GridConfig, week: int, day: int) returns (cell: DayCell)
    requires ValidGrid(g) && |rows| == |events|
    requires |DayIndices(events, week * 7 + day + 1)| <= SLOTS
    ensures IsCell(events, rows, weekStartDay, currentDayNumber, g, week, day, cell)
  {
    var dayNumber := CalendarDayFrom(weekStartDay, week, day);
    var multiDayCount := MultiDayDepth(events, rows, week * 7 + day + 1);
    var order := CellEvents(events, week * 7 + day + 1);
    var cards, overflow := StackCell(g, multiDayCount, order);
    cell := DayCell(dayNumber, week * 7 + day + 1 == currentDayNumber, multiDayCount, order, cards, overflow);
    CellFromParts(events, rows, weekStartDay, currentDayNumber, g, week, day, cell);
  }

  /** The single-day events of the cell's day, collected and sorted. */
  method CellEvents(events: seq<CalendarEvent>, d: int) returns (order: seq<int>)
    requires |DayIndices(events, d)| <= SLOTS
    ensures CellOrder(events, d, order)
  {
    order := SortedDayEvents(events, d);
  }

  /** The cards of a cell whose multi-day depth is `depth`, and its overflow label. */
  method StackCell(g: GridConfig, depth: int, order: seq<int>) returns (cards: seq<Card>, overflow: string)
    requires ValidGrid(g)
    ensures CellCards(g, depth, order, cards, overflow)
  {
    var availableHeight := AvailableHeight(g, depth);
    var eventsToShow := EventsToShow(|order|, availableHeight, g.cards);
    EventsToShowBounds(|order|, availableHeight, g.cards);
    var eventY;
    cards, eventY := StackCards(order, eventsToShow, CELL_MARGIN + depth * MULTI_DAY_ROW, g.cards);
    overflow := if |order| > eventsToShow then OverflowLabel(|order|, eventsToShow) else "";
  }

  lemma CellFromParts(events: seq<CalendarEvent>, rows: seq<int>, weekStartDay: int,
                      currentDayNumber: int, g: GridConfig, week: int, day: int, cell: DayCell)
    requires ValidGrid(g) && |rows| == |events|
    requires CellDate(weekStartDay, currentDayNumber, week, day, cell)
    requires CellDepth(events, rows, week * 7 + day + 1, cell.depth)
    requires CellOrder(events, week * 7 + day + 1, cell.order)
    requires CellCards(g, cell.depth, cell.order, cell.cards, cell.overflow)
    ensures IsCell(events, rows, weekStartDay, currentDayNumber, g, week, day, cell)
  {
  }

  // ---------------------------------------------------------------------------
  // The whole grid
  // ---------------------------------------------------------------------------

  /** The bars of step 2 for the events before `n`, in list order. */
  function BarsBelow(events: seq<CalendarEvent>, rows: seq<int>, g: GridConfig, today: int, n: nat): seq<Bar>
    requires n <= |events| == |rows|
  {
    if n == 0 then []
    else BarsBelow(events, rows, g, today, n - 1) + MultiDayBars(events[n - 1], rows[n - 1], g.dayWidth, today)
  }

  /** Every bar of step 2 belongs to an event whose bars cover that bar's days. */
  lemma {:induction false} BarOwner(events: seq<CalendarEvent>, rows: seq<int>, g: GridConfig, today: int,
                                    n: nat, b: Bar)
    requires n <= |events| == |rows|
    requires b in BarsBelow(events, rows, g, today, n)
    ensures exists i :: 0 <= i < n && b in MultiDayBars(events[i], rows[i], g.dayWidth, today)
  {
    if b !in MultiDayBars(events[n - 1], rows[n - 1], g.dayWidth, today) {
      BarOwner(events, rows, g, today, n - 1, b);
    }
  }

  /** What `drawCalendar` draws. */
  datatype Calendar = Calendar(todayColumn: int, rows: seq<int>, bars: seq<Bar>, cells: seq<DayCell>)

  /** The layout for today being day `currentDayNumber` of the window and the window
      starting on day `weekStartDay` of its month: the header column, the rows of step 1, the
      bars of step 2 in list order, and the 14 cells of step 3, week by week. */
  predicate IsCalendar(events: seq<CalendarEvent>, currentDayNumber: int, weekStartDay: int,
                       g: GridConfig, cal: Calendar)
    requires ValidGrid(g)
  {
    && cal.todayColumn == TodayColumn(currentDayNumber)
    && ValidRows(events, cal.rows)
    && cal.bars == BarsBelow(events, cal.rows, g, currentDayNumber, |events|)
    && |cal.cells| == 14
    && (forall k :: 0 <= k < 14 ==>
          IsCell(events, cal.rows, weekStartDay, currentDayNumber, g, k / 7, k % 7, cal.cells[k]))
  }

  /** `drawCalendar` for the events of the window, today being `currentDate` and the window
      starting on `weekStart`. Every day holds at most 30 single-day events, the capacity of
      the index array. */
  method DrawCalendar(events: seq<CalendarEvent>, currentDate: string, weekStart: string, g: GridConfig)
    returns (cal: Calendar)
    requires ValidGrid(g)
    requires forall d :: 1 <= d <= 14 ==> |DayIndices(events, d)| <= SLOTS
    ensures IsCalendar(events, CalculateGridPosition(currentDate, weekStart), ReadDate(weekStart).day, g, cal)
  {
    var currentDayNumber := CalculateGridPosition(currentDate, weekStart);
    cal := LayOut(events, currentDayNumber, ReadDate(weekStart).day, g);
  }

  /** The body of `drawCalendar` once the two dates have been read. */
  method LayOut(events: seq<CalendarEvent>, currentDayNumber: int, weekStartDay: int, g: GridConfig)
    returns (cal: Calendar)
    requires ValidGrid(g)
    requires forall d :: 1 <= d <= 14 ==> |DayIndices(events, d)| <= SLOTS
    ensures IsCalendar(events, currentDayNumber, weekStartDay, g, cal)
  {
    var eventRows := AssignRows(events);
    var bars: seq<Bar> := [];
    var i := 0;
    while i < |events|
      invariant 0 <= i <= |events|
      invariant bars == BarsBelow(events, eventRows, g, currentDayNumber, i)
    {
      bars := bars + MultiDayBars(events[i], eventRows[i], g.dayWidth, currentDayNumber);
      i := i + 1;
    }
    var cells := DrawCells(events, eventRows, currentDayNumber, weekStartDay, g);
    cal := Calendar(TodayColumn(currentDayNumber), eventRows, bars, cells);
  }

  /** Step 3: the cells, week by week, day by day. */
  method DrawCells(events: seq<CalendarEvent>, rows: seq<int>, currentDayNumber: int, weekStartDay: int,
                   g: GridConfig) returns (cells: seq<DayCell>)
    requires ValidGrid(g) && |rows| == |events|
    requires forall d :: 1 <= d <= 14 ==> |DayIndices(events, d)| <= SLOTS
    ensures |cells| == 14
    ensures forall k :: 0 <= k < 14 ==>
      IsCell(events, rows, weekStartDay, currentDayNumber, g, k / 7, k % 7, cells[k])
  {
    cells := [];
    var week := 0;
    while week < 2
      invariant 0 <= week <= 2 && |cells| == week * 7
      invariant forall k :: 0 <= k < |cells| ==>
        IsCell(events, rows, weekStartDay, currentDayNumber, g, k / 7, k % 7, cells[k])
    {
      var day := 0;
      while day < 7
        invariant 0 <= day <= 7 && |cells| == week * 7 + day
        invariant forall k :: 0 <= k < |cells| ==>
          IsCell(events, rows, weekStartDay, currentDayNumber, g, k / 7, k % 7, cells[k])
      {
        assert 1 <= week * 7 + day + 1 <= 14;
        var cell := DrawDay(events, rows, weekStartDay, currentDayNumber, g, week, day);
        AppendCell(events, rows, weekStartDay, currentDayNumber, g, cells, week, day, cell);
        cells := cells + [cell];
        day := day + 1;
      }
      week := week + 1;
    }
  }

  /** Each cell shows `calculateCalendarDay(weekStart, week, day)`: reading the week start once
      gives the same day numbers as reading it for every cell. */
  lemma DayNumbersAsDrawn(events: seq<CalendarEvent>, currentDayNumber: int, weekStart: string,
                          g: GridConfig, cal: Calendar)
    requires ValidGrid(g)
    requires IsCalendar(events, currentDayNumber, ReadDate(weekStart).day, g, cal)
    ensures forall k :: 0 <= k < 14 ==> cal.cells[k].dayNumber == CalculateCalendarDay(weekStart, k / 7, k % 7)
  {
    forall k | 0 <= k < 14 ensures cal.cells[k].dayNumber == CalculateCalendarDay(weekStart, k / 7, k % 7) {
      assert CellDate(ReadDate(weekStart).day, currentDayNumber, k / 7, k % 7, cal.cells[k]);
    }
  }

  lemma AppendCell(events: seq<CalendarEvent>, rows: seq<int>, weekStartDay: int, currentDayNumber: int,
                   g: GridConfig, cells: seq<DayCell>, week: int, day: int, cell: DayCell)
    requires ValidGrid(g) && |rows| == |events|
    requires 0 <= week && 0 <= day < 7 && |cells| == week * 7 + day
    requires forall k :: 0 <= k < |cells| ==>
      IsCell(events, rows, weekStartDay, currentDayNumber, g, k / 7, k % 7, cells[k])
    requires IsCell(events, rows, weekStartDay, currentDayNumber, g, week, day, cell)
    ensures forall k :: 0 <= k < |cells| + 1 ==>
      IsCell(events, rows, weekStartDay, currentDayNumber, g, k / 7, k % 7, (cells + [cell])[k])
  {
    assert (week * 7 + day) / 7 == week && (week * 7 + day) % 7 == day;
  }

  // ---------------------------------------------------------------------------
  // Properties of the layout
  // ---------------------------------------------------------------------------

  /** The days an event's bars cover lie within its days and the window, and only an event
      that the placement gives a row has bars that cover anything. */
  lemma BarDaysWithinEvent(e: CalendarEvent, row: int, dayWidth: int, today: int, d: int)
    requires e.startDay >= 1
    requires Covered(MultiDayBars(e, row, dayWidth, today), d)
    ensures IsPlaced(e) && e.startDay <= d <= e.endDay && d <= 14
  {
    if e.startDay > 14 || !e.isMultiDay {
      NoBars(e, row, dayWidth, today);
    } else if e.endDay < e.startDay {
      WeekAndColumn(e.startDay);
    } else {
      BarsCoverVisibleDays(e, row, dayWidth, today);
    }
  }

  /** No two bars of different events cover the same day in the same row: with the rows of
      the placement, multi-day bars never overlap. Every event is assumed to start on a day
      of the window or later, as ingestion guarantees. */
  lemma BarsDoNotOverlap(events: seq<CalendarEvent>, rows: seq<int>, dayWidth: int, today: int,
                         i: int, j: int, d: int)
    requires ValidRows(events, rows)
    requires 0 <= i < |events| && 0 <= j < |events| && i != j
    requires events[i].startDay >= 1 && events[j].startDay >= 1
    requires Covered(MultiDayBars(events[i], rows[i], dayWidth, today), d)
    requires Covered(MultiDayBars(events[j], rows[j], dayWidth, today), d)
    ensures rows[i] != rows[j]
  {
    BarDaysWithinEvent(events[i], rows[i], dayWidth, today, d);
    BarDaysWithinEvent(events[j], rows[j], dayWidth, today, d);
    assert Shares(events[i], events[j]);
    NoSharedRow(events, rows, i, j);
  }

  /** The cards of a cell start below the space the cell reserves for every multi-day row
      crossing it: for an event in row `r` on that day the cell's depth is at least `r + 1`, so
      the first card lies at or below `CELL_MARGIN + (r + 1) * MULTI_DAY_ROW`. */
  lemma CardsBelowBars(events: seq<CalendarEvent>, rows: seq<int>, weekStartDay: int,
                       currentDayNumber: int, g: GridConfig, week: int, day: int, cell: DayCell, i: int)
    requires ValidGrid(g) && |rows| == |events|
    requires IsCell(events, rows, weekStartDay, currentDayNumber, g, week, day, cell)
    requires 0 <= i < |events| && CrossesDay(events, i, week * 7 + day + 1)
    requires |cell.cards| > 0
    ensures CELL_MARGIN + (rows[i] + 1) * MULTI_DAY_ROW <= cell.cards[0].y
  {
  }

  /** The same in pixels of the bars themselves: a bar in row `r` is drawn at
      `barMargin + r * barSpacing` below the top of its week row, `barHeight` high (the
      configured bar margin, spacing and height). When those fit in the cell's reservation,
      the bar ends no lower than the cell's first card. */
  lemma CardsBelowBarPixels(events: seq<CalendarEvent>, rows: seq<int>, weekStartDay: int,
                            currentDayNumber: int, g: GridConfig, week: int, day: int, cell: DayCell,
                            i: int, barMargin: int, barSpacing: int, barHeight: int)
    requires ValidGrid(g) && |rows| == |events|
    requires IsCell(events, rows, weekStartDay, currentDayNumber, g, week, day, cell)
    requires 0 <= i < |events| && CrossesDay(events, i, week * 7 + day + 1) && rows[i] >= 0
    requires |cell.cards| > 0
    requires barMargin <= CELL_MARGIN && 0 <= barSpacing <= MULTI_DAY_ROW && barHeight <= MULTI_DAY_ROW
    ensures barMargin + rows[i] * barSpacing + barHeight <= cell.cards[0].y
  {
    CardsBelowBars(events, rows, weekStartDay, currentDayNumber, g, week, day, cell, i);
    BarWithinReservation(rows[i], barMargin, barSpacing, barHeight);
  }

  /** A bar in row `r` ends within the space reserved for rows 0 .. r. */
  lemma BarWithinReservation(r: int, barMargin: int, barSpacing: int, barHeight: int)
    requires r >= 0
    requires barMargin <= CELL_MARGIN && 0 <= barSpacing <= MULTI_DAY_ROW && barHeight <= MULTI_DAY_ROW
    ensures barMargin + r * barSpacing + barHeight <= CELL_MARGIN + (r + 1) * MULTI_DAY_ROW
  {
    assert r * barSpacing <= r * MULTI_DAY_ROW;
  }
}
