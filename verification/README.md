# E-ink calendar display: layout, wrap and ingestion logic in Dafny

This project models the decision-making core of the firmware of a battery-powered e-ink
calendar. The device fetches a two-week calendar from Home Assistant. It turns each event
record into a `CalendarEvent` with 1-based day numbers relative to the start of the
displayed fortnight. It then draws the fortnight as a 2 x 7 grid:

- multi-day events become bars, packed into rows first-fit;
- single-day events become cards, sorted by start time and stacked under the bars, with an
  "N more events..." line when they do not all fit;
- today is highlighted in the header and in its cell.

The model covers the following parts:

- `TextWrap`: the greedy word-wrap engine `drawMultiLnString`, and the alignment offset of
  `drawString`. Font measurement is a parameter `measure: string -> nat`. Each drawn line is
  recorded as a `DrawCall` with its 16-bit y coordinate.
- `Icons`: the battery and WiFi threshold maps.
- `DateArith`: `calculateGridPosition` and `calculateCalendarDay`, over fixed-position
  `YYYY-MM-DD` fields (the extended calendar-date form of section 4.1.2.2 of ISO 8601:2004).
  It also holds a Gregorian reference calendar, used to state where the firmware's
  "every month has 31 days" shortcut is exact and where it is not.
- `TitleSplit`: the character-count two-line split of a card title (`drawSingleDayEvent`).
- `RowAssignment`, `Segments`, `DaySort`, `Stacking` and `GridLayout`: the layout logic of
  `drawCalendar`.
  - step 1: row packing of multi-day events;
  - step 2: bars per week row, with title truncation;
  - step 3: per-cell multi-day depth, the 30-slot collection and bubble sort of single-day
    events, and the full/reduced/overflow card policy.
- `HAClient`: `isFullDayEvent`, `calculateDayNumber` and `extractTime` (on RFC 3339 section 5.6
  date-times), and the per-event loop of `parseResponse` after JSON decoding, on a
  `HAResponse` object.
- `DateTime`: `parseHADateTime`, which writes a `struct tm` (section 7.27.1 of ISO C11) through
  a pointer. It is modelled as a method on a `Tm` object. Its Zeller's-congruence weekday is
  proved equal to the true day of the week for every date from year 1 on.
- `ArduinoString` and `CppInt`: the library semantics the code relies on.
  - Arduino `String`: `substring` swaps reversed bounds, clamps the end and gives "" past the
    end; `remove`; `indexOf`/`lastIndexOf` give -1 when not found; `toInt` is `atol`;
    `compareTo`; `String(n)`.
  - C++ truncating `/` and `%`, and `int16_t`/`uint32_t` conversions.

The build-configuration constants (`DAY_WIDTH`, `ROW_HEIGHT`, `CHARS_PER_LINE`, the card
geometry) live in a `config.h` that is not part of this model, so they are parameters.

Where the firmware's documentation and its code disagree, the model follows the code. The
documentation presents day numbers and cell dates as calendar dates. The code assumes that
every month has 31 days (src/drawing.cpp:236-250, 268-272 and src/ha_client.cpp:169-180). The
model keeps that arithmetic and proves exactly how far it is from the Gregorian calendar.

## Model

| member | source | states |
|---|---|---|
| TextWrap.AlignedX | src/drawing.cpp:33-40 | the x of the text for an anchor x, a measured width and an alignment; AlignedXAnchors states where the text lands |
| TextWrap.AlignedXAnchors | src/drawing.cpp:33-40 | LEFT keeps x, RIGHT puts the right edge of the text on x, CENTER puts its middle on x (16-bit cursor) |
| TextWrap.DrawString | src/drawing.cpp:26-43 | the call draws exactly the given text on the given row |
| TextWrap.LastBreak | src/drawing.cpp:77-86 | the break searched for is the last space, or on a non-final line the later of the last space and the last hyphen; -1 when there is none |
| TextWrap.CutAt | src/drawing.cpp:91-127 | one round of the inner loop: a space break is dropped from the line, a hyphen is kept; on the last line "..." is added only when the line with it fits |
| TextWrap.FitLine | src/drawing.cpp:62-128 | the inner loop ends, and the line and remaining text it gives are the greedy choice (IsGreedyLine): the rightmost legal break that fits; the whole text when no legal break exists; the leftmost break when none fits |
| TextWrap.DrawMultiLnString | src/drawing.cpp:47-140 | at most max_lines lines; line i is drawn at int16 y + i * line_spacing; each line is the greedy line of the text remaining, and drawing stops when the lines run out or nothing remains |
| TextWrap.GreedyLineUnique | src/drawing.cpp:62-134 | the greedy line and the remaining text are determined by the text, the width, the measure and whether the line is the last |
| TextWrap.WrapDeterministic | src/drawing.cpp:47-140 | two wraps of the same inputs draw the same lines |
| TextWrap.GreedyLineFitsOrUnbreakable | src/drawing.cpp:88-124 | a drawn line is within max_width unless it has no legal break point |
| TextWrap.GreedyLineConsumes | src/drawing.cpp:91-134 | the remaining text is a strict suffix of the text; what was consumed is the line plus at most the one break character |
| TextWrap.HyphenLostWhenNothingFits | src/drawing.cpp:69-134 | when a hyphen break does not fit and nothing before it does, the hyphen is on neither the line nor the remaining text ("ab-cd" gives "ab" and "cd") |
| Icons.GetBatBitmap24 | src/drawing.cpp:148-182 | the number of bars is the number of thresholds 8, 22, 36, 50, 65, 79, 93 the percentage reaches |
| Icons.BatteryReached | src/drawing.cpp:148-182 | the threshold count is the cascade of `>=` tests of the source |
| Icons.BatteryMonotone | src/drawing.cpp:148-182 | a higher percentage never shows fewer bars |
| Icons.GetWiFiBitmap16 | src/drawing.cpp:186-198 | the icon level is the signal level: crossed-out for rssi 0, otherwise one bar more for each of -70, -60 and -50 reached |
| Icons.GetWiFiDesc | src/drawing.cpp:202-214 | the description level is the same signal level |
| Icons.WiFiIconMatchesDescription | src/drawing.cpp:186-214 | icon and description always agree: no connection exactly with the crossed-out icon, excellent exactly with the full icon |
| Icons.WiFiMonotone | src/drawing.cpp:186-198 | for a connected radio a stronger signal never shows fewer bars |
| DateArith.ReadDate | src/drawing.cpp:223-229 | year, month and day are read with toInt from characters 0-3, 5-6 and 8-9; ReadFormattedDate and ReadDateBounds state what that gives |
| DateArith.ReadDateBounds | src/drawing.cpp:223-229 | each field read is below 10000 (year) or 100 (month, day) in absolute value, far inside the range of an int |
| DateArith.ReadFormattedDate | src/drawing.cpp:223-229 | reading the fixed positions of a formatted YYYY-MM-DD date gives back its year, month and day |
| DateArith.CalculateGridPosition | src/drawing.cpp:221-254 | the grid position of a date in a week-start's two-week grid; its meaning for each pair of months is stated by the GridPosition lemmas below |
| DateArith.GridOfFormatted | src/drawing.cpp:221-254 | the grid position of two formatted dates depends only on their fields |
| DateArith.GridPositionSameMonth | src/drawing.cpp:231-234 | within a month the position is the true distance in days plus one; a date is position 1 of the week starting on it |
| DateArith.GridPositionNextMonth | src/drawing.cpp:236-240 | into the next month the position exceeds the true distance plus one by 31 minus the length of the week-start month |
| DateArith.GridPositionPreviousMonth | src/drawing.cpp:241-244 | a date in the previous month gets the same-month formula, a whole month past the true distance |
| DateArith.GridPositionYearTurn | src/drawing.cpp:247-250 | from December into January the position is the true distance plus one |
| DateArith.GridPositionFallback | src/drawing.cpp:252-253 | every other pair of months gives 1 |
| DateArith.GridPositionAfterFebruary | src/drawing.cpp:236-240 | 2025-03-01 against a week starting 2025-02-24 is position 9, while the true position is 6 |
| DateArith.CalculateCalendarDay | src/drawing.cpp:257-275 | the cell shows week-start day + 7 * week + day, less 31 exactly when that sum is past 31; within the window the result is a day 1..31 |
| DateArith.CalendarDayAgreesWithCalendar | src/drawing.cpp:262-272 | for a week starting in January to November, the cell shows the true date when the week-start month has room for it or has 31 days |
| DateArith.CalendarDayAgreesAtYearTurn | src/drawing.cpp:262-272 | for a week starting in December, the cell shows the true date, in January of the next year once past the 31st |
| DateArith.GridPositionOfCalendarDay | src/drawing.cpp:221-275 | the date a cell shows is placed back in that same cell by calculateGridPosition, so the highlight lands on the cell showing today |
| TitleSplit.FirstSpace | src/drawing.cpp:338-343 | the first space in the searched range, or -1 when there is none |
| TitleSplit.SplitPosition | src/drawing.cpp:336-343 | the split is at a space within 3 characters of the line length, or exactly at the line length |
| TitleSplit.Shorten | src/drawing.cpp:332 | a too-long line becomes its first charsPerLine - 1 characters and "." |
| TitleSplit.SplitTitle | src/drawing.cpp:321-353 | a fitting title is kept on one line; in single-line mode a long one is shortened; line 2 appears only for a long title in two-line mode and never exceeds the line length |
| TitleSplit.TwoLineSplit | src/drawing.cpp:335-352 | split over two lines the title loses at most the split space and the tail of a too-long second line; the first line ends at the first nearby space when there is one |
| RowAssignment.SharesMeansCommonDay | src/drawing.cpp:452-455 | the occupancy test of two events means they have a day in common |
| RowAssignment.RowOccupied | src/drawing.cpp:450-461 | the row is reported occupied exactly when another multi-day event already holding it shares a day with the event |
| RowAssignment.PlaceEvent | src/drawing.cpp:446-469 | the event gets the lowest row no earlier overlapping event holds |
| RowAssignment.AssignRows | src/drawing.cpp:439-472 | the rows are the first-fit placement in order of start day, ties by list order (ValidRows) |
| RowAssignment.WitnessedRowsBound | src/drawing.cpp:446-469 | an event can find R taken rows only when there are more than R events, so the search ends |
| RowAssignment.RowsInRange | src/drawing.cpp:439-472 | every multi-day event starting on days 1..14 gets a row from 0 to below the number of events; every other event keeps -1 |
| RowAssignment.NoSharedRow | src/drawing.cpp:439-472 | two placed events sharing a day never get the same row |
| RowAssignment.InjectiveBound | src/drawing.cpp:439-472 | indices holding pairwise different rows below M number at most M |
| RowAssignment.DayLoadBound | src/drawing.cpp:439-472 | no day is covered by more placed events than the number of rows in use |
| RowAssignment.RowWitnessed | src/drawing.cpp:446-469 | an event in row r has at least r + 1 placed events covering its start day |
| RowAssignment.EmptyRangeRowZero | src/drawing.cpp:446-469 | an event whose end day precedes its start day shares no day with any event and gets row 0 |
| RowAssignment.RowsMinimal | src/drawing.cpp:439-472 | the highest row plus one equals the largest number of placed events covering one day: no day has more, some day 1..14 has exactly that many (when a placed event covers any day), no rows are used exactly when nothing is placed |
| DaySort.DayIndicesBelow | src/drawing.cpp:568-573 | the indices of the day's single-day events, each once and in list order |
| DaySort.CollectDayEvents | src/drawing.cpp:565-573 | the collection loop fills the first slots of the 30-slot array with exactly those indices |
| DaySort.SwapKeepsListOrder | src/drawing.cpp:582-586 | swapping neighbours with different start times keeps equal start times in list order |
| DaySort.CompareNeighbours | src/drawing.cpp:578-586 | one comparison moves the latest start time seen so far one slot right, keeping the slots a permutation and the sort stable |
| DaySort.BubblePass | src/drawing.cpp:577-587 | one pass carries a latest start time to the end of the unsorted part |
| DaySort.BubbleSort | src/drawing.cpp:576-588 | the slots end as a permutation of what was collected, ordered by compareTo, stable |
| DaySort.SortedDayEvents | src/drawing.cpp:565-588 | the cell's single-day events in drawing order: each once, ascending start time, equal times in list order |
| Stacking.EventsToShow | src/drawing.cpp:596-615 | the corrected card count, the written plan capped at the number of events; EventsToShowBounds and OverflowExactly state its meaning |
| Stacking.EventsToShowAsWritten | src/drawing.cpp:596-615 | the plan as written is never negative |
| Stacking.AsWrittenOverrun | src/drawing.cpp:596-620 | as written, more cards than events are planned exactly when the cell is empty and maxFullEvents is negative |
| Stacking.EmptyCellPlansOneCard | src/drawing.cpp:596-620 | an empty cell whose available height is at most minus one card spacing plans one card |
| Stacking.EventsToShowAgrees | src/drawing.cpp:596-615 | the corrected plan differs from the written one only in that case |
| Stacking.EventsToShowBounds | src/drawing.cpp:596-615 | never more cards than events; all when they fit at full height; at least one when there are any |
| Stacking.OverflowExactly | src/drawing.cpp:596-615 | events are left out exactly when there are two or more and they do not all fit at full height |
| Stacking.FullCardsFit | src/drawing.cpp:596-601 | when every event is shown at full height the cards fit in the available height |
| Stacking.ReducedStackFits | src/drawing.cpp:603-610 | the reduced-card plan, overflow line included, fits in the available height |
| Stacking.StackCards | src/drawing.cpp:617-638 | card i shows event i at one spacing per card; the last card is reduced and single-line exactly when events are left out; eventY ends below the stack |
| Stacking.CardsDoNotOverlap | src/drawing.cpp:617-638 | with cards no taller than their spacing, cards do not overlap and the overflow line starts below the last |
| Stacking.OverflowLabel | src/drawing.cpp:641-646 | the overflow line: the number of events left out followed by " more events..."; OverflowLabelCounts states it |
| Stacking.OverflowLabelCounts | src/drawing.cpp:641-646 | the overflow line starts with the number of events left out and ends with " more events..." |
| Segments.TruncatedTitle | src/drawing.cpp:496-501 | the title of the first bar against the budget, with the budget converted to unsigned for the comparison and the cut; TitleKept, TitleTruncated and TinyBudgetLengthens state it |
| Segments.TitleKept | src/drawing.cpp:496-501 | a title that fits is kept, and so is every title when the budget is negative (unsigned comparison) |
| Segments.TitleTruncated | src/drawing.cpp:496-501 | a longer title becomes its first budget - 3 characters and "...", exactly the budget long |
| Segments.TinyBudgetLengthens | src/drawing.cpp:498-500 | with a budget of 0 to 2 the whole title is kept and "..." appended |
| Segments.MultiDayBars | src/drawing.cpp:475-520 | the bars drawn for one event; BarsCoverVisibleDays, ContinuationExactly, EndRoundedExactly, RedExactly, BarTitles and NoBars state them |
| Segments.BarsCoverVisibleDays | src/drawing.cpp:481-517 | one or two bars, each within one week row, together covering exactly the event's days inside the window; the first starts at the start day, a second only at the start of week 2 |
| Segments.ContinuationExactly | src/drawing.cpp:509-517 | the continuation is drawn exactly for an event starting in week 1 and ending after it |
| Segments.EndRoundedExactly | src/drawing.cpp:503-504 | the first bar has a rounded end exactly when the event ends in its start week inside the window; a continuation always has one |
| Segments.RedExactly | src/drawing.cpp:506 | the bars are red exactly when today lies within the event's days |
| Segments.BarTitles | src/drawing.cpp:496-516 | the first bar carries the title cut to the whole visible span; the continuation carries none |
| Segments.NoBars | src/drawing.cpp:476-484 | single-day events and events starting after day 14 get no bar |
| GridLayout.TodayColumn | src/drawing.cpp:406 | the header column highlighted: C's (currentDayNumber - 1) % 7, truncating; HeaderMatchesToday and HeaderOutsideWindow state where it lands |
| GridLayout.HeaderMatchesToday | src/drawing.cpp:401-413 | inside the window the header column drawn red is exactly the column of today's cell |
| GridLayout.HeaderOutsideWindow | src/drawing.cpp:406 | after the window, and a whole number of weeks before it, a header column is still highlighted |
| GridLayout.MultiDayDepth | src/drawing.cpp:550-558 | the depth is one more than the highest row of a multi-day event crossing the day, 0 when none |
| GridLayout.AvailableHeight | src/drawing.cpp:561-562 | the cell height less the 25-pixel day-number margin and 30 pixels per multi-day row; StackCell and the Stacking lemmas state what is drawn in it |
| GridLayout.DepthBound | src/drawing.cpp:550-558 | with the rows of step 1 the depth is at most the number of events |
| GridLayout.CellEvents | src/drawing.cpp:564-588 | the cell's single-day events in stable start-time order |
| GridLayout.StackCell | src/drawing.cpp:590-649 | the cards and overflow label of a cell follow the corrected plan below the multi-day rows |
| GridLayout.DrawDay | src/drawing.cpp:530-649 | one cell: its day of the month, whether it is today, its depth, its event order, its cards and its overflow label |
| GridLayout.DrawCells | src/drawing.cpp:522-651 | the 14 cells, week by week and day by day, each as DrawDay states |
| GridLayout.LayOut | src/drawing.cpp:437-651 | the header column, the rows of step 1, the bars of step 2 in list order and the 14 cells |
| GridLayout.DrawCalendar | src/drawing.cpp:392-652 | the whole layout for today's grid position and the week start's day |
| GridLayout.DayNumbersAsDrawn | src/drawing.cpp:532 | every cell shows calculateCalendarDay(weekStart, week, day) |
| GridLayout.BarDaysWithinEvent | src/drawing.cpp:474-519 | a bar covers only days of its event inside the window, and only events with a row have bars |
| GridLayout.BarsDoNotOverlap | src/drawing.cpp:437-519 | bars of two events covering the same day are in different rows |
| GridLayout.CardsBelowBars | src/drawing.cpp:550-591 | a cell's first card starts at or below 25 + (r + 1) * 30, the space the cell reserves for rows 0..r, for every multi-day event in row r crossing that day |
| GridLayout.CardsBelowBarPixels | src/drawing.cpp:486-591 | a bar drawn at margin + r * spacing, with the given height, ends no lower than the first card of a cell it crosses, whenever margin, spacing and height fit in the cell's 25 and 30 pixels |
| HAClient.IsFullDayEvent | src/ha_client.cpp:141-144 | true exactly when neither string contains 'T' |
| HAClient.DatePart | src/ha_client.cpp:148-152 | the prefix before the first 'T', the whole string when there is none |
| HAClient.CalculateDayNumber | src/ha_client.cpp:146-184 | the day number of an event date in the week-start's grid, 1 as the fallback; DayNumberAgreesWithGridPosition, TimeOfDayIgnored and DayNumberOfFormatted state it |
| HAClient.DayNumberAgreesWithGridPosition | src/ha_client.cpp:146-184 | the day number is calculateGridPosition of the date part, except that a date in the previous month gives 1 |
| HAClient.TimeOfDayIgnored | src/ha_client.cpp:148-152 | anything from the 'T' on does not change the day number |
| HAClient.DayNumberOfFormatted | src/ha_client.cpp:156-183 | for formatted dates the day number is computed from their fields |
| HAClient.DayNumberOfTimedEvent | test/test_ha_client/test_json_parsing.cpp:334-340 | "2025-01-10T15:45:00+01:00" in the week of 2025-01-06 is day 5 |
| HAClient.DayNumberOfFullDayEvent | test/test_ha_client/test_json_parsing.cpp:325-331 | "2025-01-08" in the week of 2025-01-06 is day 3 |
| HAClient.CutPosition | src/ha_client.cpp:192-195 | the first position of the character, or the length when it is absent |
| HAClient.ExtractTime | src/ha_client.cpp:186-199 | "" without a 'T'; otherwise at most five characters after the first 'T', cut at the first '+' |
| HAClient.ExtractTimeShape | src/ha_client.cpp:186-199 | the time has at most five characters and never a '+' |
| HAClient.ExtractTimeOfClock | src/ha_client.cpp:186-199 | a date-time whose clock starts with HH:MM gives exactly that HH:MM |
| HAClient.ExtractTimeExample | test/test_ha_client/test_json_parsing.cpp:297-301 | "2025-01-08T09:30:00+01:00" gives "09:30" |
| HAClient.ToEvent | src/ha_client.cpp:90-124 | the CalendarEvent built from one raw record; ToEventClassification states each of its fields |
| HAClient.ToEventClassification | src/ha_client.cpp:90-124 | title and calendar copied; day numbers of start and end; multi-day exactly when they differ; times "-"/"" for a full-day single day, ""/"" for full-day multi-day, the extracted times otherwise |
| HAClient.Kept | src/ha_client.cpp:126-129 | no more events are kept than records given |
| HAClient.KeptExactlyInView | src/ha_client.cpp:126-129 | every kept event starts on day 1..14 and comes from a record; the event of every record starting in view is kept; the end day is not checked |
| HAClient.KeptPreservesOrder | src/ha_client.cpp:89-130 | filtering runs of records and concatenating keeps their order |
| HAClient.ConvertInView | src/ha_client.cpp:89-130 | the loop's list is exactly the kept events of the records, in order |
| HAClient.HAResponse.ParseResponse | src/ha_client.cpp:60-139 | true exactly when the document decoded and has attributes with an events array; metadata copied when attributes exist; the events replaced by the kept events only on success, even when none is kept |
| DateTime.ShiftedRemainder | src/utilities.cpp:258-260 | for h in -6..6, C's (h + 6) % 7 equals the Euclidean remainder and lies in 0..6 |
| DateTime.ZellerWeekday | src/utilities.cpp:242-260 | Zeller's congruence as the source writes it, with C's truncating division; ZellerWeekdayRange and ZellerIsWeekday state its meaning |
| DateTime.ZellerWeekdayRange | src/utilities.cpp:242-260 | the weekday written is in 0..6 whatever was read |
| DateTime.ZellerIsWeekday | src/utilities.cpp:242-260 | for every valid date from year 1 on, the weekday is the true day of the week, 0 = Sunday |
| DateTime.Tm.Write | src/utilities.cpp:233-264 | every field of the struct tm is written |
| DateTime.ParseHADateTime | src/utilities.cpp:225-271 | false with nothing written when the date is under 10 or the time under 8 characters; otherwise true and the fields read written |
| DateTime.ReadFormattedTime | src/utilities.cpp:238-240 | hour, minute and second are read back from characters 0-1, 3-4 and 6-7 |
| DateTime.ParsedFormatted | src/utilities.cpp:233-264 | a formatted date and time give year - 1900, month - 1, the day, the clock, the true weekday, yday 0 and isdst -1 |
| DateTime.ParsedNewYearsEve | test/test_datetime/test_parse_datetime.cpp:150-165 | "2024-12-31" "23:59:59" gives year 124, month 11, day 31, 23:59:59 |
| DateTime.WeekdayExamples | test/test_datetime/test_parse_datetime.cpp:203-237 | 2025-01-09 is 4, 2025-01-06 is 1 and 2025-01-05 is 0 |

## Left out

- Display output: the drawing primitives (`drawRoundedRect`, `drawMultiDayEvent`, text colour,
  fonts, cursor calls) are not modelled. The layout produces values (lines, bars, cards,
  cells) instead.
- Pixel offsets: the offsets that only place drawing calls (header height, margins, text
  offsets) are left out. Card tops are measured from the top of their week row. Bars are
  given as week row, first column, number of days and row index rather than pixels.
- Characters: a Dafny `char` stands for one byte of an Arduino `String`, so every length,
  index and cut position is a byte count, as in the source. UTF-8 is not decoded: a title
  such as "Jürgen" is 7 bytes in the firmware and must be given to the model as 7 chars,
  not 6, and a cut may fall inside a multi-byte character just as in the firmware.
- Bar pixels: `config.h` is not part of this model, so the configured bar margin, spacing
  and height (`DAY_NUMBER_MARGIN`, `MULTI_DAY_EVENT_SPACING`, `MULTI_DAY_EVENT_HEIGHT`, used
  at src/drawing.cpp:486, 507 and 513) are parameters of `GridLayout.CardsBelowBarPixels`.
  Whether the configured values fit in the cell's own 25 and 30 pixels is its precondition,
  not a proved fact.
- Fonts: glyph measurement (`getTextBounds`) is a parameter of the wrap engine.
- Build configuration: `config.h` is not part of this model. Its constants are parameters
  with positivity preconditions.
- JSON: decoding by ArduinoJson is not modelled. `ParseResponse` takes the decoded document,
  and a decoding failure is one of its cases. The `success` field of `HAResponse` is set from
  `parseResponse`'s result by its callers `fetchCalendarData` (src/ha_client.cpp:41) and
  `parseSampleData` (src/ha_client.cpp:56), which are not modelled, so it is left out.
- Logging: serial output is left out.
- Other I/O: the network fetch, WiFi, ADC, LED, status bar, error screen, deep sleep,
  battery percentage (floating point) and `main` are left out.
- GridLayout.DrawCalendar: the day parameters `currentDay` and `currentTime` are unused by the
  source and are not parameters.
- GridLayout.DrawCalendar: requires at most 30 single-day events per day, the capacity of
  the index array. With more, the source writes past the array (src/drawing.cpp:565-571),
  which is undefined behaviour and is not modelled.
- GridLayout.DrawCalendar: uses the corrected card count `Stacking.EventsToShow` (see
  Findings), so it does not model the read of an unset index slot.
- RowAssignment.RowsMinimal: when every placed event ends before it starts (the end day's
  fallback can give 1 while the start day is later), such events take row 0 yet cover no day,
  so the lemma states only that at most one row is then used, not equality with a day's count.
- TextWrap.DrawString: states only the text and the row of the call; its x is `AlignedX`,
  whose anchoring `TextWrap.AlignedXAnchors` states.
- TextWrap.DrawMultiLnString: the chain of remaining texts it is specified by is a ghost
  out-parameter; the drawn lines are real.
- Time source: the clock and the timezone are not modelled; `parseHADateTime` only fills
  the struct.

## Findings

| source | as written | input that shows it | evidently intended | confidence | as-written member | corrected member |
|---|---|---|---|---|---|---|
| src/drawing.cpp:596-620 | with no single-day events and `maxFullEvents` negative, `eventsToShow` is `max(1, maxFullEvents - 1) = 1` and the card loop reads `singleDayEventIndices[0]`, which nothing was stored in | a cell with 0 single-day events whose multi-day depth makes `availableHeight <= -SINGLE_DAY_EVENT_SPACING` (for example `ROW_HEIGHT - 25 - depth * 30` below minus one card spacing) | never plan more cards than the cell has events: `min(count, eventsToShow)` | not executed | Stacking.AsWrittenOverrun | Stacking.EventsToShowBounds |
