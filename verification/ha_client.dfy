/**
 * Event ingestion in `HAClient`: the records of the Home Assistant response, already
 * decoded from JSON, become `CalendarEvent`s with grid day numbers and "HH:MM" times, and
 * only those that start within the 14 days of the grid are kept. Date-times are RFC 3339
 * (section 5.6) strings "YYYY-MM-DDTHH:MM:SS+TZ"; full-day events carry a bare date.
 */
module HAClient {
  import opened ArduinoString
  import opened DateArith
  import opened Events

  datatype Option<T> = None | Some(value: T)

  // ---------------------------------------------------------------------------
  // isFullDayEvent, calculateDayNumber, extractTime
  // ---------------------------------------------------------------------------

  /** `isFullDayEvent(start, end)`: full-day events have no time part. */
  function IsFullDayEvent(start: string, end: string): (r: bool)
    ensures r <==> 'T' !in start && 'T' !in end
  {
    IndexOf(start, 'T') == -1 && IndexOf(end, 'T') == -1
  }

  /** The date part of a date or date-time: everything before the first 'T'. */
  function DatePart(dateStr: string): (date: string)
    ensures 'T' !in date && date <= dateStr
    ensures |date| < |dateStr| ==> dateStr[|date|] == 'T'
  {
    var tIndex := IndexOf(dateStr, 'T');
    if tIndex != -1 then Substring(dateStr, 0, tIndex) else dateStr
  }

  /** The day number from the fields of the date and of the week start: like the grid
      position, but without the previous-month case. */
  function DayFromFields(date: DateFields, weekStart: DateFields): int
  {
    if date.year == weekStart.year && date.month == weekStart.month then
      date.day - weekStart.day + 1
    else if date.year == weekStart.year && date.month == weekStart.month + 1 then
      (31 - weekStart.day + 1) + date.day
    else if weekStart.year == date.year - 1 && weekStart.month == 12 && date.month == 1 then
      (31 - weekStart.day + 1) + date.day
    else
      1
  }

  /** `calculateDayNumber(dateStr, weekStart)`: the 1-based grid day of a date or date-time. */
  function CalculateDayNumber(dateStr: string, weekStart: string): int
  {
    DayFromFields(ReadDate(DatePart(dateStr)), ReadDate(weekStart))
  }

  /** The day number agrees with `calculateGridPosition` on the date part, except for a date
      in the month before the week start, which the day number sends to 1. */
  lemma DayNumberAgreesWithGridPosition(dateStr: string, weekStart: string)
    ensures var d, w := ReadDate(DatePart(dateStr)), ReadDate(weekStart);
      if d.year == w.year && d.month == w.month - 1 then
        CalculateDayNumber(dateStr, weekStart) == 1
        && CalculateGridPosition(DatePart(dateStr), weekStart) == d.day - w.day + 1
      else
        CalculateDayNumber(dateStr, weekStart) == CalculateGridPosition(DatePart(dateStr), weekStart)
  {
  }

  /** The time of day after the 'T' does not change the day number. */
  lemma TimeOfDayIgnored(date: string, time: string, weekStart: string)
    requires 'T' !in date
    ensures DatePart(date + "T" + time) == date
    ensures CalculateDayNumber(date + "T" + time, weekStart) == CalculateDayNumber(date, weekStart)
  {
    var s := date + "T" + time;
    assert s[|date|] == 'T';
    assert s[..|date|] == date;
  }

  /** The position of `c` in `s`, or the length of `s` when it has none. */
  function CutPosition(s: string, c: char): (n: nat)
    ensures n <= |s| && c !in s[..n] && (n < |s| ==> s[n] == c)
  {
    var i := IndexOf(s, c);
    if i == -1 then |s| else i
  }

  /** `extractTime(datetime)`: "" without a 'T'; otherwise what follows the first 'T', cut
      at the first '+' and at five characters ("HH:MM"). */
  function ExtractTime(datetime: string): (r: string)
    ensures 'T' !in datetime ==> r == ""
    ensures 'T' in datetime ==>
      var after := datetime[IndexOf(datetime, 'T') + 1..];
      var n := CutPosition(after, '+');
      r == after[..if n < 5 then n else 5]
  {
    var tIndex := IndexOf(datetime, 'T');
    if tIndex == -1 then ""
    else
      var timePart := SubstringFrom(datetime, tIndex + 1);
      var plusIndex := IndexOf(timePart, '+');
      var timePart' := if plusIndex != -1 then Substring(timePart, 0, plusIndex) else timePart;
      Substring(timePart', 0, 5)
  }

  /** The time is at most five characters and never holds a '+'. */
  lemma ExtractTimeShape(datetime: string)
    ensures |ExtractTime(datetime)| <= 5 && '+' !in ExtractTime(datetime)
  {
    if 'T' in datetime {
      var after := datetime[IndexOf(datetime, 'T') + 1..];
      var n := CutPosition(after, '+');
      var k := if n < 5 then n else 5;
      assert ExtractTime(datetime) == after[..n][..k];
    }
  }

  /** A date-time whose clock starts with "HH:MM" gives exactly that time back. */
  lemma ExtractTimeOfClock(date: string, hhmm: string, rest: string)
    requires 'T' !in date && |hhmm| == 5 && '+' !in hhmm
    ensures ExtractTime(date + "T" + hhmm + rest) == hhmm
  {
    var s := date + "T" + hhmm + rest;
    assert s[|date|] == 'T' && s[..|date|] == date;
    var after := s[|date| + 1..];
    assert after == hhmm + rest;
    assert after[..5] == hhmm;
    var n := CutPosition(after, '+');
    assert n >= 5;
  }

  lemma January10Text()
    ensures FormatDate(2025, 1, 10) == "2025-01-10"
  {
    Year2025();
    TwoDigits(1);
    TwoDigits(10);
    assert DigitChar(0) == '0' && DigitChar(1) == '1';
  }

  lemma January8Text()
    ensures FormatDate(2025, 1, 8) == "2025-01-08"
  {
    Year2025();
    TwoDigits(1);
    TwoDigits(8);
    assert DigitChar(0) == '0' && DigitChar(8) == '8';
  }

  lemma January6Text()
    ensures FormatDate(2025, 1, 6) == "2025-01-06"
  {
    Year2025();
    TwoDigits(1);
    TwoDigits(6);
    assert DigitChar(0) == '0' && DigitChar(6) == '6';
  }

  /** No formatted date holds a 'T'. */
  lemma FormattedDateHasNoT(y: nat, m: nat, d: nat)
    requires y < 10000 && m < 100 && d < 100
    ensures 'T' !in FormatDate(y, m, d)
  {
    assert Pow10(2) == 100 && Pow10(4) == 10000;
    var s := FormatDate(y, m, d);
    assert s == Pad(y, 4) + "-" + Pad(m, 2) + "-" + Pad(d, 2);
    forall i | 0 <= i < |s| ensures s[i] != 'T' {
      if i < 4 {
        assert s[i] == Pad(y, 4)[i];
      } else if 5 <= i < 7 {
        assert s[i] == Pad(m, 2)[i - 5];
      } else if 8 <= i {
        assert s[i] == Pad(d, 2)[i - 8];
      }
    }
  }

  /** A timed event on Friday 10 January 2025 is day 5 of the week that starts on Monday 6
      January. */
  lemma DayNumberOfTimedEvent()
    ensures CalculateDayNumber("2025-01-10T15:45:00+01:00", "2025-01-06") == 5
  {
    assert 'T' !in "2025-01-10";
    assert "2025-01-10T15:45:00+01:00" == "2025-01-10" + "T" + "15:45:00+01:00";
    TimeOfDayIgnored("2025-01-10", "15:45:00+01:00", "2025-01-06");
    January10Text();
    January6Text();
    DayNumberOfFormatted(2025, 1, 10, 2025, 1, 6);
  }

  /** The day number of a formatted date is computed from the fields it was formatted from. */
  lemma DayNumberOfFormatted(y1: nat, m1: nat, d1: nat, y2: nat, m2: nat, d2: nat)
    requires y1 < 10000 && m1 < 100 && d1 < 100 && y2 < 10000 && m2 < 100 && d2 < 100
    ensures CalculateDayNumber(FormatDate(y1, m1, d1), FormatDate(y2, m2, d2))
            == DayFromFields(DateFields(y1, m1, d1), DateFields(y2, m2, d2))
  {
    FormattedDateHasNoT(y1, m1, d1);
    assert DatePart(FormatDate(y1, m1, d1)) == FormatDate(y1, m1, d1);
    ReadFormattedDate(y1, m1, d1);
    ReadFormattedDate(y2, m2, d2);
  }

  /** A full-day event on 8 January 2025 is day 3 of the week that starts on Monday 6
      January. */
  lemma DayNumberOfFullDayEvent()
    ensures CalculateDayNumber("2025-01-08", "2025-01-06") == 3
  {
    January8Text();
    January6Text();
    DayNumberOfFormatted(2025, 1, 8, 2025, 1, 6);
  }

  lemma ExtractTimeExample()
    ensures ExtractTime("2025-01-08T09:30:00+01:00") == "09:30"
  {
    assert 'T' !in "2025-01-08";
    assert "2025-01-08T09:30:00+01:00" == "2025-01-08" + "T" + "09:30" + ":00+01:00";
    ExtractTimeOfClock("2025-01-08", "09:30", ":00+01:00");
  }

  // ---------------------------------------------------------------------------
  // The per-event loop of parseResponse
  // ---------------------------------------------------------------------------

  /** One element of the decoded `events` array. */
  datatype RawEvent = RawEvent(title: string, calendar: string, start: string, end: string)

  /** The decoded `attributes` object; `events` is None when the array is missing. */
  datatype Attributes = Attributes(
    currentDate: string, currentDay: string, currentTime: string, weekStart: string,
    period: string, events: Option<seq<RawEvent>>)

  /** The outcome of `deserializeJson`: an error, or a document whose `attributes` may be
      missing. */
  datatype Document = DeserializationError | Parsed(attributes: Option<Attributes>)

  /** The `CalendarEvent` of one record, for the week starting on `weekStart`. A full-day
      event on one day shows "-" as its time; a full-day event over several days shows none;
      a timed event shows its "HH:MM" start and end. */
  function ToEvent(raw: RawEvent, weekStart: string): CalendarEvent
  {
    var isFullDay := IsFullDayEvent(raw.start, raw.end);
    var startDay := CalculateDayNumber(raw.start, weekStart);
    var endDay := CalculateDayNumber(raw.end, weekStart);
    if isFullDay then
      if startDay == endDay then CalendarEvent(raw.title, startDay, endDay, "-", "", raw.calendar, false)
      else CalendarEvent(raw.title, startDay, endDay, "", "", raw.calendar, true)
    else
      CalendarEvent(raw.title, startDay, endDay, ExtractTime(raw.start), ExtractTime(raw.end),
                    raw.calendar, startDay != endDay)
  }

  /** Every branch of the classification keeps `isMultiDay` equal to "the start and end
      days differ", and the times follow the kind of event. */
  lemma ToEventClassification(raw: RawEvent, weekStart: string)
    ensures var e := ToEvent(raw, weekStart);
      && e.title == raw.title && e.calendar == raw.calendar
      && e.startDay == CalculateDayNumber(raw.start, weekStart)
      && e.endDay == CalculateDayNumber(raw.end, weekStart)
      && (e.isMultiDay <==> e.startDay != e.endDay)
      && (IsFullDayEvent(raw.start, raw.end) && !e.isMultiDay ==> e.startTime == "-" && e.endTime == "")
      && (IsFullDayEvent(raw.start, raw.end) && e.isMultiDay ==> e.startTime == "" && e.endTime == "")
      && (!IsFullDayEvent(raw.start, raw.end) ==>
            e.startTime == ExtractTime(raw.start) && e.endTime == ExtractTime(raw.end))
  {
  }

  /** The event starts within the 14 days of the grid. */
  predicate InView(e: CalendarEvent) {
    1 <= e.startDay <= 14
  }

  /** The conversion of the records of a response whose week starts on `weekStart`. */
  function Converter(weekStart: string): RawEvent -> CalendarEvent
  {
    raw => ToEvent(raw, weekStart)
  }

  /** The events kept from `raws` under the conversion `convert`, in order. */
  function Kept(raws: seq<RawEvent>, convert: RawEvent -> CalendarEvent): (r: seq<CalendarEvent>)
    ensures |r| <= |raws|
  {
    if |raws| == 0 then []
    else
      var e := convert(raws[|raws| - 1]);
      Kept(raws[..|raws| - 1], convert) + (if InView(e) then [e] else [])
  }

  /** Every kept event is in view and is the event of some record; the event of every record
      that is in view is kept. */
  lemma {:induction false} KeptExactlyInView(raws: seq<RawEvent>, convert: RawEvent -> CalendarEvent)
    ensures forall e :: e in Kept(raws, convert) ==> InView(e)
    ensures forall e :: e in Kept(raws, convert) ==> exists k :: 0 <= k < |raws| && e == convert(raws[k])
    ensures forall k :: 0 <= k < |raws| && InView(convert(raws[k])) ==> convert(raws[k]) in Kept(raws, convert)
  {
    if |raws| > 0 {
      var init := raws[..|raws| - 1];
      var last := convert(raws[|raws| - 1]);
      KeptExactlyInView(init, convert);
      assert Kept(raws, convert) == Kept(init, convert) + (if InView(last) then [last] else []);
      forall e | e in Kept(raws, convert)
        ensures exists k :: 0 <= k < |raws| && e == convert(raws[k])
      {
        if e in Kept(init, convert) {
          var k :| 0 <= k < |init| && e == convert(init[k]);
          assert raws[k] == init[k];
        } else {
          assert e == last;
        }
      }
      forall k | 0 <= k < |raws| && InView(convert(raws[k]))
        ensures convert(raws[k]) in Kept(raws, convert)
      {
        if k < |init| {
          assert raws[k] == init[k];
        }
      }
    }
  }

  /** Filtering keeps the order of the records: the events kept from two runs of records
      are those of the first run followed by those of the second. */
  lemma {:induction false} KeptPreservesOrder(a: seq<RawEvent>, b: seq<RawEvent>, convert: RawEvent -> CalendarEvent)
    ensures Kept(a + b, convert) == Kept(a, convert) + Kept(b, convert)
    decreases |b|
  {
    if |b| == 0 {
      assert a + b == a;
    } else {
      var b' := b[..|b| - 1];
      assert (a + b)[..|a + b| - 1] == a + b';
      assert (a + b)[|a + b| - 1] == b[|b| - 1];
      KeptPreservesOrder(a, b', convert);
    }
  }

  /** The loop over the `events` array: converts each record and appends the events that
      start in view. */
  method ConvertInView(eventsArray: seq<RawEvent>, convert: RawEvent -> CalendarEvent)
    returns (kept: seq<CalendarEvent>)
    ensures kept == Kept(eventsArray, convert)
  {
    kept := [];
    var i := 0;
    while i < |eventsArray|
      invariant 0 <= i <= |eventsArray|
      invariant kept == Kept(eventsArray[..i], convert)
    {
      var event := convert(eventsArray[i]);
      assert eventsArray[..i + 1][..i] == eventsArray[..i];
      if event.startDay >= 1 && event.startDay <= 14 {
        kept := kept + [event];
      }
      i := i + 1;
    }
    assert eventsArray[..i] == eventsArray;
  }

  /** `HAResponse`: the metadata of the response and the events of the grid. */
  class HAResponse {
    var currentDate: string
    var currentDay: string
    var currentTime: string
    var weekStart: string
    var period: string
    var events: seq<CalendarEvent>

    constructor ()
      ensures currentDate == "" && currentDay == "" && currentTime == "" && weekStart == ""
      ensures period == "" && events == []
    {
      currentDate, currentDay, currentTime, weekStart, period := "", "", "", "", "";
      events := [];
    }

    /** `parseResponse` after deserialization. Without `attributes` nothing changes and the
        result is false. With `attributes` the metadata is copied; without an `events` array
        the result is still false and the events stay as they were; with one, the events are
        replaced by the records in view, in order, and the result is true, even when none
        is kept. */
    method ParseResponse(doc: Document) returns (ok: bool)
      modifies this
      ensures ok <==> doc.Parsed? && doc.attributes.Some? && doc.attributes.value.events.Some?
      ensures !(doc.Parsed? && doc.attributes.Some?) ==>
        currentDate == old(currentDate) && currentDay == old(currentDay) && currentTime == old(currentTime)
        && weekStart == old(weekStart) && period == old(period)
      ensures doc.Parsed? && doc.attributes.Some? ==>
        var a := doc.attributes.value;
        currentDate == a.currentDate && currentDay == a.currentDay && currentTime == a.currentTime
        && weekStart == a.weekStart && period == a.period
      ensures !ok ==> events == old(events)
      ensures ok ==> events == Kept(doc.attributes.value.events.value, Converter(weekStart))
    {
      if doc.DeserializationError? || doc.attributes.None? {
        return false;
      }
      var attributes := doc.attributes.value;
      currentDate := attributes.currentDate;
      currentDay := attributes.currentDay;
      currentTime := attributes.currentTime;
      weekStart := attributes.weekStart;
      period := attributes.period;
      if attributes.events.None? {
        return false;
      }
      events := ConvertInView(attributes.events.value, Converter(attributes.weekStart));
      return true;
    }
  }
}
