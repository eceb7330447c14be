/** The record one calendar entry becomes after ingestion, shared by ingestion and layout. */
module Events {

  /** Day numbers are 1-based positions in the two-week window (day 1 is the window's first
      day); `startTime` and `endTime` are "HH:MM", or "-" and "" for an all-day single-day
      event, or both "" for an all-day multi-day event. */
  datatype CalendarEvent = CalendarEvent(
    title: string,
    startDay: int,
    endDay: int,
    startTime: string,
    endTime: string,
    calendar: string,
    isMultiDay: bool)
}
