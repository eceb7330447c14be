/**
 * How many single-day event cards a day cell of `drawCalendar` shows, and where they go.
 * A cell has `availableHeight` pixels below its day number and its multi-day bars. As many
 * full-height cards as fit are shown; when not all do, the last card shown is a
 * reduced-height, single-line card and an "N more events..." line follows it.
 *
 * The card geometry comes from the build configuration (SINGLE_DAY_EVENT_SPACING,
 * SINGLE_DAY_EVENT_HEIGHT, SINGLE_DAY_EVENT_HEIGHT_REDUCED, OVERFLOW_TEXT_SPACING), which is
 * not part of this model: it is a parameter here, with a positive card spacing.
 */
module Stacking {
  import opened CppInt
  import opened ArduinoString

  datatype CardConfig = CardConfig(spacing: int, height: int, reducedHeight: int, overflowSpacing: int)

  predicate ValidConfig(c: CardConfig) {
    c.spacing > 0
  }

  function Max(a: int, b: int): int {
    if a >= b then a else b
  }

  function Min(a: int, b: int): int {
    if a <= b then a else b
  }

  /** `maxFullEvents`: how many full cards fit, by C's truncating division. */
  function MaxFullEvents(availableHeight: int, c: CardConfig): int
    requires ValidConfig(c)
  {
    CDiv(availableHeight, c.spacing)
  }

  /** The height of `maxFull - 1` full cards, one reduced card with its 2 pixel margin and the
      overflow line. */
  function SpaceForReduced(maxFull: int, c: CardConfig): int {
    (maxFull - 1) * c.spacing + (c.reducedHeight + 2) + c.overflowSpacing
  }

  /** `eventsToShow` as `drawCalendar` computes it from the number of the cell's single-day
      events. */
  function EventsToShowAsWritten(count: nat, availableHeight: int, c: CardConfig): (r: int)
    requires ValidConfig(c)
    ensures r >= 0
  {
    var maxFull := MaxFullEvents(availableHeight, c);
    if count <= maxFull then count
    else if SpaceForReduced(maxFull, c) <= availableHeight && maxFull > 0 then maxFull
    else Max(1, maxFull - 1)
  }

  /** As written, more cards than events are planned exactly for an empty cell whose available
      height is negative by at least one card spacing: the loop then reads one slot of the
      index array that nothing was stored in. */
  lemma AsWrittenOverrun(count: nat, availableHeight: int, c: CardConfig)
    requires ValidConfig(c)
    ensures EventsToShowAsWritten(count, availableHeight, c) > count <==>
      count == 0 && MaxFullEvents(availableHeight, c) < 0
  {
  }

  /** Any cell without single-day events under so many multi-day bars that
      `availableHeight <= -SINGLE_DAY_EVENT_SPACING` plans one card. */
  lemma EmptyCellPlansOneCard(availableHeight: int, c: CardConfig)
    requires ValidConfig(c) && availableHeight <= -c.spacing
    ensures EventsToShowAsWritten(0, availableHeight, c) == 1
  {
    CDivTruncates(availableHeight, c.spacing);
  }

  /** The plan with the evident intent restored: never more cards than events. */
  function EventsToShow(count: nat, availableHeight: int, c: CardConfig): (r: nat)
    requires ValidConfig(c)
  {
    Min(count, EventsToShowAsWritten(count, availableHeight, c))
  }

  /** The corrected plan differs from the written one only on the overrun. */
  lemma EventsToShowAgrees(count: nat, availableHeight: int, c: CardConfig)
    requires ValidConfig(c)
    ensures EventsToShow(count, availableHeight, c) == EventsToShowAsWritten(count, availableHeight, c)
      <==> !(count == 0 && MaxFullEvents(availableHeight, c) < 0)
  {
  }

  /** All events are shown when they all fit at full height; a cell with events shows at least
      one of them; never more than there are. */
  lemma EventsToShowBounds(count: nat, availableHeight: int, c: CardConfig)
    requires ValidConfig(c)
    ensures EventsToShow(count, availableHeight, c) <= count
    ensures count <= MaxFullEvents(availableHeight, c) ==> EventsToShow(count, availableHeight, c) == count
    ensures count >= 1 ==> EventsToShow(count, availableHeight, c) >= 1
  {
  }

  /** Some events are left out exactly when there are at least two and they do not all fit at
      full height; a single event is always shown, fitting or not. */
  lemma OverflowExactly(count: nat, availableHeight: int, c: CardConfig)
    requires ValidConfig(c)
    ensures EventsToShow(count, availableHeight, c) < count <==>
      count >= 2 && count > MaxFullEvents(availableHeight, c)
  {
  }

  /** When every card is shown at full height, the cards fit in the available height. */
  lemma FullCardsFit(count: nat, availableHeight: int, c: CardConfig)
    requires ValidConfig(c)
    requires 1 <= count <= MaxFullEvents(availableHeight, c)
    ensures count * c.spacing <= availableHeight
  {
    var maxFull := MaxFullEvents(availableHeight, c);
    CDivTruncates(availableHeight, c.spacing);
    assert availableHeight > 0;
    assert count * c.spacing <= maxFull * c.spacing by {
      MulMonotone(count, maxFull, c.spacing);
    }
  }

  lemma MulMonotone(a: int, b: int, k: int)
    requires a <= b && k >= 0
    ensures a * k <= b * k
  {
    assert b * k - a * k == (b - a) * k;
  }

  // ---------------------------------------------------------------------------
  // The card loop
  // ---------------------------------------------------------------------------

  /** One drawn card: the event's index in the event list, its top, its height, and whether its
      title is forced onto a single line. */
  datatype Card = Card(event: int, y: int, height: int, singleLine: bool)

  /** The card loop of `drawCalendar`: `order` holds the cell's single-day events in drawing
      order, `shown` is the number of cards planned, `top` is the first card's top. Returns the
      cards and the `eventY` the overflow line is placed from. Full cards are one spacing
      apart; the last card is the reduced single-line one exactly when events are left out. */
  method StackCards(order: seq<int>, shown: nat, top: int, c: CardConfig)
    returns (cards: seq<Card>, eventY: int)
    requires ValidConfig(c) && shown <= |order|
    ensures |cards| == shown
    ensures forall i :: 0 <= i < shown ==>
      && cards[i].event == order[i]
      && cards[i].y == top + i * c.spacing
      && (cards[i].singleLine <==> i == shown - 1 && shown < |order|)
      && cards[i].height == (if cards[i].singleLine then c.reducedHeight else c.height)
    ensures eventY == top + StackExtent(shown, shown < |order|, c)
  {
    cards := [];
    eventY := top;
    var i := 0;
    while i < shown
      invariant 0 <= i <= shown && |cards| == i
      invariant forall k :: 0 <= k < i ==>
        && cards[k].event == order[k]
        && cards[k].y == top + k * c.spacing
        && (cards[k].singleLine <==> k == shown - 1 && shown < |order|)
        && cards[k].height == (if cards[k].singleLine then c.reducedHeight else c.height)
      invariant eventY == top + StackExtent(i, i == shown && shown < |order|, c)
    {
      var isLastEventWithOverflow := i == shown - 1 && |order| > shown;
      var eventHeight := if isLastEventWithOverflow then c.reducedHeight else c.height;
      cards := cards + [Card(order[i], eventY, eventHeight, isLastEventWithOverflow)];
      if isLastEventWithOverflow {
        eventY := eventY + c.reducedHeight + 2;
      } else {
        eventY := eventY + c.spacing;
      }
      i := i + 1;
    }
  }

  /** The height the first `shown` cards take, the last one reduced when `overflow`. */
  function StackExtent(shown: nat, overflow: bool, c: CardConfig): int {
    if overflow && shown > 0 then (shown - 1) * c.spacing + c.reducedHeight + 2
    else shown * c.spacing
  }

  /** With cards no taller than their spacing, consecutive cards do not overlap, and the
      overflow line starts below the last card. */
  lemma CardsDoNotOverlap(cards: seq<Card>, order: seq<int>, shown: nat, top: int, eventY: int, c: CardConfig)
    requires ValidConfig(c) && c.height <= c.spacing && c.reducedHeight >= 0
    requires shown <= |order| && |cards| == shown
    requires forall i :: 0 <= i < shown ==>
      && cards[i].y == top + i * c.spacing
      && (cards[i].singleLine <==> i == shown - 1 && shown < |order|)
      && cards[i].height == (if cards[i].singleLine then c.reducedHeight else c.height)
    requires eventY == top + StackExtent(shown, shown < |order|, c)
    ensures forall i :: 0 <= i < shown - 1 ==> cards[i].y + cards[i].height <= cards[i + 1].y
    ensures shown > 0 ==> cards[shown - 1].y + cards[shown - 1].height <= eventY
  {
    forall i | 0 <= i < shown - 1 ensures cards[i].y + cards[i].height <= cards[i + 1].y {
      assert cards[i + 1].y == cards[i].y + c.spacing;
    }
  }

  /** The stack planned for the reduced-card case ends, overflow line included, within the
      available height. */
  lemma ReducedStackFits(count: nat, availableHeight: int, c: CardConfig)
    requires ValidConfig(c)
    requires count > MaxFullEvents(availableHeight, c) > 0
    requires SpaceForReduced(MaxFullEvents(availableHeight, c), c) <= availableHeight
    ensures EventsToShow(count, availableHeight, c) < count
    ensures StackExtent(EventsToShow(count, availableHeight, c), true, c) + c.overflowSpacing <= availableHeight
  {
  }

  // ---------------------------------------------------------------------------
  // The overflow line
  // ---------------------------------------------------------------------------

  const MORE_EVENTS: string := " more events..."

  /** `String(remainingEvents) + " more events..."`. */
  function OverflowLabel(count: nat, shown: nat): (s: string)
    requires shown < count
  {
    NatToString(count - shown) + MORE_EVENTS
  }

  /** The label starts with the number of events left out, readable back with `toInt`, and
      ends with " more events...". */
  lemma OverflowLabelCounts(count: nat, shown: nat)
    requires shown < count
    ensures ToInt(OverflowLabel(count, shown)) == count - shown
    ensures OverflowLabel(count, shown)[|OverflowLabel(count, shown)| - |MORE_EVENTS|..] == MORE_EVENTS
  {
    NatToStringRoundTrip(count - shown);
    assert !IsDigit(MORE_EVENTS[0]);
    ToIntOfDigits(NatToString(count - shown), MORE_EVENTS);
  }
}
