/**
 * Step 1 of `drawCalendar`: every multi-day event that starts inside the two-week window
 * gets a row, the same row in every day it spans, so that its bar can be drawn as one
 * continuous box. Events are placed by ascending start day, ties by list position, each
 * in the lowest row that no already placed event sharing a day with it occupies.
 */
module RowAssignment {
  import opened Events

  /** The events that get a row: multi-day, starting on one of the 14 days. */
  predicate IsPlaced(e: CalendarEvent) {
    e.isMultiDay && 1 <= e.startDay <= 14
  }

  /** Some day lies in both day ranges. */
  predicate Shares(a: CalendarEvent, b: CalendarEvent) {
    a.startDay <= a.endDay && b.startDay <= b.endDay && a.startDay <= b.endDay && b.startDay <= a.endDay
  }

  /** Day `d` lies in the day range of `e`. */
  predicate OnDay(e: CalendarEvent, d: int) {
    e.startDay <= d <= e.endDay
  }

  lemma SharesMeansCommonDay(a: CalendarEvent, b: CalendarEvent)
    ensures Shares(a, b) <==> exists d :: OnDay(a, d) && OnDay(b, d)
  {
    if Shares(a, b) {
      var d := if a.startDay >= b.startDay then a.startDay else b.startDay;
      assert OnDay(a, d) && OnDay(b, d);
    }
  }

  /** Event `j` is placed before event `i`: earlier start day, or same start day and earlier
      in the list. */
  predicate Before(events: seq<CalendarEvent>, j: int, i: int)
    requires 0 <= j < |events| && 0 <= i < |events|
  {
    events[j].startDay < events[i].startDay || (events[j].startDay == events[i].startDay && j < i)
  }

  /** Event `j` keeps row `r` from event `i` (the test of the occupancy loop). */
  predicate Blocks(events: seq<CalendarEvent>, rows: seq<int>, i: int, j: int, r: int)
    requires |rows| == |events| && 0 <= j < |events| && 0 <= i < |events|
  {
    j != i && events[j].isMultiDay && rows[j] == r && Shares(events[i], events[j])
  }

  /** Some event placed before `i` and sharing a day with it holds row `r`. */
  predicate RowTaken(events: seq<CalendarEvent>, rows: seq<int>, i: int, r: int)
    requires |rows| == |events| && 0 <= i < |events|
  {
    exists j :: 0 <= j < |events| && Before(events, j, i) && Blocks(events, rows, i, j, r)
  }

  /** `r` is the lowest row that no event placed before `i` and sharing a day with it holds. */
  predicate FirstFreeRow(events: seq<CalendarEvent>, rows: seq<int>, i: int, r: int)
    requires |rows| == |events| && 0 <= i < |events|
  {
    && r >= 0
    && (forall j :: 0 <= j < |events| && Before(events, j, i) ==> !Blocks(events, rows, i, j, r))
    && (forall r' :: 0 <= r' < r ==> RowTaken(events, rows, i, r'))
  }

  /** The rows the first-fit placement gives: -1 for the events that are not placed, the
      first free row for the others. */
  predicate ValidRows(events: seq<CalendarEvent>, rows: seq<int>)
  {
    && |rows| == |events|
    && (forall i :: 0 <= i < |events| ==> (rows[i] == -1 <==> !IsPlaced(events[i])))
    && (forall i :: 0 <= i < |events| && IsPlaced(events[i]) ==> FirstFreeRow(events, rows, i, rows[i]))
  }

  /** Placement has reached day `day`, position `i`: exactly the placed events before that
      point have a row, and each has its first free row. */
  predicate PlacedUpTo(events: seq<CalendarEvent>, rows: seq<int>, day: int, i: int)
  {
    && |rows| == |events|
    && (forall k :: 0 <= k < |events| ==>
          (rows[k] != -1 <==>
             IsPlaced(events[k]) && (events[k].startDay < day || (events[k].startDay == day && k < i))))
    && (forall k :: 0 <= k < |events| && rows[k] != -1 ==> FirstFreeRow(events, rows, k, rows[k]))
  }

  /** The occupancy test of the row search: is `assignedRow` taken, on any day event `i`
      spans, by another multi-day event? */
  method RowOccupied(events: seq<CalendarEvent>, rows: array<int>, i: int, assignedRow: int)
    returns (rowOccupied: bool)
    requires rows.Length == |events| && 0 <= i < |events|
    ensures rowOccupied <==> exists j :: 0 <= j < |events| && Blocks(events, rows[..], i, j, assignedRow)
  {
    rowOccupied := false;
    var checkDay := events[i].startDay;
    while checkDay <= events[i].endDay
      invariant !rowOccupied
      invariant events[i].startDay <= checkDay || events[i].endDay < events[i].startDay
      invariant forall j, d :: 0 <= j < |events| && events[i].startDay <= d < checkDay && OnDay(events[j], d) ==>
        !(j != i && events[j].isMultiDay && rows[j] == assignedRow)
      decreases events[i].endDay - checkDay
    {
      var j := 0;
      while j < |events|
        invariant 0 <= j <= |events| && !rowOccupied
        invariant forall j' :: 0 <= j' < j ==>
          !(j' != i && events[j'].isMultiDay && rows[j'] == assignedRow && OnDay(events[j'], checkDay))
      {
        if j != i && events[j].isMultiDay && rows[j] == assignedRow &&
           checkDay >= events[j].startDay && checkDay <= events[j].endDay {
          rowOccupied := true;
          SharesMeansCommonDay(events[i], events[j]);
          assert Blocks(events, rows[..], i, j, assignedRow);
          break;
        }
        j := j + 1;
      }
      if rowOccupied {
        break;
      }
      checkDay := checkDay + 1;
    }
    if !rowOccupied {
      forall j | 0 <= j < |events| ensures !Blocks(events, rows[..], i, j, assignedRow) {
        SharesMeansCommonDay(events[i], events[j]);
      }
    }
  }

  /** The row assignment loop of `drawCalendar`: returns `eventRows`. */
  method AssignRows(events: seq<CalendarEvent>) returns (eventRows: seq<int>)
    ensures ValidRows(events, eventRows)
  {
    var rows := new int[|events|](_ => -1);
    var currentDay := 1;
    while currentDay <= 14
      invariant 1 <= currentDay <= 15
      invariant PlacedUpTo(events, rows[..], currentDay, 0)
    {
      var i := 0;
      while i < |events|
        invariant 0 <= i <= |events|
        invariant PlacedUpTo(events, rows[..], currentDay, i)
      {
        if events[i].isMultiDay && events[i].startDay == currentDay && rows[i] == -1 {
          PlaceEvent(events, rows, currentDay, i);
        }
        i := i + 1;
      }
      PlacedUpToNextDay(events, rows[..], currentDay);
      currentDay := currentDay + 1;
    }
    eventRows := rows[..];
  }

  lemma PlacedUpToNextDay(events: seq<CalendarEvent>, rows: seq<int>, day: int)
    requires PlacedUpTo(events, rows, day, |events|)
    ensures PlacedUpTo(events, rows, day + 1, 0)
  {
  }

  /** The search for the first free row of event `i` (the `while (!rowFound)` loop). */
  method PlaceEvent(events: seq<CalendarEvent>, rows: array<int>, currentDay: int, i: int)
    requires 1 <= currentDay <= 14 && 0 <= i < |events|
    requires events[i].isMultiDay && events[i].startDay == currentDay
    requires PlacedUpTo(events, rows[..], currentDay, i)
    modifies rows
    ensures PlacedUpTo(events, rows[..], currentDay, i + 1)
  {
    ghost var before := rows[..];
    var assignedRow := 0;
    var rowFound := false;
    while !rowFound
      invariant 0 <= assignedRow < |events|
      invariant !rowFound ==> rows[..] == before
      invariant rowFound ==> rows[..] == before[i := assignedRow]
      invariant forall r' :: 0 <= r' < assignedRow ==> RowTaken(events, before, i, r')
      invariant rowFound ==> forall j :: 0 <= j < |events| && Before(events, j, i) ==> !Blocks(events, before, i, j, assignedRow)
      decreases |events| - assignedRow, if rowFound then 0 else 1
    {
      var rowOccupied := RowOccupied(events, rows, i, assignedRow);
      if !rowOccupied {
        rows[i] := assignedRow;
        rowFound := true;
      } else {
        OccupiedByEarlier(events, before, currentDay, i, assignedRow);
        WitnessedRowsBound(events, before, i, assignedRow + 1);
        assignedRow := assignedRow + 1;
      }
    }
    KeepFirstFree(events, before, currentDay, i, assignedRow);
  }

  /** At the time event `i` is placed, only events placed before it hold a row. */
  lemma OccupiedByEarlier(events: seq<CalendarEvent>, rows: seq<int>, day: int, i: int, r: int)
    requires 0 <= i < |events| && events[i].startDay == day && r >= 0
    requires PlacedUpTo(events, rows, day, i)
    requires exists j :: 0 <= j < |events| && Blocks(events, rows, i, j, r)
    ensures RowTaken(events, rows, i, r)
  {
    var j :| 0 <= j < |events| && Blocks(events, rows, i, j, r);
    assert rows[j] != -1;
  }

  /** Giving event `i` its first free row keeps every earlier placement valid. */
  lemma KeepFirstFree(events: seq<CalendarEvent>, before: seq<int>, day: int, i: int, r: int)
    requires 1 <= day <= 14 && 0 <= i < |events| && r >= 0
    requires events[i].isMultiDay && events[i].startDay == day
    requires PlacedUpTo(events, before, day, i)
    requires forall r' :: 0 <= r' < r ==> RowTaken(events, before, i, r')
    requires forall j :: 0 <= j < |events| && Before(events, j, i) ==> !Blocks(events, before, i, j, r)
    ensures PlacedUpTo(events, before[i := r], day, i + 1)
  {
    var rows := before[i := r];
    forall k | 0 <= k < |events| && rows[k] != -1 ensures FirstFreeRow(events, rows, k, rows[k]) {
      forall j | 0 <= j < |events| && Before(events, j, k) ensures rows[j] == before[j] {
        if k != i {
          assert before[k] != -1;
        }
      }
      if k == i {
        forall r' | 0 <= r' < r ensures RowTaken(events, rows, i, r') {
          assert RowTaken(events, before, i, r');
          var j :| 0 <= j < |events| && Before(events, j, i) && Blocks(events, before, i, j, r');
          assert Blocks(events, rows, i, j, r');
        }
      } else {
        assert before[k] != -1 && FirstFreeRow(events, before, k, before[k]);
        forall r' | 0 <= r' < rows[k] ensures RowTaken(events, rows, k, r') {
          assert RowTaken(events, before, k, r');
          var j :| 0 <= j < |events| && Before(events, j, k) && Blocks(events, before, k, j, r');
          assert Blocks(events, rows, k, j, r');
        }
      }
    }
  }

  // ---------------------------------------------------------------------------
  // What the placement guarantees
  // ---------------------------------------------------------------------------

  /** The indices 0 .. n-1. */
  function Range(n: nat): (r: set<int>)
    ensures forall j :: j in r <==> 0 <= j < n
    ensures |r| == n
  {
    if n == 0 then {} else Range(n - 1) + {n - 1}
  }

  /** Some index of `X` holds row `r`. */
  predicate Held(rows: seq<int>, X: set<int>, r: int)
    requires forall j :: j in X ==> 0 <= j < |rows|
  {
    exists j :: j in X && rows[j] == r
  }

  /** Rows 0 .. R-1 each held by some index of `X` need at least R indices. */
  lemma {:induction false} Pigeonhole(rows: seq<int>, X: set<int>, R: nat)
    requires forall j :: j in X ==> 0 <= j < |rows|
    requires forall r :: 0 <= r < R ==> Held(rows, X, r)
    ensures R <= |X|
  {
    if R > 0 {
      assert Held(rows, X, R - 1);
      var j0 :| j0 in X && rows[j0] == R - 1;
      forall r | 0 <= r < R - 1 ensures Held(rows, X - {j0}, r) {
        assert Held(rows, X, r);
        var j :| j in X && rows[j] == r;
        assert j in X - {j0};
      }
      Pigeonhole(rows, X - {j0}, R - 1);
    }
  }

  /** When rows 0 .. R-1 are each blocked by an event other than `i`, R is below the number
      of events. */
  lemma WitnessedRowsBound(events: seq<CalendarEvent>, rows: seq<int>, i: int, R: nat)
    requires |rows| == |events| && 0 <= i < |events|
    requires forall r' :: 0 <= r' < R ==> RowTaken(events, rows, i, r')
    ensures R < |events|
  {
    var X := Range(|events|) - {i};
    forall r | 0 <= r < R ensures Held(rows, X, r) {
      assert RowTaken(events, rows, i, r);
      var j :| 0 <= j < |events| && Before(events, j, i) && Blocks(events, rows, i, j, r);
      assert j in X;
    }
    Pigeonhole(rows, X, R);
  }

  /** Every placed event has a row from 0 up to one less than the number of events; every
      other event has -1. */
  lemma RowsInRange(events: seq<CalendarEvent>, rows: seq<int>)
    requires ValidRows(events, rows)
    ensures forall i :: 0 <= i < |events| ==>
      if IsPlaced(events[i]) then 0 <= rows[i] < |events| else rows[i] == -1
  {
    forall i | 0 <= i < |events| && IsPlaced(events[i]) ensures rows[i] < |events| {
      WitnessedRowsBound(events, rows, i, rows[i]);
    }
  }

  /** Two placed events that share a day never share a row, so their bars never overlap. */
  lemma NoSharedRow(events: seq<CalendarEvent>, rows: seq<int>, i: int, j: int)
    requires ValidRows(events, rows)
    requires 0 <= i < |events| && 0 <= j < |events| && i != j
    requires IsPlaced(events[i]) && IsPlaced(events[j]) && Shares(events[i], events[j])
    ensures rows[i] != rows[j]
  {
    if Before(events, j, i) {
      assert !Blocks(events, rows, i, j, rows[i]);
    } else {
      assert Before(events, i, j);
      assert !Blocks(events, rows, j, i, rows[j]);
    }
  }

  // ---------------------------------------------------------------------------
  // The placement uses no more rows than the busiest day needs
  // ---------------------------------------------------------------------------

  /** The placed events whose range covers day `d`. */
  function PlacedOn(events: seq<CalendarEvent>, d: int): set<int> {
    set j | 0 <= j < |events| && IsPlaced(events[j]) && OnDay(events[j], d)
  }

  /** The number of rows in use: one more than the highest row, 0 when none is held. */
  function Height(rows: seq<int>): (h: int)
    ensures h >= 0
    ensures forall k :: 0 <= k < |rows| ==> rows[k] < h
    ensures h == 0 || exists k :: 0 <= k < |rows| && rows[k] + 1 == h
  {
    if |rows| == 0 then 0
    else
      var h0 := Height(rows[..|rows| - 1]);
      assert forall k :: 0 <= k < |rows| - 1 ==> rows[..|rows| - 1][k] == rows[k];
      if rows[|rows| - 1] + 1 > h0 then rows[|rows| - 1] + 1 else h0
  }

  /** Indices holding pairwise different rows, all below `M`, number at most `M`. */
  lemma {:induction false} InjectiveBound(rows: seq<int>, X: set<int>, M: nat)
    requires forall j :: j in X ==> 0 <= j < |rows| && 0 <= rows[j] < M
    requires forall a, b :: a in X && b in X && a != b ==> rows[a] != rows[b]
    ensures |X| <= M
  {
    if M == 0 {
      assert X == {};
    } else {
      InjectiveBound(rows, Below(rows, X, M - 1), M - 1);
      AtMostOneAtTop(rows, X, M);
    }
  }

  /** The indices of `X` whose row is below `v`. */
  function Below(rows: seq<int>, X: set<int>, v: int): (Y: set<int>)
    requires forall j :: j in X ==> 0 <= j < |rows|
    ensures forall j :: j in Y <==> j in X && rows[j] < v
  {
    set j | j in X && rows[j] < v
  }

  /** Removing the one index that may hold the top row `M - 1` leaves the indices below it. */
  lemma AtMostOneAtTop(rows: seq<int>, X: set<int>, M: nat)
    requires M > 0
    requires forall j :: j in X ==> 0 <= j < |rows| && 0 <= rows[j] < M
    requires forall a, b :: a in X && b in X && a != b ==> rows[a] != rows[b]
    ensures |X| <= |Below(rows, X, M - 1)| + 1
  {
    var Y := Below(rows, X, M - 1);
    var Z := X - Y;
    if Z != {} {
      var a :| a in Z;
      SingleHolder(rows, Z, M - 1, a);
    }
    assert X == Y + Z && Y * Z == {};
  }

  /** Of a set of indices with pairwise different rows that all hold row `v`, `a` is the only
      one. */
  lemma SingleHolder(rows: seq<int>, Z: set<int>, v: int, a: int)
    requires forall j :: j in Z ==> 0 <= j < |rows| && rows[j] == v
    requires forall a, b :: a in Z && b in Z && a != b ==> rows[a] != rows[b]
    requires a in Z
    ensures Z == {a}
  {
    forall b | b in Z ensures b == a {
      assert rows[b] == v == rows[a];
    }
  }

  /** However many placed events cover a day, each holds its own row. */
  lemma DayLoadBound(events: seq<CalendarEvent>, rows: seq<int>, d: int)
    requires ValidRows(events, rows)
    ensures |PlacedOn(events, d)| <= Height(rows)
  {
    var X := PlacedOn(events, d);
    RowsInRange(events, rows);
    forall a, b | a in X && b in X && a != b ensures rows[a] != rows[b] {
      NoSharedRow(events, rows, a, b);
    }
    InjectiveBound(rows, X, Height(rows));
  }

  /** An event in row `r` had rows 0 .. r-1 taken by earlier events that all cover its start
      day, so that day carries at least `r + 1` placed events. */
  lemma RowWitnessed(events: seq<CalendarEvent>, rows: seq<int>, i: int)
    requires ValidRows(events, rows) && 0 <= i < |events|
    requires IsPlaced(events[i]) && events[i].startDay <= events[i].endDay
    ensures rows[i] + 1 <= |PlacedOn(events, events[i].startDay)|
  {
    var X := PlacedOn(events, events[i].startDay);
    forall r | 0 <= r < rows[i] + 1 ensures Held(rows, X, r) {
      if r == rows[i] {
        assert i in X;
      } else {
        assert RowTaken(events, rows, i, r);
        var j :| 0 <= j < |events| && Before(events, j, i) && Blocks(events, rows, i, j, r);
        assert j in X;
      }
    }
    Pigeonhole(rows, X, rows[i] + 1);
  }

  /** An event that ends before it starts shares no day with any event and takes row 0. */
  lemma EmptyRangeRowZero(events: seq<CalendarEvent>, rows: seq<int>, k: int)
    requires ValidRows(events, rows) && 0 <= k < |events|
    requires IsPlaced(events[k]) && events[k].endDay < events[k].startDay
    ensures rows[k] == 0
  {
    assert !RowTaken(events, rows, k, 0);
  }

  /** The highest row plus one equals the largest number of placed events covering one day:
      no day holds more, and the start day of the event in the highest row holds exactly that
      many. An event whose end day precedes its start day covers no day but still takes
      row 0, which is the one case where a row is used that no day accounts for. */
  lemma RowsMinimal(events: seq<CalendarEvent>, rows: seq<int>)
    requires ValidRows(events, rows)
    ensures forall d :: |PlacedOn(events, d)| <= Height(rows)
    ensures Height(rows) == 0 <==> forall i :: 0 <= i < |events| ==> !IsPlaced(events[i])
    ensures (exists i :: 0 <= i < |events| && IsPlaced(events[i]) && events[i].startDay <= events[i].endDay) ==>
      exists d :: 1 <= d <= 14 && |PlacedOn(events, d)| == Height(rows)
    ensures (forall i :: 0 <= i < |events| && IsPlaced(events[i]) ==> events[i].endDay < events[i].startDay) ==>
      Height(rows) <= 1
  {
    forall d ensures |PlacedOn(events, d)| <= Height(rows) {
      DayLoadBound(events, rows, d);
    }
    RowsInRange(events, rows);
    var H := Height(rows);
    if H > 0 {
      var k :| 0 <= k < |rows| && rows[k] + 1 == H;
      assert IsPlaced(events[k]);
      if events[k].endDay < events[k].startDay {
        EmptyRangeRowZero(events, rows, k);
        if i :| 0 <= i < |events| && IsPlaced(events[i]) && events[i].startDay <= events[i].endDay {
          assert i in PlacedOn(events, events[i].startDay);
        }
      } else {
        RowWitnessed(events, rows, k);
      }
    }
  }
}
