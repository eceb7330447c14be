/**
 * The single-day events of one grid cell (`drawCalendar`, step 3): their indices are
 * collected into a fixed array of 30 slots, in list order, then bubble-sorted by start
 * time under `String::compareTo`.
 */
module DaySort {
  import opened Events
  import opened ArduinoString

  /** The capacity of `singleDayEventIndices`. */
  const SLOTS: nat := 30

  /** The event is drawn as a card in the cell of day `day`. */
  predicate OnCell(e: CalendarEvent, day: int) {
    !e.isMultiDay && e.startDay == day
  }

  /** The indices below `n` of the single-day events of day `day`, in list order. */
  function DayIndicesBelow(events: seq<CalendarEvent>, day: int, n: nat): (r: seq<int>)
    requires n <= |events|
    ensures forall p :: 0 <= p < |r| ==> 0 <= r[p] < n && OnCell(events[r[p]], day)
    ensures forall x :: 0 <= x < n && OnCell(events[x], day) ==> x in r
    ensures forall p, q :: 0 <= p < q < |r| ==> r[p] < r[q]
  {
    if n == 0 then []
    else DayIndicesBelow(events, day, n - 1) + (if OnCell(events[n - 1], day) then [n - 1] else [])
  }

  function DayIndices(events: seq<CalendarEvent>, day: int): seq<int> {
    DayIndicesBelow(events, day, |events|)
  }

  function Time(events: seq<CalendarEvent>, x: int): string
    requires 0 <= x < |events|
  {
    events[x].startTime
  }

  /** `x.compareTo(y) <= 0`. */
  predicate TimeLe(x: string, y: string) {
    !StrLess(y, x)
  }

  lemma TimeLeTransitive(x: string, y: string, z: string)
    requires TimeLe(x, y) && TimeLe(y, z)
    ensures TimeLe(x, z)
  {
    if StrLess(z, x) {
      if y == z {
      } else {
        StrLessTotal(y, z);
        StrLessTransitive(y, z, x);
      }
    }
  }

  predicate ValidIndices(events: seq<CalendarEvent>, s: seq<int>) {
    forall p :: 0 <= p < |s| ==> 0 <= s[p] < |events|
  }

  /** Ascending start times. */
  predicate TimeSorted(events: seq<CalendarEvent>, s: seq<int>)
    requires ValidIndices(events, s)
  {
    forall p, q :: 0 <= p < q < |s| ==> TimeLe(Time(events, s[p]), Time(events, s[q]))
  }

  /** Events with the same start time stay in list order: the sort is stable. */
  predicate EqualTimesInListOrder(events: seq<CalendarEvent>, s: seq<int>)
    requires ValidIndices(events, s)
  {
    forall p, q :: 0 <= p < q < |s| && Time(events, s[p]) == Time(events, s[q]) ==> s[p] < s[q]
  }

  /** Swapping two neighbours with different start times keeps equal-time events in order. */
  lemma SwapKeepsListOrder(events: seq<CalendarEvent>, s: seq<int>, j: int)
    requires ValidIndices(events, s) && 0 <= j < |s| - 1
    requires Time(events, s[j]) != Time(events, s[j + 1])
    requires EqualTimesInListOrder(events, s)
    ensures var t := s[j := s[j + 1]][j + 1 := s[j]];
      ValidIndices(events, t) && EqualTimesInListOrder(events, t)
  {
    var t := s[j := s[j + 1]][j + 1 := s[j]];
    forall p, q | 0 <= p < q < |t| && Time(events, t[p]) == Time(events, t[q]) ensures t[p] < t[q] {
      var p' := if p == j then j + 1 else if p == j + 1 then j else p;
      var q' := if q == j then j + 1 else if q == j + 1 then j else q;
      assert t[p] == s[p'] && t[q] == s[q'];
      assert p' < q';
    }
  }

  /** The collection loop: the indices of the day's single-day events, in list order, in the
      first `count` slots. */
  method CollectDayEvents(events: seq<CalendarEvent>, relativeDayNumber: int, indices: array<int>)
    returns (count: nat)
    requires indices.Length == SLOTS && |DayIndices(events, relativeDayNumber)| <= SLOTS
    modifies indices
    ensures count <= SLOTS && indices[..count] == DayIndices(events, relativeDayNumber)
  {
    count := 0;
    var i := 0;
    while i < |events|
      invariant 0 <= i <= |events|
      invariant count == |DayIndicesBelow(events, relativeDayNumber, i)| <= SLOTS
      invariant indices[..count] == DayIndicesBelow(events, relativeDayNumber, i)
    {
      PrefixCountBound(events, relativeDayNumber, i + 1);
      if !events[i].isMultiDay && events[i].startDay == relativeDayNumber {
        indices[count] := i;
        count := count + 1;
      }
      i := i + 1;
    }
  }

  /** Fewer events give no more indices. */
  lemma {:induction false} PrefixCountBound(events: seq<CalendarEvent>, day: int, n: nat)
    requires n <= |events|
    ensures |DayIndicesBelow(events, day, n)| <= |DayIndices(events, day)|
    decreases |events| - n
  {
    if n < |events| {
      PrefixCountBound(events, day, n + 1);
    }
  }

  /** `s[j]` starts no earlier than any entry before it. */
  predicate LatestAt(events: seq<CalendarEvent>, s: seq<int>, j: int)
    requires ValidIndices(events, s) && 0 <= j < |s|
  {
    forall p :: 0 <= p < j ==> TimeLe(Time(events, s[p]), Time(events, s[j]))
  }

  /** The entries from `k` on are in time order. */
  predicate SortedFrom(events: seq<CalendarEvent>, s: seq<int>, k: int)
    requires ValidIndices(events, s)
  {
    forall p, q :: k <= p < q < |s| && 0 <= p ==> TimeLe(Time(events, s[p]), Time(events, s[q]))
  }

  /** No entry before `k` starts later than an entry from `k` on. */
  predicate PartitionedAt(events: seq<CalendarEvent>, s: seq<int>, k: int)
    requires ValidIndices(events, s)
  {
    forall p, q :: 0 <= p < k <= q < |s| ==> TimeLe(Time(events, s[p]), Time(events, s[q]))
  }

  /** A pass that reorders `s[..k]` and leaves a latest entry at `k - 1` grows the sorted
      suffix by one. */
  lemma PassGrowsSortedSuffix(events: seq<CalendarEvent>, s: seq<int>, t: seq<int>, k: int)
    requires 1 <= k <= |s| == |t| && ValidIndices(events, s) && ValidIndices(events, t)
    requires t[k..] == s[k..] && multiset(t[..k]) == multiset(s[..k])
    requires SortedFrom(events, s, k) && PartitionedAt(events, s, k) && LatestAt(events, t, k - 1)
    ensures SortedFrom(events, t, k - 1) && PartitionedAt(events, t, k - 1)
  {
    forall p, q | 0 <= p < k - 1 <= q < |t| ensures TimeLe(Time(events, t[p]), Time(events, t[q])) {
      if q >= k {
        assert t[p] in multiset(s[..k]) by { assert t[p] in t[..k]; }
        var p' :| 0 <= p' < k && s[p'] == t[p];
        assert t[q] == s[q];
      }
    }
    forall p, q | k - 1 <= p < q < |t| ensures TimeLe(Time(events, t[p]), Time(events, t[q])) {
      assert t[q] == s[q];
      if p == k - 1 {
        assert t[p] in multiset(s[..k]) by { assert t[p] in t[..k]; }
        var p' :| 0 <= p' < k && s[p'] == t[p];
      } else {
        assert t[p] == s[p];
      }
    }
  }

  lemma SameMultisetBySplit(s: seq<int>, t: seq<int>, k: int)
    requires 0 <= k <= |s| == |t|
    requires multiset(t[..k]) == multiset(s[..k]) && t[k..] == s[k..]
    ensures multiset(t) == multiset(s)
  {
    assert s == s[..k] + s[k..];
    assert t == t[..k] + t[k..];
  }

  /** One pass of the bubble sort (the inner `j` loop): moves a latest start time among
      `a[0 .. end]` to `a[end]`, swapping neighbours only on a strict `compareTo(...) > 0`. */
  method BubblePass(events: seq<CalendarEvent>, a: array<int>, count: nat, end: nat)
    requires end < count <= a.Length
    requires ValidIndices(events, a[..count]) && EqualTimesInListOrder(events, a[..count])
    modifies a
    ensures a[end + 1..] == old(a[end + 1..])
    ensures multiset(a[..end + 1]) == multiset(old(a[..end + 1]))
    ensures ValidIndices(events, a[..count]) && EqualTimesInListOrder(events, a[..count])
    ensures LatestAt(events, a[..count], end)
  {
    var j := 0;
    while j < end
      invariant 0 <= j <= end
      invariant a[end + 1..] == old(a[end + 1..])
      invariant multiset(a[..end + 1]) == multiset(old(a[..end + 1]))
      invariant ValidIndices(events, a[..count]) && EqualTimesInListOrder(events, a[..count])
      invariant LatestAt(events, a[..count], j)
    {
      CompareNeighbours(events, a, count, end, j);
      j := j + 1;
    }
  }

  /** The body of the inner loop: swaps `a[j]` and `a[j + 1]` when the first starts later. */
  method CompareNeighbours(events: seq<CalendarEvent>, a: array<int>, count: nat, end: nat, j: nat)
    requires j < end < count <= a.Length
    requires ValidIndices(events, a[..count]) && EqualTimesInListOrder(events, a[..count])
    requires LatestAt(events, a[..count], j)
    modifies a
    ensures a[end + 1..] == old(a[end + 1..]) && multiset(a[..end + 1]) == multiset(old(a[..end + 1]))
    ensures ValidIndices(events, a[..count]) && EqualTimesInListOrder(events, a[..count])
    ensures LatestAt(events, a[..count], j + 1)
  {
    ghost var c := a[..count];
    var time1 := events[a[j]].startTime;
    var time2 := events[a[j + 1]].startTime;
    if CompareGreater(time1, time2) {
      SwapStep(events, c, j, end);
      var temp := a[j];
      a[j] := a[j + 1];
      a[j + 1] := temp;
      assert a[..count] == c[j := c[j + 1]][j + 1 := c[j]];
      assert a[..end + 1] == a[..count][..end + 1];
    } else {
      KeepStep(events, c, j);
    }
  }

  /** Swapping a later start time at `j` with an earlier one at `j + 1` keeps the list order of
      equal times and carries the latest start time seen so far to `j + 1`. */
  lemma SwapStep(events: seq<CalendarEvent>, c: seq<int>, j: int, end: int)
    requires 0 <= j < end < |c| && ValidIndices(events, c)
    requires EqualTimesInListOrder(events, c) && LatestAt(events, c, j)
    requires CompareGreater(Time(events, c[j]), Time(events, c[j + 1]))
    ensures var d := c[j := c[j + 1]][j + 1 := c[j]];
      && ValidIndices(events, d) && EqualTimesInListOrder(events, d) && LatestAt(events, d, j + 1)
      && multiset(d[..end + 1]) == multiset(c[..end + 1])
  {
    StrLessAsymmetric(Time(events, c[j + 1]), Time(events, c[j]));
    StrLessIrreflexive(Time(events, c[j]));
    SwapKeepsListOrder(events, c, j);
    var d := c[j := c[j + 1]][j + 1 := c[j]];
    assert d[..end + 1] == c[..end + 1][j := c[j + 1]][j + 1 := c[j]];
  }

  /** Without a swap, the entry at `j + 1` is already no earlier than everything before it. */
  lemma KeepStep(events: seq<CalendarEvent>, c: seq<int>, j: int)
    requires 0 <= j < |c| - 1 && ValidIndices(events, c) && LatestAt(events, c, j)
    requires !CompareGreater(Time(events, c[j]), Time(events, c[j + 1]))
    ensures LatestAt(events, c, j + 1)
  {
    forall p | 0 <= p < j + 1 ensures TimeLe(Time(events, c[p]), Time(events, c[j + 1])) {
      if p < j {
        TimeLeTransitive(Time(events, c[p]), Time(events, c[j]), Time(events, c[j + 1]));
      }
    }
  }

  /** The bubble sort of the first `count` slots (the outer `i` loop). */
  method BubbleSort(events: seq<CalendarEvent>, a: array<int>, count: nat)
    requires count <= a.Length
    requires ValidIndices(events, a[..count]) && EqualTimesInListOrder(events, a[..count])
    modifies a
    ensures multiset(a[..count]) == multiset(old(a[..count]))
    ensures ValidIndices(events, a[..count]) && TimeSorted(events, a[..count])
    ensures EqualTimesInListOrder(events, a[..count])
  {
    var i := 0;
    while i < count - 1
      invariant 0 <= i && (count == 0 || i <= count - 1)
      invariant multiset(a[..count]) == multiset(old(a[..count]))
      invariant ValidIndices(events, a[..count]) && EqualTimesInListOrder(events, a[..count])
      invariant SortedFrom(events, a[..count], count - i) && PartitionedAt(events, a[..count], count - i)
    {
      ghost var s := a[..count];
      assert s[..count - i] == a[..count - i];
      BubblePass(events, a, count, count - i - 1);
      ghost var t := a[..count];
      assert t[..count - i] == a[..count - i];
      assert t[count - i..] == s[count - i..];
      SameMultisetBySplit(s, t, count - i);
      PassGrowsSortedSuffix(events, s, t, count - i);
      i := i + 1;
    }
    if count > 0 {
      assert SortedFrom(events, a[..count], 1) && PartitionedAt(events, a[..count], 1);
      assert SortedFrom(events, a[..count], 0);
    }
  }

  /** The cell's single-day events in drawing order: collected into the 30-slot array and
      sorted. Every index of the day appears once; start times ascend under `compareTo`; events
      with the same start time keep their list order. */
  method SortedDayEvents(events: seq<CalendarEvent>, relativeDayNumber: int) returns (order: seq<int>)
    requires |DayIndices(events, relativeDayNumber)| <= SLOTS
    ensures multiset(order) == multiset(DayIndices(events, relativeDayNumber))
    ensures ValidIndices(events, order) && TimeSorted(events, order)
    ensures EqualTimesInListOrder(events, order)
  {
    var singleDayEventIndices := new int[SLOTS];
    var singleDayEventCount := CollectDayEvents(events, relativeDayNumber, singleDayEventIndices);
    BubbleSort(events, singleDayEventIndices, singleDayEventCount);
    order := singleDayEventIndices[..singleDayEventCount];
  }
}
