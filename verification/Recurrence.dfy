/** Expansion of a recurring calendar event inside a time window. The recurrence library is taken as
    a series of occurrence times, finite or not, in strictly increasing order. */
module Recurrence {
  import opened Wrappers
  import Text
  import Decimal

  datatype CalendarEvent = CalendarEvent(
    id: string,
    accountId: string,
    calendarId: string,
    summary: string,
    startTime: int,
    endTime: int,
    rrule: Option<string>,
    location: Option<string>
  )

  datatype CalendarError = InvalidTimestamp | InvalidRule

  const MAX_EXPANSION_COUNT: nat := 500

  /** Occurrence `i` exists when `i` is below the length, if there is one, and falls at `at(i)`. */
  datatype Series = Series(length: Option<nat>, at: nat -> int) {
    predicate Has(i: nat) { length.None? || i < length.value }

    ghost predicate Increasing() {
      forall i: nat, j: nat | i < j && Has(j) :: at(i) < at(j)
    }
  }

  /** The two libraries consulted: which timestamps are dates, and how a rule unfolds from a start. */
  datatype Calendar = Calendar(representable: int -> bool, unfold: (int, string) -> Option<Series>) {
    ghost predicate Valid() {
      forall start, rule :: unfold(start, rule).Some? ==> unfold(start, rule).value.Increasing()
    }
  }

  function Instance(event: CalendarEvent, index: nat, start: int): CalendarEvent {
    event.(id := event.id + "_occ_" + Decimal.NatToString(index),
           startTime := start,
           endTime := start + (event.endTime - event.startTime))
  }

  predicate InWindow(series: Series, lo: int, hi: int, i: nat) {
    series.Has(i) && lo <= series.at(i) <= hi
  }

  /** `picked` lists, in order, the first `max` occurrences that lie in the window: an occurrence of the
      window is left out only when the list is full and every listed one comes before it. */
  ghost predicate FirstInWindow(series: Series, lo: int, hi: int, max: nat, picked: seq<nat>) {
    && |picked| <= max
    && Sorted(picked)
    && (forall k | 0 <= k < |picked| :: InWindow(series, lo, hi, picked[k]))
    && (forall i: nat | InWindow(series, lo, hi, i) && i !in picked ::
          |picked| == max && forall k | 0 <= k < |picked| :: picked[k] < i)
  }

  function Range(lo: nat, count: nat): (r: seq<nat>)
    ensures |r| == count && forall k | 0 <= k < count :: r[k] == lo + k
  {
    seq(count, k requires k >= 0 => lo + k)
  }

  lemma RangeIsFirst(series: Series, start: int, end: int, lo: nat, count: nat)
    requires series.Increasing()
    requires count <= MAX_EXPANSION_COUNT
    requires forall i: nat | i < lo :: series.at(i) < start
    requires forall i: nat | lo <= i < lo + count :: InWindow(series, start, end, i)
    requires count == MAX_EXPANSION_COUNT || !series.Has(lo + count) || series.at(lo + count) > end
    ensures FirstInWindow(series, start, end, MAX_EXPANSION_COUNT, Range(lo, count))
  {
    var picked := Range(lo, count);
    forall i: nat | lo <= i < lo + count
      ensures i in picked
    {
      assert picked[i - lo] == i;
    }
  }

  lemma Later(series: Series, i: nat, j: nat)
    requires series.Increasing() && i <= j && series.Has(j)
    ensures series.at(i) <= series.at(j) && (i < j ==> series.at(i) < series.at(j))
  {
  }

  /** The pipeline skip-while, take-while, take, pulled one occurrence at a time. Both loops end, whatever
      the series: times increase, so only finitely many lie before the window's start, and at most 500
      are taken from there. */
  method PullWindow(event: CalendarEvent, series: Series, startWindow: int, endWindow: int)
    returns (occurrences: seq<CalendarEvent>)
    requires series.Increasing()
    ensures exists picked ::
              && FirstInWindow(series, startWindow, endWindow, MAX_EXPANSION_COUNT, picked)
              && |occurrences| == |picked|
              && forall k | 0 <= k < |picked| :: occurrences[k] == Instance(event, k, series.at(picked[k]))
  {
    hide Instance, FirstInWindow, Series.Increasing;
    var lo: nat := 0;
    while series.Has(lo) && series.at(lo) < startWindow
      invariant forall i: nat | i < lo :: series.at(i) < startWindow
      decreases if series.Has(lo) && series.at(lo) < startWindow then 1 + startWindow - series.at(lo) else 0
    {
      if series.Has(lo + 1) { Later(series, lo, lo + 1); }
      lo := lo + 1;
    }
    occurrences := [];
    var index: nat := 0;
    while index < MAX_EXPANSION_COUNT && series.Has(lo + index) && series.at(lo + index) <= endWindow
      invariant index <= MAX_EXPANSION_COUNT
      invariant |occurrences| == index
      invariant forall i: nat | lo <= i < lo + index :: InWindow(series, startWindow, endWindow, i)
      invariant forall k | 0 <= k < index :: occurrences[k] == Instance(event, k, series.at(lo + k))
    {
      Later(series, lo, lo + index);
      occurrences := occurrences + [Instance(event, index, series.at(lo + index))];
      index := index + 1;
    }
    RangeIsFirst(series, startWindow, endWindow, lo, index);
    ghost var picked := Range(lo, index);
  }

  /** The occurrence stands for the master at the given time: its own id, the master's duration, and everything else
      as in the master. */
  predicate IsOccurrence(event: CalendarEvent, index: nat, start: int, occurrence: CalendarEvent) {
    && occurrence.id == event.id + "_occ_" + Decimal.NatToString(index)
    && occurrence.startTime == start
    && occurrence.endTime - start == event.endTime - event.startTime
    && occurrence.accountId == event.accountId
    && occurrence.calendarId == event.calendarId
    && occurrence.summary == event.summary
    && occurrence.rrule == event.rrule
    && occurrence.location == event.location
  }

  /** The occurrences of the picked positions: at most 500, in order, all in the window with its ends, and one in the
      window is left out only when there are 500 before it. */
  ghost predicate IsExpansion(event: CalendarEvent, series: Series, startWindow: int, endWindow: int,
                              picked: seq<nat>, occurrences: seq<CalendarEvent>) {
    && |occurrences| == |picked| <= 500
    && (forall j, k | 0 <= j < k < |picked| :: picked[j] < picked[k])
    && (forall k | 0 <= k < |picked| :: series.Has(picked[k]) && startWindow <= series.at(picked[k]) <= endWindow)
    && (forall i: nat | series.Has(i) && startWindow <= series.at(i) <= endWindow ::
          i in picked || (|picked| == 500 && forall k | 0 <= k < 500 :: picked[k] < i))
    && forall k | 0 <= k < |picked| :: IsOccurrence(event, k, series.at(picked[k]), occurrences[k])
  }

  lemma InstancesExpand(event: CalendarEvent, series: Series, lo: int, hi: int, picked: seq<nat>, occurrences: seq<CalendarEvent>)
    requires FirstInWindow(series, lo, hi, MAX_EXPANSION_COUNT, picked) && |occurrences| == |picked|
    requires forall k | 0 <= k < |picked| :: occurrences[k] == Instance(event, k, series.at(picked[k]))
    ensures IsExpansion(event, series, lo, hi, picked, occurrences)
  {
    hide Decimal.NatToString;
    assert forall i: nat :: InWindow(series, lo, hi, i) <==> series.Has(i) && lo <= series.at(i) <= hi;
  }

  /** `expand_occurrences`: a recurring event yields one instance for each of the first 500 occurrences
      in the window; an event without a rule yields itself. */
  method ExpandOccurrences(calendar: Calendar, event: CalendarEvent, startWindow: int, endWindow: int)
    returns (r: Result<seq<CalendarEvent>, CalendarError>)
    requires calendar.Valid()
    ensures (event.rrule.None? || Text.Trim(event.rrule.value) == "") ==> r == Ok([event])
    ensures event.rrule.Some? && Text.Trim(event.rrule.value) != "" ==>
              var series := calendar.unfold(event.startTime, event.rrule.value);
              && (r.Ok? <==> series.Some? && calendar.representable(event.startTime)
                             && calendar.representable(startWindow) && calendar.representable(endWindow))
              && (r.Ok? ==> exists picked ::
                    && FirstInWindow(series.value, startWindow, endWindow, MAX_EXPANSION_COUNT, picked)
                    && |r.value| == |picked|
                    && forall k | 0 <= k < |picked| :: r.value[k] == Instance(event, k, series.value.at(picked[k])))
              && (r.Ok? ==> exists picked :: IsExpansion(event, series.value, startWindow, endWindow, picked, r.value))
  {
    hide Instance, FirstInWindow, IsExpansion;
    if event.rrule.None? || Text.Trim(event.rrule.value) == "" {
      return Ok([event]);
    }
    if !calendar.representable(event.startTime) {
      return Err(InvalidTimestamp);
    }
    var unfolded := calendar.unfold(event.startTime, event.rrule.value);
    if unfolded.None? {
      return Err(InvalidRule);
    }
    if !calendar.representable(startWindow) || !calendar.representable(endWindow) {
      return Err(InvalidTimestamp);
    }
    var occurrences := PullWindow(event, unfolded.value, startWindow, endWindow);
    ghost var picked :|
      && FirstInWindow(unfolded.value, startWindow, endWindow, MAX_EXPANSION_COUNT, picked)
      && |occurrences| == |picked|
      && forall k | 0 <= k < |picked| :: occurrences[k] == Instance(event, k, unfolded.value.at(picked[k]));
    InstancesExpand(event, unfolded.value, startWindow, endWindow, picked, occurrences);
    r := Ok(occurrences);
  }

  // ---------------------------------------------------------------- the plain filter it refines

  /** The occurrences of the window among the first `n`, by scanning all of them. */
  function WindowFilter(series: Series, lo: int, hi: int, n: nat): seq<nat> {
    if n == 0 then []
    else WindowFilter(series, lo, hi, n - 1) + (if InWindow(series, lo, hi, n - 1) then [n - 1] else [])
  }

  lemma {:induction false} WindowFilterFacts(series: Series, lo: int, hi: int, n: nat)
    ensures forall i: nat :: i in WindowFilter(series, lo, hi, n) <==> i < n && InWindow(series, lo, hi, i)
    ensures Sorted(WindowFilter(series, lo, hi, n))
  {
    if n == 0 {
    } else {
      WindowFilterFacts(series, lo, hi, n - 1);
      var f := WindowFilter(series, lo, hi, n - 1);
      assert forall j | 0 <= j < |f| :: f[j] in f;
      assert Sorted(f + [n - 1]);
    }
  }

  ghost predicate Sorted(s: seq<nat>) {
    forall j, k | 0 <= j < k < |s| :: s[j] < s[k]
  }

  lemma TailOfSorted(a: seq<nat>, x: nat)
    requires a != [] && Sorted(a)
    ensures x in a[1..] <==> x in a && x != a[0]
  {
    assert a == [a[0]] + a[1..];
    assert forall k | 0 <= k < |a[1..]| :: a[1..][k] == a[k + 1];
  }

  lemma {:induction false} SortedEqual(a: seq<nat>, b: seq<nat>)
    requires Sorted(a) && Sorted(b)
    requires forall x :: x in a <==> x in b
    ensures a == b
  {
    if a == [] {
      assert forall k | 0 <= k < |b| :: b[k] in b;
    } else {
      assert a[0] in b && (b != [] ==> b[0] in a);
      assert a[0] == b[0];
      forall x
        ensures x in a[1..] <==> x in b[1..]
      {
        TailOfSorted(a, x);
        TailOfSorted(b, x);
      }
      SortedEqual(a[1..], b[1..]);
    }
  }

  /** The lazy pipeline refines the plain filter: however far the series is scanned, the occurrences it
      picked are the first 500 of those found, as soon as the scan has gone past all of them. */
  lemma PipelineRefinesFilter(series: Series, lo: int, hi: int, max: nat, picked: seq<nat>, n: nat)
    requires FirstInWindow(series, lo, hi, max, picked)
    requires forall k | 0 <= k < |picked| :: picked[k] < n
    ensures var f := WindowFilter(series, lo, hi, n);
            |picked| <= |f| && picked == f[..|picked|] && (|picked| == max || |picked| == |f|)
  {
    var f := WindowFilter(series, lo, hi, n);
    var m := if |picked| < max then n else if picked == [] then 0 else picked[|picked| - 1] + 1;
    var g := WindowFilter(series, lo, hi, m);
    WindowFilterFacts(series, lo, hi, m);
    WindowFilterPrefix(series, lo, hi, m, n);
    forall x: nat
      ensures x in picked <==> x in g
    {
      PickedBelow(series, lo, hi, max, picked, n, x);
    }
    SortedEqual(picked, g);
  }

  /** Listed occurrences are the window's occurrences below the bound the list reaches. */
  lemma PickedBelow(series: Series, lo: int, hi: int, max: nat, picked: seq<nat>, n: nat, x: nat)
    requires FirstInWindow(series, lo, hi, max, picked)
    requires forall k | 0 <= k < |picked| :: picked[k] < n
    ensures var m := if |picked| < max then n else if picked == [] then 0 else picked[|picked| - 1] + 1;
            x in picked <==> x < m && InWindow(series, lo, hi, x)
  {
    if x in picked {
      var k :| 0 <= k < |picked| && picked[k] == x;
      assert x <= picked[|picked| - 1];
    }
  }

  lemma {:induction false} WindowFilterPrefix(series: Series, lo: int, hi: int, m: nat, n: nat)
    requires m <= n
    ensures WindowFilter(series, lo, hi, m) <= WindowFilter(series, lo, hi, n)
  {
    if m == n {
    } else {
      WindowFilterPrefix(series, lo, hi, m, n - 1);
    }
  }

  /** An instance id names its master and its index: whatever ids masters have, instances that share an id are the
      same occurrence of masters with the same id. */
  lemma InstanceIdNames(e: string, f: string, i: nat, j: nat)
    requires e + "_occ_" + Decimal.NatToString(i) == f + "_occ_" + Decimal.NatToString(j)
    ensures e == f && i == j
  {
    var (m, n) := (Decimal.NatToString(i), Decimal.NatToString(j));
    var (s, t) := (e + "_occ_", f + "_occ_");
    assert s[|s| - 1] == '_' == t[|t| - 1];
    assert (s + m)[|s| - 1] == '_' == (t + n)[|t| - 1];
    assert forall k | |s| <= k < |s + m| :: (s + m)[k] == m[k - |s|] != '_';
    assert forall k | |t| <= k < |t + n| :: (t + n)[k] == n[k - |t|] != '_';
    assert |s| == |t|;
    assert (s + m)[..|s|] == s && (t + n)[..|s|] == t && s[..|e|] == e && t[..|e|] == f;
    assert (s + m)[|s|..] == m && (t + n)[|s|..] == n;
    Decimal.NumeralInjective(i, j);
  }

  /** No two occurrences of one event share an id; each starts at its own time and keeps the master's
      duration and its other fields. */
  lemma InstancesDistinct(event: CalendarEvent, i: nat, j: nat, s: int, t: int)
    requires i != j
    ensures Instance(event, i, s).id != Instance(event, j, t).id
    ensures Instance(event, i, s).startTime == s
    ensures Instance(event, i, s).endTime - Instance(event, i, s).startTime == event.endTime - event.startTime
    ensures event == Instance(event, i, s).(id := event.id, startTime := event.startTime, endTime := event.endTime)
  {
    var prefix := event.id + "_occ_";
    if Instance(event, i, s).id == Instance(event, j, t).id {
      assert (prefix + Decimal.NatToString(i))[|prefix|..] == Decimal.NatToString(i);
      assert (prefix + Decimal.NatToString(j))[|prefix|..] == Decimal.NatToString(j);
      Decimal.NumeralInjective(i, j);
    }
  }
}
