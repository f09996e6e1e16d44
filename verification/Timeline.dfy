/** The timeline queries of utils/grid.py: binary searches over a list of
    ranges and over a list of events, and the slices cut from their results. */
module Timeline {
  import opened Selection

  datatype DataRange = DataRange(start: int, end: int, value: string)

  datatype Event = Event(at: int, value: string)

  /** The slice s[lo : hi] of a Python list, for non-negative bounds. */
  function PySlice<T>(s: seq<T>, lo: nat, hi: nat): seq<T> {
    var h := if hi <= |s| then hi else |s|;
    if lo <= h then s[lo..h] else []
  }

  // ---------------------------------------------------------------------
  // Ranges
  // ---------------------------------------------------------------------

  /** Ranges in ascending order; neighbours may share an endpoint. */
  ghost predicate Ordered(ranges: seq<DataRange>) {
    && (forall i :: 0 <= i < |ranges| ==> ranges[i].start <= ranges[i].end)
    && (forall i, j :: 0 <= i < j < |ranges| ==> ranges[i].end <= ranges[j].start)
  }

  /** No endpoint is shared. */
  ghost predicate Separated(ranges: seq<DataRange>) {
    forall i, j :: 0 <= i < j < |ranges| ==> ranges[i].end < ranges[j].start
  }

  predicate Contains(r: DataRange, key: int) {
    r.start <= key <= r.end
  }

  predicate Meets(r: DataRange, start: int, end: int) {
    r.start <= end && start <= r.end
  }

  /** More than an endpoint in common. */
  predicate Overlaps(r: DataRange, start: int, end: int) {
    r.start < end && start < r.end
  }

  ghost predicate Hit(ranges: seq<DataRange>, key: int) {
    exists i :: 0 <= i < |ranges| && Contains(ranges[i], key)
  }

  /** The ranges that meet [start, end], in order. */
  function Meeting(ranges: seq<DataRange>, start: int, end: int): (m: seq<DataRange>)
    ensures forall r :: r in m <==> r in ranges && Meets(r, start, end)
  {
    SelectMembers(ranges, (r: DataRange) => Meets(r, start, end), 0);
    Select(ranges, (r: DataRange) => Meets(r, start, end), 0)
  }

  /** The ranges from lo to hi include all that overlap the query. */
  ghost predicate Covers(ranges: seq<DataRange>, start: int, end: int, lo: nat, hi: nat) {
    forall i :: 0 <= i < |ranges| && Overlaps(ranges[i], start, end) ==> lo <= i < hi
  }

  /** They include all that meet it. */
  ghost predicate Complete(ranges: seq<DataRange>, start: int, end: int, lo: nat, hi: nat) {
    forall i :: 0 <= i < |ranges| && Meets(ranges[i], start, end) ==> lo <= i < hi
  }

  /** They all meet it. */
  ghost predicate Sound(ranges: seq<DataRange>, start: int, end: int, lo: nat, hi: nat) {
    forall i :: 0 <= i < |ranges| && lo <= i < hi ==> Meets(ranges[i], start, end)
  }

  /** The slice is the ranges that meet the query exactly when it is both. */
  lemma SliceIsMeeting(ranges: seq<DataRange>, start: int, end: int, lo: nat, hi: nat)
    requires lo <= |ranges| && hi <= |ranges|
    ensures PySlice(ranges, lo, hi) == Meeting(ranges, start, end)
        <==> Sound(ranges, start, end, lo, hi) && Complete(ranges, start, end, lo, hi)
  {
    var keep := (r: DataRange) => Meets(r, start, end);
    var h := if lo <= hi then hi else lo;
    if Sound(ranges, start, end, lo, hi) {
      SliceIsSelection(ranges, keep, lo, h);
      assert PySlice(ranges, lo, hi) == ranges[lo..h];
    } else {
      var i :| 0 <= i < |ranges| && lo <= i < hi && !Meets(ranges[i], start, end);
      assert PySlice(ranges, lo, hi)[i - lo] == ranges[i];
      assert ranges[i] !in Meeting(ranges, start, end);
    }
  }

  // The search

  /** The loop of the binary search, between positions l and u. */
  function Find(ranges: seq<DataRange>, key: int, l: int, u: int): (index: int)
    requires 0 <= l <= u + 1 <= |ranges|
    ensures index == -1 || (l <= index <= u && Contains(ranges[index], key))
    decreases u - l + 1
  {
    if l > u then -1
    else
      var i := (l + u) / 2;
      if Contains(ranges[i], key) then i
      else if key < ranges[i].start then Find(ranges, key, l, i - 1)
      else Find(ranges, key, i + 1, u)
  }

  /** The index of a range that contains the key, or -1. */
  function SearchIndex(ranges: seq<DataRange>, key: int): (index: int)
    ensures index == -1 || (0 <= index < |ranges| && Contains(ranges[index], key))
  {
    Find(ranges, key, 0, |ranges| - 1)
  }

  lemma {:induction false} FindHits(ranges: seq<DataRange>, key: int, l: int, u: int, c: int)
    requires 0 <= l <= c <= u < |ranges| && Contains(ranges[c], key)
    requires forall i :: 0 <= i < c ==> ranges[i].start <= ranges[c].start
    requires forall i :: c < i < |ranges| ==> ranges[c].end <= ranges[i].end
    ensures Find(ranges, key, l, u) != -1
    decreases u - l
  {
    var i := (l + u) / 2;
    if Contains(ranges[i], key) {
    } else if key < ranges[i].start {
      FindHits(ranges, key, l, i - 1, c);
    } else {
      FindHits(ranges, key, i + 1, u, c);
    }
  }

  /** In an ordered list the search finds a range if there is one. */
  lemma SearchHits(ranges: seq<DataRange>, key: int)
    requires Ordered(ranges)
    ensures SearchIndex(ranges, key) != -1 <==> Hit(ranges, key)
  {
    if c :| 0 <= c < |ranges| && Contains(ranges[c], key) {
      FindHits(ranges, key, 0, |ranges| - 1, c);
    }
  }

  /** No range before i contains the key. */
  ghost predicate FirstHit(ranges: seq<DataRange>, key: int, i: int) {
    forall j :: 0 <= j < |ranges| && Contains(ranges[j], key) ==> i <= j
  }

  /** No range after i contains the key. */
  ghost predicate LastHit(ranges: seq<DataRange>, key: int, i: int) {
    forall j :: 0 <= j < |ranges| && Contains(ranges[j], key) ==> j <= i
  }

  // The query

  /** The bounds that two search results stand for; -1 means not found. */
  function Bounds(n: nat, s: int, e: int): (nat, nat)
    requires -1 <= s < n && -1 <= e < n
  {
    if s == -1 && e == -1 then (0, 0)
    else if s == -1 then (0, e + 1)
    else if e == -1 then (s, n)
    else (s, e + 1)
  }

  function QueryBounds(ranges: seq<DataRange>, start: int, end: int): (bounds: (nat, nat))
    ensures bounds.0 <= |ranges| && bounds.1 <= |ranges|
  {
    Bounds(|ranges|, SearchIndex(ranges, start), SearchIndex(ranges, end))
  }

  function Answer(ranges: seq<DataRange>, start: int, end: int): seq<DataRange> {
    var (lo, hi) := QueryBounds(ranges, start, end);
    PySlice(ranges, lo, hi)
  }

  predicate Inside(r: DataRange, start: int, end: int) {
    start < r.start && r.end < end
  }

  /** What a range query answers, by the ends that hit a range. With both ends
      hit, all of the answer meets the query; with one end hit, the answer runs
      on to the end of the list on the other side. What overlaps the query is
      never missing then, and what meets it is not exactly when the searches
      have come upon the outermost range at each end that is hit. With neither
      end hit nothing is answered. A query that ends before it starts, with both
      ends hit, gives at most the one range that contains both. */
  ghost predicate AnswersQuery(ranges: seq<DataRange>, start: int, end: int, lo: nat, hi: nat) {
    var s, e := SearchIndex(ranges, start), SearchIndex(ranges, end);
    && (Hit(ranges, start) ==> lo == s) && (!Hit(ranges, start) ==> lo == 0)
    && (Hit(ranges, end) ==> hi == e + 1)
    && (!Hit(ranges, end) ==> hi == if Hit(ranges, start) then |ranges| else 0)
    && (Hit(ranges, start) && Hit(ranges, end) && start <= end ==>
          && Sound(ranges, start, end, lo, hi)
          && Covers(ranges, start, end, lo, hi)
          && (Complete(ranges, start, end, lo, hi) <==> FirstHit(ranges, start, s) && LastHit(ranges, end, e)))
    && (!Hit(ranges, start) && Hit(ranges, end) && start <= end ==>
          && (Sound(ranges, start, end, lo, hi) <==> start <= ranges[0].start)
          && Covers(ranges, start, end, lo, hi)
          && (Complete(ranges, start, end, lo, hi) <==> LastHit(ranges, end, e)))
    && (Hit(ranges, start) && !Hit(ranges, end) && start <= end ==>
          && (Sound(ranges, start, end, lo, hi) <==> ranges[|ranges| - 1].end <= end)
          && Covers(ranges, start, end, lo, hi)
          && (Complete(ranges, start, end, lo, hi) <==> FirstHit(ranges, start, s)))
    && (!Hit(ranges, start) && !Hit(ranges, end) ==> lo == hi)
    && (!Hit(ranges, start) && !Hit(ranges, end) && start <= end ==>
          (Complete(ranges, start, end, lo, hi) <==>
            !exists i :: 0 <= i < |ranges| && Inside(ranges[i], start, end)))
    && (Hit(ranges, start) && Hit(ranges, end) && end < start ==>
          && hi <= lo + 1
          && forall i :: lo <= i < hi ==>
            i < |ranges| && Contains(ranges[i], start) && Contains(ranges[i], end))
  }

  lemma BothHit(ranges: seq<DataRange>, start: int, end: int, s: nat, e: nat)
    requires Ordered(ranges) && start <= end
    requires s < |ranges| && Contains(ranges[s], start) && e < |ranges| && Contains(ranges[e], end)
    ensures Sound(ranges, start, end, s, e + 1) && Covers(ranges, start, end, s, e + 1)
    ensures Complete(ranges, start, end, s, e + 1) <==> FirstHit(ranges, start, s) && LastHit(ranges, end, e)
  {
    if Complete(ranges, start, end, s, e + 1) {
      forall j | 0 <= j < |ranges|
        ensures Contains(ranges[j], start) ==> s <= j
        ensures Contains(ranges[j], end) ==> j <= e
      {
        assert Contains(ranges[j], start) || Contains(ranges[j], end) ==> Meets(ranges[j], start, end);
      }
    }
  }

  lemma OnlyEndHit(ranges: seq<DataRange>, start: int, end: int, e: nat)
    requires Ordered(ranges) && start <= end
    requires !Hit(ranges, start) && e < |ranges| && Contains(ranges[e], end)
    ensures Sound(ranges, start, end, 0, e + 1) <==> start <= ranges[0].start
    ensures Covers(ranges, start, end, 0, e + 1)
    ensures Complete(ranges, start, end, 0, e + 1) <==> LastHit(ranges, end, e)
  {
    assert !Contains(ranges[0], start);
    if Complete(ranges, start, end, 0, e + 1) {
      forall j | 0 <= j < |ranges| && Contains(ranges[j], end) ensures j <= e {
        assert Meets(ranges[j], start, end) || ranges[j].end < start;
      }
    }
  }

  lemma OnlyStartHit(ranges: seq<DataRange>, start: int, end: int, s: nat)
    requires Ordered(ranges) && start <= end
    requires s < |ranges| && Contains(ranges[s], start) && !Hit(ranges, end)
    ensures Sound(ranges, start, end, s, |ranges|) <==> ranges[|ranges| - 1].end <= end
    ensures Covers(ranges, start, end, s, |ranges|)
    ensures Complete(ranges, start, end, s, |ranges|) <==> FirstHit(ranges, start, s)
  {
    assert !Contains(ranges[|ranges| - 1], end);
    if Complete(ranges, start, end, s, |ranges|) {
      forall j | 0 <= j < |ranges| && Contains(ranges[j], start) ensures s <= j {
        assert Meets(ranges[j], start, end) || end < ranges[j].start;
      }
    }
  }

  lemma NeitherHit(ranges: seq<DataRange>, start: int, end: int)
    requires Ordered(ranges) && start <= end
    requires !Hit(ranges, start) && !Hit(ranges, end)
    ensures Complete(ranges, start, end, 0, 0) <==>
      !exists i :: 0 <= i < |ranges| && Inside(ranges[i], start, end)
  {
    forall i | 0 <= i < |ranges|
      ensures Meets(ranges[i], start, end) <==> Inside(ranges[i], start, end)
    {
      assert !Contains(ranges[i], start) && !Contains(ranges[i], end);
    }
  }

  lemma BoundsAnswerQuery(ranges: seq<DataRange>, start: int, end: int)
    requires Ordered(ranges)
    ensures var (lo, hi) := QueryBounds(ranges, start, end);
      AnswersQuery(ranges, start, end, lo, hi)
  {
    SearchHits(ranges, start);
    SearchHits(ranges, end);
    var s, e := SearchIndex(ranges, start), SearchIndex(ranges, end);
    if start <= end {
      if s == -1 && e == -1 {
        NeitherHit(ranges, start, end);
      } else if s == -1 {
        OnlyEndHit(ranges, start, end, e);
      } else if e == -1 {
        OnlyStartHit(ranges, start, end, s);
      } else {
        BothHit(ranges, start, end, s, e);
      }
    }
  }

  /** The query gives every range that meets it. */
  ghost predicate QueryComplete(ranges: seq<DataRange>, start: int, end: int) {
    var (lo, hi) := QueryBounds(ranges, start, end);
    Complete(ranges, start, end, lo, hi)
  }

  /** Queries with both ends hit give exactly the ranges that meet them, and those
      with one end hit at least these, exactly when no two ranges share an
      endpoint. */
  lemma SeparatedExactly(ranges: seq<DataRange>)
    requires Ordered(ranges)
    ensures Separated(ranges) <==>
      forall start, end :: start <= end && Hit(ranges, start) && Hit(ranges, end) ==>
        Answer(ranges, start, end) == Meeting(ranges, start, end)
    ensures Separated(ranges) <==>
      forall start, end :: start <= end && (Hit(ranges, start) || Hit(ranges, end)) ==>
        QueryComplete(ranges, start, end)
  {
    if Separated(ranges) {
      forall start, end | start <= end && (Hit(ranges, start) || Hit(ranges, end))
        ensures QueryComplete(ranges, start, end)
        ensures Hit(ranges, start) && Hit(ranges, end) ==>
          Answer(ranges, start, end) == Meeting(ranges, start, end)
      {
        SeparatedComplete(ranges, start, end);
      }
    } else {
      var i, j :| 0 <= i < j < |ranges| && ranges[i].end >= ranges[j].start;
      SharedEndpoint(ranges, i, j);
    }
  }

  lemma SeparatedComplete(ranges: seq<DataRange>, start: int, end: int)
    requires Ordered(ranges) && Separated(ranges) && start <= end && (Hit(ranges, start) || Hit(ranges, end))
    ensures QueryComplete(ranges, start, end)
    ensures Hit(ranges, start) && Hit(ranges, end) ==>
      Answer(ranges, start, end) == Meeting(ranges, start, end)
  {
    var (lo, hi) := QueryBounds(ranges, start, end);
    BoundsAnswerQuery(ranges, start, end);
    SearchHits(ranges, start);
    SearchHits(ranges, end);
    SliceIsMeeting(ranges, start, end, lo, hi);
  }

  /** A query for just an endpoint that two ranges share gives one of them. */
  lemma SharedEndpoint(ranges: seq<DataRange>, i: nat, j: nat)
    requires Ordered(ranges) && i < j < |ranges| && ranges[i].end >= ranges[j].start
    ensures var p := ranges[i].end;
      && Hit(ranges, p)
      && !QueryComplete(ranges, p, p)
      && |Answer(ranges, p, p)| == 1
      && Answer(ranges, p, p) != Meeting(ranges, p, p)
  {
    var p := ranges[i].end;
    assert Contains(ranges[i], p) && Contains(ranges[j], p);
    SearchHits(ranges, p);
    var (lo, hi) := QueryBounds(ranges, p, p);
    assert hi == lo + 1;
    assert Meets(ranges[i], p, p) && Meets(ranges[j], p, p);
    SliceIsMeeting(ranges, p, p, lo, hi);
  }

  /** Three ranges in a row, of which a query that covers the middle one and
      touches the others gives the middle one only. */
  lemma NeighboursLeftOut()
    ensures var a, b, c := DataRange(0, 5, "a"), DataRange(5, 10, "b"), DataRange(10, 15, "c");
      && Ordered([a, b, c])
      && Answer([a, b, c], 5, 10) == [b]
      && Meeting([a, b, c], 5, 10) == [a, b, c]
  {
    var a, b, c := DataRange(0, 5, "a"), DataRange(5, 10, "b"), DataRange(10, 15, "c");
    SelectEverything([a, b, c], (r: DataRange) => Meets(r, 5, 10), 0);
  }

  /** Of equal ranges that all contain the key, the search finds the middle one, and
      of an even number the one before the middle. */
  lemma MiddleFound(n: nat, r: DataRange, key: int)
    requires n > 0 && Contains(r, key)
    ensures SearchIndex(seq(n, _ => r), key) == (n - 1) / 2
  {
  }

  /** Among ranges one apart, the search halves what is left: the third of seven
      is looked at in the third step. */
  lemma HalvingFinds()
    ensures var ranges := seq(7, i requires i >= 0 => DataRange(10 * i, 10 * i + 5, ""));
      && Find(ranges, 22, 0, 6) == Find(ranges, 22, 0, 2) == Find(ranges, 22, 2, 2) == 2
      && Find(ranges, 28, 0, 6) == Find(ranges, 28, 0, 2) == Find(ranges, 28, 2, 2) == Find(ranges, 28, 3, 2) == -1
  {
  }

  /** Of any number of equal ranges without length, a query for them gives one. */
  lemma RepeatedRangesLeftOut(n: nat, r: DataRange)
    requires n > 0 && r.start == r.end
    ensures var ranges := seq(n, _ => r);
      Ordered(ranges) && |Answer(ranges, r.start, r.end)| == 1 && |Meeting(ranges, r.start, r.end)| == n
  {
    var ranges := seq(n, _ => r);
    SearchHits(ranges, r.start);
    assert Contains(ranges[0], r.start);
    SelectEverything(ranges, (x: DataRange) => Meets(x, r.start, r.end), 0);
  }

  class TimelineDataRange {
    var ranges: seq<DataRange>

    constructor ()
      ensures ranges == [] && Ordered(ranges)
    {
      ranges := [];
    }

    /** The order is kept exactly when the range starts where the last one ended
        or later. */
    method AddRange(r: DataRange)
      modifies this
      ensures ranges == old(ranges) + [r]
      ensures Ordered(ranges) <==>
        && Ordered(old(ranges)) && r.start <= r.end
        && (old(ranges) != [] ==> old(ranges)[|old(ranges)| - 1].end <= r.start)
    {
      ghost var before := ranges;
      ranges := ranges + [r];
      OrderedAppend(before, r);
    }

    method Search(key: int) returns (index: int)
      ensures index == SearchIndex(ranges, key)
      ensures Ordered(ranges) ==> (index == -1 <==> !Hit(ranges, key))
    {
      if Ordered(ranges) {
        SearchHits(ranges, key);
      }
      var l, u := 0, |ranges| - 1;
      while l <= u
        invariant 0 <= l <= u + 1 <= |ranges|
        invariant Find(ranges, key, l, u) == SearchIndex(ranges, key)
      {
        var i := (l + u) / 2;
        if key >= ranges[i].start && key <= ranges[i].end {
          return i;
        } else if key < ranges[i].start {
          u := i - 1;
        } else {
          l := i + 1;
        }
      }
      return -1;
    }

    /** In an ordered list with both ends hit, the ranges that meet the query
        exactly when both searches come upon the outermost range. */
    method GetRanges(start: int, end: int) returns (selected: seq<DataRange>)
      ensures selected == Answer(ranges, start, end)
      ensures Ordered(ranges) ==>
        var (lo, hi) := QueryBounds(ranges, start, end);
        && AnswersQuery(ranges, start, end, lo, hi)
        && (selected == Meeting(ranges, start, end)
            <==> Sound(ranges, start, end, lo, hi) && Complete(ranges, start, end, lo, hi))
    {
      var s := Search(start);
      var e := Search(end);
      if s == -1 && e == -1 {
        selected := [];
      } else if s == -1 {
        selected := PySlice(ranges, 0, e + 1);
      } else if e == -1 {
        selected := PySlice(ranges, s, |ranges|);
      } else {
        selected := PySlice(ranges, s, e + 1);
      }
      if Ordered(ranges) {
        BoundsAnswerQuery(ranges, start, end);
        ghost var bounds := QueryBounds(ranges, start, end);
        SliceIsMeeting(ranges, start, end, bounds.0, bounds.1);
      }
    }

    method GetRangesBounds(start: int, end: int) returns (lo: nat, hi: nat)
      ensures (lo, hi) == QueryBounds(ranges, start, end)
      ensures Ordered(ranges) ==> AnswersQuery(ranges, start, end, lo, hi)
    {
      var s := Search(start);
      var e := Search(end);
      if s == -1 && e == -1 {
        lo, hi := 0, 0;
      } else if s == -1 {
        lo, hi := 0, e + 1;
      } else if e == -1 {
        lo, hi := s, |ranges|;
      } else {
        lo, hi := s, e + 1;
      }
      if Ordered(ranges) {
        BoundsAnswerQuery(ranges, start, end);
      }
    }
  }

  lemma OrderedAppend(ranges: seq<DataRange>, r: DataRange)
    ensures Ordered(ranges + [r]) <==>
      && Ordered(ranges) && r.start <= r.end
      && (ranges != [] ==> ranges[|ranges| - 1].end <= r.start)
  {
    var all := ranges + [r];
    if Ordered(all) {
      assert all[|ranges|] == r;
      assert forall i :: 0 <= i < |ranges| ==> all[i] == ranges[i];
    }
  }

  // ---------------------------------------------------------------------
  // Events
  // ---------------------------------------------------------------------

  /** Events in ascending order; several may be at the same time. */
  ghost predicate InOrder(events: seq<Event>) {
    forall i, j :: 0 <= i < j < |events| ==> events[i].at <= events[j].at
  }

  ghost predicate DistinctTimes(events: seq<Event>) {
    forall i, j :: 0 <= i < j < |events| ==> events[i].at < events[j].at
  }

  ghost predicate AnyAt(events: seq<Event>, key: int) {
    exists i :: 0 <= i < |events| && events[i].at == key
  }

  // The search

  /** The loop of the binary search, between positions l and u. */
  function FindEvent(events: seq<Event>, key: int, l: int, u: int): (index: nat)
    requires 0 <= l <= u + 1 <= |events|
    ensures l <= index <= u + 1
    decreases u - l + 1
  {
    if l > u then l
    else
      var i := (l + u) / 2;
      if key == events[i].at then i
      else if key < events[i].at then FindEvent(events, key, l, i - 1)
      else FindEvent(events, key, i + 1, u)
  }

  function EventIndex(events: seq<Event>, key: int): (index: nat)
    ensures index <= |events|
  {
    FindEvent(events, key, 0, |events| - 1)
  }

  /** Where key belongs in the order; at an event at key, if there is one. */
  ghost predicate InsertionPoint(events: seq<Event>, key: int, i: nat) {
    && i <= |events|
    && (forall j :: 0 <= j < i ==> events[j].at <= key)
    && (forall j :: i <= j < |events| ==> key <= events[j].at)
    && (AnyAt(events, key) <==> i < |events| && events[i].at == key)
  }

  lemma {:induction false} FindEventInserts(events: seq<Event>, key: int, l: int, u: int)
    requires InOrder(events) && 0 <= l <= u + 1 <= |events|
    requires forall j :: 0 <= j < l ==> events[j].at < key
    requires forall j :: u < j < |events| ==> key < events[j].at
    ensures InsertionPoint(events, key, FindEvent(events, key, l, u))
    decreases u - l + 1
  {
    if l > u {
    } else {
      var i := (l + u) / 2;
      if key < events[i].at {
        FindEventInserts(events, key, l, i - 1);
      } else if key > events[i].at {
        FindEventInserts(events, key, i + 1, u);
      }
    }
  }

  lemma SearchInserts(events: seq<Event>, key: int)
    requires InOrder(events)
    ensures InsertionPoint(events, key, EventIndex(events, key))
  {
    FindEventInserts(events, key, 0, |events| - 1);
  }

  /** No event before i is at key. */
  ghost predicate FirstAt(events: seq<Event>, key: int, i: int) {
    forall j :: 0 <= j < |events| && events[j].at == key ==> i <= j
  }

  /** No event after i is at key. */
  ghost predicate LastAt(events: seq<Event>, key: int, i: int) {
    forall j :: 0 <= j < |events| && events[j].at == key ==> j <= i
  }

  // The query

  /** The events in [start, end], in order. */
  function Within(events: seq<Event>, start: int, end: int): (w: seq<Event>)
    ensures forall e :: e in w <==> e in events && start <= e.at <= end
  {
    SelectMembers(events, (e: Event) => start <= e.at <= end, 0);
    Select(events, (e: Event) => start <= e.at <= end, 0)
  }

  /** The first event after key, if there is any and none is at key. */
  ghost function Next(events: seq<Event>, key: int): seq<Event> {
    var later := Select(events, (e: Event) => key < e.at, 0);
    if AnyAt(events, key) || later == [] then [] else [later[0]]
  }

  function EventAnswer(events: seq<Event>, start: int, end: int): seq<Event> {
    PySlice(events, EventIndex(events, start), EventIndex(events, end) + 1)
  }

  /** The slice gives every event of the interval. */
  ghost predicate EventsComplete(events: seq<Event>, start: int, end: int) {
    forall i :: 0 <= i < |events| && start <= events[i].at <= end ==>
      EventIndex(events, start) <= i < EventIndex(events, end) + 1
  }

  /** What an event query answers: all events strictly between its ends, none
      outside but the next one, and that exactly when no event is at its end.
      Events at its ends are not missing exactly when the searches have come
      upon the first and the last of them. A query that ends before it starts
      gives at most one event. */
  ghost predicate AnswersEventQuery(events: seq<Event>, start: int, end: int) {
    var s, e, answer := EventIndex(events, start), EventIndex(events, end), EventAnswer(events, start, end);
    && (start <= end ==>
          && (forall i :: 0 <= i < |events| && start < events[i].at < end ==> s <= i < e + 1)
          && (forall i :: 0 <= i < |events| && s <= i < e + 1 ==>
                start <= events[i].at && (events[i].at <= end || Next(events, end) == [events[i]]))
          && (EventsComplete(events, start, end) <==> FirstAt(events, start, s) && LastAt(events, end, e))
          && (answer == Within(events, start, end) + Next(events, end)
              <==> FirstAt(events, start, s) && LastAt(events, end, e)))
    && (end < start ==> |answer| <= 1 && forall x :: x in answer ==> start <= x.at)
  }

  /** What the second search stops at, when it is not within the interval. */
  lemma NextEvent(events: seq<Event>, end: int)
    requires InOrder(events)
    ensures var e := EventIndex(events, end);
      Next(events, end) == if e < |events| && end < events[e].at then [events[e]] else []
  {
    var e := EventIndex(events, end);
    SearchInserts(events, end);
    if e < |events| && end < events[e].at {
      SelectSlice(events, (x: Event) => end < x.at, e, |events|, 0);
    } else if !AnyAt(events, end) {
      SelectSlice(events, (x: Event) => end < x.at, e, e, 0);
    }
  }

  lemma CompleteEvents(events: seq<Event>, start: int, end: int)
    requires InOrder(events) && start <= end
    ensures EventsComplete(events, start, end) <==>
      FirstAt(events, start, EventIndex(events, start)) && LastAt(events, end, EventIndex(events, end))
  {
    SearchInserts(events, start);
    SearchInserts(events, end);
  }

  /** Where the part of the slice that lies within the interval ends. */
  ghost function IntervalEnd(events: seq<Event>, s: nat, e: nat, end: int): nat {
    var h := if e < |events| && events[e].at == end then e + 1 else e;
    if s <= h then h else s
  }

  lemma IntervalPart(events: seq<Event>, start: int, end: int, s: nat, e: nat)
    requires InOrder(events) && start <= end
    requires InsertionPoint(events, start, s) && InsertionPoint(events, end, e)
    ensures var hi := IntervalEnd(events, s, e, end);
      && s <= hi <= |events|
      && (forall i :: s <= i < hi ==> start <= events[i].at <= end)
      && (forall i :: 0 <= i < |events| && start <= events[i].at <= end ==> (s <= i < hi <==> s <= i < e + 1))
      && PySlice(events, s, e + 1)
         == events[s..hi] + if e < |events| && end < events[e].at then [events[e]] else []
  {
  }

  /** The slice is the events of the interval and the next one exactly when it
      has all of the former. */
  lemma EventSlice(events: seq<Event>, start: int, end: int)
    requires InOrder(events) && start <= end
    ensures EventAnswer(events, start, end) == Within(events, start, end) + Next(events, end)
        <==> EventsComplete(events, start, end)
  {
    var hi := EventParts(events, start, end);
    var s := EventIndex(events, start);
    SliceIsSelection(events, (x: Event) => start <= x.at <= end, s, hi);
    SameTail(events[s..hi], Within(events, start, end), Next(events, end));
  }

  /** The slice in two parts: events of the interval, and the next one. */
  lemma EventParts(events: seq<Event>, start: int, end: int) returns (hi: nat)
    requires InOrder(events) && start <= end
    ensures EventIndex(events, start) <= hi <= |events|
    ensures EventAnswer(events, start, end) == events[EventIndex(events, start)..hi] + Next(events, end)
    ensures forall i :: EventIndex(events, start) <= i < hi ==> start <= events[i].at <= end
    ensures EventsComplete(events, start, end) <==>
      forall i :: 0 <= i < |events| && start <= events[i].at <= end ==> EventIndex(events, start) <= i < hi
  {
    SearchInserts(events, start);
    SearchInserts(events, end);
    NextEvent(events, end);
    var s, e := EventIndex(events, start), EventIndex(events, end);
    hi := IntervalEnd(events, s, e, end);
    IntervalPart(events, start, end, s, e);
  }

  lemma SameTail<T>(a: seq<T>, b: seq<T>, tail: seq<T>)
    ensures a + tail == b + tail <==> a == b
  {
    if a + tail == b + tail {
      assert (a + tail)[..|a|] == a && (b + tail)[..|b|] == b;
    }
  }

  lemma SearchesAnswerQuery(events: seq<Event>, start: int, end: int)
    requires InOrder(events)
    ensures AnswersEventQuery(events, start, end)
  {
    SearchInserts(events, start);
    SearchInserts(events, end);
    if start <= end {
      NextEvent(events, end);
      CompleteEvents(events, start, end);
      EventSlice(events, start, end);
    }
  }

  /** No query leaves out an event of its interval exactly when all times differ. */
  lemma DistinctExactly(events: seq<Event>)
    requires InOrder(events)
    ensures DistinctTimes(events) <==>
      forall start, end :: start <= end ==> EventsComplete(events, start, end)
    ensures DistinctTimes(events) <==>
      forall start, end :: start <= end ==>
        EventAnswer(events, start, end) == Within(events, start, end) + Next(events, end)
  {
    if DistinctTimes(events) {
      forall start, end | start <= end
        ensures EventsComplete(events, start, end)
        ensures EventAnswer(events, start, end) == Within(events, start, end) + Next(events, end)
      {
        SearchInserts(events, start);
        SearchInserts(events, end);
        CompleteEvents(events, start, end);
        EventSlice(events, start, end);
      }
    } else {
      var i, j :| 0 <= i < j < |events| && events[i].at >= events[j].at;
      SharedTime(events, i, j);
    }
  }

  /** A query for just a time that two events share gives one of them. */
  lemma SharedTime(events: seq<Event>, i: nat, j: nat)
    requires InOrder(events) && i < j < |events| && events[i].at >= events[j].at
    ensures var t := events[i].at;
      && !EventsComplete(events, t, t)
      && |EventAnswer(events, t, t)| == 1
      && EventAnswer(events, t, t) != Within(events, t, t) + Next(events, t)
  {
    var t := events[i].at;
    SearchInserts(events, t);
    EventSlice(events, t, t);
    assert t <= events[j].at <= t;
  }

  /** Of events at one time, the search finds the middle one. */
  lemma MiddleEventFound(n: nat, event: Event)
    requires n > 0
    ensures EventIndex(seq(n, _ => event), event.at) == (n - 1) / 2
  {
  }

  /** Of any number of events at one time, a query for that time gives one. */
  lemma RepeatedEventsLeftOut(n: nat, event: Event)
    requires n > 0
    ensures var events := seq(n, _ => event);
      && InOrder(events)
      && |EventAnswer(events, event.at, event.at)| == 1
      && |Within(events, event.at, event.at)| == n
  {
    var events := seq(n, _ => event);
    SearchInserts(events, event.at);
    assert events[0].at == event.at;
    SelectEverything(events, (x: Event) => event.at <= x.at <= event.at, 0);
  }

  class TimelineEvent {
    var events: seq<Event>

    constructor ()
      ensures events == [] && InOrder(events)
    {
      events := [];
    }

    /** The order is kept exactly when no earlier event is added last. */
    method AddEvent(event: Event)
      modifies this
      ensures events == old(events) + [event]
      ensures InOrder(events) <==>
        InOrder(old(events)) && (old(events) != [] ==> old(events)[|old(events)| - 1].at <= event.at)
    {
      ghost var before := events;
      events := events + [event];
      InOrderAppend(before, event);
    }

    method Search(key: int) returns (index: nat)
      ensures index == EventIndex(events, key)
      ensures InOrder(events) ==> InsertionPoint(events, key, index)
    {
      if InOrder(events) {
        SearchInserts(events, key);
      }
      var l, u := 0, |events| - 1;
      while l <= u
        invariant 0 <= l <= u + 1 <= |events|
        invariant FindEvent(events, key, l, u) == EventIndex(events, key)
      {
        var i := (l + u) / 2;
        if key == events[i].at {
          return i;
        } else if key < events[i].at {
          u := i - 1;
        } else {
          l := i + 1;
        }
      }
      return l;
    }

    /** In an ordered list, the events of the interval and the next one, exactly
        when the searches come upon the first and the last event at its ends. */
    method GetEvents(start: int, end: int) returns (selected: seq<Event>)
      ensures selected == EventAnswer(events, start, end)
      ensures InOrder(events) ==> AnswersEventQuery(events, start, end)
      ensures InOrder(events) && start <= end ==>
        (selected == Within(events, start, end) + Next(events, end) <==> EventsComplete(events, start, end))
      ensures DistinctTimes(events) && start <= end ==>
        selected == Within(events, start, end) + Next(events, end)
    {
      var s := Search(start);
      var e := Search(end);
      selected := PySlice(events, s, e + 1);
      if InOrder(events) {
        SearchesAnswerQuery(events, start, end);
        DistinctExactly(events);
      }
    }

    /** The bounds of the slice that GetEvents returns. */
    method GetEventsBounds(start: int, end: int) returns (lo: nat, hi: nat)
      ensures lo == EventIndex(events, start) && hi == EventIndex(events, end) + 1
      ensures PySlice(events, lo, hi) == EventAnswer(events, start, end)
      ensures InOrder(events) ==> AnswersEventQuery(events, start, end)
    {
      if InOrder(events) {
        SearchesAnswerQuery(events, start, end);
      }
      var s := Search(start);
      var e := Search(end);
      lo, hi := s, e + 1;
    }
  }

  lemma InOrderAppend(events: seq<Event>, event: Event)
    ensures InOrder(events + [event]) <==>
      InOrder(events) && (events != [] ==> events[|events| - 1].at <= event.at)
  {
    var all := events + [event];
    if InOrder(all) {
      assert all[|events|] == event;
      assert forall i :: 0 <= i < |events| ==> all[i] == events[i];
    }
  }
}
