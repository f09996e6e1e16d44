/** Target Wake Time schedules of scratch/wns3VaryLoad.cc: the dTwt1, dTwt2 and
    dTwt3 use cases.

    All times are integer nanoseconds relative to the beacon the offsets count
    from. Station i is awake during the half-open service periods
    [offset_i + k * interval, offset_i + k * interval + duration), k >= 0.
    Times are divided by integers, which truncates. */
module TwtSchedules {

  const BEACON_INTERVAL: int := 102_400_000
  const BEACON_INTERVAL_EFFECTIVE: int := 100_400_000
  const FIRST_SP_OFFSET: int := 2_000_000

  datatype Schedule = Schedule(interval: int, duration: int, offsets: seq<int>) {

    function Start(i: nat, k: nat): int
      requires i < |offsets|
    {
      offsets[i] + k * interval
    }

    /** Instant t lies in the k-th service period of station i. */
    predicate Awake(i: nat, k: nat, t: int) {
      i < |offsets| && Start(i, k) <= t < Start(i, k) + duration
    }

    /** No instant lies in two service periods. */
    ghost predicate Disjoint() {
      forall i: nat, j: nat, k: nat, m: nat, t: int ::
        Awake(i, k, t) && Awake(j, m, t) ==> i == j && k == m
    }

    /** From 2 ms after the beacon on, some station is awake at every instant
        outside the beacon windows. */
    ghost predicate FillsBeaconIntervals() {
      forall t: int :: FIRST_SP_OFFSET <= t && !InBeaconWindow(t) ==> exists i: nat, k: nat :: Awake(i, k, t)
    }

    /** No service period touches the first 2 ms after any beacon. */
    ghost predicate BeaconSafe() {
      forall i: nat, k: nat, t: int :: Awake(i, k, t) ==> !InBeaconWindow(t)
    }
  }

  predicate InBeaconWindow(t: int) {
    t % BEACON_INTERVAL < FIRST_SP_OFFSET
  }

  // ---------------------------------------------------------------------
  // The station loop
  // ---------------------------------------------------------------------

  /** The offset of station i: services in sequence, and a further 2 ms once
      the plain offset comes within 2 ms of the next beacon. */
  function StationOffset(duration: int, i: nat): int {
    var offset := FIRST_SP_OFFSET + i * duration;
    if offset >= BEACON_INTERVAL - FIRST_SP_OFFSET then offset + FIRST_SP_OFFSET else offset
  }

  /** The loop shared by the three use cases. */
  method StationOffsets(nStations: nat, duration: int) returns (offsets: seq<int>)
    ensures offsets == seq(nStations, i requires i >= 0 => StationOffset(duration, i))
  {
    offsets := [];
    for i := 0 to nStations
      invariant offsets == seq(i, j requires j >= 0 => StationOffset(duration, j))
    {
      var nextTwtOffset := FIRST_SP_OFFSET + (i * duration);
      if nextTwtOffset >= BEACON_INTERVAL - FIRST_SP_OFFSET {
        nextTwtOffset := nextTwtOffset + FIRST_SP_OFFSET;
      }
      offsets := offsets + [nextTwtOffset];
    }
  }

  function StationSchedule(n: nat, duration: int, interval: int): Schedule {
    Schedule(interval, duration, seq(n, i requires i >= 0 => StationOffset(duration, i)))
  }

  function DTwt1(n: nat): Schedule {
    StationSchedule(n, BEACON_INTERVAL_EFFECTIVE / 16, n * BEACON_INTERVAL / 16)
  }

  function DTwt2(n: nat): Schedule
    requires n > 0
  {
    StationSchedule(n, 2 * BEACON_INTERVAL_EFFECTIVE / n, 2 * BEACON_INTERVAL)
  }

  function DTwt3(n: nat): Schedule {
    StationSchedule(n, BEACON_INTERVAL_EFFECTIVE / 16, 2 * BEACON_INTERVAL)
  }

  datatype UseCase = DTwt1Case | DTwt2Case | DTwt3Case

  /** Station i starts 2 ms and i service periods after the beacon, and another
      2 ms later if that is less than 2 ms before the next beacon or after it. */
  ghost predicate ServedInSequence(s: Schedule) {
    forall i :: 0 <= i < |s.offsets| ==>
      var plain := 2_000_000 + i * s.duration;
      && (plain < 100_400_000 ==> s.offsets[i] == plain)
      && (plain >= 100_400_000 ==> s.offsets[i] == plain + 2_000_000)
  }

  /** Each period starts when the one before ends, but for the 2 ms kept free
      around the next beacon. */
  ghost predicate BackToBack(s: Schedule) {
    forall i :: 0 <= i < |s.offsets| - 1 ==>
      var gap := s.offsets[i + 1] - (s.offsets[i] + s.duration);
      if s.offsets[i] < 100_400_000 <= s.offsets[i + 1] then gap == 2_000_000 else gap == 0
  }

  /** The schedule one simulation run installs. Its numbers and its properties
      are stated here outright; the lemmas below prove them. */
  method InstallSchedule(useCase: UseCase, nStations: nat) returns (s: Schedule)
    requires nStations > 0
    ensures s == match useCase
                 case DTwt1Case => DTwt1(nStations)
                 case DTwt2Case => DTwt2(nStations)
                 case DTwt3Case => DTwt3(nStations)
    ensures |s.offsets| == nStations && ServedInSequence(s) && BackToBack(s)
    ensures useCase.DTwt1Case? ==> s.duration == 6_275_000 && s.interval == nStations * 6_400_000
    ensures useCase.DTwt2Case? ==>
      200_800_000 - nStations < nStations * s.duration <= 200_800_000 && s.interval == 204_800_000
    ensures useCase.DTwt3Case? ==> s.duration == 6_275_000 && s.interval == 204_800_000
    ensures useCase.DTwt1Case? && (nStations == 16 || nStations == 32) ==> s.FillsBeaconIntervals()
    ensures useCase.DTwt2Case? && nStations <= 100 && DTwt2KeepsBeacons(nStations) ==> s.FillsBeaconIntervals()
    ensures useCase.DTwt3Case? && nStations == 32 ==> s.FillsBeaconIntervals()
    ensures useCase.DTwt1Case? ==>
      s.Disjoint() && (s.BeaconSafe() <==> nStations == 16 || nStations == 32)
    ensures useCase.DTwt2Case? ==>
      s.Disjoint() && (s.BeaconSafe() <==> DTwt2KeepsBeacons(nStations))
    ensures useCase.DTwt3Case? ==>
      (s.Disjoint() <==> nStations <= 32) && (s.BeaconSafe() <==> nStations <= 32)
  {
    var duration, interval;
    match useCase {
    case DTwt1Case =>
      duration, interval := BEACON_INTERVAL_EFFECTIVE / 16, nStations * BEACON_INTERVAL / 16;
      DTwt1Interval(nStations);
      DTwt1Disjoint(nStations);
      DTwt1BeaconSafe(nStations);
    case DTwt2Case =>
      duration, interval := 2 * BEACON_INTERVAL_EFFECTIVE / nStations, 2 * BEACON_INTERVAL;
      DTwt2Rounding(nStations, 0);
      DTwt2Disjoint(nStations);
      DTwt2BeaconSafe(nStations);
    case DTwt3Case =>
      duration, interval := BEACON_INTERVAL_EFFECTIVE / 16, 2 * BEACON_INTERVAL;
      DTwt3Disjoint(nStations);
      DTwt3BeaconSafe(nStations);
    }
    var offsets := StationOffsets(nStations, duration);
    s := Schedule(interval, duration, offsets);
    assert s == StationSchedule(nStations, duration, interval);
    SequenceIsBackToBack(s);
    Filled(useCase, nStations, s);
  }

  lemma SequenceIsBackToBack(s: Schedule)
    requires 0 <= s.duration && s == StationSchedule(|s.offsets|, s.duration, s.interval)
    ensures ServedInSequence(s) && BackToBack(s)
  {
    forall i | 0 <= i < |s.offsets| - 1
      ensures
        var gap := s.offsets[i + 1] - (s.offsets[i] + s.duration);
        if s.offsets[i] < 100_400_000 <= s.offsets[i + 1] then gap == 2_000_000 else gap == 0
    {
      assert (i + 1) * s.duration == i * s.duration + s.duration;
    }
  }

  /** When the stations fill the time between the beacon windows. */
  lemma Filled(useCase: UseCase, n: nat, s: Schedule)
    requires n > 0
    requires s == match useCase case DTwt1Case => DTwt1(n) case DTwt2Case => DTwt2(n) case DTwt3Case => DTwt3(n)
    ensures useCase.DTwt1Case? && (n == 16 || n == 32) ==> s.FillsBeaconIntervals()
    ensures useCase.DTwt2Case? && n <= 100 && DTwt2KeepsBeacons(n) ==> s.FillsBeaconIntervals()
    ensures useCase.DTwt3Case? && n == 32 ==> s.FillsBeaconIntervals()
  {
    match useCase
    case DTwt1Case =>
      if n == 16 || n == 32 {
        RoundsFill(s, 16, n / 16);
      }
    case DTwt2Case =>
      if n <= 100 && DTwt2KeepsBeacons(n) {
        DTwt2HalfRound(n / 2);
        RoundsFill(s, n / 2, 2);
      }
    case DTwt3Case =>
      if n == 32 {
        RoundsFill(s, 16, 2);
      }
  }

  /** h stations per beacon interval, over one or two of them. */
  lemma RoundsFill(s: Schedule, h: nat, rounds: nat)
    requires h > 0 && 1 <= rounds <= 2
    requires s == StationSchedule(rounds * h, s.duration, rounds * BEACON_INTERVAL)
    requires s.duration > FIRST_SP_OFFSET && h * s.duration == BEACON_INTERVAL_EFFECTIVE
    ensures s.FillsBeaconIntervals()
  {
    forall t: int | FIRST_SP_OFFSET <= t && !InBeaconWindow(t)
      ensures exists i: nat, k: nat :: s.Awake(i, k, t)
    {
      var i, k := StationAwake(s, h, rounds, t);
    }
  }

  /** The period, of those that follow each other from a beacon window on, in
      which an instant lies. */
  lemma PeriodAt(x: nat, d: nat, h: nat) returns (j: nat)
    requires d > 0 && x < h * d
    ensures j < h && j * d <= x < j * d + d
  {
    j := x / d;
    assert j * d <= x < j * d + d;
    if j >= h {
      ProductMonotone(h, j, d);
      assert false;
    }
  }

  /** Where the stations of the first and the second beacon interval start. */
  lemma HalfOffsets(d: int, h: nat, j: nat)
    requires d > FIRST_SP_OFFSET && j < h && h * d == BEACON_INTERVAL_EFFECTIVE
    ensures StationOffset(d, j) == FIRST_SP_OFFSET + j * d
    ensures StationOffset(d, h + j) == BEACON_INTERVAL + FIRST_SP_OFFSET + j * d
  {
    ProductMonotone(j + 1, h, d);
    ProductMonotone(0, j, d);
    assert (j + 1) * d == j * d + d;
    assert (h + j) * d == h * d + j * d;
  }

  /** The station that is awake at t, and in which repetition. */
  lemma StationAwake(s: Schedule, h: nat, rounds: nat, t: int) returns (i: nat, k: nat)
    requires h > 0 && 1 <= rounds <= 2
    requires s == StationSchedule(rounds * h, s.duration, rounds * BEACON_INTERVAL)
    requires s.duration > FIRST_SP_OFFSET && h * s.duration == BEACON_INTERVAL_EFFECTIVE
    requires FIRST_SP_OFFSET <= t && !InBeaconWindow(t)
    ensures s.Awake(i, k, t)
  {
    var q, x := t / BEACON_INTERVAL, t % BEACON_INTERVAL;
    var j := PeriodAt(x - FIRST_SP_OFFSET, s.duration, h);
    HalfOffsets(s.duration, h, j);
    if rounds == 1 {
      i, k := j, q;
    } else if q % 2 == 0 {
      i, k := j, q / 2;
    } else {
      i, k := h + j, q / 2;
    }
    assert s.offsets[i] == StationOffset(s.duration, i);
    assert s.Start(i, k) == q * BEACON_INTERVAL + FIRST_SP_OFFSET + j * s.duration;
  }


  // ---------------------------------------------------------------------
  // Arithmetic over repetitions
  // ---------------------------------------------------------------------

  lemma ProductMonotone(a: int, b: int, c: int)
    requires a <= b && 0 <= c
    ensures a * c <= b * c
  {
  }

  /** A round ends before the next one starts, so an earlier repetition of
      any station ends before a later one of any other. */
  lemma EarlierRepetition(s: Schedule, i: nat, j: nat, k: nat, m: nat)
    requires i < |s.offsets| && j < |s.offsets| && k < m && 0 <= s.interval
    requires s.offsets[i] + s.duration <= s.offsets[j] + s.interval
    ensures s.Start(i, k) + s.duration <= s.Start(j, m)
  {
    ProductMonotone(k + 1, m, s.interval);
    assert (k + 1) * s.interval == k * s.interval + s.interval;
  }

  /** Periods are disjoint over all repetitions when they are disjoint within
      one round and a round ends before the next one starts. */
  lemma RoundsDisjoint(s: Schedule)
    requires 0 <= s.interval
    requires forall i, j :: 0 <= i < j < |s.offsets| ==> s.offsets[i] + s.duration <= s.offsets[j]
    requires forall i, j :: 0 <= i < |s.offsets| && 0 <= j < |s.offsets| ==>
      s.offsets[i] + s.duration <= s.offsets[j] + s.interval
    ensures s.Disjoint()
  {
    forall i: nat, j: nat, k: nat, m: nat, t: int | s.Awake(i, k, t) && s.Awake(j, m, t)
      ensures i == j && k == m
    {
      if k < m {
        EarlierRepetition(s, i, j, k, m);
      } else if m < k {
        EarlierRepetition(s, j, i, m, k);
      }
    }
  }

  lemma OffsetsInSequence(d: int, i: nat, j: nat)
    requires 0 <= d && i < j
    ensures FIRST_SP_OFFSET <= StationOffset(d, i)
    ensures StationOffset(d, i) + d <= StationOffset(d, j)
  {
    ProductMonotone(0, i, d);
    ProductMonotone(i + 1, j, d);
    assert (i + 1) * d == i * d + d;
  }

  /** Stations served in sequence never overlap when the last one is done one
      interval after the first one started. */
  lemma SequenceDisjoint(n: nat, d: int, interval: int)
    requires 0 < n && 0 <= d && 0 <= interval
    requires StationOffset(d, n - 1) + d <= FIRST_SP_OFFSET + interval
    ensures StationSchedule(n, d, interval).Disjoint()
  {
    var s := StationSchedule(n, d, interval);
    forall i, j | 0 <= i < j < n
      ensures s.offsets[i] + d <= s.offsets[j]
    {
      OffsetsInSequence(d, i, j);
    }
    forall i, j | 0 <= i < n && 0 <= j < n
      ensures s.offsets[i] + d <= s.offsets[j] + interval
    {
      OffsetsInSequence(d, j, n);
      if i < n - 1 {
        OffsetsInSequence(d, i, n - 1);
      }
    }
    RoundsDisjoint(s);
  }

  /** Instants from 2 ms after beacon q up to beacon q + 1 are outside the window. */
  lemma BetweenBeacons(t: int, q: int)
    ensures q * BEACON_INTERVAL <= t < (q + 1) * BEACON_INTERVAL ==>
      t % BEACON_INTERVAL == t - q * BEACON_INTERVAL
  {
  }

  /** A schedule that repeats every beacon or every second beacon keeps the
      windows free when each period of the first round does. */
  lemma FirstRoundBeaconSafe(s: Schedule, c: nat)
    requires s.interval == c * BEACON_INTERVAL
    requires forall i :: 0 <= i < |s.offsets| ==> ClearOfWindows(s.offsets[i], s.duration)
    ensures s.BeaconSafe()
  {
    forall i: nat, k: nat, t: int | s.Awake(i, k, t)
      ensures !InBeaconWindow(t)
    {
      var q: int :| BetweenWindows(s.offsets[i], s.duration, q);
      assert k * s.interval == (k * c) * BEACON_INTERVAL;
      BetweenBeacons(t, q + k * c);
    }
  }

  /** A period lies between the end of the window after beacon q and beacon q + 1. */
  predicate BetweenWindows(start: int, duration: int, q: int) {
    q * BEACON_INTERVAL + FIRST_SP_OFFSET <= start
    && start + duration <= (q + 1) * BEACON_INTERVAL
  }

  ghost predicate ClearOfWindows(start: int, duration: int) {
    exists q: int :: BetweenWindows(start, duration, q)
  }

  // ---------------------------------------------------------------------
  // dTwt1
  // ---------------------------------------------------------------------

  lemma DTwt1Interval(n: nat)
    ensures n * BEACON_INTERVAL / 16 == n * 6_400_000
  {
    assert n * BEACON_INTERVAL == 16 * (n * 6_400_000);
  }

  lemma DTwt1Disjoint(n: nat)
    requires n > 0
    ensures DTwt1(n).Disjoint()
  {
    DTwt1Interval(n);
    SequenceDisjoint(n, BEACON_INTERVAL_EFFECTIVE / 16, n * 6_400_000);
  }

  /** gcd(n, 16) for n not divisible by 16. */
  function TwoPart(n: nat): (g: nat)
    requires n % 16 != 0
    ensures g in {1, 2, 4, 8} && n % g == 0 && g <= n
  {
    if n % 2 == 1 then 1 else if n % 4 == 2 then 2 else if n % 8 == 4 then 4 else 8
  }

  /** A repetition count that brings the round of n stations to g/16 of a
      beacon interval before a beacon. */
  function LateRepetition(n: nat): nat {
    match n % 16
    case 1 => 15 case 3 => 5 case 5 => 3 case 7 => 9
    case 9 => 7 case 11 => 13 case 13 => 11 case 15 => 1
    case 2 => 7 case 6 => 5 case 10 => 3 case 14 => 1
    case 4 => 3 case 12 => 1
    case _ => 1
  }

  lemma LateRepetitionIsLate(n: nat)
    requires n < 32 && n % 16 != 0
    ensures (LateRepetition(n) * n + TwoPart(n)) % 16 == 0
  {
    var k, r := LateRepetition(n), n % 16;
    assert n == r || n == r + 16;
    assert (k * r + TwoPart(n)) % 16 == 0;
    assert k * (r + 16) == k * r + 16 * k;
  }

  /** The station and repetition under way when a beacon is sent. */
  lemma DTwt1CrossesBeacon(n: nat)
    requires 0 < n < 32 && n % 16 != 0
    ensures !DTwt1(n).BeaconSafe()
  {
    DTwt1Interval(n);
    LateRepetitionIsLate(n);
    var s, k, g := DTwt1(n), LateRepetition(n), TwoPart(n);
    var m := (k * n + g) / 16;
    assert k * n == 16 * m - g;
    assert s.Start(g - 1, k) == s.offsets[g - 1] + (16 * m - g) * 6_400_000;
    assert s.Awake(g - 1, k, m * BEACON_INTERVAL);
    BetweenBeacons(m * BEACON_INTERVAL, m);
  }

  /** dTwt1 leaves the beacon windows free for exactly 16 and 32 stations. */
  lemma DTwt1BeaconSafe(n: nat)
    requires n > 0
    ensures DTwt1(n).BeaconSafe() <==> n == 16 || n == 32
  {
    var s := DTwt1(n);
    if n == 16 || n == 32 {
      forall i | 0 <= i < n
        ensures ClearOfWindows(s.offsets[i], s.duration)
      {
        assert BetweenWindows(s.offsets[i], s.duration, if i < 16 then 0 else 1);
      }
      FirstRoundBeaconSafe(s, n / 16);
    } else if n > 32 {
      assert s.Awake(32, 0, 2 * BEACON_INTERVAL);
    } else {
      DTwt1CrossesBeacon(n);
    }
  }

  // ---------------------------------------------------------------------
  // dTwt3
  // ---------------------------------------------------------------------

  lemma DTwt3Disjoint(n: nat)
    requires n > 0
    ensures DTwt3(n).Disjoint() <==> n <= 32
  {
    var s := DTwt3(n);
    if n <= 32 {
      SequenceDisjoint(n, s.duration, s.interval);
    } else {
      var t := s.Start(0, 1);
      assert s.Awake(0, 1, t) && s.Awake(32, 0, t);
    }
  }

  lemma DTwt3BeaconSafe(n: nat)
    requires n > 0
    ensures DTwt3(n).BeaconSafe() <==> n <= 32
  {
    var s := DTwt3(n);
    if n <= 32 {
      forall i | 0 <= i < n
        ensures ClearOfWindows(s.offsets[i], s.duration)
      {
        assert BetweenWindows(s.offsets[i], s.duration, if i < 16 then 0 else 1);
      }
      FirstRoundBeaconSafe(s, 2);
    } else {
      assert s.Awake(32, 0, 2 * BEACON_INTERVAL);
    }
  }

  // ---------------------------------------------------------------------
  // dTwt2
  // ---------------------------------------------------------------------

  /** The rounding of the truncating division over i of the n stations. */
  lemma DTwt2Rounding(n: nat, i: nat)
    requires 0 < n && i < n
    ensures var d := DTwt2(n).duration;
      && 0 <= d && i * d + d <= n * d
      && 200_800_000 - n < n * d <= 200_800_000
  {
    ProductMonotone(i + 1, n, DTwt2(n).duration);
  }

  lemma DTwt2Disjoint(n: nat)
    requires n > 0
    ensures DTwt2(n).Disjoint()
  {
    var s := DTwt2(n);
    DTwt2Rounding(n, n - 1);
    SequenceDisjoint(n, s.duration, s.interval);
  }

  /** For an even number of at most 100 stations every period ends by the next
      beacon and starts at most n/2 ns inside the window after a beacon. */
  lemma DTwt2NearlyBeaconSafe(n: nat, i: nat, k: nat)
    requires n % 2 == 0 && i < n <= 100
    ensures var s := DTwt2(n);
      ClearOfWindows(s.Start(i, k) + n / 2, s.duration - n / 2)
  {
    var s := DTwt2(n);
    var q := DTwt2Beacon(n, i);
    assert BetweenWindows(s.Start(i, k) + n / 2, s.duration - n / 2, q + 2 * k);
  }

  /** Half of the stations fill one effective beacon interval but for the rounding. */
  lemma DTwt2HalfRound(h: nat)
    requires 0 < h <= 50
    ensures var d := DTwt2(2 * h).duration;
      && d > FIRST_SP_OFFSET
      && BEACON_INTERVAL_EFFECTIVE - h < h * d <= BEACON_INTERVAL_EFFECTIVE
      && (200_800_000 % (2 * h) == 0 ==> h * d == BEACON_INTERVAL_EFFECTIVE)
  {
    var n, d := 2 * h, DTwt2(2 * h).duration;
    assert n * d + 200_800_000 % n == 200_800_000;
    assert n * d == 2 * (h * d);
    if d <= FIRST_SP_OFFSET {
      ProductMonotone(n, 100, d);
      assert false;
    }
  }

  /** The beacon before the first period of station i. */
  lemma DTwt2Beacon(n: nat, i: nat) returns (q: int)
    requires n % 2 == 0 && i < n <= 100
    ensures var s := DTwt2(n);
      && q * BEACON_INTERVAL + FIRST_SP_OFFSET - n / 2 <= s.offsets[i]
      && s.offsets[i] + s.duration <= (q + 1) * BEACON_INTERVAL
      && (200_800_000 % n == 0 ==> BetweenWindows(s.offsets[i], s.duration, q))
  {
    var d, h := DTwt2(n).duration, n / 2;
    assert n == 2 * h;
    DTwt2HalfRound(h);
    if i < h {
      q := 0;
      ProductMonotone(0, i, d);
      ProductMonotone(i + 1, h, d);
      assert (i + 1) * d == i * d + d;
    } else {
      q := 1;
      ProductMonotone(h, i, d);
      ProductMonotone(i + 1, n, d);
      assert (i + 1) * d == i * d + d;
      assert n * d == 2 * (h * d);
    }
  }

  /** When dTwt2 leaves all beacon windows free: with more than 200.8 million
      stations the periods are empty; otherwise the stations must split evenly
      over two beacon intervals, without rounding and without crowding. */
  predicate DTwt2KeepsBeacons(n: nat) {
    n > 200_800_000 || (0 < n <= 100 && n % 2 == 0 && 200_800_000 % n == 0)
  }

  lemma DTwt2BeaconSafe(n: nat)
    requires n > 0
    ensures DTwt2(n).BeaconSafe() <==> DTwt2KeepsBeacons(n)
  {
    var s := DTwt2(n);
    if n > 200_800_000 {
      assert s.duration == 0;
    } else if n > 100 {
      DTwt2Crowded(n);
    } else if n % 2 == 1 {
      DTwt2Odd(n);
    } else if 200_800_000 % n != 0 {
      var h := n / 2;
      assert n == 2 * h;
      DTwt2HalfRound(h);
      DTwt2UnevenHalf(h);
      assert s.Awake(h, 0, s.offsets[h]);
    } else {
      forall i | 0 <= i < n
        ensures ClearOfWindows(s.offsets[i], s.duration)
      {
        var q := DTwt2Beacon(n, i);
      }
      FirstRoundBeaconSafe(s, 2);
    }
  }

  lemma DTwt2UnevenHalf(h: nat)
    requires 0 < h <= 50 && 200_800_000 % (2 * h) != 0
    ensures h * DTwt2(2 * h).duration < BEACON_INTERVAL_EFFECTIVE
  {
    var n, d := 2 * h, DTwt2(2 * h).duration;
    assert n * d + 200_800_000 % n == 200_800_000;
    assert n * d == 2 * (h * d);
  }

  /** With more than 100 stations some station is moved into the window. */
  lemma DTwt2Crowded(n: nat)
    requires 100 < n <= 200_800_000
    ensures !DTwt2(n).BeaconSafe()
  {
    var s := DTwt2(n);
    var d := s.duration;
    DTwt2Rounding(n, 0);
    assert 1 <= d;
    assert d <= 2_000_000 by {
      if d > 2_000_000 {
        ProductMonotone(101, n, d);
      }
    }
    var i := (98_400_000 + d - 1) / d;
    assert i * d < 98_400_000 + d && 98_400_000 <= i * d;
    if i >= n {
      ProductMonotone(n, i, d);
      assert n > 100_400_000;
      ProductMonotone(1, d, n);
      assert false;
    }
    assert s.Awake(i, 0, s.offsets[i]);
  }

  /** With an odd number of stations the middle one touches the window. */
  lemma DTwt2Odd(n: nat)
    requires n <= 100 && n % 2 == 1
    ensures !DTwt2(n).BeaconSafe()
  {
    var s := DTwt2(n);
    var d, i := s.duration, n / 2;
    DTwt2Rounding(n, i);
    assert n * d == 2 * (i * d) + d by {
      assert n == 2 * i + 1;
    }
    if FIRST_SP_OFFSET + i * d >= BEACON_INTERVAL - FIRST_SP_OFFSET {
      assert s.Awake(i, 0, s.offsets[i]);
    } else {
      assert d > n;
      assert s.Awake(i, 0, BEACON_INTERVAL);
    }
  }
}
