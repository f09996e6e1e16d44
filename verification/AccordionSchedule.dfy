/** The accordion schedule of scratch/sharedTwtSpEval.cc: at level L the
    stations are split into 2^L groups, and each group shares one service
    period per beacon interval. The slot length is a time divided by a double,
    which ns-3 rounds to the nearest nanosecond. */
module AccordionSchedule {
  import opened TwtSchedules

  // ---------------------------------------------------------------------
  // Powers of two
  // ---------------------------------------------------------------------

  function Pow2(n: nat): (p: nat)
    ensures p >= 1
  {
    if n == 0 then 1 else 2 * Pow2(n - 1)
  }

  lemma {:induction false} Pow2Adds(a: nat, b: nat)
    ensures Pow2(a + b) == Pow2(a) * Pow2(b)
  {
    if a == 0 {
    } else {
      Pow2Adds(a - 1, b);
      assert Pow2(a + b) == 2 * (Pow2(a - 1) * Pow2(b));
    }
  }

  /** x / 2^n, one halving at a time. */
  function Halved(x: nat, n: nat): nat {
    if n == 0 then x else Halved(x, n - 1) / 2
  }

  lemma {:induction false} HalvedBounds(x: nat, n: nat)
    ensures Halved(x, n) * Pow2(n) <= x < Halved(x, n) * Pow2(n) + Pow2(n)
  {
    if n == 0 {
    } else {
      HalvedBounds(x, n - 1);
      HalvingStep(x, Halved(x, n - 1), Halved(x, n), Pow2(n - 1));
    }
  }

  lemma HalvingStep(x: nat, h: nat, q: nat, p: nat)
    requires h * p <= x < h * p + p
    requires h == 2 * q || h == 2 * q + 1
    ensures q * (2 * p) <= x < q * (2 * p) + 2 * p
  {
    if h == 2 * q {
      assert h * p == q * (2 * p);
    } else {
      assert h * p == q * (2 * p) + p;
    }
  }

  lemma QuotientUnique(i: nat, m: nat, q: nat)
    requires 0 < m && q * m <= i < q * m + m
    ensures i / m == q
  {
    var q' := i / m;
    assert q' * m <= i < q' * m + m;
    if q' < q {
      ProductMonotone(q' + 1, q, m);
    } else if q < q' {
      ProductMonotone(q + 1, q', m);
    }
  }

  lemma HalvedIsQuotient(x: nat, n: nat)
    ensures Halved(x, n) == x / Pow2(n)
  {
    HalvedBounds(x, n);
    QuotientUnique(x, Pow2(n), Halved(x, n));
  }

  lemma HalvedUnique(x: nat, n: nat, q: nat)
    requires q * Pow2(n) <= x < q * Pow2(n) + Pow2(n)
    ensures Halved(x, n) == q
  {
    QuotientUnique(x, Pow2(n), q);
    HalvedIsQuotient(x, n);
  }

  // ---------------------------------------------------------------------
  // Dividing a time by a double
  // ---------------------------------------------------------------------

  const TWO_TO_64: nat := 0x1_0000_0000_0000_0000

  /** x / p to the nearest integer, halves upwards. */
  function Rounded(x: nat, p: nat): nat
    requires p > 0
  {
    (2 * x + p) / (2 * p)
  }

  /** The result is within half a unit of the exact quotient, and exact
      quotients are kept. */
  lemma RoundedIsNearest(x: nat, p: nat)
    requires p > 0
    ensures var r := Rounded(x, p);
      && 2 * x - p < 2 * (p * r) <= 2 * x + p
      && (p * r <= x <==> 2 * (x % p) < p)
      && (p * r == x <==> x % p == 0)
  {
    var q, m := x / p, x % p;
    var r := if 2 * m < p then q else q + 1;
    assert x == p * q + m;
    assert p * (q + 1) == p * q + p;
    NearestUnique(x, p, r);
  }

  lemma NearestUnique(x: nat, p: nat, r: nat)
    requires p > 0 && 2 * x - p < 2 * (p * r) <= 2 * x + p
    ensures Rounded(x, p) == r
  {
    assert r * (2 * p) == 2 * (p * r);
    QuotientUnique(2 * x + p, 2 * p, r);
  }

  /** Division of a non-negative time in 64.64 fixed point, then rounding by
      adding one half and dropping the fraction. */
  method DivideTime(ns: nat, divider: nat) returns (quotient: nat)
    requires divider > 0
    ensures quotient == Rounded(ns, divider)
  {
    var fixedPoint := ns * TWO_TO_64 / divider;
    quotient := (fixedPoint + TWO_TO_64 / 2) / TWO_TO_64;
    FixedPointRounds(ns, divider, fixedPoint, quotient);
  }

  lemma FixedPointRounds(ns: nat, p: nat, f: nat, q: nat)
    requires p > 0 && f == ns * TWO_TO_64 / p && q == (f + TWO_TO_64 / 2) / TWO_TO_64
    ensures q == Rounded(ns, p)
  {
    assert f * p <= ns * TWO_TO_64 < f * p + p;
    var g := f - q * TWO_TO_64;
    assert -(TWO_TO_64 / 2) <= g < TWO_TO_64 / 2;
    FixedPointBounds(ns, p, q, g);
    QuotientUnique(2 * ns + p, 2 * p, q);
  }

  lemma FixedPointBounds(ns: nat, p: nat, q: nat, g: int)
    requires p > 0 && -(TWO_TO_64 / 2) <= g < TWO_TO_64 / 2
    requires (g + q * TWO_TO_64) * p <= ns * TWO_TO_64 < (g + q * TWO_TO_64) * p + p
    ensures q * (2 * p) <= 2 * ns + p < q * (2 * p) + 2 * p
  {
    assert (g + q * TWO_TO_64) * p == g * p + (q * p) * TWO_TO_64;
    assert q * (2 * p) == 2 * (q * p);
    ProductMonotone(-(TWO_TO_64 / 2), g, p);
    ProductMonotone(g + 1, TWO_TO_64 / 2, p);
    assert (g + 1) * p == g * p + p;
  }

  // ---------------------------------------------------------------------
  // The schedule
  // ---------------------------------------------------------------------

  /** The group of station i among 2^e stations split into 2^level groups. */
  function Group(e: nat, level: nat, i: nat): nat
    requires level <= e
  {
    Halved(i, e - level)
  }

  function SlotLength(level: nat): nat {
    Rounded(BEACON_INTERVAL_EFFECTIVE, Pow2(level))
  }

  function SlotOffset(e: nat, level: nat, i: nat): nat
    requires level <= e
  {
    Group(e, level, i) * SlotLength(level) + FIRST_SP_OFFSET
  }

  /** The schedule for 2^e stations at accordion level 1 <= level <= e. */
  function Accordion(e: nat, level: nat): Schedule
    requires 1 <= level <= e
  {
    Schedule(BEACON_INTERVAL, SlotLength(level), seq(Pow2(e), i requires i >= 0 => SlotOffset(e, level, i)))
  }

  /** The stations per group, as the program divides them. */
  lemma GroupSize(e: nat, level: nat)
    requires level <= e
    ensures Pow2(e) / Pow2(level) == Pow2(e - level)
    ensures Pow2(e) == Pow2(level) * Pow2(e - level)
  {
    Pow2Adds(level, e - level);
    assert Pow2(e) == Pow2(e - level) * Pow2(level);
    QuotientUnique(Pow2(e), Pow2(level), Pow2(e - level));
  }

  /** The numbers of a schedule for n stations in a number of groups: it repeats
      every beacon interval; a slot is the effective beacon interval over the
      number of groups, to the nearest nanosecond; and the slots of the groups
      follow each other from 2 ms after the beacon on. */
  ghost predicate SharesInterval(s: Schedule, n: nat, groups: nat) {
    && s.interval == 102_400_000
    && 200_800_000 - groups < 2 * (groups * s.duration) <= 200_800_000 + groups
    && |s.offsets| == n && 0 < groups <= n
    && GroupsInSequence(s, n / groups)
  }

  ghost predicate GroupsInSequence(s: Schedule, size: nat) {
    size > 0 && forall i :: 0 <= i < |s.offsets| ==> s.offsets[i] == 2_000_000 + (i / size) * s.duration
  }

  lemma AccordionSharesInterval(e: nat, level: nat)
    requires 1 <= level <= e
    ensures SharesInterval(Accordion(e, level), Pow2(e), Pow2(level))
  {
    GroupSize(e, level);
    Pow2Monotone(level, e);
    RoundedIsNearest(BEACON_INTERVAL_EFFECTIVE, Pow2(level));
    forall i | 0 <= i < Pow2(e)
      ensures SlotOffset(e, level, i) == 2_000_000 + (i / Pow2(e - level)) * SlotLength(level)
    {
      HalvedIsQuotient(i, e - level);
    }
  }

  /** Slot g of a number of slots of length d. */
  lemma SlotFits(g: nat, groups: nat, d: nat)
    requires g < groups
    ensures 0 <= g * d && g * d + d <= groups * d
  {
    ProductMonotone(g + 1, groups, d);
    assert (g + 1) * d == g * d + d;
  }

  datatype Twt = NoTwt | Agreements(schedule: Schedule)

  /** Parameter set-up and the station loop. The station count is a power of
      two and the level at most its logarithm, as the program asserts. What the
      schedule is good for is stated here outright; the lemmas below prove it. */
  method InstallAccordion(nStations: nat, accordionLevel: nat, ghost e: nat) returns (twt: Twt)
    requires nStations == Pow2(e) && accordionLevel <= e
    ensures twt == if accordionLevel == 0 then NoTwt else Agreements(Accordion(e, accordionLevel))
    ensures accordionLevel > 0 ==> SharesInterval(twt.schedule, nStations, Pow2(accordionLevel))
    ensures accordionLevel > 0 ==> forall g: nat :: g < Pow2(accordionLevel) ==>
      |GroupMembers(e, accordionLevel, g)| == nStations / Pow2(accordionLevel)
    ensures accordionLevel > 0 ==>
      && (SlotsSeparate(e, accordionLevel) <==> accordionLevel != 27)
      && (twt.schedule.BeaconSafe() <==> SlotsRoundDown(accordionLevel))
      && (twt.schedule.FillsBeaconIntervals() <==>
            BEACON_INTERVAL_EFFECTIVE % Pow2(accordionLevel) == 0 || !SlotsRoundDown(accordionLevel))
  {
    if accordionLevel == 0 {
      return NoTwt;
    }
    var divider := Pow2(accordionLevel);
    var staCountModulusForTwt := nStations / divider;
    var slot := DivideTime(BEACON_INTERVAL_EFFECTIVE, divider);
    GroupSize(e, accordionLevel);
    var offsets: seq<int> := [];
    for i := 0 to nStations
      invariant |offsets| == i
      invariant forall j :: 0 <= j < i ==> offsets[j] == SlotOffset(e, accordionLevel, j)
    {
      HalvedIsQuotient(i, e - accordionLevel);
      var offsetInt := i / staCountModulusForTwt;
      offsets := offsets + [offsetInt * slot + FIRST_SP_OFFSET];
    }
    twt := Agreements(Schedule(BEACON_INTERVAL, slot, offsets));
    assert twt.schedule == Accordion(e, accordionLevel);
    AccordionSharesInterval(e, accordionLevel);
    AccordionFills(e, accordionLevel);
    forall g: nat | g < Pow2(accordionLevel)
      ensures |GroupMembers(e, accordionLevel, g)| == nStations / Pow2(accordionLevel)
    {
      GroupsHaveEqualSize(e, accordionLevel, g);
    }
    SlotsSeparateExactly(e, accordionLevel);
    AccordionBeaconSafe(e, accordionLevel);
  }

  // ---------------------------------------------------------------------
  // Groups
  // ---------------------------------------------------------------------

  function Block(lo: nat, size: nat): (b: set<nat>)
    ensures |b| == size
    ensures forall i: nat :: i in b <==> lo <= i < lo + size
  {
    if size == 0 then {} else Block(lo, size - 1) + {lo + size - 1}
  }

  lemma GroupInRange(e: nat, level: nat, i: nat)
    requires level <= e && i < Pow2(e)
    ensures Group(e, level, i) < Pow2(level)
  {
    GroupSize(e, level);
    HalvedBounds(i, e - level);
    if Group(e, level, i) >= Pow2(level) {
      ProductMonotone(Pow2(level), Group(e, level, i), Pow2(e - level));
    }
  }

  ghost function GroupMembers(e: nat, level: nat, g: nat): set<nat>
    requires level <= e
  {
    set i: nat | i < Pow2(e) && Group(e, level, i) == g
  }

  lemma InGroup(e: nat, level: nat, g: nat, i: nat)
    requires level <= e
    ensures Group(e, level, i) == g <==> g * Pow2(e - level) <= i < g * Pow2(e - level) + Pow2(e - level)
  {
    if Group(e, level, i) == g {
      HalvedBounds(i, e - level);
    } else if g * Pow2(e - level) <= i < g * Pow2(e - level) + Pow2(e - level) {
      HalvedUnique(i, e - level, g);
    }
  }

  /** The 2^level groups have n / 2^level stations each. */
  lemma GroupsHaveEqualSize(e: nat, level: nat, g: nat)
    requires level <= e && g < Pow2(level)
    ensures |GroupMembers(e, level, g)| == Pow2(e) / Pow2(level)
  {
    GroupSize(e, level);
    var m := Pow2(e - level);
    SlotFits(g, Pow2(level), m);
    var block := Block(g * m, m);
    forall i: nat
      ensures i in GroupMembers(e, level, g) <==> i in block
    {
      InGroup(e, level, g, i);
    }
    assert GroupMembers(e, level, g) == block;
  }

  // ---------------------------------------------------------------------
  // Sharing and separation of slots
  // ---------------------------------------------------------------------

  /** The first station of a group. */
  lemma GroupStart(e: nat, level: nat, g: nat) returns (i: nat)
    requires level <= e && g < Pow2(level)
    ensures i < Pow2(e) && Group(e, level, i) == g
  {
    i := g * Pow2(e - level);
    GroupSize(e, level);
    SlotFits(g, Pow2(level), Pow2(e - level));
    HalvedUnique(i, e - level, g);
  }

  lemma EarlierGroup(e: nat, level: nat, i: nat, j: nat)
    requires level <= e && Group(e, level, i) < Group(e, level, j)
    ensures SlotOffset(e, level, i) + SlotLength(level) <= SlotOffset(e, level, j)
  {
    var g, d := Group(e, level, i), SlotLength(level);
    ProductMonotone(g + 1, Group(e, level, j), d);
    assert (g + 1) * d == g * d + d;
  }

  /** The length of all slots together. */
  function AllSlots(level: nat): nat {
    Pow2(level) * SlotLength(level)
  }

  /** Where the slot of a group lies: after the first beacon's window, and
      before the end of all slots. */
  lemma SlotBounds(e: nat, level: nat, i: nat)
    requires level <= e && i < Pow2(e)
    ensures FIRST_SP_OFFSET <= SlotOffset(e, level, i)
    ensures SlotOffset(e, level, i) + SlotLength(level) <= FIRST_SP_OFFSET + AllSlots(level)
  {
    GroupInRange(e, level, i);
    SlotFits(Group(e, level, i), Pow2(level), SlotLength(level));
  }

  /** Two stations share an instant exactly when they are in the same group,
      and then they share the whole period. */
  ghost predicate SlotsSeparate(e: nat, level: nat)
    requires 1 <= level <= e
  {
    forall i: nat, j: nat, k: nat, m: nat, t: int ::
      i < Pow2(e) && j < Pow2(e) && Accordion(e, level).Awake(i, k, t) ==>
        (Accordion(e, level).Awake(j, m, t) <==> Group(e, level, i) == Group(e, level, j) && k == m)
  }

  /** When all slots fit into a beacon interval, stations of one group are awake
      at exactly the same instants, and stations of different groups never. */
  lemma GroupsShareSlots(e: nat, level: nat, i: nat, j: nat, k: nat, m: nat, t: int)
    requires 1 <= level <= e && i < Pow2(e) && j < Pow2(e)
    requires AllSlots(level) <= BEACON_INTERVAL
    requires Accordion(e, level).Awake(i, k, t)
    ensures Accordion(e, level).Awake(j, m, t) <==> Group(e, level, i) == Group(e, level, j) && k == m
  {
    var s := Accordion(e, level);
    SlotBounds(e, level, i);
    SlotBounds(e, level, j);
    if k < m {
      EarlierRepetition(s, i, j, k, m);
    } else if m < k {
      EarlierRepetition(s, j, i, m, k);
    } else if Group(e, level, i) < Group(e, level, j) {
      EarlierGroup(e, level, i, j);
    } else if Group(e, level, j) < Group(e, level, i) {
      EarlierGroup(e, level, j, i);
    }
  }

  lemma {:induction false} Pow2Monotone(a: nat, b: nat)
    requires a <= b
    ensures Pow2(a) <= Pow2(b)
  {
    if a == b {
    } else {
      Pow2Monotone(a, b - 1);
    }
  }

  lemma LargePowers()
    ensures Pow2(10) == 1_024 && Pow2(21) == 2_097_152
    ensures Pow2(22) == 4_194_304 && Pow2(23) == 8_388_608 && Pow2(24) == 16_777_216
    ensures Pow2(25) == 33_554_432 && Pow2(26) == 67_108_864
    ensures Pow2(27) == 134_217_728 && Pow2(28) == 268_435_456
  {
    assert Pow2(10) == 1_024;
    assert Pow2(20) == 1_048_576 by {
      Pow2Adds(10, 10);
    }
  }

  /** Rounding up makes all slots together longer than a beacon interval at
      level 27 only, where they are 1 ns each; from level 28 on they are empty. */
  lemma AllSlotsFit(level: nat)
    ensures AllSlots(level) <= BEACON_INTERVAL <==> level != 27
  {
    LargePowers();
    RoundedIsNearest(BEACON_INTERVAL_EFFECTIVE, Pow2(level));
    if level <= 21 {
      Pow2Monotone(level, 21);
    } else if level >= 28 {
      Pow2Monotone(28, level);
      assert SlotLength(level) == 0;
      assert AllSlots(level) == 0;
    } else {
      assert level == 22 || level == 23 || level == 24 || level == 25 || level == 26 || level == 27;
    }
  }

  lemma SlotsSeparateExactly(e: nat, level: nat)
    requires 1 <= level <= e
    ensures SlotsSeparate(e, level) <==> level != 27
  {
    AllSlotsFit(level);
    if level != 27 {
      forall i: nat, j: nat, k: nat, m: nat, t: int |
        i < Pow2(e) && j < Pow2(e) && Accordion(e, level).Awake(i, k, t)
        ensures Accordion(e, level).Awake(j, m, t) <==> Group(e, level, i) == Group(e, level, j) && k == m
      {
        GroupsShareSlots(e, level, i, j, k, m, t);
      }
    } else {
      Level27Overlaps(e);
    }
  }

  /** At level 27 the first group is awake again before the last ones are done. */
  lemma Level27Overlaps(e: nat)
    requires 27 <= e
    ensures !SlotsSeparate(e, 27)
  {
    LargePowers();
    var s := Accordion(e, 27);
    assert SlotLength(27) == 1;
    var i := GroupStart(e, 27, 0);
    var j := GroupStart(e, 27, BEACON_INTERVAL);
    var t := FIRST_SP_OFFSET + BEACON_INTERVAL;
    assert s.Awake(i, 1, t) && s.Awake(j, 0, t);
  }

  // ---------------------------------------------------------------------
  // Beacons
  // ---------------------------------------------------------------------

  /** The slot length is not rounded up. */
  predicate SlotsRoundDown(level: nat) {
    2 * (BEACON_INTERVAL_EFFECTIVE % Pow2(level)) < Pow2(level)
  }

  /** The slots keep out of all beacon windows exactly when their length is not
      rounded up; otherwise some station is awake when a beacon is sent. */
  lemma AccordionBeaconSafe(e: nat, level: nat)
    requires 1 <= level <= e
    ensures Accordion(e, level).BeaconSafe() <==> SlotsRoundDown(level)
  {
    var s := Accordion(e, level);
    RoundedIsNearest(BEACON_INTERVAL_EFFECTIVE, Pow2(level));
    if SlotsRoundDown(level) {
      forall i | 0 <= i < |s.offsets|
        ensures ClearOfWindows(s.offsets[i], s.duration)
      {
        SlotBounds(e, level, i);
        assert BetweenWindows(s.offsets[i], s.duration, 0);
      }
      FirstRoundBeaconSafe(s, 1);
    } else {
      var i := StationAtBeacon(e, level);
      assert s.Awake(i, 0, BEACON_INTERVAL);
    }
  }

  /** The station that is awake when the next beacon is sent. */
  lemma StationAtBeacon(e: nat, level: nat) returns (i: nat)
    requires 1 <= level <= e && AllSlots(level) > BEACON_INTERVAL_EFFECTIVE
    ensures Accordion(e, level).Awake(i, 0, BEACON_INTERVAL)
  {
    var d := SlotLength(level);
    assert d > 0;
    var g := BEACON_INTERVAL_EFFECTIVE / d;
    assert g * d <= BEACON_INTERVAL_EFFECTIVE < g * d + d;
    if g >= Pow2(level) {
      ProductMonotone(Pow2(level), g, d);
      assert false;
    }
    i := GroupStart(e, level, g);
  }

  /** The slots leave no gap between the beacon windows exactly when they are long
      enough: when their length is exact or rounded up. */
  lemma AccordionFills(e: nat, level: nat)
    requires 1 <= level <= e
    ensures Accordion(e, level).FillsBeaconIntervals() <==>
      BEACON_INTERVAL_EFFECTIVE % Pow2(level) == 0 || !SlotsRoundDown(level)
  {
    RoundedIsNearest(BEACON_INTERVAL_EFFECTIVE, Pow2(level));
    if AllSlots(level) >= BEACON_INTERVAL_EFFECTIVE {
      forall t: int | FIRST_SP_OFFSET <= t && !InBeaconWindow(t)
        ensures exists i: nat, k: nat :: Accordion(e, level).Awake(i, k, t)
      {
        var i, k := SlotAt(e, level, t);
      }
    } else {
      NobodyAwake(e, level);
    }
  }

  lemma SlotAt(e: nat, level: nat, t: int) returns (i: nat, k: nat)
    requires 1 <= level <= e && AllSlots(level) >= BEACON_INTERVAL_EFFECTIVE
    requires FIRST_SP_OFFSET <= t && !InBeaconWindow(t)
    ensures Accordion(e, level).Awake(i, k, t)
  {
    var d := SlotLength(level);
    assert d > 0;
    k := t / BEACON_INTERVAL;
    var g := PeriodAt(t - k * BEACON_INTERVAL - FIRST_SP_OFFSET, d, Pow2(level));
    i := GroupStart(e, level, g);
    assert Accordion(e, level).Start(i, k) == g * d + FIRST_SP_OFFSET + k * BEACON_INTERVAL;
  }

  lemma NobodyAwake(e: nat, level: nat)
    requires 1 <= level <= e && AllSlots(level) < BEACON_INTERVAL_EFFECTIVE
    ensures !Accordion(e, level).FillsBeaconIntervals()
  {
    var s, t := Accordion(e, level), FIRST_SP_OFFSET + AllSlots(level);
    BetweenBeacons(t, 0);
    assert FIRST_SP_OFFSET <= t && !InBeaconWindow(t);
    forall i: nat, k: nat ensures !s.Awake(i, k, t) {
      if i < Pow2(e) {
        SlotBounds(e, level, i);
        if k > 0 {
          ProductMonotone(1, k, BEACON_INTERVAL);
        }
      }
    }
  }

  /** Up to level 7 the slots divide the effective beacon interval exactly. */
  lemma SmallLevelsRoundDown(level: nat)
    requires level <= 7
    ensures BEACON_INTERVAL_EFFECTIVE % Pow2(level) == 0
    ensures SlotsRoundDown(level)
  {
    assert level == 0 || level == 1 || level == 2 || level == 3
        || level == 4 || level == 5 || level == 6 || level == 7;
  }

  /** Level 8 is the first that does not keep the windows free: its slots of
      392188 ns together end 128 ns after the next beacon. */
  lemma Level8Overruns(e: nat)
    requires 8 <= e
    ensures SlotLength(8) == 392_188
    ensures FIRST_SP_OFFSET + AllSlots(8) == BEACON_INTERVAL + 128
    ensures !Accordion(e, 8).BeaconSafe()
  {
    assert Pow2(8) == 256;
    AccordionBeaconSafe(e, 8);
  }

  // ---------------------------------------------------------------------
  // From one level to the next
  // ---------------------------------------------------------------------

  /** Every instant a station is awake at the finer level it is awake at the
      coarser one, in the same repetition. */
  ghost predicate Refines(fine: Schedule, coarse: Schedule) {
    forall i: nat, k: nat, t: int :: fine.Awake(i, k, t) ==> coarse.Awake(i, k, t)
  }

  /** The two half slots of a slot that halves without rounding. */
  lemma HalfSlotInside(e: nat, level: nat, i: nat)
    requires level + 1 <= e && SlotLength(level) == 2 * SlotLength(level + 1)
    ensures SlotOffset(e, level, i) <= SlotOffset(e, level + 1, i)
    ensures SlotOffset(e, level + 1, i) + SlotLength(level + 1)
         <= SlotOffset(e, level, i) + SlotLength(level)
  {
    var g, g' := Group(e, level, i), Group(e, level + 1, i);
    var d, d' := SlotLength(level), SlotLength(level + 1);
    assert g == g' / 2;
    assert g * d == (2 * g) * d';
    if g' == 2 * g + 1 {
      assert g' * d' == (2 * g) * d' + d';
    } else {
      assert g' == 2 * g;
    }
  }

  /** A slot longer than its two halves: the first half slot of the second group
      starts too early. A slot shorter than its two halves: the second half slot
      of the first group ends too late. */
  lemma UnevenSlotOutside(e: nat, level: nat)
    requires 1 <= level && level + 1 <= e
    requires SlotLength(level) != 2 * SlotLength(level + 1) && SlotLength(level + 1) > 0
    ensures !Refines(Accordion(e, level + 1), Accordion(e, level))
  {
    var d, d' := SlotLength(level), SlotLength(level + 1);
    var g' := if d > 2 * d' then 2 else 1;
    assert Pow2(level + 1) == 4 * Pow2(level - 1);
    var i := GroupStart(e, level + 1, g');
    assert Group(e, level, i) == g' / 2;
    var t := FIRST_SP_OFFSET + 2 * d' - if d > 2 * d' then 0 else 1;
    assert Accordion(e, level + 1).Awake(i, 0, t);
    assert !Accordion(e, level).Awake(i, 0, t);
  }

  /** Raising the accordion level by one narrows every station's slot exactly
      when the slot is twice the next one, or the next one is empty. */
  lemma NextLevelRefines(e: nat, level: nat)
    requires 1 <= level && level + 1 <= e
    ensures Refines(Accordion(e, level + 1), Accordion(e, level))
        <==> SlotLength(level) == 2 * SlotLength(level + 1) || SlotLength(level + 1) == 0
  {
    var fine, coarse := Accordion(e, level + 1), Accordion(e, level);
    if SlotLength(level + 1) == 0 {
      assert fine.duration == 0;
    } else if SlotLength(level) == 2 * SlotLength(level + 1) {
      forall i: nat, k: nat, t: int | fine.Awake(i, k, t)
        ensures coarse.Awake(i, k, t)
      {
        HalfSlotInside(e, level, i);
      }
    } else {
      UnevenSlotOutside(e, level);
    }
  }

  /** Level 8 is the first that does not refine the level before it: its slots are
      more than half as long. */
  lemma Level8NotInside(e: nat)
    requires 8 <= e
    ensures SlotLength(7) == 784_375 && SlotLength(8) == 392_188
    ensures !Refines(Accordion(e, 8), Accordion(e, 7))
  {
    assert Pow2(7) == 128 && Pow2(8) == 256;
    NextLevelRefines(e, 7);
  }

  /** In particular it does when 2^(level+1) divides the effective interval. */
  lemma DivisibleLevelRefines(e: nat, level: nat)
    requires 1 <= level && level + 1 <= e
    requires BEACON_INTERVAL_EFFECTIVE % Pow2(level + 1) == 0
    ensures Refines(Accordion(e, level + 1), Accordion(e, level))
  {
    var p, d' := Pow2(level), SlotLength(level + 1);
    RoundedIsNearest(BEACON_INTERVAL_EFFECTIVE, 2 * p);
    assert p * (2 * d') == (2 * p) * d';
    NearestUnique(BEACON_INTERVAL_EFFECTIVE, p, 2 * d');
    NextLevelRefines(e, level);
  }
}
