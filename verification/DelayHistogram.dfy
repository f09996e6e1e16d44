/** Percentiles and interpolated quartiles of a delay histogram, as computed by
    scratch/videoTest.cc, over exact reals. Bins are contiguous, start at 0 and
    have equal width; their indices are unsigned 32-bit integers. */
module DelayHistogram {

  const TWO_TO_32: nat := 0x1_0000_0000

  datatype Histogram = Histogram(width: real, counts: seq<nat>) {
    ghost predicate Valid() {
      width > 0.0 && |counts| < TWO_TO_32
    }

    function BinStart(i: nat): real {
      i as real * width
    }

    /** For the index before the first one this is 0. */
    function BinEnd(i: nat): real {
      ((i + 1) % TWO_TO_32) as real * width
    }
  }

  // ---------------------------------------------------------------------
  // The samples behind a histogram
  // ---------------------------------------------------------------------

  function Total(counts: seq<nat>): nat {
    if counts == [] then 0 else Total(counts[..|counts| - 1]) + counts[|counts| - 1]
  }

  /** Samples in the bins before bin i. */
  function Before(counts: seq<nat>, i: nat): nat
    requires i <= |counts|
  {
    Total(counts[..i])
  }

  lemma BeforeNext(counts: seq<nat>, i: nat)
    requires i < |counts|
    ensures Before(counts, i + 1) == Before(counts, i) + counts[i]
  {
    assert counts[..i + 1][..i] == counts[..i];
  }

  lemma {:induction false} BeforeMonotone(counts: seq<nat>, i: nat, j: nat)
    requires i <= j <= |counts|
    ensures Before(counts, i) <= Before(counts, j)
    decreases j - i
  {
    if i == j {
    } else {
      BeforeMonotone(counts, i, j - 1);
      BeforeNext(counts, j - 1);
    }
  }

  /** All samples in ascending order, each given by its bin. */
  function Samples(counts: seq<nat>): (s: seq<nat>)
    ensures |s| == Total(counts)
    ensures forall k :: 0 <= k < |s| ==> s[k] < |counts|
    ensures forall k, m :: 0 <= k < m < |s| ==> s[k] <= s[m]
  {
    if counts == [] then []
    else
      var last := |counts| - 1;
      Samples(counts[..last]) + seq(counts[last], _ => last)
  }

  /** The number of samples in bin i is its count. */
  lemma {:induction false} SamplesPerBin(counts: seq<nat>, i: nat)
    requires i < |counts|
    ensures multiset(Samples(counts))[i] == counts[i]
  {
    var last := |counts| - 1;
    var rest := seq(counts[last], _ => last);
    assert multiset(Samples(counts)) == multiset(Samples(counts[..last])) + multiset(rest);
    Copies(counts[last], last);
    if i < last {
      SamplesPerBin(counts[..last], i);
    } else {
      assert last !in Samples(counts[..last]);
    }
  }

  lemma {:induction false} Copies(n: nat, x: nat)
    ensures multiset(seq(n, _ => x)) == multiset{}[x := n]
  {
    if n == 0 {
    } else {
      Copies(n - 1, x);
      assert seq(n, _ => x) == seq(n - 1, _ => x) + [x];
    }
  }

  /** The bin of the r-th smallest sample, counting from 1. */
  function BinOfRank(counts: seq<nat>, r: int): (b: nat)
    requires 1 <= r <= Total(counts)
    ensures b < |counts|
  {
    Samples(counts)[r - 1]
  }

  lemma {:induction false} RankInBin(counts: seq<nat>, r: int, b: nat)
    requires b < |counts| && Before(counts, b) < r <= Before(counts, b + 1)
    ensures r <= Total(counts) && BinOfRank(counts, r) == b
  {
    var last := |counts| - 1;
    assert counts[..|counts|] == counts;
    BeforeNext(counts, last);
    if b < last {
      assert counts[..last][..b] == counts[..b];
      assert counts[..last][..b + 1] == counts[..b + 1];
      RankInBin(counts[..last], r, b);
    } else {
      assert |Samples(counts[..last])| == Before(counts, last);
    }
  }

  function Ceiling(x: real): int {
    -((-x).Floor)
  }

  /** An integer is at least x exactly when it is at least the ceiling of x. */
  lemma CeilingBound(x: real, n: int)
    ensures n as real >= x <==> n >= Ceiling(x)
  {
  }

  /** The bin at which the cumulative count first reaches a target holds the
      sample whose rank is the target rounded up. */
  lemma TargetBin(counts: seq<nat>, target: real, b: nat)
    requires b < |counts| && target > 0.0
    requires Before(counts, b) as real < target <= Before(counts, b + 1) as real
    ensures 1 <= Ceiling(target) <= Total(counts)
    ensures BinOfRank(counts, Ceiling(target)) == b
  {
    CeilingBound(target, Before(counts, b));
    CeilingBound(target, Before(counts, b + 1));
    CeilingBound(target, 0);
    RankInBin(counts, Ceiling(target), b);
  }

  // ---------------------------------------------------------------------
  // Percentiles
  // ---------------------------------------------------------------------

  /** The rank a cumulative target stands for. */
  function RankOf(counts: seq<nat>, target: real): (r: int)
    requires 0.0 < target <= Total(counts) as real
    ensures 1 <= r <= Total(counts)
  {
    CeilingBound(target, Total(counts));
    CeilingBound(target, 0);
    Ceiling(target)
  }

  /** The share of n samples below a percentile. */
  function PercentileTarget(n: nat, percentile: real): (target: real)
    requires 0.0 <= percentile <= 100.0
    ensures 0.0 <= target <= n as real
    ensures target * 100.0 == n as real * percentile
    ensures target > 0.0 <==> n > 0 && percentile > 0.0
  {
    SharesOrdered(n as real, percentile, 100.0);
    var share := n as real * percentile;
    assert 0.0 <= share <= n as real * 100.0;
    share / 100.0
  }

  lemma TargetsOrdered(n: nat, p1: real, p2: real)
    requires 0.0 <= p1 <= p2 <= 100.0
    ensures PercentileTarget(n, p1) <= PercentileTarget(n, p2)
  {
    SharesOrdered(n as real, p1, p2);
  }

  lemma SharesOrdered(n: real, p1: real, p2: real)
    requires 0.0 <= n && 0.0 <= p1 <= p2
    ensures 0.0 <= n * p1 <= n * p2
    ensures n * p1 > 0.0 <==> n > 0.0 && p1 > 0.0
  {
    RealProductMonotone(p1, p2, n);
    assert n * p1 == p1 * n && n * p2 == p2 * n;
    if n > 0.0 && p1 > 0.0 {
      assert n * p1 > 0.0;
    }
  }

  /** The bin that holds the sample of rank ceil(percentile * N / 100); for the
      0th percentile, or without samples, the first bin. */
  function PercentileBin(counts: seq<nat>, percentile: real): (b: nat)
    requires 0.0 <= percentile <= 100.0 && |counts| > 0
    ensures b < |counts|
  {
    var target := PercentileTarget(Total(counts), percentile);
    if target > 0.0 then BinOfRank(counts, RankOf(counts, target)) else 0
  }

  /** A count is at least p of a hundred of n. */
  predicate ReachesShare(n: nat, percentile: real, count: nat) {
    count as real * 100.0 >= n as real * percentile
  }

  lemma ReachesTarget(n: nat, percentile: real, count: nat)
    requires 0.0 <= percentile <= 100.0 && PercentileTarget(n, percentile) > 0.0
    ensures count >= Ceiling(PercentileTarget(n, percentile)) <==> ReachesShare(n, percentile, count)
  {
    CeilingBound(PercentileTarget(n, percentile), count);
  }

  /** The first bin up to which there are p of a hundred samples. */
  lemma PercentileByCounts(counts: seq<nat>, percentile: real)
    requires 0.0 <= percentile <= 100.0 && |counts| > 0
    ensures ReachesShare(Total(counts), percentile, Before(counts, PercentileBin(counts, percentile) + 1))
    ensures forall j: nat :: 0 < j <= PercentileBin(counts, percentile) ==>
      !ReachesShare(Total(counts), percentile, Before(counts, j))
  {
    BinReaches(counts, percentile);
    forall j: nat | 0 < j <= PercentileBin(counts, percentile)
      ensures !ReachesShare(Total(counts), percentile, Before(counts, j))
    {
      EarlierBinMisses(counts, percentile, j);
    }
  }

  lemma BinReaches(counts: seq<nat>, percentile: real)
    requires 0.0 <= percentile <= 100.0 && |counts| > 0
    ensures ReachesShare(Total(counts), percentile, Before(counts, PercentileBin(counts, percentile) + 1))
  {
    var target, b := PercentileTarget(Total(counts), percentile), PercentileBin(counts, percentile);
    if target > 0.0 {
      BinHoldsRank(counts, RankOf(counts, target), b);
      ReachesTarget(Total(counts), percentile, Before(counts, b + 1));
    } else {
      NoShare(Total(counts), percentile, Before(counts, b + 1));
    }
  }

  lemma EarlierBinMisses(counts: seq<nat>, percentile: real, j: nat)
    requires 0.0 <= percentile <= 100.0 && |counts| > 0 && 0 < j <= PercentileBin(counts, percentile)
    ensures !ReachesShare(Total(counts), percentile, Before(counts, j))
  {
    var target, b := PercentileTarget(Total(counts), percentile), PercentileBin(counts, percentile);
    BinHoldsRank(counts, RankOf(counts, target), b);
    BeforeMonotone(counts, j, b);
    ReachesTarget(Total(counts), percentile, Before(counts, j));
  }

  lemma NoShare(n: nat, percentile: real, count: nat)
    requires 0.0 <= percentile <= 100.0 && PercentileTarget(n, percentile) <= 0.0
    ensures ReachesShare(n, percentile, count)
  {
  }

  /** The bin of a rank: fewer samples before it, enough up to it. */
  lemma {:induction false} BinHoldsRank(counts: seq<nat>, r: int, b: nat)
    requires 1 <= r <= Total(counts) && b == BinOfRank(counts, r)
    ensures Before(counts, b) < r <= Before(counts, b + 1)
  {
    var last := |counts| - 1;
    assert counts[..|counts|] == counts;
    BeforeNext(counts, last);
    if r <= Total(counts[..last]) {
      BinHoldsRank(counts[..last], r, b);
      assert counts[..last][..b] == counts[..b];
      assert counts[..last][..b + 1] == counts[..b + 1];
    } else {
      assert b == last;
    }
  }

  /** A histogram without bins has percentile value 0. */
  method GetPercentileValue(hist: Histogram, percentile: real) returns (value: real)
    requires hist.Valid() && 0.0 <= percentile <= 100.0
    ensures hist.counts != [] ==> value == hist.BinEnd(PercentileBin(hist.counts, percentile))
    ensures hist.counts == [] ==> value == 0.0
  {
    var counts := hist.counts;
    assert counts[..|counts|] == counts;
    var sum := 0.0;
    for i := 0 to |counts|
      invariant sum == Before(counts, i) as real
    {
      BeforeNext(counts, i);
      sum := sum + counts[i] as real;
    }
    var target := sum * percentile / 100.0;
    assert target == PercentileTarget(Total(counts), percentile);
    var bin := FirstBinReaching(counts, target);
    value := hist.BinEnd(bin);
  }

  /** The second loop: the first bin at which the cumulative count reaches the
      target. The fall-through is for targets above the total, and goes to the
      index before the first one when there are no bins. */
  method FirstBinReaching(counts: seq<nat>, target: real) returns (bin: nat)
    requires |counts| < TWO_TO_32
    ensures counts != [] ==> bin < |counts|
    ensures counts == [] ==> bin == TWO_TO_32 - 1
    ensures 0.0 < target <= Total(counts) as real ==> bin == BinOfRank(counts, RankOf(counts, target))
    ensures counts != [] && target <= 0.0 ==> bin == 0
    ensures counts != [] && target > Total(counts) as real ==> bin == |counts| - 1
  {
    assert counts[..|counts|] == counts;
    var sum := 0.0;
    for i := 0 to |counts|
      invariant sum == Before(counts, i) as real
      invariant i == 0 || sum < target
    {
      BeforeNext(counts, i);
      sum := sum + counts[i] as real;
      if sum >= target {
        if target > 0.0 {
          TargetBin(counts, target, i);
        }
        BeforeMonotone(counts, i + 1, |counts|);
        return i;
      }
    }
    bin := (|counts| - 1) % TWO_TO_32;
  }

  /** Percentile values are monotone in the percentile. */
  lemma PercentileMonotone(hist: Histogram, p1: real, p2: real)
    requires hist.Valid() && |hist.counts| > 0 && 0.0 <= p1 <= p2 <= 100.0
    ensures hist.BinEnd(PercentileBin(hist.counts, p1)) <= hist.BinEnd(PercentileBin(hist.counts, p2))
  {
    var n := Total(hist.counts);
    TargetsOrdered(n, p1, p2);
    var t1, t2 := PercentileTarget(n, p1), PercentileTarget(n, p2);
    if t1 > 0.0 {
      RanksOrdered(hist.counts, t1, t2);
    }
    BinsOrdered(hist, PercentileBin(hist.counts, p1), PercentileBin(hist.counts, p2));
  }

  lemma BinsOrdered(hist: Histogram, i: nat, j: nat)
    requires hist.Valid() && i <= j < |hist.counts|
    ensures hist.BinStart(i) <= hist.BinStart(j) && hist.BinEnd(i) <= hist.BinEnd(j)
    ensures i < j ==> hist.BinEnd(i) <= hist.BinStart(j)
  {
    BinEndIsStart(hist, i);
    BinEndIsStart(hist, j);
    BinStartsOrdered(hist, i, j);
    BinStartsOrdered(hist, i + 1, j + 1);
    if i < j {
      BinStartsOrdered(hist, i + 1, j);
    }
  }

  lemma BinStartsOrdered(hist: Histogram, i: nat, j: nat)
    requires hist.Valid() && i <= j
    ensures hist.BinStart(i) <= hist.BinStart(j)
  {
    RealProductMonotone(i as real, j as real, hist.width);
  }

  /** Bins are contiguous. */
  lemma BinEndIsStart(hist: Histogram, i: nat)
    requires i + 1 < TWO_TO_32
    ensures hist.BinEnd(i) == hist.BinStart(i + 1)
  {
    assert (i + 1) % TWO_TO_32 == i + 1;
  }

  /** Bins are equally wide. */
  lemma BinWidth(hist: Histogram, i: nat)
    requires i + 1 < TWO_TO_32
    ensures hist.BinEnd(i) == hist.BinStart(i) + hist.width
  {
    BinEndIsStart(hist, i);
    assert (i + 1) as real == i as real + 1.0;
  }

  lemma RealProductMonotone(a: real, b: real, c: real)
    requires a <= b && 0.0 <= c
    ensures a * c <= b * c
  {
  }

  // ---------------------------------------------------------------------
  // Quartiles
  // ---------------------------------------------------------------------

  /** What the interpolation leaves in its result variable: nothing, 0/0, or a number. */
  datatype Quartile = Unset | NotANumber | Value(q: real)

  /** With samples spread evenly over their bins, q is where the cumulative
      count reaches the target, inside the bin of the target's rank. */
  ghost predicate Interpolates(hist: Histogram, target: real, q: real)
    requires 0.0 < target <= Total(hist.counts) as real
  {
    var b := BinOfRank(hist.counts, RankOf(hist.counts, target));
    && hist.BinStart(b) < q <= hist.BinEnd(b)
    && OnSegment(q - hist.BinStart(b), hist.width, target - Before(hist.counts, b) as real, hist.counts[b] as real)
  }

  /** x / width == part / count, without division. */
  ghost predicate OnSegment(x: real, width: real, part: real, count: real) {
    0.0 < x <= width && 0.0 < part <= count && x * count == part * width
  }

  /** The inner loop for one target rank. */
  method InterpolatedQuantile(hist: Histogram, targetRank: real) returns (result: Quartile)
    requires hist.Valid() && targetRank >= 0.0
    ensures result.Unset? <==> hist.counts == [] || targetRank > Total(hist.counts) as real
    ensures result.NotANumber? <==> hist.counts != [] && targetRank == 0.0 && hist.counts[0] == 0
    ensures 0.0 < targetRank <= Total(hist.counts) as real ==>
      IsQuantile(hist, targetRank, result)
  {
    var counts := hist.counts;
    assert counts[..|counts|] == counts;
    var cumulative := 0.0;
    for index := 0 to |counts|
      invariant cumulative == Before(counts, index) as real
      invariant index == 0 || cumulative < targetRank
    {
      var count := counts[index];
      BeforeNext(counts, index);
      if cumulative + count as real >= targetRank {
        BeforeMonotone(counts, index + 1, |counts|);
        result := Interpolate(hist, index, targetRank, cumulative);
        return;
      }
      cumulative := cumulative + count as real;
    }
    result := Unset;
  }

  /** The interpolation formula in the bin where the target is reached. */
  method Interpolate(hist: Histogram, index: nat, targetRank: real, cumulative: real) returns (result: Quartile)
    requires hist.Valid() && targetRank >= 0.0 && index < |hist.counts|
    requires cumulative == Before(hist.counts, index) as real
    requires targetRank <= Before(hist.counts, index + 1) as real
    requires index == 0 || cumulative < targetRank
    ensures result == NotANumber || result.Value?
    ensures result.NotANumber? <==> hist.counts[index] == 0
    ensures targetRank > 0.0 ==>
      && targetRank <= Total(hist.counts) as real
      && IsQuantile(hist, targetRank, result)
  {
    var count := hist.counts[index] as real;
    BeforeNext(hist.counts, index);
    if hist.counts[index] == 0 {
      return NotANumber;
    }
    var x := ShareOfWidth(targetRank - cumulative, count, hist.width);
    BinWidth(hist, index);
    if targetRank > 0.0 {
      TargetBin(hist.counts, targetRank, index);
      CeilingBound(targetRank, Total(hist.counts));
    }
    result := Value(hist.BinStart(index) + x);
  }

  method ShareOfWidth(part: real, count: real, width: real) returns (x: real)
    requires count > 0.0 && width > 0.0
    ensures 0.0 < part <= count ==> OnSegment(x, width, part, count)
  {
    var fraction := part / count;
    x := fraction * width;
    if 0.0 < part <= count {
      assert fraction * count == part;
      assert 0.0 < fraction <= 1.0;
      RealProductMonotone(fraction, 1.0, width);
      assert fraction * width * count == fraction * count * width;
    }
  }

  lemma SegmentMonotone(x: real, y: real, width: real, u: real, v: real, count: real)
    requires OnSegment(x, width, u, count) && OnSegment(y, width, v, count) && u <= v
    ensures x <= y
  {
    RealProductMonotone(u, v, width);
    ProductReflects(x, y, count, u * width, v * width);
  }

  lemma ProductReflects(x: real, y: real, c: real, p: real, q: real)
    requires 0.0 < c && x * c == p && y * c == q && p <= q
    ensures x <= y
  {
  }

  lemma RanksOrdered(counts: seq<nat>, t1: real, t2: real)
    requires 0.0 < t1 <= t2 <= Total(counts) as real
    ensures BinOfRank(counts, RankOf(counts, t1)) <= BinOfRank(counts, RankOf(counts, t2))
  {
    CeilingBound(t1, RankOf(counts, t2));
    CeilingBound(t2, RankOf(counts, t2));
  }

  /** A larger target is never reached earlier. */
  lemma InterpolationMonotone(hist: Histogram, t1: real, q1: real, t2: real, q2: real)
    requires hist.Valid() && 0.0 < t1 <= t2 <= Total(hist.counts) as real
    requires Interpolates(hist, t1, q1) && Interpolates(hist, t2, q2)
    ensures q1 <= q2
  {
    var b1 := BinOfRank(hist.counts, RankOf(hist.counts, t1));
    var b2 := BinOfRank(hist.counts, RankOf(hist.counts, t2));
    RanksOrdered(hist.counts, t1, t2);
    BinsOrdered(hist, b1, b2);
    if b1 == b2 {
      var start, before := hist.BinStart(b1), Before(hist.counts, b1) as real;
      SegmentMonotone(q1 - start, q2 - start, hist.width, t1 - before, t2 - before, hist.counts[b1] as real);
    }
  }

  lemma QuartileTargets(n: nat, total: nat)
    ensures 0.25 * n as real == PercentileTarget(n, 25.0)
    ensures 0.50 * n as real == PercentileTarget(n, 50.0)
    ensures 0.75 * n as real == PercentileTarget(n, 75.0)
    ensures 0.25 * n as real > total as real <==> n > 4 * total
    ensures 0.50 * n as real > total as real <==> n > 2 * total
    ensures 0.75 * n as real > total as real <==> 3 * n > 4 * total
  {
  }

  /** Three results of the interpolation that are the quartiles of all samples. */
  ghost predicate AreQuartiles(hist: Histogram, q1: Quartile, median: Quartile, q3: Quartile)
    requires Total(hist.counts) > 0
  {
    var n := Total(hist.counts);
    && IsQuantile(hist, PercentileTarget(n, 25.0), q1)
    && IsQuantile(hist, PercentileTarget(n, 50.0), median)
    && IsQuantile(hist, PercentileTarget(n, 75.0), q3)
  }

  ghost predicate IsQuantile(hist: Histogram, target: real, result: Quartile)
    requires 0.0 < target <= Total(hist.counts) as real
  {
    result.Value? && Interpolates(hist, target, result.q)
  }

  lemma QuartilesOrdered(hist: Histogram, t1: real, q1: Quartile, t2: real, median: Quartile, t3: real, q3: Quartile)
    requires hist.Valid() && Total(hist.counts) > 0
    requires t1 == PercentileTarget(Total(hist.counts), 25.0) && IsQuantile(hist, t1, q1)
    requires t2 == PercentileTarget(Total(hist.counts), 50.0) && IsQuantile(hist, t2, median)
    requires t3 == PercentileTarget(Total(hist.counts), 75.0) && IsQuantile(hist, t3, q3)
    ensures AreQuartiles(hist, q1, median, q3)
    ensures q1.q <= median.q <= q3.q
  {
    QuartileTargets(Total(hist.counts), Total(hist.counts));
    InterpolationMonotone(hist, t1, q1.q, t2, median.q);
    InterpolationMonotone(hist, t2, median.q, t3, q3.q);
  }

  /** The three quartiles of rxPackets delays. When every received packet has
      been counted they exist, in order, each in the bin that the percentile
      function selects. A quartile stays unassigned exactly when its rank
      exceeds the number of counted delays. */
  method Quartiles(hist: Histogram, rxPackets: nat) returns (q1: Quartile, median: Quartile, q3: Quartile)
    requires hist.Valid()
    ensures rxPackets == Total(hist.counts) > 0 ==>
      AreQuartiles(hist, q1, median, q3) && q1.q <= median.q <= q3.q
    ensures hist.counts != [] ==>
      && (q1.Unset? <==> rxPackets > 4 * Total(hist.counts))
      && (median.Unset? <==> rxPackets > 2 * Total(hist.counts))
      && (q3.Unset? <==> 3 * rxPackets > 4 * Total(hist.counts))
  {
    var latencyCount := rxPackets as real;
    var targets := [0.25 * latencyCount, 0.50 * latencyCount, 0.75 * latencyCount];
    q1 := InterpolatedQuantile(hist, targets[0]);
    median := InterpolatedQuantile(hist, targets[1]);
    q3 := InterpolatedQuantile(hist, targets[2]);
    QuartileTargets(rxPackets, Total(hist.counts));
    if rxPackets == Total(hist.counts) > 0 {
      QuartilesOrdered(hist, targets[0], q1, targets[1], median, targets[2], q3);
    }
  }
}
