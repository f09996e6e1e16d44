/** The time-weighted mean queue size of scratch/videoTest.cc. Times are integer
    nanoseconds; sizes times durations are signed 64-bit integers, taken to wrap
    around, and the accumulator is an unsigned one. */
module QueueOccupancy {

  const TWO_TO_64: nat := 0x1_0000_0000_0000_0000

  /** A signed 64-bit result. */
  function Signed64(x: int): int {
    (x + TWO_TO_64 / 2) % TWO_TO_64 - TWO_TO_64 / 2
  }

  /** Adds a signed 64-bit product to the accumulator of an integral. */
  method AddToAccumulator(total: nat, product: int, ghost before: nat, ghost after: nat) returns (sum: nat)
    ensures total == before % TWO_TO_64 && after == before + product ==> sum == after % TWO_TO_64
    ensures total == product == 0 ==> sum == 0
  {
    sum := (total + Signed64(product)) % TWO_TO_64;
  }

  datatype Update = Update(time: int, size: nat)

  ghost predicate TimeOrdered(h: seq<Update>) {
    forall i, j :: 0 <= i < j < |h| ==> h[i].time <= h[j].time
  }

  // ---------------------------------------------------------------------
  // What the tracker should report
  // ---------------------------------------------------------------------

  /** The queue size at instant t: the last size reported since the metrics
      started, and 0 before the first such report. */
  ghost function SizeAt(start: int, h: seq<Update>, t: int): nat {
    if h == [] then 0
    else
      var u := h[|h| - 1];
      if start <= u.time <= t then u.size else SizeAt(start, h[..|h| - 1], t)
  }

  /** The integral of the step function SizeAt over [lo, hi), in packet nanoseconds. */
  ghost function Area(start: int, h: seq<Update>, lo: int, hi: int): nat
    decreases hi - lo
  {
    if hi <= lo then 0 else Area(start, h, lo, hi - 1) + SizeAt(start, h, hi - 1)
  }

  /** Over the whole measurement so far. */
  ghost function Integral(start: int, h: seq<Update>, now: int): nat {
    Area(start, h, start, now)
  }

  /** The latest report is in effect from its own time on. */
  lemma {:induction false} SizeAfterLast(start: int, h: seq<Update>, t: int, t': int)
    requires TimeOrdered(h)
    requires forall u :: u in h && start <= u.time ==> u.time <= t <= t'
    ensures SizeAt(start, h, t) == SizeAt(start, h, t')
  {
    if h == [] {
    } else {
      var u := h[|h| - 1];
      assert u in h;
      if !(start <= u.time <= t) {
        SizeAfterLast(start, h[..|h| - 1], t, t');
      }
    }
  }

  lemma {:induction false} AreaOfConstant(start: int, h: seq<Update>, lo: int, hi: int, size: nat)
    requires lo <= hi
    requires forall t :: lo <= t < hi ==> SizeAt(start, h, t) == size
    ensures Area(start, h, lo, hi) == size * (hi - lo)
    decreases hi - lo
  {
    if hi <= lo {
    } else {
      AreaOfConstant(start, h, lo, hi - 1, size);
      OneLonger(size, hi - 1 - lo);
    }
  }

  lemma {:induction false} AreaSplit(start: int, h: seq<Update>, lo: int, mid: int, hi: int)
    requires lo <= mid <= hi
    ensures Area(start, h, lo, hi) == Area(start, h, lo, mid) + Area(start, h, mid, hi)
    decreases hi - mid
  {
    if mid == hi {
    } else {
      AreaSplit(start, h, lo, mid, hi - 1);
    }
  }

  /** Two histories that agree on every instant have the same integral. */
  lemma {:induction false} AreaCongruent(start: int, h: seq<Update>, h': seq<Update>, lo: int, hi: int)
    requires forall t :: lo <= t < hi ==> SizeAt(start, h, t) == SizeAt(start, h', t)
    ensures Area(start, h, lo, hi) == Area(start, h', lo, hi)
    decreases hi - lo
  {
    if hi <= lo {
    } else {
      AreaCongruent(start, h, h', lo, hi - 1);
    }
  }

  lemma OneLonger(size: nat, duration: nat)
    ensures size * (duration + 1) == size * duration + size
  {
  }

  ghost predicate SizesAtMost(h: seq<Update>, bound: nat) {
    forall u :: u in h ==> u.size <= bound
  }

  lemma {:induction false} SizeBounded(start: int, h: seq<Update>, t: int, bound: nat)
    requires SizesAtMost(h, bound)
    ensures SizeAt(start, h, t) <= bound
  {
    if h == [] {
    } else {
      assert h[|h| - 1] in h;
      SizeBounded(start, h[..|h| - 1], t, bound);
    }
  }

  lemma {:induction false} AreaBounded(start: int, h: seq<Update>, lo: int, hi: int, bound: nat)
    requires lo <= hi
    requires SizesAtMost(h, bound)
    ensures Area(start, h, lo, hi) <= bound * (hi - lo)
    decreases hi - lo
  {
    if hi <= lo {
    } else {
      AreaBounded(start, h, lo, hi - 1, bound);
      SizeBounded(start, h, hi - 1, bound);
      OneLonger(bound, hi - 1 - lo);
    }
  }

  // ---------------------------------------------------------------------
  // The tracker
  // ---------------------------------------------------------------------

  class QueueOccupancyTracker {
    const metricsStart: int
    var lastUpdateTime: int
    var totalAccumulatedPacketsTime: nat
    var currentQueueSize: nat
    /** Every call of UpdateSize so far. */
    ghost var history: seq<Update>

    ghost predicate Valid()
      reads this
    {
      && TimeOrdered(history)
      && metricsStart <= lastUpdateTime
      && (forall u :: u in history && metricsStart <= u.time ==> u.time <= lastUpdateTime)
      && (lastUpdateTime == metricsStart || Reported(lastUpdateTime))
      && currentQueueSize == SizeAt(metricsStart, history, lastUpdateTime)
      && totalAccumulatedPacketsTime == Integral(metricsStart, history, lastUpdateTime) % TWO_TO_64
    }

    ghost predicate Reported(time: int)
      reads this
    {
      exists u :: u in history && u.time == time
    }

    /** The simulation clock does not run backwards. */
    ghost predicate ClockAt(now: int)
      reads this
    {
      forall u :: u in history ==> u.time <= now
    }

    constructor (metricsLoggingStartTime: int)
      ensures Valid() && history == [] && metricsStart == metricsLoggingStartTime
    {
      metricsStart := metricsLoggingStartTime;
      lastUpdateTime := metricsLoggingStartTime;
      totalAccumulatedPacketsTime := 0;
      currentQueueSize := 0;
      history := [];
    }

    method UpdateSize(now: int, newSize: nat)
      requires Valid() && ClockAt(now)
      modifies this
      ensures Valid() && history == old(history) + [Update(now, newSize)] && ClockAt(now)
    {
      ghost var h := history;
      ghost var u := Update(now, newSize);
      AppendedUpdate(metricsStart, h, u);
      if now < lastUpdateTime {
        AreaCongruent(metricsStart, h + [u], h, metricsStart, lastUpdateTime);
      } else {
        AreaCongruent(metricsStart, h + [u], h, metricsStart, now);
        totalAccumulatedPacketsTime := AccumulatedUntil(now);
        currentQueueSize := newSize;
        lastUpdateTime := now;
        assert u in h + [u];
      }
      history := h + [u];
    }

    /** The accumulator brought forward to now, in 64-bit arithmetic. */
    method AccumulatedUntil(now: int) returns (sum: nat)
      requires Valid()
      ensures lastUpdateTime <= now ==> sum == Integral(metricsStart, history, now) % TWO_TO_64
      ensures totalAccumulatedPacketsTime == currentQueueSize == 0 ==> sum == 0
    {
      var duration := now - lastUpdateTime;
      if lastUpdateTime <= now {
        UpToNow(now);
      }
      sum := AddToAccumulator(totalAccumulatedPacketsTime, currentQueueSize * duration,
                              Integral(metricsStart, history, lastUpdateTime), Integral(metricsStart, history, now));
    }

    /** Since the last update the size is constant. */
    lemma UpToNow(now: int)
      requires Valid() && lastUpdateTime <= now
      ensures Integral(metricsStart, history, now)
           == Integral(metricsStart, history, lastUpdateTime) + currentQueueSize * (now - lastUpdateTime)
    {
      forall t | lastUpdateTime <= t < now
        ensures SizeAt(metricsStart, history, t) == currentQueueSize
      {
        SizeAfterLast(metricsStart, history, lastUpdateTime, t);
      }
      AreaOfConstant(metricsStart, history, lastUpdateTime, now, currentQueueSize);
      AreaSplit(metricsStart, history, metricsStart, lastUpdateTime, now);
    }

    /** Mean times elapsed time is the integral of the queue size, reduced
        modulo 2^64; it is the integral itself exactly when that fits. */
    method GetMeanOccupancy(now: int) returns (mean: real)
      requires Valid() && ClockAt(now)
      ensures now <= metricsStart ==> mean == 0.0
      ensures now > metricsStart ==>
        var elapsed := (now - metricsStart) as real;
        var integral := Integral(metricsStart, history, now);
        && mean * elapsed == (integral % TWO_TO_64) as real
        && (mean * elapsed == integral as real <==> integral < TWO_TO_64)
    {
      if now < metricsStart {
        NothingSeen(metricsStart, history, lastUpdateTime);
      }
      var finalAccumulation := AccumulatedUntil(now);
      var totalDuration := now - metricsStart;
      if totalDuration == 0 {
        return 0.0;
      }
      mean := finalAccumulation as real / totalDuration as real;
      if now > metricsStart {
        QuotientIsMean(finalAccumulation, totalDuration, Integral(metricsStart, history, now));
      }
    }
  }

  /** The integral fits whenever the largest size reported times the elapsed time
      does; then the mean is exact. */
  lemma ExactWhenSmall(start: int, h: seq<Update>, now: int, bound: nat)
    requires start <= now && SizesAtMost(h, bound) && bound * (now - start) < TWO_TO_64
    ensures Integral(start, h, now) < TWO_TO_64
  {
    AreaBounded(start, h, start, now, bound);
  }

  /** The mean never exceeds the largest size reported. */
  lemma MeanAtMostLargestSize(start: int, h: seq<Update>, now: int, mean: real, bound: nat)
    requires start < now && SizesAtMost(h, bound)
    requires mean * (now - start) as real == (Integral(start, h, now) % TWO_TO_64) as real
    ensures mean <= bound as real
  {
    AreaBounded(start, h, start, now, bound);
    QuotientBounded(mean, now - start, Integral(start, h, now) % TWO_TO_64, bound);
  }

  lemma QuotientBounded(mean: real, d: nat, n: nat, bound: nat)
    requires 0 < d && mean * d as real == n as real && n <= bound * d
    ensures mean <= bound as real
  {
    RealProduct(bound, d);
    if mean > bound as real {
      ProductMonotone(bound as real, mean, d as real);
      assert false;
    }
  }

  lemma {:induction false} RealProduct(a: nat, b: nat)
    ensures (a * b) as real == a as real * b as real
  {
    if a == 0 {
    } else {
      RealProduct(a - 1, b);
      assert a * b == (a - 1) * b + b;
      assert a as real * b as real == (a - 1) as real * b as real + b as real;
    }
  }

  /** What one more update changes. */
  lemma AppendedUpdate(start: int, h: seq<Update>, u: Update)
    requires TimeOrdered(h) && forall v :: v in h ==> v.time <= u.time
    ensures TimeOrdered(h + [u])
    ensures forall v :: v in h + [u] <==> v in h || v == u
    ensures forall t :: !(start <= u.time <= t) ==> SizeAt(start, h + [u], t) == SizeAt(start, h, t)
    ensures forall t :: start <= u.time <= t ==> SizeAt(start, h + [u], t) == u.size
  {
    assert (h + [u])[..|h|] == h;
    assert forall i :: 0 <= i < |h| ==> h[i] in h;
  }

  lemma {:induction false} NothingSeen(start: int, h: seq<Update>, t: int)
    requires forall u :: u in h ==> u.time < start
    ensures SizeAt(start, h, t) == 0
  {
    if h == [] {
    } else {
      assert h[|h| - 1] in h;
      NothingSeen(start, h[..|h| - 1], t);
    }
  }

  lemma QuotientTimes(a: real, b: real)
    requires b != 0.0
    ensures a / b * b == a
  {
  }

  lemma QuotientIsMean(sum: nat, elapsed: nat, integral: nat)
    requires 0 < elapsed && sum == integral % TWO_TO_64
    ensures var mean := sum as real / elapsed as real;
      && mean * elapsed as real == sum as real
      && (mean * elapsed as real == integral as real <==> integral < TWO_TO_64)
  {
    QuotientTimes(sum as real, elapsed as real);
    assert sum == integral <==> integral < TWO_TO_64;
  }

  lemma ProductMonotone(a: real, b: real, c: real)
    requires a < b && 0.0 < c
    ensures a * c < b * c
  {
  }

  // ---------------------------------------------------------------------
  // Redundant reports
  // ---------------------------------------------------------------------

  /** Reporting the size the queue already has, at any point of the history,
      changes the size at no instant. */
  lemma {:induction false} RepeatedSizeInvisible(start: int, h: seq<Update>, u: Update, later: seq<Update>, t: int)
    requires TimeOrdered(h + [u] + later)
    requires u.size == SizeAt(start, h, u.time)
    ensures SizeAt(start, h + [u] + later, t) == SizeAt(start, h + later, t)
  {
    var all, without := h + [u] + later, h + later;
    if later == [] {
      assert all[..|h|] == h && all[|h|] == u && without == h;
      if start <= u.time <= t {
        forall v | v in h && start <= v.time
          ensures v.time <= u.time
        {
          var i :| 0 <= i < |h| && h[i] == v;
          assert all[i] == v;
        }
        assert TimeOrdered(h) by {
          forall i, j | 0 <= i < j < |h| ensures h[i].time <= h[j].time {
            assert all[i] == h[i] && all[j] == h[j];
          }
        }
        SizeAfterLast(start, h, u.time, t);
      }
    } else {
      var before := later[..|later| - 1];
      assert all[..|all| - 1] == h + [u] + before;
      assert without[..|without| - 1] == h + before;
      RepeatedSizeInvisible(start, h, u, before, t);
    }
  }

  /** Hence it does not change the integral either. */
  lemma RepeatedSizeChangesNothing(start: int, h: seq<Update>, u: Update, later: seq<Update>, now: int)
    requires TimeOrdered(h + [u] + later)
    requires u.size == SizeAt(start, h, u.time)
    ensures Integral(start, h + [u] + later, now) == Integral(start, h + later, now)
  {
    forall t
      ensures SizeAt(start, h + [u] + later, t) == SizeAt(start, h + later, t)
    {
      RepeatedSizeInvisible(start, h, u, later, t);
    }
    AreaCongruent(start, h + [u] + later, h + later, start, now);
  }
}
