/** Averaging of benchmark runs in utils/bench-scheduler.cc: Welford's online
    accumulation of mean and second moment, over exact reals. */
module Welford {

  datatype PhaseResult = PhaseResult(time: real, rate: real, period: real)

  datatype Result = Result(init: PhaseResult, run: PhaseResult)

  /** The six statistics kept per run. */
  datatype Field = InitTime | InitRate | InitPeriod | RunTime | RunRate | RunPeriod

  function Get(r: Result, f: Field): real {
    match f
    case InitTime => r.init.time
    case InitRate => r.init.rate
    case InitPeriod => r.init.period
    case RunTime => r.run.time
    case RunRate => r.run.rate
    case RunPeriod => r.run.period
  }

  function Column(results: seq<Result>, f: Field): seq<real> {
    seq(|results|, i requires 0 <= i < |results| => Get(results[i], f))
  }

  // ---------------------------------------------------------------------
  // Textbook statistics
  // ---------------------------------------------------------------------

  function Sum(xs: seq<real>): real {
    if xs == [] then 0.0 else Sum(xs[..|xs| - 1]) + xs[|xs| - 1]
  }

  function Square(x: real): real {
    x * x
  }

  function SumOfSquares(xs: seq<real>): real {
    if xs == [] then 0.0 else SumOfSquares(xs[..|xs| - 1]) + Square(xs[|xs| - 1])
  }

  function Mean(xs: seq<real>): real
    requires xs != []
  {
    Sum(xs) / |xs| as real
  }

  /** The sum of squared deviations from a centre. */
  function Deviation(xs: seq<real>, centre: real): (d: real)
    ensures d >= 0.0
  {
    if xs == [] then 0.0 else Deviation(xs[..|xs| - 1], centre) + Square(xs[|xs| - 1] - centre)
  }

  /** The sum of squared deviations in terms of n, the sum and the sum of squares. */
  function Expanded(n: real, sum: real, squares: real, centre: real): real {
    squares - 2.0 * (centre * sum) + n * (centre * centre)
  }

  lemma {:induction false} DeviationExpanded(xs: seq<real>, n: real, c: real)
    requires n == |xs| as real
    ensures Deviation(xs, c) == Expanded(n, Sum(xs), SumOfSquares(xs), c)
  {
    if xs == [] {
    } else {
      var x, ys := xs[|xs| - 1], xs[..|xs| - 1];
      DeviationExpanded(ys, n - 1.0, c);
      ExpandedStep(n - 1.0, Sum(ys), SumOfSquares(ys), x, c);
      assert n - 1.0 + 1.0 == n;
    }
  }

  lemma ExpandedStep(n: real, sum: real, squares: real, x: real, c: real)
    ensures Expanded(n, sum, squares, c) + Square(x - c)
         == Expanded(n + 1.0, sum + x, squares + Square(x), c)
  {
    assert Square(x - c) == x * x - 2.0 * (c * x) + c * c;
    assert c * (sum + x) == c * sum + c * x;
    assert (n + 1.0) * (c * c) == n * (c * c) + c * c;
  }

  // ---------------------------------------------------------------------
  // The online algorithm
  // ---------------------------------------------------------------------

  /** The average and the second moment of the samples seen so far, in the
      form in which the loop keeps them; also meaningful before any sample. */
  ghost predicate Accumulated(xs: seq<real>, average: real, moment2: real) {
    && average * |xs| as real == Sum(xs)
    && moment2 == SumOfSquares(xs) - average * Sum(xs)
  }

  lemma AccumulatedIsStatistics(xs: seq<real>, average: real, moment2: real)
    requires xs != [] && Accumulated(xs, average, moment2)
    ensures average == Mean(xs)
    ensures moment2 == Deviation(xs, Mean(xs))
  {
    var n := |xs| as real;
    assert average == average * n / n;
    DeviationExpanded(xs, n, average);
    ExpandedAtMean(n, Sum(xs), SumOfSquares(xs), average);
  }

  lemma ExpandedAtMean(n: real, sum: real, squares: real, mean: real)
    requires mean * n == sum
    ensures Expanded(n, sum, squares, mean) == squares - mean * sum
  {
    assert n * (mean * mean) == mean * sum;
  }

  /** One use of the ACCUMULATE macro. */
  method Accumulate(x: real, average: real, moment2: real, count: nat, ghost seen: seq<real>)
    returns (average': real, moment2': real)
    requires count == |seen| + 1
    requires Accumulated(seen, average, moment2)
    ensures Accumulated(seen + [x], average', moment2')
  {
    var deltaPre := x - average;
    average' := average + deltaPre / count as real;
    var deltaPost := x - average';
    moment2' := moment2 + deltaPre * deltaPost;
    assert (seen + [x])[..|seen|] == seen;
    WelfordStep(x, average, average', |seen| as real, Sum(seen));
  }

  lemma WelfordStep(x: real, a: real, a': real, n: real, sum: real)
    requires n >= 0.0 && a * n == sum
    requires a' == a + (x - a) / (n + 1.0)
    ensures a' * (n + 1.0) == sum + x
    ensures (x - a) * (x - a') == x * x - a' * (sum + x) + a * sum
  {
    var d := (x - a) / (n + 1.0);
    assert d * (n + 1.0) == x - a;
    assert a' * (n + 1.0) == a * (n + 1.0) + d * (n + 1.0);
    assert a * (n + 1.0) == a * n + a;
    assert a' * (n + 1.0) == sum + x;
    var t := sum + x;
    assert a * t == a * (a' * (n + 1.0)) == a' * (a * (n + 1.0)) == a' * (sum + a);
    assert (x - a) * (x - a') == x * x - x * a' - a * x + a * a';
    assert a * t == a * sum + a * x;
    assert a' * (sum + a) == a' * sum + a' * a;
    assert a' * t == a' * sum + a' * x;
  }

  datatype Summary = TooFewRuns | Summary(average: Result, stdev: Result)

  /** The library's square root of every statistic divided by n. */
  function RootOfShare(sqrt: real -> real, r: Result, n: nat): Result
    requires n > 0
  {
    var k := n as real;
    Result(PhaseResult(sqrt(r.init.time / k), sqrt(r.init.rate / k), sqrt(r.init.period / k)),
           PhaseResult(sqrt(r.run.time / k), sqrt(r.run.rate / k), sqrt(r.run.period / k)))
  }

  /** One pass of the loop body over a run. */
  method AccumulateRun(run: Result, average: Result, moment2: Result, count: nat, ghost seen: seq<Result>)
    returns (average': Result, moment2': Result)
    requires count == |seen| + 1
    requires AllAccumulated(seen, average, moment2)
    ensures AllAccumulated(seen + [run], average', moment2')
  {
    var a1, m1 := Accumulate(run.init.time, average.init.time, moment2.init.time, count, Column(seen, InitTime));
    var a2, m2 := Accumulate(run.init.rate, average.init.rate, moment2.init.rate, count, Column(seen, InitRate));
    var a3, m3 :=
      Accumulate(run.init.period, average.init.period, moment2.init.period, count, Column(seen, InitPeriod));
    var a4, m4 := Accumulate(run.run.time, average.run.time, moment2.run.time, count, Column(seen, RunTime));
    var a5, m5 := Accumulate(run.run.rate, average.run.rate, moment2.run.rate, count, Column(seen, RunRate));
    var a6, m6 := Accumulate(run.run.period, average.run.period, moment2.run.period, count, Column(seen, RunPeriod));
    average' := Result(PhaseResult(a1, a2, a3), PhaseResult(a4, a5, a6));
    moment2' := Result(PhaseResult(m1, m2, m3), PhaseResult(m4, m5, m6));
    forall f: Field
      ensures Accumulated(Column(seen + [run], f), Get(average', f), Get(moment2', f))
    {
      assert Column(seen + [run], f) == Column(seen, f) + [Get(run, f)];
    }
  }

  ghost predicate AllAccumulated(seen: seq<Result>, average: Result, moment2: Result) {
    forall f: Field :: Accumulated(Column(seen, f), Get(average, f), Get(moment2, f))
  }

  /** The variance of a population. */
  function Variance(xs: seq<real>): (v: real)
    requires xs != []
    ensures v >= 0.0
  {
    NonNegativeQuotient(Deviation(xs, Mean(xs)), |xs| as real);
    Deviation(xs, Mean(xs)) / |xs| as real
  }

  /** It is the mean of the squares less the square of the mean. */
  lemma VarianceOfSquares(xs: seq<real>)
    requires xs != []
    ensures Variance(xs) == SumOfSquares(xs) / |xs| as real - Square(Mean(xs))
  {
    var n, sum, squares, mean := |xs| as real, Sum(xs), SumOfSquares(xs), Mean(xs);
    assert mean * n == sum;
    DeviationExpanded(xs, n, mean);
    ExpandedAtMean(n, sum, squares, mean);
    ShareOfDifference(squares, mean, sum, n);
  }

  lemma ShareOfDifference(squares: real, mean: real, sum: real, n: real)
    requires n > 0.0 && mean == sum / n
    ensures (squares - mean * sum) / n == squares / n - Square(mean)
  {
    assert (mean * sum) / n == mean * (sum / n);
    assert (squares - mean * sum) / n == squares / n - (mean * sum) / n;
  }

  /** Two samples: the variance is that of the population. */
  lemma VarianceOfTwo()
    ensures Mean([0.0, 2.0]) == 1.0 && Variance([0.0, 2.0]) == 1.0
  {
    var xs := [0.0, 2.0];
    assert xs[..1] == [0.0] && xs[..1][..0] == [];
    assert Sum(xs) == 2.0;
    assert Deviation(xs[..1], 1.0) == 1.0;
  }

  /** The accumulation loop. With fewer than two runs nothing is reported;
      otherwise every statistic gets the mean of its samples and the square root
      of their population variance, which is never negative. */
  method Log(results: seq<Result>, sqrt: real -> real) returns (summary: Summary)
    ensures summary.TooFewRuns? <==> |results| < 2
    ensures summary.Summary? ==> forall f: Field ::
      && Get(summary.average, f) == Mean(Column(results, f))
      && Get(summary.stdev, f) == sqrt(Variance(Column(results, f)))
  {
    if |results| < 2 {
      return TooFewRuns;
    }
    var average := results[0];
    var zero := PhaseResult(0.0, 0.0, 0.0);
    var moment2 := Result(zero, zero);
    for n := 0 to |results|
      invariant AllAccumulated(results[..n], average, moment2)
    {
      average, moment2 := AccumulateRun(results[n], average, moment2, n + 1, results[..n]);
      assert results[..n] + [results[n]] == results[..n + 1];
    }
    assert results[..|results|] == results;
    var stdev := RootOfShare(sqrt, moment2, |results|);
    forall f: Field
      ensures Get(average, f) == Mean(Column(results, f))
      ensures Get(stdev, f) == sqrt(Variance(Column(results, f)))
    {
      AccumulatedIsStatistics(Column(results, f), Get(average, f), Get(moment2, f));
    }
    summary := Summary(average, stdev);
  }

  lemma NonNegativeQuotient(x: real, n: real)
    requires x >= 0.0 && n > 0.0
    ensures x / n >= 0.0
  {
  }
}
