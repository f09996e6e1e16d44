/** Where a run of the worker pool of test.py ends, and the exit code it leads
    to. */
module WorkerPoolResults {
  import opened WorkerPool
  import opened WorkerPoolRuns
  import opened TestVerdict

  // ---------------------------------------------------------------------
  // The end of a run
  // ---------------------------------------------------------------------

  lemma {:induction false} AllBusy(workers: seq<Worker>)
    requires forall w :: 0 <= w < |workers| ==> !workers[w].Waiting?
    ensures Busy(workers) == |workers|
  {
    if workers == [] {
    } else {
      AllBusy(workers[..|workers| - 1]);
    }
  }

  lemma {:induction false} NotHeld(workers: seq<Worker>, j: JobId)
    requires forall w :: 0 <= w < |workers| && !workers[w].Waiting? ==> workers[w].job != j
    ensures Held(workers, j) == 0
  {
    if workers == [] {
    } else {
      NotHeld(workers[..|workers| - 1], j);
    }
  }

  /** When the main thread is through, both queues are empty, every worker has
      exited with a break job of its own, every break job was taken, and every
      test has been collected exactly once. */
  lemma EndState(c: Config, s: State)
    requires Inv(c, s) && Done(c, s)
    ensures s.input == [] && s.output == []
    ensures forall w :: 0 <= w < |s.workers| ==> s.workers[w].Exited? && s.workers[w].job >= |c.tests|
    ensures forall j: JobId :: multiset(s.collected)[j] == if j < |c.tests| then 1 else 0
    ensures forall j: JobId :: |c.tests| <= j < c.Objects() ==> Held(s.workers, j) == 1
  {
    AllBusy(s.workers);
    forall w | 0 <= w < |s.workers|
      ensures s.workers[w].Exited? && s.workers[w].job >= |c.tests|
    {
      assert WorkerOk(c, s.interrupted, s.workers[w], s.jobs);
    }
    forall j: JobId
      ensures multiset(s.collected)[j] == if j < |c.tests| then 1 else 0
      ensures |c.tests| <= j < c.Objects() ==> Held(s.workers, j) == 1
    {
      assert Places(s.input, s.workers, s.output, s.collected, j) == if j < c.Objects() then 1 else 0;
      if j < |c.tests| {
        NotHeld(s.workers, j);
      } else {
        assert j !in s.collected;
      }
    }
  }

  // ---------------------------------------------------------------------
  // The results
  // ---------------------------------------------------------------------

  /** What the main thread sees of a job object. */
  function ResultOf(c: Config, jobs: seq<Job>, j: JobId): JobResult
    requires |jobs| == c.Objects() && j < |c.tests|
  {
    var t := c.tests[j];
    JobResult(jobs[j].isBreak, t.isSkip, t.isExample, t.returncode, t.xml)
  }

  function Results(c: Config, jobs: seq<Job>, ids: seq<JobId>): seq<JobResult>
    requires |jobs| == c.Objects() && forall k :: 0 <= k < |ids| ==> ids[k] < |c.tests|
  {
    seq(|ids|, k requires 0 <= k < |ids| => ResultOf(c, jobs, ids[k]))
  }

  lemma CollectedAreTests(c: Config, s: State)
    requires Inv(c, s)
    ensures forall k :: 0 <= k < |s.collected| ==> s.collected[k] < |c.tests|
  {
    forall k | 0 <= k < |s.collected| ensures s.collected[k] < |c.tests| {
      assert s.collected[k] in s.collected;
    }
  }

  /** The test ran, or was skipped, and was not interrupted. */
  predicate Succeeded(c: Config, s: State, j: JobId)
    requires |s.jobs| == c.Objects() && j < |c.tests|
  {
    !s.jobs[j].isBreak && (c.tests[j].isSkip || c.tests[j].returncode == 0)
  }

  /** The test was skipped or returned 0 when it was run. */
  predicate Clean(c: Config, j: JobId)
    requires j < |c.tests|
  {
    c.tests[j].isSkip || c.tests[j].returncode == 0
  }

  /** The exit code at the end of a run is 0 exactly when every test dispatched
      was skipped or exited with code 0, and none was interrupted. */
  lemma ExitCodeAtEnd(c: Config, s: State)
    requires Inv(c, s) && Done(c, s)
    requires forall k :: 0 <= k < |s.collected| ==> s.collected[k] < |c.tests|
    ensures var exitCode := ExitCodeOf(Results(c, s.jobs, s.collected));
      && (exitCode == 0 <==> forall j :: 0 <= j < |c.tests| ==> Succeeded(c, s, j))
      && (!s.interrupted ==> (exitCode == 0 <==> forall j :: 0 <= j < |c.tests| ==> Clean(c, j)))
  {
    var results := Results(c, s.jobs, s.collected);
    ExitCodeZero(results);
    AllCollectedSucceeded(c, s);
    assert forall k :: 0 <= k < |results| ==>
      (Succeeded(c, s, s.collected[k]) <==>
        !results[k].isBreak && (results[k].isSkip || results[k].returncode == 0));
    if !s.interrupted {
      NotInterrupted(c, s);
      assert forall j :: 0 <= j < |c.tests| ==> (Succeeded(c, s, j) <==> Clean(c, j));
    }
  }

  method ExitCode(c: Config, s: State) returns (exitCode: int)
    requires Inv(c, s) && Done(c, s)
    ensures exitCode == 0 || exitCode == 1
    ensures exitCode == 0 <==> forall j :: 0 <= j < |c.tests| ==> Succeeded(c, s, j)
    ensures !s.interrupted ==> (exitCode == 0 <==> forall j :: 0 <= j < |c.tests| ==> Clean(c, j))
  {
    CollectedAreTests(c, s);
    ExitCodeAtEnd(c, s);
    var failedJobs;
    exitCode, failedJobs := Verdict(Results(c, s.jobs, s.collected));
  }

  lemma AllCollectedSucceeded(c: Config, s: State)
    requires Inv(c, s) && Done(c, s)
    requires forall k :: 0 <= k < |s.collected| ==> s.collected[k] < |c.tests|
    ensures (forall j :: 0 <= j < |c.tests| ==> Succeeded(c, s, j))
        <==> (forall k :: 0 <= k < |s.collected| ==> Succeeded(c, s, s.collected[k]))
  {
    EndState(c, s);
    if forall k :: 0 <= k < |s.collected| ==> Succeeded(c, s, s.collected[k]) {
      forall j | 0 <= j < |c.tests| ensures Succeeded(c, s, j) {
        assert multiset(s.collected)[j] == 1;
        assert j in s.collected;
        var k :| 0 <= k < |s.collected| && s.collected[k] == j;
      }
    }
  }

  /** Without an interrupt every test has been run, or skipped. */
  lemma NotInterrupted(c: Config, s: State)
    requires Inv(c, s) && Done(c, s) && !s.interrupted
    ensures forall j :: 0 <= j < |c.tests| ==> s.jobs[j] == Job(false, !c.tests[j].isSkip)
  {
    EndState(c, s);
    forall j | 0 <= j < |c.tests| ensures s.jobs[j] == Job(false, !c.tests[j].isSkip) {
      assert multiset(s.collected)[j] == 1;
      assert j in s.collected;
    }
  }

  // ---------------------------------------------------------------------
  // Independence of the schedule
  // ---------------------------------------------------------------------

  /** The tests in the order in which they were queued. */
  function InOrder(n: nat): seq<JobId> {
    seq(n, j requires j >= 0 => j)
  }

  function TallyIds(c: Config, jobs: seq<Job>, ids: seq<JobId>, outcome: Outcome): nat
    requires |jobs| == c.Objects() && forall k :: 0 <= k < |ids| ==> ids[k] < |c.tests|
  {
    if ids == [] then 0
    else TallyIds(c, jobs, ids[..|ids| - 1], outcome)
         + if OutcomeOf(ResultOf(c, jobs, ids[|ids| - 1])) == outcome then 1 else 0
  }

  lemma {:induction false} TallyOfResults(c: Config, jobs: seq<Job>, ids: seq<JobId>, outcome: Outcome)
    requires |jobs| == c.Objects() && forall k :: 0 <= k < |ids| ==> ids[k] < |c.tests|
    ensures Tally(Results(c, jobs, ids), outcome) == TallyIds(c, jobs, ids, outcome)
  {
    if ids == [] {
    } else {
      var n := |ids| - 1;
      TallyOfResults(c, jobs, ids[..n], outcome);
      assert Results(c, jobs, ids)[..n] == Results(c, jobs, ids[..n]);
    }
  }

  lemma {:induction false} TallyWithout(c: Config, jobs: seq<Job>, ids: seq<JobId>, i: nat, outcome: Outcome)
    requires |jobs| == c.Objects() && i < |ids| && forall k :: 0 <= k < |ids| ==> ids[k] < |c.tests|
    ensures TallyIds(c, jobs, ids, outcome) == TallyIds(c, jobs, ids[..i] + ids[i + 1..], outcome)
      + if OutcomeOf(ResultOf(c, jobs, ids[i])) == outcome then 1 else 0
  {
    var n := |ids| - 1;
    if i == n {
      assert ids[..i] + ids[i + 1..] == ids[..n];
    } else {
      var without := ids[..i] + ids[i + 1..];
      TallyWithout(c, jobs, ids[..n], i, outcome);
      assert ids[..n][..i] + ids[..n][i + 1..] == without[..|without| - 1];
      assert without[|without| - 1] == ids[n];
    }
  }

  /** Without the last element of one, and the same element of the other, two
      sequences with the same elements have the same elements still. */
  lemma SameWithout(a: seq<JobId>, b: seq<JobId>, i: nat)
    requires multiset(a) == multiset(b) && a != [] && i < |b| && b[i] == a[|a| - 1]
    ensures multiset(a[..|a| - 1]) == multiset(b[..i] + b[i + 1..])
  {
    var x := b[i];
    var front, without := a[..|a| - 1], b[..i] + b[i + 1..];
    assert a == front + [x];
    assert b == b[..i] + ([x] + b[i + 1..]);
    assert multiset(a) == multiset(front) + multiset{x};
    assert multiset(b) == multiset(without) + multiset{x};
    assert multiset(front) == multiset(a) - multiset{x};
    assert multiset(without) == multiset(b) - multiset{x};
  }

  lemma SameMembers(a: seq<JobId>, b: seq<JobId>)
    requires multiset(a) == multiset(b)
    ensures a == [] <==> b == []
    ensures forall k :: 0 <= k < |a| ==> a[k] in b
  {
    assert |multiset(a)| == |multiset(b)|;
    forall k | 0 <= k < |a| ensures a[k] in b {
      assert a[k] in multiset(a);
      assert a[k] in multiset(b);
    }
  }

  lemma {:induction false} TallyOfPermutation(c: Config, jobs: seq<Job>, a: seq<JobId>, b: seq<JobId>, outcome: Outcome)
    requires |jobs| == c.Objects() && multiset(a) == multiset(b)
    requires forall k :: 0 <= k < |a| ==> a[k] < |c.tests|
    requires forall k :: 0 <= k < |b| ==> b[k] < |c.tests|
    ensures TallyIds(c, jobs, a, outcome) == TallyIds(c, jobs, b, outcome)
  {
    SameMembers(a, b);
    if a == [] {
    } else {
      var i :| 0 <= i < |b| && b[i] == a[|a| - 1];
      SameWithout(a, b, i);
      TallyWithout(c, jobs, b, i, outcome);
      TallyOfPermutation(c, jobs, a[..|a| - 1], b[..i] + b[i + 1..], outcome);
    }
  }

  lemma {:induction false} InOrderMultiset(n: nat)
    ensures forall j: JobId :: multiset(InOrder(n))[j] == if j < n then 1 else 0
  {
    if n == 0 {
    } else {
      InOrderMultiset(n - 1);
      assert InOrder(n) == InOrder(n - 1) + [n - 1];
    }
  }

  /** Every complete run without an interrupt reports the counts of the tests
      run one after the other, whatever the number of workers and the order in
      which they get on. */
  lemma CountsAreSequential(c: Config, s: State, outcome: Outcome)
    requires Inv(c, s) && Done(c, s) && !s.interrupted
    requires forall k :: 0 <= k < |s.collected| ==> s.collected[k] < |c.tests|
    ensures Tally(Results(c, s.jobs, s.collected), outcome) == Tally(SequentialResults(c), outcome)
  {
    EndState(c, s);
    InOrderMultiset(|c.tests|);
    assert multiset(s.collected) == multiset(InOrder(|c.tests|));
    TallyOfPermutation(c, s.jobs, s.collected, InOrder(|c.tests|), outcome);
    TallyOfResults(c, s.jobs, s.collected, outcome);
    TallyOfResults(c, s.jobs, InOrder(|c.tests|), outcome);
    NotInterrupted(c, s);
    assert Results(c, s.jobs, InOrder(|c.tests|)) == SequentialResults(c);
  }

  /** The results of running, or skipping, the tests in order. */
  function SequentialResults(c: Config): seq<JobResult> {
    seq(|c.tests|, j requires 0 <= j < |c.tests| =>
      JobResult(false, c.tests[j].isSkip, c.tests[j].isExample, c.tests[j].returncode, c.tests[j].xml))
  }

  /** All of it, for the runs of a pool with at least one worker: when no thread
      can go on, every test has been collected exactly once. If nothing
      interrupted the run, its counts are those of a sequential run, and the
      exit code is 0 exactly when every test was skipped or returned 0. */
  lemma CompleteRun(c: Config, es: seq<Event>)
    requires c.workers > 0 && IsRun(c, Init(c), es) && Stuck(c, After(c, Init(c), es))
    ensures var s := After(c, Init(c), es);
      && Inv(c, s) && Done(c, s)
      && (forall j: JobId :: multiset(s.collected)[j] == if j < |c.tests| then 1 else 0)
      && (forall k :: 0 <= k < |s.collected| ==> s.collected[k] < |c.tests|)
    ensures Interrupt !in es ==> ReportsSequentialRun(c, After(c, Init(c), es))
  {
    var s := After(c, Init(c), es);
    ReachableInv(c, es);
    StuckIsDone(c, es);
    EndState(c, s);
    CollectedAreTests(c, s);
    if Interrupt !in es {
      InterruptedOnlyByInterrupt(c, Init(c), es);
      forall outcome: Outcome
        ensures Tally(Results(c, s.jobs, s.collected), outcome) == Tally(SequentialResults(c), outcome)
      {
        CountsAreSequential(c, s, outcome);
      }
      ExitCodeAtEnd(c, s);
    }
  }

  /** The results collected are those of running the tests in order, but for
      their order, and lead to the exit code the tests deserve. */
  ghost predicate ReportsSequentialRun(c: Config, s: State)
    requires |s.jobs| == c.Objects() && forall k :: 0 <= k < |s.collected| ==> s.collected[k] < |c.tests|
  {
    var results := Results(c, s.jobs, s.collected);
    && |results| == |c.tests|
    && (forall outcome: Outcome :: Tally(results, outcome) == Tally(SequentialResults(c), outcome))
    && ExitCodeOf(results) == ExitCodeOf(SequentialResults(c))
    && (ExitCodeOf(results) == 0 <==> forall j :: 0 <= j < |c.tests| ==> Clean(c, j))
  }

  /** Such runs exist: from the start, without an interrupt, the pool can
      reach its end. */
  lemma UninterruptedRun(c: Config) returns (es: seq<Event>)
    requires c.workers > 0
    ensures IsRun(c, Init(c), es) && Interrupt !in es && Stuck(c, After(c, Init(c), es))
  {
    InitInv(c);
    es := MaximalRun(c, Init(c));
  }

  lemma {:induction false} InterruptedOnlyByInterrupt(c: Config, s: State, es: seq<Event>)
    requires IsRun(c, s, es) && !s.interrupted && Interrupt !in es
    ensures !After(c, s, es).interrupted
    decreases es
  {
    if es == [] {
    } else {
      assert es == [es[0]] + es[1..];
      InterruptedOnlyByInterrupt(c, Apply(c, s, es[0]), es[1..]);
    }
  }
}
