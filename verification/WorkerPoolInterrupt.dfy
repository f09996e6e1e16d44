/** What an interrupt does to a run of the worker pool of test.py: the fate of
    every test is settled the moment the interrupt comes. */
module WorkerPoolInterrupt {
  import opened WorkerPool
  import opened WorkerPoolRuns
  import opened WorkerPoolResults
  import opened TestVerdict

  /** A worker is running j. */
  ghost predicate InProgress(workers: seq<Worker>, j: JobId) {
    exists w :: 0 <= w < |workers| && workers[w] == Running(j)
  }

  /** A worker is about to put j out. */
  ghost predicate BeingReported(workers: seq<Worker>, j: JobId) {
    exists w :: 0 <= w < |workers| && workers[w] == Reporting(j)
  }

  /** The worker is through with j. */
  ghost predicate Through(s: State, j: JobId) {
    BeingReported(s.workers, j) || j in s.output || j in s.collected
  }

  /** How test j will come out once there has been an interrupt: what is through
      stays as it is, what is in progress is finished, and everything else is
      handed back marked as a break job, without being run. */
  ghost function Fate(c: Config, s: State, j: JobId): Job
    requires Inv(c, s) && j < |c.tests|
  {
    if InProgress(s.workers, j) then Job(false, true)
    else if Through(s, j) then s.jobs[j]
    else Job(true, false)
  }

  /** One worker's change matters to no job but those it holds. */
  lemma OthersUnchanged(workers: seq<Worker>, w: nat, x: Worker, j: JobId)
    requires w < |workers|
    requires workers[w].Waiting? || workers[w].job != j
    requires x.Waiting? || x.job != j
    ensures InProgress(workers[w := x], j) <==> InProgress(workers, j)
    ensures BeingReported(workers[w := x], j) <==> BeingReported(workers, j)
  {
    var after := workers[w := x];
    forall v | 0 <= v < |workers|
      ensures workers[v] == Running(j) <==> after[v] == Running(j)
      ensures workers[v] == Reporting(j) <==> after[v] == Reporting(j)
    {
    }
  }

  /** Only the worker that holds j tells how far it is. */
  lemma HolderTells(c: Config, s: State, w: nat)
    requires Inv(c, s) && w < |s.workers| && !s.workers[w].Waiting?
    ensures var j := s.workers[w].job;
      && (InProgress(s.workers, j) <==> s.workers[w].Running?)
      && (Through(s, j) <==> s.workers[w].Reporting?)
  {
    HeldIsUnique(s.input, s.workers, s.output, s.collected, s.dispatched, w);
  }

  /** The fate of the job that a worker holds. */
  function StageFate(w: Worker, job: Job): Job {
    if w.Running? then Job(false, true) else if w.Reporting? then job else Job(true, false)
  }

  /** A step of a worker from one stage of its job to the next. */
  lemma StageKeepsFate(c: Config, s: State, w: nat, x: Worker, s': State, j: JobId)
    requires Inv(c, s) && Inv(c, s') && j < |c.tests|
    requires w < |s.workers| && !s.workers[w].Waiting? && !x.Waiting? && x.job == s.workers[w].job
    requires s'.workers == s.workers[w := x] && s'.output == s.output && s'.collected == s.collected
    requires forall i :: 0 <= i < |s.jobs| && i != x.job ==> s'.jobs[i] == s.jobs[i]
    requires j == x.job ==> StageFate(x, s'.jobs[j]) == StageFate(s.workers[w], s.jobs[j])
    ensures Fate(c, s', j) == Fate(c, s, j)
  {
    HolderTells(c, s, w);
    HolderTells(c, s', w);
    if j != x.job {
      OthersUnchanged(s.workers, w, x, j);
    }
  }

  lemma PutKeepsFate(c: Config, s: State, w: nat, j: JobId)
    requires Inv(c, s) && j < |c.tests| && Enabled(c, s, Put(w)) && Inv(c, Apply(c, s, Put(w)))
    ensures Fate(c, Apply(c, s, Put(w)), j) == Fate(c, s, j)
  {
    var s' := Apply(c, s, Put(w));
    HolderTells(c, s, w);
    if j == s.workers[w].job {
      assert s'.output[|s.output|] == j;
      HeldIsUnique(s.input, s.workers, s.output, s.collected, s.dispatched, w);
      assert !InProgress(s'.workers, j) by {
        assert forall v :: 0 <= v < |s.workers| && v != w ==> s'.workers[v] == s.workers[v];
      }
    } else {
      OthersUnchanged(s.workers, w, Waiting, j);
    }
  }

  lemma GetKeepsFate(c: Config, s: State, w: nat, j: JobId)
    requires Inv(c, s) && j < |c.tests| && Enabled(c, s, Get(w)) && Inv(c, Apply(c, s, Get(w)))
    ensures Fate(c, Apply(c, s, Get(w)), j) == Fate(c, s, j)
  {
    var s' := Apply(c, s, Get(w));
    if j == s.input[0] {
      HolderTells(c, s', w);
      assert !InProgress(s.workers, j) && !BeingReported(s.workers, j) by {
        assert forall v :: 0 <= v < |s.workers| && v != w ==> s'.workers[v] == s.workers[v];
      }
    } else {
      OthersUnchanged(s.workers, w, Got(s.input[0]), j);
    }
  }

  lemma TestInterruptKeepsFate(c: Config, s: State, w: nat, j: JobId)
    requires Inv(c, s) && s.interrupted && j < |c.tests|
    requires Enabled(c, s, TestInterrupt(w)) && Inv(c, Apply(c, s, TestInterrupt(w)))
    ensures Fate(c, Apply(c, s, TestInterrupt(w)), j) == Fate(c, s, j)
  {
    assert WorkerOk(c, s.interrupted, s.workers[w], s.jobs);
    StageKeepsFate(c, s, w, Reporting(s.workers[w].job), Apply(c, s, TestInterrupt(w)), j);
  }

  lemma FinishKeepsFate(c: Config, s: State, w: nat, j: JobId)
    requires Inv(c, s) && j < |c.tests|
    requires Enabled(c, s, Finish(w)) && Inv(c, Apply(c, s, Finish(w)))
    ensures Fate(c, Apply(c, s, Finish(w)), j) == Fate(c, s, j)
  {
    assert WorkerOk(c, s.interrupted, s.workers[w], s.jobs);
    StageKeepsFate(c, s, w, Reporting(s.workers[w].job), Apply(c, s, Finish(w)), j);
  }

  /** Once interrupted, no step changes the fate of any test. */
  lemma StepKeepsFate(c: Config, s: State, e: Event, j: JobId)
    requires Inv(c, s) && Enabled(c, s, e) && Inv(c, Apply(c, s, e)) && s.interrupted && j < |c.tests|
    ensures Fate(c, Apply(c, s, e), j) == Fate(c, s, j)
  {
    var s' := Apply(c, s, e);
    match e
    case Dispatch =>
    case Collect => assert s.output == [s.output[0]] + s.output[1..];
    case Join =>
    case Get(w) => GetKeepsFate(c, s, w, j);
    case TestBreak(w) => StageKeepsFate(c, s, w, s'.workers[w], s', j);
    case TestInterrupt(w) => TestInterruptKeepsFate(c, s, w, j);
    case Finish(w) => FinishKeepsFate(c, s, w, j);
    case Put(w) => PutKeepsFate(c, s, w, j);
  }

  lemma InterruptedStays(c: Config, s: State, e: Event)
    requires Shape(c, s) && Enabled(c, s, e) && s.interrupted
    ensures Apply(c, s, e).interrupted
  {
  }

  lemma {:induction false} RunKeepsFate(c: Config, s: State, es: seq<Event>, j: JobId)
    requires Inv(c, s) && IsRun(c, s, es) && s.interrupted && j < |c.tests|
    ensures Inv(c, After(c, s, es)) && Fate(c, After(c, s, es), j) == Fate(c, s, j)
    decreases es
  {
    if es == [] {
    } else {
      var e := es[0];
      StepInv(c, s, e);
      StepKeepsFate(c, s, e, j);
      InterruptedStays(c, s, e);
      RunKeepsFate(c, Apply(c, s, e), es[1..], j);
    }
  }

  /** From the interrupt on, whatever the schedule, no further test is run: the
      tests in progress are finished, and those no worker was through with come
      back as break jobs. */
  lemma InterruptSettles(c: Config, s: State, es: seq<Event>, j: JobId)
    requires Inv(c, s) && IsRun(c, s, es) && s.interrupted && Done(c, After(c, s, es)) && j < |c.tests|
    ensures Inv(c, After(c, s, es)) && After(c, s, es).jobs[j] == Fate(c, s, j)
  {
    RunKeepsFate(c, s, es, j);
    var end := After(c, s, es);
    EndState(c, end);
    assert multiset(end.collected)[j] == 1;
    assert j in end.collected;
  }

  // ---------------------------------------------------------------------
  // What an interrupted run reports
  // ---------------------------------------------------------------------

  /** The tests that no worker is running or through with. */
  ghost function NotStarted(c: Config, s: State): set<JobId> {
    set j | 0 <= j < |c.tests| && !InProgress(s.workers, j) && !Through(s, j)
  }

  /** At the moment of the interrupt no test is marked yet. */
  lemma FateAtInterrupt(c: Config, s: State, j: JobId)
    requires Inv(c, s) && Enabled(c, s, Interrupt) && Inv(c, Apply(c, s, Interrupt)) && j < |c.tests|
    ensures Fate(c, Apply(c, s, Interrupt), j).isBreak <==> j in NotStarted(c, s)
  {
    if w :| 0 <= w < |s.workers| && s.workers[w] == Reporting(j) {
      assert WorkerOk(c, s.interrupted, s.workers[w], s.jobs);
    }
  }

  ghost function Marked(jobs: seq<Job>, n: nat): set<JobId>
    requires n <= |jobs|
  {
    set j | 0 <= j < n && jobs[j].isBreak
  }

  lemma {:induction false} TallyOfMarked(c: Config, jobs: seq<Job>, n: nat)
    requires |jobs| == c.Objects() && n <= |c.tests|
    ensures TallyIds(c, jobs, InOrder(n), Interrupted) == |Marked(jobs, n)|
  {
    if n == 0 {
    } else {
      TallyOfMarked(c, jobs, n - 1);
      assert InOrder(n)[..n - 1] == InOrder(n - 1);
      if jobs[n - 1].isBreak {
        assert Marked(jobs, n) == Marked(jobs, n - 1) + {n - 1};
      } else {
        assert Marked(jobs, n) == Marked(jobs, n - 1);
      }
    }
  }

  /** The number of tests reported as interrupted, at the end of any run. */
  lemma InterruptedTally(c: Config, s: State)
    requires Inv(c, s) && Done(c, s)
    requires forall k :: 0 <= k < |s.collected| ==> s.collected[k] < |c.tests|
    ensures Tally(Results(c, s.jobs, s.collected), Interrupted) == |Marked(s.jobs, |c.tests|)|
  {
    EndState(c, s);
    InOrderMultiset(|c.tests|);
    assert multiset(s.collected) == multiset(InOrder(|c.tests|));
    TallyOfPermutation(c, s.jobs, s.collected, InOrder(|c.tests|), Interrupted);
    TallyOfResults(c, s.jobs, s.collected, Interrupted);
    TallyOfMarked(c, s.jobs, |c.tests|);
  }

  /** What a run reports that is interrupted in state s and ends properly: as
      interrupted exactly the tests that were not started, every other test as
      if nothing had happened, and success exactly when no test was left and
      every one was skipped or returned 0. */
  ghost predicate ReportsInterrupt(c: Config, s: State, end: State)
    requires |end.jobs| == c.Objects() && forall k :: 0 <= k < |end.collected| ==> end.collected[k] < |c.tests|
  {
    var results := Results(c, end.jobs, end.collected);
    && |results| == |c.tests|
    && Tally(results, Interrupted) == |NotStarted(c, s)|
    && (forall j :: 0 <= j < |c.tests| ==>
          if j in NotStarted(c, s) then OutcomeOf(ResultOf(c, end.jobs, j)) == Interrupted
          else ResultOf(c, end.jobs, j) == SequentialResults(c)[j])
    && (ExitCodeOf(results) == 0 <==> NotStarted(c, s) == {} && forall j :: 0 <= j < |c.tests| ==> Clean(c, j))
  }

  lemma InterruptReported(c: Config, s: State, es: seq<Event>)
    requires Inv(c, s) && !s.interrupted
    requires IsRun(c, Apply(c, s, Interrupt), es) && Done(c, After(c, Apply(c, s, Interrupt), es))
    ensures var end := After(c, Apply(c, s, Interrupt), es);
      && Inv(c, end)
      && (forall k :: 0 <= k < |end.collected| ==> end.collected[k] < |c.tests|)
      && ReportsInterrupt(c, s, end)
  {
    var s' := Apply(c, s, Interrupt);
    StepInv(c, s, Interrupt);
    RunKeepsInv(c, s', es);
    var end := After(c, s', es);
    CollectedAreTests(c, end);
    forall j | 0 <= j < |c.tests|
      ensures end.jobs[j].isBreak <==> j in NotStarted(c, s)
    {
      InterruptSettles(c, s', es, j);
      FateAtInterrupt(c, s, j);
    }
    assert Marked(end.jobs, |c.tests|) == NotStarted(c, s);
    InterruptedTally(c, end);
    ExitCodeAtEnd(c, end);
    forall j | 0 <= j < |c.tests| ensures Succeeded(c, end, j) <==> j !in NotStarted(c, s) && Clean(c, j) {
    }
    NoneLeft(c, s);
  }

  lemma NoneLeft(c: Config, s: State)
    ensures NotStarted(c, s) == {} <==> forall j :: 0 <= j < |c.tests| ==> j !in NotStarted(c, s)
  {
  }

  lemma {:induction false} RunSplits(c: Config, s: State, es: seq<Event>, rest: seq<Event>)
    requires IsRun(c, s, es + rest)
    ensures IsRun(c, s, es) && IsRun(c, After(c, s, es), rest)
    ensures After(c, s, es + rest) == After(c, After(c, s, es), rest)
    decreases es
  {
    if es == [] {
      assert es + rest == rest;
    } else {
      assert (es + rest)[1..] == es[1..] + rest;
      RunSplits(c, Apply(c, s, es[0]), es[1..], rest);
    }
  }

  /** Every interrupted run of a pool with workers, when no thread can go on. */
  lemma InterruptedRun(c: Config, before: seq<Event>, after: seq<Event>)
    requires c.workers > 0 && Interrupt !in before
    requires IsRun(c, Init(c), before + ([Interrupt] + after))
    requires Stuck(c, After(c, Init(c), before + ([Interrupt] + after)))
    ensures IsRun(c, Init(c), before)
    ensures var s, end := After(c, Init(c), before), After(c, Init(c), before + ([Interrupt] + after));
      && Inv(c, end)
      && (forall k :: 0 <= k < |end.collected| ==> end.collected[k] < |c.tests|)
      && ReportsInterrupt(c, s, end)
  {
    RunSplits(c, Init(c), before, [Interrupt] + after);
    StuckIsDone(c, before + ([Interrupt] + after));
    ReachableInv(c, before);
    InterruptedOnlyByInterrupt(c, Init(c), before);
    var s := After(c, Init(c), before);
    assert ([Interrupt] + after)[0] == Interrupt && ([Interrupt] + after)[1..] == after;
    InterruptReported(c, s, after);
  }
}
