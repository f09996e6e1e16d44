/** Whole runs of the worker pool of test.py: what holds at every moment, that
    they end, and that they end properly. */
module WorkerPoolRuns {
  import opened WorkerPool

  // ---------------------------------------------------------------------
  // Runs
  // ---------------------------------------------------------------------

  /** es are steps that can be taken one after the other from s. */
  ghost predicate IsRun(c: Config, s: State, es: seq<Event>)
    decreases es
  {
    es == [] || (Shape(c, s) && Enabled(c, s, es[0]) && IsRun(c, Apply(c, s, es[0]), es[1..]))
  }

  ghost function After(c: Config, s: State, es: seq<Event>): State
    requires IsRun(c, s, es)
    decreases es
  {
    if es == [] then s else After(c, Apply(c, s, es[0]), es[1..])
  }

  lemma {:induction false} RunKeepsInv(c: Config, s: State, es: seq<Event>)
    requires Inv(c, s) && IsRun(c, s, es)
    ensures Inv(c, After(c, s, es))
    decreases es
  {
    if es == [] {
    } else {
      StepInv(c, s, es[0]);
      RunKeepsInv(c, Apply(c, s, es[0]), es[1..]);
    }
  }

  /** The invariant holds at every moment of every run of the pool. */
  lemma ReachableInv(c: Config, es: seq<Event>)
    requires IsRun(c, Init(c), es)
    ensures Inv(c, After(c, Init(c), es))
  {
    InitInv(c);
    RunKeepsInv(c, Init(c), es);
  }

  // ---------------------------------------------------------------------
  // Safety
  // ---------------------------------------------------------------------

  /** Once a worker has got a break job, or exited, no test is left in the input
      queue, and all tests have been dispatched. */
  lemma BreakJobMeansDrained(c: Config, s: State, w: nat)
    requires Inv(c, s) && w < |s.workers|
    requires s.workers[w].Exited? || (s.workers[w].Got? && s.workers[w].job >= |c.tests|)
    ensures s.dispatched > |c.tests|
    ensures forall j :: j in s.input ==> j >= |c.tests|
  {
    assert WorkerOk(c, s.interrupted, s.workers[w], s.jobs);
  }

  /** A worker stops for a break job, and never for a test, also not for one
      that was marked as a break job because of an interrupt. */
  lemma OnlyBreakJobsStop(c: Config, s: State, w: nat)
    requires Inv(c, s) && w < |s.workers| && s.workers[w].Got?
    ensures Apply(c, s, TestBreak(w)).workers[w].Exited? <==> s.workers[w].job >= |c.tests|
  {
    assert WorkerOk(c, s.interrupted, s.workers[w], s.jobs);
  }

  // ---------------------------------------------------------------------
  // Termination
  // ---------------------------------------------------------------------

  function Cost(w: Worker): nat {
    match w
    case Waiting => 0
    case Got(_) => 5
    case Checked(_) => 4
    case Running(_) => 3
    case Reporting(_) => 2
    case Exited(_) => 0
  }

  function Work(workers: seq<Worker>): nat {
    if workers == [] then 0 else Work(workers[..|workers| - 1]) + Cost(workers[|workers| - 1])
  }

  lemma {:induction false} WorkUpdate(workers: seq<Worker>, w: nat, x: Worker)
    requires w < |workers|
    ensures Work(workers[w := x]) == Work(workers) + Cost(x) - Cost(workers[w])
  {
    var n := |workers| - 1;
    if w < n {
      WorkUpdate(workers[..n], w, x);
      assert workers[w := x][..n] == workers[..n][w := x];
    } else {
      assert workers[w := x][..n] == workers[..n];
    }
  }

  lemma {:induction false} NoWork(n: nat)
    ensures Work(seq(n, _ => Waiting)) == 0
  {
    if n == 0 {
    } else {
      NoWork(n - 1);
      assert seq(n, _ => Waiting)[..n - 1] == seq(n - 1, _ => Waiting);
    }
  }

  /** The steps that may still be taken, at most. */
  function Remaining(c: Config, s: State): int {
    7 * (c.Objects() - s.dispatched) + 6 * |s.input| + Work(s.workers) + |s.output|
    + (|s.workers| - s.joined) + if s.interrupted then 0 else 1
  }

  lemma StepDecreases(c: Config, s: State, e: Event)
    requires Inv(c, s) && Enabled(c, s, e)
    ensures Remaining(c, Apply(c, s, e)) < Remaining(c, s)
  {
    var s' := Apply(c, s, e);
    match e
    case Dispatch =>
    case Collect =>
    case Join =>
    case Interrupt =>
    case Get(w) => WorkDrops(c, s, e, w);
    case TestBreak(w) => WorkDrops(c, s, e, w);
    case TestInterrupt(w) => WorkDrops(c, s, e, w);
    case Finish(w) => WorkDrops(c, s, e, w);
    case Put(w) => WorkDrops(c, s, e, w);
  }

  /** Worker w takes one step. */
  lemma WorkDrops(c: Config, s: State, e: Event, w: nat)
    requires Inv(c, s) && Enabled(c, s, e)
    requires e == Get(w) || e == TestBreak(w) || e == TestInterrupt(w) || e == Finish(w) || e == Put(w)
    ensures var s' := Apply(c, s, e);
      6 * |s'.input| + Work(s'.workers) + |s'.output| < 6 * |s.input| + Work(s.workers) + |s.output|
  {
    WorkUpdate(s.workers, w, Apply(c, s, e).workers[w]);
  }

  lemma {:induction false} RunAtMost(c: Config, s: State, es: seq<Event>)
    requires Inv(c, s) && IsRun(c, s, es)
    ensures |es| <= Remaining(c, s)
    decreases es
  {
    if es == [] {
    } else {
      StepInv(c, s, es[0]);
      StepDecreases(c, s, es[0]);
      RunAtMost(c, Apply(c, s, es[0]), es[1..]);
    }
  }

  /** Every run is finite, whatever the scheduler does. */
  lemma RunsAreBounded(c: Config, es: seq<Event>)
    requires IsRun(c, Init(c), es)
    ensures |es| <= 7 * |c.tests| + 8 * c.workers + 1
  {
    InitInv(c);
    RunAtMost(c, Init(c), es);
    NoWork(c.workers);
  }

  // ---------------------------------------------------------------------
  // No deadlock
  // ---------------------------------------------------------------------

  /** No thread can go on. An interrupt may still come, but need not. */
  ghost predicate Stuck(c: Config, s: State) {
    forall e: Event :: Enabled(c, s, e) ==> e == Interrupt
  }

  lemma {:induction false} BusyBound(workers: seq<Worker>)
    ensures Busy(workers) <= |workers|
    ensures (exists w :: 0 <= w < |workers| && workers[w].Waiting?) <==> Busy(workers) < |workers|
  {
    if workers == [] {
    } else {
      var n := |workers| - 1;
      BusyBound(workers[..n]);
      if w :| 0 <= w < |workers| && workers[w].Waiting? {
        if w < n {
          assert workers[..n][w].Waiting?;
        }
      }
      if w :| 0 <= w < n && workers[..n][w].Waiting? {
        assert workers[w].Waiting?;
      }
    }
  }

  /** Each of the numbers below n once. */
  function Ids(n: nat): (m: multiset<JobId>)
    ensures |m| == n
    ensures forall j: JobId :: m[j] == if j < n then 1 else 0
  {
    if n == 0 then multiset{} else Ids(n - 1) + multiset{n - 1}
  }

  /** There are no more results than tests. */
  lemma ResultsFit(c: Config, s: State)
    requires Inv(c, s)
    ensures |s.output| + |s.collected| <= |c.tests|
  {
    var m := multiset(s.output) + multiset(s.collected);
    forall j: JobId
      ensures m[j] <= Ids(|c.tests|)[j]
    {
      assert Places(s.input, s.workers, s.output, s.collected, j) <= 1;
      if j >= |c.tests| {
        assert j !in s.output && j !in s.collected;
      }
    }
    assert Ids(|c.tests|) == m + (Ids(|c.tests|) - m);
  }

  /** A step other than an interrupt that is possible. */
  lemma Progress(c: Config, s: State) returns (e: Event)
    requires Inv(c, s) && !Done(c, s)
    requires c.workers > 0 || c.tests == []
    ensures Enabled(c, s, e) && !e.Interrupt?
  {
    if s.dispatched < c.Objects() {
      return Dispatch;
    }
    if w :| 0 <= w < |s.workers| && !s.workers[w].Waiting? && !s.workers[w].Exited? {
      return if s.workers[w].Got? then TestBreak(w) else if s.workers[w].Checked? then TestInterrupt(w)
             else if s.workers[w].Running? then Finish(w) else Put(w);
    }
    BusyBound(s.workers);
    ResultsFit(c, s);
    if w :| 0 <= w < |s.workers| && s.workers[w].Waiting? {
      // Not all workers hold something, so something is in the input queue.
      return Get(w);
    }
    // All workers have exited, with one break job each: nothing is in the input queue.
    if |s.collected| < |c.tests| {
      AllExitedDrained(c, s);
      return Collect;
    }
    return Join;
  }

  lemma AllExitedDrained(c: Config, s: State)
    requires Inv(c, s) && s.dispatched == c.Objects() && c.workers > 0
    requires forall w :: 0 <= w < |s.workers| ==> s.workers[w].Exited?
    ensures s.input == []
  {
    if s.input != [] {
      // Some break job would be left over: more exits than break jobs taken.
      var taken := s.dispatched - |s.input|;
      forall w | 0 <= w < |s.workers| ensures |c.tests| <= s.workers[w].job < taken {
        assert WorkerOk(c, s.interrupted, s.workers[w], s.jobs);
      }
      DistinctJobs(c, s);
      Pigeonhole(s.workers, |c.tests|, taken);
      assert false;
    }
  }

  lemma DistinctJobs(c: Config, s: State)
    requires Inv(c, s)
    ensures forall v, w :: 0 <= v < w < |s.workers| && !s.workers[v].Waiting? && !s.workers[w].Waiting? ==>
      s.workers[v].job != s.workers[w].job
  {
    forall v, w | 0 <= v < w < |s.workers| && !s.workers[v].Waiting? && !s.workers[w].Waiting?
      ensures s.workers[v].job != s.workers[w].job
    {
      HeldIsUnique(s.input, s.workers, s.output, s.collected, s.dispatched, w);
    }
  }

  /** Workers with different jobs from a range are no more than the range has. */
  lemma Pigeonhole(workers: seq<Worker>, lo: nat, hi: nat)
    requires lo <= hi
    requires forall w :: 0 <= w < |workers| ==> !workers[w].Waiting? && lo <= workers[w].job < hi
    requires forall v, w :: 0 <= v < w < |workers| ==> workers[v].job != workers[w].job
    ensures |workers| <= hi - lo
  {
    JobSetSize(workers);
    var jobs, range := JobSet(workers), Range(lo, hi);
    assert range == jobs + (range - jobs);
    assert |range| == |jobs| + |range - jobs|;
  }

  function JobSet(workers: seq<Worker>): set<JobId>
    requires forall w :: 0 <= w < |workers| ==> !workers[w].Waiting?
  {
    set w | 0 <= w < |workers| :: workers[w].job
  }

  lemma {:induction false} JobSetSize(workers: seq<Worker>)
    requires forall w :: 0 <= w < |workers| ==> !workers[w].Waiting?
    requires forall v, w :: 0 <= v < w < |workers| ==> workers[v].job != workers[w].job
    ensures |JobSet(workers)| == |workers|
  {
    if workers == [] {
    } else {
      var n := |workers| - 1;
      JobSetSize(workers[..n]);
      var last := workers[n].job;
      assert last !in JobSet(workers[..n]);
      forall j ensures j in JobSet(workers) <==> j in JobSet(workers[..n]) || j == last {
        if j in JobSet(workers[..n]) {
          var w :| 0 <= w < n && workers[..n][w].job == j;
          assert workers[w].job == j;
        }
        if j in JobSet(workers) && j != last {
          var w :| 0 <= w < |workers| && workers[w].job == j;
          assert workers[..n][w].job == j;
        }
      }
      assert JobSet(workers) == JobSet(workers[..n]) + {last};
    }
  }

  function Range(lo: nat, hi: nat): (r: set<JobId>)
    requires lo <= hi
    ensures |r| == hi - lo
    ensures forall j: nat :: j in r <==> lo <= j < hi
    decreases hi - lo
  {
    if lo == hi then {} else Range(lo, hi - 1) + {hi - 1}
  }

  /** Any run can be carried on, without an interrupt, until no thread can go on. */
  lemma {:induction false} MaximalRun(c: Config, s: State) returns (es: seq<Event>)
    requires Inv(c, s)
    ensures IsRun(c, s, es) && Interrupt !in es && Stuck(c, After(c, s, es))
    decreases Remaining(c, s)
  {
    if Stuck(c, s) {
      es := [];
    } else {
      var e: Event :| Enabled(c, s, e) && e != Interrupt;
      StepInv(c, s, e);
      StepDecreases(c, s, e);
      RemainingBound(c, s);
      var rest := MaximalRun(c, Apply(c, s, e));
      es := [e] + rest;
      assert es[1..] == rest;
    }
  }

  lemma RemainingBound(c: Config, s: State)
    requires Inv(c, s)
    ensures Remaining(c, s) >= 0
  {
  }

  /** Without workers, no result ever comes out. */
  lemma {:induction false} NoWorkersNoResults(c: Config, s: State, es: seq<Event>)
    requires c.workers == 0 && Inv(c, s) && IsRun(c, s, es) && s.output == [] && s.collected == []
    ensures After(c, s, es).collected == []
    decreases es
  {
    if es == [] {
    } else {
      StepInv(c, s, es[0]);
      NoWorkersNoResults(c, Apply(c, s, es[0]), es[1..]);
    }
  }

  /** The pool never deadlocks exactly when it has a worker or nothing to do:
      then every run after which no thread can go on, interrupted or not, has
      ended properly. Otherwise some run that nothing interrupts hangs. */
  lemma NeverDeadlocks(c: Config)
    ensures c.workers > 0 || c.tests == [] ==>
      forall es :: IsRun(c, Init(c), es) && Stuck(c, After(c, Init(c), es)) ==> Done(c, After(c, Init(c), es))
    ensures c.workers == 0 && c.tests != [] ==>
      exists es :: IsRun(c, Init(c), es) && Interrupt !in es
        && Stuck(c, After(c, Init(c), es)) && !Done(c, After(c, Init(c), es))
  {
    if c.workers > 0 || c.tests == [] {
      forall es | IsRun(c, Init(c), es) && Stuck(c, After(c, Init(c), es))
        ensures Done(c, After(c, Init(c), es))
      {
        StuckIsDone(c, es);
      }
    } else {
      InitInv(c);
      var es := MaximalRun(c, Init(c));
      NoWorkersNoResults(c, Init(c), es);
    }
  }

  lemma StuckIsDone(c: Config, es: seq<Event>)
    requires c.workers > 0 || c.tests == []
    requires IsRun(c, Init(c), es) && Stuck(c, After(c, Init(c), es))
    ensures Done(c, After(c, Init(c), es))
  {
    ReachableInv(c, es);
    if !Done(c, After(c, Init(c), es)) {
      var e := Progress(c, After(c, Init(c), es));
    }
  }

  lemma {:induction false} RunsAppend(c: Config, s: State, es: seq<Event>, rest: seq<Event>)
    requires IsRun(c, s, es) && IsRun(c, After(c, s, es), rest)
    ensures IsRun(c, s, es + rest) && After(c, s, es + rest) == After(c, After(c, s, es), rest)
    decreases es
  {
    if es == [] {
      assert es + rest == rest;
    } else {
      assert (es + rest)[1..] == es[1..] + rest;
      RunsAppend(c, Apply(c, s, es[0]), es[1..], rest);
    }
  }

  /** Wherever a run of a pool with workers has got to, it can go on to its
      proper end without an interrupt. */
  lemma AlwaysCanFinish(c: Config, es: seq<Event>) returns (rest: seq<Event>)
    requires c.workers > 0 && IsRun(c, Init(c), es)
    ensures Interrupt !in rest
    ensures IsRun(c, Init(c), es + rest) && Done(c, After(c, Init(c), es + rest))
  {
    ReachableInv(c, es);
    rest := MaximalRun(c, After(c, Init(c), es));
    RunsAppend(c, Init(c), es, rest);
    StuckIsDone(c, es + rest);
  }
}
