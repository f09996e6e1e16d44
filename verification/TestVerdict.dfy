/** Classification of the collected jobs and the exit code of test.py. */
module TestVerdict {

  /** The text of the Result element a test suite leaves in its XML file. */
  datatype XmlResult = XmlPass | XmlFail | XmlSkip | XmlOther

  /** A job as it comes out of the output queue. The return code and the XML
      result of a job that was not run are not looked at. */
  datatype JobResult = JobResult(isBreak: bool, isSkip: bool, isExample: bool, returncode: int, xml: XmlResult)

  datatype Outcome = Interrupted | Skipped | Passed | Failed | ValgrindError | Crashed

  function OutcomeOf(job: JobResult): Outcome {
    if job.isBreak then Interrupted
    else if job.isSkip then Skipped
    else if job.returncode == 0 then Passed
    else if job.returncode == 1 then Failed
    else if job.returncode == 2 then ValgrindError
    else Crashed
  }

  /** The number of jobs with an outcome. */
  function Tally(jobs: seq<JobResult>, outcome: Outcome): nat {
    if jobs == [] then 0
    else Tally(jobs[..|jobs| - 1], outcome) + if OutcomeOf(jobs[|jobs| - 1]) == outcome then 1 else 0
  }

  /** The entry in the list of failed jobs made for a return code. */
  function CodeEntry(job: JobResult): seq<JobResult> {
    if job.isBreak || job.isSkip || job.returncode == 0 then [] else [job]
  }

  /** The entry made for the XML result of a test suite. Without a valid XML
      file, after a crash, there always is one. */
  function XmlEntry(job: JobResult): seq<JobResult> {
    if job.isBreak || job.isSkip || job.isExample then []
    else if 0 <= job.returncode <= 2 && (job.xml.XmlPass? || job.xml.XmlSkip?) then []
    else [job]
  }

  /** A failing test suite is entered twice. */
  function FailedEntries(job: JobResult): seq<JobResult> {
    CodeEntry(job) + XmlEntry(job)
  }

  function AllFailedEntries(jobs: seq<JobResult>): seq<JobResult> {
    if jobs == [] then [] else AllFailedEntries(jobs[..|jobs| - 1]) + FailedEntries(jobs[|jobs| - 1])
  }

  datatype Summary = Summary(passed: nat, failed: nat, valgrind: nat, crashed: nat, skipped: nat)

  ghost predicate Tallies(s: Summary, jobs: seq<JobResult>) {
    && s.passed == Tally(jobs, Passed) && s.failed == Tally(jobs, Failed)
    && s.valgrind == Tally(jobs, ValgrindError) && s.crashed == Tally(jobs, Crashed)
    && s.skipped == Tally(jobs, Skipped)
  }

  // ---------------------------------------------------------------------
  // Counters and entries by the fields of the jobs
  // ---------------------------------------------------------------------

  /** The positions of the jobs that were run and returned a code. */
  ghost function Returned(jobs: seq<JobResult>, code: int): set<nat> {
    set i: nat | i < |jobs| && !jobs[i].isBreak && !jobs[i].isSkip && jobs[i].returncode == code
  }

  ghost function ReturnedOther(jobs: seq<JobResult>): set<nat> {
    set i: nat | i < |jobs| && !jobs[i].isBreak && !jobs[i].isSkip && !(0 <= jobs[i].returncode <= 2)
  }

  ghost function SkippedJobs(jobs: seq<JobResult>): set<nat> {
    set i: nat | i < |jobs| && !jobs[i].isBreak && jobs[i].isSkip
  }

  ghost function MarkedJobs(jobs: seq<JobResult>): set<nat> {
    set i: nat | i < |jobs| && jobs[i].isBreak
  }

  lemma ReturnedStep(jobs: seq<JobResult>, code: int, n: nat)
    requires |jobs| == n + 1
    ensures |Returned(jobs, code)| == |Returned(jobs[..n], code)| + if n in Returned(jobs, code) then 1 else 0
  {
    assert Returned(jobs, code) == Returned(jobs[..n], code) + if n in Returned(jobs, code) then {n} else {};
  }

  lemma {:induction false} TallyOfCode(jobs: seq<JobResult>, code: int, outcome: Outcome)
    requires (code, outcome) in {(0, Passed), (1, Failed), (2, ValgrindError)}
    ensures Tally(jobs, outcome) == |Returned(jobs, code)|
  {
    if jobs == [] {
    } else {
      var n := |jobs| - 1;
      TallyOfCode(jobs[..n], code, outcome);
      ReturnedStep(jobs, code, n);
    }
  }

  lemma {:induction false} TallyOfCrashed(jobs: seq<JobResult>)
    ensures Tally(jobs, Crashed) == |ReturnedOther(jobs)|
  {
    if jobs == [] {
    } else {
      var n := |jobs| - 1;
      TallyOfCrashed(jobs[..n]);
      assert ReturnedOther(jobs) == ReturnedOther(jobs[..n]) + if OutcomeOf(jobs[n]) == Crashed then {n} else {};
    }
  }

  lemma {:induction false} TallyOfSkipped(jobs: seq<JobResult>)
    ensures Tally(jobs, Skipped) == |SkippedJobs(jobs)|
  {
    if jobs == [] {
    } else {
      var n := |jobs| - 1;
      TallyOfSkipped(jobs[..n]);
      assert SkippedJobs(jobs) == SkippedJobs(jobs[..n]) + if OutcomeOf(jobs[n]) == Skipped then {n} else {};
    }
  }

  lemma {:induction false} TallyOfMarked(jobs: seq<JobResult>)
    ensures Tally(jobs, Interrupted) == |MarkedJobs(jobs)|
  {
    if jobs == [] {
    } else {
      var n := |jobs| - 1;
      TallyOfMarked(jobs[..n]);
      assert MarkedJobs(jobs) == MarkedJobs(jobs[..n]) + if OutcomeOf(jobs[n]) == Interrupted then {n} else {};
    }
  }

  /** A job that ran is entered once for a code that is not 0, and once for its
      XML result: a suite's that is neither PASS nor SKIP, or that does not count
      because the suite crashed. */
  lemma EntriesOfJob(job: JobResult)
    ensures job.isBreak || job.isSkip ==> FailedEntries(job) == []
    ensures !job.isBreak && !job.isSkip ==>
      var suiteFails := !job.isExample
        && !(job.returncode in {0, 1, 2} && job.xml in {XmlPass, XmlSkip});
      FailedEntries(job) ==
        if job.returncode != 0 && suiteFails then [job, job]
        else if job.returncode != 0 || suiteFails then [job]
        else []
  {
  }

  /** The positions of the jobs that ran and did not return 0. */
  ghost function NonZero(jobs: seq<JobResult>): set<nat> {
    set i: nat | i < |jobs| && !jobs[i].isBreak && !jobs[i].isSkip && jobs[i].returncode != 0
  }

  /** The positions of the suites that ran and do not count as passed or skipped
      by their XML results. */
  ghost function FailedSuites(jobs: seq<JobResult>): set<nat> {
    set i: nat | i < |jobs| && !jobs[i].isBreak && !jobs[i].isSkip && !jobs[i].isExample
      && !(jobs[i].returncode in {0, 1, 2} && jobs[i].xml in {XmlPass, XmlSkip})
  }

  lemma NonZeroStep(jobs: seq<JobResult>, n: nat)
    requires |jobs| == n + 1
    ensures |NonZero(jobs)| == |NonZero(jobs[..n])| + if n in NonZero(jobs) then 1 else 0
  {
    assert NonZero(jobs) == NonZero(jobs[..n]) + if n in NonZero(jobs) then {n} else {};
  }

  lemma FailedSuitesStep(jobs: seq<JobResult>, n: nat)
    requires |jobs| == n + 1
    ensures |FailedSuites(jobs)| == |FailedSuites(jobs[..n])| + if n in FailedSuites(jobs) then 1 else 0
  {
    assert FailedSuites(jobs) == FailedSuites(jobs[..n]) + if n in FailedSuites(jobs) then {n} else {};
  }

  lemma {:induction false} EntryCount(jobs: seq<JobResult>)
    ensures |AllFailedEntries(jobs)| == |NonZero(jobs)| + |FailedSuites(jobs)|
  {
    if jobs == [] {
    } else {
      var n := |jobs| - 1;
      EntryCount(jobs[..n]);
      EntriesOfJob(jobs[n]);
      NonZeroStep(jobs, n);
      FailedSuitesStep(jobs, n);
    }
  }

  /** The entries of the job collected last come last. */
  lemma LastEntries(jobs: seq<JobResult>, n: nat)
    requires |jobs| == n + 1
    ensures AllFailedEntries(jobs) == AllFailedEntries(jobs[..n]) + FailedEntries(jobs[n])
  {
  }

  /** The entries of jobs collected earlier come first. */
  lemma {:induction false} EntriesInOrder(jobs: seq<JobResult>, n: nat)
    requires n <= |jobs|
    ensures AllFailedEntries(jobs[..n]) <= AllFailedEntries(jobs)
  {
    if n == |jobs| {
      assert jobs[..n] == jobs;
    } else {
      var m := |jobs| - 1;
      EntriesInOrder(jobs[..m], n);
      assert jobs[..m][..n] == jobs[..n];
      LastEntries(jobs, m);
    }
  }

  /** A test suite that returned 1 with a failing XML result is entered twice. */
  lemma FailingSuiteTwice(job: JobResult)
    requires !job.isBreak && !job.isSkip && !job.isExample && job.returncode == 1 && job.xml == XmlFail
    ensures AllFailedEntries([job]) == [job, job]
  {
    EntriesOfJob(job);
    assert [job][..0] == [];
  }

  // ---------------------------------------------------------------------
  // The program
  // ---------------------------------------------------------------------

  /** The collection loop: the counters are the numbers of jobs that returned 0,
      1, 2 and anything else, and of those skipped. */
  method Classify(jobs: seq<JobResult>) returns (s: Summary, failedJobs: seq<JobResult>)
    ensures Tallies(s, jobs)
    ensures s.passed == |Returned(jobs, 0)| && s.failed == |Returned(jobs, 1)| && s.valgrind == |Returned(jobs, 2)|
    ensures s.crashed == |ReturnedOther(jobs)| && s.skipped == |SkippedJobs(jobs)|
    ensures failedJobs == AllFailedEntries(jobs)
    ensures |failedJobs| == |NonZero(jobs)| + |FailedSuites(jobs)|
  {
    TallyOfCode(jobs, 0, Passed);
    TallyOfCode(jobs, 1, Failed);
    TallyOfCode(jobs, 2, ValgrindError);
    TallyOfCrashed(jobs);
    TallyOfSkipped(jobs);
    EntryCount(jobs);
    s, failedJobs := Summary(0, 0, 0, 0, 0), [];
    for i := 0 to |jobs|
      invariant Tallies(s, jobs[..i])
      invariant failedJobs == AllFailedEntries(jobs[..i])
    {
      var job := jobs[i];
      assert jobs[..i + 1][..i] == jobs[..i];
      s := Count(s, job);
      failedJobs := EnterFailed(failedJobs, job);
    }
    assert jobs[..|jobs|] == jobs;
  }

  /** The counter a job goes to; interrupted jobs are not counted. */
  method Count(s: Summary, job: JobResult) returns (s': Summary)
    ensures s'.passed == s.passed + if OutcomeOf(job) == Passed then 1 else 0
    ensures s'.failed == s.failed + if OutcomeOf(job) == Failed then 1 else 0
    ensures s'.valgrind == s.valgrind + if OutcomeOf(job) == ValgrindError then 1 else 0
    ensures s'.crashed == s.crashed + if OutcomeOf(job) == Crashed then 1 else 0
    ensures s'.skipped == s.skipped + if OutcomeOf(job) == Skipped then 1 else 0
  {
    s' := s;
    if job.isBreak {
      return;
    }
    if job.isSkip {
      s' := s.(skipped := s.skipped + 1);
    } else if job.returncode == 0 {
      s' := s.(passed := s.passed + 1);
    } else if job.returncode == 1 {
      s' := s.(failed := s.failed + 1);
    } else if job.returncode == 2 {
      s' := s.(valgrind := s.valgrind + 1);
    } else {
      s' := s.(crashed := s.crashed + 1);
    }
  }

  /** The appends to and removals from the list of failed jobs. A removal takes
      off the entry that was just made, and leaves the earlier ones. */
  method EnterFailed(before: seq<JobResult>, job: JobResult) returns (failedJobs: seq<JobResult>)
    ensures failedJobs == before + FailedEntries(job)
  {
    failedJobs := before;
    if job.isBreak || job.isSkip {
      assert FailedEntries(job) == [] && before + [] == before;
      return;
    }
    failedJobs := failedJobs + [job];
    if job.returncode == 0 {
      failedJobs := Pop(failedJobs, before, job);
    }
    assert failedJobs == before + CodeEntry(job);
    if !job.isExample {
      ghost var first := failedJobs;
      failedJobs := failedJobs + [job];
      if job.returncode == 0 || job.returncode == 1 || job.returncode == 2 {
        if job.xml.XmlPass? || job.xml.XmlSkip? {
          failedJobs := Pop(failedJobs, first, job);
        }
      }
    }
    assert failedJobs == before + CodeEntry(job) + XmlEntry(job);
    assert before + CodeEntry(job) + XmlEntry(job) == before + FailedEntries(job);
  }

  /** list.pop right after the current job was appended. */
  method Pop(s: seq<JobResult>, ghost before: seq<JobResult>, job: JobResult) returns (rest: seq<JobResult>)
    requires s == before + [job]
    ensures rest == before
  {
    rest := s[..|s| - 1];
  }

  /** Every job is counted under exactly one outcome. */
  lemma {:induction false} TalliesAddUp(jobs: seq<JobResult>)
    ensures Tally(jobs, Passed) + Tally(jobs, Failed) + Tally(jobs, ValgrindError) + Tally(jobs, Crashed)
            + Tally(jobs, Skipped) + Tally(jobs, Interrupted) == |jobs|
  {
    if jobs == [] {
    } else {
      TalliesAddUp(jobs[..|jobs| - 1]);
    }
  }

  predicate Good(job: JobResult) {
    OutcomeOf(job) == Passed || OutcomeOf(job) == Skipped
  }

  lemma {:induction false} GoodTally(jobs: seq<JobResult>)
    ensures Tally(jobs, Passed) + Tally(jobs, Skipped) <= |jobs|
    ensures Tally(jobs, Passed) + Tally(jobs, Skipped) == |jobs| <==> forall i :: 0 <= i < |jobs| ==> Good(jobs[i])
  {
    if jobs == [] {
    } else {
      var n := |jobs| - 1;
      GoodTally(jobs[..n]);
      assert forall i :: 0 <= i < n ==> jobs[..n][i] == jobs[i];
    }
  }

  /** The exit code for a list of collected jobs: from the two counters. */
  function ExitCodeOf(jobs: seq<JobResult>): int {
    if Tally(jobs, Passed) + Tally(jobs, Skipped) == |jobs| then 0 else 1
  }

  /** It is 0 exactly when every job was skipped or ran with return code 0, and
      none was interrupted. */
  lemma ExitCodeZero(jobs: seq<JobResult>)
    ensures ExitCodeOf(jobs) == 0 <==> forall i :: 0 <= i < |jobs| ==>
      !jobs[i].isBreak && (jobs[i].isSkip || jobs[i].returncode == 0)
  {
    GoodTally(jobs);
    assert forall i :: 0 <= i < |jobs| ==>
      (Good(jobs[i]) <==> !jobs[i].isBreak && (jobs[i].isSkip || jobs[i].returncode == 0));
  }

  method Verdict(jobs: seq<JobResult>) returns (exitCode: int, failedJobs: seq<JobResult>)
    ensures exitCode == ExitCodeOf(jobs)
    ensures exitCode == 0 <==> forall i :: 0 <= i < |jobs| ==>
      !jobs[i].isBreak && (jobs[i].isSkip || jobs[i].returncode == 0)
    ensures failedJobs == AllFailedEntries(jobs)
  {
    var s;
    s, failedJobs := Classify(jobs);
    var totalTests := |jobs|;
    ExitCodeZero(jobs);
    if s.passed + s.skipped == totalTests {
      exitCode := 0;
    } else {
      exitCode := 1;
    }
  }

  lemma {:induction false} NoEntries(jobs: seq<JobResult>)
    ensures AllFailedEntries(jobs) == [] <==> forall i :: 0 <= i < |jobs| ==> FailedEntries(jobs[i]) == []
  {
    if jobs == [] {
    } else {
      var n := |jobs| - 1;
      NoEntries(jobs[..n]);
      assert |AllFailedEntries(jobs)| == |AllFailedEntries(jobs[..n])| + |FailedEntries(jobs[n])|;
      assert forall i :: 0 <= i < n ==> jobs[..n][i] == jobs[i];
    }
  }

  /** A suite that returned 0 whose XML result says otherwise. */
  predicate Inconsistent(job: JobResult) {
    OutcomeOf(job) == Passed && !job.isExample && !job.xml.XmlPass? && !job.xml.XmlSkip?
  }

  lemma GoodJobEntries(job: JobResult)
    requires Good(job)
    ensures FailedEntries(job) != [] <==> Inconsistent(job)
  {
  }

  /** A successful run still lists a failed job exactly when some test suite
      returned 0 with an XML result that is neither PASS nor SKIP. */
  lemma SuccessWithFailedJobs(jobs: seq<JobResult>)
    requires forall i :: 0 <= i < |jobs| ==> Good(jobs[i])
    ensures AllFailedEntries(jobs) != [] <==>
      exists i :: 0 <= i < |jobs| && Inconsistent(jobs[i])
  {
    NoEntries(jobs);
    forall i | 0 <= i < |jobs|
      ensures FailedEntries(jobs[i]) != [] <==> Inconsistent(jobs[i])
    {
      GoodJobEntries(jobs[i]);
    }
  }
}
