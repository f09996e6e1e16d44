/** The worker pool of test.py as an interleaving of atomic steps: the main
    thread queues the jobs and then one break job per worker, collects the
    results and joins the workers; an interrupt may come at any moment. */
module WorkerPool {
  import TestVerdict

  // ---------------------------------------------------------------------
  // States
  // ---------------------------------------------------------------------

  /** A job object: the tests have numbers below the number of tests, the break
      jobs follow. */
  type JobId = nat

  /** What is known of a test before the run, and the return code and XML
      result that running it produces. */
  datatype Test = Test(isSkip: bool, isExample: bool, returncode: int, xml: TestVerdict.XmlResult)

  datatype Config = Config(tests: seq<Test>, workers: nat) {
    function Objects(): nat { |tests| + workers }
  }

  /** The fields of a job object that change. */
  datatype Job = Job(isBreak: bool, finished: bool)

  /** A worker thread: blocked in get, or with the job it holds after get, after
      the test of is_break, while running it, and before putting it out. */
  datatype Worker =
    | Waiting
    | Got(job: JobId)
    | Checked(job: JobId)
    | Running(job: JobId)
    | Reporting(job: JobId)
    | Exited(job: JobId)

  datatype State = State(
    jobs: seq<Job>,
    dispatched: nat,
    input: seq<JobId>,
    workers: seq<Worker>,
    output: seq<JobId>,
    collected: seq<JobId>,
    joined: nat,
    interrupted: bool
  )

  function Init(c: Config): State {
    State(seq(c.Objects(), j => Job(j >= |c.tests|, false)), 0, [], seq(c.workers, _ => Waiting), [], [], 0, false)
  }

  // ---------------------------------------------------------------------
  // Steps
  // ---------------------------------------------------------------------

  datatype Event =
    | Dispatch
    | Collect
    | Join
    | Interrupt
    | Get(w: nat)
    | TestBreak(w: nat)
    | TestInterrupt(w: nat)
    | Finish(w: nat)
    | Put(w: nat)

  predicate Enabled(c: Config, s: State, e: Event) {
    match e
    case Dispatch => s.dispatched < c.Objects()
    case Collect => s.dispatched == c.Objects() && |s.collected| < |c.tests| && s.output != []
    case Join => s.dispatched == c.Objects() && |s.collected| == |c.tests|
                 && s.joined < |s.workers| && s.workers[s.joined].Exited?
    case Interrupt => !s.interrupted
    case Get(w) => w < |s.workers| && s.workers[w].Waiting? && s.input != []
    case TestBreak(w) => w < |s.workers| && s.workers[w].Got?
    case TestInterrupt(w) => w < |s.workers| && s.workers[w].Checked?
    case Finish(w) => w < |s.workers| && s.workers[w].Running?
    case Put(w) => w < |s.workers| && s.workers[w].Reporting?
  }

  /** The effect of a step. Job objects are numbered within s.jobs. */
  function Apply(c: Config, s: State, e: Event): State
    requires Enabled(c, s, e) && Shape(c, s)
  {
    match e
    case Dispatch => s.(input := s.input + [s.dispatched], dispatched := s.dispatched + 1)
    case Collect => s.(output := s.output[1..], collected := s.collected + [s.output[0]])
    case Join => s.(joined := s.joined + 1)
    case Interrupt => s.(interrupted := true)
    case Get(w) => s.(input := s.input[1..], workers := s.workers[w := Got(s.input[0])])
    case TestBreak(w) =>
      var j := s.workers[w].job;
      s.(workers := s.workers[w := if s.jobs[j].isBreak then Exited(j) else Checked(j)])
    case TestInterrupt(w) =>
      var j := s.workers[w].job;
      if s.interrupted then
        s.(jobs := s.jobs[j := s.jobs[j].(isBreak := true)], workers := s.workers[w := Reporting(j)])
      else if j < |c.tests| && c.tests[j].isSkip then
        s.(workers := s.workers[w := Reporting(j)])
      else
        s.(workers := s.workers[w := Running(j)])
    case Finish(w) =>
      var j := s.workers[w].job;
      s.(jobs := s.jobs[j := s.jobs[j].(finished := true)], workers := s.workers[w := Reporting(j)])
    case Put(w) =>
      s.(output := s.output + [s.workers[w].job], workers := s.workers[w := Waiting])
  }

  /** Sizes and ranges. */
  predicate Shape(c: Config, s: State) {
    && |s.jobs| == c.Objects() && |s.workers| == c.workers
    && |s.input| <= s.dispatched <= c.Objects()
    && (forall w :: 0 <= w < |s.workers| && !s.workers[w].Waiting? ==> s.workers[w].job < s.dispatched - |s.input|)
  }

  /** The main thread is through. */
  predicate Done(c: Config, s: State) {
    && s.dispatched == c.Objects() && |s.collected| == |c.tests| && s.joined == c.workers
  }

  // ---------------------------------------------------------------------
  // Where the job objects are
  // ---------------------------------------------------------------------

  function Holds(w: Worker, j: JobId): nat {
    if !w.Waiting? && w.job == j then 1 else 0
  }

  /** How many workers hold j. */
  function Held(workers: seq<Worker>, j: JobId): nat {
    if workers == [] then 0 else Held(workers[..|workers| - 1], j) + Holds(workers[|workers| - 1], j)
  }

  /** In how many places j is. */
  function Places(input: seq<JobId>, workers: seq<Worker>, output: seq<JobId>, collected: seq<JobId>, j: JobId): nat {
    multiset(input)[j] + Held(workers, j) + multiset(output)[j] + multiset(collected)[j]
  }

  /** The first n job objects are in exactly one place each, the others in none. */
  ghost predicate EachOnce(input: seq<JobId>, workers: seq<Worker>, output: seq<JobId>, collected: seq<JobId>, n: nat) {
    forall j: JobId :: Places(input, workers, output, collected, j) == if j < n then 1 else 0
  }

  lemma {:induction false} HeldUpdate(workers: seq<Worker>, w: nat, x: Worker, j: JobId)
    requires w < |workers|
    ensures Held(workers[w := x], j) + Holds(workers[w], j) == Held(workers, j) + Holds(x, j)
  {
    var n := |workers| - 1;
    if w < n {
      HeldUpdate(workers[..n], w, x, j);
      assert workers[w := x][..n] == workers[..n][w := x];
    } else {
      assert workers[w := x][..n] == workers[..n];
    }
  }

  lemma {:induction false} HeldBy(workers: seq<Worker>, w: nat, j: JobId)
    requires w < |workers|
    ensures Holds(workers[w], j) <= Held(workers, j)
  {
    if w == |workers| - 1 {
    } else {
      HeldBy(workers[..|workers| - 1], w, j);
    }
  }

  lemma {:induction false} HeldByTwo(workers: seq<Worker>, v: nat, w: nat, j: JobId)
    requires v < w < |workers|
    ensures Holds(workers[v], j) + Holds(workers[w], j) <= Held(workers, j)
  {
    var n := |workers| - 1;
    if w < n {
      HeldByTwo(workers[..n], v, w, j);
    } else {
      HeldBy(workers[..n], v, j);
    }
  }

  /** How many workers hold something. */
  function Busy(workers: seq<Worker>): nat {
    if workers == [] then 0
    else Busy(workers[..|workers| - 1]) + if workers[|workers| - 1].Waiting? then 0 else 1
  }

  lemma {:induction false} BusyUpdate(workers: seq<Worker>, w: nat, x: Worker)
    requires w < |workers|
    ensures Busy(workers[w := x])
         == Busy(workers) + (if x.Waiting? then 0 else 1) - (if workers[w].Waiting? then 0 else 1)
  {
    var n := |workers| - 1;
    if w < n {
      BusyUpdate(workers[..n], w, x);
      assert workers[w := x][..n] == workers[..n][w := x];
    } else {
      assert workers[w := x][..n] == workers[..n];
    }
  }

  lemma {:induction false} NoneBusy(n: nat)
    ensures Busy(seq(n, _ => Waiting)) == 0
  {
    if n == 0 {
    } else {
      NoneBusy(n - 1);
      assert seq(n, _ => Waiting)[..n - 1] == seq(n - 1, _ => Waiting);
    }
  }

  lemma {:induction false} NothingHeld(n: nat, j: JobId)
    ensures Held(seq(n, _ => Waiting), j) == 0
  {
    if n == 0 {
    } else {
      NothingHeld(n - 1, j);
      assert seq(n, _ => Waiting)[..n - 1] == seq(n - 1, _ => Waiting);
    }
  }

  lemma HeadAndTail(s: seq<JobId>, j: JobId)
    requires s != []
    ensures multiset(s)[j] == multiset(s[1..])[j] + if s[0] == j then 1 else 0
  {
    assert s == [s[0]] + s[1..];
  }

  lemma OneAppended(s: seq<JobId>, x: JobId, j: JobId)
    ensures multiset(s + [x])[j] == multiset(s)[j] + if x == j then 1 else 0
  {
  }

  lemma EachOnceDispatch(input: seq<JobId>, workers: seq<Worker>, output: seq<JobId>, collected: seq<JobId>, n: nat)
    requires EachOnce(input, workers, output, collected, n)
    ensures EachOnce(input + [n], workers, output, collected, n + 1)
  {
    var input' := input + [n];
    forall j: JobId
      ensures Places(input', workers, output, collected, j) == if j < n + 1 then 1 else 0
    {
      OneAppended(input, n, j);
      assert Places(input, workers, output, collected, j) == if j < n then 1 else 0;
    }
  }

  lemma EachOnceCollect(input: seq<JobId>, workers: seq<Worker>, output: seq<JobId>, collected: seq<JobId>, n: nat)
    requires EachOnce(input, workers, output, collected, n) && output != []
    ensures EachOnce(input, workers, output[1..], collected + [output[0]], n)
  {
    var output', collected' := output[1..], collected + [output[0]];
    forall j: JobId
      ensures Places(input, workers, output', collected', j) == if j < n then 1 else 0
    {
      HeadAndTail(output, j);
      OneAppended(collected, output[0], j);
      assert Places(input, workers, output, collected, j) == if j < n then 1 else 0;
    }
  }

  lemma EachOnceGet(input: seq<JobId>, workers: seq<Worker>, output: seq<JobId>, collected: seq<JobId>, n: nat, w: nat)
    requires EachOnce(input, workers, output, collected, n) && input != []
    requires w < |workers| && workers[w].Waiting?
    ensures EachOnce(input[1..], workers[w := Got(input[0])], output, collected, n)
  {
    var input', workers' := input[1..], workers[w := Got(input[0])];
    forall j: JobId
      ensures Places(input', workers', output, collected, j) == if j < n then 1 else 0
    {
      HeadAndTail(input, j);
      HeldUpdate(workers, w, Got(input[0]), j);
      assert Places(input, workers, output, collected, j) == if j < n then 1 else 0;
    }
  }

  lemma EachOnceKeep(input: seq<JobId>, workers: seq<Worker>, output: seq<JobId>, collected: seq<JobId>, n: nat,
                     w: nat, x: Worker)
    requires EachOnce(input, workers, output, collected, n)
    requires w < |workers| && !workers[w].Waiting? && !x.Waiting? && x.job == workers[w].job
    ensures EachOnce(input, workers[w := x], output, collected, n)
  {
    var workers' := workers[w := x];
    forall j: JobId
      ensures Places(input, workers', output, collected, j) == if j < n then 1 else 0
    {
      HeldUpdate(workers, w, x, j);
      assert Places(input, workers, output, collected, j) == if j < n then 1 else 0;
    }
  }

  lemma EachOncePut(input: seq<JobId>, workers: seq<Worker>, output: seq<JobId>, collected: seq<JobId>, n: nat, w: nat)
    requires EachOnce(input, workers, output, collected, n)
    requires w < |workers| && !workers[w].Waiting?
    ensures EachOnce(input, workers[w := Waiting], output + [workers[w].job], collected, n)
  {
    var workers', output' := workers[w := Waiting], output + [workers[w].job];
    forall j: JobId
      ensures Places(input, workers', output', collected, j) == if j < n then 1 else 0
    {
      HeldUpdate(workers, w, Waiting, j);
      OneAppended(output, workers[w].job, j);
      assert Places(input, workers, output, collected, j) == if j < n then 1 else 0;
    }
  }

  /** A job object that a worker holds is nowhere else. */
  lemma HeldIsUnique(input: seq<JobId>, workers: seq<Worker>, output: seq<JobId>, collected: seq<JobId>, n: nat, w: nat)
    requires EachOnce(input, workers, output, collected, n)
    requires w < |workers| && !workers[w].Waiting?
    ensures workers[w].job !in output && workers[w].job !in collected
    ensures forall v :: 0 <= v < |workers| && v != w && !workers[v].Waiting? ==> workers[v].job != workers[w].job
  {
    var j := workers[w].job;
    HeldBy(workers, w, j);
    assert Places(input, workers, output, collected, j) == if j < n then 1 else 0;
    forall v | 0 <= v < |workers| && v != w && !workers[v].Waiting?
      ensures workers[v].job != j
    {
      if v < w {
        HeldByTwo(workers, v, w, j);
      } else {
        HeldByTwo(workers, w, v, j);
      }
    }
  }

  // ---------------------------------------------------------------------
  // The invariant
  // ---------------------------------------------------------------------

  /** Every job object dispatched is in exactly one place. */
  ghost predicate Conserved(s: State) {
    && EachOnce(s.input, s.workers, s.output, s.collected, s.dispatched)
    && |s.input| + Busy(s.workers) + |s.output| + |s.collected| == s.dispatched
  }

  /** The input queue holds the last objects dispatched, in order. */
  ghost predicate Fifo(s: State) {
    && |s.input| <= s.dispatched
    && forall k :: 0 <= k < |s.input| ==> s.input[k] == s.dispatched - |s.input| + k
  }

  /** A break job, or a test that nothing has been done with. */
  function Untouched(c: Config, j: JobId): Job {
    Job(j >= |c.tests|, false)
  }

  /** A test that has been skipped, interrupted or run. */
  predicate Processed(c: Config, interrupted: bool, j: JobId, job: Job) {
    && j < |c.tests|
    && (if job.isBreak then interrupted && !job.finished else job.finished == !c.tests[j].isSkip)
  }

  /** What a worker may hold. */
  predicate WorkerOk(c: Config, interrupted: bool, w: Worker, jobs: seq<Job>) {
    !w.Waiting? ==>
      && w.job < |jobs|
      && (w.Got? || w.Checked? || w.Running? ==> jobs[w.job] == Untouched(c, w.job))
      && (w.Checked? || w.Running? ==> w.job < |c.tests|)
      && (w.Running? ==> !c.tests[w.job].isSkip)
      && (w.Reporting? ==> Processed(c, interrupted, w.job, jobs[w.job]))
      && (w.Exited? ==> w.job >= |c.tests|)
  }

  ghost predicate WaitingOk(c: Config, s: State) {
    forall j :: s.dispatched - |s.input| <= j < |s.jobs| && 0 <= j ==> s.jobs[j] == Untouched(c, j)
  }

  ghost predicate WorkersOk(c: Config, s: State) {
    forall w :: 0 <= w < |s.workers| ==> WorkerOk(c, s.interrupted, s.workers[w], s.jobs)
  }

  ghost predicate ResultsOk(c: Config, s: State) {
    forall j :: j in s.output || j in s.collected ==> j < |s.jobs| && Processed(c, s.interrupted, j, s.jobs[j])
  }

  /** How far the main thread is. */
  predicate MainOk(c: Config, s: State) {
    && |s.collected| <= |c.tests| && s.joined <= |s.workers|
    && (|s.collected| > 0 ==> s.dispatched == c.Objects())
    && (s.joined > 0 ==> s.dispatched == c.Objects() && |s.collected| == |c.tests|)
    && (forall w :: 0 <= w < s.joined ==> s.workers[w].Exited?)
  }

  ghost predicate Inv(c: Config, s: State) {
    && Shape(c, s) && Conserved(s) && Fifo(s)
    && WaitingOk(c, s) && WorkersOk(c, s) && ResultsOk(c, s) && MainOk(c, s)
  }

  lemma InitInv(c: Config)
    ensures Inv(c, Init(c))
  {
    NoneBusy(c.workers);
    forall j: JobId ensures Held(Init(c).workers, j) == 0 {
      NothingHeld(c.workers, j);
    }
  }

  // ---------------------------------------------------------------------
  // Every step keeps the invariant
  // ---------------------------------------------------------------------

  lemma DispatchInv(c: Config, s: State)
    requires Inv(c, s) && Enabled(c, s, Dispatch)
    ensures Inv(c, Apply(c, s, Dispatch))
  {
    EachOnceDispatch(s.input, s.workers, s.output, s.collected, s.dispatched);
  }

  lemma CollectInv(c: Config, s: State)
    requires Inv(c, s) && Enabled(c, s, Collect)
    ensures Inv(c, Apply(c, s, Collect))
  {
    EachOnceCollect(s.input, s.workers, s.output, s.collected, s.dispatched);
    assert s.output == [s.output[0]] + s.output[1..];
  }

  lemma JoinInv(c: Config, s: State)
    requires Inv(c, s) && Enabled(c, s, Join)
    ensures Inv(c, Apply(c, s, Join))
  {
  }

  lemma InterruptInv(c: Config, s: State)
    requires Inv(c, s) && Enabled(c, s, Interrupt)
    ensures Inv(c, Apply(c, s, Interrupt))
  {
    forall w | 0 <= w < |s.workers| ensures WorkerOk(c, true, s.workers[w], s.jobs) {
      assert WorkerOk(c, s.interrupted, s.workers[w], s.jobs);
    }
  }

  lemma GetInv(c: Config, s: State, w: nat)
    requires Inv(c, s) && Enabled(c, s, Get(w))
    ensures Inv(c, Apply(c, s, Get(w)))
  {
    BusyUpdate(s.workers, w, Got(s.input[0]));
    EachOnceGet(s.input, s.workers, s.output, s.collected, s.dispatched, w);
    var s' := Apply(c, s, Get(w));
    forall v | 0 <= v < |s.workers| ensures WorkerOk(c, s'.interrupted, s'.workers[v], s'.jobs) {
      assert WorkerOk(c, s.interrupted, s.workers[v], s.jobs);
    }
  }

  lemma PutInv(c: Config, s: State, w: nat)
    requires Inv(c, s) && Enabled(c, s, Put(w))
    ensures Inv(c, Apply(c, s, Put(w)))
  {
    BusyUpdate(s.workers, w, Waiting);
    EachOncePut(s.input, s.workers, s.output, s.collected, s.dispatched, w);
    var s' := Apply(c, s, Put(w));
    assert WorkerOk(c, s.interrupted, s.workers[w], s.jobs);
    forall v | 0 <= v < |s.workers| ensures WorkerOk(c, s'.interrupted, s'.workers[v], s'.jobs) {
      assert WorkerOk(c, s.interrupted, s.workers[v], s.jobs);
    }
  }

  /** A step in which worker w goes on to x with its job, which may change. */
  lemma MoveInv(c: Config, s: State, w: nat, x: Worker, job: Job)
    requires Inv(c, s) && w < |s.workers| && !s.workers[w].Waiting? && !s.workers[w].Exited?
    requires !x.Waiting? && x.job == s.workers[w].job
    requires WorkerOk(c, s.interrupted, x, s.jobs[x.job := job])
    ensures Inv(c, s.(jobs := s.jobs[x.job := job], workers := s.workers[w := x]))
  {
    var s' := s.(jobs := s.jobs[x.job := job], workers := s.workers[w := x]);
    BusyUpdate(s.workers, w, x);
    EachOnceKeep(s.input, s.workers, s.output, s.collected, s.dispatched, w, x);
    HeldIsUnique(s.input, s.workers, s.output, s.collected, s.dispatched, w);
    forall v | 0 <= v < |s.workers| ensures WorkerOk(c, s'.interrupted, s'.workers[v], s'.jobs) {
      assert WorkerOk(c, s.interrupted, s.workers[v], s.jobs);
    }
  }

  lemma TestBreakInv(c: Config, s: State, w: nat)
    requires Inv(c, s) && Enabled(c, s, TestBreak(w))
    ensures Inv(c, Apply(c, s, TestBreak(w)))
  {
    var j := s.workers[w].job;
    assert WorkerOk(c, s.interrupted, s.workers[w], s.jobs);
    MoveInv(c, s, w, if s.jobs[j].isBreak then Exited(j) else Checked(j), s.jobs[j]);
    assert s.jobs[j := s.jobs[j]] == s.jobs;
  }

  lemma TestInterruptInv(c: Config, s: State, w: nat)
    requires Inv(c, s) && Enabled(c, s, TestInterrupt(w))
    ensures Inv(c, Apply(c, s, TestInterrupt(w)))
  {
    var j := s.workers[w].job;
    assert WorkerOk(c, s.interrupted, s.workers[w], s.jobs);
    if s.interrupted {
      MoveInv(c, s, w, Reporting(j), s.jobs[j].(isBreak := true));
    } else {
      MoveInv(c, s, w, if c.tests[j].isSkip then Reporting(j) else Running(j), s.jobs[j]);
      assert s.jobs[j := s.jobs[j]] == s.jobs;
    }
  }

  lemma FinishInv(c: Config, s: State, w: nat)
    requires Inv(c, s) && Enabled(c, s, Finish(w))
    ensures Inv(c, Apply(c, s, Finish(w)))
  {
    var j := s.workers[w].job;
    assert WorkerOk(c, s.interrupted, s.workers[w], s.jobs);
    MoveInv(c, s, w, Reporting(j), s.jobs[j].(finished := true));
  }

  lemma StepInv(c: Config, s: State, e: Event)
    requires Inv(c, s) && Enabled(c, s, e)
    ensures Inv(c, Apply(c, s, e))
  {
    match e
    case Dispatch => DispatchInv(c, s);
    case Collect => CollectInv(c, s);
    case Join => JoinInv(c, s);
    case Interrupt => InterruptInv(c, s);
    case Get(w) => GetInv(c, s, w);
    case TestBreak(w) => TestBreakInv(c, s, w);
    case TestInterrupt(w) => TestInterruptInv(c, s, w);
    case Finish(w) => FinishInv(c, s, w);
    case Put(w) => PutInv(c, s, w);
  }
}
