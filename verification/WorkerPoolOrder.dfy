/** The order in which the worker pool of test.py hands out and takes back jobs. */
module WorkerPoolOrder {
  import opened WorkerPool
  import opened WorkerPoolRuns
  import opened WorkerPoolResults

  /** The results so far in the order in which they reach the main thread. */
  function ResultOrder(s: State): seq<JobId> {
    s.collected + s.output
  }

  /** Results come out in the order in which they were put: a step changes
      nothing about the earlier ones, and the job that a worker puts out is the
      last one. */
  lemma StepKeepsOrder(c: Config, s: State, e: Event)
    requires Shape(c, s) && Enabled(c, s, e)
    ensures ResultOrder(Apply(c, s, e)) == ResultOrder(s) + if e.Put? then [s.workers[e.w].job] else []
  {
    var s' := Apply(c, s, e);
    match e
    case Collect => assert s.output == [s.output[0]] + s.output[1..];
    case Put(w) => assert ResultOrder(s') == ResultOrder(s) + [s.workers[w].job];
    case _ =>
  }

  /** The jobs put out in the course of a run. */
  ghost function PutOut(c: Config, s: State, es: seq<Event>): seq<JobId>
    requires IsRun(c, s, es)
    decreases es
  {
    if es == [] then []
    else
      (match es[0] case Put(w) => [s.workers[w].job] case _ => []) + PutOut(c, Apply(c, s, es[0]), es[1..])
  }

  /** Over a whole run. */
  lemma {:induction false} RunKeepsOrder(c: Config, s: State, es: seq<Event>)
    requires IsRun(c, s, es)
    ensures ResultOrder(After(c, s, es)) == ResultOrder(s) + PutOut(c, s, es)
    decreases es
  {
    if es == [] {
    } else {
      StepKeepsOrder(c, s, es[0]);
      RunKeepsOrder(c, Apply(c, s, es[0]), es[1..]);
    }
  }

  /** In a finished run the results are collected in the order in which they were put. */
  lemma CollectedAsPut(c: Config, es: seq<Event>)
    requires IsRun(c, Init(c), es) && Done(c, After(c, Init(c), es))
    ensures After(c, Init(c), es).collected == PutOut(c, Init(c), es)
  {
    ReachableInv(c, es);
    EndState(c, After(c, Init(c), es));
    RunKeepsOrder(c, Init(c), es);
    assert ResultOrder(Init(c)) == [];
    assert ResultOrder(After(c, Init(c), es)) == After(c, Init(c), es).collected;
  }

  // ---------------------------------------------------------------------
  // One worker
  // ---------------------------------------------------------------------

  /** What the only worker holds. */
  function InHand(s: State): seq<JobId>
    requires |s.workers| == 1
  {
    if s.workers[0].Waiting? then [] else [s.workers[0].job]
  }

  /** Everything dispatched is in line: collected, put out, in hand, queued. */
  ghost predicate InLine(s: State) {
    && |s.workers| == 1
    && Line(s.collected, s.output, InHand(s), s.input) == InOrder(s.dispatched)
  }

  function Line(collected: seq<JobId>, output: seq<JobId>, hand: seq<JobId>, input: seq<JobId>): seq<JobId> {
    collected + output + hand + input
  }

  lemma LineMoves(collected: seq<JobId>, output: seq<JobId>, hand: seq<JobId>, input: seq<JobId>, n: nat)
    ensures Line(collected, output, hand, input + [n]) == Line(collected, output, hand, input) + [n]
    ensures output != [] ==>
      Line(collected + [output[0]], output[1..], hand, input) == Line(collected, output, hand, input)
    ensures input != [] ==>
      Line(collected, output, [input[0]], input[1..]) == Line(collected, output, [], input)
    ensures Line(collected, output + hand, [], input) == Line(collected, output, hand, input)
  {
  }

  lemma StepKeepsLine(c: Config, s: State, e: Event)
    requires c.workers == 1 && Shape(c, s) && Enabled(c, s, e) && InLine(s)
    ensures InLine(Apply(c, s, e))
  {
    LineMoves(s.collected, s.output, InHand(s), s.input, s.dispatched);
    match e
    case Dispatch => assert InOrder(s.dispatched + 1) == InOrder(s.dispatched) + [s.dispatched];
    case Get(w) => assert InHand(Apply(c, s, e)) == [s.input[0]];
    case _ =>
  }

  lemma {:induction false} RunKeepsLine(c: Config, s: State, es: seq<Event>)
    requires c.workers == 1 && IsRun(c, s, es) && InLine(s)
    ensures InLine(After(c, s, es))
    decreases es
  {
    if es == [] {
    } else {
      StepKeepsLine(c, s, es[0]);
      RunKeepsLine(c, Apply(c, s, es[0]), es[1..]);
    }
  }

  /** With one worker, every finished run has collected the tests in the order in
      which they were queued. */
  lemma OneWorkerInOrder(c: Config, es: seq<Event>)
    requires c.workers == 1 && IsRun(c, Init(c), es) && Done(c, After(c, Init(c), es))
    ensures After(c, Init(c), es).collected == InOrder(|c.tests|)
  {
    var s := After(c, Init(c), es);
    ReachableInv(c, es);
    EndState(c, s);
    RunKeepsLine(c, Init(c), es);
    assert |s.collected| == |c.tests|;
    assert s.collected == Line(s.collected, s.output, InHand(s), s.input)[..|c.tests|];
    assert InOrder(s.dispatched)[..|c.tests|] == InOrder(|c.tests|);
  }
}
