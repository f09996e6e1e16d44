# Verified models of the ns-3 TWT repository's schedules, tools and scripts

This project models, in Dafny, the algorithms of an ns-3 tree extended with Target
Wake Time (TWT), and proves what they are for. `dafny verify dfyconfig.toml` checks
all of it.

## What is modelled

**Parallel test runner** (`test.py`). `WorkerPool` is an interleaving of atomic
steps: the main thread dispatches tests and then one break job per worker,
collects one result per test and joins the workers; each worker gets a job, tests
`is_break`, tests the interrupt flag, runs, and puts the job out; the interrupt may
come between any two steps. A worker that has not been started yet is a worker that
has not been scheduled yet. `WorkerPoolRuns` proves the invariant over every run,
termination and absence of deadlock; `WorkerPoolInterrupt` what an interrupt
leads to; `WorkerPoolOrder` the order of results; `WorkerPoolResults` ties the end of a run to the counts and the exit code,
which `TestVerdict` computes as the program does. A test's return code and the
`Result` element of its XML file are inputs.

**Configuration paths** (`utils/print-introspected-doxygen.cc`). `TypeWalks` defines
the walks of a finite labelled graph, possibly cyclic, that repeat no type, and
enumerates them; `TypeGraph` is the class `StaticInformation` with its path, stack
and output, proved to produce exactly the records of that enumeration; `TypeRecords`
tells when records repeat.

**Load order of the Python bindings** (`bindings/python/ns__init__.py`).
`DependencyOrder` has the recursion on shared lists, which the interpreter's
recursion limit, a parameter, bounds. The dependency map is arbitrary: it may have
cycles and dependencies without an entry.

**TWT schedules** (`scratch/wns3VaryLoad.cc`, `scratch/sharedTwtSpEval.cc`).
`TwtSchedules` has the use cases dTwt1, dTwt2 and dTwt3, `AccordionSchedule` the
accordion levels. Station i is awake during [offset_i + k * interval, offset_i + k *
interval + duration) for every k >= 0, counted from one common beacon. Times are
integer nanoseconds. dTwt1 to dTwt3 divide a time by an integer, which truncates
(`src/core/model/nstime.h:1096-1103`). The accordion divides by a power of two held in
a `double`, which goes through 64.64 fixed point and rounds to the nearest nanosecond
(`src/core/model/nstime.h:248-249, 1106-1111`, `src/core/model/int64x64-128.h:299-309`).

**Code style fixer** (`utils/check-style-clang-format.py`). `StyleFixer` covers the
whitespace and tab checks from file contents to file contents: reading with universal
newlines, clang-format guards, fixing, writing; `StyleText` says what this means for the
text, without the functions that do it.

**Statistics.** `Welford` (`utils/bench-scheduler.cc`), `QueueOccupancy` and
`DelayHistogram` (`scratch/videoTest.cc`). Doubles are exact reals, and the square root
is a parameter. Histogram bins are contiguous, start at 0 and have equal width
(`src/stats/model/histogram.cc:48-64`); their indices are unsigned 32-bit integers.
The queue accumulator wraps at 2^64, as in the program, and the signed product added
to it is taken to wrap as well.

**Timelines** (`utils/grid.py`). `Timeline` has the binary searches and the range and
event queries cut from them. `Selection` is a helper about filtered sequences.

## Results worth knowing

- dTwt1 never lets two service periods overlap, but its round drifts against the
  beacons: periods stay out of the 2 ms after every beacon exactly for 16 and 32
  stations. `TwtSchedules.DTwt1CrossesBeacon` exhibits the station and repetition.
- dTwt2 is disjoint for every number of stations; it keeps the beacon windows free
  exactly for an even number of at most 100 stations that divides 200 800 000 (or with
  more stations than nanoseconds, when all periods are empty). For other even numbers
  up to 100 it misses by at most n/2 ns.
- dTwt3 is disjoint, and keeps the beacon windows free, exactly up to 32 stations.
- The accordion keeps the beacon windows free exactly when the slot length is not
  rounded up. It is exact up to level 7; level 8 is the first to fail: its 256 slots of
  392188 ns end 128 ns after the next beacon. (The /24 network of
  `scratch/sharedTwtSpEval.cc:941` has no room for the 256 stations that level needs.)
- 16 or 32 stations under dTwt1, 32 under dTwt3, and the numbers of at most 100 that keep
  the beacon windows free under dTwt2 fill the time between the beacon windows: from 2 ms
  after the first beacon on, someone is awake at every instant there. The slots of an accordion do exactly when their length is exact or rounded up.
- Groups of an accordion never overlap, except at level 27, where slots are rounded up
  to 1 ns. From level 28 on they are empty.
- Raising the accordion level narrows every station's slot exactly when the slot is
  twice as long as the next level's, or that is empty.
- With no worker thread, which a negative `--jobs` gives, a run with tests hangs even
  without an interrupt. In every other case every run, interrupted or not, ends
  properly.
- `GetPercentileValue` returns the end of the bin of the sample of rank
  ceil(p * N / 100), although its comment speaks of the value that first exceeds
  the percentile.
- `get_ranges`, on an ordered list with at least one end of the query in a range, never
  misses a range that overlaps the query. It gives all ranges that meet it exactly when
  its searches come upon the outermost range at each end, which they do for every query
  if and only if no two ranges share an endpoint. Of [0,5], [5,10], [10,15] the query
  [5,10] gives the middle one only; of n ranges [5,5] the query [5,5] gives one. With one
  end hit it may also return too much, and with neither it returns nothing; the exact
  conditions are in `Timeline.AnswersQuery`.
- `get_events` on an ordered list returns one event past the end unless an event falls on
  the end. It returns all events of the interval, for every query, if and only if no two
  events are at the same time; of n events at time t the query [t,t] gives one.
- A failing test suite is entered twice in the list of failed jobs, and a passing one
  once when its XML result is neither PASS nor SKIP.
- `Uniquefy` takes its container by value, so `Gather` does not remove anything from
  its output, although the comment says that the container is modified in place. The
  walks are distinct in any case. Their records are too, if and only if no walk comes
  upon two equal edges to a new type, provided that steps tell apart: equal steps of a
  type lead to the same type, and no step continues another one after a slash. An
  aggregation recorded twice makes records repeat.
- `TimelineDataRange.sort` passes a comparison function positionally, which Python 3
  refuses; that the lists are ordered is therefore a condition of the results here.

## Model

| member | source | states |
|---|---|---|
| WorkerPool.InitInv | test.py:1557-1571 | the pool starts in a state that satisfies the invariant |
| WorkerPool.HeldIsUnique | test.py:1024-1051 | a job a worker holds is in no other worker's hands and in no result |
| WorkerPool.DispatchInv | test.py:1621-1623 | queueing the next test or break job keeps every dispatched job in exactly one place, and the queue in order |
| WorkerPool.GetInv | test.py:1026 | taking a job from the queue keeps the invariant |
| WorkerPool.TestBreakInv | test.py:1031-1032 | the test of is_break keeps the invariant: only a worker with a break job of its own exits |
| WorkerPool.TestInterruptInv | test.py:1038-1051 | after an interrupt a job is only marked; a job to be skipped is put out unrun; otherwise it is run |
| WorkerPool.FinishInv | test.py:1056-1098 | a finished test has been run once and is not marked as a break job |
| WorkerPool.PutInv | test.py:1038-1051 | putting a job out keeps it in exactly one place, and only processed tests come out (in which order: `WorkerPoolOrder.StepKeepsOrder`) |
| WorkerPool.CollectInv | test.py:1868-1871 | collecting keeps the invariant |
| WorkerPool.JoinInv | test.py:2020-2021 | joining waits for a worker's exit and keeps the invariant |
| WorkerPool.InterruptInv | test.py:591-597 | an interrupt keeps the invariant in any state |
| WorkerPool.StepInv | test.py:1018-1108 | every step keeps the invariant: each dispatched job in exactly one place, the input queue in the order of dispatch, and jobs changed only by the worker that holds them |
| WorkerPoolRuns.ReachableInv | test.py:1018-1108 | the invariant holds in every state of every run, under any schedule and interrupt |
| WorkerPoolRuns.BreakJobMeansDrained | test.py:1841-1848 | when a worker has got a break job or has exited, no test is left in the input queue |
| WorkerPoolRuns.OnlyBreakJobsStop | test.py:1031-1041 | a worker stops if and only if its job is one of the break jobs dispatched, never for a test marked by an interrupt |
| WorkerPoolRuns.StepDecreases | test.py:1024-1108 | every step decreases a measure of the work left |
| WorkerPoolRuns.RunsAreBounded | test.py:1024-1108 | every run has at most 7 steps per test and 8 per worker, and one interrupt |
| WorkerPoolRuns.ResultsFit | test.py:1868-1869 | there are never more results than tests, so the collection loop leaves none behind |
| WorkerPoolRuns.AllExitedDrained | test.py:1845-1848 | when all workers have exited the input queue is empty |
| WorkerPoolRuns.Progress | test.py:1841-1871 | while the main thread is not through, some step other than an interrupt is possible |
| WorkerPoolRuns.NoWorkersNoResults | test.py:1550-1564 | without a worker no result is ever collected |
| WorkerPoolRuns.NeverDeadlocks | test.py:1561-1564 | with a worker, or without tests, every run after which no thread can go on, interrupted or not, has ended properly; otherwise some uninterrupted run hangs |
| WorkerPoolRuns.MaximalRun | test.py:1018-1108 | from any state that satisfies the invariant, an uninterrupted run leads to where no thread can go on |
| WorkerPoolRuns.AlwaysCanFinish | test.py:1018-1108 | wherever a run of a pool with workers has got to, it can go on to its proper end |
| WorkerPoolInterrupt.StepKeepsFate | test.py:1034-1041 | once interrupted, no step changes how any test will come out |
| WorkerPoolInterrupt.InterruptSettles | test.py:1851-1859 | from an interrupt on, under any schedule, tests in progress are finished, tests a worker was through with keep their result, and all others come back marked and unrun |
| WorkerPoolInterrupt.FateAtInterrupt | test.py:1034-1041 | at the moment of the interrupt the tests that will be marked are those not started |
| WorkerPoolInterrupt.InterruptedTally | test.py:1868-1871 | the number of jobs reported as interrupted is the number of tests marked |
| WorkerPoolInterrupt.InterruptReported | test.py:1868-1904 | after an interrupt exactly the tests not started are reported as interrupted, all others as in a sequential run, and the exit code is 0 if and only if none was left and all were skipped or returned 0 |
| WorkerPoolInterrupt.InterruptedRun | test.py:1018-1108 | this for every interrupted run of a pool with workers after which no thread can go on |
| WorkerPoolResults.EndState | test.py:1868-1871 | at the end both queues are empty, each worker has consumed one break job, each break job was consumed, and every test was collected once |
| WorkerPoolResults.NotInterrupted | test.py:1043-1098 | without an interrupt every test has been run or skipped |
| WorkerPoolResults.ExitCodeAtEnd | test.py:2130-2133 | the counters of a finished run give exit code 0 if and only if every test was skipped or returned 0 and none was interrupted |
| WorkerPoolResults.ExitCode | test.py:2130-2133 | the exit code returned is 0 under just these conditions, and 1 otherwise |
| WorkerPoolResults.AllCollectedSucceeded | test.py:1868-1871 | all collected jobs succeeded if and only if all dispatched tests did |
| WorkerPoolResults.TallyOfPermutation | test.py:1868-1904 | the counts do not depend on the order of collection |
| WorkerPoolResults.CountsAreSequential | test.py:1868-1904 | a run without an interrupt reports the counts of running the tests one after the other |
| WorkerPoolResults.CompleteRun | test.py:1018-1108 | with a worker, every run after which no thread can go on has collected each test once; if it was not interrupted, its counts and exit code are those of a sequential run, 0 if and only if every test was skipped or returned 0 |
| WorkerPoolResults.UninterruptedRun | test.py:1018-1108 | such uninterrupted runs exist for every pool with a worker |
| WorkerPoolOrder.StepKeepsOrder | test.py:1038-1051 | a step changes nothing about the results before, and the job a worker puts out comes last |
| WorkerPoolOrder.CollectedAsPut | test.py:1868-1869 | a finished run has collected the results in the order in which they were put |
| WorkerPoolOrder.OneWorkerInOrder | test.py:1561-1564 | with one worker that is the order in which the tests were queued |
| TestVerdict.Classify | test.py:1868-2013 | the counters are the numbers of jobs that returned 0, 1, 2, anything else, and of those skipped; the failed jobs are the entries of all jobs in order, one for each code that is not 0 and one for each suite that fails by its XML result |
| TestVerdict.Count | test.py:1878-1904 | one job raises exactly the counter of its outcome, and none when interrupted (which counter by its code: `TestVerdict.TallyOfCode`) |
| TestVerdict.TallyOfCode | test.py:1885-1899 | passed, failed and valgrind are the numbers of jobs that ran and returned 0, 1 and 2 |
| TestVerdict.TallyOfCrashed | test.py:1900-1904 | crashed is the number of those that returned anything else |
| TestVerdict.TallyOfSkipped | test.py:1878-1882 | skipped is the number of jobs to be skipped that were not marked |
| TestVerdict.TallyOfMarked | test.py:1870-1871 | interrupted jobs are those marked as break jobs |
| TestVerdict.EnterFailed | test.py:1884-2008 | a job adds only its own entries after the earlier ones |
| TestVerdict.Pop | test.py:1889 | a removal takes off the entry just made |
| TestVerdict.EntriesOfJob | test.py:1884-2008 | a job that ran is entered once for a code that is not 0, and once if it is a suite that crashed or has an XML result other than PASS and SKIP |
| TestVerdict.EntryCount | test.py:1884-2008 | the number of entries is that of the nonzero codes and of the failing suites |
| TestVerdict.EntriesInOrder | test.py:1884-2008 | the entries of jobs collected earlier come first |
| TestVerdict.FailingSuiteTwice | test.py:1884-2008 | a suite that returned 1 and failed is entered twice |
| TestVerdict.TalliesAddUp | test.py:1878-1904 | the six outcomes add up to the number of jobs |
| TestVerdict.GoodTally | test.py:2130 | passed plus skipped is the total if and only if every job passed or was skipped |
| TestVerdict.ExitCodeZero | test.py:2130-2133 | the counters give 0 if and only if no job was interrupted and each was skipped or returned 0 |
| TestVerdict.Verdict | test.py:2130-2133 | the exit code and the failed jobs for a list of collected jobs |
| TestVerdict.SuccessWithFailedJobs | test.py:1994-2008 | a successful run lists a failed job if and only if a passing suite's XML result is neither PASS nor SKIP |
| TypeWalks.AvoidingIsSimple | utils/print-introspected-doxygen.cc:451-454 | refusing types on the stack is the same as walking without repeating a type |
| TypeWalks.WalksComplete | utils/print-introspected-doxygen.cc:447-531 | the enumeration contains a walk if and only if it avoids the stack and itself |
| TypeWalks.WalksDistinct | utils/print-introspected-doxygen.cc:447-531 | no walk is enumerated twice |
| TypeWalks.WalksDepthFirst | utils/print-introspected-doxygen.cc:447-531 | a walk comes before those that go on from it, and these in the order of the edges |
| TypeWalks.RecordsFollowWalks | utils/print-introspected-doxygen.cc:447-531 | the records appended are those of the enumerated walks, in order |
| TypeWalks.OneRecordPerSimpleWalk | utils/print-introspected-doxygen.cc:439-445 | from a root, records correspond one to one to the walks on which no type occurs twice, in depth-first order |
| TypeWalks.DirectRecord | utils/print-introspected-doxygen.cc:476-478 | the type behind an edge of the root is recorded with a slash and the step of the edge |
| TypeGraph.Graph.TableClosed | utils/print-introspected-doxygen.cc:456-530 | every edge leads to a registered type |
| TypeGraph.Graph.EdgeMembers | utils/print-introspected-doxygen.cc:456-530 | by the fields of the registry: an edge is a pointer attribute to something other than a plain object, a container attribute, a registered type that has this one as a parent, or the other end of an aggregation; and these are all |
| TypeGraph.EdgeOrder | utils/print-introspected-doxygen.cc:456-530 | a graph with two edges of every kind, and the order in which they are followed |
| TypeGraph.AllEdges | utils/print-introspected-doxygen.cc:455-530 | the records of a type are its own and those behind its attributes, children and aggregates, in this order |
| TypeGraph.StaticInformation.Lookup | utils/print-introspected-doxygen.cc:332-333 | a name is found if and only if a registered type has it |
| TypeGraph.StaticInformation.RecordAggregationInfo | utils/print-introspected-doxygen.cc:328-348 | the pair is recorded when both names are known; otherwise the first unknown name is, and nothing else changes |
| TypeGraph.StaticInformation.GetCurrentPath | utils/print-introspected-doxygen.cc:360-370 | every step of the path with a slash before it |
| TypeGraph.StaticInformation.RecordOutput | utils/print-introspected-doxygen.cc:372-377 | appends the type with the rendered path |
| TypeGraph.StaticInformation.HasAlreadyBeenProcessed | utils/print-introspected-doxygen.cc:379-391 | true if and only if the type is on the stack |
| TypeGraph.StaticInformation.Follow | utils/print-introspected-doxygen.cc:476-480 | descending along an edge restores path and stack and appends the records behind the edge |
| TypeGraph.StaticInformation.DoGather | utils/print-introspected-doxygen.cc:447-531 | terminates on any graph, restores path and stack, and appends exactly the records of the type |
| TypeGraph.StaticInformation.FollowAttributes | utils/print-introspected-doxygen.cc:456-496 | appends the records behind all attribute edges |
| TypeGraph.StaticInformation.FollowAttribute | utils/print-introspected-doxygen.cc:458-495 | pointers, except to plain objects, and containers are followed, nothing else |
| TypeGraph.StaticInformation.FollowChildren | utils/print-introspected-doxygen.cc:497-509 | appends the records behind all derived types |
| TypeGraph.StaticInformation.FollowChild | utils/print-introspected-doxygen.cc:499-508 | a registered type is followed if and only if it is derived from this one |
| TypeGraph.StaticInformation.FollowAggregates | utils/print-introspected-doxygen.cc:510-530 | appends the records behind all aggregations |
| TypeGraph.StaticInformation.FollowAggregate | utils/print-introspected-doxygen.cc:512-529 | an aggregation is followed to its other end, and for a pair of the same type to that type |
| TypeGraph.StaticInformation.Gather | utils/print-introspected-doxygen.cc:439-445 | appends one record for every walk from the type without a repeated type, each once, in depth-first order, and no others: first the type itself, and among them the type behind every edge that the registry and the aggregations give |
| TypeRecords.TwinsBehindRecords | utils/print-introspected-doxygen.cc:360-377 | given steps that tell apart, two walks with one record part at two equal edges |
| TypeRecords.RenderFirst | utils/print-introspected-doxygen.cc:360-370 | a path is a slash, its first step, and the rest of the path |
| TypeRecords.TwinsRepeat | utils/print-introspected-doxygen.cc:447-531 | two equal edges to a type not yet on a walk make the records repeat, whatever the steps are called |
| TypeRecords.RecordsDistinctExactly | utils/print-introspected-doxygen.cc:439-445 | given steps that tell apart, all records differ if and only if no walk comes upon two such edges |
| TypeRecords.AggregatedTwice | utils/print-introspected-doxygen.cc:510-530 | an aggregation recorded twice makes the records repeat |
| DependencyOrder.LoadedByChains | bindings/python/ns__init__.py:420-448 | loaded by the first k steps if and only if no dependency chain leaves the map or has more than k libraries |
| DependencyOrder.LoadedAtIsLongestChain | bindings/python/ns__init__.py:433-448 | step k holds a library if and only if its longest dependency chain has k links |
| DependencyOrder.CycleNeverLoaded | bindings/python/ns__init__.py:424-427 | a library on a cycle is never loaded |
| DependencyOrder.TroubleNeverLoaded | bindings/python/ns__init__.py:424-427 | neither is one that reaches a cycle or a missing entry |
| DependencyOrder.LoadedIffNoTrouble | bindings/python/ns__init__.py:433-448 | every other library is loaded, within as many steps as there are libraries |
| DependencyOrder.StepMembers | bindings/python/ns__init__.py:440-445 | the members of step k are the pending libraries whose turn it is |
| DependencyOrder.StepInKeyOrder | bindings/python/ns__init__.py:422-430 | within a step the libraries are in the order of the keys |
| DependencyOrder.LoadedMembers | bindings/python/ns__init__.py:433-448 | the first k steps together hold exactly what is loaded by them |
| DependencyOrder.StepProgress | bindings/python/ns__init__.py:433-448 | a step loads something if and only if some pending library reaches no cycle and no missing entry |
| DependencyOrder.PendingShrinks | bindings/python/ns__init__.py:440-445 | a step takes from the pending libraries as many as it loads |
| DependencyOrder.ProgressesToTheEnd | bindings/python/ns__init__.py:433-448 | every step loads something until nothing is pending, within as many steps as libraries, if and only if no library reaches a cycle or a missing entry |
| DependencyOrder.Stuck | bindings/python/ns__init__.py:433-448 | once a step loads nothing, nothing ever changes again |
| DependencyOrder.ModulesThatCanBeLoaded | bindings/python/ns__init__.py:420-431 | the pending libraries all of whose dependencies are loaded, in order |
| DependencyOrder.LoadState.Move | bindings/python/ns__init__.py:443-445 | one library moves from the pending ones to the step; none is lost or duplicated |
| DependencyOrder.LoadModules | bindings/python/ns__init__.py:440-445 | the loop moves exactly the given libraries |
| DependencyOrder.LoadStep | bindings/python/ns__init__.py:438-445 | one level of the recursion loads exactly the libraries whose longest chain has this length |
| DependencyOrder.DependencyOrder | bindings/python/ns__init__.py:433-448 | finishes if and only if the recursion limit exceeds the steps needed, with every library in its step |
| DependencyOrder.StepsRespectDependencies | bindings/python/ns__init__.py:433-455 | in the concatenated steps every dependency precedes its dependents |
| DependencyOrder.SortToDependencies | bindings/python/ns__init__.py:409-455 | the result is a permutation of the libraries with dependencies first; the error case is exactly a recursion limit that does not suffice |
| DependencyOrder.SufficientLimit | bindings/python/ns__init__.py:446-448 | no limit suffices with a cycle or a missing entry; otherwise any limit above the number of libraries does |
| DependencyOrder.Extend | bindings/python/ns__init__.py:450-455 | the steps one after the other |
| TwtSchedules.StationOffsets | scratch/wns3VaryLoad.cc:852-866 | the loop computes each station's offset, with the extra 2 ms close to the next beacon |
| TwtSchedules.InstallSchedule | scratch/wns3VaryLoad.cc:848-921 | for each use case: the wake interval and duration in nanoseconds, the stations served back to back but for the 2 ms kept free, when periods are disjoint, when they keep out of the beacon windows, and when they fill the time between these |
| TwtSchedules.SequenceIsBackToBack | scratch/wns3VaryLoad.cc:861-865 | each period starts when the one before ends, except for the 2 ms around the next beacon |
| TwtSchedules.RoundsFill | scratch/wns3VaryLoad.cc:848-917 | stations that fill one or two beacon intervals leave no instant between the beacon windows to nobody, in any repetition |
| TwtSchedules.Filled | scratch/wns3VaryLoad.cc:848-917 | this for dTwt1 with 16 and 32 stations, dTwt3 with 32, and dTwt2 with at most 100 where it keeps the beacon windows free |
| TwtSchedules.RoundsDisjoint | scratch/wns3VaryLoad.cc:861-867 | disjoint in one round, with rounds that end in time, is disjoint in all repetitions |
| TwtSchedules.SequenceDisjoint | scratch/wns3VaryLoad.cc:861-865 | stations served in sequence, with the 2 ms bump, never overlap if the last ends within one interval of the first start |
| TwtSchedules.FirstRoundBeaconSafe | scratch/wns3VaryLoad.cc:862-865 | a first round clear of the beacon windows keeps all repetitions clear |
| TwtSchedules.DTwt1Disjoint | scratch/wns3VaryLoad.cc:848-867 | no two service periods overlap, for every number of stations |
| TwtSchedules.DTwt1CrossesBeacon | scratch/wns3VaryLoad.cc:848-867 | with fewer than 32 stations, other than 16, some period is under way when a beacon is sent |
| TwtSchedules.DTwt1BeaconSafe | scratch/wns3VaryLoad.cc:848-867 | beacon windows stay free if and only if there are 16 or 32 stations |
| TwtSchedules.DTwt2Disjoint | scratch/wns3VaryLoad.cc:873-892 | no two service periods overlap, for every number of stations, despite the rounding |
| TwtSchedules.DTwt2NearlyBeaconSafe | scratch/wns3VaryLoad.cc:873-892 | for an even number n of at most 100 stations every period ends by the next beacon and starts at most n/2 ns inside a window |
| TwtSchedules.DTwt2Beacon | scratch/wns3VaryLoad.cc:873-892 | between which beacons the first period of a station lies |
| TwtSchedules.DTwt2Crowded | scratch/wns3VaryLoad.cc:887-890 | with more than 100 stations some period lies in a beacon window |
| TwtSchedules.DTwt2Odd | scratch/wns3VaryLoad.cc:875-890 | with an odd number of stations the middle one does |
| TwtSchedules.DTwt2BeaconSafe | scratch/wns3VaryLoad.cc:873-892 | the exact numbers of stations for which beacon windows stay free |
| TwtSchedules.DTwt3Disjoint | scratch/wns3VaryLoad.cc:898-917 | no two service periods overlap if and only if there are at most 32 stations |
| TwtSchedules.DTwt3BeaconSafe | scratch/wns3VaryLoad.cc:898-917 | beacon windows stay free if and only if there are at most 32 stations |
| AccordionSchedule.InstallAccordion | scratch/sharedTwtSpEval.cc:412-425 | level 0 installs nothing; otherwise the numbers of the schedule, equal groups, and when exactly their slots are apart, out of the beacon windows, and without gaps between these |
| AccordionSchedule.AccordionSharesInterval | scratch/sharedTwtSpEval.cc:865-867 | the wake interval is the beacon interval, the slot the effective one over the number of groups to the nearest nanosecond, and each group starts when the one before ends |
| AccordionSchedule.RoundedIsNearest | src/core/model/int64x64-128.h:299-309 | the rounded quotient is nearest to the exact one, and at most it if and only if twice the remainder is below the divisor |
| AccordionSchedule.DivideTime | src/core/model/nstime.h:1079-1111 | dividing a time by a double through fixed point gives the rounded quotient |
| AccordionSchedule.GroupSize | scratch/sharedTwtSpEval.cc:425 | the division of the stations by 2^level is exact |
| AccordionSchedule.HalvedIsQuotient | scratch/sharedTwtSpEval.cc:852 | halving n times is dividing by 2^n |
| AccordionSchedule.GroupInRange | scratch/sharedTwtSpEval.cc:852 | there are no more than 2^level groups |
| AccordionSchedule.GroupsHaveEqualSize | scratch/sharedTwtSpEval.cc:850-852 | each of the 2^level groups has exactly n / 2^level stations |
| AccordionSchedule.SlotBounds | scratch/sharedTwtSpEval.cc:865-867 | every slot lies after the first beacon window and within 2^level slot lengths |
| AccordionSchedule.GroupsShareSlots | scratch/sharedTwtSpEval.cc:850-870 | when all slots fit into a beacon interval, two stations share an instant if and only if they are in the same group, in every repetition |
| AccordionSchedule.AllSlotsFit | scratch/sharedTwtSpEval.cc:865-867 | all slots together fit into a beacon interval at every level but 27 |
| AccordionSchedule.SlotsSeparateExactly | scratch/sharedTwtSpEval.cc:850-870 | stations share instants exactly within their groups if and only if the level is not 27 |
| AccordionSchedule.Level27Overlaps | scratch/sharedTwtSpEval.cc:850-870 | at level 27 the first group is awake again before the last ones are done |
| AccordionSchedule.AccordionBeaconSafe | scratch/sharedTwtSpEval.cc:865-867 | no slot of any repetition touches a beacon window if and only if the slot length is not rounded up |
| AccordionSchedule.StationAtBeacon | scratch/sharedTwtSpEval.cc:865-867 | if it is, which station is awake when the next beacon is sent |
| AccordionSchedule.AccordionFills | scratch/sharedTwtSpEval.cc:865-867 | the slots leave no gap between the beacon windows if and only if their length is exact or rounded up |
| AccordionSchedule.SmallLevelsRoundDown | scratch/sharedTwtSpEval.cc:423-424 | up to level 7 the slot length is exact |
| AccordionSchedule.Level8Overruns | scratch/sharedTwtSpEval.cc:865-867 | at level 8 the slots end 128 ns after the next beacon |
| AccordionSchedule.HalfSlotInside | scratch/sharedTwtSpEval.cc:421-425 | a slot twice as long as those of the next level contains them |
| AccordionSchedule.UnevenSlotOutside | scratch/sharedTwtSpEval.cc:865-867 | any other slot does not, unless they are empty |
| AccordionSchedule.NextLevelRefines | scratch/sharedTwtSpEval.cc:421-425 | the next level narrows every station's slot if and only if the slot is twice as long, or the next is empty |
| AccordionSchedule.Level8NotInside | scratch/sharedTwtSpEval.cc:421-425 | level 8 does not refine level 7: 392188 ns is more than half of 784375 |
| AccordionSchedule.DivisibleLevelRefines | scratch/sharedTwtSpEval.cc:421-425 | in particular when 2^(level+1) divides the effective beacon interval |
| StyleFixer.FixedLineCompliant | utils/check-style-clang-format.py:617-682 | a fixed line is compliant |
| StyleFixer.FixKeepsStripped | utils/check-style-clang-format.py:617-682 | a fix changes only the surroundings of a line's text when that has no tab in it, so guards stay guards |
| StyleFixer.FixOnlyDisables | utils/check-style-clang-format.py:530-542 | after a fix formatting is enabled at most where it was, although new guards may appear |
| StyleFixer.CheckedAgainWasChecked | utils/check-style-clang-format.py:528-547 | lines checked after a fix are among those the fix looked at |
| StyleFixer.FixedIsCompliant | utils/check-style-clang-format.py:549-561 | a fixed file is compliant |
| StyleFixer.CompliantIsFixed | utils/check-style-clang-format.py:549-561 | a file is compliant if and only if fixing changes nothing |
| StyleFixer.TabFixKeepsWhitespaceClean | utils/check-style-clang-format.py:339-363 | the tab fix brings no trailing whitespace back |
| StyleFixer.SplitWritten | utils/check-style-clang-format.py:525-561 | splitting what was written gives the same lines |
| StyleFixer.WriteThenRead | utils/check-style-clang-format.py:525-561 | a file written from lines reads back as these lines |
| StyleFixer.FixKeepsShape | utils/check-style-clang-format.py:551 | fixed lines are again single lines |
| StyleFixer.FixThenCheck | utils/check-style-clang-format.py:501-563 | after a fix the same check accepts the file, and a second fix leaves it alone, for any file contents |
| StyleFixer.FixAllThenCheckAll | utils/check-style-clang-format.py:339-363 | after the whitespace fix and then the tab fix both checks accept the file |
| StyleFixer.CheckLines | utils/check-style-clang-format.py:521-556 | the verdict, the offending lines in order or just the first, and the fixed lines (which these are by their text: the rows of StyleText) |
| StyleFixer.SweepLines | utils/check-style-clang-format.py:528-556 | the loop does this for any check that leaves compliant lines alone |
| StyleFixer.ListedCompliance | utils/check-style-clang-format.py:549-556 | the offending lines listed are exactly those, and none if and only if the file is compliant |
| StyleText.CheckedByText | utils/check-style-clang-format.py:529-542 | with guards respected, a line is checked if and only if it is a guard or its nearest guard above is not "// clang-format off" |
| StyleText.GuardedLineKept | utils/check-style-clang-format.py:535-542 | a line below "// clang-format off", with no guard in between, does not offend and is left alone |
| StyleText.UnguardedLineChecked | utils/check-style-clang-format.py:533-547 | a line below "// clang-format on", or with no guard above, is checked and fixed |
| StyleText.ComplianceByText | utils/check-style-clang-format.py:617-682 | a line complies if and only if it ends with a newline and no blank before it, or has no tab |
| StyleText.OffendsByText | utils/check-style-clang-format.py:528-551 | the lines that offend are the bad ones outside guards, and all others stay as they are |
| StyleText.WhitespaceFixByText | utils/check-style-clang-format.py:634 | a whitespace fix takes off the blanks at the end, no more, and adds a newline |
| StyleText.TabFixKeepsInk | utils/check-style-clang-format.py:674 | a tab fix changes tabs and spaces only |
| StyleText.TabStop | utils/check-style-clang-format.py:674 | a tab becomes one to four spaces, up to the next column that is a multiple of four |
| StyleText.ColumnIsLength | utils/check-style-clang-format.py:674 | the column is the length of the line so far |
| StyleText.BlankCharacters | utils/check-style-clang-format.py:634 | which ASCII characters are blank |
| StyleText.TrailingBlanks | utils/check-style-clang-format.py:634 | a line with a tab at its end, and one without a newline |
| StyleText.ReturnsNormalized | utils/check-style-clang-format.py:525-526 | a carriage return, alone or before a newline, is read as one newline |
| StyleText.LinesByText | utils/check-style-clang-format.py:525-526 | the lines are the text so read, cut after every newline |
| StyleText.ReportedByText | utils/check-style-clang-format.py:549-556 | the lines reported are the bad ones outside guards, ascending, all or the first |
| StyleFixer.CheckManuallyFile | utils/check-style-clang-format.py:501-563 | the verdict is the same in every mode, and only fix mode changes the file, to its fixed contents |
| QueueOccupancy.SizeAfterLast | scratch/videoTest.cc:366-368 | after the latest report the size stays |
| QueueOccupancy.AppendedUpdate | scratch/videoTest.cc:354-369 | a further report changes the size from its own time on, and nothing if it comes before the metrics start |
| QueueOccupancy.QueueOccupancyTracker.UpdateSize | scratch/videoTest.cc:354-369 | keeps the accumulator equal to the integral of the size over time, modulo 2^64, and the size that of the last report in the window |
| QueueOccupancy.QueueOccupancyTracker.AccumulatedUntil | scratch/videoTest.cc:361-364 | the integral up to now, modulo 2^64 |
| QueueOccupancy.QueueOccupancyTracker.UpToNow | scratch/videoTest.cc:376-378 | the time since the last update adds the current size times its length |
| QueueOccupancy.AddToAccumulator | scratch/videoTest.cc:364 | adding the wrapped product keeps the accumulator the integral modulo 2^64 |
| QueueOccupancy.QueueOccupancyTracker.GetMeanOccupancy | scratch/videoTest.cc:372-390 | mean times elapsed time is the integral of the queue size if and only if that is below 2^64 |
| QueueOccupancy.ExactWhenSmall | scratch/videoTest.cc:372-390 | it is, whenever the largest size reported times the elapsed time is |
| QueueOccupancy.MeanAtMostLargestSize | scratch/videoTest.cc:388-389 | the mean does not exceed the largest size reported |
| QueueOccupancy.RepeatedSizeInvisible | scratch/videoTest.cc:354-369 | repeating the current size, anywhere in the history, changes the size at no instant |
| QueueOccupancy.RepeatedSizeChangesNothing | scratch/videoTest.cc:354-369 | nor the integral |
| DelayHistogram.SamplesPerBin | scratch/videoTest.cc:173-176 | the sorted expansion of the histogram has each bin as often as its count says |
| DelayHistogram.BinEndIsStart | src/stats/model/histogram.cc:48-58 | bins are contiguous |
| DelayHistogram.BinsOrdered | src/stats/model/histogram.cc:48-58 | a later bin starts and ends later, and not before an earlier one ends |
| DelayHistogram.TargetBin | scratch/videoTest.cc:178-186 | the bin where the cumulative count reaches a target holds the sample of that rank, rounded up |
| DelayHistogram.PercentileByCounts | scratch/videoTest.cc:177-186 | the percentile bin is the first one up to which there are p of a hundred samples |
| DelayHistogram.BinHoldsRank | scratch/videoTest.cc:178-186 | fewer samples than the rank lie before the bin of a rank, and enough up to it |
| DelayHistogram.GetPercentileValue | scratch/videoTest.cc:169-188 | the end of the bin of the sample of rank ceil(p * N / 100), and 0 without bins |
| DelayHistogram.FirstBinReaching | scratch/videoTest.cc:178-187 | that bin, the first one for target 0, the last one above the total, and the wrapped index without bins |
| DelayHistogram.PercentileMonotone | scratch/videoTest.cc:169-188 | percentile values are monotone in the percentile |
| DelayHistogram.InterpolatedQuantile | scratch/videoTest.cc:1642-1652 | where evenly spread samples reach the target; when it stays unset and when it is 0/0 |
| DelayHistogram.Interpolate | scratch/videoTest.cc:1645-1648 | the interpolated value lies in the bin of the target's rank |
| DelayHistogram.InterpolationMonotone | scratch/videoTest.cc:1642-1652 | a larger target gives no smaller value |
| DelayHistogram.QuartilesOrdered | scratch/videoTest.cc:1636-1653 | Q1 <= median <= Q3 |
| DelayHistogram.Quartiles | scratch/videoTest.cc:1635-1653 | with all packets counted the quartiles exist, ordered, each in the bin of the 25th, 50th and 75th percentile; exactly when one stays unset |
| Welford.DeviationExpanded | utils/bench-scheduler.cc:346-362 | the sum of squared deviations from any centre, expanded |
| Welford.WelfordStep | utils/bench-scheduler.cc:359-362 | one step keeps average and second moment consistent |
| Welford.AccumulatedIsStatistics | utils/bench-scheduler.cc:342-349 | what the loop keeps is the mean and the sum of squared deviations from it |
| Welford.Accumulate | utils/bench-scheduler.cc:358-362 | the macro takes the statistics of the samples seen to those with one more |
| Welford.AccumulateRun | utils/bench-scheduler.cc:364-369 | so does the loop body, for all six columns |
| Welford.Log | utils/bench-scheduler.cc:331-384 | nothing with fewer than two runs; otherwise every column's mean and the square root of its population variance, which is not negative |
| Welford.VarianceOfSquares | utils/bench-scheduler.cc:374-381 | the variance is the mean of the squares less the square of the mean |
| Welford.VarianceOfTwo | utils/bench-scheduler.cc:374-381 | of 0 and 2 it is 1: that of a population |
| Timeline.TimelineDataRange.AddRange | utils/grid.py:132-138 | the range is appended; the order is kept if and only if it starts where the last one ends or later |
| Timeline.TimelineDataRange.Search | utils/grid.py:113-130 | the index that the binary search comes upon, on any list; on an ordered one it is -1 if and only if no range contains the key |
| Timeline.SearchHits | utils/grid.py:113-130 | in an ordered list the search finds a range if there is one |
| Timeline.MiddleFound | utils/grid.py:119-130 | of equal ranges that contain the key the search finds the middle one, or the one before the middle |
| Timeline.HalvingFinds | utils/grid.py:119-130 | the positions looked at in a list of seven |
| Timeline.BothHit | utils/grid.py:162-163 | with both ends hit the slice has all ranges that overlap the query, only ranges that meet it, and all that do if and only if the searches found the outermost ones |
| Timeline.SliceIsMeeting | utils/grid.py:147-163 | the slice is the ranges that meet the query if and only if it has them all and no others |
| Timeline.OnlyEndHit | utils/grid.py:158-159 | with only the end hit it has all that overlap the query, nothing else if and only if no range starts before the query, and all that meet it if and only if the search found the last one |
| Timeline.OnlyStartHit | utils/grid.py:160-161 | with only the start hit, the mirror image |
| Timeline.NeitherHit | utils/grid.py:156-157 | with neither hit the empty answer is right if and only if no range lies inside the query |
| Timeline.BoundsAnswerQuery | utils/grid.py:165-181 | the four cases together |
| Timeline.SeparatedExactly | utils/grid.py:147-163 | every query with both ends hit gives exactly the ranges that meet it, and with one end hit at least these, if and only if no two ranges share an endpoint |
| Timeline.SharedEndpoint | utils/grid.py:147-163 | a query for an endpoint that ranges share gives one range |
| Timeline.NeighboursLeftOut | utils/grid.py:147-163 | three adjacent ranges of which a query gives one |
| Timeline.RepeatedRangesLeftOut | utils/grid.py:147-163 | of n equal ranges without length a query gives one |
| Timeline.TimelineDataRange.GetRanges | utils/grid.py:147-163 | the slice between the searches, what it answers in each case, and when exactly it is the ranges that meet the query |
| Timeline.TimelineDataRange.GetRangesBounds | utils/grid.py:165-181 | the bounds of that slice |
| Timeline.TimelineEvent.AddEvent | utils/grid.py:236-242 | the event is appended; the order is kept if and only if it is not earlier than the last one |
| Timeline.TimelineEvent.Search | utils/grid.py:217-234 | the index that the binary search comes upon, on any list; on an ordered one it is where the key belongs, at an event with that time if there is one |
| Timeline.MiddleEventFound | utils/grid.py:223-234 | of events at one time the search finds the middle one, or the one before the middle |
| Timeline.SearchesAnswerQuery | utils/grid.py:251-253 | the slice has all events strictly inside the interval, none outside but the next one, and that one if and only if no event falls on the end |
| Timeline.EventSlice | utils/grid.py:251-253 | it is the events of the interval and the next one if and only if it has all of the former |
| Timeline.CompleteEvents | utils/grid.py:251-253 | it has all events of the interval if and only if the searches found the first and the last event at its ends |
| Timeline.DistinctExactly | utils/grid.py:244-253 | no query leaves out an event of its interval if and only if all times differ |
| Timeline.SharedTime | utils/grid.py:244-253 | a query for a time that events share gives one event |
| Timeline.RepeatedEventsLeftOut | utils/grid.py:244-253 | of n events at one time a query gives one |
| Timeline.TimelineEvent.GetEvents | utils/grid.py:244-253 | the slice between the searches; if all times differ, exactly the events of the interval and the next one |
| Timeline.TimelineEvent.GetEventsBounds | utils/grid.py:255-264 | the bounds of that slice |

## Left out

- `SetTwtSchedule`, `Simulator`, `FlowMonitor` and the wifi stack are not part of this model; of `Time` and `Histogram` only the operations named above are.
- Set-up of topology, applications and logging in the simulation programs: calls without an algorithm.
- The integer width of the nanosecond computations: the schedules stay far below 64 bits for any feasible number of stations.
- Floating-point rounding of the statistics and of the percentile targets.
- Welford.Log: the square root is the parameter `sqrt`, applied to the variance; the printing is not modelled.
- QueueOccupancy.AddToAccumulator: overflow of the signed 64-bit product, undefined in C++, is modelled as wrapping around.
- WorkerPool.StepInv: the workers' loop and the main thread's loops are split into atomic steps, as they interleave, rather than kept as loops; a test that itself reacts to the interrupt signal, or an exception in a worker, is not modelled.
- `is_pyexample` is treated together with `is_example`, the program testing only their disjunction when it collects.
- Files, XML, HTML, command lines and subprocesses of `test.py`.
- TestVerdict.Classify: a missing or unparsable XML file of a suite that returned 0, 1 or 2 raises an exception in the program; here every such suite has some result text.
- DependencyOrder.SortToDependencies: finding the libraries and extracting their dependencies, which needs the file system; any dependency map is accepted instead.
- DependencyOrder.DependencyOrder: counts recursion levels from the first call; the frames already on the interpreter's stack only lower the limit.
- Loading the libraries with cppyy.
- Sorting and printing of the introspected documentation, including `Uniquefy`, whose work is lost.
- Negative accordion levels and station counts that are no powers of two, which the program's assertions exclude or leave undefined.
- The include-prefix and clang-format checks, which depend on the file system and an external program; decoding errors, message texts and parallel processes of the style checker.
- PHY state and energy accounting, smallest and largest latency, `scratch/wns3DutyCycle.cc`: sums and repetitions of what is modelled.
- Running and timing the scheduler benchmarks.
- Timeline.TimelineDataRange.GetRanges: for ranges that are not ordered, only that the result is the slice between the two searches; so too for Timeline.TimelineEvent.GetEvents.
- Drawing and mouse handling of the timeline viewer.
