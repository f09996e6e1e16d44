/** The layered load order of bindings/python/ns__init__.py: libraries are
    loaded in steps, each step taking every pending library whose dependencies
    have all been loaded by earlier steps. */
module DependencyOrder {
  import opened Selection

  type Library = string
  type Dependencies = map<Library, seq<Library>>

  // ---------------------------------------------------------------------
  // Dependency chains
  // ---------------------------------------------------------------------

  /** A chain of dependencies starting at m. */
  ghost predicate Chain(deps: Dependencies, m: Library, c: seq<Library>) {
    && c != [] && c[0] == m
    && forall i :: 0 <= i < |c| - 1 ==> c[i] in deps && c[i + 1] in deps[c[i]]
  }

  ghost predicate InsideKeys(deps: Dependencies, c: seq<Library>) {
    forall x :: x in c ==> x in deps
  }

  /** m reaches a dependency that has no entry, or a dependency cycle. */
  ghost predicate ReachesTrouble(deps: Dependencies, m: Library) {
    exists c :: Chain(deps, m, c) && (!InsideKeys(deps, c) || !Distinct(c))
  }

  /** m is loaded by one of the first k steps. */
  predicate LoadedBy(deps: Dependencies, m: Library, k: nat)
    decreases k
  {
    k > 0 && m in deps && forall d :: d in deps[m] ==> LoadedBy(deps, d, k - 1)
  }

  /** In terms of chains: none from m leaves the key set or has more than k libraries. */
  lemma {:induction false} LoadedByChains(deps: Dependencies, m: Library, k: nat)
    ensures LoadedBy(deps, m, k) <==>
      forall c :: Chain(deps, m, c) ==> |c| <= k && InsideKeys(deps, c)
  {
    if LoadedBy(deps, m, k) {
      forall c | Chain(deps, m, c)
        ensures |c| <= k && InsideKeys(deps, c)
      {
        LoadedChainShort(deps, m, k, c);
      }
    } else {
      var c := LongOrStrayChain(deps, m, k);
    }
  }

  lemma ChainPart(deps: Dependencies, m: Library, c: seq<Library>, i: nat, j: nat)
    requires Chain(deps, m, c) && i < j <= |c|
    ensures Chain(deps, c[i], c[i..j])
  {
    var part := c[i..j];
    forall n | 0 <= n < |part| - 1
      ensures part[n] in deps && part[n + 1] in deps[part[n]]
    {
      assert part[n] == c[i + n] && part[n + 1] == c[i + n + 1];
    }
  }

  lemma {:induction false} LoadedChainShort(deps: Dependencies, m: Library, k: nat, c: seq<Library>)
    requires LoadedBy(deps, m, k) && Chain(deps, m, c)
    ensures |c| <= k && InsideKeys(deps, c)
    decreases k
  {
    if |c| == 1 {
    } else {
      var rest := c[1..];
      assert c[0 + 1] in deps[m];
      ChainPart(deps, m, c, 1, |c|);
      LoadedChainShort(deps, c[1], k - 1, rest);
      assert c == [m] + rest;
    }
  }

  lemma {:induction false} LongOrStrayChain(deps: Dependencies, m: Library, k: nat) returns (c: seq<Library>)
    requires !LoadedBy(deps, m, k)
    ensures Chain(deps, m, c) && (|c| > k || !InsideKeys(deps, c))
    decreases k
  {
    if k == 0 || m !in deps {
      c := [m];
    } else {
      var d :| d in deps[m] && !LoadedBy(deps, d, k - 1);
      var rest := LongOrStrayChain(deps, d, k - 1);
      c := [m] + rest;
      assert c[1..] == rest;
      if x :| x in rest && x !in deps {
        assert x in c;
      }
    }
  }

  lemma {:induction false} LoadedByMonotone(deps: Dependencies, m: Library, j: nat, k: nat)
    requires j <= k && LoadedBy(deps, m, j)
    ensures LoadedBy(deps, m, k)
    decreases k
  {
    forall d | d in deps[m]
      ensures LoadedBy(deps, d, k - 1)
    {
      LoadedByMonotone(deps, d, j - 1, k - 1);
    }
  }

  /** m is loaded by step k, counting from 0, and not before. */
  predicate LoadedAt(deps: Dependencies, m: Library, k: nat) {
    LoadedBy(deps, m, k + 1) && !LoadedBy(deps, m, k)
  }

  /** Step k holds the libraries whose longest dependency chain has k links. */
  lemma LoadedAtIsLongestChain(deps: Dependencies, m: Library, k: nat)
    ensures LoadedAt(deps, m, k) <==>
      && (exists c :: Chain(deps, m, c) && |c| == k + 1)
      && (forall c :: Chain(deps, m, c) ==> |c| <= k + 1 && InsideKeys(deps, c))
  {
    LoadedByChains(deps, m, k + 1);
    LoadedByChains(deps, m, k);
  }

  // ---------------------------------------------------------------------
  // Cycles and missing entries
  // ---------------------------------------------------------------------

  lemma {:induction false} DistinctAtMost(c: seq<Library>, keys: set<Library>)
    requires Distinct(c) && forall x :: x in c ==> x in keys
    ensures |c| <= |keys|
  {
    if c == [] {
    } else {
      assert c == [c[0]] + c[1..];
      assert c[0] in c;
      forall x | x in c[1..] ensures x in keys - {c[0]} {
        var i :| 0 <= i < |c[1..]| && c[1..][i] == x;
        assert c[i + 1] == x;
      }
      DistinctAtMost(c[1..], keys - {c[0]});
    }
  }

  /** Following a chain uses up one step per link. */
  lemma {:induction false} LoadedAlongChain(deps: Dependencies, m: Library, k: nat, c: seq<Library>, i: nat)
    requires LoadedBy(deps, m, k) && Chain(deps, m, c) && i < |c|
    ensures i < k && LoadedBy(deps, c[i], k - i)
  {
    if i == 0 {
    } else {
      LoadedAlongChain(deps, m, k, c, i - 1);
      assert c[i - 1 + 1] in deps[c[i - 1]];
    }
  }

  /** A library on a cycle is never loaded. */
  lemma {:induction false} CycleNeverLoaded(deps: Dependencies, x: Library, cycle: seq<Library>, k: nat)
    requires Chain(deps, x, cycle) && |cycle| > 1 && cycle[|cycle| - 1] == x
    ensures !LoadedBy(deps, x, k)
  {
    if LoadedBy(deps, x, k) {
      LoadedAlongChain(deps, x, k, cycle, |cycle| - 1);
      CycleNeverLoaded(deps, x, cycle, k - (|cycle| - 1));
      assert false;
    }
  }

  lemma TroubleNeverLoaded(deps: Dependencies, m: Library, k: nat)
    requires ReachesTrouble(deps, m)
    ensures !LoadedBy(deps, m, k)
  {
    if LoadedBy(deps, m, k) {
      var c :| Chain(deps, m, c) && (!InsideKeys(deps, c) || !Distinct(c));
      LoadedChainShort(deps, m, k, c);
      var i, j :| 0 <= i < j < |c| && c[i] == c[j];
      LoadedAlongChain(deps, m, k, c, i);
      var cycle := c[i..j + 1];
      ChainPart(deps, m, c, i, j + 1);
      CycleNeverLoaded(deps, c[i], cycle, k - i);
      assert false;
    }
  }

  /** A library is loaded at all exactly when it reaches no trouble, and then
      within as many steps as there are libraries. */
  lemma LoadedIffNoTrouble(deps: Dependencies, m: Library)
    ensures ReachesTrouble(deps, m) ==> forall k: nat :: !LoadedBy(deps, m, k)
    ensures !ReachesTrouble(deps, m) ==> LoadedBy(deps, m, |deps.Keys|)
  {
    if ReachesTrouble(deps, m) {
      forall k: nat ensures !LoadedBy(deps, m, k) {
        TroubleNeverLoaded(deps, m, k);
      }
    } else {
      forall c | Chain(deps, m, c)
        ensures |c| <= |deps.Keys| && InsideKeys(deps, c)
      {
        DistinctAtMost(c, deps.Keys);
      }
      LoadedByChains(deps, m, |deps.Keys|);
    }
  }

  // ---------------------------------------------------------------------
  // The sequence of steps
  // ---------------------------------------------------------------------

  ghost function PendingAt(deps: Dependencies, keys: seq<Library>, k: nat): seq<Library> {
    Select(keys, m => !LoadedBy(deps, m, k), 0)
  }

  ghost function StepAt(deps: Dependencies, keys: seq<Library>, k: nat): seq<Library> {
    Select(keys, m => LoadedAt(deps, m, k), 0)
  }

  ghost function StepsBelow(deps: Dependencies, keys: seq<Library>, k: nat): seq<seq<Library>> {
    seq(k, i requires 0 <= i => StepAt(deps, keys, i))
  }

  function Concat(steps: seq<seq<Library>>): seq<Library> {
    if steps == [] then [] else Concat(steps[..|steps| - 1]) + steps[|steps| - 1]
  }

  /** The keys of the dependency map, in insertion order. */
  ghost predicate KeyList(deps: Dependencies, keys: seq<Library>) {
    Distinct(keys) && forall m :: m in keys <==> m in deps
  }

  lemma PendingMembers(deps: Dependencies, keys: seq<Library>, k: nat)
    ensures forall m :: m in PendingAt(deps, keys, k) <==> m in keys && !LoadedBy(deps, m, k)
  {
    SelectMembers(keys, m => !LoadedBy(deps, m, k), 0);
  }

  lemma StepMembers(deps: Dependencies, keys: seq<Library>, k: nat)
    ensures forall m :: m in StepAt(deps, keys, k) <==> m in keys && LoadedAt(deps, m, k)
  {
    SelectMembers(keys, m => LoadedAt(deps, m, k), 0);
  }

  /** The libraries in the first k steps are those loaded by them. */
  lemma {:induction false} LoadedMembers(deps: Dependencies, keys: seq<Library>, k: nat)
    requires KeyList(deps, keys)
    ensures forall m :: m in Concat(StepsBelow(deps, keys, k)) <==> LoadedBy(deps, m, k)
  {
    if k == 0 {
    } else {
      assert StepsBelow(deps, keys, k)[..k - 1] == StepsBelow(deps, keys, k - 1);
      LoadedMembers(deps, keys, k - 1);
      StepMembers(deps, keys, k - 1);
      forall m | LoadedBy(deps, m, k - 1) ensures LoadedBy(deps, m, k) {
        LoadedByMonotone(deps, m, k - 1, k);
      }
    }
  }

  /** Within a step the libraries are in the order of the keys. */
  lemma StepInKeyOrder(deps: Dependencies, keys: seq<Library>, k: nat, a: nat, b: nat, p: nat, q: nat)
    requires KeyList(deps, keys) && a < b < |StepAt(deps, keys, k)| && p < |keys| && q < |keys|
    requires keys[p] == StepAt(deps, keys, k)[a] && keys[q] == StepAt(deps, keys, k)[b]
    ensures p < q
  {
    SelectKeepsOrder(keys, m => LoadedAt(deps, m, k), 0, a, b, p, q);
  }

  /** Progress: a step loads something exactly when some pending library
      reaches no trouble. */
  lemma StepProgress(deps: Dependencies, keys: seq<Library>, k: nat)
    requires KeyList(deps, keys)
    ensures StepAt(deps, keys, k) != [] <==>
      exists m :: m in PendingAt(deps, keys, k) && !ReachesTrouble(deps, m)
  {
    StepMembers(deps, keys, k);
    PendingMembers(deps, keys, k);
    if StepAt(deps, keys, k) != [] {
      var m := StepAt(deps, keys, k)[0];
      assert m in StepAt(deps, keys, k);
      LoadedIffNoTrouble(deps, m);
    } else {
      forall m | m in PendingAt(deps, keys, k)
        ensures ReachesTrouble(deps, m)
      {
        forall x ensures LoadedBy(deps, x, k + 1) <==> LoadedBy(deps, x, k) {
          if LoadedBy(deps, x, k) { LoadedByMonotone(deps, x, k, k + 1); }
          assert x !in StepAt(deps, keys, k);
        }
        Stuck(deps, k, k + |deps.Keys|);
        LoadedIffNoTrouble(deps, m);
        if !ReachesTrouble(deps, m) {
          LoadedByMonotone(deps, m, |deps.Keys|, k + |deps.Keys|);
        }
      }
    }
  }

  /** A step takes what it loads off the pending libraries. */
  lemma PendingShrinks(deps: Dependencies, keys: seq<Library>, k: nat)
    ensures |PendingAt(deps, keys, k)| == |PendingAt(deps, keys, k + 1)| + |StepAt(deps, keys, k)|
  {
    forall j | 0 <= j < |keys|
      ensures LoadedBy(deps, keys[j], k) ==> LoadedBy(deps, keys[j], k + 1)
    {
      if LoadedBy(deps, keys[j], k) {
        LoadedByMonotone(deps, keys[j], k, k + 1);
      }
    }
    SelectSizes(keys, m => !LoadedBy(deps, m, k + 1), m => LoadedAt(deps, m, k), m => !LoadedBy(deps, m, k), 0);
  }

  /** While anything is pending, step k loads something. */
  ghost predicate Progresses(deps: Dependencies, keys: seq<Library>, k: nat) {
    PendingAt(deps, keys, k) != [] ==> StepAt(deps, keys, k) != []
  }

  lemma {:induction false} PendingBound(deps: Dependencies, keys: seq<Library>, k: nat)
    requires forall i: nat :: i < k ==> Progresses(deps, keys, i)
    ensures PendingAt(deps, keys, k) == [] || |PendingAt(deps, keys, k)| + k <= |keys|
  {
    if k == 0 {
      NothingLoaded(deps, keys);
    } else {
      PendingBound(deps, keys, k - 1);
      assert Progresses(deps, keys, k - 1);
      PendingShrinks(deps, keys, k - 1);
    }
  }

  /** Every step makes progress, and within as many steps as there are libraries
      nothing is pending, exactly when no library reaches a cycle or a missing
      entry. Otherwise some step loads nothing while libraries are pending. */
  lemma ProgressesToTheEnd(deps: Dependencies, keys: seq<Library>)
    requires KeyList(deps, keys)
    ensures (forall m :: m in keys ==> !ReachesTrouble(deps, m))
        <==> (forall k: nat :: Progresses(deps, keys, k))
    ensures (forall m :: m in keys ==> !ReachesTrouble(deps, m))
        <==> PendingAt(deps, keys, |keys|) == []
  {
    KeyCount(deps, keys);
    PendingMembers(deps, keys, |keys|);
    if forall m :: m in keys ==> !ReachesTrouble(deps, m) {
      forall k: nat ensures Progresses(deps, keys, k) {
        PendingMembers(deps, keys, k);
        StepProgress(deps, keys, k);
        if PendingAt(deps, keys, k) != [] {
          assert PendingAt(deps, keys, k)[0] in PendingAt(deps, keys, k);
        }
      }
      PendingBound(deps, keys, |keys|);
    } else {
      var m :| m in keys && ReachesTrouble(deps, m);
      TroubleNeverLoaded(deps, m, |keys|);
      assert m in PendingAt(deps, keys, |keys|);
      if forall k: nat :: Progresses(deps, keys, k) {
        PendingBound(deps, keys, |keys|);
        assert false;
      }
    }
  }

  /** Once a step loads nothing, nothing changes any more. */
  lemma {:induction false} Stuck(deps: Dependencies, k: nat, n: nat)
    requires k <= n
    requires forall x :: LoadedBy(deps, x, k + 1) <==> LoadedBy(deps, x, k)
    ensures forall x :: LoadedBy(deps, x, n) <==> LoadedBy(deps, x, k)
  {
    if k == n {
    } else {
      Stuck(deps, k, n - 1);
      forall x
        ensures LoadedBy(deps, x, n) <==> LoadedBy(deps, x, k)
      {
        assert LoadedBy(deps, x, n) <==> LoadedBy(deps, x, k + 1);
      }
    }
  }

  // ---------------------------------------------------------------------
  // The program
  // ---------------------------------------------------------------------

  ghost predicate Loadable(deps: Dependencies, current: seq<Library>, m: Library) {
    m in deps && forall d :: d in deps[m] ==> d in current
  }

  method ModulesThatCanBeLoaded(deps: Dependencies, pending: seq<Library>, current: seq<Library>)
    returns (modules: seq<Library>)
    requires forall m :: m in pending ==> m in deps
    ensures modules == Select(pending, m => Loadable(deps, current, m), 0)
  {
    modules := [];
    ghost var keep := m => Loadable(deps, current, m);
    for i := 0 to |pending|
      invariant modules + Select(pending, keep, i) == Select(pending, keep, 0)
    {
      var pendingModule := pending[i];
      assert pendingModule in pending;
      var canBeLoaded := true;
      var dependencies := deps[pendingModule];
      for j := 0 to |dependencies|
        invariant canBeLoaded
        invariant forall n :: 0 <= n < j ==> dependencies[n] in current
      {
        if dependencies[j] !in current {
          canBeLoaded := false;
          break;
        }
      }
      assert canBeLoaded <==> keep(pendingModule);
      if !canBeLoaded {
        continue;
      }
      modules := modules + [pendingModule];
    }
  }

  class LoadState {
    var pending: seq<Library>
    var current: seq<Library>
    var steps: seq<seq<Library>>

    constructor (keys: seq<Library>)
      ensures pending == keys && current == [] && steps == []
    {
      pending, current, steps := keys, [], [];
    }

    /** Moves one library from the pending ones to step k. */
    method Move(library: Library, k: nat)
      requires library in pending && |steps| == k + 1
      modifies this
      ensures steps == old(steps)[k := old(steps)[k] + [library]]
      ensures pending == RemoveFirst(old(pending), library)
      ensures current == old(current) + [library]
      ensures multiset(pending) + multiset(current) == multiset(old(pending)) + multiset(old(current))
    {
      RemoveFirstMultiset(pending, library);
      steps := steps[k := steps[k] + [library]];
      pending := RemoveFirst(pending, library);
      current := current + [library];
    }

    /** The state before step k. */
    ghost predicate At(deps: Dependencies, keys: seq<Library>, k: nat)
      reads this
    {
      && pending == PendingAt(deps, keys, k)
      && steps == StepsBelow(deps, keys, k)
      && current == Concat(steps)
      && multiset(pending) + multiset(current) == multiset(keys)
    }
  }

  datatype Outcome = Finished | RecursionExceeded

  /** What the pending modules loadable now have to do with the next step. */
  lemma LoadableIsNextStep(deps: Dependencies, keys: seq<Library>, k: nat, m: Library)
    requires KeyList(deps, keys)
    ensures LoadedAt(deps, m, k) <==>
      !LoadedBy(deps, m, k) && Loadable(deps, Concat(StepsBelow(deps, keys, k)), m)
  {
    LoadedMembers(deps, keys, k);
  }

  lemma NextStepLoadable(deps: Dependencies, keys: seq<Library>, k: nat)
    requires KeyList(deps, keys)
    ensures Select(PendingAt(deps, keys, k), m => Loadable(deps, Concat(StepsBelow(deps, keys, k)), m), 0)
         == StepAt(deps, keys, k)
  {
    var before := Concat(StepsBelow(deps, keys, k));
    forall m ensures LoadedAt(deps, m, k) <==> !LoadedBy(deps, m, k) && Loadable(deps, before, m) {
      LoadableIsNextStep(deps, keys, k, m);
    }
    SelectTwice(keys, m => !LoadedBy(deps, m, k), m => Loadable(deps, before, m), m => LoadedAt(deps, m, k), 0);
  }

  /** What is pending in the course of step k, when some of it has been loaded. */
  ghost function Remaining(deps: Dependencies, keys: seq<Library>, k: nat, done: seq<Library>): seq<Library> {
    Select(keys, m => !LoadedBy(deps, m, k) && m !in done, 0)
  }

  lemma NoneDone(deps: Dependencies, keys: seq<Library>, k: nat)
    ensures Remaining(deps, keys, k, []) == PendingAt(deps, keys, k)
  {
    SelectCongruent(keys, m => !LoadedBy(deps, m, k) && m !in [], m => !LoadedBy(deps, m, k), 0);
  }

  lemma OneMoreDone(deps: Dependencies, keys: seq<Library>, k: nat, done: seq<Library>, m: Library)
    requires Distinct(keys) && m in keys && !LoadedBy(deps, m, k) && m !in done
    ensures m in Remaining(deps, keys, k, done)
    ensures RemoveFirst(Remaining(deps, keys, k, done), m) == Remaining(deps, keys, k, done + [m])
  {
    assert keys[0..] == keys;
    RemoveFirstSelects(keys, x => !LoadedBy(deps, x, k) && x !in done,
                       x => !LoadedBy(deps, x, k) && x !in done + [m], m, 0);
  }

  lemma AllDone(deps: Dependencies, keys: seq<Library>, k: nat)
    ensures Remaining(deps, keys, k, StepAt(deps, keys, k)) == PendingAt(deps, keys, k + 1)
  {
    var step := StepAt(deps, keys, k);
    StepMembers(deps, keys, k);
    forall j | 0 <= j < |keys|
      ensures (!LoadedBy(deps, keys[j], k) && keys[j] !in step) == !LoadedBy(deps, keys[j], k + 1)
    {
      assert keys[j] in keys;
      if LoadedBy(deps, keys[j], k) {
        LoadedByMonotone(deps, keys[j], k, k + 1);
      }
    }
    SelectCongruent(keys, m => !LoadedBy(deps, m, k) && m !in step, m => !LoadedBy(deps, m, k + 1), 0);
  }

  lemma StepsGrow(deps: Dependencies, keys: seq<Library>, k: nat)
    ensures StepsBelow(deps, keys, k) + [StepAt(deps, keys, k)] == StepsBelow(deps, keys, k + 1)
    ensures Concat(StepsBelow(deps, keys, k)) + StepAt(deps, keys, k) == Concat(StepsBelow(deps, keys, k + 1))
  {
    assert StepsBelow(deps, keys, k + 1)[..k] == StepsBelow(deps, keys, k);
  }

  /** One level of the recursion: the step that follows the first k. */
  method LoadStep(deps: Dependencies, ghost keys: seq<Library>, st: LoadState, stepNumber: nat)
    requires KeyList(deps, keys) && st.At(deps, keys, stepNumber)
    modifies st
    ensures st.At(deps, keys, stepNumber + 1)
  {
    if stepNumber == |st.steps| {
      st.steps := st.steps + [[]];
    }
    PendingMembers(deps, keys, stepNumber);
    var modules := ModulesThatCanBeLoaded(deps, st.pending, st.current);
    NextStepLoadable(deps, keys, stepNumber);
    LoadModules(deps, keys, st, stepNumber, modules);
    StepsGrow(deps, keys, stepNumber);
    AllDone(deps, keys, stepNumber);
  }

  /** The loop that moves the modules of a step. */
  method LoadModules(deps: Dependencies, ghost keys: seq<Library>, st: LoadState, stepNumber: nat,
                     modules: seq<Library>)
    requires KeyList(deps, keys) && modules == StepAt(deps, keys, stepNumber)
    requires st.steps == StepsBelow(deps, keys, stepNumber) + [[]]
    requires st.pending == PendingAt(deps, keys, stepNumber)
    requires multiset(st.pending) + multiset(st.current) == multiset(keys)
    modifies st
    ensures st.steps == StepsBelow(deps, keys, stepNumber) + [modules]
    ensures st.pending == Remaining(deps, keys, stepNumber, modules)
    ensures st.current == old(st.current) + modules
    ensures multiset(st.pending) + multiset(st.current) == multiset(keys)
  {
    ghost var steps, before := StepsBelow(deps, keys, stepNumber), st.current;
    NoneDone(deps, keys, stepNumber);
    StepMembers(deps, keys, stepNumber);
    SelectDistinct(keys, m => LoadedAt(deps, m, stepNumber), 0);
    for i := 0 to |modules|
      invariant st.steps == steps + [modules[..i]]
      invariant st.current == before + modules[..i]
      invariant st.pending == Remaining(deps, keys, stepNumber, modules[..i])
      invariant multiset(st.pending) + multiset(st.current) == multiset(keys)
    {
      var library := modules[i];
      assert library in modules && library !in modules[..i];
      assert modules[..i + 1] == modules[..i] + [library];
      OneMoreDone(deps, keys, stepNumber, modules[..i], library);
      st.Move(library, stepNumber);
      assert before + modules[..i] + [library] == before + modules[..i + 1];
    }
    assert modules[..|modules|] == modules;
  }

  ghost predicate AllLoadedBy(deps: Dependencies, keys: seq<Library>, k: nat) {
    forall m :: m in keys ==> LoadedBy(deps, m, k)
  }

  lemma PendingEmpty(deps: Dependencies, keys: seq<Library>, k: nat, n: nat)
    requires k <= n
    ensures PendingAt(deps, keys, k) == [] ==> AllLoadedBy(deps, keys, n)
    ensures PendingAt(deps, keys, k) != [] ==> !AllLoadedBy(deps, keys, k)
  {
    PendingMembers(deps, keys, k);
    if PendingAt(deps, keys, k) == [] {
      forall m | m in keys ensures LoadedBy(deps, m, n) {
        assert m !in PendingAt(deps, keys, k);
        LoadedByMonotone(deps, m, k, n);
      }
    } else {
      assert PendingAt(deps, keys, k)[0] in PendingAt(deps, keys, k);
    }
  }

  /** The recursion, down to the interpreter's recursion limit. It gives up only
      when the limit is less than the dependencies need; with a cycle or a
      missing entry no limit is enough. */
  method DependencyOrder(deps: Dependencies, ghost keys: seq<Library>, st: LoadState, stepNumber: nat, limit: nat)
    returns (outcome: Outcome)
    requires KeyList(deps, keys) && st.At(deps, keys, stepNumber) && stepNumber <= limit
    modifies st
    ensures outcome.Finished? ==> st.pending == [] && st.At(deps, keys, |st.steps|)
    ensures outcome.RecursionExceeded? ==> st.At(deps, keys, limit)
    ensures outcome.Finished? <==> stepNumber < limit && AllLoadedBy(deps, keys, limit - 1)
    decreases limit - stepNumber
  {
    if stepNumber == limit {
      return RecursionExceeded;
    }
    PendingEmpty(deps, keys, stepNumber, limit - 1);
    if |st.pending| == 0 {
      return Finished;
    }
    LoadStep(deps, keys, st, stepNumber);
    outcome := DependencyOrder(deps, keys, st, stepNumber + 1, limit);
  }

  /** Every library comes after all its dependencies. */
  ghost predicate DependenciesFirst(deps: Dependencies, order: seq<Library>) {
    forall i, d :: 0 <= i < |order| && order[i] in deps && d in deps[order[i]] ==> d in order[..i]
  }

  lemma {:induction false} StepsRespectDependencies(deps: Dependencies, keys: seq<Library>, k: nat)
    requires KeyList(deps, keys)
    ensures DependenciesFirst(deps, Concat(StepsBelow(deps, keys, k)))
  {
    if k == 0 {
    } else {
      var order, before := Concat(StepsBelow(deps, keys, k)), Concat(StepsBelow(deps, keys, k - 1));
      assert StepsBelow(deps, keys, k)[..k - 1] == StepsBelow(deps, keys, k - 1);
      assert order == before + StepAt(deps, keys, k - 1);
      StepsRespectDependencies(deps, keys, k - 1);
      LoadedMembers(deps, keys, k - 1);
      StepMembers(deps, keys, k - 1);
      forall i, d | 0 <= i < |order| && order[i] in deps && d in deps[order[i]]
        ensures d in order[..i]
      {
        if i < |before| {
          assert order[..i] == before[..i];
        } else {
          assert order[i] in StepAt(deps, keys, k - 1);
          assert d in before;
          assert order[..i] == before + StepAt(deps, keys, k - 1)[..i - |before|];
        }
      }
    }
  }

  datatype Sorted = Sorted(libraries: seq<Library>) | RecursionError

  /** The load order: every library once, dependencies first. A recursion error
      means that the limit does not suffice: it never does when some library
      reaches a cycle or a missing entry, and otherwise always does when it
      exceeds the number of libraries. */
  method SortToDependencies(deps: Dependencies, keys: seq<Library>, limit: nat) returns (r: Sorted)
    requires KeyList(deps, keys)
    ensures r.Sorted? <==> limit > 0 && AllLoadedBy(deps, keys, limit - 1)
    ensures r.Sorted? ==> multiset(r.libraries) == multiset(keys) && DependenciesFirst(deps, r.libraries)
    ensures r.Sorted? ==> exists k: nat :: r.libraries == Concat(StepsBelow(deps, keys, k))
  {
    var st := new LoadState(keys);
    NothingLoaded(deps, keys);
    var outcome := DependencyOrder(deps, keys, st, 0, limit);
    if outcome.RecursionExceeded? {
      return RecursionError;
    }
    var sortedLibraries := Extend(st.steps);
    StepsRespectDependencies(deps, keys, |st.steps|);
    assert sortedLibraries == Concat(StepsBelow(deps, keys, |st.steps|));
    r := Sorted(sortedLibraries);
  }

  method Extend(steps: seq<seq<Library>>) returns (sortedLibraries: seq<Library>)
    ensures sortedLibraries == Concat(steps)
  {
    sortedLibraries := [];
    for i := 0 to |steps|
      invariant sortedLibraries == Concat(steps[..i])
    {
      assert steps[..i + 1][..i] == steps[..i];
      sortedLibraries := sortedLibraries + steps[i];
    }
    assert steps[..|steps|] == steps;
  }

  lemma NothingLoaded(deps: Dependencies, keys: seq<Library>)
    ensures PendingAt(deps, keys, 0) == keys
  {
    SelectEverything(keys, m => !LoadedBy(deps, m, 0), 0);
    assert keys[0..] == keys;
  }

  /** Which limits suffice. */
  lemma SufficientLimit(deps: Dependencies, keys: seq<Library>, limit: nat)
    requires KeyList(deps, keys) && limit > 0
    ensures (exists m :: m in keys && ReachesTrouble(deps, m)) ==> !AllLoadedBy(deps, keys, limit - 1)
    ensures (forall m :: m in keys ==> !ReachesTrouble(deps, m)) && limit > |keys| ==>
      AllLoadedBy(deps, keys, limit - 1)
  {
    KeyCount(deps, keys);
    forall m | m in keys
      ensures ReachesTrouble(deps, m) ==> !LoadedBy(deps, m, limit - 1)
      ensures !ReachesTrouble(deps, m) && limit > |keys| ==> LoadedBy(deps, m, limit - 1)
    {
      LoadedIffNoTrouble(deps, m);
      if !ReachesTrouble(deps, m) && limit > |keys| {
        LoadedByMonotone(deps, m, |deps.Keys|, limit - 1);
      }
    }
  }

  lemma KeyCount(deps: Dependencies, keys: seq<Library>)
    requires KeyList(deps, keys)
    ensures |deps.Keys| == |keys|
  {
    DistinctCount(keys, deps.Keys);
  }

  lemma {:induction false} DistinctCount(c: seq<Library>, keys: set<Library>)
    requires Distinct(c) && forall x :: x in c <==> x in keys
    ensures |c| == |keys|
  {
    if c != [] {
      assert c == [c[0]] + c[1..];
      assert c[0] in c;
      assert c[0] !in c[1..];
      DistinctCount(c[1..], keys - {c[0]});
    } else {
      assert forall x :: x in keys ==> x in c;
      assert keys == {};
    }
  }
}
