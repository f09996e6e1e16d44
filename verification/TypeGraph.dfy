/** Configuration paths gathered by utils/print-introspected-doxygen.cc: a
    recursive walk over the graph of registered types, whose edges are pointer
    and container attributes, derived types and aggregated types. */
module TypeGraph {
  import opened Selection
  import opened TypeWalks

  /** What the checker of an attribute tells. */
  datatype Attribute =
    | Pointer(name: string, pointee: TypeId)
    | Container(name: string, item: TypeId)
    | Plain(name: string)

  /** The registered types and what is known about them. */
  datatype Registry = Registry(
    registered: seq<TypeId>,
    names: map<TypeId, string>,
    attributes: map<TypeId, seq<Attribute>>,
    parents: map<TypeId, set<TypeId>>,
    objectType: TypeId
  ) {
    predicate IsType(t: TypeId) {
      t in registered
    }

    predicate KnownTarget(a: Attribute) {
      match a
      case Pointer(_, pointee) => IsType(pointee)
      case Container(_, item) => IsType(item)
      case Plain(_) => true
    }

    function Name(t: TypeId): string {
      if t in names then names[t] else ""
    }

    function Attributes(t: TypeId): seq<Attribute> {
      if t in attributes then attributes[t] else []
    }

    predicate IsChildOf(child: TypeId, parent: TypeId) {
      child in parents && parent in parents[child]
    }
  }

  // ---------------------------------------------------------------------
  // Edges
  // ---------------------------------------------------------------------

  /** The registered types with the aggregations recorded so far. */
  datatype Graph = Graph(types: Registry, aggregates: seq<(TypeId, TypeId)>) {

    /** All types mentioned anywhere are registered. */
    predicate Valid() {
      && (forall t, i :: t in types.attributes && 0 <= i < |types.attributes[t]| ==>
            types.KnownTarget(types.attributes[t][i]))
      && (forall i :: 0 <= i < |aggregates| ==> types.IsType(aggregates[i].0) && types.IsType(aggregates[i].1))
    }

    /** Pointers to plain Objects are not followed. */
    function AttributeEdge(a: Attribute): seq<Edge> {
      match a
      case Pointer(name, pointee) => if pointee == types.objectType then [] else [Edge(name, pointee)]
      case Container(name, item) => [Edge(name + "/[i]", item)]
      case Plain(_) => []
    }

    function ChildEdge(t: TypeId, child: TypeId): seq<Edge> {
      if types.IsChildOf(child, t) then [Edge("$" + types.Name(child), child)] else []
    }

    function AggregateEdge(t: TypeId, pair: (TypeId, TypeId)): seq<Edge> {
      if pair.1 == t then [Edge("$" + types.Name(pair.0), pair.0)]
      else if pair.0 == t then [Edge("$" + types.Name(pair.1), pair.1)]
      else []
    }

    function AttributeEdges(t: TypeId, n: nat): seq<Edge>
      requires n <= |types.Attributes(t)|
    {
      if n == 0 then [] else AttributeEdges(t, n - 1) + AttributeEdge(types.Attributes(t)[n - 1])
    }

    function ChildEdges(t: TypeId, n: nat): seq<Edge>
      requires n <= |types.registered|
    {
      if n == 0 then [] else ChildEdges(t, n - 1) + ChildEdge(t, types.registered[n - 1])
    }

    function AggregateEdges(t: TypeId, n: nat): seq<Edge>
      requires n <= |aggregates|
    {
      if n == 0 then [] else AggregateEdges(t, n - 1) + AggregateEdge(t, aggregates[n - 1])
    }

    /** The edges out of a type, in the order in which they are followed. */
    function Edges(t: TypeId): seq<Edge> {
      AttributeEdges(t, |types.Attributes(t)|) + ChildEdges(t, |types.registered|) + AggregateEdges(t, |aggregates|)
    }

    // The edges by the fields of the registry

    /** A pointer to something other than a plain Object, or a container, among the
        attributes of t. */
    ghost predicate AttributeGives(t: TypeId, e: Edge, n: nat) {
      && t in types.attributes
      && exists i ::
        0 <= i < n && i < |types.attributes[t]| &&
        match types.attributes[t][i]
        case Pointer(name, pointee) => pointee != types.objectType && e == Edge(name, pointee)
        case Container(name, item) => e == Edge(name + "/[i]", item)
        case Plain(_) => false
    }

    /** A registered type that has t among its parents. */
    ghost predicate ChildGives(t: TypeId, e: Edge, n: nat) {
      exists i ::
        0 <= i < n && i < |types.registered| &&
        var child := types.registered[i];
        child in types.parents && t in types.parents[child] && e == Edge("$" + types.Name(child), child)
    }

    /** An aggregation of t with another type, in either order. */
    ghost predicate AggregateGives(t: TypeId, e: Edge, n: nat) {
      exists i ::
        0 <= i < n && i < |aggregates| &&
        (aggregates[i] == (t, e.target) || aggregates[i] == (e.target, t)) && e.step == "$" + types.Name(e.target)
    }

    lemma {:induction false} AttributeMembers(t: TypeId, e: Edge, n: nat)
      requires n <= |types.Attributes(t)|
      ensures e in AttributeEdges(t, n) <==> AttributeGives(t, e, n)
    {
      if n == 0 {
      } else {
        AttributeMembers(t, e, n - 1);
        var a := types.attributes[t][n - 1];
        assert AttributeGives(t, e, n) <==> AttributeGives(t, e, n - 1) || e in AttributeEdge(a);
      }
    }

    lemma {:induction false} ChildMembers(t: TypeId, e: Edge, n: nat)
      requires n <= |types.registered|
      ensures e in ChildEdges(t, n) <==> ChildGives(t, e, n)
    {
      if n == 0 {
      } else {
        ChildMembers(t, e, n - 1);
        var child := types.registered[n - 1];
        assert ChildGives(t, e, n) <==> ChildGives(t, e, n - 1) || e in ChildEdge(t, child);
      }
    }

    lemma {:induction false} AggregateMembers(t: TypeId, e: Edge, n: nat)
      requires n <= |aggregates|
      ensures e in AggregateEdges(t, n) <==> AggregateGives(t, e, n)
    {
      if n == 0 {
      } else {
        AggregateMembers(t, e, n - 1);
        var pair := aggregates[n - 1];
        assert AggregateGives(t, e, n) <==> AggregateGives(t, e, n - 1) || e in AggregateEdge(t, pair);
      }
    }

    /** What the registry and the aggregations say is an edge out of t. */
    ghost predicate HasEdge(t: TypeId, e: Edge) {
      || AttributeGives(t, e, if t in types.attributes then |types.attributes[t]| else 0)
      || ChildGives(t, e, |types.registered|)
      || AggregateGives(t, e, |aggregates|)
    }

    lemma EdgeMembers(t: TypeId, e: Edge)
      ensures e in Edges(t) <==> HasEdge(t, e)
    {
      AttributeMembers(t, e, |types.Attributes(t)|);
      ChildMembers(t, e, |types.registered|);
      AggregateMembers(t, e, |aggregates|);
    }

    lemma AttributeKnown(t: TypeId, i: nat)
      requires Valid() && i < |types.Attributes(t)|
      ensures types.KnownTarget(types.Attributes(t)[i])
    {
    }

    lemma {:induction false} AttributeTargets(t: TypeId, n: nat)
      requires Valid() && n <= |types.Attributes(t)|
      ensures forall e :: e in AttributeEdges(t, n) ==> types.IsType(e.target)
    {
      if n == 0 {
      } else {
        AttributeTargets(t, n - 1);
        assert types.KnownTarget(types.Attributes(t)[n - 1]);
      }
    }

    lemma {:induction false} ChildTargets(t: TypeId, n: nat)
      requires n <= |types.registered|
      ensures forall e :: e in ChildEdges(t, n) ==> types.IsType(e.target)
    {
      if n == 0 {
      } else {
        ChildTargets(t, n - 1);
      }
    }

    lemma {:induction false} AggregateTargets(t: TypeId, n: nat)
      requires Valid() && n <= |aggregates|
      ensures forall e :: e in AggregateEdges(t, n) ==> types.IsType(e.target)
    {
      if n == 0 {
      } else {
        AggregateTargets(t, n - 1);
      }
    }

    function EdgeTable(): Table {
      map t | t in types.registered :: Edges(t)
    }

    /** out has the edges of t. */
    ghost predicate HasEdges(out: Out, t: TypeId) {
      t in out && out[t] == Edges(t)
    }

    /** out is the table of all edges. */
    ghost predicate HasTable(out: Out) {
      forall t {:trigger HasEdges(out, t)} :: types.IsType(t) ==> HasEdges(out, t)
    }

    lemma InTable(out: Out, t: TypeId)
      requires HasTable(out) && types.IsType(t)
      ensures t in out
    {
      assert HasEdges(out, t);
    }

    lemma TableClosed()
      requires Valid()
      ensures Closed(EdgeTable())
    {
      var out: Table := EdgeTable();
      forall t: TypeId, i: int | t in out && 0 <= i < |out[t]| ensures out[t][i].target in out {
        AttributeTargets(t, |types.Attributes(t)|);
        ChildTargets(t, |types.registered|);
        AggregateTargets(t, |aggregates|);
        assert Edges(t)[i] in Edges(t);
      }
    }

    lemma EdgesOf(out: Out, t: TypeId)
      requires HasTable(out) && types.IsType(t)
      ensures t in out
      ensures out[t] ==
        AttributeEdges(t, |types.Attributes(t)|) + ChildEdges(t, |types.registered|) + AggregateEdges(t, |aggregates|)
    {
      assert HasEdges(out, t);
    }
  }

  // An example with two edges of every kind

  function ExampleGraph(): Graph {
    Graph(Registry([0, 1, 2, 3, 4, 5], map[0 := "A", 3 := "D", 4 := "E", 5 := "F"],
                   map[0 := [Pointer("p", 1), Plain("n"), Container("c", 2), Pointer("o", 9)]],
                   map[3 := {0}, 4 := {0, 1}], 9),
          [(0, 5), (2, 3), (3, 0)])
  }

  lemma ExampleAttributes()
    ensures ExampleGraph().AttributeEdges(0, 4) == [Edge("p", 1), Edge("c/[i]", 2)]
  {
    var g := ExampleGraph();
    assert "c" + "/[i]" == "c/[i]";
    assert g.AttributeEdges(0, 1) == [Edge("p", 1)];
    assert g.AttributeEdges(0, 2) == [Edge("p", 1)];
    assert g.AttributeEdges(0, 3) == [Edge("p", 1), Edge("c/[i]", 2)];
  }

  lemma ExampleChildren()
    ensures ExampleGraph().ChildEdges(0, 6) == [Edge("$D", 3), Edge("$E", 4)]
  {
    var g := ExampleGraph();
    assert "$" + "D" == "$D" && "$" + "E" == "$E";
    assert g.ChildEdges(0, 1) == [];
    assert g.ChildEdges(0, 2) == [];
    assert g.ChildEdges(0, 3) == [];
    assert g.ChildEdges(0, 4) == [Edge("$D", 3)];
    assert g.ChildEdges(0, 5) == [Edge("$D", 3), Edge("$E", 4)];
  }

  lemma ExampleAggregates()
    ensures ExampleGraph().AggregateEdges(0, 3) == [Edge("$F", 5), Edge("$D", 3)]
  {
    var g := ExampleGraph();
    assert "$" + "D" == "$D" && "$" + "F" == "$F";
    assert g.AggregateEdges(0, 1) == [Edge("$F", 5)];
    assert g.AggregateEdges(0, 2) == [Edge("$F", 5)];
  }

  /** The order of the edges: attributes, derived types, aggregations, each in the
      order in which they are registered. */
  lemma EdgeOrder()
    ensures ExampleGraph().Edges(0)
      == [Edge("p", 1), Edge("c/[i]", 2), Edge("$D", 3), Edge("$E", 4), Edge("$F", 5), Edge("$D", 3)]
  {
    ExampleAttributes();
    ExampleChildren();
    ExampleAggregates();
  }

  type ValidGraph = g: Graph | g.Valid() witness Graph(Registry([], map[], map[], map[], 0), [])

  // ---------------------------------------------------------------------
  // The program
  // ---------------------------------------------------------------------

  /** The records behind one edge of tid, or none. */
  ghost function RecordsBehind(out: Out, tid: TypeId, more: seq<Edge>, path: seq<string>, visited: seq<TypeId>)
    : seq<Record>
  {
    if more == [] then [] else Records(out, more[0].target, path + [more[0].step], visited + [tid])
  }

  /** What following one more edge, or none, appends to an output. */
  lemma MoreEdges(out: Out, tid: TypeId, edges: seq<Edge>, more: seq<Edge>, path: seq<string>, visited: seq<TypeId>,
                  start: seq<Record>)
    requires tid in out && tid !in visited && |more| <= 1
    ensures start + RecordsOver(out, edges + more, tid, path, visited)
         == start + RecordsOver(out, edges, tid, path, visited) + RecordsBehind(out, tid, more, path, visited)
  {
    assert more == [] ==> edges + more == edges;
    assert more != [] ==> (edges + more)[..|edges|] == edges;
  }

  /** The records of a type, by the three kinds of edges. */
  lemma AllEdges(g: Graph, out: Out, tid: TypeId, path: seq<string>, visited: seq<TypeId>, start: seq<Record>)
    requires g.HasTable(out) && g.types.IsType(tid) && tid !in visited
    ensures start + Records(out, tid, path, visited) == start + [(tid, Render(path))]
      + RecordsOver(out, g.AttributeEdges(tid, |g.types.Attributes(tid)|), tid, path, visited)
      + RecordsOver(out, g.ChildEdges(tid, |g.types.registered|), tid, path, visited)
      + RecordsOver(out, g.AggregateEdges(tid, |g.aggregates|), tid, path, visited)
  {
    g.EdgesOf(out, tid);
    RecordsInParts(out, g.AttributeEdges(tid, |g.types.Attributes(tid)|), g.ChildEdges(tid, |g.types.registered|),
                   g.AggregateEdges(tid, |g.aggregates|), tid, path, visited, start);
  }

  class StaticInformation {
    const types: Registry
    var output: seq<Record>
    var currentPath: seq<string>
    var alreadyProcessed: seq<TypeId>
    var aggregates: seq<(TypeId, TypeId)>
    var noTids: seq<string>

    /** The graph to walk. */
    function G(): Graph
      reads this`aggregates
    {
      Graph(types, aggregates)
    }

    constructor (types: Registry)
      ensures this.types == types
      ensures output == [] && currentPath == [] && alreadyProcessed == [] && aggregates == [] && noTids == []
    {
      this.types := types;
      output, currentPath, alreadyProcessed, aggregates, noTids := [], [], [], [], [];
    }

    /** Looks a registered type up by its name. */
    function Lookup(name: string, i: nat): (t: seq<TypeId>)
      requires i <= |types.registered|
      ensures |t| <= 1
      ensures t != [] ==> types.IsType(t[0]) && types.Name(t[0]) == name
      ensures t == [] ==> forall j :: i <= j < |types.registered| ==> types.Name(types.registered[j]) != name
      decreases |types.registered| - i
    {
      if i == |types.registered| then []
      else if types.Name(types.registered[i]) == name then [types.registered[i]]
      else Lookup(name, i + 1)
    }

    method RecordAggregationInfo(a: string, b: string)
      requires G().Valid()
      modifies this`aggregates, this`noTids
      ensures G().Valid()
      ensures Lookup(a, 0) == [] ==> noTids == old(noTids) + [a] && aggregates == old(aggregates)
      ensures Lookup(a, 0) != [] && Lookup(b, 0) == [] ==> noTids == old(noTids) + [b] && aggregates == old(aggregates)
      ensures Lookup(a, 0) != [] && Lookup(b, 0) != [] ==>
        noTids == old(noTids) && aggregates == old(aggregates) + [(Lookup(a, 0)[0], Lookup(b, 0)[0])]
    {
      var aTid := Lookup(a, 0);
      if aTid == [] {
        noTids := noTids + [a];
        return;
      }
      var bTid := Lookup(b, 0);
      if bTid == [] {
        noTids := noTids + [b];
        return;
      }
      aggregates := aggregates + [(aTid[0], bTid[0])];
    }

    method GetCurrentPath() returns (s: string)
      ensures s == Render(currentPath)
    {
      s := "";
      for i := 0 to |currentPath|
        invariant s == Render(currentPath[..i])
      {
        assert currentPath[..i + 1][..i] == currentPath[..i];
        s := s + "/" + currentPath[i];
      }
      assert currentPath[..|currentPath|] == currentPath;
    }

    method RecordOutput(tid: TypeId)
      modifies this`output
      ensures output == old(output) + [(tid, Render(currentPath))]
    {
      var path := GetCurrentPath();
      output := output + [(tid, path)];
    }

    method HasAlreadyBeenProcessed(tid: TypeId) returns (found: bool)
      ensures found <==> tid in alreadyProcessed
    {
      for i := 0 to |alreadyProcessed|
        invariant tid !in alreadyProcessed[..i]
      {
        if alreadyProcessed[i] == tid {
          return true;
        }
      }
      return false;
    }

    /** Follows one edge of tid: descends with the edge on the path and tid on
        the stack, and takes both off again. */
    method Follow(tid: TypeId, step: string, target: TypeId, ghost g: ValidGraph, ghost out: Out)
      requires g.types == types && g.aggregates == aggregates && g.HasTable(out)
      requires types.IsType(tid) && types.IsType(target) && tid !in alreadyProcessed
      modifies this`output, this`currentPath, this`alreadyProcessed
      ensures currentPath == old(currentPath) && alreadyProcessed == old(alreadyProcessed)
      ensures output == old(output) + Records(out, target, currentPath + [step], alreadyProcessed + [tid])
      decreases Unvisited(out, alreadyProcessed), 0
    {
      g.InTable(out, tid);
      UnvisitedDrops(out, alreadyProcessed, tid);
      ghost var path, processed := currentPath, alreadyProcessed;
      currentPath := currentPath + [step];
      alreadyProcessed := alreadyProcessed + [tid];
      DoGather(target, g, out);
      alreadyProcessed := alreadyProcessed[..|alreadyProcessed| - 1];
      currentPath := currentPath[..|currentPath| - 1];
      assert currentPath == path && alreadyProcessed == processed;
    }

    /** Appends the records of tid, and leaves path and stack as they were. */
    method DoGather(tid: TypeId, ghost g: ValidGraph, ghost out: Out)
      requires g.types == types && g.aggregates == aggregates && g.HasTable(out)
      requires types.IsType(tid)
      modifies this`output, this`currentPath, this`alreadyProcessed
      ensures currentPath == old(currentPath) && alreadyProcessed == old(alreadyProcessed)
      ensures output == old(output) + Records(out, tid, currentPath, alreadyProcessed)
      decreases Unvisited(out, alreadyProcessed), 3
    {
      var processed := HasAlreadyBeenProcessed(tid);
      if processed {
        return;
      }
      AllEdges(g, out, tid, currentPath, alreadyProcessed, output);
      RecordOutput(tid);
      FollowAttributes(tid, g, out);
      FollowChildren(tid, g, out);
      FollowAggregates(tid, g, out);
    }

    /** The loop over the attributes of tid. */
    method FollowAttributes(tid: TypeId, ghost g: ValidGraph, ghost out: Out)
      requires g.types == types && g.aggregates == aggregates && g.HasTable(out)
      requires types.IsType(tid) && tid !in alreadyProcessed
      modifies this`output, this`currentPath, this`alreadyProcessed
      ensures currentPath == old(currentPath) && alreadyProcessed == old(alreadyProcessed)
      ensures output == old(output)
        + RecordsOver(out, g.AttributeEdges(tid, |types.Attributes(tid)|), tid, currentPath, alreadyProcessed)
      decreases Unvisited(out, alreadyProcessed), 2
    {
      g.InTable(out, tid);
      ghost var start, path, visited := output, currentPath, alreadyProcessed;
      ghost var edges: seq<Edge> := [];
      var attributes := types.Attributes(tid);
      for i := 0 to |attributes|
        invariant currentPath == path && alreadyProcessed == visited
        invariant edges == g.AttributeEdges(tid, i)
        invariant output == start + RecordsOver(out, edges, tid, path, visited)
      {
        g.AttributeKnown(tid, i);
        ghost var more := g.AttributeEdge(attributes[i]);
        MoreEdges(out, tid, edges, more, path, visited, start);
        FollowAttribute(tid, attributes[i], g, out);
        edges := edges + more;
      }
    }

    /** Pointers are followed except to plain Objects, and so are containers. */
    method FollowAttribute(tid: TypeId, info: Attribute, ghost g: ValidGraph, ghost out: Out)
      requires g.types == types && g.aggregates == aggregates && g.HasTable(out)
      requires types.IsType(tid) && tid !in alreadyProcessed
      requires types.KnownTarget(info)
      modifies this`output, this`currentPath, this`alreadyProcessed
      ensures currentPath == old(currentPath) && alreadyProcessed == old(alreadyProcessed)
      ensures output == old(output) + RecordsBehind(out, tid, g.AttributeEdge(info), currentPath, alreadyProcessed)
      decreases Unvisited(out, alreadyProcessed), 1
    {
      match info {
        case Pointer(name, pointee) =>
          if types.objectType != pointee {
            Follow(tid, name, pointee, g, out);
          }
        case Container(name, item) =>
          Follow(tid, name + "/[i]", item, g, out);
        case Plain(_) =>
      }
    }

    /** The loop over the registered types, for those derived from tid. */
    method FollowChildren(tid: TypeId, ghost g: ValidGraph, ghost out: Out)
      requires g.types == types && g.aggregates == aggregates && g.HasTable(out)
      requires types.IsType(tid) && tid !in alreadyProcessed
      modifies this`output, this`currentPath, this`alreadyProcessed
      ensures currentPath == old(currentPath) && alreadyProcessed == old(alreadyProcessed)
      ensures output == old(output)
        + RecordsOver(out, g.ChildEdges(tid, |types.registered|), tid, currentPath, alreadyProcessed)
      decreases Unvisited(out, alreadyProcessed), 2
    {
      g.InTable(out, tid);
      ghost var start, path, visited := output, currentPath, alreadyProcessed;
      ghost var edges: seq<Edge> := [];
      for j := 0 to |types.registered|
        invariant currentPath == path && alreadyProcessed == visited
        invariant edges == g.ChildEdges(tid, j)
        invariant output == start + RecordsOver(out, edges, tid, path, visited)
      {
        var child := types.registered[j];
        ghost var more := g.ChildEdge(tid, child);
        MoreEdges(out, tid, edges, more, path, visited, start);
        FollowChild(tid, child, g, out);
        edges := edges + more;
      }
    }

    /** A registered type is followed if it is derived from tid. */
    method FollowChild(tid: TypeId, child: TypeId, ghost g: ValidGraph, ghost out: Out)
      requires g.types == types && g.aggregates == aggregates && g.HasTable(out)
      requires types.IsType(tid) && tid !in alreadyProcessed
      requires types.IsType(child)
      modifies this`output, this`currentPath, this`alreadyProcessed
      ensures currentPath == old(currentPath) && alreadyProcessed == old(alreadyProcessed)
      ensures output == old(output) + RecordsBehind(out, tid, g.ChildEdge(tid, child), currentPath, alreadyProcessed)
      decreases Unvisited(out, alreadyProcessed), 1
    {
      if types.IsChildOf(child, tid) {
        Follow(tid, "$" + types.Name(child), child, g, out);
      }
    }

    /** The loop over the aggregations. */
    method FollowAggregates(tid: TypeId, ghost g: ValidGraph, ghost out: Out)
      requires g.types == types && g.aggregates == aggregates && g.HasTable(out)
      requires types.IsType(tid) && tid !in alreadyProcessed
      modifies this`output, this`currentPath, this`alreadyProcessed
      ensures currentPath == old(currentPath) && alreadyProcessed == old(alreadyProcessed)
      ensures output == old(output)
        + RecordsOver(out, g.AggregateEdges(tid, |aggregates|), tid, currentPath, alreadyProcessed)
      decreases Unvisited(out, alreadyProcessed), 2
    {
      g.InTable(out, tid);
      ghost var start, path, visited := output, currentPath, alreadyProcessed;
      ghost var edges: seq<Edge> := [];
      for k := 0 to |aggregates|
        invariant currentPath == path && alreadyProcessed == visited
        invariant edges == g.AggregateEdges(tid, k)
        invariant output == start + RecordsOver(out, edges, tid, path, visited)
      {
        var item := aggregates[k];
        ghost var more := g.AggregateEdge(tid, item);
        MoreEdges(out, tid, edges, more, path, visited, start);
        FollowAggregate(tid, item, g, out);
        edges := edges + more;
      }
    }

    /** An aggregation that involves tid is followed to its other end. */
    method FollowAggregate(tid: TypeId, item: (TypeId, TypeId), ghost g: ValidGraph, ghost out: Out)
      requires g.types == types && g.aggregates == aggregates && g.HasTable(out)
      requires types.IsType(tid) && tid !in alreadyProcessed
      requires types.IsType(item.0) && types.IsType(item.1)
      modifies this`output, this`currentPath, this`alreadyProcessed
      ensures currentPath == old(currentPath) && alreadyProcessed == old(alreadyProcessed)
      ensures output == old(output) + RecordsBehind(out, tid, g.AggregateEdge(tid, item), currentPath, alreadyProcessed)
      decreases Unvisited(out, alreadyProcessed), 1
    {
      if item.0 == tid || item.1 == tid {
        var other := 0;
        if item.0 == tid {
          other := item.1;
        }
        if item.1 == tid {
          other := item.0;
        }
        Follow(tid, "$" + types.Name(other), other, g, out);
      }
    }

    /** Started with an empty path and stack: one record for every walk from tid
        on which no type occurs twice, and no others. Uniquefy gets its own copy
        of the output, so nothing is removed afterwards. */
    method Gather(tid: TypeId)
      requires G().Valid() && types.IsType(tid)
      requires currentPath == [] && alreadyProcessed == []
      modifies this`output, this`currentPath, this`alreadyProcessed
      ensures currentPath == [] && alreadyProcessed == []
      ensures Closed(G().EdgeTable())
      ensures exists ws: seq<Walk> ::
        && Distinct(ws) && DepthFirst(ws)
        && (forall w :: w in ws <==> IsSimpleWalk(G().EdgeTable(), tid, w))
        && output == old(output) + RecordsOfWalks(G().EdgeTable(), tid, [], ws)
      ensures |output| > |old(output)| && output[|old(output)|] == (tid, "")
      ensures forall e :: G().HasEdge(tid, e) && e.target != tid ==> (e.target, "/" + e.step) in output[|old(output)|..]
    {
      ghost var g := G();
      g.TableClosed();
      ghost var out: Out := g.EdgeTable();
      ghost var before := output;
      DoGather(tid, g, out);
      OneRecordPerSimpleWalk(out, tid);
      assert output[|before|..] == Records(out, tid, [], []);
      forall e | g.HasEdge(tid, e) && e.target != tid
        ensures (e.target, "/" + e.step) in output[|before|..]
      {
        g.EdgeMembers(tid, e);
        DirectRecord(out, tid, e);
      }
    }
  }
}
