/** When the configuration paths gathered by utils/print-introspected-doxygen.cc
    repeat: walks are never gathered twice, but two walks may have one record. */
module TypeRecords {
  import opened Selection
  import opened TypeWalks
  import opened TypeGraph

  /** Two edges of a type with the same step lead to the same type, and no step
      goes on where another one ends. */
  ghost predicate StepsTellApart(out: Out) {
    forall t, i, j :: t in out && 0 <= i < |out[t]| && 0 <= j < |out[t]| ==>
      && (out[t][i].step == out[t][j].step ==> out[t][i].target == out[t][j].target)
      && !(out[t][i].step + "/" <= out[t][j].step)
  }

  /** The type that a simple walk w leads to has two equal edges, to a type not
      yet on the walk. */
  ghost predicate MeetsTwins(out: Out, root: TypeId, w: Walk, i: nat, j: nat) {
    var t := End(out, root, w);
    && IsSimpleWalk(out, root, w)
    && t in out && i < j < |out[t]| && out[t][i] == out[t][j]
    && out[t][i].target !in TypesOn(out, root, w)
  }

  // ---------------------------------------------------------------------
  // Walks and their parts
  // ---------------------------------------------------------------------

  lemma {:induction false} RenderFirst(s: string, path: seq<string>)
    ensures Render([s] + path) == "/" + s + Render(path)
  {
    if path == [] {
      assert [s] + path == [s];
    } else {
      var n := |path| - 1;
      assert ([s] + path)[..|path|] == [s] + path[..n];
      RenderFirst(s, path[..n]);
    }
  }

  lemma {:induction false} RenderShape(path: seq<string>)
    ensures Render(path) == [] <==> path == []
    ensures path != [] ==> Render(path)[0] == '/'
  {
    if path == [] {
    } else {
      assert path == [path[0]] + path[1..];
      RenderFirst(path[0], path[1..]);
    }
  }

  /** A walk with one more edge. */
  lemma {:induction false} OneMoreEdge(out: Out, t: TypeId, w: Walk, i: nat)
    requires t in out && IsWalk(out, t, w)
    requires End(out, t, w) in out && i < |out[End(out, t, w)]|
    ensures IsWalk(out, t, w + [i])
    ensures End(out, t, w + [i]) == out[End(out, t, w)][i].target
    ensures Steps(out, t, w + [i]) == Steps(out, t, w) + [out[End(out, t, w)][i].step]
    decreases w
  {
    if w == [] {
      assert (w + [i])[1..] == [];
    } else {
      assert (w + [i])[1..] == w[1..] + [i];
      OneMoreEdge(out, First(out, t, w).target, w[1..], i);
    }
  }

  lemma {:induction false} OneMoreType(out: Out, t: TypeId, w: Walk, i: nat)
    requires t in out && IsWalk(out, t, w)
    requires End(out, t, w) in out && i < |out[End(out, t, w)]|
    ensures TypesOn(out, t, w + [i]) == TypesOn(out, t, w) + [out[End(out, t, w)][i].target]
    decreases w
  {
    if w == [] {
      assert (w + [i])[1..] == [];
    } else {
      assert (w + [i])[1..] == w[1..] + [i];
      OneMoreType(out, First(out, t, w).target, w[1..], i);
    }
  }

  lemma {:induction false} WalkPart(out: Out, t: TypeId, w: Walk, k: nat)
    requires t in out && IsWalk(out, t, w) && k <= |w|
    ensures |TypesOn(out, t, w)| == |w| + 1
    ensures IsWalk(out, t, w[..k]) && End(out, t, w[..k]) in out
    ensures TypesOn(out, t, w[..k]) == TypesOn(out, t, w)[..k + 1]
    ensures k < |w| ==> w[k] < |out[End(out, t, w[..k])]|
    ensures k < |w| ==> TypesOn(out, t, w)[k + 1] == out[End(out, t, w[..k])][w[k]].target
    decreases w
  {
    if w == [] {
    } else if k == 0 {
      WalkPart(out, First(out, t, w).target, w[1..], 0);
      assert w[..0] == [];
    } else {
      WalkPart(out, First(out, t, w).target, w[1..], k - 1);
      assert w[..k][1..] == w[1..][..k - 1];
    }
  }

  // ---------------------------------------------------------------------
  // Equal records
  // ---------------------------------------------------------------------

  /** A step that a longer one starts like, followed by more of the path. */
  lemma LongerStep(a: string, rest: string, b: string)
    requires b <= a + rest && (rest == [] || rest[0] == '/')
    ensures |a| < |b| ==> a + "/" <= b
  {
    var whole := a + rest;
    if |a| < |b| {
      assert whole[|a|] == rest[0];
      assert b[..|a| + 1] == whole[..|a| + 1] == a + "/";
    }
  }

  /** Steps that tell apart and start the same path are the same step. */
  lemma SameStep(a: string, restA: string, b: string, restB: string)
    requires "/" + a + restA == "/" + b + restB
    requires restA == [] || restA[0] == '/'
    requires restB == [] || restB[0] == '/'
    requires !(a + "/" <= b) && !(b + "/" <= a)
    ensures a == b && restA == restB
  {
    assert ("/" + a + restA)[1..] == a + restA && ("/" + b + restB)[1..] == b + restB;
    LongerStep(a, restA, b);
    LongerStep(b, restB, a);
    assert (a + restA)[..|a|] == a && (b + restB)[..|b|] == b;
    assert (a + restA)[|a|..] == restA && (b + restB)[|b|..] == restB;
  }

  lemma SameFirstStep(a: string, restA: seq<string>, b: string, restB: seq<string>)
    requires Render([a] + restA) == Render([b] + restB)
    requires !(a + "/" <= b) && !(b + "/" <= a)
    ensures a == b && Render(restA) == Render(restB)
  {
    RenderFirst(a, restA);
    RenderFirst(b, restB);
    RenderShape(restA);
    RenderShape(restB);
    SameStep(a, Render(restA), b, Render(restB));
  }

  /** Where two walks with the same path part, they take equal edges. */
  lemma {:induction false} PartingEdges(out: Out, t: TypeId, v: Walk, w: Walk) returns (k: nat)
    requires StepsTellApart(out) && t in out && IsWalk(out, t, v) && IsWalk(out, t, w) && v != w
    requires Render(Steps(out, t, v)) == Render(Steps(out, t, w))
    ensures k < |v| && k < |w| && v[..k] == w[..k] && v[k] != w[k]
    ensures var p := End(out, t, v[..k]);
      p in out && v[k] < |out[p]| && w[k] < |out[p]| && out[p][v[k]] == out[p][w[k]]
    decreases v
  {
    RenderShape(Steps(out, t, v));
    RenderShape(Steps(out, t, w));
    assert v != [] && w != [];
    var e, f := First(out, t, v), First(out, t, w);
    SameFirstStep(e.step, Steps(out, e.target, v[1..]), f.step, Steps(out, f.target, w[1..]));
    if v[0] == w[0] {
      assert v == [v[0]] + v[1..] && w == [w[0]] + w[1..];
      var n := PartingEdges(out, e.target, v[1..], w[1..]);
      k := n + 1;
      assert v[..k] == [v[0]] + v[1..][..n] && w[..k] == [w[0]] + w[1..][..n];
      assert v[..k][1..] == v[1..][..n];
    } else {
      k := 0;
      assert v[..0] == [];
    }
  }

  /** Two simple walks with the same record come upon twin edges. */
  lemma TwinsBehindRecords(out: Out, root: TypeId, v: Walk, w: Walk) returns (p: Walk, i: nat, j: nat)
    requires StepsTellApart(out) && root in out && v != w
    requires IsSimpleWalk(out, root, v) && IsSimpleWalk(out, root, w)
    requires RecordOf(out, root, [], v) == RecordOf(out, root, [], w)
    ensures MeetsTwins(out, root, p, i, j)
  {
    assert [] + Steps(out, root, v) == Steps(out, root, v);
    assert [] + Steps(out, root, w) == Steps(out, root, w);
    var k := PartingEdges(out, root, v, w);
    p := v[..k];
    i, j := if v[k] < w[k] then v[k] else w[k], if v[k] < w[k] then w[k] else v[k];
    WalkPart(out, root, v, k);
    var types := TypesOn(out, root, v);
    assert Distinct(types[..k + 1]);
    assert types[k + 1] !in types[..k + 1];
  }

  /** Twin edges give two simple walks with the same record. */
  lemma TwinsRepeatRecord(out: Out, root: TypeId, w: Walk, i: nat, j: nat)
    requires root in out && MeetsTwins(out, root, w, i, j)
    ensures w + [i] != w + [j]
    ensures IsSimpleWalk(out, root, w + [i]) && IsSimpleWalk(out, root, w + [j])
    ensures RecordOf(out, root, [], w + [i]) == RecordOf(out, root, [], w + [j])
  {
    OneMoreEdge(out, root, w, i);
    OneMoreEdge(out, root, w, j);
    OneMoreType(out, root, w, i);
    OneMoreType(out, root, w, j);
    assert (w + [i])[|w|] != (w + [j])[|w|];
  }

  /** Where the record of a simple walk is. */
  lemma RecordIndex(out: Out, root: TypeId, w: Walk) returns (k: nat)
    requires root in out && IsSimpleWalk(out, root, w)
    ensures k < |Walks(out, root, [])| && Walks(out, root, [])[k] == w
    ensures k < |Records(out, root, [], [])| && Records(out, root, [], [])[k] == RecordOf(out, root, [], w)
  {
    OneRecordPerSimpleWalk(out, root);
    assert w in Walks(out, root, []);
    k :| 0 <= k < |Walks(out, root, [])| && Walks(out, root, [])[k] == w;
  }

  /** Twin edges on a simple walk make the gathered records repeat, whatever the
      steps are called. */
  lemma TwinsRepeat(out: Out, root: TypeId, w: Walk, i: nat, j: nat)
    requires root in out && MeetsTwins(out, root, w, i, j)
    ensures !Distinct(Records(out, root, [], []))
  {
    TwinsRepeatRecord(out, root, w, i, j);
    var a := RecordIndex(out, root, w + [i]);
    var b := RecordIndex(out, root, w + [j]);
    assert a != b;
  }

  /** Where steps tell apart, all records gathered from a root differ exactly when
      no simple walk comes upon two equal edges to a type not yet on it. */
  lemma RecordsDistinctExactly(out: Out, root: TypeId)
    requires StepsTellApart(out) && root in out
    ensures Distinct(Records(out, root, [], [])) <==>
      !exists w: Walk, i: nat, j: nat :: MeetsTwins(out, root, w, i, j)
  {
    if w: Walk, i: nat, j: nat :| MeetsTwins(out, root, w, i, j) {
      TwinsRepeat(out, root, w, i, j);
    } else {
      OneRecordPerSimpleWalk(out, root);
      var ws, records := Walks(out, root, []), Records(out, root, [], []);
      forall a, b | 0 <= a < b < |records| ensures records[a] != records[b] {
        assert ws[a] in ws && ws[b] in ws;
        if records[a] == records[b] {
          var w, i, j := TwinsBehindRecords(out, root, ws[a], ws[b]);
          assert false;
        }
      }
    }
  }

  function TwiceAggregated(): Graph {
    Graph(Registry([0, 1], map[0 := "A", 1 := "B"], map[], map[], 2), [(0, 1), (0, 1)])
  }

  lemma TwoEdges()
    ensures TwiceAggregated().Edges(0) == [Edge("$B", 1), Edge("$B", 1)]
  {
    var g := TwiceAggregated();
    assert "$" + "B" == "$B";
    assert g.ChildEdges(0, 1) == [];
    assert g.ChildEdges(0, 2) == [];
    assert g.AggregateEdges(0, 1) == [Edge("$B", 1)];
    assert g.AggregateEdges(0, 2) == [Edge("$B", 1), Edge("$B", 1)];
  }

  /** An aggregation recorded twice: the other type is gathered twice, with the
      same path. */
  lemma AggregatedTwice()
    ensures var g := TwiceAggregated();
      g.Valid() && Closed(g.EdgeTable()) && !Distinct(Records(g.EdgeTable(), 0, [], []))
  {
    var g := TwiceAggregated();
    g.TableClosed();
    TwoEdges();
    var out: Out := g.EdgeTable();
    assert 0 in g.types.registered;
    assert out[0] == g.Edges(0);
    assert End(out, 0, []) == 0 && TypesOn(out, 0, []) == [0];
    TwinsRepeat(out, 0, [], 0, 1);
  }
}
