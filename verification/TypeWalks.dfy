/** Depth-first walks over a finite labelled graph that may contain cycles: the
    walk that utils/print-introspected-doxygen.cc performs, without the program. */
module TypeWalks {
  import opened Selection

  type TypeId = nat

  datatype Edge = Edge(step: string, target: TypeId)

  /** The edges out of every type, in the order in which they are followed. */
  type Table = map<TypeId, seq<Edge>>

  predicate Closed(out: Table) {
    forall t, i :: t in out && 0 <= i < |out[t]| ==> out[t][i].target in out
  }

  /** Every edge leads to a type of the table. */
  type Out = out: Table | Closed(out) witness map[]

  // ---------------------------------------------------------------------
  // Walks
  // ---------------------------------------------------------------------

  /** A walk is given by the positions of its edges among those of each type. */
  type Walk = seq<nat>

  /** The walk leaves t by one of its edges. */
  predicate Leaves(out: Out, t: TypeId, w: Walk) {
    w != [] && t in out && w[0] < |out[t]|
  }

  function First(out: Out, t: TypeId, w: Walk): Edge
    requires Leaves(out, t, w)
  {
    out[t][w[0]]
  }

  predicate IsWalk(out: Out, t: TypeId, w: Walk)
    decreases w
  {
    w == [] || (Leaves(out, t, w) && IsWalk(out, First(out, t, w).target, w[1..]))
  }

  function TypesOn(out: Out, t: TypeId, w: Walk): (ts: seq<TypeId>)
    ensures ts != [] && ts[0] == t
    decreases w
  {
    if Leaves(out, t, w) then [t] + TypesOn(out, First(out, t, w).target, w[1..]) else [t]
  }

  function Steps(out: Out, t: TypeId, w: Walk): seq<string>
    decreases w
  {
    if Leaves(out, t, w) then [First(out, t, w).step] + Steps(out, First(out, t, w).target, w[1..]) else []
  }

  function End(out: Out, t: TypeId, w: Walk): TypeId
    decreases w
  {
    if Leaves(out, t, w) then End(out, First(out, t, w).target, w[1..]) else t
  }

  /** No type occurs twice on the walk. */
  ghost predicate IsSimpleWalk(out: Out, t: TypeId, w: Walk) {
    IsWalk(out, t, w) && Distinct(TypesOn(out, t, w))
  }

  /** The configuration path: every step with a slash before it. */
  function Render(path: seq<string>): string {
    if path == [] then "" else Render(path[..|path| - 1]) + "/" + path[|path| - 1]
  }

  type Record = (TypeId, string)

  /** The record of a walk that continues a path already taken. */
  function RecordOf(out: Out, t: TypeId, path: seq<string>, w: Walk): Record {
    (End(out, t, w), Render(path + Steps(out, t, w)))
  }

  // ---------------------------------------------------------------------
  // The records a walk appends
  // ---------------------------------------------------------------------

  function UnvisitedTypes(out: Out, visited: seq<TypeId>): set<TypeId> {
    set t | t in out && t !in visited
  }

  function Unvisited(out: Out, visited: seq<TypeId>): nat {
    |UnvisitedTypes(out, visited)|
  }

  lemma UnvisitedDrops(out: Out, visited: seq<TypeId>, t: TypeId)
    requires t in out && t !in visited
    ensures Unvisited(out, visited + [t]) < Unvisited(out, visited)
  {
    assert UnvisitedTypes(out, visited + [t]) == UnvisitedTypes(out, visited) - {t};
  }

  /** The records from t on, given the path to t and the types on it. */
  ghost function Records(out: Out, t: TypeId, path: seq<string>, visited: seq<TypeId>): seq<Record>
    decreases Unvisited(out, visited), 1, 0
  {
    if t in visited || t !in out then []
    else [(t, Render(path))] + RecordsOver(out, out[t], t, path, visited)
  }

  /** The records behind some of the edges of t. */
  ghost function RecordsOver(out: Out, edges: seq<Edge>, t: TypeId, path: seq<string>, visited: seq<TypeId>)
    : seq<Record>
    decreases Unvisited(out, visited), 0, |edges|
  {
    if edges == [] || t in visited || t !in out then []
    else
      var last := edges[|edges| - 1];
      UnvisitedDrops(out, visited, t);
      RecordsOver(out, edges[..|edges| - 1], t, path, visited)
      + Records(out, last.target, path + [last.step], visited + [t])
  }

  lemma {:induction false} RecordsOverAppend(out: Out, a: seq<Edge>, b: seq<Edge>, t: TypeId, path: seq<string>,
                                             visited: seq<TypeId>)
    ensures RecordsOver(out, a + b, t, path, visited)
         == RecordsOver(out, a, t, path, visited) + RecordsOver(out, b, t, path, visited)
    decreases |b|
  {
    if b == [] {
      assert a + b == a;
    } else {
      var n := |b| - 1;
      assert (a + b)[..|a + b| - 1] == a + b[..n];
      RecordsOverAppend(out, a, b[..n], t, path, visited);
    }
  }

  /** The records of a type, with its edges in three parts. */
  lemma RecordsInParts(out: Out, a: seq<Edge>, b: seq<Edge>, c: seq<Edge>, t: TypeId,
                       path: seq<string>, visited: seq<TypeId>, start: seq<Record>)
    requires t in out && t !in visited && out[t] == a + b + c
    ensures start + Records(out, t, path, visited)
         == start + [(t, Render(path))] + RecordsOver(out, a, t, path, visited)
            + RecordsOver(out, b, t, path, visited) + RecordsOver(out, c, t, path, visited)
  {
    RecordsOverAppend(out, a, b, t, path, visited);
    RecordsOverAppend(out, a + b, c, t, path, visited);
    Reassociate(start, [(t, Render(path))], RecordsOver(out, a, t, path, visited),
                RecordsOver(out, b, t, path, visited), RecordsOver(out, c, t, path, visited));
  }

  lemma Reassociate<T>(s: seq<T>, h: seq<T>, a: seq<T>, b: seq<T>, c: seq<T>)
    ensures s + (h + (a + b + c)) == s + h + a + b + c
  {
  }

  // ---------------------------------------------------------------------
  // The enumeration of simple walks
  // ---------------------------------------------------------------------

  /** The walks from t that avoid visited and every type they passed, in
      depth-first order. */
  ghost function Walks(out: Out, t: TypeId, visited: seq<TypeId>): seq<Walk>
    requires t in out
    decreases Unvisited(out, visited), 1, 0
  {
    if t in visited then [] else [[]] + WalksOver(out, |out[t]|, t, visited)
  }

  ghost function WalksOver(out: Out, n: nat, t: TypeId, visited: seq<TypeId>): seq<Walk>
    requires t in out && t !in visited && n <= |out[t]|
    decreases Unvisited(out, visited), 0, n
  {
    if n == 0 then []
    else
      UnvisitedDrops(out, visited, t);
      WalksOver(out, n - 1, t, visited)
      + Prefixed(n - 1, Walks(out, out[t][n - 1].target, visited + [t]))
  }

  ghost function Prefixed(i: nat, ws: seq<Walk>): seq<Walk> {
    seq(|ws|, k requires 0 <= k < |ws| => [i] + ws[k])
  }

  /** A walk avoiding the visited types, step by step. */
  ghost predicate Avoiding(out: Out, t: TypeId, visited: seq<TypeId>, w: Walk)
    decreases w
  {
    && t !in visited
    && (w == [] || (Leaves(out, t, w) && Avoiding(out, First(out, t, w).target, visited + [t], w[1..])))
  }

  /** Avoiding what was visited and passed is having no repeated type. */
  lemma {:induction false} AvoidingIsSimple(out: Out, t: TypeId, visited: seq<TypeId>, w: Walk)
    requires Distinct(visited)
    ensures Avoiding(out, t, visited, w) <==> IsWalk(out, t, w) && Distinct(visited + TypesOn(out, t, w))
    decreases w
  {
    if t in visited {
      RepeatedType(visited, TypesOn(out, t, w));
    } else if Leaves(out, t, w) {
      AppendDistinct(visited, t);
      AvoidingIsSimple(out, First(out, t, w).target, visited + [t], w[1..]);
      TypesAfter(out, t, visited, w);
    } else {
      AppendDistinct(visited, t);
    }
  }

  lemma TypesAfter(out: Out, t: TypeId, visited: seq<TypeId>, w: Walk)
    requires Leaves(out, t, w)
    ensures visited + TypesOn(out, t, w) == visited + [t] + TypesOn(out, First(out, t, w).target, w[1..])
  {
  }

  lemma RepeatedType(a: seq<TypeId>, b: seq<TypeId>)
    requires b != [] && b[0] in a
    ensures !Distinct(a + b)
  {
    var i :| 0 <= i < |a| && a[i] == b[0];
    assert (a + b)[i] == (a + b)[|a|];
  }

  lemma AppendDistinct(a: seq<TypeId>, t: TypeId)
    requires Distinct(a) && t !in a
    ensures Distinct(a + [t])
  {
  }

  /** The enumeration contains exactly the walks wanted. */
  lemma {:induction false} WalksComplete(out: Out, t: TypeId, visited: seq<TypeId>, w: Walk)
    requires t in out
    ensures w in Walks(out, t, visited) <==> Avoiding(out, t, visited, w)
    decreases Unvisited(out, visited), 1, 0
  {
    if t in visited {
    } else {
      WalksOverComplete(out, |out[t]|, t, visited, w);
      var over := WalksOver(out, |out[t]|, t, visited);
      assert w in Walks(out, t, visited) <==> w == [] || w in over;
    }
  }

  lemma {:induction false} WalksOverComplete(out: Out, n: nat, t: TypeId, visited: seq<TypeId>, w: Walk)
    requires t in out && t !in visited && n <= |out[t]|
    ensures w in WalksOver(out, n, t, visited) <==> w != [] && w[0] < n && Avoiding(out, t, visited, w)
    decreases Unvisited(out, visited), 0, n
  {
    if n == 0 {
    } else {
      UnvisitedDrops(out, visited, t);
      var ws := Walks(out, out[t][n - 1].target, visited + [t]);
      WalksOverComplete(out, n - 1, t, visited, w);
      PrefixedMembers(n - 1, ws, w);
      if w != [] && w[0] == n - 1 {
        WalksComplete(out, out[t][n - 1].target, visited + [t], w[1..]);
      }
    }
  }

  lemma PrefixedMembers(i: nat, ws: seq<Walk>, w: Walk)
    ensures w in Prefixed(i, ws) <==> w != [] && w[0] == i && w[1..] in ws
  {
    if w in Prefixed(i, ws) {
      var k :| 0 <= k < |ws| && Prefixed(i, ws)[k] == w;
      assert w[1..] == ws[k];
    }
    if w != [] && w[0] == i && w[1..] in ws {
      var k :| 0 <= k < |ws| && ws[k] == w[1..];
      assert Prefixed(i, ws)[k] == [i] + ws[k] == w;
    }
  }

  /** No walk is enumerated twice. */
  lemma {:induction false} WalksDistinct(out: Out, t: TypeId, visited: seq<TypeId>)
    requires t in out
    ensures Distinct(Walks(out, t, visited))
    decreases Unvisited(out, visited), 1, 0
  {
    if t in visited {
    } else {
      WalksOverDistinct(out, |out[t]|, t, visited);
      WalksOverComplete(out, |out[t]|, t, visited, []);
    }
  }

  lemma {:induction false} WalksOverDistinct(out: Out, n: nat, t: TypeId, visited: seq<TypeId>)
    requires t in out && t !in visited && n <= |out[t]|
    ensures Distinct(WalksOver(out, n, t, visited))
    decreases Unvisited(out, visited), 0, n
  {
    if n == 0 {
    } else {
      UnvisitedDrops(out, visited, t);
      var before := WalksOver(out, n - 1, t, visited);
      var ws := Walks(out, out[t][n - 1].target, visited + [t]);
      WalksOverDistinct(out, n - 1, t, visited);
      WalksDistinct(out, out[t][n - 1].target, visited + [t]);
      PrefixedDistinct(n - 1, ws);
      forall w | w in before ensures w !in Prefixed(n - 1, ws) {
        WalksOverComplete(out, n - 1, t, visited, w);
        PrefixedMembers(n - 1, ws, w);
      }
      DisjointDistinct(before, Prefixed(n - 1, ws));
    }
  }

  lemma PrefixedDistinct(i: nat, ws: seq<Walk>)
    requires Distinct(ws)
    ensures Distinct(Prefixed(i, ws))
  {
    forall j, k | 0 <= j < k < |ws| ensures Prefixed(i, ws)[j] != Prefixed(i, ws)[k] {
      assert ([i] + ws[j])[1..] == ws[j] && ([i] + ws[k])[1..] == ws[k];
    }
  }

  lemma DisjointDistinct<T>(a: seq<T>, b: seq<T>)
    requires Distinct(a) && Distinct(b) && forall x :: x in a ==> x !in b
    ensures Distinct(a + b)
  {
    forall i, j | 0 <= i < j < |a + b| ensures (a + b)[i] != (a + b)[j] {
      if i < |a| <= j {
        assert a[i] in a && b[j - |a|] in b;
      }
    }
  }

  /** Depth first: a walk comes before those that go on from it, and these come in
      the order of the edges. */
  predicate Before(v: Walk, w: Walk)
    decreases v
  {
    w != [] && (v == [] || v[0] < w[0] || (v[0] == w[0] && Before(v[1..], w[1..])))
  }

  ghost predicate DepthFirst(ws: seq<Walk>) {
    forall a, b :: 0 <= a < b < |ws| ==> Before(ws[a], ws[b])
  }

  lemma {:induction false} WalksDepthFirst(out: Out, t: TypeId, visited: seq<TypeId>)
    requires t in out
    ensures DepthFirst(Walks(out, t, visited))
    decreases Unvisited(out, visited), 1, 0
  {
    if t in visited {
    } else {
      WalksOverDepthFirst(out, |out[t]|, t, visited);
      forall w | w in WalksOver(out, |out[t]|, t, visited) ensures Before([], w) {
        WalksOverComplete(out, |out[t]|, t, visited, w);
      }
      DepthFirstAppend([[]], WalksOver(out, |out[t]|, t, visited));
    }
  }

  lemma {:induction false} WalksOverDepthFirst(out: Out, n: nat, t: TypeId, visited: seq<TypeId>)
    requires t in out && t !in visited && n <= |out[t]|
    ensures DepthFirst(WalksOver(out, n, t, visited))
    decreases Unvisited(out, visited), 0, n
  {
    if n == 0 {
    } else {
      UnvisitedDrops(out, visited, t);
      var before := WalksOver(out, n - 1, t, visited);
      var ws := Walks(out, out[t][n - 1].target, visited + [t]);
      WalksOverDepthFirst(out, n - 1, t, visited);
      WalksDepthFirst(out, out[t][n - 1].target, visited + [t]);
      PrefixedDepthFirst(n - 1, ws);
      forall v, w | v in before && w in Prefixed(n - 1, ws) ensures Before(v, w) {
        WalksOverComplete(out, n - 1, t, visited, v);
        PrefixedMembers(n - 1, ws, w);
      }
      DepthFirstAppend(before, Prefixed(n - 1, ws));
    }
  }

  lemma PrefixedDepthFirst(i: nat, ws: seq<Walk>)
    requires DepthFirst(ws)
    ensures DepthFirst(Prefixed(i, ws))
  {
    forall j, k | 0 <= j < k < |ws| ensures Before(Prefixed(i, ws)[j], Prefixed(i, ws)[k]) {
      assert ([i] + ws[j])[1..] == ws[j] && ([i] + ws[k])[1..] == ws[k];
    }
  }

  lemma DepthFirstAppend(a: seq<Walk>, b: seq<Walk>)
    requires DepthFirst(a) && DepthFirst(b) && forall v, w :: v in a && w in b ==> Before(v, w)
    ensures DepthFirst(a + b)
  {
    forall i, j | 0 <= i < j < |a + b| ensures Before((a + b)[i], (a + b)[j]) {
      if i < |a| <= j {
        assert a[i] in a && b[j - |a|] in b;
      }
    }
  }

  // ---------------------------------------------------------------------
  // One record per simple walk
  // ---------------------------------------------------------------------

  ghost function RecordsOfWalks(out: Out, t: TypeId, path: seq<string>, ws: seq<Walk>): seq<Record> {
    seq(|ws|, k requires 0 <= k < |ws| => RecordOf(out, t, path, ws[k]))
  }

  lemma RecordsOfWalksAppend(out: Out, t: TypeId, path: seq<string>, a: seq<Walk>, b: seq<Walk>)
    ensures RecordsOfWalks(out, t, path, a + b) == RecordsOfWalks(out, t, path, a) + RecordsOfWalks(out, t, path, b)
  {
  }

  lemma {:induction false} RecordsFollowWalks(out: Out, t: TypeId, path: seq<string>, visited: seq<TypeId>)
    requires t in out
    ensures Records(out, t, path, visited) == RecordsOfWalks(out, t, path, Walks(out, t, visited))
    decreases Unvisited(out, visited), 1, 0
  {
    if t in visited {
    } else {
      var n := |out[t]|;
      RecordsOverFollowWalks(out, n, t, path, visited);
      assert out[t][..n] == out[t];
      RecordsOfWalksAppend(out, t, path, [[]], WalksOver(out, n, t, visited));
      assert path + Steps(out, t, []) == path;
      assert RecordsOfWalks(out, t, path, [[]]) == [(t, Render(path))];
    }
  }

  lemma {:induction false} RecordsOverFollowWalks(out: Out, n: nat, t: TypeId, path: seq<string>, visited: seq<TypeId>)
    requires t in out && t !in visited && n <= |out[t]|
    ensures RecordsOver(out, out[t][..n], t, path, visited)
         == RecordsOfWalks(out, t, path, WalksOver(out, n, t, visited))
    decreases Unvisited(out, visited), 0, n
  {
    if n == 0 {
    } else {
      var e := out[t][n - 1];
      UnvisitedDrops(out, visited, t);
      RecordsOverFollowWalks(out, n - 1, t, path, visited);
      RecordsFollowWalks(out, e.target, path + [e.step], visited + [t]);
      assert out[t][..n][..n - 1] == out[t][..n - 1];
      var ws := Walks(out, e.target, visited + [t]);
      PrefixedRecords(out, t, path, n - 1, ws);
      RecordsOfWalksAppend(out, t, path, WalksOver(out, n - 1, t, visited), Prefixed(n - 1, ws));
    }
  }

  /** Walks that take edge i first have the records of their remainders. */
  lemma PrefixedRecords(out: Out, t: TypeId, path: seq<string>, i: nat, ws: seq<Walk>)
    requires t in out && i < |out[t]|
    ensures RecordsOfWalks(out, t, path, Prefixed(i, ws))
         == RecordsOfWalks(out, out[t][i].target, path + [out[t][i].step], ws)
  {
    var e := out[t][i];
    forall k | 0 <= k < |ws|
      ensures RecordOf(out, t, path, Prefixed(i, ws)[k]) == RecordOf(out, e.target, path + [e.step], ws[k])
    {
      var w := [i] + ws[k];
      assert w[1..] == ws[k];
      assert path + Steps(out, t, w) == path + [e.step] + Steps(out, e.target, ws[k]);
    }
  }

  /** The type at the end of an edge of the root, other than the root, is recorded
      with the step of the edge. */
  lemma DirectRecord(out: Out, root: TypeId, e: Edge)
    requires root in out && e in out[root] && e.target != root
    ensures (e.target, "/" + e.step) in Records(out, root, [], [])
  {
    OneRecordPerSimpleWalk(out, root);
    var ws := Walks(out, root, []);
    var i :| 0 <= i < |out[root]| && out[root][i] == e;
    var w := [i];
    assert w[1..] == [];
    assert TypesOn(out, root, w) == [root, e.target];
    assert IsSimpleWalk(out, root, w);
    var k :| 0 <= k < |ws| && ws[k] == w;
    var none: seq<string> := [];
    assert none + Steps(out, root, w) == [e.step];
    assert End(out, root, w) == e.target;
    assert Render([e.step]) == Render([e.step][..0]) + "/" + e.step;
    assert [e.step][..0] == none;
    assert Render([e.step]) == "/" + e.step;
    assert RecordOf(out, root, [], w) == (e.target, "/" + e.step);
    assert Records(out, root, [], [])[k] == RecordOf(out, root, [], ws[k]);
  }

  /** From a root, the records correspond one to one to the walks on which no
      type occurs twice, in depth-first order. */
  lemma OneRecordPerSimpleWalk(out: Out, root: TypeId)
    requires root in out
    ensures var ws := Walks(out, root, []);
      && Distinct(ws) && DepthFirst(ws)
      && (forall w :: w in ws <==> IsSimpleWalk(out, root, w))
      && Records(out, root, [], []) == RecordsOfWalks(out, root, [], ws)
  {
    WalksDistinct(out, root, []);
    WalksDepthFirst(out, root, []);
    RecordsFollowWalks(out, root, [], []);
    forall w
      ensures w in Walks(out, root, []) <==> IsSimpleWalk(out, root, w)
    {
      WalksComplete(out, root, [], w);
      AvoidingIsSimple(out, root, [], w);
      assert [] + TypesOn(out, root, w) == TypesOn(out, root, w);
    }
  }
}
