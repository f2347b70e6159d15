/**
 The circular-import detector of the architecture linter: a depth-first search that colours
 modules white (0), grey (1, on the current path) and black (2, finished), and records one
 cycle for every edge that leads back to a grey module.
 */
module ImportGraph {
  import opened Orders

  type Graph<!M> = map<M, set<M>>

  function Successors<M>(g: Graph<M>, u: M): set<M> {
    if u in g then g[u] else {}
  }

  ghost predicate Edge<M>(g: Graph<M>, u: M, v: M) {
    v in Successors(g, u)
  }

  ghost predicate Walk<M(!new)>(g: Graph<M>, p: seq<M>) {
    forall i, j :: 0 <= i && j == i + 1 < |p| ==> Edge(g, p[i], p[j])
  }

  /** A walk with at least one edge that ends where it starts. */
  ghost predicate ClosedWalk<M(!new)>(g: Graph<M>, p: seq<M>) {
    |p| >= 2 && p[0] == p[|p| - 1] && Walk(g, p)
  }

  /** A closed walk that visits no module twice before closing. */
  ghost predicate SimpleCycle<M(!new)>(g: Graph<M>, c: seq<M>) {
    ClosedWalk(g, c) && Distinct(c[..|c| - 1])
  }

  ghost predicate Acyclic<M(!new)>(g: Graph<M>) {
    forall p :: !ClosedWalk(g, p)
  }

  /** The last edge of a reported cycle: the back edge that made the search report it. */
  function Closing<M>(c: seq<M>): (M, M)
    requires |c| >= 2
  {
    (c[|c| - 2], c[|c| - 1])
  }

  ghost predicate Reported<M(!new)>(cycles: seq<seq<M>>, u: M, v: M) {
    exists i :: 0 <= i < |cycles| && |cycles[i]| >= 2 && Closing(cycles[i]) == (u, v)
  }

  /** Only cycles of the graph are reported, and no closing edge is reported twice. */
  ghost predicate Genuine<M(!new)>(g: Graph<M>, cycles: seq<seq<M>>) {
    && (forall i :: 0 <= i < |cycles| ==> SimpleCycle(g, cycles[i]))
    && (forall i, j :: 0 <= i < j < |cycles| ==> Closing(cycles[i]) != Closing(cycles[j]))
  }

  ghost predicate Injective<M(!new)>(m: map<M, nat>) {
    forall u, v :: u in m && v in m && m[u] == m[v] ==> u == v
  }

  /**
   What a completed search establishes; `finish` numbers the searched modules in the order in
   which they turned black.  Every edge out of a searched module leads to a searched module, and
   the reported edges are exactly those whose target did not turn black before their source.
   */
  ghost predicate SearchResult<M(!new)>(g: Graph<M>, finish: map<M, nat>, cycles: seq<seq<M>>) {
    && Genuine(g, cycles)
    && Injective(finish)
    && (forall u, v :: u in finish && Edge(g, u, v) ==>
          v in finish && (Reported(cycles, u, v) <==> finish[u] <= finish[v]))
  }

  // ----- What a completed search says about the graph -----

  /** Along edges that were not reported, finishing numbers fall. */
  lemma {:induction false} UnreportedWalkDescends<M(!new)>(
    g: Graph<M>, finish: map<M, nat>, cycles: seq<seq<M>>, p: seq<M>)
    requires SearchResult(g, finish, cycles) && |p| >= 2 && Walk(g, p) && p[0] in finish
    requires forall i, j :: 0 <= i && j == i + 1 < |p| ==> !Reported(cycles, p[i], p[j])
    ensures p[|p| - 1] in finish && finish[p[|p| - 1]] < finish[p[0]]
  {
    assert Edge(g, p[0], p[1]);
    if |p| > 2 {
      UnreportedWalkDescends(g, finish, cycles, p[1..]);
    }
  }

  /** The reported closing edges meet every closed walk: removing them leaves no cycle at all. */
  lemma ClosedWalkMeetsReport<M(!new)>(
    g: Graph<M>, finish: map<M, nat>, cycles: seq<seq<M>>, p: seq<M>)
    requires SearchResult(g, finish, cycles) && ClosedWalk(g, p) && g.Keys <= finish.Keys
    ensures exists i, j :: 0 <= i && j == i + 1 < |p| && Reported(cycles, p[i], p[j])
  {
    assert Edge(g, p[0], p[1]);
    if forall i, j :: 0 <= i && j == i + 1 < |p| ==> !Reported(cycles, p[i], p[j]) {
      UnreportedWalkDescends(g, finish, cycles, p);
      assert false;
    }
  }

  lemma EmptyIffAcyclic<M(!new)>(g: Graph<M>, finish: map<M, nat>, cycles: seq<seq<M>>)
    requires SearchResult(g, finish, cycles) && g.Keys <= finish.Keys
    ensures cycles == [] <==> Acyclic(g)
  {
    if cycles == [] {
      forall p ensures !ClosedWalk(g, p) {
        if ClosedWalk(g, p) { ClosedWalkMeetsReport(g, finish, cycles, p); }
      }
    } else {
      assert ClosedWalk(g, cycles[0]);
    }
  }

  // ----- The search forest -----

  /** The search entered `v` from `u`. */
  ghost predicate TreeEdge<M>(parent: map<M, M>, u: M, v: M) {
    v in parent && parent[v] == u
  }

  ghost predicate TreePath<M(!new)>(parent: map<M, M>, p: seq<M>) {
    forall i, j :: 0 <= i && j == i + 1 < |p| ==> TreeEdge(parent, p[i], p[j])
  }

  /** A reported cycle runs down the search forest and closes with its last edge. */
  ghost predicate TreeCycles<M(!new)>(parent: map<M, M>, cycles: seq<seq<M>>) {
    forall k :: 0 <= k < |cycles| && |cycles[k]| >= 2 ==> TreePath(parent, cycles[k][..|cycles[k]| - 1])
  }

  /** Modules are entered from modules that finish later. */
  ghost predicate SearchForest<M(!new)>(finish: map<M, nat>, parent: map<M, M>, cycles: seq<seq<M>>) {
    && (forall v :: v in parent ==> v in finish && parent[v] in finish && finish[v] < finish[parent[v]])
    && TreeCycles(parent, cycles)
  }

  // ----- How much the report leaves out -----

  ghost function Edges<M>(c: seq<M>): set<(M, M)> {
    if |c| < 2 then {} else {(c[0], c[1])} + Edges(c[1..])
  }

  /** A cycle is listed, possibly starting from another of its modules. */
  ghost predicate Lists<M>(cycles: seq<seq<M>>, c: seq<M>) {
    exists i :: 0 <= i < |cycles| && Edges(cycles[i]) == Edges(c)
  }

  lemma {:induction false} StepIsEdge<M>(c: seq<M>, i: nat)
    requires i + 1 < |c|
    ensures (c[i], c[i + 1]) in Edges(c)
  {
    if i > 0 { StepIsEdge(c[1..], i - 1); }
  }

  lemma SharesEdgeWithReport<M(!new)>(
    g: Graph<M>, finish: map<M, nat>, cycles: seq<seq<M>>, p: seq<M>) returns (k: nat)
    requires SearchResult(g, finish, cycles) && g.Keys <= finish.Keys && SimpleCycle(g, p)
    ensures k < |cycles| && SimpleCycle(g, cycles[k]) && Edges(cycles[k]) * Edges(p) != {}
  {
    hide Edges, Walk, Distinct;
    ClosedWalkMeetsReport(g, finish, cycles, p);
    var i, j :| 0 <= i && j == i + 1 < |p| && Reported(cycles, p[i], p[j]);
    StepIsEdge(p, i);
    k :| 0 <= k < |cycles| && |cycles[k]| >= 2 && Closing(cycles[k]) == (p[i], p[j]);
    StepIsEdge(cycles[k], |cycles[k]| - 2);
    assert Closing(cycles[k]) in Edges(cycles[k]) * Edges(p);
  }

  /** A cycle that shares no edge with any other cycle is listed. */
  lemma DisjointCyclesListed<M(!new)>(
    g: Graph<M>, finish: map<M, nat>, cycles: seq<seq<M>>, c: seq<M>)
    requires SearchResult(g, finish, cycles) && g.Keys <= finish.Keys && SimpleCycle(g, c)
    requires forall d :: SimpleCycle(g, d) ==> Edges(d) == Edges(c) || Edges(d) * Edges(c) == {}
    ensures Lists(cycles, c)
  {
    hide SimpleCycle, Edges, SearchResult;
    var k := SharesEdgeWithReport(g, finish, cycles, c);
  }

  ghost function Triangle<M>(a: M, b: M, c: M): Graph<M> {
    map m | m in {a, b, c} :: {a, b, c} - {m}
  }

  /** Of the two directions between modules that import each other, one is reported, and only once. */
  lemma OneReportPerPair<M(!new)>(
    g: Graph<M>, finish: map<M, nat>, cycles: seq<seq<M>>, u: M, v: M, two: nat, other: nat)
    requires SearchResult(g, finish, cycles) && u != v && u in finish && v in finish
    requires Edge(g, u, v) && Edge(g, v, u) && two < |cycles| && other < |cycles|
    requires Edges(cycles[two]) == {(u, v), (v, u)} && Closing(cycles[other]) == (u, v)
    ensures two == other
  {}

  lemma TriangleRotates<M>(a: M, b: M, c: M)
    ensures Triangle(b, c, a) == Triangle(a, b, c) && Triangle(c, a, b) == Triangle(a, b, c)
  {
    assert {b, c, a} == {a, b, c} && {c, a, b} == {a, b, c};
  }

  lemma LastEdge<M>(u: M, v: M)
    ensures Edges([u, v]) == {(u, v)}
  {}

  lemma TriangleCycles<M(!new)>(a: M, b: M, c: M)
    requires a != b && b != c && a != c
    ensures SimpleCycle(Triangle(a, b, c), [a, b, a]) && Edges([a, b, a]) == {(a, b), (b, a)}
    ensures SimpleCycle(Triangle(a, b, c), [a, b, c, a]) && Edges([a, b, c, a]) == {(a, b), (b, c), (c, a)}
  {
    LastEdge(b, a);
    assert [a, b, a][1..] == [b, a];
    LastEdge(c, a);
    assert [b, c, a][1..] == [c, a];
    assert Edges([b, c, a]) == {(b, c), (c, a)};
    assert [a, b, c, a][1..] == [b, c, a];
  }

  lemma CloserInEdges<M(!new)>(g: Graph<M>, finish: map<M, nat>, cycles: seq<seq<M>>, k: nat)
    requires SearchResult(g, finish, cycles) && k < |cycles|
    ensures |cycles[k]| >= 2 && Closing(cycles[k]) in Edges(cycles[k])
  {
    assert SimpleCycle(g, cycles[k]);
    StepIsEdge(cycles[k], |cycles[k]| - 2);
  }

  lemma PairClash<M(!new)>(a: M, b: M, c: M, finish: map<M, nat>, cycles: seq<seq<M>>, ab: nat, abc: nat)
    requires a != b && b != c && a != c && a in finish && b in finish
    requires SearchResult(Triangle(a, b, c), finish, cycles) && ab < |cycles| && abc < |cycles|
    requires Edges(cycles[ab]) == {(a, b), (b, a)} && (b, c) in Edges(cycles[abc]) && |cycles[abc]| >= 2
    ensures Closing(cycles[abc]) != (a, b)
  {
    if Closing(cycles[abc]) == (a, b) {
      OneReportPerPair(Triangle(a, b, c), finish, cycles, a, b, ab, abc);
      assert false;
    }
  }

  /**
   Contrary to its description, the search does not list all cycles: on three modules that all
   import each other no outcome of the search lists both the two-module cycles and the
   three-module cycle.
   */
  lemma TriangleNotAllListed<M(!new)>(a: M, b: M, c: M, finish: map<M, nat>, cycles: seq<seq<M>>)
    requires a != b && b != c && a != c && a in finish && b in finish && c in finish
    requires SearchResult(Triangle(a, b, c), finish, cycles)
    ensures exists d :: SimpleCycle(Triangle(a, b, c), d) && !Lists(cycles, d)
  {
    hide SimpleCycle, Edges, SearchResult, Triangle;
    var g := Triangle(a, b, c);
    TriangleRotates(a, b, c);
    TriangleCycles(a, b, c); TriangleCycles(b, c, a); TriangleCycles(c, a, b);
    if Lists(cycles, [a, b, a]) && Lists(cycles, [b, c, b]) && Lists(cycles, [c, a, c]) {
      var ab :| 0 <= ab < |cycles| && Edges(cycles[ab]) == Edges([a, b, a]);
      var bc :| 0 <= bc < |cycles| && Edges(cycles[bc]) == Edges([b, c, b]);
      var ca :| 0 <= ca < |cycles| && Edges(cycles[ca]) == Edges([c, a, c]);
      if Lists(cycles, [a, b, c, a]) {
        var abc :| 0 <= abc < |cycles| && Edges(cycles[abc]) == Edges([a, b, c, a]);
        CloserInEdges(g, finish, cycles, abc);
        PairClash(a, b, c, finish, cycles, ab, abc);
        PairClash(b, c, a, finish, cycles, bc, abc);
        PairClash(c, a, b, finish, cycles, ca, abc);
        assert false;
      }
    }
  }
}
