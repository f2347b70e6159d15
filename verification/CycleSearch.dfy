/**
 The depth-first search of `detect_cycles` as an object that holds the variables its nested
 function shares: colours, current path and reported cycles.  The invariant is kept by three
 steps on the search state (entering a module, recording a back edge, leaving a module).
 */
module CycleSearch {
  import opened Orders
  import opened ImportGraph

  function IndexOf<T(==)>(xs: seq<T>, x: T): (i: nat)
    requires x in xs
    ensures i < |xs| && xs[i] == x && x !in xs[..i]
  {
    if xs[0] == x then 0 else 1 + IndexOf(xs[1..], x)
  }

  // ----- The search state and what every step of the search keeps -----

  /** The variables shared by all activations of `dfs`, with ghost logs of the search. */
  datatype State<M(==)> = State(
    visited: map<M, int>,
    path: seq<M>,
    cycles: seq<seq<M>>,
    finish: map<M, nat>,
    entered: seq<M>,
    parent: map<M, M>)
  {
    function Colour(m: M): int {
      if m in visited then visited[m] else 0
    }

    ghost function Seen(): set<M> {
      Elements(path) + finish.Keys
    }
  }

  ghost predicate Closed<M(!new)>(g: Graph<M>, universe: set<M>) {
    forall u, v :: u in universe && Edge(g, u, v) ==> v in universe
  }

  /** Grey modules are exactly the current path, black modules exactly the numbered ones. */
  ghost predicate Colours<M(!new)>(universe: set<M>, s: State<M>) {
    && (forall m :: s.Colour(m) == 1 <==> m in s.path)
    && (forall m :: s.Colour(m) == 2 <==> m in s.finish)
    && (forall m :: 0 <= s.Colour(m) <= 2)
    && s.Seen() <= universe
  }

  /** No module is entered twice, and the finishing numbers are 0, 1, 2, ... */
  ghost predicate Logs<M(!new)>(s: State<M>) {
    && Distinct(s.entered)
    && (forall m :: m in s.entered <==> m in s.path || m in s.finish)
    && (forall m :: m in s.finish ==> s.finish[m] < |s.finish|)
    && Injective(s.finish)
  }

  ghost predicate BlackSettled<M(!new)>(g: Graph<M>, s: State<M>) {
    forall u, v :: u in s.finish && Edge(g, u, v) ==>
      && (v in s.path || v in s.finish)
      && (Reported(s.cycles, u, v) <==> v in s.path || s.finish[u] <= s.finish[v])
  }

  ghost predicate Inv<M(!new)>(g: Graph<M>, universe: set<M>, s: State<M>) {
    && Colours(universe, s)
    && Logs(s)
    && Distinct(s.path) && Walk(g, s.path)
    && BlackSettled(g, s)
    && Genuine(g, s.cycles)
    && (forall u, v :: Reported(s.cycles, u, v) ==> u in s.path || u in s.finish)
  }

  /** The first `k` successors of the module on top of the path have been examined. */
  ghost predicate Examined<M(!new)>(s: State<M>, neighbors: seq<M>, k: nat) {
    && s.path != [] && k <= |neighbors|
    && var node := s.path[|s.path| - 1];
    && (forall j :: 0 <= j < k ==>
          && (neighbors[j] in s.path || neighbors[j] in s.finish)
          && (Reported(s.cycles, node, neighbors[j]) <==> neighbors[j] in s.path))
    && (forall j :: k <= j < |neighbors| ==> !Reported(s.cycles, node, neighbors[j]))
  }

  /** Whatever was settled in `s` is still so in `t`. */
  ghost predicate Extends<M(!new)>(s: State<M>, t: State<M>) {
    && s.cycles <= t.cycles
    && s.visited.Keys <= t.visited.Keys
    && (forall m :: m in s.finish ==> m in t.finish && t.finish[m] == s.finish[m])
    && (forall m :: m in t.finish && m !in s.finish ==> m !in s.path)
    && (forall u, v :: u in s.path || u in s.finish ==>
          (Reported(s.cycles, u, v) <==> Reported(t.cycles, u, v)))
    && (forall m :: m in s.path || m in s.finish ==> (m in s.parent <==> m in t.parent))
  }

  ghost function Enter<M>(s: State<M>, node: M): State<M> {
    s.(visited := s.visited[node := 1], path := s.path + [node], entered := s.entered + [node],
       parent := if s.path == [] then s.parent else s.parent[node := s.path[|s.path| - 1]])
  }

  ghost function Record<M>(s: State<M>, neighbor: M): State<M>
    requires neighbor in s.path
  {
    s.(cycles := s.cycles + [s.path[IndexOf(s.path, neighbor)..] + [neighbor]])
  }

  ghost function Leave<M>(s: State<M>): State<M>
    requires s.path != []
  {
    var node := s.path[|s.path| - 1];
    s.(visited := s.visited[node := 2], path := s.path[..|s.path| - 1],
       finish := s.finish[node := |s.finish|])
  }

  lemma ReportedAppend<M(!new)>(cycles: seq<seq<M>>, c: seq<M>)
    requires |c| >= 2
    ensures forall u, v :: Reported(cycles + [c], u, v) <==> Reported(cycles, u, v) || Closing(c) == (u, v)
  {
    var all := cycles + [c];
    assert all[|cycles|] == c;
    forall u, v | Reported(cycles, u, v) ensures Reported(all, u, v) {
      var i :| 0 <= i < |cycles| && |cycles[i]| >= 2 && Closing(cycles[i]) == (u, v);
      assert all[i] == cycles[i];
    }
  }

  lemma EnterColours<M(!new)>(universe: set<M>, s: State<M>, node: M)
    requires Colours(universe, s) && Logs(s) && s.Colour(node) == 0 && node in universe
    ensures node !in s.path && node !in s.finish
    ensures forall m :: m in Enter(s, node).path <==> m in s.path || m == node
    ensures Colours(universe, Enter(s, node)) && Logs(Enter(s, node))
  {
    var t := Enter(s, node);
    assert forall m :: m in t.entered <==> m in s.entered || m == node;
  }

  lemma EnterPath<M(!new)>(g: Graph<M>, path: seq<M>, node: M)
    requires Distinct(path) && Walk(g, path) && node !in path
    requires path != [] ==> Edge(g, path[|path| - 1], node)
    ensures Distinct(path + [node]) && Walk(g, path + [node])
  {}

  lemma EnterSettled<M(!new)>(g: Graph<M>, s: State<M>, t: State<M>, node: M)
    requires BlackSettled(g, s) && t.cycles == s.cycles && t.finish == s.finish && node !in s.finish
    requires forall m :: m in t.path <==> m in s.path || m == node
    ensures BlackSettled(g, t)
  {}

  lemma EnterKeeps<M(!new)>(g: Graph<M>, universe: set<M>, s: State<M>, node: M, neighbors: seq<M>)
    requires Inv(g, universe, s) && s.Colour(node) == 0 && node in universe
    requires s.path != [] ==> Edge(g, s.path[|s.path| - 1], node)
    ensures Inv(g, universe, Enter(s, node))
    ensures Examined(Enter(s, node), neighbors, 0)
    ensures node !in s.path && node !in s.finish
  {
    var t := Enter(s, node);
    EnterColours(universe, s, node);
    EnterPath(g, s.path, node);
    EnterSettled(g, s, t, node);
    assert t.path[|t.path| - 1] == node;
    assert Inv(g, universe, t) by {
      hide Colours, Logs, BlackSettled, Genuine, Walk, Distinct;
    }
  }

  lemma SuffixWalk<M(!new)>(g: Graph<M>, path: seq<M>, k: nat)
    requires Distinct(path) && Walk(g, path) && k < |path|
    ensures Distinct(path[k..]) && Walk(g, path[k..])
  {}

  lemma BackEdgeClosesCycle<M(!new)>(g: Graph<M>, path: seq<M>, v: M)
    requires Distinct(path) && Walk(g, path) && v in path && Edge(g, path[|path| - 1], v)
    ensures SimpleCycle(g, path[IndexOf(path, v)..] + [v])
    ensures Closing(path[IndexOf(path, v)..] + [v]) == (path[|path| - 1], v)
  {
    var q := path[IndexOf(path, v)..];
    SuffixWalk(g, path, IndexOf(path, v));
    assert (q + [v])[..|q|] == q;
    forall i, j | 0 <= i && j == i + 1 < |q + [v]| ensures Edge(g, (q + [v])[i], (q + [v])[j]) {
      assert j < |q| ==> Edge(g, q[i], q[j]);
    }
  }

  lemma GenuineAppend<M(!new)>(g: Graph<M>, cycles: seq<seq<M>>, c: seq<M>)
    requires Genuine(g, cycles) && SimpleCycle(g, c)
    requires !Reported(cycles, Closing(c).0, Closing(c).1)
    ensures Genuine(g, cycles + [c])
  {}

  lemma RecordAdds<M(!new)>(g: Graph<M>, s: State<M>, v: M)
    requires Distinct(s.path) && Walk(g, s.path) && v in s.path && Edge(g, s.path[|s.path| - 1], v)
    requires Genuine(g, s.cycles) && !Reported(s.cycles, s.path[|s.path| - 1], v)
    ensures Genuine(g, Record(s, v).cycles)
    ensures forall x, y :: Reported(Record(s, v).cycles, x, y) <==>
                             Reported(s.cycles, x, y) || (x == s.path[|s.path| - 1] && y == v)
  {
    var c := s.path[IndexOf(s.path, v)..] + [v];
    BackEdgeClosesCycle(g, s.path, v);
    ReportedAppend(s.cycles, c);
    GenuineAppend(g, s.cycles, c);
  }

  lemma SameColours<M(!new)>(universe: set<M>, s: State<M>, t: State<M>)
    requires Colours(universe, s) && Logs(s) && t == s.(cycles := t.cycles)
    ensures Colours(universe, t) && Logs(t)
  {
    hide Distinct, Injective;
    assert forall m :: t.Colour(m) == s.Colour(m);
    assert t.Seen() == s.Seen();
  }

  lemma SameSettled<M(!new)>(g: Graph<M>, s: State<M>, t: State<M>, node: M)
    requires BlackSettled(g, s) && node !in s.finish && t == s.(cycles := t.cycles)
    requires forall x, y :: x != node ==> (Reported(t.cycles, x, y) <==> Reported(s.cycles, x, y))
    ensures BlackSettled(g, t)
  {}

  lemma RecordSettled<M(!new)>(g: Graph<M>, universe: set<M>, s: State<M>, t: State<M>, node: M)
    requires Inv(g, universe, s) && node in s.path && node !in s.finish && Genuine(g, t.cycles)
    requires t == s.(cycles := t.cycles)
    requires forall x, y :: x != node ==> (Reported(t.cycles, x, y) <==> Reported(s.cycles, x, y))
    ensures Inv(g, universe, t)
  {
    hide Colours, Logs, BlackSettled, Genuine, Walk, Distinct;
    SameColours(universe, s, t);
    SameSettled(g, s, t, node);
  }

  lemma RecordExamined<M(!new)>(s: State<M>, t: State<M>, neighbors: seq<M>, k: nat)
    requires Examined(s, neighbors, k) && k < |neighbors| && Distinct(neighbors)
    requires t == s.(cycles := t.cycles) && neighbors[k] in s.path
    requires forall x, y :: Reported(t.cycles, x, y) <==>
                              Reported(s.cycles, x, y) || (x == s.path[|s.path| - 1] && y == neighbors[k])
    ensures Examined(t, neighbors, k + 1)
  {}

  lemma RecordKeeps<M(!new)>(g: Graph<M>, universe: set<M>, s: State<M>, neighbors: seq<M>, k: nat)
    requires Inv(g, universe, s) && Examined(s, neighbors, k) && k < |neighbors|
    requires Distinct(neighbors) && Edge(g, s.path[|s.path| - 1], neighbors[k])
    requires neighbors[k] in s.path
    ensures Inv(g, universe, Record(s, neighbors[k]))
    ensures Examined(Record(s, neighbors[k]), neighbors, k + 1)
    ensures forall x, y :: x != s.path[|s.path| - 1] ==>
              (Reported(s.cycles, x, y) <==> Reported(Record(s, neighbors[k]).cycles, x, y))
  {
    var node, t := s.path[|s.path| - 1], Record(s, neighbors[k]);
    assert node in s.path && s.Colour(node) == 1 && node !in s.finish;
    RecordAdds(g, s, neighbors[k]);
    RecordSettled(g, universe, s, t, node);
    RecordExamined(s, t, neighbors, k);
  }

  lemma LeaveColours<M(!new)>(universe: set<M>, s: State<M>)
    requires Colours(universe, s) && Distinct(s.path) && s.path != []
    ensures forall m :: m in Leave(s).path <==> m in s.path && m != s.path[|s.path| - 1]
    ensures Colours(universe, Leave(s))
  {
    hide Distinct;
    WithoutLast(s.path);
    var node := s.path[|s.path| - 1];
    assert node in s.path && node in s.Seen();
    forall m ensures Leave(s).Colour(m) == if m == node then 2 else s.Colour(m) {}
    assert Leave(s).Seen() <= s.Seen();
  }

  lemma WithoutLast<M(!new)>(path: seq<M>)
    requires Distinct(path) && path != []
    ensures forall m :: m in path[..|path| - 1] <==> m in path && m != path[|path| - 1]
  {
    assert path == path[..|path| - 1] + [path[|path| - 1]];
  }

  lemma LeaveLogs<M(!new)>(universe: set<M>, s: State<M>)
    requires Colours(universe, s) && Logs(s) && Distinct(s.path) && s.path != []
    ensures Logs(Leave(s))
  {
    LeaveColours(universe, s);
    var t := Leave(s);
    var node := s.path[|s.path| - 1];
    assert node in s.path && s.Colour(node) == 1 && node !in s.finish;
    assert t.finish.Keys == s.finish.Keys + {node};
    assert |t.finish| == |t.finish.Keys| && |s.finish| == |s.finish.Keys|;
  }

  lemma LeaveSettled<M(!new)>(g: Graph<M>, s: State<M>, t: State<M>, node: M, neighbors: seq<M>)
    requires BlackSettled(g, s) && Examined(s, neighbors, |neighbors|)
    requires node == s.path[|s.path| - 1] && node !in s.finish && t == Leave(s)
    requires forall v :: v in neighbors <==> Edge(g, node, v)
    requires forall m :: m in t.path <==> m in s.path && m != node
    requires forall m :: m in s.finish ==> s.finish[m] < |s.finish|
    ensures BlackSettled(g, t)
  {}

  lemma LeaveKeeps<M(!new)>(g: Graph<M>, universe: set<M>, s: State<M>, neighbors: seq<M>)
    requires Inv(g, universe, s) && Examined(s, neighbors, |neighbors|)
    requires forall v :: v in neighbors <==> Edge(g, s.path[|s.path| - 1], v)
    ensures Inv(g, universe, Leave(s))
  {
    var node, t := s.path[|s.path| - 1], Leave(s);
    assert node in s.path && s.Colour(node) == 1 && node !in s.finish;
    LeaveColours(universe, s);
    LeaveLogs(universe, s);
    LeaveSettled(g, s, t, node, neighbors);
    assert Distinct(t.path) && Walk(g, t.path);
  }

  // ----- The search forest -----

  /** A module is entered once, from a module that finishes after it. */
  ghost predicate ParentsLater<M(!new)>(s: State<M>) {
    && (forall v :: v in s.parent ==> v in s.path || v in s.finish)
    && (forall v :: v in s.parent && v in s.finish ==>
          s.parent[v] in s.path || (s.parent[v] in s.finish && s.finish[v] < s.finish[s.parent[v]]))
  }

  /** `parent` records from which module each module was entered. */
  ghost predicate Forest<M(!new)>(s: State<M>) {
    && ParentsLater(s)
    && (s.path != [] ==> s.path[0] !in s.parent)
    && TreePath(s.parent, s.path) && TreeCycles(s.parent, s.cycles)
  }

  lemma TreeCyclesKept<M(!new)>(parent: map<M, M>, cycles: seq<seq<M>>, node: M, top: M)
    requires TreeCycles(parent, cycles) && node !in parent
    ensures TreeCycles(parent[node := top], cycles)
  {}

  lemma EnterTreePath<M(!new)>(parent: map<M, M>, p: seq<M>, node: M)
    requires TreePath(parent, p) && node !in parent
    ensures TreePath(if p == [] then parent else parent[node := p[|p| - 1]], p + [node])
  {}

  lemma EnterForest<M(!new)>(s: State<M>, node: M)
    requires Forest(s) && node !in s.path && node !in s.finish
    ensures Forest(Enter(s, node))
  {
    hide TreePath, TreeCycles;
    var t := Enter(s, node);
    EnterTreePath(s.parent, s.path, node);
    if s.path != [] {
      TreeCyclesKept(s.parent, s.cycles, node, s.path[|s.path| - 1]);
    }
    assert forall m :: m in s.path || m == node ==> m in t.path by {
      assert t.path[|s.path|] == node;
    }
  }

  lemma SuffixTreePath<M(!new)>(parent: map<M, M>, p: seq<M>, k: nat)
    requires TreePath(parent, p) && k <= |p|
    ensures TreePath(parent, p[k..]) && TreePath(parent, p[..k])
  {}

  lemma RecordForest<M(!new)>(s: State<M>, v: M)
    requires Forest(s) && v in s.path
    ensures Forest(Record(s, v))
  {}

  lemma LeaveParents<M(!new)>(s: State<M>, t: State<M>, node: M)
    requires ParentsLater(s) && s.path != [] && t == Leave(s) && node == s.path[|s.path| - 1] && node !in s.finish
    requires forall m :: m in t.path <==> m in s.path && m != node
    requires node in s.parent ==> s.parent[node] in t.path
    requires forall m :: m in s.finish ==> s.finish[m] < |s.finish|
    ensures ParentsLater(t)
  {}

  lemma LeaveForest<M(!new)>(g: Graph<M>, universe: set<M>, s: State<M>)
    requires Inv(g, universe, s) && Forest(s) && s.path != []
    ensures Forest(Leave(s))
  {
    var node, t, n := s.path[|s.path| - 1], Leave(s), |s.path|;
    assert node in s.path && s.Colour(node) == 1 && node !in s.finish;
    LeaveColours(universe, s);
    SuffixTreePath(s.parent, s.path, n - 1);
    assert node in s.parent ==> s.parent[node] in t.path by {
      if n >= 2 {
        assert TreeEdge(s.parent, s.path[n - 2], s.path[n - 1]) && t.path[n - 2] == s.path[n - 2];
      }
    }
    LeaveParents(s, t, node);
  }

  lemma NestedKeepsExamined<M(!new)>(s: State<M>, t: State<M>, neighbors: seq<M>, k: nat)
    requires Examined(s, neighbors, k) && k < |neighbors| && Distinct(neighbors)
    requires Extends(s, t) && t.path == s.path && neighbors[k] in t.finish && neighbors[k] !in s.path
    ensures Examined(t, neighbors, k + 1)
  {}

  lemma SkipKeepsExamined<M(!new)>(g: Graph<M>, universe: set<M>, s: State<M>, neighbors: seq<M>, k: nat)
    requires Inv(g, universe, s) && Examined(s, neighbors, k) && k < |neighbors|
    requires s.Colour(neighbors[k]) == 2
    ensures Examined(s, neighbors, k + 1)
  {
    assert s.Colour(neighbors[k]) != 1;
  }

  /** An activation of `dfs` on `node` that began in `start` has reached `s`. */
  ghost predicate Running<M(!new)>(start: State<M>, s: State<M>, node: M) {
    s.path == start.path + [node] && Extends(start, s) && node !in start.Seen()
  }

  lemma EnterRuns<M(!new)>(start: State<M>, node: M)
    requires node !in start.path && node !in start.finish
    ensures Running(start, Enter(start, node), node)
  {}

  lemma RunningGrows<M(!new)>(start: State<M>, s: State<M>, node: M)
    requires Running(start, s, node)
    ensures start.Seen() + {node} <= s.Seen()
  {}

  lemma RecordRuns<M(!new)>(start: State<M>, s: State<M>, node: M, v: M)
    requires Running(start, s, node) && v in s.path
    requires forall x, y :: x != node ==> (Reported(s.cycles, x, y) <==> Reported(Record(s, v).cycles, x, y))
    ensures Running(start, Record(s, v), node)
  {}

  lemma NestedRuns<M(!new)>(start: State<M>, s: State<M>, t: State<M>, node: M)
    requires Running(start, s, node) && Extends(s, t) && t.path == s.path
    ensures Running(start, t, node)
  {}

  lemma LeaveExtends<M(!new)>(start: State<M>, s: State<M>, node: M)
    requires Running(start, s, node) && s.path[|s.path| - 1] == node
    ensures Extends(start, Leave(s)) && Leave(s).path == start.path
  {}

  lemma ColourMeans<M(!new)>(g: Graph<M>, universe: set<M>, s: State<M>, node: M, m: M)
    requires Inv(g, universe, s) && Closed(g, universe) && node in s.path && Edge(g, node, m)
    ensures m in universe && 0 <= s.Colour(m) <= 2
    ensures (s.Colour(m) == 1 <==> m in s.path) && (s.Colour(m) == 2 <==> m in s.finish)
  {}

  // ----- The search as a function of the graph and the order -----

  ghost function Neighbors<M(!new)>(g: Graph<M>, less: (M, M) -> bool, node: M): (ns: seq<M>)
    requires StrictTotal(less)
    ensures Sorted(ns, less) && Distinct(ns) && forall v :: v in ns <==> Edge(g, node, v)
  {
    SortedIsDistinct(Ascending(Successors(g, node), less), less);
    Ascending(Successors(g, node), less)
  }

  /** `dfs(node)` on the search state; `fuel` bounds the depth and is never used up. */
  ghost function Visit<M(!new)>(g: Graph<M>, less: (M, M) -> bool, s: State<M>, node: M, fuel: nat): State<M>
    requires StrictTotal(less)
    decreases fuel, 0, 0
  {
    if fuel == 0 then s
    else
      var t := Scan(g, less, Enter(s, node), Neighbors(g, less, node), fuel - 1);
      if t.path == [] then t else Leave(t)
  }

  /** The loop over successors. */
  ghost function Scan<M(!new)>(g: Graph<M>, less: (M, M) -> bool, s: State<M>, ns: seq<M>, fuel: nat): State<M>
    requires StrictTotal(less)
    decreases fuel, 2, |ns|
  {
    if ns == [] then s
    else Examination(g, less, Scan(g, less, s, ns[..|ns| - 1], fuel), ns[|ns| - 1], fuel)
  }

  ghost function Examination<M(!new)>(g: Graph<M>, less: (M, M) -> bool, s: State<M>, v: M, fuel: nat): State<M>
    requires StrictTotal(less)
    decreases fuel, 1, 0
  {
    if s.Colour(v) == 1 && v in s.path then Record(s, v)
    else if s.Colour(v) == 0 then Visit(g, less, s, v, fuel)
    else s
  }

  lemma ScanOneMore<M(!new)>(g: Graph<M>, less: (M, M) -> bool, s: State<M>, ns: seq<M>, k: nat, fuel: nat)
    requires StrictTotal(less) && k < |ns|
    ensures Scan(g, less, s, ns[..k + 1], fuel) == Examination(g, less, Scan(g, less, s, ns[..k], fuel), ns[k], fuel)
    ensures Scan(g, less, s, ns[..0], fuel) == s
  {
    assert ns[..k + 1][..k] == ns[..k];
  }

  lemma ScanNothing<M(!new)>(g: Graph<M>, less: (M, M) -> bool, s: State<M>, fuel: nat)
    requires StrictTotal(less)
    ensures Scan(g, less, s, [], fuel) == s
  {}

  lemma VisitLeaves<M(!new)>(g: Graph<M>, less: (M, M) -> bool, s: State<M>, node: M, fuel: nat)
    requires StrictTotal(less) && fuel > 0
    ensures var t := Scan(g, less, Enter(s, node), Neighbors(g, less, node), fuel - 1);
            Visit(g, less, s, node, fuel) == if t.path == [] then t else Leave(t)
  {}

  /** What a nested search may be asked to do. */
  ghost predicate Ready<M(!new)>(
    g: Graph<M>, universe: set<M>, less: (M, M) -> bool, s: State<M>, node: M, fuel: nat)
  {
    && StrictTotal(less) && Closed(g, universe) && Inv(g, universe, s) && Forest(s)
    && s.Colour(node) == 0 && node in universe && |universe - s.Seen()| <= fuel
    && (s.path != [] ==> Edge(g, s.path[|s.path| - 1], node))
  }

  /** The state of a nested search that has examined its first `k` successors. */
  ghost predicate Halfway<M(!new)>(
    g: Graph<M>, universe: set<M>, start: State<M>, node: M, s: State<M>, neighbors: seq<M>, k: nat)
  {
    Inv(g, universe, s) && Forest(s) && Running(start, s, node) && Examined(s, neighbors, k)
  }

  lemma ReadyMeans<M(!new)>(
    g: Graph<M>, universe: set<M>, less: (M, M) -> bool, s: State<M>, node: M, fuel: nat)
    requires StrictTotal(less) && Ready(g, universe, less, s, node, fuel)
    ensures fuel > 0
    ensures Halfway(g, universe, s, node, Enter(s, node), Neighbors(g, less, node), 0)
  {
    hide StrictTotal, Inv, Extends, Examined, Forest;
    assert s.Colour(node) == 0;
    EnterKeeps(g, universe, s, node, Neighbors(g, less, node));
    EnterForest(s, node);
    EnterRuns(s, node);
    assert node in universe - s.Seen();
  }

  lemma Smaller<M(!new)>(universe: set<M>, start: State<M>, s: State<M>, node: M, fuel: nat)
    requires Running(start, s, node) && node in universe && |universe - start.Seen()| <= fuel + 1
    ensures |universe - s.Seen()| <= fuel
  {
    hide StrictTotal, Extends;
    RunningGrows(start, s, node);
    var before, after := universe - start.Seen(), universe - s.Seen();
    assert node in before && after <= before - {node};
    SubsetSize(after, before - {node});
  }

  lemma SubsetSize<T>(a: set<T>, b: set<T>)
    requires a <= b
    ensures |a| <= |b|
  {
    assert b == a + (b - a);
  }

  /** A white successor can be searched in turn; a grey one is on the path. */
  lemma NeighborReady<M(!new)>(
    g: Graph<M>, universe: set<M>, less: (M, M) -> bool, start: State<M>, node: M, s: State<M>, k: nat, fuel: nat)
    requires StrictTotal(less) && Ready(g, universe, less, start, node, fuel + 1) && k < |Neighbors(g, less, node)|
    requires Halfway(g, universe, start, node, s, Neighbors(g, less, node), k)
    ensures var v := Neighbors(g, less, node)[k];
            && s.path != [] && s.path[|s.path| - 1] == node && Edge(g, node, v) && 0 <= s.Colour(v) <= 2
            && (s.Colour(v) == 1 <==> v in s.path)
            && (s.Colour(v) == 0 ==> Ready(g, universe, less, s, v, fuel))
  {
    hide StrictTotal, Inv, Extends, Examined, Forest;
    var v := Neighbors(g, less, node)[k];
    assert s.path[|s.path| - 1] == node && Edge(g, node, v);
    ColourMeans(g, universe, s, node, v);
    Smaller(universe, start, s, node, fuel);
  }

  /** Examining one more successor. */
  lemma {:induction false} ExaminationKeeps<M(!new)>(
    g: Graph<M>, universe: set<M>, less: (M, M) -> bool, start: State<M>, node: M, s: State<M>, k: nat, fuel: nat)
    requires StrictTotal(less) && Ready(g, universe, less, start, node, fuel + 1) && k < |Neighbors(g, less, node)|
    requires Halfway(g, universe, start, node, s, Neighbors(g, less, node), k)
    ensures Halfway(g, universe, start, node, Examination(g, less, s, Neighbors(g, less, node)[k], fuel),
                    Neighbors(g, less, node), k + 1)
    decreases fuel, 1, 0
  {
    hide StrictTotal, Inv, Extends, Examined, Forest, Visit;
    var ns := Neighbors(g, less, node);
    var v := ns[k];
    NeighborReady(g, universe, less, start, node, s, k, fuel);
    if s.Colour(v) == 1 {
      RecordKeeps(g, universe, s, ns, k);
      RecordForest(s, v);
      RecordRuns(start, s, node, v);
    } else if s.Colour(v) == 0 {
      VisitKeeps(g, universe, less, s, v, fuel);
      var t := Visit(g, less, s, v, fuel);
      NestedKeepsExamined(s, t, ns, k);
      NestedRuns(start, s, t, node);
    } else {
      SkipKeepsExamined(g, universe, s, ns, k);
    }
  }

  lemma {:induction false} ScanKeeps<M(!new)>(
    g: Graph<M>, universe: set<M>, less: (M, M) -> bool, start: State<M>, node: M, k: nat, fuel: nat)
    requires StrictTotal(less) && Ready(g, universe, less, start, node, fuel + 1) && k <= |Neighbors(g, less, node)|
    ensures Halfway(g, universe, start, node, Scan(g, less, Enter(start, node), Neighbors(g, less, node)[..k], fuel),
                    Neighbors(g, less, node), k)
    decreases fuel, 2, k
  {
    hide StrictTotal, Ready, Halfway, Enter, Neighbors, Examination;
    var ns := Neighbors(g, less, node);
    if k == 0 {
      ReadyMeans(g, universe, less, start, node, fuel + 1);
      assert ns[..0] == [];
    } else {
      ScanKeeps(g, universe, less, start, node, k - 1, fuel);
      assert ns[..k][..k - 1] == ns[..k - 1];
      ExaminationKeeps(g, universe, less, start, node, Scan(g, less, Enter(start, node), ns[..k - 1], fuel), k - 1, fuel);
    }
  }

  lemma HalfwayPath<M(!new)>(
    g: Graph<M>, universe: set<M>, start: State<M>, node: M, s: State<M>, neighbors: seq<M>, k: nat)
    requires Halfway(g, universe, start, node, s, neighbors, k)
    ensures s.path == start.path + [node] && s.path[|s.path| - 1] == node
  {}

  lemma LeavingKeeps<M(!new)>(g: Graph<M>, universe: set<M>, start: State<M>, node: M, s: State<M>, neighbors: seq<M>)
    requires Halfway(g, universe, start, node, s, neighbors, |neighbors|)
    requires forall v :: v in neighbors <==> Edge(g, node, v)
    ensures s.path != [] && Inv(g, universe, Leave(s)) && Forest(Leave(s)) && Extends(start, Leave(s))
    ensures Leave(s).path == start.path && node in Leave(s).finish
  {
    hide StrictTotal, Inv, Extends, Examined, Forest;
    assert s.path[|s.path| - 1] == node;
    LeaveKeeps(g, universe, s, neighbors);
    LeaveForest(g, universe, s);
    LeaveExtends(start, s, node);
  }

  /** A nested search keeps the invariant, restores the path and finishes its module. */
  lemma {:induction false} VisitKeeps<M(!new)>(
    g: Graph<M>, universe: set<M>, less: (M, M) -> bool, s: State<M>, node: M, fuel: nat)
    requires StrictTotal(less) && Ready(g, universe, less, s, node, fuel)
    ensures var t := Visit(g, less, s, node, fuel);
            Inv(g, universe, t) && Forest(t) && Extends(s, t) && t.path == s.path && node in t.finish
    decreases fuel, 0, 0
  {
    hide StrictTotal, Ready, Halfway, Inv, Extends, Forest, Enter, Scan, Leave, Neighbors;
    ReadyMeans(g, universe, less, s, node, fuel);
    var ns := Neighbors(g, less, node);
    ScanKeeps(g, universe, less, s, node, |ns|, fuel - 1);
    assert ns[..|ns|] == ns;
    LeavingKeeps(g, universe, s, node, Scan(g, less, Enter(s, node), ns, fuel - 1), ns);
  }

  // ----- The search itself -----

  /** The nested function `dfs` together with the variables it closes over. */
  class Search<M(!new, ==)> {
    const graph: Graph<M>
    const less: (M, M) -> bool
    ghost const universe: set<M>
    var visited: map<M, int>
    var path: seq<M>
    var cycles: seq<seq<M>>
    ghost var finish: map<M, nat>
    ghost var entered: seq<M>
    ghost var parent: map<M, M>

    constructor (modules: set<M>, graph: Graph<M>, less: (M, M) -> bool, ghost universe: set<M>)
      ensures this.graph == graph && this.less == less && this.universe == universe
      ensures Now() == Unvisited(modules)
    {
      this.graph, this.less, this.universe := graph, less, universe;
      visited := map m | m in modules :: 0;
      path, cycles := [], [];
      finish, entered, parent := map[], [], map[];
    }

    ghost function Now(): State<M>
      reads this
    {
      State(visited, path, cycles, finish, entered, parent)
    }

    method Push(node: M)
      modifies this
      ensures Now() == Enter(old(Now()), node)
    {
      visited := visited[node := 1];
      parent := if path == [] then parent else parent[node := path[|path| - 1]];
      path := path + [node];
      entered := entered + [node];
    }

    method Pop(node: M)
      requires path != [] && path[|path| - 1] == node
      modifies this
      ensures Now() == Leave(old(Now()))
    {
      path := path[..|path| - 1];
      visited := visited[node := 2];
      finish := finish[node := |finish|];
    }

    method Dfs(node: M, ghost fuel: nat)
      requires StrictTotal(less) && Ready(graph, universe, less, Now(), node, fuel)
      modifies this
      ensures Now() == Visit(graph, less, old(Now()), node, fuel)
      decreases fuel, 0
    {
      hide StrictTotal, Ready, Halfway, Scan, Visit, Examination;
      ghost var start := Now();
      ReadyMeans(graph, universe, less, start, node, fuel);
      var neighbors := Ascending(Successors(graph, node), less);
      Push(node);
      Explore(node, neighbors, start, fuel - 1);
      ScanKeeps(graph, universe, less, start, node, |neighbors|, fuel - 1);
      assert neighbors[..|neighbors|] == neighbors;
      HalfwayPath(graph, universe, start, node, Now(), neighbors, |neighbors|);
      VisitLeaves(graph, less, start, node, fuel);
      Pop(node);
    }

    /** The loop over the sorted successors of `node`. */
    method Explore(node: M, neighbors: seq<M>, ghost start: State<M>, ghost fuel: nat)
      requires StrictTotal(less) && Ready(graph, universe, less, start, node, fuel + 1)
      requires neighbors == Neighbors(graph, less, node) && Now() == Enter(start, node)
      modifies this
      ensures Now() == Scan(graph, less, Enter(start, node), neighbors, fuel)
      decreases fuel, 2
    {
      hide StrictTotal, Ready, Halfway, Scan, Visit, Examination;
      if neighbors == [] {
        ScanNothing(graph, less, Now(), fuel);
        return;
      }
      ScanOneMore(graph, less, Now(), neighbors, 0, fuel);
      for k := 0 to |neighbors|
        invariant Now() == Scan(graph, less, Enter(start, node), neighbors[..k], fuel)
      {
        ScanKeeps(graph, universe, less, start, node, k, fuel);
        ScanOneMore(graph, less, Enter(start, node), neighbors, k, fuel);
        Examine(node, neighbors, k, start, fuel);
      }
      assert neighbors[..|neighbors|] == neighbors;
    }

    /** One turn of the loop over the sorted successors of `node`. */
    method Examine(node: M, neighbors: seq<M>, k: nat, ghost start: State<M>, ghost fuel: nat)
      requires StrictTotal(less) && Ready(graph, universe, less, start, node, fuel + 1)
      requires neighbors == Neighbors(graph, less, node) && k < |neighbors|
      requires Halfway(graph, universe, start, node, Now(), neighbors, k)
      modifies this
      ensures Now() == Examination(graph, less, old(Now()), neighbors[k], fuel)
      decreases fuel, 1
    {
      hide StrictTotal, Ready, Halfway, Neighbors, Visit;
      var neighbor := neighbors[k];
      var state := if neighbor in visited then visited[neighbor] else 0;
      NeighborReady(graph, universe, less, start, node, Now(), k, fuel);
      if state == 1 {
        var cycleStart := IndexOf(path, neighbor);
        var cyclePath := path[cycleStart..] + [neighbor];
        cycles := cycles + [cyclePath];
      } else if state == 0 {
        Dfs(neighbor, fuel);
      }
    }
  }

  // ----- All roots -----

  ghost function Unvisited<M>(modules: set<M>): State<M> {
    State(map m | m in modules :: 0, [], [], map[], [], map[])
  }

  ghost function Universe<M>(modules: set<M>, g: Graph<M>): set<M> {
    modules + set u, v | u in g && v in g[u] :: v
  }

  ghost function Roots<M(!new)>(g: Graph<M>, less: (M, M) -> bool, s: State<M>, order: seq<M>, fuel: nat): State<M>
    requires StrictTotal(less)
  {
    if order == [] then s
    else
      var t := Roots(g, less, s, order[..|order| - 1], fuel);
      var m := order[|order| - 1];
      if t.Colour(m) == 0 then Visit(g, less, t, m, fuel) else t
  }

  /** The whole search. */
  ghost function Outcome<M(!new)>(modules: set<M>, g: Graph<M>, less: (M, M) -> bool): State<M>
    requires StrictTotal(less)
  {
    Roots(g, less, Unvisited(modules), Ascending(modules, less), |Universe(modules, g)|)
  }

  lemma UnvisitedInv<M(!new)>(modules: set<M>, g: Graph<M>)
    ensures Closed(g, Universe(modules, g)) && modules <= Universe(modules, g)
    ensures Inv(g, Universe(modules, g), Unvisited(modules)) && Forest(Unvisited(modules))
  {}

  ghost predicate Rest<M(!new)>(g: Graph<M>, universe: set<M>, s: State<M>) {
    Inv(g, universe, s) && Forest(s) && s.path == []
  }

  lemma BetweenRoots<M(!new)>(g: Graph<M>, universe: set<M>, s: State<M>, fuel: nat)
    requires Rest(g, universe, s) && fuel == |universe|
    ensures SearchResult(g, s.finish, s.cycles) && SearchForest(s.finish, s.parent, s.cycles)
    ensures Distinct(s.entered) && forall m :: m in s.entered <==> m in s.finish
    ensures forall m :: s.Colour(m) == 0 || m in s.finish
    ensures |universe - s.Seen()| <= fuel
  {
    SubsetSize(universe - s.Seen(), universe);
  }

  lemma RootsOneMore<M(!new)>(g: Graph<M>, less: (M, M) -> bool, s: State<M>, order: seq<M>, k: nat, fuel: nat)
    requires StrictTotal(less) && k < |order|
    ensures var t := Roots(g, less, s, order[..k], fuel);
            Roots(g, less, s, order[..k + 1], fuel) ==
              if t.Colour(order[k]) == 0 then Visit(g, less, t, order[k], fuel) else t
    ensures Roots(g, less, s, order[..0], fuel) == s
  {
    assert order[..k + 1][..k] == order[..k];
  }

  ghost predicate Rooted<M(!new)>(
    g: Graph<M>, universe: set<M>, modules: set<M>, order: seq<M>, k: nat, s: State<M>)
  {
    && k <= |order| && Rest(g, universe, s) && modules <= s.visited.Keys
    && (forall j :: 0 <= j < k ==> order[j] in s.finish)
    && (if k == 0 then s.finish == map[] else order[0] !in s.parent)
  }

  /** The first root is entered from no module. */
  lemma FreshRoot<M(!new)>(g: Graph<M>, universe: set<M>, less: (M, M) -> bool, t: State<M>, node: M, fuel: nat)
    requires StrictTotal(less) && Ready(g, universe, less, t, node, fuel) && t.path == []
    ensures node !in Visit(g, less, t, node, fuel).parent
  {
    hide StrictTotal, Ready, Scan, Visit, Inv, Extends, Examined;
    ReadyMeans(g, universe, less, t, node, fuel);
    var ns := Neighbors(g, less, node);
    ScanKeeps(g, universe, less, t, node, |ns|, fuel - 1);
    assert ns[..|ns|] == ns;
    HalfwayPath(g, universe, t, node, Scan(g, less, Enter(t, node), ns, fuel - 1), ns, |ns|);
    VisitLeaves(g, less, t, node, fuel);
  }

  lemma NextRoot<M(!new)>(
    g: Graph<M>, universe: set<M>, less: (M, M) -> bool, modules: set<M>, order: seq<M>, k: nat, t: State<M>)
    requires StrictTotal(less) && Closed(g, universe) && modules <= universe
    requires Rooted(g, universe, modules, order, k, t) && k < |order| && order[k] in modules
    ensures t.Colour(order[k]) == 0 ==> Ready(g, universe, less, t, order[k], |universe|)
    ensures var s := if t.Colour(order[k]) == 0 then Visit(g, less, t, order[k], |universe|) else t;
            Rooted(g, universe, modules, order, k + 1, s)
  {
    hide StrictTotal, Rooted, Visit, Extends, Ready;
    RootReady(g, universe, less, modules, order, k, t);
    if t.Colour(order[k]) == 0 {
      var s := Visit(g, less, t, order[k], |universe|);
      VisitKeeps(g, universe, less, t, order[k], |universe|);
      FreshRoot(g, universe, less, t, order[k], |universe|);
      StillRooted(g, universe, modules, order, k, t, s);
    }
  }

  lemma RootReady<M(!new)>(
    g: Graph<M>, universe: set<M>, less: (M, M) -> bool, modules: set<M>, order: seq<M>, k: nat, t: State<M>)
    requires StrictTotal(less) && Closed(g, universe) && modules <= universe
    requires Rooted(g, universe, modules, order, k, t) && k < |order| && order[k] in modules
    ensures t.path == [] && (t.Colour(order[k]) == 0 ==> Ready(g, universe, less, t, order[k], |universe|))
    ensures t.Colour(order[k]) != 0 ==> Rooted(g, universe, modules, order, k + 1, t)
  {
    hide StrictTotal, Inv, Forest, SearchResult, SearchForest, Distinct, Closed;
    BetweenRoots(g, universe, t, |universe|);
  }

  lemma StillRooted<M(!new)>(
    g: Graph<M>, universe: set<M>, modules: set<M>, order: seq<M>, k: nat, t: State<M>, s: State<M>)
    requires Rooted(g, universe, modules, order, k, t) && k < |order| && Extends(t, s) && Rest(g, universe, s)
    requires order[k] in s.finish && order[k] !in s.parent
    ensures Rooted(g, universe, modules, order, k + 1, s)
  {
    hide Inv, Forest;
  }

  lemma {:induction false} RootsKeep<M(!new)>(modules: set<M>, g: Graph<M>, less: (M, M) -> bool, order: seq<M>, k: nat)
    requires StrictTotal(less) && k <= |order| && forall m :: m in order ==> m in modules
    ensures Rooted(g, Universe(modules, g), modules, order, k,
                   Roots(g, less, Unvisited(modules), order[..k], |Universe(modules, g)|))
  {
    hide StrictTotal, Rooted, Visit, Universe;
    UnvisitedInv(modules, g);
    if k == 0 {
      NoRoots(modules, g, order);
      assert order[..0] == [];
    } else {
      var universe := Universe(modules, g);
      RootsKeep(modules, g, less, order, k - 1);
      RootsOneMore(g, less, Unvisited(modules), order, k - 1, |universe|);
      NextRoot(g, universe, less, modules, order, k - 1, Roots(g, less, Unvisited(modules), order[..k - 1], |universe|));
    }
  }

  lemma NoRoots<M(!new)>(modules: set<M>, g: Graph<M>, order: seq<M>)
    ensures Rooted(g, Universe(modules, g), modules, order, 0, Unvisited(modules))
  {
    UnvisitedInv(modules, g);
  }

  /** Everything the detector's outcome says about the graph, for every order of the modules. */
  lemma OutcomeIsSearch<M(!new)>(modules: set<M>, g: Graph<M>, less: (M, M) -> bool)
    requires StrictTotal(less) && g.Keys <= modules
    ensures var s := Outcome(modules, g, less);
            && SearchResult(g, s.finish, s.cycles) && SearchForest(s.finish, s.parent, s.cycles)
            && modules <= s.finish.Keys
            && Distinct(s.entered) && (forall m :: m in s.entered <==> m in s.finish)
            && (s.cycles == [] <==> Acyclic(g))
            && (modules != {} ==> Ascending(modules, less)[0] !in s.parent)
  {
    hide StrictTotal, Rest, SearchResult, SearchForest, Acyclic, Visit;
    var order := Ascending(modules, less);
    RootsKeep(modules, g, less, order, |order|);
    assert order[..|order|] == order;
    var s := Outcome(modules, g, less);
    BetweenRoots(g, Universe(modules, g), s, |Universe(modules, g)|);
    forall m | m in modules ensures m in s.finish {
      assert m in order;
    }
    EmptyIffAcyclic(g, s.finish, s.cycles);
  }

  /** `detect_cycles` on the modules and import edges that indexing has collected. */
  method DetectCycles<M(!new, ==)>(modules: set<M>, graph: Graph<M>, less: (M, M) -> bool) returns (cycles: seq<seq<M>>)
    requires StrictTotal(less) && graph.Keys <= modules
    ensures cycles == Outcome(modules, graph, less).cycles
    ensures cycles == [] <==> Acyclic(graph)
  {
    hide StrictTotal, Ready, Rest, SearchResult, SearchForest, Acyclic, Universe, Visit, Roots;
    UnvisitedInv(modules, graph);
    ghost var universe := Universe(modules, graph);
    var search := new Search(modules, graph, less, universe);
    var order := Ascending(modules, less);
    NoRootsYet(graph, less, Unvisited(modules), order, |universe|);
    for k := 0 to |order|
      invariant fresh(search) && search.graph == graph && search.less == less && search.universe == universe
      invariant search.Now() == Roots(graph, less, Unvisited(modules), order[..k], |universe|)
    {
      RootsKeep(modules, graph, less, order, k);
      RootsOneMore(graph, less, Unvisited(modules), order, k, |universe|);
      assert order[k] in modules;
      NextRoot(graph, universe, less, modules, order, k, search.Now());
      if search.visited[order[k]] == 0 {
        search.Dfs(order[k], |universe|);
      }
    }
    assert order[..|order|] == order;
    cycles := search.cycles;
    OutcomeIsSearch(modules, graph, less);
  }

  lemma NoRootsYet<M(!new)>(g: Graph<M>, less: (M, M) -> bool, s: State<M>, order: seq<M>, fuel: nat)
    requires StrictTotal(less)
    ensures Roots(g, less, s, order[..0], fuel) == s
  {
    assert order[..0] == [];
  }

  /** The detector on dotted module names in Python's string order. */
  method DetectModuleCycles(modules: set<string>, graph: Graph<string>) returns (cycles: seq<seq<string>>)
    requires graph.Keys <= modules
    ensures StrictTotal(Lexicographic) && cycles == Outcome(modules, graph, Lexicographic).cycles
    ensures cycles == [] <==> Acyclic(graph)
  {
    hide StrictTotal, Acyclic, Outcome;
    LexicographicIsStrictTotal();
    cycles := DetectCycles(modules, graph, Lexicographic);
  }
}
