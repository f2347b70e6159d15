/**
 The order in which the detector searches and reports: modules and their imports by ascending name,
 so that the report is sorted by the paths along which its cycles were found.
 */
module CycleOrder {
  import opened Orders
  import opened ImportGraph
  import opened CycleSearch

  // ----- Modules are entered in order -----

  /** `a` comes before `b`. */
  ghost predicate Comes<T(!new)>(xs: seq<T>, a: T, b: T) {
    exists i, j :: 0 <= i < j < |xs| && xs[i] == a && xs[j] == b
  }

  lemma ComesLonger<T(!new)>(xs: seq<T>, ys: seq<T>, a: T, b: T)
    requires Comes(xs, a, b)
    ensures Comes(xs + ys, a, b)
  {
    var i, j :| 0 <= i < j < |xs| && xs[i] == a && xs[j] == b;
    assert (xs + ys)[i] == a && (xs + ys)[j] == b;
  }

  lemma ComesLast<T(!new)>(xs: seq<T>, a: T, b: T)
    requires a in xs
    ensures Comes(xs + [b], a, b)
  {
    var i :| 0 <= i < |xs| && xs[i] == a;
    assert (xs + [b])[i] == a && (xs + [b])[|xs|] == b;
  }

  /** A module is entered from another only after all smaller modules that the other imports. */
  ghost predicate SiblingsInOrder<M(!new)>(g: Graph<M>, less: (M, M) -> bool, entered: seq<M>, parent: map<M, M>) {
    forall u, v, w :: TreeEdge(parent, u, w) && Edge(g, u, v) && less(v, w) ==> Comes(entered, v, w)
  }

  /** Of the cycles that one module closes, the one that closes at the smaller module is listed first. */
  ghost predicate ClosingsInOrder<M(!new)>(less: (M, M) -> bool, cycles: seq<seq<M>>) {
    forall i, j :: 0 <= i < j < |cycles| && |cycles[i]| >= 2 && |cycles[j]| >= 2
                   && Closing(cycles[i]).0 == Closing(cycles[j]).0 ==>
      less(Closing(cycles[i]).1, Closing(cycles[j]).1)
  }

  ghost predicate InOrder<M(!new)>(g: Graph<M>, less: (M, M) -> bool, s: State<M>) {
    SiblingsInOrder(g, less, s.entered, s.parent) && ClosingsInOrder(less, s.cycles)
  }

  /** All smaller modules that the module on top of the path imports have been entered. */
  ghost predicate Preceded<M(!new)>(g: Graph<M>, less: (M, M) -> bool, s: State<M>, node: M) {
    s.path != [] ==> forall v :: Edge(g, s.path[|s.path| - 1], v) && less(v, node) ==> v in s.entered
  }

  /** The search went on: modules were entered after those of `s`, all from others except a root `node`. */
  ghost predicate WentOn<M(!new)>(s: State<M>, t: State<M>, node: M) {
    && s.entered <= t.entered
    && (forall m :: m in t.entered && m !in t.parent ==> (m in s.entered && m !in s.parent) || (s.path == [] && m == node))
  }

  lemma EnterInOrder<M(!new)>(g: Graph<M>, universe: set<M>, less: (M, M) -> bool, s: State<M>, node: M)
    requires InOrder(g, less, s) && Preceded(g, less, s, node) && node !in s.entered
    requires forall m :: m in s.parent ==> m in s.entered
    ensures InOrder(g, less, Enter(s, node)) && WentOn(s, Enter(s, node), node)
    ensures s.entered + [node] <= Enter(s, node).entered
  {
    var t := Enter(s, node);
    forall u, v, w | TreeEdge(t.parent, u, w) && Edge(g, u, v) && less(v, w) ensures Comes(t.entered, v, w) {
      if w == node {
        ComesLast(s.entered, v, node);
      } else {
        assert TreeEdge(s.parent, u, w);
        ComesLonger(s.entered, [node], v, w);
      }
    }
  }

  lemma RecordInOrder<M(!new)>(g: Graph<M>, less: (M, M) -> bool, s: State<M>, ns: seq<M>, k: nat)
    requires InOrder(g, less, s) && Genuine(g, s.cycles) && Examined(s, ns, k) && k < |ns| && ns[k] in s.path
    requires Sorted(ns, less) && forall v :: v in ns <==> Edge(g, s.path[|s.path| - 1], v)
    ensures InOrder(g, less, Record(s, ns[k]))
  {
    var top, t := s.path[|s.path| - 1], Record(s, ns[k]);
    var c := t.cycles[|s.cycles|];
    ClosingOfRecord(s.path, ns[k]);
    forall i | 0 <= i < |s.cycles| && |s.cycles[i]| >= 2 && Closing(s.cycles[i]).0 == top
      ensures less(Closing(s.cycles[i]).1, ns[k])
    {
      ReportedSmaller(g, less, s, ns, k, i);
    }
    forall i, j | 0 <= i < j < |t.cycles| && |t.cycles[i]| >= 2 && |t.cycles[j]| >= 2
                  && Closing(t.cycles[i]).0 == Closing(t.cycles[j]).0
      ensures less(Closing(t.cycles[i]).1, Closing(t.cycles[j]).1)
    {
      assert t.cycles[i] == s.cycles[i];
      if j < |s.cycles| { assert t.cycles[j] == s.cycles[j]; }
    }
  }

  lemma ClosingOfRecord<M>(path: seq<M>, v: M)
    requires v in path
    ensures var c := path[IndexOf(path, v)..] + [v]; |c| >= 2 && Closing(c) == (path[|path| - 1], v)
  {}

  lemma ReportedSmaller<M(!new)>(g: Graph<M>, less: (M, M) -> bool, s: State<M>, ns: seq<M>, k: nat, i: nat)
    requires Genuine(g, s.cycles) && Examined(s, ns, k) && k < |ns| && i < |s.cycles|
    requires Sorted(ns, less) && forall v :: v in ns <==> Edge(g, s.path[|s.path| - 1], v)
    requires |s.cycles[i]| >= 2 && Closing(s.cycles[i]).0 == s.path[|s.path| - 1]
    ensures less(Closing(s.cycles[i]).1, ns[k])
  {
    var c := s.cycles[i];
    var top, x := s.path[|s.path| - 1], Closing(c).1;
    assert SimpleCycle(g, c);
    var a, b := |c| - 2, |c| - 1;
    assert Edge(g, c[a], c[b]);
    assert Reported(s.cycles, top, x);
    assert x in ns;
    var j :| 0 <= j < |ns| && ns[j] == x;
    assert j < k;
  }

  /** What the search has entered when the first `k` successors have been examined. */
  lemma ExaminedEntered<M(!new)>(g: Graph<M>, universe: set<M>, less: (M, M) -> bool, s: State<M>, ns: seq<M>, k: nat)
    requires Inv(g, universe, s) && Examined(s, ns, k) && k < |ns|
    requires StrictTotal(less) && Sorted(ns, less) && forall v :: v in ns <==> Edge(g, s.path[|s.path| - 1], v)
    ensures Preceded(g, less, s, ns[k])
  {
    forall v | Edge(g, s.path[|s.path| - 1], v) && less(v, ns[k]) ensures v in s.entered {
      assert v in ns;
      var j :| 0 <= j < |ns| && ns[j] == v;
      assert j < k;
    }
  }

  lemma {:induction false} ExaminationInOrder<M(!new)>(
    g: Graph<M>, universe: set<M>, less: (M, M) -> bool, start: State<M>, node: M, s: State<M>, k: nat, fuel: nat)
    requires StrictTotal(less) && Ready(g, universe, less, start, node, fuel + 1) && k < |Neighbors(g, less, node)|
    requires Halfway(g, universe, start, node, s, Neighbors(g, less, node), k) && InOrder(g, less, s)
    ensures var t := Examination(g, less, s, Neighbors(g, less, node)[k], fuel);
            InOrder(g, less, t) && s.entered <= t.entered
            && (forall m :: m in t.entered && m !in t.parent ==> m in s.entered && m !in s.parent)
    decreases fuel, 1, 0
  {
    hide StrictTotal, Forest, Visit, InOrder, Extends, Preceded, Examined, Neighbors;
    var ns := Neighbors(g, less, node);
    NeighborReady(g, universe, less, start, node, s, k, fuel);
    if s.Colour(ns[k]) == 1 {
      RecordInOrder(g, less, s, ns, k);
    } else if s.Colour(ns[k]) == 0 {
      ExaminedEntered(g, universe, less, s, ns, k);
      VisitInOrder(g, universe, less, s, ns[k], fuel);
    }
  }

  lemma {:induction false} ScanInOrder<M(!new)>(
    g: Graph<M>, universe: set<M>, less: (M, M) -> bool, start: State<M>, node: M, k: nat, fuel: nat)
    requires StrictTotal(less) && Ready(g, universe, less, start, node, fuel + 1) && k <= |Neighbors(g, less, node)|
    requires InOrder(g, less, Enter(start, node))
    ensures var e := Enter(start, node);
            var t := Scan(g, less, e, Neighbors(g, less, node)[..k], fuel);
            InOrder(g, less, t) && e.entered <= t.entered
            && (forall m :: m in t.entered && m !in t.parent ==> m in e.entered && m !in e.parent)
    decreases fuel, 2, k
  {
    hide StrictTotal, Ready, Halfway, InOrder, Enter, Neighbors, Examination;
    var ns := Neighbors(g, less, node);
    if k == 0 {
      assert ns[..0] == [];
    } else {
      ScanInOrder(g, universe, less, start, node, k - 1, fuel);
      ScanKeeps(g, universe, less, start, node, k - 1, fuel);
      assert ns[..k][..k - 1] == ns[..k - 1];
      ExaminationInOrder(g, universe, less, start, node, Scan(g, less, Enter(start, node), ns[..k - 1], fuel), k - 1, fuel);
    }
  }

  /** A nested search that is begun in its turn keeps the order. */
  lemma {:induction false} VisitInOrder<M(!new)>(
    g: Graph<M>, universe: set<M>, less: (M, M) -> bool, s: State<M>, node: M, fuel: nat)
    requires StrictTotal(less) && Ready(g, universe, less, s, node, fuel) && InOrder(g, less, s) && Preceded(g, less, s, node)
    ensures var t := Visit(g, less, s, node, fuel);
            InOrder(g, less, t) && WentOn(s, t, node) && s.entered + [node] <= t.entered
    decreases fuel, 0, 0
  {
    hide StrictTotal, Ready, Halfway, Inv, Extends, Forest, Enter, Scan, Visit, Neighbors, InOrder, Preceded;
    ReadyMeans(g, universe, less, s, node, fuel);
    ReadyToEnter(g, universe, less, s, node, fuel);
    EnterInOrder(g, universe, less, s, node);
    var ns := Neighbors(g, less, node);
    ScanInOrder(g, universe, less, s, node, |ns|, fuel - 1);
    assert ns[..|ns|] == ns;
    VisitLeaves(g, less, s, node, fuel);
    LeaveInOrder(g, less, Scan(g, less, Enter(s, node), ns, fuel - 1));
  }

  lemma ReadyToEnter<M(!new)>(g: Graph<M>, universe: set<M>, less: (M, M) -> bool, s: State<M>, node: M, fuel: nat)
    requires Ready(g, universe, less, s, node, fuel)
    ensures node !in s.entered && forall m :: m in s.parent ==> m in s.entered
  {}

  lemma LeaveInOrder<M(!new)>(g: Graph<M>, less: (M, M) -> bool, s: State<M>)
    ensures s.path != [] ==> (InOrder(g, less, Leave(s)) <==> InOrder(g, less, s))
    ensures s.path != [] ==> Leave(s).entered == s.entered && Leave(s).parent == s.parent
  {}

  /** A module entered from no other comes after every smaller module. */
  ghost predicate RootsInOrder<M(!new)>(modules: set<M>, less: (M, M) -> bool, s: State<M>) {
    forall m, x :: m in s.entered && m !in s.parent && x in modules && less(x, m) ==> Comes(s.entered, x, m)
  }

  lemma NextRootInOrder<M(!new)>(
    g: Graph<M>, universe: set<M>, less: (M, M) -> bool, modules: set<M>, order: seq<M>, k: nat, t: State<M>)
    requires StrictTotal(less) && Rooted(g, universe, modules, order, k, t) && k < |order| && order == Ascending(modules, less)
    requires Ready(g, universe, less, t, order[k], |universe|) && InOrder(g, less, t) && RootsInOrder(modules, less, t)
    ensures var s := Visit(g, less, t, order[k], |universe|); InOrder(g, less, s) && RootsInOrder(modules, less, s)
  {
    hide StrictTotal, Ready, Rooted, Visit, InOrder, RootsInOrder, WentOn, Ascending;
    SmallerEntered(g, universe, less, modules, order, k, t);
    VisitInOrder(g, universe, less, t, order[k], |universe|);
    OneMoreRoot(modules, less, t, Visit(g, less, t, order[k], |universe|), order[k]);
  }

  lemma OneMoreRoot<M(!new)>(modules: set<M>, less: (M, M) -> bool, t: State<M>, s: State<M>, node: M)
    requires RootsInOrder(modules, less, t) && WentOn(t, s, node) && t.entered + [node] <= s.entered
    requires forall x :: x in modules && less(x, node) ==> x in t.entered
    ensures RootsInOrder(modules, less, s)
  {
    var n := |t.entered|;
    assert s.entered == t.entered + s.entered[n..] && s.entered == t.entered + [node] + s.entered[n + 1..];
    forall m, x | m in s.entered && m !in s.parent && x in modules && less(x, m) ensures Comes(s.entered, x, m) {
      if m in t.entered && m !in t.parent {
        ComesLonger(t.entered, s.entered[n..], x, m);
      } else {
        ComesLast(t.entered, x, node);
        ComesLonger(t.entered + [node], s.entered[n + 1..], x, node);
      }
    }
  }

  lemma SmallerEntered<M(!new)>(
    g: Graph<M>, universe: set<M>, less: (M, M) -> bool, modules: set<M>, order: seq<M>, k: nat, t: State<M>)
    requires StrictTotal(less) && Rooted(g, universe, modules, order, k, t) && k < |order| && order == Ascending(modules, less)
    ensures t.path == [] && forall x :: x in modules && less(x, order[k]) ==> x in t.entered
  {
    RootedEntered(g, universe, modules, order, k, t);
    hide Rooted, Ascending;
    forall x | x in modules && less(x, order[k]) ensures x in t.entered {
      assert x in order;
      var j :| 0 <= j < |order| && order[j] == x;
      SortedIndex(order, less, j, k);
    }
  }

  lemma RootedEntered<M(!new)>(g: Graph<M>, universe: set<M>, modules: set<M>, order: seq<M>, k: nat, t: State<M>)
    requires Rooted(g, universe, modules, order, k, t)
    ensures t.path == [] && forall j :: 0 <= j < k ==> order[j] in t.entered
  {
    hide Forest, BlackSettled, Genuine, Colours, Distinct, Injective;
  }

  lemma SortedIndex<M(!new)>(xs: seq<M>, less: (M, M) -> bool, j: nat, k: nat)
    requires StrictTotal(less) && Sorted(xs, less) && j < |xs| && k < |xs| && less(xs[j], xs[k])
    ensures j < k
  {
    assert !less(xs[j], xs[j]) && !less(xs[k], xs[j]);
  }

  lemma {:induction false} RootsKeepOrder<M(!new)>(modules: set<M>, g: Graph<M>, less: (M, M) -> bool, k: nat)
    requires StrictTotal(less) && k <= |Ascending(modules, less)|
    ensures var s := Roots(g, less, Unvisited(modules), Ascending(modules, less)[..k], |Universe(modules, g)|);
            InOrder(g, less, s) && RootsInOrder(modules, less, s)
  {
    hide StrictTotal, Rooted, Visit, Universe, InOrder, RootsInOrder, Ready, Roots, Unvisited, Ascending, Closed, Inv, Forest;
    var order, universe := Ascending(modules, less), Universe(modules, g);
    UnvisitedInv(modules, g);
    if k == 0 {
      NothingEntered(modules, g, less);
      NoRootsYet(g, less, Unvisited(modules), order, |universe|);
    } else {
      RootsKeepOrder(modules, g, less, k - 1);
      RootsKeep(modules, g, less, order, k - 1);
      RootsOneMore(g, less, Unvisited(modules), order, k - 1, |universe|);
      var t := Roots(g, less, Unvisited(modules), order[..k - 1], |universe|);
      NextRoot(g, universe, less, modules, order, k - 1, t);
      if t.Colour(order[k - 1]) == 0 {
        NextRootInOrder(g, universe, less, modules, order, k - 1, t);
      }
    }
  }

  lemma NothingEntered<M(!new)>(modules: set<M>, g: Graph<M>, less: (M, M) -> bool)
    ensures InOrder(g, less, Unvisited(modules)) && RootsInOrder(modules, less, Unvisited(modules))
  {}

  /**
   The search goes by ascending names.  If one module was entered from another, every smaller module
   that the other imports was entered before it; a module entered from no other was entered after all
   smaller ones; and of two cycles that one module closes the one that closes at the smaller module
   is reported first.
   */
  lemma OutcomeInOrder<M(!new)>(modules: set<M>, g: Graph<M>, less: (M, M) -> bool)
    requires StrictTotal(less)
    ensures var s := Outcome(modules, g, less);
            && (forall u, v, w :: TreeEdge(s.parent, u, w) && Edge(g, u, v) && less(v, w) ==> Comes(s.entered, v, w))
            && (forall m, x :: m in s.entered && m !in s.parent && x in modules && less(x, m) ==> Comes(s.entered, x, m))
            && (forall i, j :: 0 <= i < |s.cycles| && 0 <= j < |s.cycles| && ClosesBelow(less, s.cycles[i], s.cycles[j]) ==> i < j)
  {
    var order := Ascending(modules, less);
    RootsKeepOrder(modules, g, less, |order|);
    assert order[..|order|] == order;
    var s := Outcome(modules, g, less);
    hide Visit, Roots, Outcome, ClosesBelow, ClosingsInOrder;
    forall i, j | 0 <= i < |s.cycles| && 0 <= j < |s.cycles| && ClosesBelow(less, s.cycles[i], s.cycles[j]) ensures i < j {
      ListedFirst(less, s.cycles, i, j);
    }
  }

  /** Both cycles are closed by one module, the first at a smaller module. */
  ghost predicate ClosesBelow<M>(less: (M, M) -> bool, c: seq<M>, d: seq<M>) {
    && |c| >= 2 && |d| >= 2 && c[|c| - 2] == d[|d| - 2]
    && less(c[|c| - 1], d[|d| - 1])
  }

  lemma ListedFirst<M(!new)>(less: (M, M) -> bool, cycles: seq<seq<M>>, i: nat, j: nat)
    requires StrictTotal(less) && ClosingsInOrder(less, cycles) && i < |cycles| && j < |cycles|
    requires ClosesBelow(less, cycles[i], cycles[j])
    ensures i < j
  {
    var a, b := cycles[i][|cycles[i]| - 1], cycles[j][|cycles[j]| - 1];
    assert !less(a, a) && !less(b, a);
  }

  // ----- The report is sorted -----

  /** At `d` the first sequence ends or has a smaller element than the second; before `d` they agree. */
  ghost predicate PartsAt<M>(less: (M, M) -> bool, a: seq<M>, b: seq<M>, d: nat) {
    d <= |a| && d < |b| && a[..d] == b[..d] && (d == |a| || less(a[d], b[d]))
  }

  /** Lexicographic order, with the order of the names on the elements. */
  ghost predicate Lex<M(!new)>(less: (M, M) -> bool, a: seq<M>, b: seq<M>) {
    exists d: nat :: PartsAt(less, a, b, d)
  }

  lemma LexLonger<M(!new)>(less: (M, M) -> bool, a: seq<M>, b: seq<M>, c: seq<M>)
    requires Lex(less, a, b)
    ensures Lex(less, a, b + c)
  {
    var d: nat :| PartsAt(less, a, b, d);
    assert (b + c)[..d] == b[..d];
    assert PartsAt(less, a, b + c, d);
  }

  lemma LexThrough<M(!new)>(less: (M, M) -> bool, p: seq<M>, v: M, w: M, a: seq<M>)
    requires p + [v] <= a && less(v, w)
    ensures Lex(less, a, p + [w])
  {
    assert a[..|p|] == p == (p + [w])[..|p|] && a[|p|] == v;
    assert PartsAt(less, a, p + [w], |p|);
  }

  /** The path along which the search came to its last module. */
  ghost predicate RootPath<M(!new)>(parent: map<M, M>, p: seq<M>) {
    p != [] && TreePath(parent, p) && p[0] !in parent
  }

  /** The path to the module that closes the cycle, and the module at which it closes. */
  ghost predicate FoundAlong<M(!new)>(parent: map<M, M>, c: seq<M>, key: seq<M>) {
    && |c| >= 2 && |key| >= 2 && RootPath(parent, key[..|key| - 1])
    && key[|key| - 2] == c[|c| - 2] && key[|key| - 1] == c[|c| - 1]
  }

  ghost predicate Found<M(!new)>(s: State<M>, i: nat, key: seq<M>) {
    i < |s.cycles| && FoundAlong(s.parent, s.cycles[i], key)
  }

  ghost predicate ReportSorted<M(!new)>(less: (M, M) -> bool, s: State<M>) {
    forall i: nat, j: nat, k, l :: i < j && Found(s, i, k) && Found(s, j, l) ==> Lex(less, k, l)
  }

  ghost predicate AllBefore<M(!new)>(less: (M, M) -> bool, s: State<M>, bound: seq<M>) {
    forall i: nat, k :: Found(s, i, k) ==> Lex(less, k, bound)
  }

  lemma {:induction false} RootPathUnique<M(!new)>(parent: map<M, M>, p: seq<M>, q: seq<M>)
    requires RootPath(parent, p) && RootPath(parent, q) && p[|p| - 1] == q[|q| - 1]
    ensures p == q
  {
    var m, n := |p| - 1, |q| - 1;
    if m > 0 {
      var i := m - 1;
      assert TreeEdge(parent, p[i], p[m]);
    }
    if n > 0 {
      var i := n - 1;
      assert TreeEdge(parent, q[i], q[n]);
    }
    if m > 0 {
      RootPathUnique(parent, p[..m], q[..n]);
      assert p == p[..m] + [p[m]] && q == q[..n] + [q[n]];
    }
  }

  /** Entering a module changes no path to a module seen before. */
  lemma {:induction false} RootPathKept<M(!new)>(parent: map<M, M>, seen: set<M>, node: M, top: M, p: seq<M>)
    requires node !in seen && node !in parent && forall v :: v in parent && v in seen ==> parent[v] in seen
    requires RootPath(parent[node := top], p) && p[|p| - 1] in seen
    ensures RootPath(parent, p) && forall x :: x in p ==> x in seen
  {
    var n := |p| - 1;
    if n > 0 {
      var i := n - 1;
      assert TreeEdge(parent[node := top], p[i], p[n]);
      RootPathKept(parent, seen, node, top, p[..n]);
      assert p == p[..n] + [p[n]];
    }
  }

  /** Modules are entered from modules seen before, and cycles are closed by modules seen. */
  lemma SeenIsClosed<M(!new)>(g: Graph<M>, universe: set<M>, s: State<M>)
    requires Inv(g, universe, s) && Forest(s)
    ensures forall v :: v in s.parent ==> v in s.Seen() && s.parent[v] in s.Seen()
    ensures forall i :: 0 <= i < |s.cycles| ==> |s.cycles[i]| >= 2 && s.cycles[i][|s.cycles[i]| - 2] in s.Seen()
  {
    hide Colours, Logs, BlackSettled;
    forall v | v in s.parent ensures v in s.Seen() && s.parent[v] in s.Seen() {
      if v in s.path {
        var j :| 0 <= j < |s.path| && s.path[j] == v;
        var i := j - 1;
        assert j > 0 && TreeEdge(s.parent, s.path[i], s.path[j]);
      }
    }
    forall i | 0 <= i < |s.cycles| ensures |s.cycles[i]| >= 2 && s.cycles[i][|s.cycles[i]| - 2] in s.Seen() {
      var c := s.cycles[i];
      assert SimpleCycle(g, c);
      assert Closing(c) == (c[|c| - 2], c[|c| - 1]);
      assert Reported(s.cycles, c[|c| - 2], c[|c| - 1]);
    }
  }

  lemma EnterFinds<M(!new)>(g: Graph<M>, universe: set<M>, s: State<M>, node: M, i: nat, key: seq<M>)
    requires Inv(g, universe, s) && Forest(s) && node !in s.Seen() && Found(Enter(s, node), i, key)
    ensures Found(s, i, key)
  {
    SeenIsClosed(g, universe, s);
    hide Inv, Forest;
    if s.path != [] {
      RootPathKept(s.parent, s.Seen(), node, s.path[|s.path| - 1], key[..|key| - 1]);
    }
  }

  lemma PathIsRootPath<M(!new)>(s: State<M>)
    requires Forest(s) && s.path != []
    ensures RootPath(s.parent, s.path)
  {}

  lemma RecordFinds<M(!new)>(g: Graph<M>, universe: set<M>, s: State<M>, v: M, i: nat, key: seq<M>)
    requires Forest(s) && v in s.path && Found(Record(s, v), i, key)
    ensures Found(s, i, key) || (i == |s.cycles| && key == s.path + [v])
  {
    ClosingOfRecord(s.path, v);
    PathIsRootPath(s);
    hide Forest, RootPath;
    if i == |s.cycles| {
      KeyOfLast(s.parent, s.path, v, Record(s, v).cycles[i], key);
    }
  }

  lemma KeyOfLast<M(!new)>(parent: map<M, M>, path: seq<M>, v: M, c: seq<M>, key: seq<M>)
    requires RootPath(parent, path) && FoundAlong(parent, c, key) && c[|c| - 2] == path[|path| - 1] && c[|c| - 1] == v
    ensures key == path + [v]
  {
    var n := |key| - 1;
    RootPathUnique(parent, key[..n], path);
    assert key == key[..n] + [key[n]];
  }

  /** Cycles found since `start` run through `path` and one of its first `k` continuations. */
  ghost predicate FoundSince<M(!new)>(start: State<M>, s: State<M>, path: seq<M>, ns: seq<M>, k: nat) {
    forall i: nat, key :: Found(s, i, key) ==> Found(start, i, key) || Continues(path, ns, k, key)
  }

  ghost predicate Continues<M(!new)>(path: seq<M>, ns: seq<M>, k: nat, key: seq<M>) {
    exists j :: 0 <= j < k && j < |ns| && path + [ns[j]] <= key
  }

  lemma NextIsAfter<M(!new)>(less: (M, M) -> bool, start: State<M>, s: State<M>, path: seq<M>, ns: seq<M>, k: nat)
    requires AllBefore(less, start, path) && FoundSince(start, s, path, ns, k) && k < |ns| && Sorted(ns, less)
    ensures AllBefore(less, s, path + [ns[k]])
  {
    hide Found;
    forall i: nat, key | Found(s, i, key) ensures Lex(less, key, path + [ns[k]]) {
      if Found(start, i, key) {
        LexLonger(less, key, path, [ns[k]]);
      } else {
        var j :| 0 <= j < k && j < |ns| && path + [ns[j]] <= key;
        LexThrough(less, path, ns[j], ns[k], key);
      }
    }
  }

  lemma ContinuesNow<M(!new)>(path: seq<M>, ns: seq<M>, k: nat, key: seq<M>)
    requires k < |ns| && path + [ns[k]] <= key
    ensures Continues(path, ns, k + 1, key)
  {}

  lemma RecordSorted<M(!new)>(
    g: Graph<M>, universe: set<M>, less: (M, M) -> bool, start: State<M>, s: State<M>, ns: seq<M>, k: nat)
    requires Forest(s) && k < |ns| && ns[k] in s.path && ReportSorted(less, s) && AllBefore(less, s, s.path + [ns[k]])
    requires FoundSince(start, s, s.path, ns, k)
    ensures ReportSorted(less, Record(s, ns[k])) && FoundSince(start, Record(s, ns[k]), s.path, ns, k + 1)
  {
    hide Found, Forest, Lex, Record;
    var t := Record(s, ns[k]);
    forall i: nat, key | Found(t, i, key) ensures Found(s, i, key) || (i == |s.cycles| && key == s.path + [ns[k]]) {
      RecordFinds(g, universe, s, ns[k], i, key);
    }
    forall i: nat, key | Found(t, i, key) ensures Found(start, i, key) || Continues(s.path, ns, k + 1, key) {
      if !Found(s, i, key) { ContinuesNow(s.path, ns, k, key); }
    }
    forall i: nat, key | Found(s, i, key) ensures i < |s.cycles| { FoundInRange(s, i, key); }
    forall i: nat, j: nat, a, b | i < j && Found(t, i, a) && Found(t, j, b) ensures Lex(less, a, b) {
      FoundInRange(t, j, b);
      RecordLength(s, ns[k]);
    }
  }

  lemma FoundInRange<M(!new)>(s: State<M>, i: nat, key: seq<M>)
    requires Found(s, i, key)
    ensures i < |s.cycles|
  {}

  lemma RecordLength<M>(s: State<M>, v: M)
    requires v in s.path
    ensures |Record(s, v).cycles| == |s.cycles| + 1
  {}

  lemma {:induction false} ExaminationSorted<M(!new)>(
    g: Graph<M>, universe: set<M>, less: (M, M) -> bool, start: State<M>, node: M, s: State<M>, k: nat, fuel: nat)
    requires StrictTotal(less) && Ready(g, universe, less, start, node, fuel + 1) && k < |Neighbors(g, less, node)|
    requires Halfway(g, universe, start, node, s, Neighbors(g, less, node), k)
    requires ReportSorted(less, s) && AllBefore(less, start, start.path + [node])
    requires FoundSince(start, s, start.path + [node], Neighbors(g, less, node), k)
    ensures var t := Examination(g, less, s, Neighbors(g, less, node)[k], fuel);
            ReportSorted(less, t) && FoundSince(start, t, start.path + [node], Neighbors(g, less, node), k + 1)
    decreases fuel, 1, 0
  {
    hide StrictTotal, Ready, Visit, ReportSorted, AllBefore, Found, Neighbors, Inv, Forest, Examined, Extends;
    var ns, path := Neighbors(g, less, node), start.path + [node];
    NeighborReady(g, universe, less, start, node, s, k, fuel);
    HalfwayPath(g, universe, start, node, s, ns, k);
    NextIsAfter(less, start, s, path, ns, k);
    if s.Colour(ns[k]) == 1 {
      RecordSorted(g, universe, less, start, s, ns, k);
    } else if s.Colour(ns[k]) == 0 {
      VisitSorted(g, universe, less, s, ns[k], fuel);
      var t := Visit(g, less, s, ns[k], fuel);
      forall i: nat, key | Found(t, i, key) ensures Found(start, i, key) || Continues(path, ns, k + 1, key) {
        if !Found(s, i, key) { ContinuesNow(path, ns, k, key); }
      }
    }
  }

  lemma {:induction false} ScanSorted<M(!new)>(
    g: Graph<M>, universe: set<M>, less: (M, M) -> bool, start: State<M>, node: M, k: nat, fuel: nat)
    requires StrictTotal(less) && Ready(g, universe, less, start, node, fuel + 1) && k <= |Neighbors(g, less, node)|
    requires ReportSorted(less, start) && AllBefore(less, start, start.path + [node])
    ensures var t := Scan(g, less, Enter(start, node), Neighbors(g, less, node)[..k], fuel);
            ReportSorted(less, t) && FoundSince(start, t, start.path + [node], Neighbors(g, less, node), k)
    decreases fuel, 2, k
  {
    hide StrictTotal, Ready, Halfway, ReportSorted, AllBefore, FoundSince, Enter, Neighbors, Examination;
    var ns := Neighbors(g, less, node);
    if k == 0 {
      assert ns[..0] == [];
      EnterSorted(g, universe, less, start, node, fuel, ns);
    } else {
      ScanSorted(g, universe, less, start, node, k - 1, fuel);
      ScanKeeps(g, universe, less, start, node, k - 1, fuel);
      assert ns[..k][..k - 1] == ns[..k - 1];
      ExaminationSorted(g, universe, less, start, node, Scan(g, less, Enter(start, node), ns[..k - 1], fuel), k - 1, fuel);
    }
  }

  lemma EnterSorted<M(!new)>(
    g: Graph<M>, universe: set<M>, less: (M, M) -> bool, start: State<M>, node: M, fuel: nat, ns: seq<M>)
    requires Ready(g, universe, less, start, node, fuel + 1) && ReportSorted(less, start)
    ensures ReportSorted(less, Enter(start, node)) && FoundSince(start, Enter(start, node), start.path + [node], ns, 0)
  {
    assert node !in start.Seen();
    hide StrictTotal, Found, Enter, Lex, Inv, Forest;
    var t := Enter(start, node);
    forall i: nat, key | Found(t, i, key) ensures Found(start, i, key) {
      EnterFinds(g, universe, start, node, i, key);
    }
  }

  /** A nested search keeps the report sorted; what it finds it finds below the module it searches. */
  lemma {:induction false} VisitSorted<M(!new)>(
    g: Graph<M>, universe: set<M>, less: (M, M) -> bool, s: State<M>, node: M, fuel: nat)
    requires StrictTotal(less) && Ready(g, universe, less, s, node, fuel)
    requires ReportSorted(less, s) && AllBefore(less, s, s.path + [node])
    ensures var t := Visit(g, less, s, node, fuel);
            && ReportSorted(less, t)
            && forall i: nat, key :: Found(t, i, key) ==> Found(s, i, key) || s.path + [node] <= key
    decreases fuel, 0, 0
  {
    hide StrictTotal, Ready, Halfway, ReportSorted, AllBefore, Found, Enter, Scan, Visit, Neighbors, Leave;
    ReadyMeans(g, universe, less, s, node, fuel);
    var ns := Neighbors(g, less, node);
    ScanSorted(g, universe, less, s, node, |ns|, fuel - 1);
    assert ns[..|ns|] == ns;
    VisitLeaves(g, less, s, node, fuel);
    var t := Scan(g, less, Enter(s, node), ns, fuel - 1);
    LeaveSorted(less, t);
    forall i: nat, key | Found(t, i, key) ensures Found(s, i, key) || s.path + [node] <= key {
      if !Found(s, i, key) {
        var j :| 0 <= j < |ns| && s.path + [node] + [ns[j]] <= key;
      }
    }
  }

  lemma LeaveSorted<M(!new)>(less: (M, M) -> bool, t: State<M>)
    ensures t.path != [] ==> (ReportSorted(less, Leave(t)) <==> ReportSorted(less, t))
    ensures t.path != [] ==> forall i: nat, key :: Found(Leave(t), i, key) <==> Found(t, i, key)
  {
    hide Lex, Found;
    if t.path != [] {
      forall i: nat, key ensures Found(Leave(t), i, key) <==> Found(t, i, key) { LeaveFinds(t, i, key); }
    }
  }

  lemma LeaveFinds<M(!new)>(t: State<M>, i: nat, key: seq<M>)
    requires t.path != []
    ensures Found(Leave(t), i, key) <==> Found(t, i, key)
  {}

  /** Cycles found so far were found from one of the first `k` roots. */
  lemma {:induction false} RootsSorted<M(!new)>(modules: set<M>, g: Graph<M>, less: (M, M) -> bool, k: nat)
    requires StrictTotal(less) && k <= |Ascending(modules, less)|
    ensures var s := Roots(g, less, Unvisited(modules), Ascending(modules, less)[..k], |Universe(modules, g)|);
            ReportSorted(less, s) && FoundSince(Unvisited(modules), s, [], Ascending(modules, less), k)
  {
    hide StrictTotal, Rooted, Visit, Universe, ReportSorted, AllBefore, Ready, FoundSince, Roots, Unvisited, Ascending, Closed, Inv, Forest;
    var order, universe := Ascending(modules, less), Universe(modules, g);
    UnvisitedInv(modules, g);
    if k == 0 {
      NothingFound(modules, less, order);
      NoRootsYet(g, less, Unvisited(modules), order, |universe|);
    } else {
      RootsSorted(modules, g, less, k - 1);
      RootsKeep(modules, g, less, order, k - 1);
      RootsOneMore(g, less, Unvisited(modules), order, k - 1, |universe|);
      var t := Roots(g, less, Unvisited(modules), order[..k - 1], |universe|);
      NextRoot(g, universe, less, modules, order, k - 1, t);
      RootedEntered(g, universe, modules, order, k - 1, t);
      OneMoreRootSorted(g, universe, less, modules, order, k - 1, t);
    }
  }

  lemma NothingFound<M(!new)>(modules: set<M>, less: (M, M) -> bool, order: seq<M>)
    ensures ReportSorted(less, Unvisited(modules)) && FoundSince(Unvisited(modules), Unvisited(modules), [], order, 0)
    ensures AllBefore(less, Unvisited(modules), [])
  {}

  lemma OneMoreRootSorted<M(!new)>(
    g: Graph<M>, universe: set<M>, less: (M, M) -> bool, modules: set<M>, order: seq<M>, k: nat, t: State<M>)
    requires StrictTotal(less) && k < |order| && Sorted(order, less) && t.path == [] && ReportSorted(less, t)
    requires FoundSince(Unvisited(modules), t, [], order, k)
    requires t.Colour(order[k]) == 0 ==> Ready(g, universe, less, t, order[k], |universe|)
    ensures var s := if t.Colour(order[k]) == 0 then Visit(g, less, t, order[k], |universe|) else t;
            ReportSorted(less, s) && FoundSince(Unvisited(modules), s, [], order, k + 1)
  {
    hide StrictTotal, Ready, Visit, ReportSorted, AllBefore, Found, Unvisited;
    var start := Unvisited(modules);
    NothingFound(modules, less, order);
    NextIsAfter(less, start, t, [], order, k);
    if t.Colour(order[k]) == 0 {
      assert t.path + [order[k]] == [] + [order[k]];
      VisitSorted(g, universe, less, t, order[k], |universe|);
      var s := Visit(g, less, t, order[k], |universe|);
      forall i: nat, key | Found(s, i, key) ensures Found(start, i, key) || Continues([], order, k + 1, key) {
        if !Found(t, i, key) { ContinuesNow([], order, k, key); }
      }
    }
  }

  ghost function LaterThan<M>(finish: map<M, nat>, m: M): set<M>
    requires m in finish
  {
    set x | x in finish && finish[x] > finish[m]
  }

  /** Every searched module has a path to it from a root. */
  lemma {:induction false} RootPathExists<M(!new)>(finish: map<M, nat>, parent: map<M, M>, cycles: seq<seq<M>>, m: M)
    returns (p: seq<M>)
    requires SearchForest(finish, parent, cycles) && m in finish
    ensures RootPath(parent, p) && p[|p| - 1] == m
    decreases LaterThan(finish, m)
  {
    p := [m];
    if m in parent {
      var u := parent[m];
      assert u in LaterThan(finish, m) - LaterThan(finish, u) && LaterThan(finish, u) < LaterThan(finish, m);
      var q := RootPathExists(finish, parent, cycles, u);
      p := q + [m];
      forall i, j | 0 <= i && j == i + 1 < |p| ensures TreeEdge(parent, p[i], p[j]) {
        if j < |q| { assert p[i] == q[i] && p[j] == q[j]; }
      }
    }
  }

  /**
   The report is sorted: every cycle was found along one path down from a root, and the cycles are
   listed in the lexicographic order of these paths, continued to the module at which they close.
   */
  lemma ReportIsSorted<M(!new)>(modules: set<M>, g: Graph<M>, less: (M, M) -> bool)
    requires StrictTotal(less) && g.Keys <= modules
    ensures EachFound(Outcome(modules, g, less)) && ReportSorted(less, Outcome(modules, g, less))
  {
    hide StrictTotal, Outcome, SearchForest, SearchResult, ReportSorted, EachFound, Acyclic, Ascending, Distinct;
    OutcomeSorted(modules, g, less);
    OutcomeIsSearch(modules, g, less);
    EachIsFound(g, Outcome(modules, g, less));
  }

  ghost predicate EachFound<M(!new)>(s: State<M>) {
    forall c :: c in s.cycles ==> exists key :: FoundAlong(s.parent, c, key)
  }

  lemma OutcomeSorted<M(!new)>(modules: set<M>, g: Graph<M>, less: (M, M) -> bool)
    requires StrictTotal(less)
    ensures ReportSorted(less, Outcome(modules, g, less))
  {
    hide StrictTotal, Roots, ReportSorted, FoundSince, Ascending;
    var order := Ascending(modules, less);
    RootsSorted(modules, g, less, |order|);
    assert order[..|order|] == order;
  }

  lemma EachIsFound<M(!new)>(g: Graph<M>, s: State<M>)
    requires SearchResult(g, s.finish, s.cycles) && SearchForest(s.finish, s.parent, s.cycles) && g.Keys <= s.finish.Keys
    ensures EachFound(s)
  {
    hide SearchResult, SearchForest, FoundAlong;
    forall c | c in s.cycles ensures exists key :: FoundAlong(s.parent, c, key) {
      var i :| 0 <= i < |s.cycles| && s.cycles[i] == c;
      var key := FoundSomewhere(g, s, i);
    }
  }

  lemma FoundSomewhere<M(!new)>(g: Graph<M>, s: State<M>, i: nat) returns (key: seq<M>)
    requires SearchResult(g, s.finish, s.cycles) && SearchForest(s.finish, s.parent, s.cycles) && i < |s.cycles|
    requires g.Keys <= s.finish.Keys
    ensures FoundAlong(s.parent, s.cycles[i], key)
  {
    var c := s.cycles[i];
    assert SimpleCycle(g, c);
    var a, b := |c| - 2, |c| - 1;
    assert Edge(g, c[a], c[b]);
    var p := RootPathExists(s.finish, s.parent, s.cycles, c[a]);
    key := p + [c[b]];
    assert key[..|key| - 1] == p;
  }
}
