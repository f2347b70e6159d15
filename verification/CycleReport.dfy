/**
 Which cycles the detector lists.  A reported cycle runs down the search forest and closes with a
 back edge, so the report is complete exactly when no cycle uses any other kind of edge.
 */
module CycleReport {
  import opened Orders
  import opened ImportGraph
  import opened CycleSearch

  ghost predicate AllListed<M(!new)>(g: Graph<M>, cycles: seq<seq<M>>) {
    forall d :: SimpleCycle(g, d) ==> Lists(cycles, d)
  }

  /** The search went along the edge or reported it; it did not skip it as leading to a finished module. */
  ghost predicate Followed<M(!new)>(parent: map<M, M>, cycles: seq<seq<M>>, e: (M, M)) {
    TreeEdge(parent, e.0, e.1) || Reported(cycles, e.0, e.1)
  }

  /** No edge on a cycle was skipped. */
  ghost predicate NoneSkipped<M(!new)>(g: Graph<M>, parent: map<M, M>, cycles: seq<seq<M>>) {
    forall d, e :: SimpleCycle(g, d) && e in Edges(d) ==> Followed(parent, cycles, e)
  }

  // ----- Edges of sequences -----

  lemma {:induction false} EdgeIsStep<M>(c: seq<M>, e: (M, M)) returns (i: nat)
    requires e in Edges(c)
    ensures i + 1 < |c| && e == (c[i], c[i + 1])
  {
    if e == (c[0], c[1]) {
      i := 0;
    } else {
      i := EdgeIsStep(c[1..], e);
      i := i + 1;
    }
  }

  /** Two paths glued at the end of the first and the start of the second. */
  lemma {:induction false} GlueEdges<M>(a: seq<M>, b: seq<M>)
    requires a != [] && b != [] && a[|a| - 1] == b[0]
    ensures Edges(a + b[1..]) == Edges(a) + Edges(b)
  {
    if |a| == 1 {
      assert a + b[1..] == b;
    } else {
      assert (a + b[1..])[1..] == a[1..] + b[1..];
      GlueEdges(a[1..], b);
    }
  }

  lemma GlueWalk<M(!new)>(g: Graph<M>, a: seq<M>, b: seq<M>)
    requires a != [] && b != [] && a[|a| - 1] == b[0] && Walk(g, a) && Walk(g, b)
    ensures Walk(g, a + b[1..])
  {}

  ghost function Rotated<M>(d: seq<M>, i: nat): seq<M>
    requires i < |d|
  {
    d[i..] + d[..i + 1][1..]
  }

  lemma SliceWalk<M(!new)>(g: Graph<M>, p: seq<M>, i: nat)
    requires Walk(g, p) && i < |p|
    ensures Walk(g, p[i..]) && Walk(g, p[..i + 1])
  {}

  lemma RotatedAt<M>(d: seq<M>, i: nat, k: nat)
    requires 1 <= i < |d| && k < |d| - 1 && d[0] == d[|d| - 1]
    ensures Rotated(d, i)[k] == d[if i + k < |d| - 1 then i + k else i + k - (|d| - 1)]
  {}

  lemma RotatedDistinct<M>(d: seq<M>, i: nat)
    requires 1 <= i < |d| && d[0] == d[|d| - 1] && Distinct(d[..|d| - 1])
    ensures Distinct(Rotated(d, i)[..|d| - 1])
  {
    var n, r := |d| - 1, Rotated(d, i);
    forall k, l | 0 <= k < l < n ensures r[..n][k] != r[..n][l] {
      RotatedAt(d, i, k);
      RotatedAt(d, i, l);
      var x := if i + k < n then i + k else i + k - n;
      var y := if i + l < n then i + l else i + l - n;
      assert d[..n][x] == d[x] && d[..n][y] == d[y];
    }
  }

  /** A cycle started from another of its modules. */
  lemma RotatedIsCycle<M(!new)>(g: Graph<M>, d: seq<M>, i: nat)
    requires SimpleCycle(g, d) && 1 <= i < |d|
    ensures SimpleCycle(g, Rotated(d, i)) && Edges(Rotated(d, i)) == Edges(d)
    ensures Rotated(d, i)[0] == d[i] && Rotated(d, i)[|d| - 2] == d[i - 1] && |Rotated(d, i)| == |d|
  {
    hide Walk, Distinct, Edges;
    var a, b := d[..i + 1], d[i..];
    assert a + b[1..] == d;
    GlueEdges(a, b);
    GlueEdges(b, a);
    SliceWalk(g, d, i);
    GlueWalk(g, b, a);
    RotatedDistinct(d, i);
  }

  // ----- Paths down the forest -----

  /** Of two tree paths with the same end, the shorter is a suffix of the longer. */
  lemma {:induction false} ShorterIsSuffix<M(!new)>(parent: map<M, M>, a: seq<M>, b: seq<M>)
    requires TreePath(parent, a) && TreePath(parent, b) && 0 < |a| <= |b| && a[|a| - 1] == b[|b| - 1]
    ensures a == b[|b| - |a|..]
    decreases |a|
  {
    if |a| > 1 {
      var a0, b0 := a[..|a| - 1], b[..|b| - 1];
      assert TreeEdge(parent, a[|a| - 2], a[|a| - 1]) && TreeEdge(parent, b[|b| - 2], b[|b| - 1]);
      ShorterIsSuffix(parent, a0, b0);
      assert a == a0 + [a[|a| - 1]];
    }
  }

  /** Finishing numbers fall along tree paths. */
  lemma {:induction false} TreePathDescends<M(!new)>(
    finish: map<M, nat>, parent: map<M, M>, cycles: seq<seq<M>>, p: seq<M>, k: nat)
    requires SearchForest(finish, parent, cycles) && TreePath(parent, p) && 0 < k < |p|
    ensures p[0] in finish && p[k] in finish && finish[p[k]] < finish[p[0]]
  {
    assert TreeEdge(parent, p[k - 1], p[k]);
    if k > 1 {
      TreePathDescends(finish, parent, cycles, p, k - 1);
    }
  }

  /** The part of a reported cycle before its closing edge. */
  lemma ReportedPath<M(!new)>(g: Graph<M>, parent: map<M, M>, cycles: seq<seq<M>>, u: M, v: M) returns (k: nat, p: seq<M>)
    requires Genuine(g, cycles) && TreeCycles(parent, cycles) && Reported(cycles, u, v)
    ensures k < |cycles| && cycles[k] == p + [v] && p != [] && p[0] == v && p[|p| - 1] == u
    ensures TreePath(parent, p) && Distinct(p)
  {
    k :| 0 <= k < |cycles| && |cycles[k]| >= 2 && Closing(cycles[k]) == (u, v);
    var c := cycles[k];
    assert SimpleCycle(g, c);
    p := c[..|c| - 1];
    assert c == p + [v];
  }

  // ----- The theorem -----

  ghost predicate ReportedStep<M(!new)>(cycles: seq<seq<M>>, d: seq<M>, i: nat) {
    1 <= i < |d| && Reported(cycles, d[i - 1], d[i])
  }

  lemma {:induction false} LatestTargetExists<M(!new)>(
    finish: map<M, nat>, cycles: seq<seq<M>>, d: seq<M>, n: nat) returns (i: nat)
    requires n < |d| && exists k :: 1 <= k <= n && ReportedStep(cycles, d, k)
    requires forall k :: 1 <= k < |d| ==> d[k] in finish
    ensures 1 <= i <= n && ReportedStep(cycles, d, i)
    ensures forall k :: 1 <= k <= n && ReportedStep(cycles, d, k) ==> finish[d[k]] <= finish[d[i]]
    decreases n
  {
    if exists k :: 1 <= k <= n - 1 && ReportedStep(cycles, d, k) {
      i := LatestTargetExists(finish, cycles, d, n - 1);
      if ReportedStep(cycles, d, n) && finish[d[n]] > finish[d[i]] {
        i := n;
      }
    } else {
      i := n;
    }
  }

  /** A cycle of followed edges that starts at the target, finishing last, of its reported edges. */
  ghost predicate Leading<M(!new)>(
    g: Graph<M>, finish: map<M, nat>, parent: map<M, M>, cycles: seq<seq<M>>, q: seq<M>)
  {
    && SearchResult(g, finish, cycles) && SearchForest(finish, parent, cycles) && SimpleCycle(g, q)
    && q[0] in finish && Reported(cycles, q[|q| - 2], q[0])
    && (forall e :: e in Edges(q) ==> Followed(parent, cycles, e))
    && (forall e :: e in Edges(q) && Reported(cycles, e.0, e.1) ==> e.1 in finish && finish[e.1] <= finish[q[0]])
  }

  /** After tree edges only, the next edge is not reported: it would climb above the start. */
  lemma NotReportedBeforeEnd<M(!new)>(
    g: Graph<M>, finish: map<M, nat>, parent: map<M, M>, cycles: seq<seq<M>>, q: seq<M>, k: nat)
    requires Leading(g, finish, parent, cycles, q) && 1 <= k < |q| - 1 && TreePath(parent, q[..k])
    ensures !Reported(cycles, q[k - 1], q[k])
  {
    hide Walk, Reported, TreePath, TreeCycles, Edges;
    if Reported(cycles, q[k - 1], q[k]) {
      StepIsEdge(q, k - 1);
      var j, p := ReportedPath(g, parent, cycles, q[k - 1], q[k]);
      var down := q[..k];
      if |p| <= k {
        ShorterIsSuffix(parent, p, down);
        assert false;
      } else {
        ShorterIsSuffix(parent, down, p);
        TreePathDescends(finish, parent, cycles, p, |p| - k);
        assert false;
      }
    }
  }

  lemma ExtendTreePath<M(!new)>(parent: map<M, M>, p: seq<M>, v: M)
    requires TreePath(parent, p) && p != [] && TreeEdge(parent, p[|p| - 1], v)
    ensures TreePath(parent, p + [v])
  {}

  lemma {:induction false} RunsDownTheForest<M(!new)>(
    g: Graph<M>, finish: map<M, nat>, parent: map<M, M>, cycles: seq<seq<M>>, q: seq<M>, k: nat)
    requires Leading(g, finish, parent, cycles, q) && 1 <= k <= |q| - 1
    ensures TreePath(parent, q[..k])
    decreases k
  {
    if k > 1 {
      hide Leading, TreePath, SimpleCycle;
      RunsDownTheForest(g, finish, parent, cycles, q, k - 1);
      NotReportedBeforeEnd(g, finish, parent, cycles, q, k - 1);
      NextIsFollowed(g, finish, parent, cycles, q, k - 2);
      ExtendTreePath(parent, q[..k - 1], q[k - 1]);
      assert q[..k] == q[..k - 1] + [q[k - 1]];
    } else {
      assert TreePath(parent, q[..1]);
    }
  }

  lemma NextIsFollowed<M(!new)>(
    g: Graph<M>, finish: map<M, nat>, parent: map<M, M>, cycles: seq<seq<M>>, q: seq<M>, i: nat)
    requires Leading(g, finish, parent, cycles, q) && i + 1 < |q|
    ensures Followed(parent, cycles, (q[i], q[i + 1]))
  {
    StepIsEdge(q, i);
  }

  /** Two tree paths with the same ends and no repetition are the same path. */
  lemma TreePathUnique<M(!new)>(parent: map<M, M>, a: seq<M>, b: seq<M>)
    requires TreePath(parent, a) && TreePath(parent, b) && Distinct(a) && Distinct(b) && a != [] && b != []
    requires a[0] == b[0] && a[|a| - 1] == b[|b| - 1]
    ensures a == b
  {
    if |a| <= |b| {
      ShorterIsSuffix(parent, a, b);
      assert b[|b| - |a|] == b[0];
    } else {
      ShorterIsSuffix(parent, b, a);
      assert false;
    }
  }

  lemma LeadingIsListed<M(!new)>(
    g: Graph<M>, finish: map<M, nat>, parent: map<M, M>, cycles: seq<seq<M>>, q: seq<M>)
    requires Leading(g, finish, parent, cycles, q)
    ensures q in cycles
  {
    hide TreePath, TreeCycles, Reported, Walk, Edges;
    var n := |q| - 1;
    RunsDownTheForest(g, finish, parent, cycles, q, n);
    var k, p := ReportedPath(g, parent, cycles, q[n - 1], q[0]);
    TreePathUnique(parent, q[..n], p);
    assert q == q[..n] + [q[0]];
    assert cycles[k] == q;
  }

  lemma CycleIsFinished<M(!new)>(g: Graph<M>, finish: map<M, nat>, d: seq<M>, k: nat)
    requires ClosedWalk(g, d) && g.Keys <= finish.Keys && k < |d|
    ensures d[k] in finish
  {
    var i := if k < |d| - 1 then k else 0;
    assert Edge(g, d[i], d[i + 1]);
  }

  lemma LatestTargetBounds<M(!new)>(finish: map<M, nat>, cycles: seq<seq<M>>, d: seq<M>, i: nat, e: (M, M))
    requires 1 <= i < |d| && e in Edges(d) && Reported(cycles, e.0, e.1)
    requires forall k :: 0 <= k < |d| ==> d[k] in finish
    requires forall k :: 1 <= k <= |d| - 1 && ReportedStep(cycles, d, k) ==> finish[d[k]] <= finish[d[i]]
    ensures e.1 in finish && finish[e.1] <= finish[d[i]]
  {
    var k := EdgeIsStep(d, e);
    assert ReportedStep(cycles, d, k + 1);
  }

  lemma SomeStepReported<M(!new)>(g: Graph<M>, finish: map<M, nat>, cycles: seq<seq<M>>, d: seq<M>)
    requires SearchResult(g, finish, cycles) && g.Keys <= finish.Keys && ClosedWalk(g, d)
    ensures exists k :: 1 <= k <= |d| - 1 && ReportedStep(cycles, d, k)
  {
    ClosedWalkMeetsReport(g, finish, cycles, d);
    var i, j :| 0 <= i && j == i + 1 < |d| && Reported(cycles, d[i], d[j]);
    assert ReportedStep(cycles, d, j);
  }

  lemma RotationLeads<M(!new)>(
    g: Graph<M>, finish: map<M, nat>, parent: map<M, M>, cycles: seq<seq<M>>, d: seq<M>, i: nat)
    requires SearchResult(g, finish, cycles) && SearchForest(finish, parent, cycles)
    requires SimpleCycle(g, d) && forall e :: e in Edges(d) ==> Followed(parent, cycles, e)
    requires forall k :: 0 <= k < |d| ==> d[k] in finish
    requires ReportedStep(cycles, d, i)
    requires forall k :: 1 <= k <= |d| - 1 && ReportedStep(cycles, d, k) ==> finish[d[k]] <= finish[d[i]]
    ensures Leading(g, finish, parent, cycles, Rotated(d, i)) && Edges(Rotated(d, i)) == Edges(d)
  {
    hide SimpleCycle, Edges, SearchResult, SearchForest, Followed, Reported, Rotated;
    RotatedIsCycle(g, d, i);
    var q := Rotated(d, i);
    forall e | e in Edges(q) && Reported(cycles, e.0, e.1) ensures e.1 in finish && finish[e.1] <= finish[q[0]] {
      LatestTargetBounds(finish, cycles, d, i, e);
    }
  }

  lemma FollowedCycleIsListed<M(!new)>(
    g: Graph<M>, finish: map<M, nat>, parent: map<M, M>, cycles: seq<seq<M>>, d: seq<M>)
    requires SearchResult(g, finish, cycles) && SearchForest(finish, parent, cycles) && g.Keys <= finish.Keys
    requires SimpleCycle(g, d) && forall e :: e in Edges(d) ==> Followed(parent, cycles, e)
    ensures Lists(cycles, d)
  {
    hide Walk, Distinct, Edges, SearchResult, SearchForest, Followed, Reported, ReportedStep, Leading;
    SomeStepReported(g, finish, cycles, d);
    forall k | 0 <= k < |d| ensures d[k] in finish {
      CycleIsFinished(g, finish, d, k);
    }
    var i := LatestTargetExists(finish, cycles, d, |d| - 1);
    RotationLeads(g, finish, parent, cycles, d, i);
    LeadingIsListed(g, finish, parent, cycles, Rotated(d, i));
  }

  lemma ListedIsFollowed<M(!new)>(g: Graph<M>, parent: map<M, M>, cycles: seq<seq<M>>, k: nat, e: (M, M))
    requires Genuine(g, cycles) && TreeCycles(parent, cycles) && k < |cycles| && e in Edges(cycles[k])
    ensures Followed(parent, cycles, e)
  {
    var c := cycles[k];
    assert SimpleCycle(g, c);
    var i := EdgeIsStep(c, e);
    if i + 2 < |c| {
      assert TreeEdge(parent, c[..|c| - 1][i], c[..|c| - 1][i + 1]);
    } else {
      assert Closing(c) == e;
    }
  }

  /** The report lists every cycle exactly when no edge on a cycle was skipped. */
  lemma AllListedIff<M(!new)>(g: Graph<M>, finish: map<M, nat>, parent: map<M, M>, cycles: seq<seq<M>>)
    requires SearchResult(g, finish, cycles) && SearchForest(finish, parent, cycles) && g.Keys <= finish.Keys
    ensures AllListed(g, cycles) <==> NoneSkipped(g, parent, cycles)
  {
    hide SimpleCycle, Edges, Followed;
    if NoneSkipped(g, parent, cycles) {
      forall d | SimpleCycle(g, d) ensures Lists(cycles, d) {
        FollowedCycleIsListed(g, finish, parent, cycles, d);
      }
    }
    if AllListed(g, cycles) {
      forall d, e | SimpleCycle(g, d) && e in Edges(d) ensures Followed(parent, cycles, e) {
        assert Lists(cycles, d);
        var k :| 0 <= k < |cycles| && Edges(cycles[k]) == Edges(d);
        ListedIsFollowed(g, parent, cycles, k, e);
      }
    }
  }

  // ----- The condition on the graph -----

  /** Cycles that share an edge are the same cycle. */
  ghost predicate EdgeDisjoint<M(!new)>(g: Graph<M>) {
    forall c, d :: SimpleCycle(g, c) && SimpleCycle(g, d) && Edges(c) * Edges(d) != {} ==> Edges(c) == Edges(d)
  }

  /** A cycle rotated to begin with a given one of its edges. */
  lemma StartWith<M(!new)>(g: Graph<M>, c: seq<M>, e: (M, M)) returns (r: seq<M>)
    requires SimpleCycle(g, c) && e in Edges(c)
    ensures SimpleCycle(g, r) && Edges(r) == Edges(c) && (r[0], r[1]) == e
  {
    var i := EdgeIsStep(c, e);
    if i == 0 {
      r := c;
    } else {
      RotatedIsCycle(g, c, i);
      r := Rotated(c, i);
    }
  }

  /** Two cycles with a common first edge that are not the same part at some later module. */
  lemma {:induction false} PartingPoint<M(!new)>(g: Graph<M>, c: seq<M>, d: seq<M>, n: nat) returns (k: nat)
    requires SimpleCycle(g, c) && SimpleCycle(g, d) && c != d
    requires 1 <= n < |c| && n < |d| && c[..n + 1] == d[..n + 1]
    ensures 1 <= k < |c| - 1 && k < |d| - 1 && c[k] == d[k] && c[k + 1] != d[k + 1]
    decreases |c| - n
  {
    assert forall i :: 0 <= i <= n ==> c[i] == c[..n + 1][i] == d[i];
    assert (n == |c| - 1 ==> c == c[..n + 1]) && (n == |d| - 1 ==> d == d[..n + 1]);
    if n == |c| - 1 || n == |d| - 1 {
      ClosesOnce(g, c, d, n);
      assert false;
    } else if c[n + 1] != d[n + 1] {
      k := n;
    } else {
      assert c[..n + 2] == c[..n + 1] + [c[n + 1]] && d[..n + 2] == d[..n + 1] + [d[n + 1]];
      k := PartingPoint(g, c, d, n + 1);
    }
  }

  /** Where one of two cycles with a common beginning closes, so does the other. */
  lemma ClosesOnce<M(!new)>(g: Graph<M>, c: seq<M>, d: seq<M>, n: nat)
    requires SimpleCycle(g, c) && SimpleCycle(g, d) && 1 <= n < |c| && n < |d|
    requires c[0] == d[0] && c[n] == d[n] && (n == |c| - 1 || n == |d| - 1)
    ensures n == |c| - 1 == |d| - 1
  {}

  /** A walk of followed edges that starts at a child of the root `w` and avoids `w` stays below that child. */
  lemma {:induction false} StaysBelow<M(!new)>(
    g: Graph<M>, parent: map<M, M>, cycles: seq<seq<M>>, w: M, q: seq<M>) returns (p: seq<M>)
    requires Genuine(g, cycles) && TreeCycles(parent, cycles) && w !in parent
    requires q != [] && w !in q && TreeEdge(parent, w, q[0])
    requires forall e :: e in Edges(q) ==> Followed(parent, cycles, e)
    ensures p != [] && TreePath(parent, p) && p[0] == q[0] && p[|p| - 1] == q[|q| - 1]
    decreases |q|
  {
    if |q| == 1 {
      p := q;
    } else {
      var n := |q| - 1;
      var init := q[..n];
      FollowedPrefix(parent, cycles, q, n);
      p := StaysBelow(g, parent, cycles, w, init);
      p := OneStepBelow(g, parent, cycles, w, p, q[n]);
    }
  }

  lemma FollowedPrefix<M(!new)>(parent: map<M, M>, cycles: seq<seq<M>>, q: seq<M>, n: nat)
    requires 1 <= n < |q| && forall e :: e in Edges(q) ==> Followed(parent, cycles, e)
    ensures forall e :: e in Edges(q[..n]) ==> Followed(parent, cycles, e)
    ensures Followed(parent, cycles, (q[n - 1], q[n]))
  {
    assert q[..n] + q[n - 1..][1..] == q;
    GlueEdges(q[..n], q[n - 1..]);
    StepIsEdge(q, n - 1);
  }

  lemma OneStepBelow<M(!new)>(
    g: Graph<M>, parent: map<M, M>, cycles: seq<seq<M>>, w: M, p: seq<M>, v: M) returns (r: seq<M>)
    requires Genuine(g, cycles) && TreeCycles(parent, cycles) && w !in parent && v != w
    requires p != [] && TreePath(parent, p) && TreeEdge(parent, w, p[0])
    requires Followed(parent, cycles, (p[|p| - 1], v))
    ensures r != [] && TreePath(parent, r) && r[0] == p[0] && r[|r| - 1] == v
  {
    var u := p[|p| - 1];
    if TreeEdge(parent, u, v) {
      ExtendTreePath(parent, p, v);
      r := p + [v];
    } else {
      var k, up := ReportedPath(g, parent, cycles, u, v);
      if |up| <= |p| {
        ShorterIsSuffix(parent, up, p);
        var i := |p| - |up|;
        assert p[i] == v;
        r := p[..i + 1];
        assert TreePath(parent, r);
      } else {
        ShorterIsSuffix(parent, p, up);
        var i := |up| - |p|;
        assert up[i] == p[0] && TreeEdge(parent, up[i - 1], up[i]);
        AboveRootIsNothing(parent, up, i - 1, w);
        assert false;
      }
    }
  }

  /** On a tree path a module without a parent can only come first. */
  lemma AboveRootIsNothing<M(!new)>(parent: map<M, M>, p: seq<M>, i: nat, w: M)
    requires TreePath(parent, p) && i < |p| && p[i] == w && w !in parent
    ensures i == 0
  {
    assert i > 0 ==> TreeEdge(parent, p[i - 1], p[i]);
  }

  /** No module lies below two children of a root. */
  lemma OneChildAbove<M(!new)>(parent: map<M, M>, w: M, a: seq<M>, b: seq<M>)
    requires w !in parent && a != [] && b != [] && TreePath(parent, a) && TreePath(parent, b)
    requires TreeEdge(parent, w, a[0]) && TreeEdge(parent, w, b[0]) && a[|a| - 1] == b[|b| - 1]
    ensures a[0] == b[0]
  {
    if |a| <= |b| {
      ChildStartsPath(parent, w, a, b);
    } else {
      ChildStartsPath(parent, w, b, a);
    }
  }

  lemma ChildStartsPath<M(!new)>(parent: map<M, M>, w: M, a: seq<M>, b: seq<M>)
    requires w !in parent && 0 < |a| <= |b| && TreePath(parent, a) && TreePath(parent, b)
    requires TreeEdge(parent, w, a[0]) && TreeEdge(parent, w, b[0]) && a[|a| - 1] == b[|b| - 1]
    ensures a[0] == b[0]
  {
    ShorterIsSuffix(parent, a, b);
    var i := |b| - |a|;
    if i > 0 {
      assert TreeEdge(parent, b[i - 1], b[i]) && b[i - 1] == w;
      AboveRootIsNothing(parent, b, i - 1, w);
      assert false;
    }
  }

  /** The edges of a cycle out of the root `w` go to children of `w`. */
  lemma RootEdgeIsTree<M(!new)>(g: Graph<M>, parent: map<M, M>, cycles: seq<seq<M>>, w: M, x: M)
    requires Genuine(g, cycles) && TreeCycles(parent, cycles) && w !in parent && x != w
    requires Followed(parent, cycles, (w, x))
    ensures TreeEdge(parent, w, x)
  {
    if !TreeEdge(parent, w, x) {
      var k, p := ReportedPath(g, parent, cycles, w, x);
      AboveRootIsNothing(parent, p, |p| - 1, w);
      assert false;
    }
  }

  /** From the parting point on, a cycle of followed edges returns to its start below one child of the parting point. */
  lemma ReturnsBelow<M(!new)>(
    g: Graph<M>, parent: map<M, M>, cycles: seq<seq<M>>, c: seq<M>, k: nat) returns (p: seq<M>)
    requires Genuine(g, cycles) && TreeCycles(parent, cycles) && SimpleCycle(g, c) && 1 <= k < |c| - 1
    requires c[k] !in parent && forall e :: e in Edges(c) ==> Followed(parent, cycles, e)
    ensures p != [] && TreePath(parent, p) && p[0] == c[k + 1] && p[|p| - 1] == c[0] && TreeEdge(parent, c[k], p[0])
  {
    hide Edges, Walk, Followed, TreePath, TreeCycles, Genuine;
    var w, q := c[k], c[k + 1..];
    assert w !in q by {
      forall i | 0 <= i < |q| ensures q[i] != w {
        var n := |c| - 1;
        var at := if k + 1 + i == n then 0 else k + 1 + i;
        assert c[..n][at] == q[i] && c[..n][k] == w;
      }
    }
    StepIsEdge(c, k);
    RootEdgeIsTree(g, parent, cycles, w, q[0]);
    assert c[..k + 2] + q[1..] == c;
    GlueEdges(c[..k + 2], q);
    p := StaysBelow(g, parent, cycles, w, q);
  }

  /** An outcome of the search that entered `w` from no other module. */
  ghost predicate RootedAt<M(!new)>(g: Graph<M>, w: M, finish: map<M, nat>, parent: map<M, M>, cycles: seq<seq<M>>) {
    && SearchResult(g, finish, cycles) && SearchForest(finish, parent, cycles)
    && g.Keys <= finish.Keys && w !in parent
  }

  /**
   Two different cycles that share an edge: rooted at the module where they part, the search skips
   an edge and does not list them all.
   */
  lemma OverlapIsMissed<M(!new)>(g: Graph<M>, c: seq<M>, d: seq<M>) returns (w: M)
    requires SimpleCycle(g, c) && SimpleCycle(g, d) && Edges(c) * Edges(d) != {} && Edges(c) != Edges(d)
    ensures w in g
    ensures forall finish, parent, cycles :: RootedAt(g, w, finish, parent, cycles) ==> !AllListed(g, cycles)
  {
    hide SimpleCycle, Edges, Followed, SearchResult, SearchForest, AllListed;
    var e :| e in Edges(c) * Edges(d);
    var a := StartWith(g, c, e);
    var b := StartWith(g, d, e);
    CommonStart(g, a, b);
    var k := PartingPoint(g, a, b, 1);
    w := a[k];
    LeavesModule(g, a, k);
    forall finish, parent, cycles | RootedAt(g, w, finish, parent, cycles)
      ensures !AllListed(g, cycles)
    {
      if AllListed(g, cycles) {
        PartingIsSkipped(g, finish, parent, cycles, a, b, k);
        assert false;
      }
    }
  }

  lemma CommonStart<M(!new)>(g: Graph<M>, a: seq<M>, b: seq<M>)
    requires SimpleCycle(g, a) && SimpleCycle(g, b) && a[0] == b[0] && a[1] == b[1]
    ensures |a| >= 2 && |b| >= 2 && a[..2] == b[..2]
  {}

  lemma LeavesModule<M(!new)>(g: Graph<M>, a: seq<M>, k: nat)
    requires SimpleCycle(g, a) && k + 1 < |a|
    ensures a[k] in g
  {
    assert Edge(g, a[k], a[k + 1]);
  }

  lemma PartingIsSkipped<M(!new)>(
    g: Graph<M>, finish: map<M, nat>, parent: map<M, M>, cycles: seq<seq<M>>, a: seq<M>, b: seq<M>, k: nat)
    requires SearchResult(g, finish, cycles) && SearchForest(finish, parent, cycles) && g.Keys <= finish.Keys
    requires AllListed(g, cycles) && SimpleCycle(g, a) && SimpleCycle(g, b) && a[0] == b[0]
    requires 1 <= k < |a| - 1 && k < |b| - 1 && a[k] == b[k] && a[k] !in parent
    ensures a[k + 1] == b[k + 1]
  {
    hide SimpleCycle, Edges, Followed, AllListed, TreePath, TreeEdge, TreeCycles, Genuine;
    AllListedIff(g, finish, parent, cycles);
    var p := ReturnsBelow(g, parent, cycles, a, k);
    var q := ReturnsBelow(g, parent, cycles, b, k);
    OneChildAbove(parent, a[k], p, q);
  }

  // ----- For every order of the names -----

  /** The given order, except that `w` comes first. */
  ghost function First<M(!new)>(less: (M, M) -> bool, w: M): (M, M) -> bool {
    (x: M, y: M) => if x == w then y != w else y != w && less(x, y)
  }

  lemma FirstIsStrictTotal<M(!new)>(less: (M, M) -> bool, w: M)
    requires StrictTotal(less)
    ensures StrictTotal(First(less, w))
  {}

  lemma FirstComesFirst<M(!new)>(modules: set<M>, less: (M, M) -> bool, w: M)
    requires StrictTotal(less) && StrictTotal(First(less, w)) && w in modules
    ensures Ascending(modules, First(less, w))[0] == w
  {
    var order := Ascending(modules, First(less, w));
    assert w in order;
  }

  /**
   Whatever the order of the names, the detector lists all cycles: this holds if and only if no two
   different cycles of the graph share an edge.
   */
  lemma AlwaysAllListedIff<M(!new)>(modules: set<M>, g: Graph<M>, less: (M, M) -> bool)
    requires g.Keys <= modules && StrictTotal(less)
    ensures (forall order :: StrictTotal(order) ==> AllListed(g, Outcome(modules, g, order).cycles)) <==> EdgeDisjoint(g)
  {
    hide SimpleCycle, Edges, SearchResult, SearchForest, Outcome, StrictTotal, AllListed, First, Ascending;
    if EdgeDisjoint(g) {
      forall order | StrictTotal(order) ensures AllListed(g, Outcome(modules, g, order).cycles) {
        DisjointAllListed(modules, g, order);
      }
    } else {
      var c, d :| SimpleCycle(g, c) && SimpleCycle(g, d) && Edges(c) * Edges(d) != {} && Edges(c) != Edges(d);
      var w := OverlapIsMissed(g, c, d);
      var order := First(less, w);
      FirstIsStrictTotal(less, w);
      FirstComesFirst(modules, less, w);
      OutcomeIsSearch(modules, g, order);
      var s := Outcome(modules, g, order);
      assert RootedAt(g, w, s.finish, s.parent, s.cycles);
    }
  }

  lemma DisjointAllListed<M(!new)>(modules: set<M>, g: Graph<M>, order: (M, M) -> bool)
    requires g.Keys <= modules && StrictTotal(order) && EdgeDisjoint(g)
    ensures AllListed(g, Outcome(modules, g, order).cycles)
  {
    hide SimpleCycle, Edges, SearchResult, SearchForest, Outcome, StrictTotal;
    OutcomeIsSearch(modules, g, order);
    var s := Outcome(modules, g, order);
    forall d | SimpleCycle(g, d) ensures Lists(s.cycles, d) {
      DisjointCyclesListed(g, s.finish, s.cycles, d);
    }
  }
}
