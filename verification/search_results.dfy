/** What a search step reports: a traced path is a route from the start point
    to the end point and no route is shorter; an exhausted queue means no
    route exists. */
module SearchResults {
  import opened Outcomes
  import opened GridModel
  import opened Bfs
  import opened SearchInvariants

  /** `w` walks from `a` to `b`: each move goes to an adjacent cell, and every
      cell after the first is passable (path or end paint). */
  ghost predicate IsRoute(g: Grid, w: seq<Pos>, a: Pos, b: Pos) {
    && |w| >= 1 && w[0] == a && w[|w| - 1] == b
    && (forall i :: 0 <= i < |w| - 1 ==> Adjacent(w[i], w[i + 1]))
    && (forall i :: 1 <= i < |w| ==> Passable(g, w[i]))
  }

  /** `s` back to front. */
  function Reversed(s: seq<Pos>): (r: seq<Pos>)
    ensures |r| == |s|
    ensures forall i :: 0 <= i < |s| ==> r[i] == s[|s| - 1 - i]
  {
    if s == [] then [] else Reversed(s[1..]) + [s[0]]
  }

  /** The cells on the parent chain from `v` to the root: as many as the depth
      of `v` plus one, all of them linked. */
  lemma {:induction false} ChainCells(parents: map<Pos, Pos>, s: Pos, d: map<Pos, nat>, v: Pos) returns (c: set<Pos>)
    requires Rooted(parents, s, d) && v in parents
    ensures c <= parents.Keys && |c| == d[v] + 1
    ensures forall u :: u in c ==> d[u] <= d[v]
    decreases d[v]
  {
    if v == s {
      c := {s};
    } else {
      var up := ChainCells(parents, s, d, parents[v]);
      assert v !in up;
      c := up + {v};
    }
  }

  /** A linked cell is less deep than the number of links. */
  lemma DepthBelowSize(parents: map<Pos, Pos>, s: Pos, d: map<Pos, nat>, v: Pos)
    requires Rooted(parents, s, d) && v in parents
    ensures d[v] < |parents|
  {
    var c := ChainCells(parents, s, d, v);
    SubsetCard(c, parents.Keys);
  }

  lemma SubsetCard(a: set<Pos>, b: set<Pos>)
    requires a <= b
    ensures |a| <= |b|
  {
    assert b == a + (b - a);
  }

  /** Following parents from a linked cell reaches the root after exactly its
      depth in links, whenever the bound allows that many. */
  lemma {:induction false} ChaseOnTree(parents: map<Pos, Pos>, s: Pos, d: map<Pos, nat>, v: Pos, fuel: nat)
    requires Rooted(parents, s, d) && v in parents && d[v] <= fuel
    ensures Chase(parents, s, v, fuel).Some?
    ensures |Chase(parents, s, v, fuel).value| == d[v] + 1
    decreases fuel
  {
    if v != s {
      ChaseOnTree(parents, s, d, parents[v], fuel - 1);
    }
  }

  /** On a parent tree, tracing from a visited cell never diverges and yields
      one cell per level from that cell up to the start. */
  lemma TraceOnTree(g: Grid, d: map<Pos, nat>, v: Pos)
    requires ParentTree(g, d) && v in g.parents
    ensures TracePath(g, v).Some?
    ensures |TracePath(g, v).value| == d[v] + 1
  {
    DepthBelowSize(g.parents, g.startPoint.value, d, v);
    ChaseOnTree(g.parents, g.startPoint.value, d, v, |g.parents|);
  }

  /** The `j`-th cell of `p` is passable and adjacent to the cell after it. */
  ghost predicate LinksBack(g: Grid, p: seq<Pos>, j: int)
    requires 0 <= j < |p| - 1
  {
    Passable(g, p[j]) && Adjacent(p[j + 1], p[j])
  }

  /** Each link of a parent chain below the start joins a passable cell to
      the adjacent cell it came from. */
  lemma ChainSteps(g: Grid, d: map<Pos, nat>, p: seq<Pos>)
    requires ParentTree(g, d)
    requires forall i :: 0 <= i < |p| - 1 ==>
               p[i] != g.startPoint.value && p[i] in g.parents && p[i + 1] == g.parents[p[i]]
    ensures forall j :: 0 <= j < |p| - 1 ==> LinksBack(g, p, j)
  {
  }

  /** A walk whose links are read backwards is a route: every cell but the
      last is passable and adjacent to the next one. */
  lemma ReversedIsRoute(g: Grid, p: seq<Pos>)
    requires |p| >= 1
    requires forall j :: 0 <= j < |p| - 1 ==> LinksBack(g, p, j)
    ensures IsRoute(g, Reversed(p), p[|p| - 1], p[0])
  {
    var last := |p| - 1;
    var r := Reversed(p);
    forall i | 0 <= i < |r| - 1 ensures Adjacent(r[i], r[i + 1]) {
      var j := last - 1 - i;
      assert LinksBack(g, p, j);
      assert r[i] == p[j + 1] && r[i + 1] == p[j];
    }
    forall i | 1 <= i < |r| ensures Passable(g, r[i]) {
      assert LinksBack(g, p, last - i);
      assert r[i] == p[last - i];
    }
  }

  /** A parent chain ending at the start, read backwards, is a route from the
      start point to its first cell. */
  lemma ChainIsRoute(g: Grid, d: map<Pos, nat>, p: seq<Pos>)
    requires ParentTree(g, d) && |p| >= 1 && p[|p| - 1] == g.startPoint.value
    requires forall i :: 0 <= i < |p| - 1 ==>
               p[i] != g.startPoint.value && p[i] in g.parents && p[i + 1] == g.parents[p[i]]
    ensures IsRoute(g, Reversed(p), g.startPoint.value, p[0])
  {
    ChainSteps(g, d, p);
    ReversedIsRoute(g, p);
  }

  /** On a parent tree, the traced path read backwards is a route from the
      start point to the traced cell. */
  lemma TraceIsRoute(g: Grid, d: map<Pos, nat>, v: Pos)
    requires ParentTree(g, d) && v in g.parents
    ensures TracePath(g, v).Some?
    ensures IsRoute(g, Reversed(TracePath(g, v).value), g.startPoint.value, v)
  {
    TraceOnTree(g, d, v);
    ChainIsRoute(g, d, TracePath(g, v).value);
  }

  /** Along a route from the start whose first `k` cells have all been
      expanded, the `k`-th cell is visited no deeper than `k`. */
  lemma {:induction false} WalkBound(g: Grid, d: map<Pos, nat>, w: seq<Pos>, k: nat)
    requires ParentTree(g, d) && QueueOrdered(g, d) && ClosedFrontier(g, d)
    requires k < |w| && IsRoute(g, w, g.startPoint.value, w[|w| - 1])
    requires forall m :: 0 <= m < k ==> Expanded(g, w[m])
    ensures w[k] in g.parents && d[w[k]] <= k
    decreases k
  {
    if k > 0 {
      WalkBound(g, d, w, k - 1);
      assert Expanded(g, w[k - 1]) && Adjacent(w[k - 1], w[k]) && Passable(g, w[k]);
    }
  }

  /** The first cell of a route that has not been expanded. */
  lemma FirstOpen(g: Grid, w: seq<Pos>) returns (j: nat)
    requires |w| >= 1 && !Expanded(g, w[|w| - 1])
    ensures j < |w| && !Expanded(g, w[j])
    ensures forall m :: 0 <= m < j ==> Expanded(g, w[m])
  {
    j := 0;
    while Expanded(g, w[j])
      invariant j < |w|
      invariant forall m :: 0 <= m < j ==> Expanded(g, w[m])
      decreases |w| - j
    {
      j := j + 1;
    }
  }

  /** While the end point is unvisited, every route to it is at least two
      cells longer than the depth at the front of the queue. */
  lemma RouteLowerBound(g: Grid, d: map<Pos, nat>, w: seq<Pos>)
    requires SearchInv(g, d) && |g.bfsQueue| > 0
    requires IsRoute(g, w, g.startPoint.value, g.endPoint.value)
    ensures |w| >= d[g.bfsQueue[0]] + 2
  {
    var j := FirstOpen(g, w);
    WalkBound(g, d, w, j);
    var k :| 0 <= k < |g.bfsQueue| && g.bfsQueue[k] == w[j];
    assert d[g.bfsQueue[0]] <= d[g.bfsQueue[k]];
    assert w[j] != g.endPoint.value;
    assert j < |w| - 1;
  }

  /** When the queue is exhausted before the end point is visited, no route
      from the start point to the end point exists. */
  lemma ExhaustedHasNoRoute(g: Grid, d: map<Pos, nat>)
    requires SearchInv(g, d) && |g.bfsQueue| == 0
    ensures forall w :: !IsRoute(g, w, g.startPoint.value, g.endPoint.value)
  {
    forall w | IsRoute(g, w, g.startPoint.value, g.endPoint.value) ensures false {
      var j := FirstOpen(g, w);
      WalkBound(g, d, w, j);
    }
  }

  /** A neighbour loop that meets the end point links it one level below
      `f`, keeps the tree, and returns the path traced from the end point. */
  lemma ExpandHitTree(g: Grid, d: map<Pos, nat>, f: Pos, ns: seq<Pos>) returns (d': map<Pos, nat>)
    requires ParentTree(g, d) && f in g.parents && Distinct(ns) && g.endPoint.Some?
    requires forall n :: n in ns ==> Adjacent(f, n)
    requires Expand(g, f, ns).Success? && Expand(g, f, ns).value.path.Some?
    ensures var out := Expand(g, f, ns).value;
      && ParentTree(out.grid, d')
      && g.endPoint.value in out.grid.parents
      && out.path == TracePath(out.grid, g.endPoint.value)
      && |out.path.value| == d[f] + 2
  {
    var out := Expand(g, f, ns).value;
    var hit := ExpandHit(g, f, ns);
    assert ns[hit] in FreshOf(g, ns[..hit]) + [ns[hit]];
    d' := ExpandTree(g, f, ns, d);
    TraceOnTree(out.grid, d', ns[hit]);
  }

  /** A step that finds the end point links it one level below the dequeued
      cell, keeps the tree, and returns the path traced from the end point,
      which holds one cell per level. */
  lemma StepHit(g: Grid, d: map<Pos, nat>) returns (d': map<Pos, nat>)
    requires SearchInv(g, d)
    requires Step(g).Success? && Step(g).value.path.Some?
    ensures |g.bfsQueue| > 0
    ensures ParentTree(Step(g).value.grid, d')
    ensures g.endPoint.value in Step(g).value.grid.parents
    ensures Step(g).value.path == TracePath(Step(g).value.grid, g.endPoint.value)
    ensures |Step(g).value.path.value| == d[g.bfsQueue[0]] + 2
  {
    var f := g.bfsQueue[0];
    d' := ExpandHitTree(g.(bfsQueue := g.bfsQueue[1..]), d, f, Neighbors(f));
  }

  /** The path a step reports, read from start to end, is a route on the
      board, and no route from the start point to the end point is shorter. */
  lemma StepFindsShortest(g: Grid, d: map<Pos, nat>)
    requires SearchInv(g, d)
    requires Step(g).Success? && Step(g).value.path.Some?
    ensures IsRoute(g, Reversed(Step(g).value.path.value), g.startPoint.value, g.endPoint.value)
    ensures forall w :: IsRoute(g, w, g.startPoint.value, g.endPoint.value) ==>
              |Step(g).value.path.value| <= |w|
  {
    var out := Step(g).value.grid;
    var d' := StepHit(g, d);
    TraceIsRoute(out, d', g.endPoint.value);
    var r := Reversed(Step(g).value.path.value);
    assert forall i :: 1 <= i < |r| ==> Passable(g, r[i]) by {
      forall i | 1 <= i < |r| ensures Passable(g, r[i]) {
        assert Passable(out, r[i]);
      }
    }
    forall w | IsRoute(g, w, g.startPoint.value, g.endPoint.value)
      ensures |Step(g).value.path.value| <= |w|
    {
      RouteLowerBound(g, d, w);
    }
  }
}
