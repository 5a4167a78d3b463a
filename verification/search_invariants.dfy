/** What holds of the grid while the search runs: the parents form a tree
    rooted at the start point, the queue holds visited cells in nondecreasing
    breadth-first depth, and every visited cell that has left the queue has all
    its passable neighbours visited. The depth of each visited cell is carried
    as a ghost map `d`; the program itself stores no depths. */
module SearchInvariants {
  import opened Outcomes
  import opened GridModel
  import opened Bfs

  /** Parent links of `parents` lead, one adjacent cell at a time, to the root
      `s`, which is its own parent; `d` is the number of links from each cell
      to the root. */
  ghost predicate Rooted(parents: map<Pos, Pos>, s: Pos, d: map<Pos, nat>) {
    && d.Keys == parents.Keys
    && s in parents && parents[s] == s && d[s] == 0
    && forall v :: v in parents && v != s ==>
         parents[v] in parents && Adjacent(parents[v], v) && d[v] == d[parents[v]] + 1
  }

  /** The parents of the grid form a tree rooted at the start point, and every
      visited cell other than the start is passable. */
  ghost predicate ParentTree(g: Grid, d: map<Pos, nat>) {
    && g.startPoint.Some?
    && Rooted(g.parents, g.startPoint.value, d)
    && forall v :: v in g.parents && v != g.startPoint.value ==> Passable(g, v)
  }

  /** The queue holds distinct visited cells whose depths never decrease from
      front to back and span at most one. */
  ghost predicate QueueOrdered(g: Grid, d: map<Pos, nat>) {
    && d.Keys == g.parents.Keys
    && (forall i :: 0 <= i < |g.bfsQueue| ==> g.bfsQueue[i] in g.parents)
    && Distinct(g.bfsQueue)
    && forall i, j :: 0 <= i <= j < |g.bfsQueue| ==>
         d[g.bfsQueue[i]] <= d[g.bfsQueue[j]] <= d[g.bfsQueue[i]] + 1
  }

  /** A visited cell that has already left the queue. */
  ghost predicate Expanded(g: Grid, v: Pos) {
    v in g.parents && v !in g.bfsQueue
  }

  /** Every expanded cell has its passable neighbours visited, at most one
      level deeper, and is no deeper than any queued cell. */
  ghost predicate ClosedFrontier(g: Grid, d: map<Pos, nat>)
    requires QueueOrdered(g, d)
  {
    && (forall v, u :: Expanded(g, v) && Adjacent(v, u) && Passable(g, u) ==>
          u in g.parents && d[u] <= d[v] + 1)
    && forall v, i :: Expanded(g, v) && 0 <= i < |g.bfsQueue| ==> d[v] <= d[g.bfsQueue[i]]
  }

  /** The state of a search that has not yet reached the end point. */
  ghost predicate SearchInv(g: Grid, d: map<Pos, nat>) {
    && PaintInv(g)
    && g.endPoint.Some?
    && ParentTree(g, d)
    && g.endPoint.value !in g.parents
    && QueueOrdered(g, d)
    && ClosedFrontier(g, d)
  }

  /** Every visited cell, and so every queued cell, lies inside the grid. */
  lemma SearchCellsInBounds(g: Grid, d: map<Pos, nat>)
    requires SearchInv(g, d)
    ensures forall v :: v in g.parents ==> InBounds(g, v)
    ensures forall i :: 0 <= i < |g.bfsQueue| ==> InBounds(g, g.bfsQueue[i])
  {
  }

  /** Entering play mode on a ready grid (reset, then initialise the queue)
      starts a search: only the start is visited, at depth 0, and queued. */
  lemma InitQueueStartsSearch(g: Grid)
    requires PaintInv(g) && IsReady(g)
    ensures InitQueue(ResetPath(g)).Success?
    ensures SearchInv(InitQueue(ResetPath(g)).value, map[g.startPoint.value := 0])
  {
    var s := g.startPoint.value;
    var h := InitQueue(ResetPath(g)).value;
    ReadyEndsDistinct(g);
    assert h.parents == map[s := s];
    assert forall v :: Expanded(h, v) ==> false;
  }

  /** Linking a fresh cell adjacent to a visited one keeps the tree, one level
      below its parent. */
  lemma TreeExtend(g: Grid, d: map<Pos, nat>, f: Pos, n: Pos)
    requires ParentTree(g, d) && f in g.parents && Fresh(g, n) && Adjacent(f, n)
    ensures ParentTree(g.(parents := g.parents[n := f]), d[n := d[f] + 1])
    ensures ParentTree(Queued(g, f, n), d[n := d[f] + 1])
  {
    var s := g.startPoint.value;
    var ps, e := g.parents[n := f], d[n := d[f] + 1];
    forall v | v in ps && v != s
      ensures ps[v] in ps && Adjacent(ps[v], v) && e[v] == e[ps[v]] + 1
    {
      if v != n {
        assert v in g.parents && g.parents[v] in g.parents && g.parents[v] != n;
      }
    }
    assert Rooted(ps, s, e);
  }

  /** The neighbour loop keeps the tree: cells it links sit one level below
      `f`, and earlier depths are unchanged. */
  lemma {:induction false} ExpandTree(g: Grid, f: Pos, ns: seq<Pos>, d: map<Pos, nat>) returns (d': map<Pos, nat>)
    requires ParentTree(g, d) && f in g.parents
    requires forall n :: n in ns ==> Adjacent(f, n)
    requires Expand(g, f, ns).Success?
    ensures ParentTree(Expand(g, f, ns).value.grid, d')
    ensures forall v :: v in d ==> v in d' && d'[v] == d[v]
    ensures forall v :: v in d' && v !in d ==> d'[v] == d[f] + 1
    decreases |ns|
  {
    if ns == [] {
      d' := d;
    } else {
      var n := ns[0];
      if !Fresh(g, n) {
        ExpandSkip(g, f, ns);
        d' := ExpandTree(g, f, ns[1..], d);
      } else {
        TreeExtend(g, d, f, n);
        if g.endPoint == Some(n) {
          ExpandStop(g, f, ns);
          d' := d[n := d[f] + 1];
        } else {
          ExpandQueue(g, f, ns);
          d' := ExpandTree(Queued(g, f, n), f, ns[1..], d[n := d[f] + 1]);
        }
      }
    }
  }

  /** Dequeuing the front and appending fresh cells one level below it keeps
      the queue ordered. */
  lemma QueueAfterMiss(g: Grid, d: map<Pos, nat>, out: Grid, d': map<Pos, nat>, news: seq<Pos>)
    requires QueueOrdered(g, d) && |g.bfsQueue| > 0
    requires d'.Keys == out.parents.Keys
    requires out.bfsQueue == g.bfsQueue[1..] + news && Distinct(news)
    requires forall v :: v in d ==> v in d' && d'[v] == d[v]
    requires forall i :: 0 <= i < |news| ==> news[i] in d' && news[i] !in d && d'[news[i]] == d[g.bfsQueue[0]] + 1
    ensures QueueOrdered(out, d')
  {
    var q, top := g.bfsQueue, d[g.bfsQueue[0]];
    var q' := out.bfsQueue;
    assert forall i :: 0 <= i < |q'| ==> q'[i] in d' && top <= d'[q'[i]] <= top + 1 by {
      forall i | 0 <= i < |q'| ensures q'[i] in d' && top <= d'[q'[i]] <= top + 1 {
        if i < |q| - 1 {
          assert q'[i] == q[i + 1];
        } else {
          assert q'[i] == news[i - (|q| - 1)];
        }
      }
    }
    forall i, j | 0 <= i < j < |q'|
      ensures q'[i] != q'[j] && d'[q'[i]] <= d'[q'[j]]
    {
      if j < |q| - 1 {
        assert q'[i] == q[i + 1] && q'[j] == q[j + 1];
      } else if i < |q| - 1 {
        assert q'[i] == q[i + 1] && q'[j] == news[j - (|q| - 1)];
      } else {
        assert q'[i] == news[i - (|q| - 1)] && q'[j] == news[j - (|q| - 1)];
      }
    }
  }

  /** After the front is dequeued and `news` appended, a cell that has left
      the queue either is the dequeued front or had already left it. */
  lemma ExpandedAfterMiss(g: Grid, out: Grid, news: seq<Pos>, v: Pos)
    requires |g.bfsQueue| > 0 && out.bfsQueue == g.bfsQueue[1..] + news
    requires v in out.parents ==> v in g.parents || v in news
    requires Expanded(out, v)
    ensures v == g.bfsQueue[0] || Expanded(g, v)
  {
    var q := g.bfsQueue;
    assert forall k :: 0 <= k < |news| ==> out.bfsQueue[|q| - 1 + k] == news[k];
    assert forall k :: 1 <= k < |q| ==> out.bfsQueue[k - 1] == q[k];
  }

  /** After a step that met no end point, expanded cells still have their
      passable neighbours visited one level deeper at most. */
  lemma NeighborsAfterMiss(g: Grid, d: map<Pos, nat>, out: Grid, d': map<Pos, nat>, news: seq<Pos>)
    requires QueueOrdered(g, d) && ClosedFrontier(g, d) && |g.bfsQueue| > 0
    requires out.colors == g.colors && out.width == g.width && out.height == g.height
    requires d'.Keys == out.parents.Keys
    requires forall v :: v in out.parents ==> v in g.parents || v in news
    requires out.bfsQueue == g.bfsQueue[1..] + news
    requires forall v :: v in d ==> v in d' && d'[v] == d[v]
    requires forall v :: v in d' && v !in d ==> d'[v] == d[g.bfsQueue[0]] + 1
    requires forall u :: Adjacent(g.bfsQueue[0], u) && Passable(g, u) ==> u in out.parents
    ensures forall v, u :: Expanded(out, v) && Adjacent(v, u) && Passable(out, u) ==>
              u in out.parents && d'[u] <= d'[v] + 1
  {
    var q := g.bfsQueue;
    forall v, u | Expanded(out, v) && Adjacent(v, u) && Passable(out, u)
      ensures u in out.parents && d'[u] <= d'[v] + 1
    {
      assert Passable(g, u);
      ExpandedAfterMiss(g, out, news, v);
      if v == q[0] && u in d {
        if u in q {
          var k :| 0 <= k < |q| && q[k] == u;
          assert d[q[0]] <= d[q[k]] <= d[q[0]] + 1;
        } else {
          assert Expanded(g, u);
          assert d[u] <= d[q[0]];
        }
      }
    }
  }

  /** After a step that met no end point, expanded cells are no deeper than
      any queued cell. */
  lemma LayersAfterMiss(g: Grid, d: map<Pos, nat>, out: Grid, d': map<Pos, nat>, news: seq<Pos>)
    requires QueueOrdered(g, d) && ClosedFrontier(g, d) && |g.bfsQueue| > 0
    requires QueueOrdered(out, d')
    requires forall v :: v in out.parents ==> v in g.parents || v in news
    requires out.bfsQueue == g.bfsQueue[1..] + news
    requires forall v :: v in d ==> v in d' && d'[v] == d[v]
    requires forall i :: 0 <= i < |news| ==> news[i] in d' && d'[news[i]] == d[g.bfsQueue[0]] + 1
    ensures forall v, i :: Expanded(out, v) && 0 <= i < |out.bfsQueue| ==> d'[v] <= d'[out.bfsQueue[i]]
  {
    var q := g.bfsQueue;
    forall v, i | Expanded(out, v) && 0 <= i < |out.bfsQueue|
      ensures d'[v] <= d'[out.bfsQueue[i]]
    {
      ExpandedAfterMiss(g, out, news, v);
      assert d[v] <= d[q[0]] by {
        if v != q[0] {
          assert Expanded(g, v);
        }
      }
      if i < |q| - 1 {
        assert out.bfsQueue[i] == q[i + 1];
        assert d[q[0]] <= d[q[i + 1]];
      } else {
        assert out.bfsQueue[i] == news[i - (|q| - 1)];
      }
    }
  }

  /** A step that meets no end point dequeues the front, visits and queues
      its fresh neighbours `news` one level below it, and leaves every
      passable neighbour of the front visited. */
  lemma StepMiss(g: Grid, d: map<Pos, nat>) returns (d': map<Pos, nat>, news: seq<Pos>)
    requires SearchInv(g, d) && |g.bfsQueue| > 0
    requires Step(g).Success? && Step(g).value.path.None?
    ensures var out := Step(g).value.grid;
      && ParentTree(out, d') && d'.Keys == out.parents.Keys
      && out.bfsQueue == g.bfsQueue[1..] + news && Distinct(news)
      && (forall v :: v in out.parents ==> v in g.parents || v in news)
      && (forall v :: v in d ==> v in d' && d'[v] == d[v])
      && (forall v :: v in d' && v !in d ==> d'[v] == d[g.bfsQueue[0]] + 1)
      && (forall i :: 0 <= i < |news| ==> news[i] in d' && news[i] !in d && d'[news[i]] == d[g.bfsQueue[0]] + 1)
      && g.endPoint.value !in out.parents
  {
    var f := g.bfsQueue[0];
    var g0 := g.(bfsQueue := g.bfsQueue[1..]);
    var ns := Neighbors(f);
    var out := Step(g).value.grid;
    news := FreshOf(g0, ns);
    ExpandMiss(g0, f, ns);
    d' := ExpandTree(g0, f, ns, d);
    assert forall i :: 0 <= i < |news| ==> news[i] in news;
  }

  /** A step that meets no end point visits every passable neighbour of the
      cell it dequeues. */
  lemma StepMissCovers(g: Grid, d: map<Pos, nat>)
    requires SearchInv(g, d) && |g.bfsQueue| > 0
    requires Step(g).Success? && Step(g).value.path.None?
    ensures forall u :: Adjacent(g.bfsQueue[0], u) && Passable(g, u) ==> u in Step(g).value.grid.parents
  {
    var f := g.bfsQueue[0];
    var g0 := g.(bfsQueue := g.bfsQueue[1..]);
    var ns := Neighbors(f);
    ExpandMiss(g0, f, ns);
    forall u | Adjacent(f, u) && Passable(g, u) ensures u in Step(g).value.grid.parents {
      assert u in ns;
    }
  }

  /** A step that meets no end point keeps the search state. */
  lemma StepPreservesSearchInv(g: Grid, d: map<Pos, nat>) returns (d': map<Pos, nat>)
    requires SearchInv(g, d)
    requires Step(g).Success? && Step(g).value.path.None?
    ensures SearchInv(Step(g).value.grid, d')
  {
    if |g.bfsQueue| == 0 {
      d' := d;
    } else {
      var out := Step(g).value.grid;
      var news;
      d', news := StepMiss(g, d);
      StepMissCovers(g, d);
      QueueAfterMiss(g, d, out, d', news);
      NeighborsAfterMiss(g, d, out, d', news);
      LayersAfterMiss(g, d, out, d', news);
      PaintInvFrame(g, out);
    }
  }
}
