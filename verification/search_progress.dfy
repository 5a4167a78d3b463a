/** Progress of the search: a step that does not find the end point removes
    exactly one unit of remaining work, and on a fully painted board a step
    never raises. */
module SearchProgress {
  import opened Outcomes
  import opened GridModel
  import opened Bfs
  import opened SearchInvariants
  import opened SearchResults

  /** The work left to the search: queued cells plus cells not yet visited. */
  function Measure(g: Grid): nat {
    |g.bfsQueue| + |Cells(g) - g.parents.Keys|
  }

  /** The members of a sequence without repeats are as many as its length. */
  lemma {:induction false} DistinctCard(s: seq<Pos>)
    requires Distinct(s)
    ensures |set x | x in s| == |s|
  {
    if s != [] {
      DistinctCard(s[1..]);
      assert (set x | x in s) == {s[0]} + (set x | x in s[1..]);
      assert s[0] !in (set x | x in s[1..]);
    }
  }

  /** Removing a subset takes away exactly its members. */
  lemma DiffCard(a: set<Pos>, n: set<Pos>)
    requires n <= a
    ensures |a - n| == |a| - |n|
  {
    assert a == (a - n) + n;
  }

  /** A step that does not report a path consumes one unit of work: it
      dequeues one cell and every cell it queues was previously unvisited. */
  lemma StepDecreasesMeasure(g: Grid)
    requires |g.bfsQueue| > 0
    requires Step(g).Success? && Step(g).value.path.None?
    ensures Measure(Step(g).value.grid) + 1 == Measure(g)
  {
    var f := g.bfsQueue[0];
    var g0 := g.(bfsQueue := g.bfsQueue[1..]);
    var out := Step(g).value.grid;
    var news := FreshOf(g0, Neighbors(f));
    ExpandMiss(g0, f, Neighbors(f));
    var n := set x | x in news;
    DistinctCard(news);
    var a := Cells(g) - g.parents.Keys;
    assert n <= a;
    assert Cells(out) == Cells(g);
    assert Cells(out) - out.parents.Keys == a - n;
    DiffCard(a, n);
  }

  /** Entering play mode starts with one unit of work per cell of the board. */
  lemma InitMeasure(g: Grid)
    requires PaintInv(g) && IsReady(g)
    ensures InitQueue(ResetPath(g)).Success?
    ensures Measure(InitQueue(ResetPath(g)).value) == g.width * g.height
  {
    var h := InitQueue(ResetPath(g)).value;
    var s := g.startPoint.value;
    assert h.parents.Keys == {s};
    CellsCount(h);
    DiffCard(Cells(h), {s});
  }

  /** The loop skips a neighbour that classifies without raising and is not
      fresh. */
  lemma ExpandSkipClassified(g: Grid, parent: Pos, ns: seq<Pos>)
    requires ns != [] && GetCell(g, ns[0]).Success? && !Fresh(g, ns[0])
    ensures Expand(g, parent, ns) == Expand(g, parent, ns[1..])
  {
  }

  /** On a fully painted board, expanding neighbours of a visited cell of the
      tree never raises. */
  lemma {:induction false} ExpandSucceeds(g: Grid, f: Pos, ns: seq<Pos>, d: map<Pos, nat>)
    requires ParentTree(g, d) && f in g.parents && FullyPainted(g)
    requires forall n :: n in ns ==> Adjacent(f, n)
    ensures Expand(g, f, ns).Success?
    decreases |ns|
  {
    if ns != [] {
      var n := ns[0];
      if !Fresh(g, n) {
        ExpandSkipClassified(g, f, ns);
        ExpandSucceeds(g, f, ns[1..], d);
      } else {
        TreeExtend(g, d, f, n);
        if g.endPoint == Some(n) {
          ExpandStop(g, f, ns);
          TraceOnTree(g.(parents := g.parents[n := f]), d[n := d[f] + 1], n);
        } else {
          ExpandQueue(g, f, ns);
          FullyPaintedFrame(g, Queued(g, f, n));
          ExpandSucceeds(Queued(g, f, n), f, ns[1..], d[n := d[f] + 1]);
        }
      }
    }
  }

  /** While the search state holds on a fully painted board, a step never
      raises. */
  lemma StepSucceeds(g: Grid, d: map<Pos, nat>)
    requires SearchInv(g, d) && FullyPainted(g)
    ensures Step(g).Success?
  {
    if |g.bfsQueue| > 0 {
      var f := g.bfsQueue[0];
      FullyPaintedFrame(g, g.(bfsQueue := g.bfsQueue[1..]));
      ExpandSucceeds(g.(bfsQueue := g.bfsQueue[1..]), f, Neighbors(f), d);
    }
  }

  /** A step whose dequeued cell has an unvisited, never painted cell as its
      first (left) neighbour raises the unknown-colour error. */
  lemma StepFailsOnUnpainted(g: Grid)
    requires |g.bfsQueue| > 0
    requires var left := Pos(g.bfsQueue[0].x - 1, g.bfsQueue[0].y);
      InBounds(g, left) && left !in g.parents && ColorAt(g, left) == Unpainted
    ensures Step(g) == Failure(UnknownColor)
  {
  }
}
