/** The one-step breadth-first search of `search_game/bfs_isaac.py`: each call
    pops one cell, examines its four neighbours in a fixed order, records
    parents, and returns the traced path once it reaches the end point. */
module Bfs {
  import opened Outcomes
  import opened GridModel

  /** The absolute value of an integer. */
  function Abs(n: int): nat {
    if n < 0 then -n else n
  }

  /** Two cells share an edge. */
  predicate Adjacent(a: Pos, b: Pos) {
    Abs(a.x - b.x) + Abs(a.y - b.y) == 1
  }

  /** No two elements of `s` are equal. */
  predicate Distinct(s: seq<Pos>) {
    forall i, j :: 0 <= i < j < |s| ==> s[i] != s[j]
  }

  /** The neighbours a step examines, in its fixed order: left (x - 1),
      right (x + 1), up (y - 1), down (y + 1). */
  function Neighbors(p: Pos): (r: seq<Pos>)
    ensures |r| == 4 && Distinct(r)
    ensures forall q :: q in r <==> Adjacent(p, q)
    ensures r[0].x < p.x && r[1].x > p.x && r[2].y < p.y && r[3].y > p.y
  {
    var r := [Pos(p.x - 1, p.y), Pos(p.x + 1, p.y), Pos(p.x, p.y - 1), Pos(p.x, p.y + 1)];
    assert forall q :: Adjacent(p, q) ==> q in r by {
      forall q | Adjacent(p, q) ensures q in r {
        if q.x == p.x {
          assert q == r[2] || q == r[3];
        } else {
          assert q == r[0] || q == r[1];
        }
      }
    }
    r
  }

  /** The walk of `trace_path` from `cur` with at most `fuel` parent lookups:
      the cells from `cur` up to and including `start`, or None when the chain
      does not reach `start` within `fuel` lookups or meets a cell without a
      parent. */
  function Chase(parents: map<Pos, Pos>, start: Pos, cur: Pos, fuel: nat): (r: Option<seq<Pos>>)
    ensures r.Some? ==> |r.value| >= 1 && r.value[0] == cur && r.value[|r.value| - 1] == start
    ensures r.Some? ==> |r.value| <= fuel + 1
    ensures r.Some? ==> forall i :: 0 <= i < |r.value| - 1 ==>
              r.value[i] != start && r.value[i] in parents && r.value[i + 1] == parents[r.value[i]]
    decreases fuel
  {
    if cur == start then Some([cur])
    else if fuel == 0 || cur !in parents then None
    else
      match Chase(parents, start, parents[cur], fuel - 1)
      case None => None
      case Some(rest) => Some([cur] + rest)
  }

  /** `trace_path`: follow recorded parents from `endPos` until the start point,
      returning the cells in end-to-start order (the list is not reversed).
      The program's loop runs forever when the chain never reaches the start;
      such a chain must repeat a cell within `|parents|` lookups, so the walk is
      bounded by that many lookups and None stands for the endless loop. */
  function TracePath(g: Grid, endPos: Pos): (r: Option<seq<Pos>>)
    ensures g.startPoint.None? ==> r.None?
    ensures r.Some? ==> |r.value| >= 1 && r.value[0] == endPos
    ensures r.Some? ==> Some(r.value[|r.value| - 1]) == g.startPoint
    ensures r.Some? ==> forall i :: 0 <= i < |r.value| - 1 ==>
              Some(r.value[i]) != g.startPoint && r.value[i] in g.parents && r.value[i + 1] == g.parents[r.value[i]]
  {
    match g.startPoint
    case None => None
    case Some(s) => Chase(g.parents, s, endPos, |g.parents|)
  }

  /** `visit_grid_cell`: record `parent` as the parent of `visited`; raises when
      `visited` already has a parent. */
  function VisitGridCell(g: Grid, parent: Pos, visited: Pos): (r: Result<Grid>)
    ensures r.Failure? <==> visited in g.parents
    ensures r.Failure? ==> r.error == AlreadyVisited
    ensures r.Success? ==>
      && r.value.parents.Keys == g.parents.Keys + {visited}
      && r.value.parents[visited] == parent
      && (forall q :: q in g.parents ==> r.value.parents[q] == g.parents[q])
      && r.value == g.(parents := r.value.parents)
  {
    if visited in g.parents then Failure(AlreadyVisited)
    else Success(g.(parents := g.parents[visited := parent]))
  }

  /** The grid after a step and the path it returned, if any. */
  datatype StepOutcome = StepOutcome(grid: Grid, path: Option<seq<Pos>>)

  /** The loop over the filtered neighbours of `parent` in `bfs_isaac`. The
      filter is lazy, so each neighbour is classified only when the loop reaches
      it, after the earlier ones were visited; a neighbour never reached is never
      classified. A neighbour classified as path or end is visited; when it is
      the end point the traced path is returned at once, otherwise it is
      appended to the queue. */
  function Expand(g: Grid, parent: Pos, ns: seq<Pos>): (r: Result<StepOutcome>)
    ensures r.Failure? ==> r.error != AlreadyVisited
    ensures r.Success? ==> r.value.grid == g.(parents := r.value.grid.parents, bfsQueue := r.value.grid.bfsQueue)
    ensures r.Success? ==> g.parents.Keys <= r.value.grid.parents.Keys
    decreases |ns|
  {
    if ns == [] then Success(StepOutcome(g, None))
    else
      match GetCell(g, ns[0])
      case Failure(e) => Failure(e)
      case Success(cls) =>
        if cls != Path && cls != End then Expand(g, parent, ns[1..])
        else
          match VisitGridCell(g, parent, ns[0])
          case Failure(e) => Failure(e)
          case Success(visited) =>
            if visited.endPoint == Some(ns[0]) then
              match TracePath(visited, ns[0])
              case None => Failure(TraceDiverges)
              case Some(path) => Success(StepOutcome(visited, Some(path)))
            else Expand(visited.(bfsQueue := visited.bfsQueue + [ns[0]]), parent, ns[1..])
  }

  /** `bfs_isaac`: one breadth-first step. An empty queue yields no path and
      changes nothing; otherwise the front cell is dequeued and its neighbours
      are expanded in the fixed order. */
  function Step(g: Grid): (r: Result<StepOutcome>)
    ensures |g.bfsQueue| == 0 ==> r == Success(StepOutcome(g, None))
    ensures r.Failure? ==> r.error != AlreadyVisited
    ensures r.Success? ==> r.value.grid == g.(parents := r.value.grid.parents, bfsQueue := r.value.grid.bfsQueue)
    ensures r.Success? ==> g.parents.Keys <= r.value.grid.parents.Keys
  {
    if |g.bfsQueue| == 0 then Success(StepOutcome(g, None))
    else Expand(g.(bfsQueue := g.bfsQueue[1..]), g.bfsQueue[0], Neighbors(g.bfsQueue[0]))
  }

  /** The cells of `ns` a step would visit, in order: the reference for what
      the lazy filter-and-visit loop does. */
  function FreshOf(g: Grid, ns: seq<Pos>): (r: seq<Pos>)
    ensures forall q :: q in r <==> q in ns && Fresh(g, q)
    ensures Distinct(ns) ==> Distinct(r)
  {
    if ns == [] then []
    else (if Fresh(g, ns[0]) then [ns[0]] else []) + FreshOf(g, ns[1..])
  }

  /** `after` extends the parent map `before` exactly with `cells`, each
      linked to `parent`. */
  ghost predicate Linked(before: map<Pos, Pos>, after: map<Pos, Pos>, cells: seq<Pos>, parent: Pos) {
    && (forall q :: q in after <==> q in before || q in cells)
    && (forall q :: q in before ==> after[q] == before[q])
    && (forall q :: q in cells ==> after[q] == parent)
  }

  /** Linking one more cell in front of a linked sequence. */
  lemma LinkedCons(before: map<Pos, Pos>, after: map<Pos, Pos>, n: Pos, cells: seq<Pos>, parent: Pos)
    requires n !in before
    requires Linked(before[n := parent], after, cells, parent)
    ensures Linked(before, after, [n] + cells, parent)
  {
  }

  /** FreshOf only looks at the cells of `ns`. */
  lemma {:induction false} FreshOfFrame(g: Grid, h: Grid, ns: seq<Pos>)
    requires forall q :: q in ns ==> (Fresh(g, q) <==> Fresh(h, q))
    ensures FreshOf(g, ns) == FreshOf(h, ns)
  {
    if ns != [] {
      FreshOfFrame(g, h, ns[1..]);
    }
  }

  /** The grid after the loop visits `n` from `parent` and appends it to the
      queue. */
  function Queued(g: Grid, parent: Pos, n: Pos): (r: Grid)
    ensures n !in g.parents ==> VisitGridCell(g, parent, n) == Success(r.(bfsQueue := g.bfsQueue))
    ensures r.bfsQueue == g.bfsQueue + [n]
  {
    g.(parents := g.parents[n := parent], bfsQueue := g.bfsQueue + [n])
  }

  /** Visiting and queueing the fresh head of `ns` leaves the cells the loop
      visits among the next `k` neighbours unchanged. */
  lemma FreshOfQueued(g: Grid, parent: Pos, ns: seq<Pos>, k: nat)
    requires Distinct(ns) && ns != [] && Fresh(g, ns[0]) && k < |ns|
    ensures FreshOf(g, ns[..k + 1]) == [ns[0]] + FreshOf(Queued(g, parent, ns[0]), ns[1..][..k])
  {
    var rest := ns[1..][..k];
    assert ns[..k + 1] == [ns[0]] + rest;
    assert forall q :: q in rest ==> q != ns[0];
    FreshOfFrame(g, Queued(g, parent, ns[0]), rest);
  }

  /** The loop skips a neighbour that is not fresh. */
  lemma ExpandSkip(g: Grid, parent: Pos, ns: seq<Pos>)
    requires ns != [] && !Fresh(g, ns[0]) && Expand(g, parent, ns).Success?
    ensures Expand(g, parent, ns) == Expand(g, parent, ns[1..])
  {
  }

  /** The loop visits and queues a fresh neighbour that is not the end point. */
  lemma ExpandQueue(g: Grid, parent: Pos, ns: seq<Pos>)
    requires ns != [] && Fresh(g, ns[0]) && g.endPoint != Some(ns[0])
    ensures Expand(g, parent, ns) == Expand(Queued(g, parent, ns[0]), parent, ns[1..])
  {
  }

  /** The loop stops at a fresh neighbour that is the end point. */
  lemma ExpandStop(g: Grid, parent: Pos, ns: seq<Pos>)
    requires ns != [] && Fresh(g, ns[0]) && g.endPoint == Some(ns[0])
    ensures var visited := g.(parents := g.parents[ns[0] := parent]);
      Expand(g, parent, ns) == match TracePath(visited, ns[0])
        case None => Failure(TraceDiverges)
        case Some(path) => Success(StepOutcome(visited, Some(path)))
  {
  }

  /** Concatenation is associative. */
  lemma AppendAssoc(a: seq<Pos>, b: seq<Pos>, c: seq<Pos>)
    ensures (a + b) + c == a + (b + c)
  {
  }

  /** The shape of a step that met no end point among `ns`: every fresh
      neighbour is linked to `parent` and appended to the queue in order. */
  ghost predicate MissShape(g: Grid, out: Grid, parent: Pos, ns: seq<Pos>) {
    && out.bfsQueue == g.bfsQueue + FreshOf(g, ns)
    && Linked(g.parents, out.parents, FreshOf(g, ns), parent)
    && (forall q :: q in FreshOf(g, ns) ==> Some(q) != g.endPoint)
  }

  /** Visiting and queueing the fresh head of `ns` leaves the cells the loop
      visits among the rest unchanged. */
  lemma FreshOfCons(g: Grid, parent: Pos, ns: seq<Pos>)
    requires Distinct(ns) && ns != [] && Fresh(g, ns[0])
    ensures FreshOf(g, ns) == [ns[0]] + FreshOf(Queued(g, parent, ns[0]), ns[1..])
  {
    assert forall q :: q in ns[1..] ==> q != ns[0];
    FreshOfFrame(g, Queued(g, parent, ns[0]), ns[1..]);
  }

  /** A fresh neighbour visited and queued when no end point is met. */
  lemma MissShapeQueued(g: Grid, out: Grid, parent: Pos, ns: seq<Pos>)
    requires Distinct(ns) && ns != [] && Fresh(g, ns[0]) && g.endPoint != Some(ns[0])
    requires MissShape(Queued(g, parent, ns[0]), out, parent, ns[1..])
    ensures MissShape(g, out, parent, ns)
  {
    var n := ns[0];
    var cells := FreshOf(Queued(g, parent, n), ns[1..]);
    FreshOfCons(g, parent, ns);
    LinkedCons(g.parents, out.parents, n, cells, parent);
    assert forall q :: q in [n] + cells ==> q == n || q in cells;
    AppendAssoc(g.bfsQueue, [n], cells);
  }

  /** What the neighbour loop does when no neighbour is the end point. */
  lemma {:induction false} ExpandMiss(g: Grid, parent: Pos, ns: seq<Pos>)
    requires Distinct(ns)
    requires Expand(g, parent, ns).Success? && Expand(g, parent, ns).value.path.None?
    ensures MissShape(g, Expand(g, parent, ns).value.grid, parent, ns)
    decreases |ns|
  {
    if ns != [] {
      var n, rest := ns[0], ns[1..];
      if !Fresh(g, n) {
        ExpandSkip(g, parent, ns);
        ExpandMiss(g, parent, rest);
        assert FreshOf(g, ns) == FreshOf(g, rest);
      } else if g.endPoint == Some(n) {
        ExpandStop(g, parent, ns);
      } else {
        ExpandQueue(g, parent, ns);
        ExpandMiss(Queued(g, parent, n), parent, rest);
        MissShapeQueued(g, Expand(g, parent, ns).value.grid, parent, ns);
      }
    }
  }

  /** The shape of a step that met the end point at index `hit` of `ns`: the
      fresh neighbours before it are linked to `parent` and queued, and the end
      point is linked but not queued. */
  ghost predicate HitShape(g: Grid, out: StepOutcome, parent: Pos, ns: seq<Pos>, hit: nat) {
    && hit < |ns| && Fresh(g, ns[hit]) && g.endPoint == Some(ns[hit])
    && out.grid.bfsQueue == g.bfsQueue + FreshOf(g, ns[..hit])
    && Linked(g.parents, out.grid.parents, FreshOf(g, ns[..hit]) + [ns[hit]], parent)
  }

  /** A neighbour that is not fresh does not change the shape of the rest. */
  lemma HitShapeSkip(g: Grid, out: StepOutcome, parent: Pos, ns: seq<Pos>, h: nat)
    requires ns != [] && !Fresh(g, ns[0])
    requires HitShape(g, out, parent, ns[1..], h)
    ensures HitShape(g, out, parent, ns, h + 1)
  {
    assert ns[..h + 1] == [ns[0]] + ns[1..][..h];
    assert FreshOf(g, ns[..h + 1]) == FreshOf(g, ns[1..][..h]);
  }

  /** A fresh neighbour visited and queued before the end point is met. */
  lemma HitShapeQueued(g: Grid, out: StepOutcome, parent: Pos, ns: seq<Pos>, h: nat)
    requires Distinct(ns) && ns != [] && Fresh(g, ns[0])
    requires HitShape(Queued(g, parent, ns[0]), out, parent, ns[1..], h)
    ensures HitShape(g, out, parent, ns, h + 1)
  {
    var n := ns[0];
    var queued := Queued(g, parent, n);
    var cells := FreshOf(queued, ns[1..][..h]);
    FreshOfQueued(g, parent, ns, h);
    LinkedCons(g.parents, out.grid.parents, n, cells + [ns[h + 1]], parent);
    AppendAssoc([n], cells, [ns[h + 1]]);
    AppendAssoc(g.bfsQueue, [n], cells);
  }

  /** The loop meets the end point as its first neighbour: nothing is queued
      and the end point alone is linked. */
  lemma HitShapeStop(g: Grid, parent: Pos, ns: seq<Pos>)
    requires ns != [] && Fresh(g, ns[0]) && g.endPoint == Some(ns[0])
    requires Expand(g, parent, ns).Success?
    ensures HitShape(g, Expand(g, parent, ns).value, parent, ns, 0)
    ensures TracePath(Expand(g, parent, ns).value.grid, ns[0]) == Expand(g, parent, ns).value.path
  {
    ExpandStop(g, parent, ns);
    assert ns[..0] == [] && FreshOf(g, ns[..0]) == [];
  }

  /** What the neighbour loop does when it meets the end point. */
  lemma {:induction false} ExpandHit(g: Grid, parent: Pos, ns: seq<Pos>) returns (hit: nat)
    requires Distinct(ns)
    requires Expand(g, parent, ns).Success? && Expand(g, parent, ns).value.path.Some?
    ensures HitShape(g, Expand(g, parent, ns).value, parent, ns, hit)
    ensures TracePath(Expand(g, parent, ns).value.grid, ns[hit]) == Expand(g, parent, ns).value.path
    decreases |ns|
  {
    var out := Expand(g, parent, ns).value;
    var n, rest := ns[0], ns[1..];
    if !Fresh(g, n) {
      ExpandSkip(g, parent, ns);
      var h := ExpandHit(g, parent, rest);
      HitShapeSkip(g, out, parent, ns, h);
      hit := h + 1;
    } else if g.endPoint == Some(n) {
      HitShapeStop(g, parent, ns);
      hit := 0;
    } else {
      ExpandQueue(g, parent, ns);
      var h := ExpandHit(Queued(g, parent, n), parent, rest);
      HitShapeQueued(g, out, parent, ns, h);
      hit := h + 1;
    }
  }

  /** The loop over `ns` reaches neighbour `i` and it is an unvisited, never
      painted cell of the grid: no earlier neighbour was a fresh end point
      that would have stopped the loop first. */
  ghost predicate RaisesAt(g: Grid, ns: seq<Pos>, i: int) {
    && 0 <= i < |ns|
    && InBounds(g, ns[i]) && ns[i] !in g.parents && ColorAt(g, ns[i]) == Unpainted
    && (forall j :: 0 <= j < i ==> !(Fresh(g, ns[j]) && g.endPoint == Some(ns[j])))
  }

  /** The loop raises the unknown-colour error when it reaches an unvisited,
      never painted neighbour. */
  lemma {:induction false} ExpandRaisesAt(g: Grid, parent: Pos, ns: seq<Pos>, i: int)
    requires Distinct(ns) && RaisesAt(g, ns, i)
    ensures Expand(g, parent, ns) == Failure(UnknownColor)
    decreases |ns|
  {
    var n, rest := ns[0], ns[1..];
    if GetCell(g, n).Success? {
      assert i > 0;
      if !Fresh(g, n) {
        assert RaisesAt(g, rest, i - 1);
        ExpandRaisesAt(g, parent, rest, i - 1);
      } else {
        var h := Queued(g, parent, n);
        ExpandQueue(g, parent, ns);
        assert rest[i - 1] != n;
        assert RaisesAt(h, rest, i - 1);
        ExpandRaisesAt(h, parent, rest, i - 1);
      }
    }
  }

  /** The loop raises the unknown-colour error only at an unvisited, never
      painted neighbour it reaches. */
  lemma {:induction false} ExpandRaisesOnly(g: Grid, parent: Pos, ns: seq<Pos>) returns (i: int)
    requires Distinct(ns) && Expand(g, parent, ns) == Failure(UnknownColor)
    ensures RaisesAt(g, ns, i)
    decreases |ns|
  {
    var n, rest := ns[0], ns[1..];
    if GetCell(g, n).Failure? {
      i := 0;
    } else if !Fresh(g, n) {
      var k := ExpandRaisesOnly(g, parent, rest);
      i := k + 1;
    } else if g.endPoint == Some(n) {
      ExpandStop(g, parent, ns);
      assert false;
    } else {
      var h := Queued(g, parent, n);
      ExpandQueue(g, parent, ns);
      var k := ExpandRaisesOnly(h, parent, rest);
      assert forall j :: 0 <= j < |rest| ==> rest[j] != n;
      i := k + 1;
    }
  }

  /** The neighbour loop raises the unknown-colour error exactly when it
      reaches an unvisited, never painted neighbour. */
  lemma ExpandRaises(g: Grid, parent: Pos, ns: seq<Pos>)
    requires Distinct(ns)
    ensures Expand(g, parent, ns) == Failure(UnknownColor) <==> exists i :: RaisesAt(g, ns, i)
  {
    if i :| RaisesAt(g, ns, i) {
      ExpandRaisesAt(g, parent, ns, i);
    }
    if Expand(g, parent, ns) == Failure(UnknownColor) {
      var i := ExpandRaisesOnly(g, parent, ns);
    }
  }

  /** A step raises the unknown-colour error exactly when its queue is not
      empty and the loop over the dequeued cell's neighbours reaches an
      unvisited, never painted one. */
  lemma StepRaises(g: Grid)
    ensures Step(g) == Failure(UnknownColor) <==>
      |g.bfsQueue| > 0 && exists i :: RaisesAt(g, Neighbors(g.bfsQueue[0]), i)
  {
    if |g.bfsQueue| > 0 {
      var ns := Neighbors(g.bfsQueue[0]);
      var h := g.(bfsQueue := g.bfsQueue[1..]);
      assert Step(g) == Expand(h, g.bfsQueue[0], ns);
      ExpandRaises(h, g.bfsQueue[0], ns);
      if i :| RaisesAt(g, ns, i) {
        assert RaisesAt(h, ns, i);
      }
      if i :| RaisesAt(h, ns, i) {
        assert RaisesAt(g, ns, i);
      }
    }
  }
}
