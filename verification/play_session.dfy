/** Running the pathfinding loop to its end: from an accepted request to play
    on a fully painted board, at most one ticker firing per cell of the board
    settles the search without raising. It then holds either a shortest route
    from the start point to the end point or an empty queue on a board where no
    such route exists. */
module PlaySession {
  import opened Outcomes
  import opened GridModel
  import opened Bfs
  import opened SearchInvariants
  import opened SearchResults
  import opened SearchProgress
  import opened GlobalState
  import opened Pathfinder

  /** `n` frames of the pathfinding loop in which the ticker fires, stopping at
      the first raised error. */
  function Drive(s: Session, n: nat): (r: Result<Session>)
    ensures r.Success? ==> r.value.gamemode == s.gamemode && r.value.mainLoop == s.mainLoop
    decreases n
  {
    if n == 0 then Success(s)
    else
      match PathfindUpdate(s, true)
      case Failure(e) => Failure(e)
      case Success(t) => Drive(t, n - 1)
  }

  /** The search is over: either the stored path, read from start to end, is a
      route no other route beats, or the queue is empty and no route exists. */
  ghost predicate Settled(g: Grid) {
    && g.startPoint.Some? && g.endPoint.Some?
    && match g.foundPath
       case Some(p) =>
         && IsRoute(g, Reversed(p), g.startPoint.value, g.endPoint.value)
         && forall w :: IsRoute(g, w, g.startPoint.value, g.endPoint.value) ==> |p| <= |w|
       case None =>
         && |g.bfsQueue| == 0
         && forall w :: !IsRoute(g, w, g.startPoint.value, g.endPoint.value)
  }

  /** A session the update leaves as it is stays so for any number of frames. */
  lemma {:induction false} DriveIdle(s: Session, n: nat)
    requires PathfindUpdate(s, true) == Success(s)
    ensures Drive(s, n) == Success(s)
    decreases n
  {
    if n > 0 {
      DriveIdle(s, n - 1);
    }
  }

  /** Routes depend only on the board's size and paint. */
  lemma RouteFrame(g: Grid, h: Grid, w: seq<Pos>, a: Pos, b: Pos)
    requires h.width == g.width && h.height == g.height && h.colors == g.colors
    ensures IsRoute(g, w, a, b) <==> IsRoute(h, w, a, b)
  {
    assert forall p :: Passable(g, p) == Passable(h, p);
  }

  /** A search step that reports a path settles the session. */
  lemma FoundSettles(s: Session, d: map<Pos, nat>)
    requires SearchInv(s.grid, d) && s.grid.foundPath.None?
    requires Step(s.grid).Success? && Step(s.grid).value.path.Some?
    ensures PathfindUpdate(s, true).Success?
    ensures Settled(PathfindUpdate(s, true).value.grid)
  {
    var g := s.grid;
    var t := PathfindUpdate(s, true).value.grid;
    StepFindsShortest(g, d);
    forall w ensures IsRoute(g, w, g.startPoint.value, g.endPoint.value) <==> IsRoute(t, w, g.startPoint.value, g.endPoint.value) {
      RouteFrame(g, t, w, g.startPoint.value, g.endPoint.value);
    }
  }

  /** A frame whose update succeeds hands the remaining frames to its result. */
  lemma DriveUnfold(s: Session, n: nat, k: nat)
    requires n == k + 1 && PathfindUpdate(s, true).Success?
    ensures Drive(s, n) == Drive(PathfindUpdate(s, true).value, k)
  {
  }

  /** On an exhausted queue the update changes nothing, and the search is
      settled with no route. */
  lemma ExhaustedSettles(s: Session, d: map<Pos, nat>, n: nat)
    requires SearchInv(s.grid, d) && s.grid.foundPath.None? && |s.grid.bfsQueue| == 0
    ensures Drive(s, n) == Success(s)
    ensures Settled(s.grid)
  {
    assert Step(s.grid) == Success(StepOutcome(s.grid, None));
    assert PathfindUpdate(s, true) == Success(s);
    DriveIdle(s, n);
    ExhaustedHasNoRoute(s.grid, d);
  }

  /** An update whose step reports no path keeps the search state, the paint
      and the end points, and consumes one unit of work. */
  lemma MissContinues(s: Session, d: map<Pos, nat>) returns (d': map<Pos, nat>)
    requires SearchInv(s.grid, d) && s.grid.foundPath.None? && FullyPainted(s.grid)
    requires |s.grid.bfsQueue| > 0 && Step(s.grid).Success? && Step(s.grid).value.path.None?
    ensures PathfindUpdate(s, true).Success?
    ensures var g := PathfindUpdate(s, true).value.grid;
      && SearchInv(g, d') && g.foundPath.None? && FullyPainted(g)
      && Measure(g) + 1 == Measure(s.grid)
      && g.colors == s.grid.colors && g.width == s.grid.width && g.height == s.grid.height
      && g.startPoint == s.grid.startPoint && g.endPoint == s.grid.endPoint
  {
    var g := s.grid;
    var out := Step(g).value.grid;
    assert PathfindUpdate(s, true).value.grid == out;
    d' := StepPreservesSearchInv(g, d);
    StepDecreasesMeasure(g);
    FullyPaintedFrame(g, out);
  }

  /** `n` frames from `s` end in `r` without raising. */
  ghost predicate DrivesTo(s: Session, n: nat, r: Session) {
    Drive(s, n) == Success(r)
  }

  /** Chaining the first frame with the rest. */
  lemma DriveLink(s: Session, t: Session, r: Session, n: nat, k: nat)
    requires Drive(s, n) == Drive(t, k) && DrivesTo(t, k, r)
    ensures DrivesTo(s, n, r)
  {
  }

  /** One frame of a search with work left: it does not raise, and either
      settles the session for good or keeps the search state with one unit
      of work less. */
  lemma Advance(s: Session, d: map<Pos, nat>, n: nat, k: nat) returns (t: Session, found: bool, d': map<Pos, nat>)
    requires SearchInv(s.grid, d) && s.grid.foundPath.None? && FullyPainted(s.grid)
    requires |s.grid.bfsQueue| > 0 && n == k + 1
    ensures Drive(s, n) == Drive(t, k)
    ensures found ==> DrivesTo(t, k, t) && Settled(t.grid)
    ensures !found ==>
      && SearchInv(t.grid, d') && t.grid.foundPath.None? && FullyPainted(t.grid)
      && Measure(t.grid) + 1 == Measure(s.grid)
    ensures t.grid.colors == s.grid.colors && t.grid.width == s.grid.width && t.grid.height == s.grid.height
    ensures t.grid.startPoint == s.grid.startPoint && t.grid.endPoint == s.grid.endPoint
  {
    StepSucceeds(s.grid, d);
    t := PathfindUpdate(s, true).value;
    DriveUnfold(s, n, k);
    found := Step(s.grid).value.path.Some?;
    if found {
      FoundSettles(s, d);
      DriveIdle(t, k);
      d' := d;
    } else {
      d' := MissContinues(s, d);
    }
  }

  /** With the ticker firing every frame, a search that has not found the end
      point settles within as many frames as its remaining work, without
      raising, and keeps the board's paint and end points. */
  lemma {:induction false} DriveSettles(s: Session, d: map<Pos, nat>, n: nat) returns (r: Session)
    requires SearchInv(s.grid, d) && s.grid.foundPath.None? && FullyPainted(s.grid)
    requires Measure(s.grid) <= n
    ensures DrivesTo(s, n, r)
    ensures Settled(r.grid)
    ensures r.grid.colors == s.grid.colors && r.grid.width == s.grid.width && r.grid.height == s.grid.height
    ensures r.grid.startPoint == s.grid.startPoint && r.grid.endPoint == s.grid.endPoint
    decreases n
  {
    if |s.grid.bfsQueue| == 0 {
      ExhaustedSettles(s, d, n);
      r := s;
      assert DrivesTo(s, n, r);
    } else {
      var k: nat := n - 1;
      var t, found, d' := Advance(s, d, n, k);
      if found {
        r := t;
      } else {
        r := DriveSettles(t, d', k);
      }
      DriveLink(s, t, r, n, k);
    }
  }

  /** Requesting play on a fully painted, consistent board with both end
      points, then letting the ticker fire once per cell of the board, ends in
      a settled search on the same board and never raises. */
  lemma PlaySettles(s: Session)
    requires PaintInv(s.grid) && IsReady(s.grid) && FullyPainted(s.grid)
    ensures var t := SetGamemode(s, Play, PathfindLoop);
      && t.gamemode == Play
      && Drive(t, s.grid.width * s.grid.height).Success?
      && Settled(Drive(t, s.grid.width * s.grid.height).value.grid)
      && Drive(t, s.grid.width * s.grid.height).value.grid.colors == s.grid.colors
  {
    var t := SetGamemode(s, Play, PathfindLoop);
    SetGamemodeStartsSearch(s, PathfindLoop);
    InitMeasure(s.grid);
    assert t.grid == InitQueue(ResetPath(s.grid)).value;
    FullyPaintedFrame(s.grid, t.grid);
    var r := DriveSettles(t, map[s.grid.startPoint.value := 0], s.grid.width * s.grid.height);
  }

  /** A run of `place_square` calls, one stroke per (cell, colour) pair. */
  function PaintStrokes(g: Grid, strokes: seq<(Pos, Color)>): (r: Grid)
    ensures r.width == g.width && r.height == g.height && r.parents == g.parents
    ensures r.bfsQueue == g.bfsQueue && r.foundPath == g.foundPath
    decreases |strokes|
  {
    if strokes == [] then g
    else PaintStrokes(PlaceSquare(g, strokes[0].0, strokes[0].1), strokes[1..])
  }

  /** Painting palette colours keeps the bookkeeping and leaves no cell
      unpainted. */
  lemma {:induction false} StrokesKeepBoard(g: Grid, strokes: seq<(Pos, Color)>)
    requires PaintInv(g) && FullyPainted(g)
    requires forall i :: 0 <= i < |strokes| ==> strokes[i].1 != Unpainted
    ensures PaintInv(PaintStrokes(g, strokes)) && FullyPainted(PaintStrokes(g, strokes))
    decreases |strokes|
  {
    if strokes != [] {
      PlaceSquarePreservesPaintInv(g, strokes[0].0, strokes[0].1);
      PlaceSquareKeepsPainted(g, strokes[0].0, strokes[0].1);
      StrokesKeepBoard(PlaceSquare(g, strokes[0].0, strokes[0].1), strokes[1..]);
    }
  }

  /** As written, the board starts unpainted: marking the start at (1, 0) and
      the end at (3, 0), pressing space and letting the ticker fire once
      raises on the never painted cell (0, 0). */
  lemma UnpaintedBoardRaises()
    ensures var s := Init(DrawLoop);
      var b := s.(grid := PaintStrokes(s.grid, [(Pos(1, 0), StartColor), (Pos(3, 0), EndColor)]));
      var t := PathfindToggle(b, true);
      && IsReady(b.grid) && t.gamemode == Play
      && PathfindUpdate(t, true) == Failure(UnknownColor)
  {
    var s := Init(DrawLoop);
    var g1 := PlaceSquare(s.grid, Pos(1, 0), StartColor);
    var g2 := PlaceSquare(g1, Pos(3, 0), EndColor);
    assert PaintStrokes(s.grid, [(Pos(1, 0), StartColor), (Pos(3, 0), EndColor)]) == g2 by {
      assert [(Pos(1, 0), StartColor), (Pos(3, 0), EndColor)][1..] == [(Pos(3, 0), EndColor)];
    }
    var b := s.(grid := g2);
    var t := PathfindToggle(b, true);
    assert ColorAt(t.grid, Pos(0, 0)) == Unpainted;
    StepFailsOnUnpainted(t.grid);
  }

  /** On the corrected startup board, whatever palette colours are painted,
      pressing space on a ready board and letting the ticker fire once per
      cell ends in a settled search on the painted board without raising. */
  lemma PaintedBoardSettles(strokes: seq<(Pos, Color)>)
    requires forall i :: 0 <= i < |strokes| ==> strokes[i].1 != Unpainted
    ensures var s := InitPainted(DrawLoop);
      var b := s.(grid := PaintStrokes(s.grid, strokes));
      var t := PathfindToggle(b, true);
      IsReady(b.grid) ==>
        && t.gamemode == Play
        && Drive(t, 1600).Success?
        && Settled(Drive(t, 1600).value.grid)
        && Drive(t, 1600).value.grid.colors == b.grid.colors
  {
    var s := InitPainted(DrawLoop);
    StrokesKeepBoard(s.grid, strokes);
    var b := s.(grid := PaintStrokes(s.grid, strokes));
    if IsReady(b.grid) {
      PlaySettles(b);
    }
  }
}
