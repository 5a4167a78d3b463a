/** The session state that decides which loop runs each frame, and the switch
    between drawing the board and searching it. */
module GlobalState {
  import opened Outcomes
  import opened GridModel
  import opened SearchInvariants

  /** Drawing the board, or searching it. */
  datatype Gamemode = Draw | Play

  /** The list of callbacks run each frame: the one the program starts with,
      the drawing loop (painting plus the toggle) and the pathfinding loop
      (a search step plus the toggle). */
  datatype Loop = StartupLoop | DrawLoop | PathfindLoop

  /** The part of the global state the search and the mode switch touch. */
  datatype Session = Session(grid: Grid, gamemode: Gamemode, mainLoop: Loop)

  /** `GlobalState.init`: the default board, with no cell painted, in drawing
      mode (the program never passes another mode). */
  function Init(mainLoop: Loop): (s: Session)
    ensures s.gamemode == Draw && s.mainLoop == mainLoop
    ensures s.grid.width == 40 && s.grid.height == 40
    ensures forall p :: ColorAt(s.grid, p) == Unpainted && p !in s.grid.parents
    ensures s.grid.bfsQueue == [] && s.grid.foundPath.None? && s.grid.pathRenderIter == 0
    ensures PaintInv(s.grid) && !IsReady(s.grid)
  {
    NewGridPaintInv(ScreenWidth / GridScale, ScreenWidth / GridScale);
    Session(DefaultGrid(), Draw, mainLoop)
  }

  /** The corrected startup session: drawing mode on a board whose every cell
      is an open path cell, the counterpart of `Init`. */
  function InitPainted(mainLoop: Loop): (s: Session)
    ensures s.gamemode == Draw && s.mainLoop == mainLoop
    ensures s.grid.width == 40 && s.grid.height == 40
    ensures forall p :: InBounds(s.grid, p) ==> ColorAt(s.grid, p) == PathColor
    ensures forall p :: p !in s.grid.parents
    ensures s.grid.bfsQueue == [] && s.grid.foundPath.None? && s.grid.pathRenderIter == 0
    ensures FullyPainted(s.grid) && PaintInv(s.grid) && !IsReady(s.grid)
  {
    PaintedGridStarts(ScreenWidth / GridScale, ScreenWidth / GridScale);
    Session(PaintedGrid(ScreenWidth / GridScale, ScreenWidth / GridScale), Draw, mainLoop)
  }

  /** `GlobalState.set_gamemode`: the search is always reset first. A request
      to play on a board without both end points is refused after that reset;
      otherwise playing starts a queue holding only the start point, and
      drawing leaves the queue as it was. */
  function SetGamemode(s: Session, mode: Gamemode, loop: Loop): (r: Session)
    ensures r.grid.foundPath.None? && r.grid.pathRenderIter == 0
    ensures r.grid.colors == s.grid.colors && r.grid.width == s.grid.width && r.grid.height == s.grid.height
    ensures r.grid.startPoint == s.grid.startPoint && r.grid.endPoint == s.grid.endPoint
    ensures mode == Play && !IsReady(s.grid) ==>
      r.gamemode == s.gamemode && r.mainLoop == s.mainLoop &&
      r.grid.bfsQueue == s.grid.bfsQueue && r.grid.parents == map[]
    ensures mode == Play && IsReady(s.grid) ==>
      r.gamemode == Play && r.mainLoop == loop &&
      r.grid.bfsQueue == [s.grid.startPoint.value] &&
      r.grid.parents == map[s.grid.startPoint.value := s.grid.startPoint.value]
    ensures mode == Draw ==>
      r.gamemode == Draw && r.mainLoop == loop &&
      r.grid.bfsQueue == s.grid.bfsQueue && r.grid.parents == map[]
  {
    var g := ResetPath(s.grid);
    if mode == Play then
      if !IsReady(g) then s.(grid := g)
      else Session(InitQueue(g).value, Play, loop)
    else Session(g, Draw, loop)
  }

  /** Repeating a mode request changes nothing more. */
  lemma SetGamemodeIdempotent(s: Session, mode: Gamemode, loop: Loop)
    ensures SetGamemode(SetGamemode(s, mode, loop), mode, loop) == SetGamemode(s, mode, loop)
  {
  }

  /** Switching modes keeps the single-start/single-end bookkeeping, and an
      accepted request to play on a consistent board starts a search from the
      start point alone. */
  lemma SetGamemodeStartsSearch(s: Session, loop: Loop)
    requires PaintInv(s.grid)
    ensures PaintInv(SetGamemode(s, Play, loop).grid) && PaintInv(SetGamemode(s, Draw, loop).grid)
    ensures IsReady(s.grid) ==>
      SearchInv(SetGamemode(s, Play, loop).grid, map[s.grid.startPoint.value := 0])
  {
    PaintInvFrame(s.grid, SetGamemode(s, Play, loop).grid);
    PaintInvFrame(s.grid, SetGamemode(s, Draw, loop).grid);
    if IsReady(s.grid) {
      InitQueueStartsSearch(s.grid);
    }
  }
}
