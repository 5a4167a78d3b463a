/** The two callbacks of the pathfinding loop: one search step per ticker
    firing until a path is found, and the space-key toggle between drawing and
    searching. The ticker firing and the key press are inputs. */
module Pathfinder {
  import opened Outcomes
  import opened GridModel
  import opened Bfs
  import opened GlobalState

  /** `pathfind_update`: once a path is stored nothing happens (the ticker is
      not even consulted); otherwise, when the ticker fires, one search step
      runs and its result becomes the stored path. A raised error ends the
      program. */
  function PathfindUpdate(s: Session, tickFired: bool): (r: Result<Session>)
    ensures s.grid.foundPath.Some? ==> r == Success(s)
    ensures !tickFired ==> r == Success(s)
    ensures r.Failure? <==> s.grid.foundPath.None? && tickFired && Step(s.grid).Failure?
    ensures r.Failure? ==> r.error != AlreadyVisited
    ensures r.Success? ==> r.value.gamemode == s.gamemode && r.value.mainLoop == s.mainLoop
    ensures r.Success? && s.grid.foundPath.None? && tickFired ==>
      && r.value.grid.foundPath == Step(s.grid).value.path
      && r.value.grid.(foundPath := None) == Step(s.grid).value.grid
  {
    if s.grid.foundPath.Some? || !tickFired then Success(s)
    else
      match Step(s.grid)
      case Failure(e) => Failure(e)
      case Success(o) => Success(s.(grid := o.grid.(foundPath := o.path)))
  }

  /** `pathfind_toggle`: without a space key press nothing changes; with one,
      playing switches to drawing and any other mode requests play. */
  function PathfindToggle(s: Session, spacePressed: bool): (r: Session)
    ensures !spacePressed ==> r == s
    ensures spacePressed ==> r.grid.foundPath.None? && forall p :: p in r.grid.parents ==> Some(p) == r.grid.startPoint
    ensures spacePressed && s.gamemode == Play ==> r.gamemode == Draw && r.mainLoop == DrawLoop
    ensures spacePressed && s.gamemode == Draw && IsReady(s.grid) ==> r.gamemode == Play && r.mainLoop == PathfindLoop
    ensures spacePressed && s.gamemode == Draw && !IsReady(s.grid) ==> r.gamemode == Draw && r.mainLoop == s.mainLoop
    ensures spacePressed ==>
      r.grid.colors == s.grid.colors && r.grid.width == s.grid.width && r.grid.height == s.grid.height &&
      r.grid.startPoint == s.grid.startPoint && r.grid.endPoint == s.grid.endPoint
    ensures spacePressed && s.gamemode == Play ==> r.grid.bfsQueue == s.grid.bfsQueue
    ensures spacePressed && s.gamemode == Draw && IsReady(s.grid) ==> r.grid.bfsQueue == [s.grid.startPoint.value]
    ensures spacePressed && s.gamemode == Draw && !IsReady(s.grid) ==> r.grid.bfsQueue == s.grid.bfsQueue
    ensures spacePressed ==> r.grid.pathRenderIter == 0
    ensures spacePressed && r.gamemode == Draw ==> r.grid.parents == map[]
    ensures spacePressed && s.gamemode == Draw && IsReady(s.grid) ==>
      r.grid.parents == map[s.grid.startPoint.value := s.grid.startPoint.value]
  {
    if !spacePressed then s
    else if s.gamemode == Play then SetGamemode(s, Draw, DrawLoop)
    else SetGamemode(s, Play, PathfindLoop)
  }

  /** Pressing space twice while searching a ready board restarts the search:
      the same state as a fresh request to play. */
  lemma ToggleTwiceRestarts(s: Session)
    requires s.gamemode == Play && IsReady(s.grid)
    ensures PathfindToggle(PathfindToggle(s, true), true) == SetGamemode(s, Play, PathfindLoop)
  {
  }
}
