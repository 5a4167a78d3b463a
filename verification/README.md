# search_game: grid, one-step breadth-first search and mode switch

A Dafny model of the core of `search_game`, a pygame pathfinding visualiser.
The user paints walls, path cells, one start cell and one end cell on a grid.
Pressing space enters play mode. Each time the pathfinding ticker fires, one
breadth-first search step runs, until a path from start to end is found.

The model covers:

- **The grid** (`GridModel`, `grid.dfy`).
  - Paint is a five-case colour: the four palette colours plus the all-zero
    colour every cell holds before it is painted.
  - The start and end references.
  - The parent matrix, as a partial map. A missing key is the `-1` sentinel.
  - The BFS queue, the found path and the path reveal counter.
  - The grid operations `from_color`, `in_bounds`, `place_square`,
    `get_cell`, `is_ready`, `init_queue` and `reset_path`, and the
    constructor and default size.
- **One search step** (`Bfs`, `bfs.dfy`): `trace_path`, `visit_grid_cell` and
  `bfs_isaac`.
  - Python's `filter` is lazy. Each neighbour is therefore classified only
    after the earlier neighbours of the same step were visited, and the
    neighbour loop is modelled that way.
  - A raised `ValueError` is a `Failure`.
- **Search invariants** (`SearchInvariants`). While a search runs:
  - the parents form a tree rooted at the start point with 4-adjacent links;
  - the queue holds distinct visited cells in nondecreasing breadth-first
    depth;
  - cells that left the queue have all their passable neighbours visited.

  Depths are a ghost map `d`. Every step that does not reach the end keeps
  this state.
- **Search results** (`SearchResults`).
  - A traced path, read backwards, is a route from start to end, and no
    route is shorter.
  - An exhausted queue means no route exists.
- **Progress** (`SearchProgress`).
  - A step that does not find the end point consumes one unit of work.
  - A play session starts with `width * height` units.
  - On a fully painted board a step never raises.
- **Mode switch** (`GlobalState`, `Pathfinder`): `Gamemode`, `init` (its
  default mode), `set_gamemode`, `pathfind_update` and `pathfind_toggle`.
  The ticker firing and the space key press are boolean inputs.
- **A whole play session** (`PlaySession`). Entering play on a fully painted,
  ready board and letting the ticker fire once per cell settles the search
  without raising.

## Model

| member | source | states |
|---|---|---|
| GridModel.FromColor | search_game/grid.py:39-50 | the four palette colours map to Start, End, Path and Wall; the unpainted zero colour raises; no colour gives Visited |
| GridModel.FromPaletteColor | search_game/grid.py:40-49 | classifying the colour a state is drawn with gives that state back |
| GridModel.InBounds | search_game/grid.py:136-142 | the `in_bounds` test: 0 <= x < width and 0 <= y < height; its partner `GridModel.Cells` proves the positions passing it are exactly the cells of an independently built width by height rectangle |
| GridModel.Cells | search_game/grid.py:136-142 | a position is a cell of the grid exactly when 0 <= x < width and 0 <= y < height |
| GridModel.NewGrid | search_game/grid.py:96-113 | a new grid has the given size, no painted cell, no parent, no start or end, an empty queue, no path and a zero reveal counter |
| GridModel.DefaultGrid | search_game/grid.py:118-121 | the default grid is 40 by 40 (800-pixel window, 20-pixel cells), unpainted, with no parent, no start or end, an empty queue, no path and a zero reveal counter |
| GridModel.NewGridPaintInv | search_game/grid.py:102-103 | a new grid satisfies the single-start/single-end bookkeeping and is not ready |
| GridModel.PlaceSquare | search_game/grid.py:155-176 | outside the grid nothing changes; inside, the cell takes the colour; painting start or end repaints the old start or end cell as path and records the new one; painting another colour over the recorded start or end clears that reference; no other cell changes |
| GridModel.PlaceSquarePreservesPaintInv | search_game/grid.py:155-176 | after any paint, a cell is start-coloured exactly when it is the recorded start, and likewise for the end |
| GridModel.PlaceSquareKeepsPainted | search_game/grid.py:158-176 | painting a palette colour leaves no cell of a fully painted grid unpainted |
| GridModel.GetCell | search_game/grid.py:179-188 | out of bounds is Wall; a cell with a parent is Visited; any other cell gets exactly `from_color` of its paint, which raises exactly for an unpainted cell; Path or End exactly for an unvisited passable cell |
| GridModel.IsReady | search_game/grid.py:190-191 | `is_ready`: both a start and an end point are recorded; its partner `GridModel.ReadyIffEndsPainted` ties this to the paint |
| GridModel.ReadyIffEndsPainted | search_game/grid.py:155-176 | with consistent bookkeeping, the grid is ready exactly when some cell carries the start colour and some cell carries the end colour |
| GridModel.ReadyEndsDistinct | search_game/grid.py:190-191 | on a ready grid with consistent bookkeeping, start and end are distinct in-bounds cells with the start and end colours |
| GridModel.InitQueue | search_game/grid.py:193-198 | raises exactly when no start is set; otherwise the queue is exactly the start, the start is its own parent and the other parents are unchanged |
| GridModel.ResetPath | search_game/grid.py:201-204 | every cell becomes unvisited and the path and reveal counter are cleared; paint, references and queue stay |
| GridModel.CellsCount | search_game/grid.py:107-110 | the grid has exactly width * height cells |
| GridModel.PaintedGrid | search_game/grid.py:107-110 | corrected startup board: like a new grid, but every cell is an open path cell |
| GridModel.PaintedGridStarts | search_game/grid.py:107-110 | the corrected startup board is fully painted, consistent and not ready |
| Bfs.Neighbors | search_game/bfs_isaac.py:82-86 | four distinct neighbours, exactly the 4-adjacent cells, in the order left, right, up, down |
| Bfs.Chase | search_game/bfs_isaac.py:25-31 | a found chain starts at the traced cell, ends at the start, and each later cell is the recorded parent of the one before |
| Bfs.TracePath | search_game/bfs_isaac.py:7-31 | the path is in end-to-start order: first the end cell, last the start point, each later cell the parent of the previous one |
| Bfs.VisitGridCell | search_game/bfs_isaac.py:34-58 | raises exactly on an already visited cell; otherwise sets that cell's parent and nothing else |
| Bfs.Expand | search_game/bfs_isaac.py:88-98 | the neighbour loop never raises the already-visited error, changes only parents and queue, and never removes a parent; its partner `Bfs.ExpandRaises` states exactly when it raises the unknown-colour error |
| Bfs.Step | search_game/bfs_isaac.py:61-98 | on an empty queue returns no path and changes nothing; otherwise changes only parents and queue, never unvisits a cell and never raises the already-visited error; its partner `Bfs.StepRaises` states exactly when it raises the unknown-colour error |
| Bfs.FreshOf | search_game/bfs_isaac.py:88-90 | the cells a step visits are exactly the unvisited passable neighbours, without repeats |
| Bfs.ExpandSkip | search_game/bfs_isaac.py:88-92 | a neighbour that is not an unvisited path or end cell is skipped |
| Bfs.ExpandQueue | search_game/bfs_isaac.py:92-96 | an unvisited passable neighbour other than the end is visited and appended to the queue |
| Bfs.ExpandStop | search_game/bfs_isaac.py:92-95 | an unvisited end neighbour is visited and the step returns its traced path at once |
| Bfs.ExpandMiss | search_game/bfs_isaac.py:88-98 | a step that finds no path appends exactly the fresh neighbours to the queue, in order, links each to the dequeued cell, and none of them is the end |
| Bfs.HitShapeStop | search_game/bfs_isaac.py:92-95 | when the first neighbour is the end, nothing is queued and only the end is linked |
| Bfs.ExpandHit | search_game/bfs_isaac.py:92-95 | a step that meets the end links and queues the fresh neighbours before it, links but does not queue the end, leaves later neighbours unvisited, and returns the path traced from the end |
| Bfs.ExpandRaises | search_game/bfs_isaac.py:88-92 | on distinct neighbours, the loop raises the unknown-colour error exactly when it reaches (no fresh end point earlier) an in-bounds, unvisited, never painted neighbour, whichever position it holds |
| Bfs.StepRaises | search_game/bfs_isaac.py:61-92 | a step raises the unknown-colour error exactly when the queue is not empty and the loop over the dequeued cell's neighbours reaches an unvisited, never painted one |
| SearchInvariants.SearchCellsInBounds | search_game/bfs_isaac.py:88-96 | every visited and every queued cell is inside the grid |
| SearchInvariants.InitQueueStartsSearch | search_game/grid.py:193-204 | reset then queue initialisation on a ready grid starts a search: only the start visited, at depth 0, and queued |
| SearchInvariants.TreeExtend | search_game/bfs_isaac.py:57 | linking a fresh adjacent cell below a visited one keeps the parent tree |
| SearchInvariants.ExpandTree | search_game/bfs_isaac.py:92-96 | the neighbour loop keeps the parent tree; new cells sit one level below the dequeued cell |
| SearchInvariants.QueueAfterMiss | search_game/bfs_isaac.py:81-96 | dequeue plus append of the new cells keeps the queue distinct and in nondecreasing depth spanning one level |
| SearchInvariants.ExpandedAfterMiss | search_game/bfs_isaac.py:81 | a cell that has left the queue after a step is the dequeued cell or had left it before |
| SearchInvariants.NeighborsAfterMiss | search_game/bfs_isaac.py:81-96 | expanded cells keep all passable neighbours visited, at most one level deeper |
| SearchInvariants.LayersAfterMiss | search_game/bfs_isaac.py:81-96 | expanded cells are no deeper than any queued cell |
| SearchInvariants.StepMiss | search_game/bfs_isaac.py:81-98 | a step without a path dequeues the front, visits and queues its fresh neighbours one level deeper, and keeps the tree and the end unvisited |
| SearchInvariants.StepMissCovers | search_game/bfs_isaac.py:88-96 | a step without a path visits every passable neighbour of the dequeued cell |
| SearchInvariants.StepPreservesSearchInv | search_game/bfs_isaac.py:61-98 | every step that finds no path keeps the whole search state |
| SearchResults.Reversed | search_game/bfs_isaac.py:22-31 | the reversal of the end-to-start path has the same cells in the opposite order |
| SearchResults.ChainCells | search_game/bfs_isaac.py:25-31 | the chain from a visited cell to the root has depth + 1 distinct visited cells |
| SearchResults.ChaseOnTree | search_game/bfs_isaac.py:25-31 | on a parent tree the trace loop reaches the start after exactly the cell's depth in lookups |
| SearchResults.TraceOnTree | search_game/bfs_isaac.py:25-31 | on a parent tree tracing never diverges and yields depth + 1 cells |
| SearchResults.ChainIsRoute | search_game/bfs_isaac.py:25-31 | a parent chain read backwards is a route from the start point |
| SearchResults.TraceIsRoute | search_game/bfs_isaac.py:25-31 | the traced path read backwards is a route from the start to the traced cell |
| SearchResults.WalkBound | search_game/bfs_isaac.py:88-96 | along a route whose first k cells were expanded, the k-th cell is visited at depth at most k |
| SearchResults.RouteLowerBound | search_game/bfs_isaac.py:81-96 | while the end is unvisited, every route to it has at least depth(front) + 2 cells |
| SearchResults.ExhaustedHasNoRoute | search_game/bfs_isaac.py:78-79 | an exhausted queue with the end unvisited means no route from start to end exists |
| SearchResults.ExpandHitTree | search_game/bfs_isaac.py:92-95 | a neighbour loop that meets the end links it one level below the dequeued cell and returns its traced path |
| SearchResults.StepHit | search_game/bfs_isaac.py:61-98 | a step that returns a path keeps the tree, has visited the end, and returns the trace from the end with depth(front) + 2 cells |
| SearchResults.StepFindsShortest | search_game/bfs_isaac.py:61-98 | the returned path read start to end is a route and no route from start to end is shorter |
| SearchProgress.StepDecreasesMeasure | search_game/bfs_isaac.py:81-96 | a step without a path lowers queued + unvisited cells by exactly one |
| SearchProgress.InitMeasure | search_game/grid.py:193-198 | entering play starts with width * height units of work |
| SearchProgress.ExpandSkipClassified | search_game/bfs_isaac.py:88-90 | a neighbour that classifies without raising and is not fresh is skipped |
| SearchProgress.ExpandSucceeds | search_game/bfs_isaac.py:88-96 | on a fully painted board the neighbour loop never raises |
| SearchProgress.StepSucceeds | search_game/bfs_isaac.py:78-98 | on a fully painted board a step in a running search never raises |
| SearchProgress.StepFailsOnUnpainted | search_game/bfs_isaac.py:81-90 | a step whose left neighbour is unvisited, in bounds and unpainted raises the unknown-colour error |
| GlobalState.Init | search_game/global_state.py:36-52 | the program starts in drawing mode on the default board, with no cell painted, no parent, an empty queue, no path, a zero reveal counter and not ready |
| GlobalState.InitPainted | search_game/global_state.py:42 | corrected startup: drawing mode on a 40 by 40 board of path cells, fully painted, with no parent, an empty queue, no path, a zero reveal counter and not ready |
| GlobalState.SetGamemode | search_game/global_state.py:99-108 | always resets the search first; a refused play request keeps mode, loop and queue; accepted play queues only the start; drawing keeps the old queue |
| GlobalState.SetGamemodeIdempotent | search_game/global_state.py:99-108 | repeating a mode request changes nothing more |
| GlobalState.SetGamemodeStartsSearch | search_game/global_state.py:99-108 | switching keeps the paint bookkeeping, and accepted play starts a valid search |
| Pathfinder.PathfindUpdate | search_game/pathfinder.py:14-21 | a found path is sticky; without a tick nothing happens; otherwise one step runs and its result becomes the found path; it raises exactly when the step raises |
| Pathfinder.PathfindToggle | search_game/pathfinder.py:26-33 | without the key nothing changes; with it the found path is cleared, the reveal counter is 0, and paint, size and end points are kept; play switches to drawing with the draw loop, no parents and the queue kept; drawing requests play with the pathfind loop, which on a ready board queues only the start and makes it its own and only parent, and otherwise is refused, keeping mode, loop and queue with no parents |
| Pathfinder.ToggleTwiceRestarts | search_game/pathfinder.py:26-33 | pressing space twice while playing on a ready board restarts the search |
| PlaySession.Drive | search_game/pathfinder.py:41 | frames of the pathfinding loop keep the mode and loop |
| PlaySession.DriveIdle | search_game/pathfinder.py:15 | once the update leaves a session unchanged, later frames do too |
| PlaySession.ExhaustedSettles | search_game/bfs_isaac.py:78-79 | on an exhausted queue frames change nothing and no route exists |
| PlaySession.FoundSettles | search_game/pathfinder.py:14-18 | the frame that finds a path stores a shortest route |
| PlaySession.MissContinues | search_game/pathfinder.py:14-21 | a frame without a path keeps the search state and uses one unit of work |
| PlaySession.Advance | search_game/pathfinder.py:14-21 | one frame either settles the session for good or keeps the search with one unit of work less |
| PlaySession.DriveSettles | search_game/pathfinder.py:14-21 | with the ticker firing every frame, a running search settles within its remaining work without raising |
| PlaySession.PlaySettles | search_game/pathfinder.py:14-41 | entering play on a fully painted ready board settles within width * height frames, with a shortest route or proof of none |
| PlaySession.PaintStrokes | search_game/grid.py:155-176 | a run of paint calls changes neither size, parents, queue nor path |
| PlaySession.StrokesKeepBoard | search_game/grid.py:155-176 | painting palette colours keeps the bookkeeping and leaves no cell unpainted |
| PlaySession.UnpaintedBoardRaises | search_game/grid.py:107-110 | as written: start at (1, 0), end at (3, 0), space, one tick raises on the unpainted cell (0, 0) |
| PlaySession.PaintedBoardSettles | search_game/grid.py:107-110 | corrected: on a board that starts all path, any palette painting followed by space settles the search without raising |

## Left out

- Rendering is left out because it is pygame drawing with float timers. This covers the `render_*` methods, arrows, cell rectangles, glow fading and the colour palette widgets. The glow writes in `visit_grid_cell` and `init_queue` are float animation state and are dropped.
- `screen_to_grid`, `grid_to_screen` and `paint_blob` are left out because they use float vectors and a Euclidean brush. Painting is modelled as any sequence of `place_square` calls (`PaintStrokes`).
- The `Ticker` is float time accumulation and is left out.
  - Whether it fired is an input of `PathfindUpdate`.
  - Because of the short-circuit, the ticker is not consulted once a path is stored. This is reflected only in the tick being ignored.
- Event polling, the display, the main loop, render layers and base classes are left out. Which loop runs is the `Loop` value of a session.
- The `bfs_jana` exercise stub is left out. It does not implement a search.
- `print` calls are left out. So are the imports that resolve to nothing, except the one below.
- `pathfinder.py` imports a name `bfs` that `bfs_isaac.py` does not define. The model takes it to be the step function `bfs_isaac`.
- A raised error ends the program, so the grid state after a raise is not modelled. Two effects are lost:
  - `init_queue` clears the queue before raising;
  - a step may have dequeued and visited cells before raising.
- Bfs.TracePath: it is weaker than the source on a broken parent chain.
  - The source then loops forever. Or it appends the `(-1, -1)` sentinel, and its next lookup `parents[(-1, -1)]` reads, through numpy's negative indexing, the parent entry of the corner cell (width - 1, height - 1).
  - The model bounds the walk by the number of parents and returns None, reported as the `TraceDiverges` error.
  - Under the search invariant this case never happens (`SearchResults.TraceOnTree`).
- The program's `main.py` starts with a loop that has no `pathfind_toggle` (`search_game/main.py:26-31`). Its `pathfinder.py` also imports names that `bfs_isaac.py` and `constants.py` do not define (lines 4 and 6). The model assumes the draw loop, which includes the toggle, is installed at startup (`Init(DrawLoop)`, as in `PlaySession.UnpaintedBoardRaises`), so that pressing space can enter play.
- GlobalState.Init: only the default drawing mode is modelled, since the program never passes another mode.
- The code keeps the path in end-to-start order: `trace_path` never reverses it. The model keeps that order and reverses it only when stating routes.
- The code does not tell an exhausted queue from a step that simply found nothing: both return None. The model does the same, and emptiness is the derived condition `|bfsQueue| == 0`.

## Findings

| source | as written | input that shows it | evidently intended | confidence | as-written member | corrected member |
|---|---|---|---|---|---|---|
| search_game/grid.py:107-110 | cells start as the all-zero RGBA colour, which `CellState.from_color` rejects with a `ValueError`, so a search step that reaches any never-painted cell crashes the program | default board; start painted at (1, 0) and end at (3, 0); space; one tick: the left neighbour (0, 0) is unpainted and `get_cell` raises | the board starts with every cell an open path cell, so a search over any painted board cannot raise | medium; not executed | PlaySession.UnpaintedBoardRaises | PlaySession.PaintedBoardSettles |
