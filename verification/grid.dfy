/** The grid of `search_game/grid.py`: per-cell paint, the start and end
    references, the parent matrix, the BFS queue and the found path, with
    bounds checking, painting and cell classification. */
module GridModel {
  import opened Outcomes

  /** Window width in pixels and the side of one grid cell in pixels. */
  const ScreenWidth: nat := 800
  const GridScale: nat := 20

  /** An integer grid coordinate `(x, y)`. */
  datatype Pos = Pos(x: int, y: int)

  /** The paint stored in a cell: the four palette colours, or the all-zero
      RGBA value every cell holds before it is first painted. */
  datatype Color = WallColor | PathColor | StartColor | EndColor | Unpainted

  /** The classification `get_cell` reports. `Visited` is derived from the
      parent matrix and is never stored as paint. */
  datatype CellState = Wall | Path | Visited | Start | End

  /** The palette colour a paintable classification is drawn with. */
  function PaletteColor(s: CellState): (c: Color)
    requires s != Visited
    ensures c != Unpainted
  {
    match s
    case Wall => WallColor
    case Path => PathColor
    case Start => StartColor
    case End => EndColor
  }

  /** `CellState.from_color`: the classification of a palette colour; any other
      colour raises. */
  function FromColor(c: Color): (r: Result<CellState>)
    ensures r.Failure? <==> c == Unpainted
    ensures r.Failure? ==> r.error == UnknownColor
    ensures r.Success? ==> r.value != Visited && PaletteColor(r.value) == c
  {
    match c
    case StartColor => Success(Start)
    case EndColor => Success(End)
    case PathColor => Success(Path)
    case WallColor => Success(Wall)
    case Unpainted => Failure(UnknownColor)
  }

  /** Classifying the colour of a paintable state gives that state back. */
  lemma FromPaletteColor(s: CellState)
    requires s != Visited
    ensures FromColor(PaletteColor(s)) == Success(s)
  {
  }

  /** The state of a `Grid` object. A cell missing from `colors` still holds
      the all-zero colour; a cell missing from `parents` is unvisited (its
      entry is `-1` in the program). */
  datatype Grid = Grid(
    width: nat,
    height: nat,
    colors: map<Pos, Color>,
    parents: map<Pos, Pos>,
    startPoint: Option<Pos>,
    endPoint: Option<Pos>,
    bfsQueue: seq<Pos>,
    foundPath: Option<seq<Pos>>,
    pathRenderIter: nat)

  /** The paint of a cell. */
  function ColorAt(g: Grid, p: Pos): Color {
    if p in g.colors then g.colors[p] else Unpainted
  }

  /** `Grid.in_bounds`. */
  predicate InBounds(g: Grid, p: Pos) {
    0 <= p.x < g.width && 0 <= p.y < g.height
  }

  /** The positions of all cells of the grid. */
  function Cells(g: Grid): (r: set<Pos>)
    ensures forall p :: p in r <==> InBounds(g, p)
  {
    RectMembers(g.width, g.height);
    Rect(g.width, g.height)
  }

  /** A cell a search may step onto: inside the grid and painted as path or end. */
  predicate Passable(g: Grid, p: Pos) {
    InBounds(g, p) && (ColorAt(g, p) == PathColor || ColorAt(g, p) == EndColor)
  }

  /** A passable cell that has no parent yet. */
  predicate Fresh(g: Grid, p: Pos) {
    Passable(g, p) && p !in g.parents
  }

  /** `Grid.__init__` for a `width` x `height` grid: no cell painted, no parent
      recorded, no start or end, an empty queue and no path. */
  function NewGrid(width: nat, height: nat): (g: Grid)
    ensures g.width == width && g.height == height
    ensures forall p :: ColorAt(g, p) == Unpainted && p !in g.parents
    ensures g.startPoint.None? && g.endPoint.None?
    ensures g.bfsQueue == [] && g.foundPath.None? && g.pathRenderIter == 0
  {
    Grid(width, height, map[], map[], None, None, [], None, 0)
  }

  /** `Grid.default`: the grid fills a square of the window width. */
  function DefaultGrid(): (g: Grid)
    ensures g.width == 40 && g.height == 40
    ensures forall p :: ColorAt(g, p) == Unpainted && p !in g.parents
    ensures g.startPoint.None? && g.endPoint.None?
    ensures g.bfsQueue == [] && g.foundPath.None? && g.pathRenderIter == 0
  {
    NewGrid(ScreenWidth / GridScale, ScreenWidth / GridScale)
  }

  /** The corrected startup board: every cell an open path cell, so no cell
      is ever unpainted; otherwise like `NewGrid`. */
  function PaintedGrid(width: nat, height: nat): (g: Grid)
    ensures g == NewGrid(width, height).(colors := g.colors)
    ensures forall p :: InBounds(g, p) ==> ColorAt(g, p) == PathColor
  {
    RectMembers(width, height);
    NewGrid(width, height).(colors := map p | p in Rect(width, height) :: PathColor)
  }

  /** The single-start/single-end bookkeeping: a cell is painted with the start
      colour exactly when it is the recorded start point, and likewise for the
      end, and both references lie inside the grid. */
  ghost predicate PaintInv(g: Grid) {
    && (g.startPoint.Some? ==> InBounds(g, g.startPoint.value))
    && (g.endPoint.Some? ==> InBounds(g, g.endPoint.value))
    && (forall p :: InBounds(g, p) ==> (ColorAt(g, p) == StartColor <==> g.startPoint == Some(p)))
    && (forall p :: InBounds(g, p) ==> (ColorAt(g, p) == EndColor <==> g.endPoint == Some(p)))
  }

  /** The bookkeeping depends only on the paint, the size and the recorded
      start and end points. */
  lemma PaintInvFrame(g: Grid, h: Grid)
    requires PaintInv(g)
    requires h.width == g.width && h.height == g.height && h.colors == g.colors
    requires h.startPoint == g.startPoint && h.endPoint == g.endPoint
    ensures PaintInv(h)
  {
    forall p | InBounds(h, p)
      ensures ColorAt(h, p) == ColorAt(g, p) && InBounds(g, p)
    {
    }
  }

  /** A freshly created grid keeps the bookkeeping and is not ready. */
  lemma NewGridPaintInv(width: nat, height: nat)
    ensures PaintInv(NewGrid(width, height))
    ensures !IsReady(NewGrid(width, height))
  {
  }

  /** Every cell of the board carries one of the palette colours. */
  ghost predicate FullyPainted(g: Grid) {
    forall p :: InBounds(g, p) ==> ColorAt(g, p) != Unpainted
  }

  /** Painting depends only on the size and the colours. */
  lemma FullyPaintedFrame(g: Grid, h: Grid)
    requires FullyPainted(g)
    requires h.width == g.width && h.height == g.height && h.colors == g.colors
    ensures FullyPainted(h)
  {
    forall p | InBounds(h, p) ensures ColorAt(h, p) == ColorAt(g, p) && InBounds(g, p) {
    }
  }

  /** `Grid.place_square`: paint one cell. Outside the grid nothing happens.
      Painting the start colour repaints the previous start cell as path and
      records the new start; the end colour likewise. Painting any other colour
      over the recorded start (end) clears that reference. */
  function PlaceSquare(g: Grid, p: Pos, c: Color): (r: Grid)
    ensures !InBounds(g, p) ==> r == g
    ensures InBounds(g, p) ==> ColorAt(r, p) == c
    ensures r == g.(colors := r.colors, startPoint := r.startPoint, endPoint := r.endPoint)
    ensures InBounds(g, p) && c == StartColor ==> r.startPoint == Some(p)
    ensures InBounds(g, p) && c == EndColor ==> r.endPoint == Some(p)
    ensures InBounds(g, p) && c != StartColor && g.startPoint == Some(p) ==> r.startPoint.None?
    ensures InBounds(g, p) && c != EndColor && g.endPoint == Some(p) ==> r.endPoint.None?
    ensures c != StartColor && g.startPoint != Some(p) ==> r.startPoint == g.startPoint
    ensures c != EndColor && g.endPoint != Some(p) ==> r.endPoint == g.endPoint
    ensures InBounds(g, p) && c == StartColor && g.startPoint.Some? && g.startPoint != Some(p) ==>
              ColorAt(r, g.startPoint.value) == PathColor
    ensures InBounds(g, p) && c == EndColor && g.endPoint.Some? && g.endPoint != Some(p) ==>
              ColorAt(r, g.endPoint.value) == PathColor
    ensures forall q :: (q != p && !(c == StartColor && g.startPoint == Some(q))
              && !(c == EndColor && g.endPoint == Some(q))) ==> ColorAt(r, q) == ColorAt(g, q)
  {
    if !InBounds(g, p) then g
    else
      var colors1 := if c == StartColor && g.startPoint.Some? then g.colors[g.startPoint.value := PathColor] else g.colors;
      var colors2 := if c == EndColor && g.endPoint.Some? then colors1[g.endPoint.value := PathColor] else colors1;
      var start1 := if c != StartColor && g.startPoint == Some(p) then None else g.startPoint;
      var end1 := if c != EndColor && g.endPoint == Some(p) then None else g.endPoint;
      var start2 := if c == StartColor then Some(p) else start1;
      var end2 := if c == EndColor then Some(p) else end1;
      g.(colors := colors2[p := c], startPoint := start2, endPoint := end2)
  }

  /** Every paint operation keeps the single-start/single-end bookkeeping. */
  lemma PlaceSquarePreservesPaintInv(g: Grid, p: Pos, c: Color)
    requires PaintInv(g)
    ensures PaintInv(PlaceSquare(g, p, c))
  {
    var r := PlaceSquare(g, p, c);
    forall q | InBounds(r, q)
      ensures ColorAt(r, q) == StartColor <==> r.startPoint == Some(q)
      ensures ColorAt(r, q) == EndColor <==> r.endPoint == Some(q)
    {
    }
  }

  /** Painting a palette colour never leaves a cell unpainted. */
  lemma PlaceSquareKeepsPainted(g: Grid, p: Pos, c: Color)
    requires FullyPainted(g) && c != Unpainted
    ensures FullyPainted(PlaceSquare(g, p, c))
  {
    var r := PlaceSquare(g, p, c);
    forall q | InBounds(r, q) ensures ColorAt(r, q) != Unpainted {
      assert InBounds(g, q);
    }
  }

  /** A fresh board of path cells is fully painted, keeps the bookkeeping and
      is not ready. */
  lemma PaintedGridStarts(width: nat, height: nat)
    ensures FullyPainted(PaintedGrid(width, height))
    ensures PaintInv(PaintedGrid(width, height)) && !IsReady(PaintedGrid(width, height))
  {
  }

  /** `Grid.get_cell`: outside the grid every position is a wall; a cell with a
      parent is visited whatever its paint; otherwise its paint is classified,
      which raises for a cell never painted. */
  function GetCell(g: Grid, p: Pos): (r: Result<CellState>)
    ensures !InBounds(g, p) ==> r == Success(Wall)
    ensures InBounds(g, p) && p in g.parents ==> r == Success(Visited)
    ensures r.Failure? <==> InBounds(g, p) && p !in g.parents && ColorAt(g, p) == Unpainted
    ensures r.Failure? ==> r.error == UnknownColor
    ensures (r == Success(Path) || r == Success(End)) <==> Fresh(g, p)
    ensures r == Success(Start) <==> InBounds(g, p) && p !in g.parents && ColorAt(g, p) == StartColor
    ensures InBounds(g, p) && p !in g.parents ==> r == FromColor(ColorAt(g, p))
  {
    if !InBounds(g, p) then Success(Wall)
    else if p in g.parents then Success(Visited)
    else FromColor(ColorAt(g, p))
  }

  /** `Grid.is_ready`: both a start and an end point are recorded. */
  predicate IsReady(g: Grid) {
    g.startPoint.Some? && g.endPoint.Some?
  }

  /** With consistent bookkeeping, a grid is ready exactly when some cell
      carries the start colour and some cell carries the end colour. */
  lemma ReadyIffEndsPainted(g: Grid)
    requires PaintInv(g)
    ensures IsReady(g) <==>
      (exists p :: InBounds(g, p) && ColorAt(g, p) == StartColor) &&
      (exists p :: InBounds(g, p) && ColorAt(g, p) == EndColor)
  {
    if IsReady(g) {
      assert InBounds(g, g.startPoint.value) && ColorAt(g, g.startPoint.value) == StartColor;
      assert InBounds(g, g.endPoint.value) && ColorAt(g, g.endPoint.value) == EndColor;
    }
  }

  /** On a ready grid the start and end are two distinct cells carrying the
      start and end colours, so a search never begins at its goal. */
  lemma ReadyEndsDistinct(g: Grid)
    requires PaintInv(g) && IsReady(g)
    ensures InBounds(g, g.startPoint.value) && ColorAt(g, g.startPoint.value) == StartColor
    ensures InBounds(g, g.endPoint.value) && ColorAt(g, g.endPoint.value) == EndColor
    ensures g.startPoint.value != g.endPoint.value
  {
    assert ColorAt(g, g.startPoint.value) == StartColor;
  }

  /** `Grid.init_queue`: the queue becomes exactly the start point and the start
      becomes its own parent; without a start point it raises. */
  function InitQueue(g: Grid): (r: Result<Grid>)
    ensures r.Failure? <==> g.startPoint.None?
    ensures r.Failure? ==> r.error == StartNotSet
    ensures r.Success? ==>
      && r.value.bfsQueue == [g.startPoint.value]
      && r.value.parents.Keys == g.parents.Keys + {g.startPoint.value}
      && r.value.parents[g.startPoint.value] == g.startPoint.value
      && (forall q :: q in g.parents && q != g.startPoint.value ==> r.value.parents[q] == g.parents[q])
      && r.value == g.(bfsQueue := r.value.bfsQueue, parents := r.value.parents)
  {
    var cleared := g.(bfsQueue := []);
    match g.startPoint
    case None => Failure(StartNotSet)
    case Some(s) => Success(cleared.(bfsQueue := cleared.bfsQueue + [s], parents := cleared.parents[s := s]))
  }

  /** `Grid.reset_path`: every cell becomes unvisited, the found path is dropped
      and the reveal counter restarts; paint, references and queue stay. */
  function ResetPath(g: Grid): (r: Grid)
    ensures forall p :: p !in r.parents && GetCell(r, p) != Success(Visited)
    ensures r.foundPath.None? && r.pathRenderIter == 0
    ensures r == g.(parents := r.parents, foundPath := r.foundPath, pathRenderIter := r.pathRenderIter)
  {
    g.(foundPath := None, pathRenderIter := 0, parents := map[])
  }

  /** The cells of a `width` x `height` rectangle anchored at the origin, row
      by row. */
  function Rect(width: nat, height: nat): set<Pos> {
    if height == 0 then {} else Rect(width, height - 1) + Row(height - 1, width)
  }

  /** The first `width` cells of row `y`. */
  function Row(y: int, width: nat): set<Pos> {
    if width == 0 then {} else Row(y, width - 1) + {Pos(width - 1, y)}
  }

  lemma {:induction false} RowMembers(y: int, width: nat)
    ensures forall p :: p in Row(y, width) <==> 0 <= p.x < width && p.y == y
  {
    if width > 0 {
      RowMembers(y, width - 1);
    }
  }

  lemma {:induction false} RectMembers(width: nat, height: nat)
    ensures forall p :: p in Rect(width, height) <==> 0 <= p.x < width && 0 <= p.y < height
  {
    if height > 0 {
      RectMembers(width, height - 1);
      RowMembers(height - 1, width);
    }
  }

  lemma {:induction false} RowCount(y: int, width: nat)
    ensures |Row(y, width)| == width
  {
    if width > 0 {
      RowCount(y, width - 1);
      RowMembers(y, width - 1);
    }
  }

  lemma {:induction false} RectCount(width: nat, height: nat)
    ensures |Rect(width, height)| == width * height
  {
    if height > 0 {
      var upper, row := Rect(width, height - 1), Row(height - 1, width);
      RectCount(width, height - 1);
      RowCount(height - 1, width);
      RowsDisjoint(width, height - 1);
      assert |upper + row| == |upper| + |row|;
      assert width * (height - 1) + width == width * height;
    }
  }

  /** Row `height` lies below the rectangle of the rows above it. */
  lemma RowsDisjoint(width: nat, height: nat)
    ensures Rect(width, height) !! Row(height, width)
  {
    RectMembers(width, height);
    RowMembers(height, width);
  }

  /** The grid has exactly `width * height` cells. */
  lemma CellsCount(g: Grid)
    ensures |Cells(g)| == g.width * g.height
  {
    RectCount(g.width, g.height);
  }
}
