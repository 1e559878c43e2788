/** The grid editor of components/pathfinding-visualizer.tsx: the line
    interpolation used while dragging, the wall, start and end rules of a
    click, drag painting, clearing the search marks, and the copy of the grid
    a search receives. The grid held by the editor is a value: every handler
    builds a new grid from the previous one. */
module Editor {
  import opened Types
  import opened Grid
  import opened Paths
  import opened SearchCommon
  import FirstDiscovery
  import DijkstraSearch = Dijkstra
  import AStarSearch = AStar

  /** GRID_ROWS and GRID_COLS. */
  const Rows: nat := 30
  const Cols: nat := 40

  // ---------------------------------------------------------------------
  // Line interpolation (getCellsBetween)
  // ---------------------------------------------------------------------

  /** `q` lies in the axis-aligned box spanned by `a` and `b`. */
  predicate InBox(q: Pos, a: Pos, b: Pos)
  {
    && (a.row <= q.row <= b.row || b.row <= q.row <= a.row)
    && (a.col <= q.col <= b.col || b.col <= q.col <= a.col)
  }

  /** One step of a drawn line: at most one unit on each axis, and strictly
      closer to `target`. */
  predicate StepToward(p: Pos, q: Pos, target: Pos)
  {
    Abs(q.row - p.row) <= 1 && Abs(q.col - p.col) <= 1 &&
    ManhattanDistance(q, target) < ManhattanDistance(p, target)
  }

  lemma Distribute(a: int, b: int, c: int)
    ensures a * (b + c) == a * b + a * c
  {
  }

  lemma ProductNonNegative(a: int, b: int)
    requires 0 <= a && 0 <= b
    ensures 0 <= a * b
  {
  }

  /** The error term of the line algorithm after `i` column steps and `j`
      row steps on a line spanning `dx` columns and `dy` rows: it starts at
      `dx - dy`, a column step takes `dy` off it and a row step adds `dx`. */
  function ErrorTerm(dx: int, dy: int, i: nat, j: nat): int
  {
    if i > 0 then ErrorTerm(dx, dy, i - 1, j) - dy
    else if j > 0 then ErrorTerm(dx, dy, 0, j - 1) + dx
    else dx - dy
  }

  /** The error term in closed form. */
  lemma {:induction false} ErrorTermClosed(dx: int, dy: int, i: nat, j: nat)
    ensures ErrorTerm(dx, dy, i, j) == dx - dy - dy * i + dx * j
  {
    if i > 0 {
      ErrorTermClosed(dx, dy, i - 1, j);
      Distribute(dy, i - 1, 1);
    } else if j > 0 {
      ErrorTermClosed(dx, dy, 0, j - 1);
      Distribute(dx, j - 1, 1);
    }
  }

  /** A row step adds `dx` to the error term, whatever the column steps. */
  lemma {:induction false} ErrorTermRowStep(dx: int, dy: int, i: nat, j: nat)
    ensures ErrorTerm(dx, dy, i, j + 1) == ErrorTerm(dx, dy, i, j) + dx
  {
    if i > 0 {
      ErrorTermRowStep(dx, dy, i - 1, j);
    }
  }

  /** Every column step taken and a row step still due: the error term is
      at most `-dy`, too small for another column step. */
  lemma ColumnsDone(dx: int, dy: int, j: nat)
    requires 0 <= dx && j < dy
    ensures 2 * ErrorTerm(dx, dy, dx, j) <= -dy
  {
    ErrorTermClosed(dx, dy, dx, j);
    var k := dy - j - 1;
    Distribute(dx, j + 1, k);
    Distribute(dx, j, 1);
    ProductNonNegative(dx, k);
  }

  /** Every row step taken and a column step still due: the error term is at
      least `dx`, too large for another row step. */
  lemma RowsDone(dx: int, dy: int, i: nat)
    requires i < dx && 0 <= dy
    ensures 2 * ErrorTerm(dx, dy, i, dy) >= 2 * dx
  {
    ErrorTermClosed(dx, dy, i, dy);
    var k := dx - i - 1;
    Distribute(dy, i + 1, k);
    Distribute(dy, i, 1);
    ProductNonNegative(dy, k);
  }

  /** The two tests of the line algorithm never step past the target on
      either axis, and while the target is not reached at least one of them
      passes. */
  lemma ErrorStep(dx: int, dy: int, i: nat, j: nat)
    requires i <= dx && j <= dy && (i < dx || j < dy)
    ensures var e2 := 2 * ErrorTerm(dx, dy, i, j);
            && (e2 > -dy ==> i < dx)
            && (e2 < dx ==> j < dy)
            && (e2 > -dy || e2 < dx)
  {
    if i == dx {
      ColumnsDone(dx, dy, j);
    }
    if j == dy {
      RowsDone(dx, dy, i);
    }
  }

  /** The cell reached from `from` after `i` column steps and `j` row steps
      toward `to`. */
  function Along(from: Pos, to: Pos, i: int, j: int): Pos
  {
    Pos(if from.row < to.row then from.row + j else from.row - j,
        if from.col < to.col then from.col + i else from.col - i)
  }

  /** Cells along the line lie in the box of its end points, at Manhattan
      distance from the target equal to the steps still due. */
  lemma AlongFacts(from: Pos, to: Pos, i: int, j: int)
    requires 0 <= i <= Abs(to.col - from.col) && 0 <= j <= Abs(to.row - from.row)
    ensures InBox(Along(from, to, i, j), from, to)
    ensures ManhattanDistance(Along(from, to, i, j), to) == Abs(to.col - from.col) - i + Abs(to.row - from.row) - j
  {
  }

  /** A move of at most one step on each axis, taking at least one, is a
      step toward the target. */
  lemma AlongStep(from: Pos, to: Pos, i: int, j: int, i': int, j': int)
    requires 0 <= i <= i' <= i + 1 && 0 <= j <= j' <= j + 1 && i + j < i' + j'
    requires i' <= Abs(to.col - from.col) && j' <= Abs(to.row - from.row)
    ensures StepToward(Along(from, to, i, j), Along(from, to, i', j'), to)
  {
    AlongFacts(from, to, i, j);
    AlongFacts(from, to, i', j');
  }

  /** One step of the line algorithm (components/pathfinding-visualizer.tsx:62-70)
      from a cell other than the target: a column step when twice the error
      term exceeds `-dy`, a row step when it is below `dx`; at least one is
      taken, neither passes the target, and the error term and the cell are
      those for the new step counts. */
  method Advance(ghost from: Pos, ghost to: Pos, dx: int, dy: int, sx: int, sy: int, err: int,
                 currentRow: int, currentCol: int, ghost i: nat, ghost j: nat)
    returns (err': int, currentRow': int, currentCol': int, ghost i': nat, ghost j': nat)
    requires dx == Abs(to.col - from.col) && dy == Abs(to.row - from.row)
    requires sx == (if from.col < to.col then 1 else -1) && sy == (if from.row < to.row then 1 else -1)
    requires i <= dx && j <= dy && err == ErrorTerm(dx, dy, i, j)
    requires Pos(currentRow, currentCol) == Along(from, to, i, j) != to
    ensures i <= i' <= i + 1 && j <= j' <= j + 1 && i + j < i' + j' && i' <= dx && j' <= dy
    ensures err' == ErrorTerm(dx, dy, i', j')
    ensures Pos(currentRow', currentCol') == Along(from, to, i', j')
  {
    err', currentRow', currentCol', i', j' := err, currentRow, currentCol, i, j;
    ErrorStep(dx, dy, i, j);
    var e2 := 2 * err;
    if e2 > -dy {
      err' := err' - dy;
      currentCol' := currentCol' + sx;
      i' := i' + 1;
    }
    if e2 < dx {
      ErrorTermRowStep(dx, dy, i', j');
      err' := err' + dx;
      currentRow' := currentRow' + sy;
      j' := j' + 1;
    }
  }

  /** getCellsBetween (components/pathfinding-visualizer.tsx:45-76), the
      integer line algorithm of Bresenham: the cells from `(row0, col0)` to
      `(row1, col1)`, both included, each step moving at most one unit per
      axis and strictly closer to the target, all within the box the two
      end points span. */
  method GetCellsBetween(row0: int, col0: int, row1: int, col1: int) returns (cells: seq<Pos>)
    ensures cells != [] && cells[0] == Pos(row0, col0) && cells[|cells| - 1] == Pos(row1, col1)
    ensures forall k :: 0 <= k < |cells| - 1 ==> StepToward(cells[k], cells[k + 1], Pos(row1, col1))
    ensures forall k :: 0 <= k < |cells| ==> InBox(cells[k], Pos(row0, col0), Pos(row1, col1))
  {
    cells := [];
    var dx: int := Abs(col1 - col0);
    var dy: int := Abs(row1 - row0);
    var sx := if col0 < col1 then 1 else -1;
    var sy := if row0 < row1 then 1 else -1;
    var err := dx - dy;
    var currentRow, currentCol := row0, col0;
    // i column steps and j row steps taken so far
    ghost var i: nat, j: nat := 0, 0;
    ghost var from, target := Pos(row0, col0), Pos(row1, col1);
    while true
      invariant 0 <= i <= dx && 0 <= j <= dy
      invariant err == ErrorTerm(dx, dy, i, j)
      invariant currentRow == Along(from, target, i, j).row && currentCol == Along(from, target, i, j).col
      invariant cells == [] ==> i == 0 && j == 0
      invariant cells != [] ==> cells[0] == from
      invariant cells != [] ==> StepToward(cells[|cells| - 1], Pos(currentRow, currentCol), target)
      invariant forall k :: 0 <= k < |cells| - 1 ==> StepToward(cells[k], cells[k + 1], target)
      invariant forall k :: 0 <= k < |cells| ==> InBox(cells[k], from, target)
      decreases (dx - i) + (dy - j)
    {
      AlongFacts(from, target, i, j);
      cells := cells + [Pos(currentRow, currentCol)];
      if currentRow == row1 && currentCol == col1 {
        break;
      }
      ghost var i0, j0 := i, j;
      err, currentRow, currentCol, i, j := Advance(from, target, dx, dy, sx, sy, err, currentRow, currentCol, i, j);
      AlongStep(from, target, i0, j0, i, j);
    }
  }

  // ---------------------------------------------------------------------
  // The grid and its edit rules
  // ---------------------------------------------------------------------

  /** A grid of GRID_ROWS rows of GRID_COLS cells. */
  predicate Shaped(g: seq<seq<Cell>>)
  {
    |g| == Rows && forall r :: 0 <= r < Rows ==> |g[r]| == Cols
  }

  function At(g: seq<seq<Cell>>, p: Pos): Cell
    requires Shaped(g) && InGrid(Rows, Cols, p)
  {
    g[p.row][p.col]
  }

  /** The grid with the cell at `p` replaced by `c`; every other cell is kept. */
  function Put(g: seq<seq<Cell>>, p: Pos, c: Cell): (g': seq<seq<Cell>>)
    requires Shaped(g) && InGrid(Rows, Cols, p)
    ensures Shaped(g') && At(g', p) == c
    ensures forall q :: InGrid(Rows, Cols, q) && q != p ==> At(g', q) == At(g, q)
  {
    g[p.row := g[p.row][p.col := c]]
  }

  /** Wall mode (components/pathfinding-visualizer.tsx:83-88): the wall flag
      of the clicked cell flips unless the cell carries the start or the end
      flag; no other field and no other cell changes. */
  function ToggleWall(g: seq<seq<Cell>>, p: Pos): (g': seq<seq<Cell>>)
    requires Shaped(g) && InGrid(Rows, Cols, p)
    ensures Shaped(g')
    ensures forall q :: InGrid(Rows, Cols, q) ==> At(g', q) == At(g, q).(isWall := At(g', q).isWall)
    ensures forall q :: InGrid(Rows, Cols, q) ==>
              (At(g', q).isWall != At(g, q).isWall <==> q == p && !At(g, p).isStart && !At(g, p).isEnd)
  {
    var c := At(g, p);
    if !c.isStart && !c.isEnd then Put(g, p, c.(isWall := !c.isWall)) else g
  }

  /** The grid with the start flag of the cell at `startPoint`, if any,
      cleared. */
  function ClearStart(g: seq<seq<Cell>>, startPoint: Option<Pos>): (g': seq<seq<Cell>>)
    requires Shaped(g) && (startPoint.Some? ==> InGrid(Rows, Cols, startPoint.value))
    ensures Shaped(g')
    ensures forall q :: InGrid(Rows, Cols, q) ==>
              At(g', q) == At(g, q).(isStart := At(g, q).isStart && startPoint != Some(q))
  {
    if startPoint.Some? then Put(g, startPoint.value, At(g, startPoint.value).(isStart := false)) else g
  }

  /** The grid with the end flag of the cell at `endPoint`, if any, cleared. */
  function ClearEnd(g: seq<seq<Cell>>, endPoint: Option<Pos>): (g': seq<seq<Cell>>)
    requires Shaped(g) && (endPoint.Some? ==> InGrid(Rows, Cols, endPoint.value))
    ensures Shaped(g')
    ensures forall q :: InGrid(Rows, Cols, q) ==>
              At(g', q) == At(g, q).(isEnd := At(g, q).isEnd && endPoint != Some(q))
  {
    if endPoint.Some? then Put(g, endPoint.value, At(g, endPoint.value).(isEnd := false)) else g
  }

  /** Start mode (components/pathfinding-visualizer.tsx:91-101): the cell at
      the previous start point loses its start flag; the clicked cell gains
      it, and becomes the start point, only if it is neither a wall nor the
      end. A rejected click leaves the old, now unflagged, start point. No
      field other than the start flag changes. */
  function PlaceStart(g: seq<seq<Cell>>, startPoint: Option<Pos>, p: Pos): (r: (seq<seq<Cell>>, Option<Pos>))
    requires Shaped(g) && InGrid(Rows, Cols, p)
    requires startPoint.Some? ==> InGrid(Rows, Cols, startPoint.value)
    ensures Shaped(r.0)
    ensures r.1 == if !At(g, p).isWall && !At(g, p).isEnd then Some(p) else startPoint
    ensures forall q :: InGrid(Rows, Cols, q) ==> At(r.0, q) == At(g, q).(isStart := At(r.0, q).isStart)
    ensures forall q :: InGrid(Rows, Cols, q) ==>
              (At(r.0, q).isStart <==>
                 (q == p && !At(g, p).isWall && !At(g, p).isEnd) || (At(g, q).isStart && startPoint != Some(q)))
  {
    var cleared := ClearStart(g, startPoint);
    var c := At(cleared, p);
    if !c.isWall && !c.isEnd then (Put(cleared, p, c.(isStart := true)), Some(p)) else (cleared, startPoint)
  }

  /** End mode (components/pathfinding-visualizer.tsx:103-113), the mirror
      image of start mode: the end flag moves only onto a cell that is
      neither a wall nor the start. */
  function PlaceEnd(g: seq<seq<Cell>>, endPoint: Option<Pos>, p: Pos): (r: (seq<seq<Cell>>, Option<Pos>))
    requires Shaped(g) && InGrid(Rows, Cols, p)
    requires endPoint.Some? ==> InGrid(Rows, Cols, endPoint.value)
    ensures Shaped(r.0)
    ensures r.1 == if !At(g, p).isWall && !At(g, p).isStart then Some(p) else endPoint
    ensures forall q :: InGrid(Rows, Cols, q) ==> At(r.0, q) == At(g, q).(isEnd := At(r.0, q).isEnd)
    ensures forall q :: InGrid(Rows, Cols, q) ==>
              (At(r.0, q).isEnd <==>
                 (q == p && !At(g, p).isWall && !At(g, p).isStart) || (At(g, q).isEnd && endPoint != Some(q)))
  {
    var cleared := ClearEnd(g, endPoint);
    var c := At(cleared, p);
    if !c.isWall && !c.isStart then (Put(cleared, p, c.(isEnd := true)), Some(p)) else (cleared, endPoint)
  }

  /** The painting loop of drag drawing (components/pathfinding-visualizer.tsx:144-151):
      every listed cell that carries neither the start nor the end flag
      becomes a wall, every other cell is kept, and no wall is ever cleared. */
  method Paint(g: seq<seq<Cell>>, cellsToFill: seq<Pos>) returns (g': seq<seq<Cell>>)
    requires Shaped(g) && forall q :: q in cellsToFill ==> InGrid(Rows, Cols, q)
    ensures Shaped(g')
    ensures forall q :: InGrid(Rows, Cols, q) ==>
              At(g', q) == if q in cellsToFill && !At(g, q).isStart && !At(g, q).isEnd
                           then At(g, q).(isWall := true) else At(g, q)
    ensures forall q :: InGrid(Rows, Cols, q) && At(g, q).isWall ==> At(g', q).isWall
  {
    g' := g;
    for k := 0 to |cellsToFill|
      invariant Shaped(g')
      invariant forall q :: InGrid(Rows, Cols, q) ==>
                  At(g', q) == if q in cellsToFill[..k] && !At(g, q).isStart && !At(g, q).isEnd
                               then At(g, q).(isWall := true) else At(g, q)
    {
      var cell := cellsToFill[k];
      assert cellsToFill[..k + 1] == cellsToFill[..k] + [cell];
      if !At(g', cell).isStart && !At(g', cell).isEnd {
        g' := Put(g', cell, At(g', cell).(isWall := true));
      }
    }
    assert cellsToFill[..|cellsToFill|] == cellsToFill;
  }

  /** The mark-clearing map of handleReset and of the grid copy in visualize
      (components/pathfinding-visualizer.tsx:159-167, 199-206), on a grid of
      any shape: every cell loses its visited and path marks and its distance
      becomes infinite; coordinates and the wall, start and end flags are
      kept. */
  function Reset(g: seq<seq<Cell>>): (g': seq<seq<Cell>>)
    ensures |g'| == |g| && forall r :: 0 <= r < |g| ==> |g'[r]| == |g[r]|
    ensures forall r, c :: 0 <= r < |g| && 0 <= c < |g[r]| ==>
              && !g'[r][c].isVisited && !g'[r][c].isPath && g'[r][c].distance == Inf
              && g'[r][c].row == g[r][c].row && g'[r][c].col == g[r][c].col
              && g'[r][c].isWall == g[r][c].isWall
              && g'[r][c].isStart == g[r][c].isStart
              && g'[r][c].isEnd == g[r][c].isEnd
  {
    seq(|g|, r requires 0 <= r < |g| =>
      seq(|g[r]|, c requires 0 <= c < |g[r]| =>
        g[r][c].(isVisited := false, isPath := false, distance := Inf)))
  }

  /** Clearing the marks twice is clearing them once. */
  lemma ResetIdempotent(g: seq<seq<Cell>>)
    ensures Reset(Reset(g)) == Reset(g)
  {
    var once, twice := Reset(g), Reset(Reset(g));
    forall r | 0 <= r < |g| ensures twice[r] == once[r] {
      assert forall c :: 0 <= c < |g[r]| ==> twice[r][c] == once[r][c];
    }
  }

  // ---------------------------------------------------------------------
  // The editor
  // ---------------------------------------------------------------------

  /** The state the handlers read and write: the grid, the draw mode, the
      busy flag, the recorded start and end points, and the mouse-down flag
      and last drawn cell kept by the mouse handlers. */
  datatype Editor = Editor(
    grid: seq<seq<Cell>>,
    drawMode: DrawMode,
    isVisualizing: bool,
    startPoint: Option<Pos>,
    endPoint: Option<Pos>,
    mouseDown: bool,
    lastDrawn: Option<Pos>)

  /** What the handlers keep: the grid has its fixed shape and each cell
      knows its own coordinates; the recorded points are cells of the grid;
      a cell carrying the start flag is the recorded start point, and one
      carrying the end flag the recorded end point, so at most one cell
      carries each flag; no wall carries either flag and no cell carries
      both. A recorded point need not carry its flag (a rejected placement
      leaves it stale). */
  ghost predicate Inv(e: Editor)
  {
    && Shaped(e.grid)
    && (forall q :: InGrid(Rows, Cols, q) ==> At(e.grid, q).row == q.row && At(e.grid, q).col == q.col)
    && (e.startPoint.Some? ==> InGrid(Rows, Cols, e.startPoint.value))
    && (e.endPoint.Some? ==> InGrid(Rows, Cols, e.endPoint.value))
    && (e.lastDrawn.Some? ==> InGrid(Rows, Cols, e.lastDrawn.value))
    && (forall q :: InGrid(Rows, Cols, q) && At(e.grid, q).isStart ==>
          e.startPoint == Some(q) && !At(e.grid, q).isWall && !At(e.grid, q).isEnd)
    && (forall q :: InGrid(Rows, Cols, q) && At(e.grid, q).isEnd ==>
          e.endPoint == Some(q) && !At(e.grid, q).isWall)
  }

  /** Under the invariant at most one cell carries the start flag and at
      most one the end flag. */
  lemma FlagsUnique(e: Editor, p: Pos, q: Pos)
    requires Inv(e) && InGrid(Rows, Cols, p) && InGrid(Rows, Cols, q)
    ensures At(e.grid, p).isStart && At(e.grid, q).isStart ==> p == q
    ensures At(e.grid, p).isEnd && At(e.grid, q).isEnd ==> p == q
  {
  }

  /** The wall rule keeps the invariant: flagged cells are never toggled. */
  lemma ToggleWallKeepsInv(e: Editor, p: Pos)
    requires Inv(e) && InGrid(Rows, Cols, p)
    ensures Inv(e.(grid := ToggleWall(e.grid, p)))
  {
  }

  /** Start placement keeps the invariant: the only cell that can gain the
      start flag is the new start point, which is neither a wall nor the
      end. */
  lemma PlaceStartKeepsInv(e: Editor, p: Pos)
    requires Inv(e) && InGrid(Rows, Cols, p)
    ensures var r := PlaceStart(e.grid, e.startPoint, p);
            Inv(e.(grid := r.0, startPoint := r.1))
  {
  }

  /** End placement keeps the invariant, symmetrically. */
  lemma PlaceEndKeepsInv(e: Editor, p: Pos)
    requires Inv(e) && InGrid(Rows, Cols, p)
    ensures var r := PlaceEnd(e.grid, e.endPoint, p);
            Inv(e.(grid := r.0, endPoint := r.1))
  {
  }

  /** handleCellClick (components/pathfinding-visualizer.tsx:78-117): nothing
      while a search runs; otherwise the rule of the draw mode. Only the grid
      and the recorded points can change, and the invariant is kept. */
  function ClickCell(e: Editor, p: Pos): (e': Editor)
    requires Inv(e) && InGrid(Rows, Cols, p)
    ensures Inv(e')
    ensures e' == e.(grid := e'.grid, startPoint := e'.startPoint, endPoint := e'.endPoint)
    ensures e.isVisualizing || e.drawMode == NoMode ==> e' == e
  {
    if e.isVisualizing then e
    else
      match e.drawMode
      case WallMode =>
        ToggleWallKeepsInv(e, p);
        e.(grid := ToggleWall(e.grid, p))
      case StartMode =>
        PlaceStartKeepsInv(e, p);
        var r := PlaceStart(e.grid, e.startPoint, p);
        e.(grid := r.0, startPoint := r.1)
      case EndMode =>
        PlaceEndKeepsInv(e, p);
        var r := PlaceEnd(e.grid, e.endPoint, p);
        e.(grid := r.0, endPoint := r.1)
      case NoMode => e
  }

  /** The cells of the grid lie in the box of two of its cells. */
  lemma BoxInGrid(q: Pos, a: Pos, b: Pos)
    requires InGrid(Rows, Cols, a) && InGrid(Rows, Cols, b) && InBox(q, a, b)
    ensures InGrid(Rows, Cols, q)
  {
  }

  /** handleMouseEnter (components/pathfinding-visualizer.tsx:129-155): while
      the mouse is down in wall mode and no search runs, the cells of the
      line from the last drawn cell (or the entered cell alone, when there is
      none) become walls unless they carry the start or end flag, and the
      entered cell becomes the last drawn one. The cells painted are
      returned as `filled`. */
  method MouseEnter(e: Editor, p: Pos) returns (e': Editor, ghost filled: seq<Pos>)
    requires Inv(e) && InGrid(Rows, Cols, p)
    ensures Inv(e')
    ensures !e.mouseDown || e.isVisualizing || e.drawMode != WallMode ==> e' == e
    ensures e.mouseDown && !e.isVisualizing && e.drawMode == WallMode ==>
              && e' == e.(grid := e'.grid, lastDrawn := Some(p))
              && filled != [] && filled[0] == (if e.lastDrawn.Some? then e.lastDrawn.value else p)
              && filled[|filled| - 1] == p
              && (forall k :: 0 <= k < |filled| - 1 ==> StepToward(filled[k], filled[k + 1], p))
              && (forall q :: InGrid(Rows, Cols, q) ==>
                    At(e'.grid, q) == if q in filled && !At(e.grid, q).isStart && !At(e.grid, q).isEnd
                                      then At(e.grid, q).(isWall := true) else At(e.grid, q))
  {
    e', filled := e, [];
    if !e.mouseDown || e.isVisualizing || e.drawMode != WallMode {
      return;
    }
    var cellsToFill: seq<Pos>;
    if e.lastDrawn.Some? {
      var last := e.lastDrawn.value;
      cellsToFill := GetCellsBetween(last.row, last.col, p.row, p.col);
      forall q | q in cellsToFill ensures InGrid(Rows, Cols, q) {
        BoxInGrid(q, last, p);
      }
    } else {
      cellsToFill := [p];
    }
    var grid := Paint(e.grid, cellsToFill);
    e', filled := e.(grid := grid, lastDrawn := Some(p)), cellsToFill;
  }

  /** handleReset (components/pathfinding-visualizer.tsx:157-170): nothing
      while a search runs; otherwise the marks are cleared. The invariant is
      kept. */
  function ResetMarks(e: Editor): (e': Editor)
    requires Inv(e)
    ensures Inv(e')
    ensures e' == e.(grid := e'.grid)
    ensures forall q :: InGrid(Rows, Cols, q) ==>
              && At(e'.grid, q) == (if e.isVisualizing then At(e.grid, q)
                                    else At(e.grid, q).(isVisited := false, isPath := false, distance := Inf))
  {
    if e.isVisualizing then e else e.(grid := Reset(e.grid))
  }

  /** A cell as initializeGrid builds it: its own coordinates, no flag set,
      at infinite distance. */
  function FreshCell(r: int, c: int): Cell
  {
    Cell(r, c, false, false, false, false, false, Inf)
  }

  /** initializeGrid (components/pathfinding-visualizer.tsx:24-43): GRID_ROWS
      rows of GRID_COLS fresh cells, pushed row by row. */
  method InitializeGrid() returns (g: seq<seq<Cell>>)
    ensures Shaped(g)
    ensures forall q :: InGrid(Rows, Cols, q) ==> At(g, q) == FreshCell(q.row, q.col)
  {
    g := [];
    for row := 0 to Rows
      invariant |g| == row && forall r :: 0 <= r < row ==> |g[r]| == Cols
      invariant forall r, c :: 0 <= r < row && 0 <= c < Cols ==> g[r][c] == FreshCell(r, c)
    {
      var currentRow: seq<Cell> := [];
      for col := 0 to Cols
        invariant |currentRow| == col && forall c :: 0 <= c < col ==> currentRow[c] == FreshCell(row, c)
      {
        currentRow := currentRow + [FreshCell(row, col)];
      }
      g := g + [currentRow];
    }
  }

  /** The state the component starts in (components/pathfinding-visualizer.tsx:13-22):
      a fresh grid, no draw mode, no search running, no points recorded and
      the mouse up. It meets the invariant. */
  method Initial() returns (e: Editor)
    ensures Inv(e)
    ensures e == Editor(e.grid, NoMode, false, None, None, false, None)
    ensures forall q :: InGrid(Rows, Cols, q) ==> At(e.grid, q) == FreshCell(q.row, q.col)
  {
    var g := InitializeGrid();
    e := Editor(g, NoMode, false, None, None, false, None);
  }

  /** handleClear (components/pathfinding-visualizer.tsx:172-179): nothing
      while a search runs; otherwise a fresh grid, no recorded points and no
      draw mode. The invariant is kept. */
  method Clear(e: Editor) returns (e': Editor)
    requires Inv(e)
    ensures Inv(e')
    ensures e.isVisualizing ==> e' == e
    ensures !e.isVisualizing ==>
              && e' == e.(grid := e'.grid, startPoint := None, endPoint := None, drawMode := NoMode)
              && forall q :: InGrid(Rows, Cols, q) ==> At(e'.grid, q) == FreshCell(q.row, q.col)
  {
    if e.isVisualizing {
      return e;
    }
    var g := InitializeGrid();
    e' := e.(grid := g, startPoint := None, endPoint := None, drawMode := NoMode);
  }

  // ---------------------------------------------------------------------
  // Running a search
  // ---------------------------------------------------------------------

  /** The wall flags of a grid, row by row. */
  function WallsOf(g: seq<seq<Cell>>): seq<seq<bool>>
  {
    seq(|g|, r requires 0 <= r < |g| => seq(|g[r]|, c requires 0 <= c < |g[r]| => g[r][c].isWall))
  }

  /** Whether `algorithm` can reach `end` from `start` on the grid: some
      route of orthogonal steps leads there through cells that are not
      walls. Dijkstra's search also needs `start` itself not to be a wall,
      because it skips every popped wall, the start cell included. */
  ghost predicate Reachable(g: seq<seq<Cell>>, algorithm: Algorithm, start: Pos, end: Pos)
    requires Shaped(g) && InGrid(Rows, Cols, start)
  {
    Connected(WallsOf(g), start, end) && (algorithm == Algorithm.Dijkstra ==> !At(g, start).isWall)
  }

  /** The records of a search, read against the editor's grid: distinct
      cells of the grid, none flagged as the start, none the end point, each
      at a finite distance and none a wall unless it is the start point;
      when the end point is out of reach, the records name exactly the cells
      the search can reach that are not flagged as the start. */
  ghost predicate RecordsReported(e: Editor, algorithm: Algorithm, start: Pos, end: Pos, vs: seq<Visit>)
    requires Shaped(e.grid) && InGrid(Rows, Cols, start)
  {
    && VisitsDistinct(vs)
    && (forall v :: v in vs ==>
         && InGrid(Rows, Cols, VisitPos(v)) && !At(e.grid, VisitPos(v)).isStart && VisitPos(v) != end
         && v.distance.Fin? && (VisitPos(v) == start || !At(e.grid, VisitPos(v)).isWall))
    && (!Reachable(e.grid, algorithm, start, end) ==>
          forall p :: p in RecordedCells(vs) <==>
            InGrid(Rows, Cols, p) && Reachable(e.grid, algorithm, start, p) && !At(e.grid, p).isStart)
  }

  /** The path of a search, read against the editor's grid: cells of the
      grid, none a wall, none flagged as the start and none the start point;
      not empty exactly when the end point differs from the start point and
      is reachable; and then a chain of orthogonal neighbours from a
      neighbour of the start point to the end point, which for breadth-first
      search and Dijkstra's search no route from the start point beats. */
  ghost predicate PathReported(e: Editor, algorithm: Algorithm, start: Pos, end: Pos, path: seq<Pos>)
    requires Shaped(e.grid) && InGrid(Rows, Cols, start)
  {
    && (forall q :: q in path ==>
          InGrid(Rows, Cols, q) && !At(e.grid, q).isWall && !At(e.grid, q).isStart && q != start)
    && (path != [] <==> end != start && Reachable(e.grid, algorithm, start, end))
    && (path != [] ==>
          && path[|path| - 1] == end
          && Adjacent(start, path[0])
          && forall i :: 0 <= i < |path| - 1 ==> Adjacent(path[i], path[i + 1]))
    && (path != [] && (algorithm == Algorithm.Bfs || algorithm == Algorithm.Dijkstra) ==>
          forall route :: IsRoute(WallsOf(e.grid), route) && route[0] == start && route[|route| - 1] == end ==>
            |path| <= |route| - 1)
  }

  /** The board a search receives has the walls of the editor's grid. */
  lemma BoardWalls(e: Editor, b: Board)
    requires Shaped(e.grid) && b.Valid() && b.rows == Rows && b.cols == Cols
    requires forall p :: b.InBounds(p) ==> b.Wall(p) == At(e.grid, p).isWall
    ensures b.walls == WallsOf(e.grid)
  {
    forall r | 0 <= r < Rows
      ensures b.walls[r] == WallsOf(e.grid)[r]
    {
      forall c | 0 <= c < Cols
        ensures b.walls[r][c] == WallsOf(e.grid)[r][c]
      {
        assert b.InBounds(Pos(r, c));
      }
    }
  }

  /** The path promises every search makes about its own board, carried
      over to the editor's grid the board was copied from. */
  lemma PathOutcome(e: Editor, algorithm: Algorithm, b: Board, start: Pos, end: Pos, path: seq<Pos>, reached: bool)
    requires Inv(e) && e.startPoint == Some(start)
    requires b.Valid() && b.rows == Rows && b.cols == Cols
    requires forall p :: b.InBounds(p) ==> b.Wall(p) == At(e.grid, p).isWall && b.StartFlag(p) == At(e.grid, p).isStart
    requires Rooted(b, start) && PredecessorsDescend(b) && LinksAvoidWalls(b)
    requires reached <==> Connected(b.walls, start, end) && (algorithm == Algorithm.Dijkstra ==> !b.Wall(start))
    requires reached ==> b.InBounds(end) && (end == start || b.Prev(end).Some?) && path == ChainPath(b, end)
    requires reached && (algorithm == Algorithm.Bfs || algorithm == Algorithm.Dijkstra) ==> NoShorterRoute(b, start, end)
    requires !reached ==> path == []
    ensures PathReported(e, algorithm, start, end, path)
  {
    BoardWalls(e, b);
    if reached {
      ChainPathMembers(b, end);
      if b.Prev(end).Some? {
        RootedChainShape(b, start, end);
      }
    }
  }

  /** The record promises every search makes about its own board, carried
      over to the editor's grid the board was copied from. */
  lemma RecordsOutcome(e: Editor, algorithm: Algorithm, b: Board, start: Pos, end: Pos, vs: seq<Visit>, reached: bool)
    requires Inv(e) && e.startPoint == Some(start)
    requires b.Valid() && b.rows == Rows && b.cols == Cols
    requires forall p :: b.InBounds(p) ==> b.Wall(p) == At(e.grid, p).isWall && b.StartFlag(p) == At(e.grid, p).isStart
    requires reached <==> Connected(b.walls, start, end) && (algorithm == Algorithm.Dijkstra ==> !b.Wall(start))
    requires VisitsWellFormed(b, end, vs) && VisitsDistinct(vs)
    requires forall v :: v in vs ==> VisitPos(v) == start || !b.Wall(VisitPos(v))
    requires !reached ==> forall p :: p in RecordedCells(vs) <==>
               b.InBounds(p) && (algorithm == Algorithm.Dijkstra ==> !b.Wall(start)) &&
               Connected(b.walls, start, p) && !b.StartFlag(p)
    ensures RecordsReported(e, algorithm, start, end, vs)
  {
    BoardWalls(e, b);
  }

  /** What a search started from the editor promises about its records and
      its path, read against the editor's grid. */
  ghost predicate Reported(e: Editor, algorithm: Algorithm, start: Pos, end: Pos, res: AlgorithmResult)
    requires Shaped(e.grid) && InGrid(Rows, Cols, start)
  {
    RecordsReported(e, algorithm, start, end, res.visitedInOrder) && PathReported(e, algorithm, start, end, res.path)
  }

  /** The promises every search makes about its own board, carried over to
      the editor's grid the board was copied from. */
  lemma SearchOutcome(e: Editor, algorithm: Algorithm, b: Board, start: Pos, end: Pos, res: AlgorithmResult,
                      reached: bool)
    requires Inv(e) && e.startPoint == Some(start)
    requires b.Valid() && b.rows == Rows && b.cols == Cols
    requires forall p :: b.InBounds(p) ==> b.Wall(p) == At(e.grid, p).isWall && b.StartFlag(p) == At(e.grid, p).isStart
    requires Rooted(b, start) && PredecessorsDescend(b) && LinksAvoidWalls(b)
    requires reached <==> Connected(b.walls, start, end) && (algorithm == Algorithm.Dijkstra ==> !b.Wall(start))
    requires reached ==> b.InBounds(end) && (end == start || b.Prev(end).Some?) && res.path == ChainPath(b, end)
    requires reached && (algorithm == Algorithm.Bfs || algorithm == Algorithm.Dijkstra) ==> NoShorterRoute(b, start, end)
    requires !reached ==> res.path == []
    requires VisitsWellFormed(b, end, res.visitedInOrder) && VisitsDistinct(res.visitedInOrder)
    requires forall v :: v in res.visitedInOrder ==> VisitPos(v) == start || !b.Wall(VisitPos(v))
    requires !reached ==> forall p :: p in RecordedCells(res.visitedInOrder) <==>
               b.InBounds(p) && (algorithm == Algorithm.Dijkstra ==> !b.Wall(start)) &&
               Connected(b.walls, start, p) && !b.StartFlag(p)
    ensures Reported(e, algorithm, start, end, res)
  {
    RecordsOutcome(e, algorithm, b, start, end, res.visitedInOrder, reached);
    PathOutcome(e, algorithm, b, start, end, res.path, reached);
  }

  /** visualize (components/pathfinding-visualizer.tsx:181-210): nothing
      unless both points are recorded and no search runs; otherwise the
      selected search runs on a fresh board built from a mark-cleared copy
      of the grid, so the editor's own grid is never written, and its result
      is Reported against that grid. */
  method Visualize(e: Editor, algorithm: Algorithm) returns (res: Option<AlgorithmResult>)
    requires Inv(e)
    ensures res.None? <==> e.startPoint.None? || e.endPoint.None? || e.isVisualizing
    ensures res.Some? ==> Reported(e, algorithm, e.startPoint.value, e.endPoint.value, res.value)
  {
    if e.startPoint.None? || e.endPoint.None? || e.isVisualizing {
      return None;
    }
    var start, end := e.startPoint.value, e.endPoint.value;
    var gridCopy := Reset(e.grid);
    var board := new Board.FromCells(gridCopy, Rows, Cols);
    var r: AlgorithmResult;
    ghost var reached: bool;
    match algorithm {
      case Bfs => r, reached := FirstDiscovery.Bfs(board, start, end);
      case Dfs => r, reached := FirstDiscovery.Dfs(board, start, end);
      case Dijkstra => r, reached := DijkstraSearch.Run(board, start, end);
      case AStar => r, reached := AStarSearch.Run(board, start, end);
      case Greedy => r, reached := FirstDiscovery.Greedy(board, start, end);
    }
    SearchOutcome(e, algorithm, board, start, end, r, reached);
    res := Some(r);
  }
}
