# Pathfinding visualizer: a verified model of its search engine and grid editor

This project models the core of a grid pathfinding visualizer in Dafny:

- The five grid searches of `lib/algorithms.ts`: breadth-first, depth-first,
  Dijkstra, A\* and greedy best-first. They share the helpers
  `getNeighbors`, `manhattanDistance` and `reconstructPath`.
- The grid editing rules of `components/pathfinding-visualizer.tsx`:
  - the integer line algorithm `getCellsBetween`, which is Bresenham's;
  - the wall, start and end rules of a click;
  - drag painting;
  - clearing the search marks, and clearing the whole grid;
  - the initial grid and state;
  - the mark-cleared copy of the grid that a search receives.

A search works in place on a `Board`, a class holding one 2-D array for the
`distance` field and one for the `previousCell` field. Each search is an
imperative method whose loop keeps an invariant:

- the predecessor links form a search forest rooted at the start, and no
  link leads into a wall;
- in BFS, DFS, greedy and A\*, the frontier holds distinct cells and no
  walls other than the start. Dijkstra's unvisited list starts with every
  cell, walls included, and a wall is skipped when it is popped;
- the records name distinct cells at their final distances, and never the
  end cell or a cell flagged as the start;
- progress: a popped cell's passable neighbours have all been reached, and
  the end stays pending until it is popped;
- coverage: every popped cell that is not a wall and not flagged as the
  start has been recorded, so a search that misses the end records exactly
  the cells reachable from the start.

When the frontier runs out, the reached cells are closed under steps into
passable neighbours. So a search reports the end exactly when some route of
orthogonal steps through non-wall cells leads from the start to the end
(`Grid.Connected`). Dijkstra adds one condition: its start must not be a
wall, because a popped wall is skipped even when it is the start.

BFS and Dijkstra also keep the order in which they settle cells: a cell
that has been expanded is no further than any pending one, and its passable
neighbours are at most one step further than it. Walking any route from
the start along that bound shows that no route to the end is shorter than
the end's distance.

When a search stops, its path is tied to `ChainPath`, the function that
specifies `reconstructPath`. The shape of that path is proved from the
forest: a chain of neighbours from a neighbour of the start to the end,
with exactly `distance(end)` cells.

The sorts at lib/algorithms.ts:186, 237-241 and 297-301 rely on the
stability of JavaScript's `Array.prototype.sort`. They are modelled as a
stable insertion sort by key, proved to sort, to permute, to keep the
relative order of equal keys, and to put first the earliest element with a
least key. Infinity in a comparator is modelled as follows:

- `Infinity - Infinity` is NaN, which the sort reads as "equal";
- the A\* comparator turns an f-score of 0 into infinity.

The editor's grid is a value. Every handler builds a new grid from the
previous one, as the source does with its `map`/spread copies. The handlers
are proved to keep an invariant: at most one cell carries each flag, a
flagged cell is the recorded point, and no wall is flagged.

`Number.POSITIVE_INFINITY` is the `Inf` case of `Dist`. `previousCell`
references become coordinates. The `"row,col"` string keys of `Set` and
`Map` become `set<Pos>` and `map<Pos, nat>`.

## Model

| member | source | states |
|---|---|---|
| Types.Plus1Monotone | lib/algorithms.ts:110 | one step further keeps the order of distances: `a <= b` gives `a + 1 <= b + 1`, infinity included |
| Types.Plus1Least | lib/algorithms.ts:210-211 | for a finite distance `d`, `d + 1` is above `d` and at most every distance above `d`: it is the next distance in the order |
| Types.Compare | lib/algorithms.ts:186 | the sign the comparator `a.distance - b.distance` hands to the sort: 0 exactly on equal distances (NaN from infinity minus infinity included), negative exactly when `a` is below `b` |
| Grid.ManhattanDistance | lib/algorithms.ts:70-72 | the heuristic is 0 exactly when the two cells coincide |
| Grid.ManhattanIsMetric | lib/algorithms.ts:70-72 | the heuristic is symmetric, obeys the triangle inequality, and changes by at most one across one grid step |
| Grid.AdjacentIsStep | lib/algorithms.ts:37-43 | the four direction offsets give exactly the cells at Manhattan distance 1 |
| Grid.GetNeighbors | lib/algorithms.ts:31-54 | at most four cells, exactly the in-grid orthogonal neighbours, in the order up, right, down, left, none repeated |
| Grid.ClosedHoldsConnected | lib/algorithms.ts:87-117 | a set of cells closed under steps into passable neighbours holds every cell a route reaches from one of its cells; this is why an exhausted frontier means the end cannot be reached |
| Grid.Board.FromCells | components/pathfinding-visualizer.tsx:199-210 | the board a search receives has the wall and start flags and the distances of the copied cells, and no predecessors |
| StableSort.SortByIsSortedPermutation | lib/algorithms.ts:186 | the sorted open list is ordered by key and is a permutation of the list before the sort |
| StableSort.InsertPermutes | lib/algorithms.ts:186 | inserting an element into a list adds exactly that element |
| StableSort.InsertKeepsSorted | lib/algorithms.ts:186 | inserting into a list ordered by key keeps it ordered |
| StableSort.InsertKeyClass | lib/algorithms.ts:186 | inserting into an ordered list puts the element after every element of its own key, leaving the order within each key otherwise unchanged |
| StableSort.SortByIsStable | lib/algorithms.ts:186 | elements with equal keys keep their relative order, as `Array.prototype.sort` guarantees |
| StableSort.SortByHeadIsFirstMinimum | lib/algorithms.ts:186-187 | the head after the sort is the first element of the list with a least key |
| StableSort.SortByNoDup | lib/algorithms.ts:186 | sorting a list without repeats gives a list without repeats |
| StableSort.SortAndShift | lib/algorithms.ts:186-187 | `sort` then `shift`: the head is the first element with a least key, no element has a smaller key, and the rest holds the other elements once each |
| Paths.ReconstructPath | lib/algorithms.ts:56-68 | walking the predecessor links from the end, prepending every cell not flagged as the start, gives ChainPath(end) |
| Paths.ChainPathMembers | lib/algorithms.ts:56-68 | the path holds only in-grid cells that have a predecessor and are not flagged as the start, and it is empty when the end cell has no predecessor |
| Paths.RootedChainShape | lib/algorithms.ts:56-68 | on a search forest rooted at the start, the path to a reached cell `c` runs through neighbouring cells from a neighbour of the start to `c`, never holds the start, and has exactly `distance(c)` cells |
| Paths.LinkedConnected | lib/algorithms.ts:56-68 | following the links of a search forest that avoids walls gives a route from the start to every linked cell |
| SearchCommon.RecordsCoverConnected | lib/algorithms.ts:87-117 | when the reached cells hold the start, are closed under steps into passable neighbours and are linked back to the start, and the records name exactly the reached cells not flagged as the start, then the records name exactly the cells some route reaches from the start, less the start-flagged ones |
| SearchCommon.LayeredCells | lib/algorithms.ts:87-114 | every cell of a queue in two distance layers is at the head's distance or one more |
| SearchCommon.DistinctAppend | lib/algorithms.ts:97-103 | appending the record of a cell not yet recorded keeps the records free of repeats |
| SearchCommon.NonDecreasingAppend | lib/algorithms.ts:97-103 | appending a record no smaller than the last keeps the recorded distances non-decreasing |
| SearchCommon.LayeredPopPush | lib/algorithms.ts:87-113 | a queue whose distances are `d` then `d + 1` stays so after popping a `d` and pushing `d + 1`s |
| FirstDiscovery.DiscoveredMembers | lib/algorithms.ts:106-114 | a neighbour is pushed exactly when it is listed, not yet visited and not a wall; nothing is pushed twice |
| FirstDiscovery.Link | lib/algorithms.ts:109-112 | the discovered neighbour gets the current distance plus one and the current cell as predecessor; no other cell changes, and the search forest stays well formed |
| FirstDiscovery.Consider | lib/algorithms.ts:107-113 | a neighbour is marked visited, linked and pushed exactly when it is neither visited nor a wall |
| FirstDiscovery.Discover | lib/algorithms.ts:105-114 | the neighbour loop of BFS, DFS and greedy: the frontier grows by the discovered cells in neighbour order; each gets the current distance plus one and the current cell as predecessor; every other cell keeps its distance and predecessor |
| FirstDiscovery.Init | lib/algorithms.ts:80-85 | the frontier and the visited set hold only the start, whose distance is 0; no other distance changes |
| FirstDiscovery.ProgressStep | lib/algorithms.ts:87-114 | popping a cell other than the end and adding its undiscovered neighbours keeps progress: every popped cell has all its passable neighbours visited, and a visited end is still pending |
| FirstDiscovery.ProgressExhausted | lib/algorithms.ts:87-117 | when the frontier is empty, the visited cells are closed under steps into passable neighbours and the end is not among them |
| FirstDiscovery.CoveredStep | lib/algorithms.ts:97-103 | popping a cell and recording it unless it carries the start flag keeps every visited cell that has left the frontier recorded, whatever is discovered next |
| FirstDiscovery.TightStep | lib/algorithms.ts:87-114 | shifting the head at distance `d` and pushing its new neighbours at `d + 1` keeps the breadth-first order: a cell that has left the queue is no further than any queued cell, and none of its visited neighbours is more than one step further; the table of visited distances grows by the new cells, stays finite and keeps 0 at the start |
| FirstDiscovery.RouteNoShorter | lib/algorithms.ts:87-114 | along any route to the queued end that starts from a cell that has left the queue at a distance no greater than its index, the end's distance is at most the route's number of steps |
| FirstDiscovery.BfsShortest | lib/algorithms.ts:90-95 | when BFS pops the end, no route from the start to the end has fewer steps than the end's distance |
| FirstDiscovery.LayeredStep | lib/algorithms.ts:97-114 | after an expansion the queue's distance list is the old list without its head followed by `d + 1` for each new cell; it stays in two layers, and the records stay non-decreasing and no further than the new head |
| FirstDiscovery.BreadthStep | lib/algorithms.ts:87-114 | one turn of the BFS loop whose head is not the end: the head is recorded at its distance unless it carries the start flag, the queue becomes the rest followed by the discovered cells, and the loop invariant (layers, progress, coverage of the records, breadth-first order) is kept |
| FirstDiscovery.Expand | lib/algorithms.ts:97-114 | the popped cell is recorded at its distance unless it carries the start flag; the neighbours are listed up, right, down, left, exactly the in-grid orthogonal ones; the cells added are exactly the listed neighbours not yet visited and not walls, in that order, each linked to the popped cell one step further; the visited set grows by exactly those cells; every other cell keeps its distance and predecessor; progress is kept, and every visited cell that has left the frontier is recorded unless it carries the start flag |
| FirstDiscovery.ExpandLayered | lib/algorithms.ts:97-114 | the BFS expansion: the same record, neighbour list, added cells, links and untouched cells as Expand; the queue becomes the old queue followed by the added cells, and its list of distances becomes the old list followed by the popped cell's distance plus one for each added cell; the queue stays in two distance layers and the records non-decreasing and no further than the queue's head; progress and coverage of the records are kept |
| FirstDiscovery.InvPop | lib/algorithms.ts:87-88 | shifting or popping the frontier keeps the bookkeeping; the popped cell is visited, is not a wall unless it is the start, and is not yet recorded |
| FirstDiscovery.Finish | lib/algorithms.ts:90-117 | the end is reported exactly when it was popped; it is reported exactly when it is the start or has a predecessor, and exactly when a route leads from the start to it; the path is ChainPath(end) when it is reported and empty otherwise; the links avoid walls; when the end is not reported, the records name exactly the cells a route reaches from the start, less the start-flagged ones |
| FirstDiscovery.Bfs | lib/algorithms.ts:75-118 | BFS leaves a search forest rooted at the start whose links avoid walls; the end is reached exactly when it is the start or has a predecessor, and exactly when a route of steps through non-wall cells leads from the start to it; then no route is shorter than the end's distance, which is the path's length; the path is ChainPath(end) when reached and empty otherwise; the records name distinct cells, none a wall other than the start, never the end or a start-flagged cell, at their final distances, in non-decreasing order; when the end is not reached they name exactly the cells a route reaches from the start, less the start-flagged ones |
| FirstDiscovery.Dfs | lib/algorithms.ts:120-163 | DFS, with a LIFO stack, reaches the end exactly when a route leads to it, and gives every other guarantee of BFS except the order of distances and the shortest route; when the end is not reached the records name exactly the cells a route reaches from the start, less the start-flagged ones |
| FirstDiscovery.PopNearest | lib/algorithms.ts:297-302 | the greedy pop takes the first open cell with the least Manhattan distance to the end; the rest is the stably sorted open list without its head |
| FirstDiscovery.Greedy | lib/algorithms.ts:283-332 | greedy best-first reaches the end exactly when a route leads to it, and gives the same guarantees as DFS, the records of an unreached end included |
| Dijkstra.ResetAll | lib/algorithms.ts:171-180 | every cell gets infinite distance and no predecessor; the unvisited list holds every cell once, in row-major order |
| Dijkstra.SortAndShift | lib/algorithms.ts:186-187 | the popped cell has the least distance among the unvisited, is the first such, and the rest is the sorted remainder without it |
| Dijkstra.RelaxAllOnlyLowers | lib/algorithms.ts:207-216 | relaxation never raises a distance; a changed cell is a listed neighbour that is not a wall, at distance `d + 1`, with the current cell as predecessor |
| Dijkstra.RelaxAllKeepsInv | lib/algorithms.ts:207-216 | relaxing the neighbours of a settled cell keeps the search forest, the floor and the records |
| Dijkstra.SettleKeepsInv | lib/algorithms.ts:187-205 | a popped non-wall cell of least finite distance is settled at that distance, and the records stay distinct and non-decreasing |
| Dijkstra.DropKeepsInv | lib/algorithms.ts:189 | a popped wall is skipped without changing anything |
| Dijkstra.Relax | lib/algorithms.ts:207-216 | the neighbour loop leaves the distances and predecessors RelaxAll gives |
| Dijkstra.RelaxAllReaches | lib/algorithms.ts:207-216 | after relaxing from a cell at distance `d`, every listed in-grid non-wall neighbour is at distance `d + 1` or less |
| Dijkstra.RelaxProgress | lib/algorithms.ts:199-216 | settling a non-wall cell other than the end at the least distance and relaxing its neighbours keeps progress: the end stays unvisited, and every passable neighbour of a settled cell is at most one step further than it |
| Dijkstra.DropProgress | lib/algorithms.ts:189 | skipping a popped wall keeps progress |
| Dijkstra.Settle | lib/algorithms.ts:199-216 | the popped cell is recorded at its distance unless it carries the start flag; the neighbours are listed up, right, down, left; the board becomes what RelaxAll gives; bookkeeping and progress are kept for the rest of the list, and every popped non-wall cell is recorded unless it carries the start flag |
| Dijkstra.ReachedCellsClosed | lib/algorithms.ts:184-190 | when every cell left unvisited has infinite distance, the non-wall cells with finite distance are closed under steps into passable neighbours |
| Dijkstra.RouteNoShorter | lib/algorithms.ts:184-216 | along any route to the end, the least unvisited cell, that starts from a settled cell at a distance no greater than its index, the end's distance is at most the route's number of steps |
| Dijkstra.DijkstraShortest | lib/algorithms.ts:190-195 | when Dijkstra's search pops the end at a finite distance, no route from the start to the end has fewer steps than that distance |
| Dijkstra.Finish | lib/algorithms.ts:190-219 | the end is reported exactly when the loop found it; exactly when it is a non-wall cell with a finite distance; and exactly when the start is not a wall and a route leads to the end; the path is ChainPath(end) then and empty otherwise; when the end is not reported, the records name exactly the cells a route reaches from a start that is not a wall, less the start-flagged ones |
| Dijkstra.InvOutcome | lib/algorithms.ts:184-219 | the loop's bookkeeping yields the rooted search forest and records that are well formed, distinct, non-decreasing and never walls |
| Dijkstra.Run | lib/algorithms.ts:165-220 | Dijkstra's search leaves a search forest rooted at the start whose links avoid walls; the end is reached exactly when it is a non-wall cell with a finite distance, and exactly when the start is not a wall and a route leads from the start to the end; then no route is shorter than the end's distance; the path is ChainPath(end) when reached and empty otherwise; the records are distinct non-wall cells at their final distances, in non-decreasing order, and when the end is not reached they name exactly the cells a route reaches from a start that is not a wall, less the start-flagged ones |
| AStar.RelaxAllTouches | lib/algorithms.ts:261-277 | closed cells and walls are never touched; a touched cell is a listed neighbour, open afterwards, at distance `g + 1` with the current cell as predecessor and f-score `g + 1` plus its Manhattan distance to the end; a cell already open is touched only when that strictly lowers its distance; the open list only grows at its end |
| AStar.RelaxAllKeepsInv | lib/algorithms.ts:261-277 | the neighbour loop keeps the open list free of repeats and of closed cells and walls, and keeps the search forest |
| AStar.CloseKeepsInv | lib/algorithms.ts:252-259 | closing and recording the popped cell keeps the bookkeeping |
| AStar.RelaxNeighbors | lib/algorithms.ts:261-277 | the neighbour loop leaves the board, the open list and the f-scores RelaxAll gives |
| AStar.RelaxAllOpens | lib/algorithms.ts:261-277 | the open list only grows, and every listed in-grid neighbour that is neither closed nor a wall is open afterwards |
| AStar.ProgressStep | lib/algorithms.ts:252-277 | closing a popped cell other than the end and relaxing its neighbours keeps progress: the end is not closed, a linked end is open, and every closed cell's passable neighbours are closed or open |
| AStar.Expand | lib/algorithms.ts:252-277 | one expansion closes the popped cell and records it unless it carries the start flag; the neighbours are listed up, right, down, left, exactly the in-grid orthogonal ones; the board, open list and f-scores become what RelaxAll gives for them; the bookkeeping and progress are kept, and every closed cell is recorded unless it carries the start flag |
| AStar.Run | lib/algorithms.ts:222-281 | A\* leaves a search forest rooted at the start whose links avoid walls; the end is reached exactly when it is the start or has a predecessor, and exactly when a route leads from the start to it; the path is ChainPath(end) when reached and empty otherwise; the records name distinct cells, none a wall other than the start, never the end or a start-flagged cell; when the end is not reached they name exactly the cells a route reaches from the start, less the start-flagged ones |
| AStar.Finish | lib/algorithms.ts:245-280 | the end is reported exactly when it was popped; exactly when it is the start or has a predecessor; and exactly when a route leads to it; the path is ChainPath(end) then and empty otherwise; when the end is not reported, the open list is empty, the closed cells are closed under steps, and the records name exactly the cells a route reaches from the start, less the start-flagged ones |
| Editor.ErrorTermClosed | components/pathfinding-visualizer.tsx:52-70 | after `i` column and `j` row steps the error term is `dx - dy - i*dy + j*dx` |
| Editor.ErrorStep | components/pathfinding-visualizer.tsx:62-70 | the two tests on `2 * err` never step past the target on either axis, and while the target is not reached at least one of them passes |
| Editor.Advance | components/pathfinding-visualizer.tsx:62-70 | one loop step moves at most one unit per axis, at least one in total, toward the target, and keeps the error term in step with the moves |
| Editor.GetCellsBetween | components/pathfinding-visualizer.tsx:45-76 | the line is non-empty, starts at `(row0, col0)`, ends at `(row1, col1)`; each step moves at most one unit per axis and strictly closer to the target; every cell lies in the box of the two end points |
| Editor.BoxInGrid | components/pathfinding-visualizer.tsx:135-148 | a line between two grid cells stays inside the grid, so painting it indexes in bounds |
| Editor.ToggleWall | components/pathfinding-visualizer.tsx:83-88 | only the wall flag changes, and it flips exactly on the clicked cell when that cell carries neither the start nor the end flag |
| Editor.PlaceStart | components/pathfinding-visualizer.tsx:91-101 | only start flags change: the old start cell loses the flag; the clicked cell gains it, and becomes the start point, exactly when it is neither a wall nor the end; a rejected click leaves the old start point |
| Editor.PlaceEnd | components/pathfinding-visualizer.tsx:102-113 | the mirror image of start placement for the end flag, refusing walls and the start |
| Editor.FlagsUnique | components/pathfinding-visualizer.tsx:93-111 | under the editor invariant at most one cell carries the start flag and at most one the end flag |
| Editor.PlaceStartKeepsInv | components/pathfinding-visualizer.tsx:91-101 | start placement keeps the editor invariant |
| Editor.PlaceEndKeepsInv | components/pathfinding-visualizer.tsx:102-113 | end placement keeps the editor invariant |
| Editor.ToggleWallKeepsInv | components/pathfinding-visualizer.tsx:83-88 | the wall rule keeps the editor invariant, since flagged cells are never toggled |
| Editor.ClickCell | components/pathfinding-visualizer.tsx:78-117 | a click while a search runs, or with no draw mode, changes nothing; otherwise only the grid and the recorded points change, and the invariant is kept |
| Editor.Paint | components/pathfinding-visualizer.tsx:144-151 | every listed cell without the start or end flag becomes a wall, every other cell is kept, and no wall is cleared |
| Editor.MouseEnter | components/pathfinding-visualizer.tsx:129-155 | outside a wall-mode drag nothing changes; during one, the cells of the line from the last drawn cell to the entered cell are painted and the entered cell becomes the last drawn; the invariant is kept |
| Editor.Reset | components/pathfinding-visualizer.tsx:159-167 | every cell loses its visited and path marks and gets infinite distance; coordinates and the wall, start and end flags are kept |
| Editor.ResetIdempotent | components/pathfinding-visualizer.tsx:159-167 | clearing the marks twice is the same as clearing them once |
| Editor.ResetMarks | components/pathfinding-visualizer.tsx:157-170 | nothing changes while a search runs; otherwise exactly the marks are cleared, and the invariant is kept |
| Editor.InitializeGrid | components/pathfinding-visualizer.tsx:24-43 | the grid has GRID_ROWS rows of GRID_COLS cells, each carrying its own coordinates, no wall, start, end, visited or path flag, and infinite distance |
| Editor.Initial | components/pathfinding-visualizer.tsx:13-22 | the component starts with a fresh grid, no draw mode, no search running, no recorded points and the mouse up, and this state meets the editor invariant |
| Editor.Clear | components/pathfinding-visualizer.tsx:172-179 | nothing changes while a search runs; otherwise the grid becomes a fresh grid, the points are forgotten, the draw mode is cleared, nothing else changes, and the invariant is kept |
| Editor.SearchOutcome | components/pathfinding-visualizer.tsx:199-210 | a search's guarantees about its board carry over to the editor grid the board was copied from: the records and the path are Reported against that grid |
| Editor.RecordsOutcome | components/pathfinding-visualizer.tsx:199-210 | the records a search returns are distinct in-grid cells of the copied grid, never start-flagged or the end point, at finite distances, no wall other than the start point; when the end point is out of reach they name exactly the cells the search can reach from the start point, less the start-flagged ones |
| Editor.PathOutcome | components/pathfinding-visualizer.tsx:199-210 | the path a search returns holds in-grid non-wall cells other than the start, none start-flagged, chained by neighbour steps to the end, and is non-empty exactly when the end differs from the start and is reachable; for BFS and Dijkstra no route of the copied grid from the start to the end is shorter than it |
| Editor.Visualize | components/pathfinding-visualizer.tsx:181-210 | no search runs unless both points are recorded and none is already running; otherwise the chosen search runs on a fresh copy of the grid; its records are well formed and, when the end is out of reach, name exactly the reachable cells that are not start-flagged; its path holds in-grid non-wall cells other than the start, is a chain of neighbours ending at the end point, is non-empty exactly when the end differs from the start and a route of non-wall cells leads there (for Dijkstra, from a start that is not a wall), and for BFS and Dijkstra no route is shorter |

## Left out

- Animation and timing in `visualize` (components/pathfinding-visualizer.tsx:184-185, 212-240) are not modelled. This covers the `setTimeout` pacing, the `performance.now()` clock, the floating-point `executionTime` and the marks the animation writes back into the grid. The model ends at the search's result.
- The `setGrid` reset at components/pathfinding-visualizer.tsx:188-197 is not modelled, nor the toggling of `isVisualizing`, because both only feed the animation. The `isVisualizing` flag is read as a parameter of the editor state.
- React hooks and refs are not modelled. The mouse-down and mouse-up handlers (components/pathfinding-visualizer.tsx:119-127) only set the `mouseDown` and `lastDrawn` fields, which are part of the editor state.
- The `async`/`Promise` wrappers of the searches are not modelled, because none of them awaits anything. Each search is an ordinary method.
- The `algorithmInfo` description table is not modelled, because it holds display strings only.
- The display-only components (grid, controls, page) are not part of this model.
- Number representation: distances are natural numbers or `Inf`, not floating point. Finite grid distances never approach the range where doubles lose precision.
- The searches (`FirstDiscovery.Bfs`, `FirstDiscovery.Dfs`, `FirstDiscovery.Greedy`, `AStar.Run`) require a board without predecessors. `visualize` always passes a freshly copied grid whose cells carry none; a grid reused across searches is not modelled.
- Editor.Visualize: what it states about the result does not include the non-decreasing order of BFS and Dijkstra records. That order is stated by `FirstDiscovery.Bfs` and `Dijkstra.Run` themselves.
- AStar.Run: does not state that its path is a shortest route. Proving it needs a loop invariant that every closed cell's distance is final, which rests on the open list being popped in f-score order and on the Manhattan heuristic being consistent (`Grid.ManhattanIsMetric` proves the consistency); that invariant over the f-score table is not carried through the loop, so only reachability, the forest and the records are stated.
- AStar.Run: the f-score table's contents are stated per neighbour step by `AStar.RelaxAllTouches`, but are not carried as a loop invariant of the whole search.
- Object identity: `openSet.includes(neighbor)` compares cell objects, and it is modelled as membership of coordinates, since every grid cell has its own coordinates.
- The start point may be stale: a rejected start placement leaves the old `startPoint`, whose cell has lost its flag and may later become a wall. The model keeps this behaviour. Its searches then start from a cell that may be a wall, so the records are stated to be "no wall other than the start". BFS, DFS, greedy and A\* still expand a walled start, but Dijkstra skips it when it is popped and then reaches nothing; `Dijkstra.Run` states this in its reachability clause.
