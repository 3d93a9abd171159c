# Recursive-division maze generator, modelled in Dafny

This project models the `Maze` class of `Make_environment/include/maze.h`, a
procedural maze generator for an OpenGL scene.

A maze of `width` by `height` cells is stored as a map from (row, column) to
one of four tiles: `Empty`, `Wall`, `Start` or `End`. The constructor works in
three steps:

1. It fills every cell with `Empty`.
2. It places `Start` at (0, 0) and `End` at (height - 1, width - 1).
3. It calls `generateMaze` on the whole grid.

`generateMaze` implements recursive division. A rectangle that is at most two
cells wide or high is left alone. Otherwise:

- A wall column (or row) is drawn strictly inside the rectangle.
- The line keeps a single gap at one of its two ends.
- Both sides of the line are divided with the other orientation.

Queries read the grid: `getWidth`, `getHeight` and `getTile(x, z)`, which reads
column `x` of row `z`. `printMaze` draws the grid as text inside a border of
`X`. The program's start-up scan (`Make_environment/src/main.cpp`) collects the
walls and the `End` cell through these queries, and it is modelled as well.

Files:

- `grid.dfy`, module `Grid`: the tiles, cells, rectangles and paths. It
  defines `Connected(g, r)`: every two passable cells of rectangle `r` are
  joined by a path of side-by-side passable cells inside `r`. It also holds
  the path lemmas: reflexivity, one step, reversal, concatenation, widening to
  a larger rectangle, walking across a wall-free rectangle, and joining two
  connected halves through a gap.
- `partition.dfy`, module `Partition`: one split step, and the shape of a
  whole run.
  - Where the line and its gap go, and which cells become walls.
  - The two sub-rectangles the recursion continues on.
  - The predicate `Divided(g, h, done, r)`, which sums up what dividing `r`
    does to the grid: `g` before, `h` after, `done` the record of the splits
    made. Its parts are:
    - only non-corner cells of `r` change, and each becomes a wall;
    - every wall lies on a recorded line, and every recorded line is all
      walls;
    - every recorded split is well placed inside `r`;
    - if `r` had no wall before, it ends connected and every recorded gap is
      passable.
  - The datatype `Division`: a run of `generateMaze` as a tree. A `Leaf` is a
    rectangle left alone. A `Node` is a split followed by the runs on its two
    halves. `DivisionOf(t, r, ver)` says `t` has exactly the shape the
    recursion gives it:
    - a leaf exactly when `r` is too thin;
    - otherwise the root split is on `r` with orientation `ver`;
    - both halves are divided with `!ver`.
    From this shape it follows that no two lines share a cell, so the walls
    number the sum of `Hi() - Lo()` over the splits.
- `maze.dfy`, module `MazeGen`:
  - the class `Maze`, with fields `width`, `height`, `tiles` and a ghost
    record `division` of the run of `generateMaze` that built it;
  - its constructor, `GenerateMaze`, the line-drawing loop, the queries and
    the printer;
  - the start-up scan.

Where the source calls `rand()`, the model draws an arbitrary natural number,
then applies the source's own arithmetic (`lo + 1 + rand % (hi - lo - 1)` and
`rand % 2`). Every property therefore holds for every sequence of random
values.

The main results:

- The constructor's postcondition `Generated` holds for every random choice:
  - the grid has exactly the cells of the `width` by `height` grid;
  - `End` is at (height - 1, width - 1);
  - `Start` is at (0, 0) unless the grid is a single cell;
  - every other cell is `Empty` or `Wall`;
  - the walls are exactly the cells on the recorded split lines;
  - no vertical line is in the first or last column, and no horizontal line
    in the first or last row;
  - every gap is passable;
  - all passable cells are connected;
  - the record has the recursion's shape (`DivisionOf`), so the number of
    walls is the sum over the splits of the cells each line walls
    (`WallTotal`).
- `StartEndUnique`: there is exactly one `End`, and exactly one `Start` unless
  the grid is a single cell.
- Connectivity is proved by induction over the recursion. The gap sits at one
  end of the line, so it is next to a corner of each half. A rectangle's own
  division never changes its corners.

Two points about the source:

- On a 1 by 1 grid the constructor writes `End` over `Start` (`maze.h:30-31`),
  so the finished grid holds no `Start`. See `StartEndUnique`.
- The comment at `maze.h:145` says the map key is "width then height". The
  code inserts `(i, j)` with `i` running over the height. The key is therefore
  (row, column), which `getTile(x, z)` reads as `(z, x)`. The model follows the
  code and keys cells as (row, column).

## Model

| member | source | states |
|---|---|---|
| `MazeGen.TileChar` | Make_environment/include/maze.h:107-124 | A tile is drawn as 'X' exactly when it is a wall and as a space exactly when it is empty (start 'S', end 'E'). |
| `MazeGen.EmptyGrid` | Make_environment/include/maze.h:23-27 | The nested fill loops produce exactly the cells with 0 <= row < h and 0 <= column < w, every one `Empty`. |
| `MazeGen.MarkedGrid` | Make_environment/include/maze.h:29-31 | Writing `Start` at (0, 0) and then `End` at (h - 1, w - 1) onto the blank grid gives `End` in the far corner, `Start` at the origin unless the grid is 1 by 1 (where `End` overwrites it), and `Empty` everywhere else. |
| `MazeGen.Maze.constructor` | Make_environment/include/maze.h:19-35 | After construction the dimensions are the arguments and the grid is `Generated`: the exact cell set, start and end in place, walls exactly on the recorded split lines, no line on the outer rows or columns, every gap open, every passable cell connected to every other. The recorded division is one run of the recursion over the whole grid, starting with either orientation. |
| `MazeGen.DivideMarked` | Make_environment/include/maze.h:30-34 | Dividing the marked grid over its whole rectangle yields a `Generated` maze: start and end are corners of the whole grid, so they are never walled, and the grid began without walls, so it ends connected. |
| `MazeGen.StartEndUnique` | Make_environment/include/maze.h:29-34 | A generated maze holds exactly one `End` cell, at (h - 1, w - 1), and exactly one `Start` cell, at (0, 0), unless it is a single cell, which holds no `Start`. |
| `MazeGen.Maze.GenerateMaze` | Make_environment/include/maze.h:37-95 | A rectangle too thin to divide (either extent at most 1) leaves the grid unchanged. The returned run has the recursion's shape (`DivisionOf`): a leaf exactly on a too-thin rectangle, otherwise a well-placed split of this rectangle with the given orientation whose two halves are divided with the flipped orientation. The grid before and after satisfies `Divided` for this rectangle with the run's splits. |
| `Partition.NotDivided` | Make_environment/include/maze.h:39-41 | Leaving a rectangle alone satisfies `Divided` with an empty record; a wall-free rectangle is connected. |
| `Partition.SplitAt` | Make_environment/include/maze.h:54 | For any random value, the split position `lo + 1 + rand % (hi - lo - 1)` lies strictly between `lo` and `hi` (the modulus is at least 1 once the base case is passed). |
| `Partition.SplitAtReachesAll` | Make_environment/include/maze.h:75 | Every position strictly between the bounds is chosen for some random value, so the range stated by `SplitAt` is exact. |
| `Partition.Gap` | Make_environment/include/maze.h:55-60 | The gap is always one of the two extreme positions; an even coin puts it at the far end. |
| `Partition.Split.Halves` | Make_environment/include/maze.h:70-71 | The two recursive rectangles are non-empty, inside the parent, disjoint, and exclude the split line. With the line they cover the parent. Each has a smaller extent than the parent, so the recursion terminates. The cells beside the gap are corners of the two halves. |
| `Partition.LineShape` | Make_environment/include/maze.h:63-67 | The walled cells lie on the split line inside the rectangle and are never its corners. The gap cell is inside the rectangle and not walled. The line across the rectangle is the walled cells plus the gap. Exactly `endHeight - startHeight` (vertical) or `endWidth - startWidth` (horizontal) cells are walled. |
| `Partition.SegmentSize` | Make_environment/include/maze.h:63 | The positions lo..hi along a line are `hi - lo + 1` distinct cells. |
| `Partition.LineMembers` | Make_environment/include/maze.h:85-89 | A cell is walled by a split exactly when it is on the split line, between the line's ends, and not at the gap. |
| `Partition.LineDrawnAlong` | Make_environment/include/maze.h:63-67 | Walling each position from the first to the last except the gap changes exactly the line's cells into walls and keeps every other cell, the gap included. |
| `MazeGen.Maze.DrawLine` | Make_environment/include/maze.h:62-67 | The walling loop keeps the grid's cells. It turns exactly the split's line cells, minus the gap, into walls. The gap and every cell outside the line keep their old tiles. |
| `Partition.HalvesClear` | Make_environment/include/maze.h:69-71 | If the rectangle had no wall, each half has none when its own division starts: the line is outside both halves, and the first half's division touches nothing in the second. |
| `Partition.SplitWallsOnly` | Make_environment/include/maze.h:62-71 | One full step (line, then first half, then second half) changes only non-corner cells of the rectangle, each into a wall. |
| `Partition.SplitKeepsConnected` | Make_environment/include/maze.h:52-71 | If the rectangle had no wall and each half ends connected, the rectangle ends connected: every passable cell reaches the gap through its half. |
| `Partition.SplitRecordWalled` | Make_environment/include/maze.h:63-71 | After a full step, every recorded split lies inside the rectangle and every cell of every recorded line is a wall. |
| `Partition.SplitRecordChanges` | Make_environment/include/maze.h:63-71 | Every cell a full step changes lies on one of the recorded lines. |
| `Partition.SplitRecordGaps` | Make_environment/include/maze.h:55-71 | If the rectangle had no wall, every recorded gap, this step's and the halves', is still passable at the end. |
| `Partition.DivisionStep` | Make_environment/include/maze.h:52-93 | Drawing a well-placed line and dividing both halves divides the whole rectangle, with the record being this split followed by the halves' records. |
| `Partition.WallsAreLines` | Make_environment/include/maze.h:63-93 | A cell is among a run's walls exactly when it lies on the line of one of the run's splits. |
| `Partition.WallsInside` | Make_environment/include/maze.h:63-93 | Every cell a run of the recursion on `r` walls lies in `r`. |
| `Partition.WallsApart` | Make_environment/include/maze.h:63-71 | In a run, the root split's line, the first half's walls and the second half's walls share no cell. |
| `Partition.LinesInWalls` | Make_environment/include/maze.h:63-93 | The line of every split of a run is among the run's walls. |
| `Partition.RecordLinesApart` | Make_environment/include/maze.h:63-71 | A split followed by two records, each with pairwise-apart lines and kept in two sets apart from each other and from the split's line, makes a record whose lines are pairwise apart. |
| `Partition.LinesDisjoint` | Make_environment/include/maze.h:63-93 | In a run of the recursion, the lines of any two different splits share no cell: the lines never collide. |
| `Partition.WallsCounted` | Make_environment/include/maze.h:63-93 | The walls of a run number exactly the sum over its splits of `Hi() - Lo()`, the cells each line's loop walls. |
| `MazeGen.WallTotal` | Make_environment/include/maze.h:19-35 | In a finished maze the walls are exactly the cells the recorded run walls, and their number is the sum over its splits of the cells each line walls. |
| `Grid.NoWallConnected` | Make_environment/include/maze.h:39-41 | A rectangle without walls, where the recursion stops, is connected. |
| `Grid.WalkConnects` | Make_environment/include/maze.h:39-41 | In a wall-free rectangle, any cell reaches any other by walking along the row, then the column. |
| `Grid.JoinHalves` | Make_environment/include/maze.h:55-60 | Two connected halves and an open gap next to an open cell of each make the whole rectangle connected, if every passable cell is in a half or is the gap. |
| `MazeGen.Maze.GetWidth` | Make_environment/include/maze.h:137 | The width is at least 1 and is the stored width, the constructor's argument. |
| `MazeGen.Maze.GetHeight` | Make_environment/include/maze.h:138 | The height is at least 1 and is the stored height, the constructor's argument. |
| `MazeGen.Maze.GetTile` | Make_environment/include/maze.h:140 | A tile is returned exactly when 0 <= x < width and 0 <= z < height (the source throws otherwise), and it is the tile of row `z`, column `x`. |
| `MazeGen.Maze.PrintMaze` | Make_environment/include/maze.h:98-134 | The picture is `height + 2` lines of `width + 2` characters. The first and last lines are all 'X', and every other line starts and ends with 'X'. Character (i + 1, j + 1) draws the tile of row i, column j. The result is true. |
| `MazeGen.ScanMaze` | Make_environment/src/main.cpp:45-57 | The scan lists every wall as (column, row), each once and in reading order. `endFlag` is the last `End` in reading order, or (0, 0) when there is none. |
| `MazeGen.ScanRow` | Make_environment/src/main.cpp:49-56 | Reading one row extends what has been gathered, walls and last `End`, from the rows above to the rows up to this one. |
| `MazeGen.WallsStep` | Make_environment/src/main.cpp:50-52 | Reading a cell appends it to the wall list exactly when it is a wall, which keeps the list complete and in reading order. |
| `MazeGen.EndStep` | Make_environment/src/main.cpp:53-55 | Reading a cell makes it the flag exactly when it is `End`, which keeps the flag the last `End` read. |
| `MazeGen.RowDone` | Make_environment/src/main.cpp:49 | A row has no cells past the width, so finishing a row means having read everything before the next row. |
| `MazeGen.ScanDone` | Make_environment/src/main.cpp:48 | After the last row, everything the grid holds has been read. |
| `MazeGen.GeneratedEnd` | Make_environment/src/main.cpp:53-55 | On a generated maze, the scan's `End` flag is the far corner (width - 1, height - 1). |

## Left out

- The default constructor (`maze.h:13-16`): a 0 by 0 maze with an empty map that nothing else reads.
- Grids with width or height below 1. The source has no guard, and `map::at((0, 0))` throws there. The constructor requires both to be at least 1.
- The statistical behaviour of `rand()`: uniformity and the unseeded global state. Each draw is an arbitrary natural number.
- `int` overflow in the source's index arithmetic. Dafny integers are unbounded, and the generator only computes values inside the grid.
- The `std::cout` writes of `printMaze`. `PrintMaze` returns the lines it would write. The `default` branch of its switch ("Character not found!", returning false) cannot be reached with the four-tile enum, so the model always returns true.
- The commented-out alternative of a gap inside the line (`maze.h:59`, `81`). It is not live code.
- `MazeGen.Maze.GenerateMaze` requires the rectangle to lie inside the grid. The source accepts any rectangle. Outside the grid it may return at once, write walls, or throw from `map::at` part-way. Its only callers, the constructor and the recursion itself, stay inside the grid.
- The default argument `ver = true` of `generateMaze` (`maze.h:37`) is dropped. No call relies on it, and every call passes the orientation.
- `MazeGen.EmptyGrid`: the fill loops build a local map that the constructor then assigns to the field. The source inserts into the field directly, and the end result is the same.
- `MazeGen.Maze.constructor`: `Start` and `End` are written on the local map before it becomes the field.
- `MazeGen.ScanRow`: the inner loop of the start-up scan is a method of its own.
- `MazeGen.ScanMaze`: it returns the collected walls and the `End` flag. The rest of `Make_environment/src/main.cpp` is not part of this model: window and shader set-up, rendering, key and mouse handling, camera matrices, and error message boxes. These are graphics, floating-point and operating-system calls.
