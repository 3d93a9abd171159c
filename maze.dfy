/**
 * The maze generator: a grid of tiles, filled with `Empty`, marked with
 * `Start` and `End` in opposite corners, then divided in place by
 * recursive division into a connected labyrinth.
 */
module MazeGen {
  import opened Grid
  import opened Partition

  /** The character a tile is drawn with in the text picture of the maze. */
  function TileChar(t: Tile): (c: char)
    ensures c == 'X' <==> t == Wall
    ensures c == ' ' <==> t == Empty
  {
    match t
    case Empty => ' '
    case Wall => 'X'
    case Start => 'S'
    case End => 'E'
  }

  /** `g` holds exactly the cells of a `w` by `h` grid. */
  ghost predicate GridCells(g: Tiles, w: int, h: int) {
    forall p :: p in g <==> Rect(0, w - 1, 0, h - 1).Contains(p)
  }

  /** `g` holds exactly the cells of a `w` by `h` grid, every one of them `Empty`. */
  ghost predicate Blank(g: Tiles, w: int, h: int) {
    GridCells(g, w, h) && forall p :: p in g ==> g[p] == Empty
  }

  /** The `w` by `h` grid with every cell `Empty`, filled row by row, each row column by column. */
  method EmptyGrid(w: int, h: int) returns (g: Tiles)
    ensures Blank(g, w, h)
  {
    g := map[];
    var i := 0;
    while i < h
      invariant i <= h || h <= 0
      invariant forall p :: p in g <==> 0 <= p.0 < i && 0 <= p.0 < h && 0 <= p.1 < w
      invariant forall p :: p in g ==> g[p] == Empty
    {
      var j := 0;
      while j < w
        invariant j <= w || w <= 0
        invariant forall p :: p in g <==> (0 <= p.0 < i && 0 <= p.1 < w) || (p.0 == i && 0 <= p.1 < j && p.1 < w)
        invariant forall p :: p in g ==> g[p] == Empty
      {
        g := g[(i, j) := Empty];
        j := j + 1;
      }
      i := i + 1;
    }
  }

  /**
   * The grid the constructor builds before dividing it: exactly the cells of
   * a `w` by `h` grid, `End` at (h - 1, w - 1), `Start` at (0, 0) unless that
   * is the same cell, `Empty` everywhere else.
   */
  ghost predicate Marked(g: Tiles, w: int, h: int) {
    w >= 1 && h >= 1 && GridCells(g, w, h) &&
    (h - 1, w - 1) in g && g[(h - 1, w - 1)] == End &&
    ((w, h) != (1, 1) ==> g[(0, 0)] == Start) &&
    (forall p :: p in g && p != (0, 0) && p != (h - 1, w - 1) ==> g[p] == Empty)
  }

  /** Placing `Start` and then `End` on the blank grid gives the marked grid. */
  lemma MarkedGrid(blank: Tiles, w: int, h: int)
    requires w >= 1 && h >= 1 && Blank(blank, w, h)
    ensures Marked(blank[(0, 0) := Start][(h - 1, w - 1) := End], w, h)
  {
  }

  /**
   * A finished `w` by `h` maze with the record `done` of its splits: exactly
   * the cells of the grid; `End` at (h - 1, w - 1) and `Start` at (0, 0)
   * unless that is the same cell; every other cell `Empty` or `Wall`; every
   * split well placed inside the grid, so no wall column is the first or
   * last column and no wall row the first or last row; the walls exactly the
   * cells on the recorded lines; every gap passable; the grid connected.
   */
  ghost predicate Generated(g: Tiles, done: seq<Split>, w: int, h: int) {
    w >= 1 && h >= 1 && GridCells(g, w, h) &&
    (h - 1, w - 1) in g && g[(h - 1, w - 1)] == End &&
    ((w, h) != (1, 1) ==> g[(0, 0)] == Start) &&
    (forall p :: p in g && p != (0, 0) && p != (h - 1, w - 1) ==> g[p] == Empty || g[p] == Wall) &&
    (forall s :: s in done ==> s.WellPlaced() && s.rect.Within(Rect(0, w - 1, 0, h - 1))) &&
    (forall s :: s in done ==> if s.ver then 0 < s.at < w - 1 else 0 < s.at < h - 1) &&
    (forall p :: p in g ==> (g[p] == Wall <==> exists s :: s in done && p in s.Line())) &&
    GapsOpen(g, done) &&
    Connected(g, Rect(0, w - 1, 0, h - 1))
  }

  /** A finished maze holds exactly one `End` cell, and exactly one `Start` cell unless it is a single cell. */
  lemma StartEndUnique(g: Tiles, done: seq<Split>, w: int, h: int)
    requires Generated(g, done, w, h)
    ensures (set p | p in g && g[p] == End) == {(h - 1, w - 1)}
    ensures (set p | p in g && g[p] == Start) == if (w, h) == (1, 1) then {} else {(0, 0)}
  {
  }

  /**
   * Dividing the marked grid as `generateMaze` does over the whole grid keeps
   * `Start` and `End` where they are, turns into walls exactly the cells on
   * the recorded lines, puts no line on the outer rows or columns, keeps
   * every gap passable and leaves the grid connected.
   */
  lemma DivideMarked(g0: Tiles, g: Tiles, done: seq<Split>, w: int, h: int)
    requires Marked(g0, w, h)
    requires Divided(g0, g, done, Rect(0, w - 1, 0, h - 1))
    ensures Generated(g, done, w, h)
  {
    var r := Rect(0, w - 1, 0, h - 1);
    assert NoWall(g0, r);
    assert r.IsCorner((0, 0)) && r.IsCorner((h - 1, w - 1));
    forall p | p in g && g[p] == Wall
      ensures exists s :: s in done && p in s.Line()
    {
      assert g[p] != g0[p];
    }
  }

  class Maze {
    var width: int
    var height: int
    /** The tile of every cell, keyed by (row, column). */
    var tiles: map<Cell, Tile>
    /** The run of `generateMaze` the construction made: every split, each with the divisions of its halves. */
    ghost var division: Division

    /** The whole grid as a rectangle. */
    function Bounds(): (r: Rect)
      reads this
    {
      Rect(0, width - 1, 0, height - 1)
    }

    ghost predicate Valid()
      reads this
    {
      width >= 1 && height >= 1 && GridCells(tiles, width, height)
    }

    /**
     * Builds a `w` by `h` maze: every cell `Empty`, `Start` at (0, 0), `End`
     * at (h - 1, w - 1) (on a single cell, `End` overwrites `Start`), then the
     * whole grid divided with a random first orientation.
     */
    constructor (w: int, h: int)
      requires w >= 1 && h >= 1
      ensures Valid() && width == w && height == h
      ensures Generated(tiles, Splits(division), w, h)
      ensures DivisionOf(division, Rect(0, w - 1, 0, h - 1), true) || DivisionOf(division, Rect(0, w - 1, 0, h - 1), false)
    {
      var blank := EmptyGrid(w, h);
      MarkedGrid(blank, w, h);
      width := w;
      height := h;
      tiles := blank[(0, 0) := Start][(h - 1, w - 1) := End];
      new;
      ghost var marked := tiles;
      var coin: nat := *;
      ghost var t := GenerateMaze(0, w - 1, 0, h - 1, coin % 2 != 0);
      DivideMarked(marked, tiles, Splits(t), w, h);
      division := t;
    }

    /**
     * Divides the rectangle columns startWidth..endWidth by rows
     * startHeight..endHeight: a rectangle too thin to divide is left alone;
     * otherwise a wall line with one gap at an end is drawn strictly inside
     * it and both sides are divided with the other orientation. Only
     * non-corner cells of the rectangle change, each into a wall, and a
     * rectangle that held no wall ends connected.
     */
    method GenerateMaze(startWidth: int, endWidth: int, startHeight: int, endHeight: int, ver: bool)
      returns (ghost t: Division)
      requires Valid()
      requires 0 <= startWidth && endWidth < width && 0 <= startHeight && endHeight < height
      modifies this`tiles
      decreases (endWidth - startWidth) + (endHeight - startHeight)
      ensures Valid()
      ensures TooThin(Rect(startWidth, endWidth, startHeight, endHeight)) ==> tiles == old(tiles)
      ensures DivisionOf(t, Rect(startWidth, endWidth, startHeight, endHeight), ver)
      ensures Divided(old(tiles), tiles, Splits(t), Rect(startWidth, endWidth, startHeight, endHeight))
    {
      var r := Rect(startWidth, endWidth, startHeight, endHeight);
      if endWidth - startWidth <= 1 || endHeight - startHeight <= 1 {
        NotDivided(tiles, r);
        return Leaf;
      }
      var splitAt: int;
      var splitConnection: int;
      if ver {
        var rand: nat := *;
        splitAt := SplitAt(startWidth, endWidth, rand);
        var coin: nat := *;
        splitConnection := Gap(startHeight, endHeight, coin);
      } else {
        var rand: nat := *;
        splitAt := SplitAt(startHeight, endHeight, rand);
        var coin: nat := *;
        splitConnection := Gap(startWidth, endWidth, coin);
      }
      var s := Split(r, ver, splitAt, splitConnection);
      ghost var g0 := tiles;
      DrawLine(s);
      ghost var g1 := tiles;
      // vertical: columns startWidth..splitAt-1 and splitAt+1..endWidth;
      // horizontal: rows startHeight..splitAt-1 and splitAt+1..endHeight
      var (a, b) := s.Halves();
      ghost var ta := GenerateMaze(a.startWidth, a.endWidth, a.startHeight, a.endHeight, !ver);
      ghost var g2 := tiles;
      ghost var tb := GenerateMaze(b.startWidth, b.endWidth, b.startHeight, b.endHeight, !ver);
      DivisionStep(s, g0, g1, g2, tiles, Splits(ta), Splits(tb));
      t := Node(s, ta, tb);
    }

    /** Sets every cell of the split's line but the gap to `Wall`, walking the line from its first position. */
    method DrawLine(s: Split)
      requires Valid() && s.WellPlaced() && s.rect.Within(Bounds())
      modifies this`tiles
      ensures Valid()
      ensures LineDrawn(old(tiles), tiles, s)
    {
      var i := s.Lo();
      while i < s.Hi() + 1
        invariant s.Lo() <= i <= s.Hi() + 1
        invariant tiles.Keys == old(tiles).Keys
        invariant forall p :: p in tiles ==>
          tiles[p] == if s.OnLine(p) && s.Lo() <= s.Pos(p) < i && s.Pos(p) != s.gap then Wall else old(tiles)[p]
      {
        if i != s.gap {
          tiles := tiles[LineCell(s.ver, s.at, i) := Wall];
        }
        i := i + 1;
      }
      LineDrawnAlong(old(tiles), tiles, s);
    }

    function GetWidth(): (w: int)
      reads this
      requires Valid()
      ensures w >= 1 && w == width
    {
      width
    }

    function GetHeight(): (h: int)
      reads this
      requires Valid()
      ensures h >= 1 && h == height
    {
      height
    }

    /** The tile in column `x` of row `z`; `None` for a cell outside the grid (the source throws). */
    function GetTile(x: int, z: int): (t: Option<Tile>)
      reads this
      requires Valid()
      ensures t.Some? <==> 0 <= x < width && 0 <= z < height
      ensures t.Some? ==> t.value == tiles[(z, x)]
    {
      if (z, x) in tiles then Some(tiles[(z, x)]) else None
    }

    /**
     * The text picture of the maze: a border line of `width + 2` 'X', then
     * one line per row framed by 'X' with each tile drawn by `TileChar`,
     * then another border line.
     */
    method PrintMaze() returns (lines: seq<string>, ok: bool)
      requires Valid()
      ensures ok
      ensures |lines| == height + 2
      ensures forall k :: 0 <= k < |lines| ==> |lines[k]| == width + 2
      ensures forall j :: 0 <= j < width + 2 ==> lines[0][j] == 'X' && lines[height + 1][j] == 'X'
      ensures forall i :: 1 <= i <= height ==> lines[i][0] == 'X' && lines[i][width + 1] == 'X'
      ensures forall i, j :: 0 <= i < height && 0 <= j < width ==> lines[i + 1][j + 1] == TileChar(tiles[(i, j)])
    {
      var border := "";
      for i := 0 to width + 2
        invariant |border| == i && forall j :: 0 <= j < i ==> border[j] == 'X'
      {
        border := border + "X";
      }
      lines := [border];
      for i := 0 to height
        invariant |lines| == i + 1 && lines[0] == border
        invariant forall k :: 1 <= k <= i ==> |lines[k]| == width + 2 && lines[k][0] == 'X' && lines[k][width + 1] == 'X'
        invariant forall k, j :: 0 <= k < i && 0 <= j < width ==> lines[k + 1][j + 1] == TileChar(tiles[(k, j)])
      {
        var line := "X";
        for j := 0 to width
          invariant |line| == j + 1 && line[0] == 'X'
          invariant forall c :: 0 <= c < j ==> line[c + 1] == TileChar(tiles[(i, c)])
        {
          line := line + [TileChar(GetTile(j, i).value)];
        }
        lines := lines + [line + "X"];
      }
      lines := lines + [border];
      ok := true;
    }
  }

  /** Cell (x, z), column x of row z, comes before cell (x', z') when the grid is read row by row. */
  predicate RowMajorBefore(a: (int, int), b: (int, int)) {
    a.1 < b.1 || (a.1 == b.1 && a.0 < b.0)
  }

  /** Column x of row z holds tile `t`. */
  predicate TileAt(g: Tiles, x: int, z: int, t: Tile) {
    (z, x) in g && g[(z, x)] == t
  }

  /** `walls` lists, in reading order, the (column, row) of every wall read before `next`. */
  ghost predicate WallsBefore(g: Tiles, walls: seq<(int, int)>, next: (int, int)) {
    (forall k :: 0 <= k < |walls| ==> TileAt(g, walls[k].0, walls[k].1, Wall) && RowMajorBefore(walls[k], next)) &&
    (forall x, z :: RowMajorBefore((x, z), next) && TileAt(g, x, z, Wall) ==> (x, z) in walls) &&
    (forall k, l :: 0 <= k < l < |walls| ==> RowMajorBefore(walls[k], walls[l]))
  }

  /**
   * `endFlag` is the last `End` read before `next` when `found`, and (0, 0)
   * with no `End` read before `next` otherwise.
   */
  ghost predicate EndBefore(g: Tiles, endFlag: (int, int), found: bool, next: (int, int)) {
    (!found ==> endFlag == (0, 0) && forall x, z :: RowMajorBefore((x, z), next) ==> !TileAt(g, x, z, End)) &&
    (found ==> TileAt(g, endFlag.0, endFlag.1, End) && RowMajorBefore(endFlag, next) &&
               forall x, z :: RowMajorBefore((x, z), next) && RowMajorBefore(endFlag, (x, z)) ==> !TileAt(g, x, z, End))
  }

  /** Reading the cell in column `x` of row `z`: a wall is appended to the list. */
  lemma WallsStep(g: Tiles, walls: seq<(int, int)>, walls': seq<(int, int)>, x: int, z: int)
    requires WallsBefore(g, walls, (x, z)) && (z, x) in g
    requires walls' == if g[(z, x)] == Wall then walls + [(x, z)] else walls
    ensures WallsBefore(g, walls', (x + 1, z))
  {
  }

  /** Reading the cell in column `x` of row `z`: an `End` replaces the flag. */
  lemma EndStep(g: Tiles, endFlag: (int, int), found: bool, endFlag': (int, int), found': bool, x: int, z: int)
    requires EndBefore(g, endFlag, found, (x, z)) && (z, x) in g
    requires endFlag' == (if g[(z, x)] == End then (x, z) else endFlag)
    requires found' == (found || g[(z, x)] == End)
    ensures EndBefore(g, endFlag', found', (x + 1, z))
  {
  }

  /** Reading past the end of row `z` reads nothing more: the row has no cell there. */
  lemma RowDone(g: Tiles, walls: seq<(int, int)>, endFlag: (int, int), found: bool, w: int, h: int, z: int)
    requires GridCells(g, w, h) && WallsBefore(g, walls, (w, z)) && EndBefore(g, endFlag, found, (w, z))
    ensures WallsBefore(g, walls, (0, z + 1)) && EndBefore(g, endFlag, found, (0, z + 1))
  {
    forall x | w <= x
      ensures (z, x) !in g
    {
    }
  }

  /** `walls` lists the (column, row) of every wall of `g`, each once, in reading order. */
  ghost predicate WallList(g: Tiles, walls: seq<(int, int)>) {
    (forall k :: 0 <= k < |walls| ==> TileAt(g, walls[k].0, walls[k].1, Wall)) &&
    (forall x, z :: TileAt(g, x, z, Wall) ==> (x, z) in walls) &&
    (forall k, l :: 0 <= k < l < |walls| ==> RowMajorBefore(walls[k], walls[l]))
  }

  /** `endFlag` is the (column, row) of the last `End` of `g` in reading order, or (0, 0) when `g` holds none. */
  ghost predicate LastEnd(g: Tiles, endFlag: (int, int)) {
    (TileAt(g, endFlag.0, endFlag.1, End) && forall x, z :: RowMajorBefore(endFlag, (x, z)) ==> !TileAt(g, x, z, End)) ||
    (endFlag == (0, 0) && forall x, z :: !TileAt(g, x, z, End))
  }

  /** Having read every row of the grid, the scan has listed every wall and found the last `End`. */
  lemma ScanDone(g: Tiles, walls: seq<(int, int)>, endFlag: (int, int), found: bool, w: int, h: int)
    requires GridCells(g, w, h) && WallsBefore(g, walls, (0, h)) && EndBefore(g, endFlag, found, (0, h))
    ensures WallList(g, walls) && LastEnd(g, endFlag)
  {
    forall x, z | (z, x) in g
      ensures RowMajorBefore((x, z), (0, h))
    {
    }
  }

  /**
   * The walls of a finished maze are exactly the cells its division walls,
   * and, since no two lines share a cell, they number the sum over its
   * splits of the cells each line walls.
   */
  lemma WallTotal(g: Tiles, t: Division, w: int, h: int, ver: bool)
    requires Generated(g, Splits(t), w, h) && DivisionOf(t, Rect(0, w - 1, 0, h - 1), ver)
    ensures (set p | p in g && g[p] == Wall) == Walls(t)
    ensures |set p | p in g && g[p] == Wall| == WallCount(t)
  {
    WallsAreLines(t);
    WallsInside(t, Rect(0, w - 1, 0, h - 1), ver);
    WallsCounted(t, Rect(0, w - 1, 0, h - 1), ver);
  }

  /** In a finished maze the last `End` in reading order is the far corner, since it is the only one. */
  lemma GeneratedEnd(g: Tiles, done: seq<Split>, w: int, h: int, endFlag: (int, int))
    requires Generated(g, done, w, h) && LastEnd(g, endFlag)
    ensures endFlag == (w - 1, h - 1)
  {
    StartEndUnique(g, done, w, h);
    assert TileAt(g, w - 1, h - 1, End);
    assert (endFlag.1, endFlag.0) in (set p | p in g && g[p] == End);
  }

  /**
   * The scan the program makes of a new maze before drawing it: reading the
   * grid row by row, each row column by column, it lists the (column, row)
   * of every wall in reading order and keeps the (column, row) of the last
   * `End` it meets, or (0, 0) when it meets none (`GeneratedEnd`: in a
   * generated maze that is the far corner).
   */
  method ScanMaze(m: Maze) returns (walls: seq<(int, int)>, endFlag: (int, int))
    requires m.Valid()
    ensures WallList(m.tiles, walls)
    ensures LastEnd(m.tiles, endFlag)
  {
    walls := [];
    endFlag := (0, 0);
    ghost var found := false;
    for i := 0 to m.GetHeight()
      invariant WallsBefore(m.tiles, walls, (0, i))
      invariant EndBefore(m.tiles, endFlag, found, (0, i))
    {
      walls, endFlag, found := ScanRow(m, i, walls, endFlag, found);
    }
    ScanDone(m.tiles, walls, endFlag, found, m.width, m.height);
  }

  /** The inner loop of the scan: reads row `i` column by column, appending its walls and taking its `End`. */
  method ScanRow(m: Maze, i: int, walls: seq<(int, int)>, endFlag: (int, int), ghost found: bool)
    returns (walls': seq<(int, int)>, endFlag': (int, int), ghost found': bool)
    requires m.Valid() && 0 <= i < m.height
    requires WallsBefore(m.tiles, walls, (0, i)) && EndBefore(m.tiles, endFlag, found, (0, i))
    ensures WallsBefore(m.tiles, walls', (0, i + 1)) && EndBefore(m.tiles, endFlag', found', (0, i + 1))
  {
    walls', endFlag', found' := walls, endFlag, found;
    for j := 0 to m.GetWidth()
      invariant WallsBefore(m.tiles, walls', (j, i))
      invariant EndBefore(m.tiles, endFlag', found', (j, i))
    {
      ghost var walls0, endFlag0, found0 := walls', endFlag', found';
      var t := m.GetTile(j, i).value;
      if t == Wall {
        walls' := walls' + [(j, i)];
      }
      if t == End {
        endFlag' := (j, i);
        found' := true;
      }
      WallsStep(m.tiles, walls0, walls', j, i);
      EndStep(m.tiles, endFlag0, found0, endFlag', found', j, i);
    }
    RowDone(m.tiles, walls', endFlag', found', m.width, m.height, i);
  }
}
