/**
 * One step of the recursive division performed by `generateMaze`: where the
 * split line goes, where its gap goes, which cells become walls, and the two
 * rectangles the recursion continues on.
 */
module Partition {
  import opened Grid

  /** The base case of `generateMaze`: the rectangle is too thin to be divided. */
  predicate TooThin(r: Rect) {
    r.endWidth - r.startWidth <= 1 || r.endHeight - r.startHeight <= 1
  }

  /**
   * The split position `lo + 1 + rand() % (hi - lo - 1)` for any value the
   * random source draws: always strictly between `lo` and `hi`.
   */
  function SplitAt(lo: int, hi: int, rand: nat): (at: int)
    requires hi - lo > 1
    ensures lo < at < hi
  {
    lo + 1 + rand % (hi - lo - 1)
  }

  /** Every position strictly between `lo` and `hi` is drawn by some value of the random source. */
  lemma SplitAtReachesAll(lo: int, hi: int, at: int)
    requires lo < at < hi
    ensures exists rand: nat :: SplitAt(lo, hi, rand) == at
  {
    assert SplitAt(lo, hi, at - lo - 1) == at;
  }

  /** The gap position chosen by a coin `rand() % 2`: the far end on 0, the near end otherwise. */
  function Gap(lo: int, hi: int, coin: nat): (gap: int)
    ensures gap == lo || gap == hi
    ensures coin % 2 == 0 ==> gap == hi
  {
    if coin % 2 == 0 then hi else lo
  }

  /** Position `i` along a line at `at`: row `i` of column `at` if vertical, column `i` of row `at` if not. */
  function LineCell(ver: bool, at: int, i: int): (p: Cell) {
    if ver then (i, at) else (at, i)
  }

  /** The cells at positions lo..hi along a line. */
  function Segment(ver: bool, at: int, lo: int, hi: int): (cells: set<Cell>) {
    set i | lo <= i <= hi :: LineCell(ver, at, i)
  }

  lemma {:induction false} SegmentSize(ver: bool, at: int, lo: int, hi: int)
    requires lo <= hi + 1
    ensures |Segment(ver, at, lo, hi)| == hi - lo + 1
    decreases hi - lo
  {
    if lo == hi + 1 {
      assert Segment(ver, at, lo, hi) == {};
    } else {
      SegmentSize(ver, at, lo, hi - 1);
      assert Segment(ver, at, lo, hi) == Segment(ver, at, lo, hi - 1) + {LineCell(ver, at, hi)};
      assert LineCell(ver, at, hi) !in Segment(ver, at, lo, hi - 1);
    }
  }

  /**
   * One split of a rectangle: orientation `ver` (a wall column if true, a
   * wall row if false), the split position `at` and the gap position `gap`
   * along the line.
   */
  datatype Split = Split(rect: Rect, ver: bool, at: int, gap: int)
  {
    /** First position along the line. */
    function Lo(): (lo: int) {
      if ver then rect.startHeight else rect.startWidth
    }

    /** Last position along the line. */
    function Hi(): (hi: int) {
      if ver then rect.endHeight else rect.endWidth
    }

    /** The split line crosses the rectangle strictly inside it and the gap sits at one of its ends. */
    predicate WellPlaced() {
      !TooThin(rect) &&
      (if ver then rect.startWidth < at < rect.endWidth else rect.startHeight < at < rect.endHeight) &&
      (gap == Lo() || gap == Hi())
    }

    /** The cell lies on the split line (inside the rectangle or not). */
    predicate OnLine(p: Cell) {
      if ver then p.1 == at else p.0 == at
    }

    /** The position of a cell along the line's direction (its row if vertical, its column if not). */
    function Pos(p: Cell): (i: int) {
      if ver then p.0 else p.1
    }

    function GapCell(): (p: Cell) {
      LineCell(ver, at, gap)
    }

    /** The cells the split turns into walls: the whole line across the rectangle but the gap. */
    function Line(): (cells: set<Cell>) {
      set i | Lo() <= i <= Hi() && i != gap :: LineCell(ver, at, i)
    }

    /** The two sub-rectangles on either side of the line. */
    function Halves(): (h: (Rect, Rect))
      requires WellPlaced()
      ensures h.0.NonEmpty() && h.1.NonEmpty()
      ensures h.0.Within(rect) && h.1.Within(rect)
      ensures 0 <= h.0.Extent() < rect.Extent() && 0 <= h.1.Extent() < rect.Extent()
      ensures forall p :: !(h.0.Contains(p) && h.1.Contains(p))
      ensures forall p :: OnLine(p) ==> !h.0.Contains(p) && !h.1.Contains(p)
      ensures forall p :: rect.Contains(p) ==> h.0.Contains(p) || h.1.Contains(p) || OnLine(p)
      ensures h.0.IsCorner(LineCell(ver, at - 1, gap)) && h.1.IsCorner(LineCell(ver, at + 1, gap))
    {
      if ver then
        (Rect(rect.startWidth, at - 1, rect.startHeight, rect.endHeight),
         Rect(at + 1, rect.endWidth, rect.startHeight, rect.endHeight))
      else
        (Rect(rect.startWidth, rect.endWidth, rect.startHeight, at - 1),
         Rect(rect.startWidth, rect.endWidth, at + 1, rect.endHeight))
    }
  }

  /**
   * The wall line of a well-placed split lies inside the rectangle, misses
   * its corners and the gap, and holds one cell fewer than the line across:
   * `endHeight - startHeight` cells for a vertical split,
   * `endWidth - startWidth` for a horizontal one.
   */
  lemma LineShape(s: Split)
    requires s.WellPlaced()
    ensures forall p :: p in s.Line() ==> s.rect.Contains(p) && !s.rect.IsCorner(p) && s.OnLine(p)
    ensures s.rect.Contains(s.GapCell()) && s.OnLine(s.GapCell()) && s.GapCell() !in s.Line()
    ensures forall p :: s.rect.Contains(p) && s.OnLine(p) ==> p in s.Line() || p == s.GapCell()
    ensures |s.Line()| == s.Hi() - s.Lo()
  {
    var whole := Segment(s.ver, s.at, s.Lo(), s.Hi());
    SegmentSize(s.ver, s.at, s.Lo(), s.Hi());
    assert s.Line() == whole - {s.GapCell()};
    assert whole == s.Line() + {s.GapCell()};
    forall p | s.rect.Contains(p) && s.OnLine(p)
      ensures p in s.Line() || p == s.GapCell()
    {
      assert p == LineCell(s.ver, s.at, s.Pos(p));
    }
  }

  /** A cell is on the wall line exactly when it is on the split line, between its ends, and not the gap. */
  lemma LineMembers(s: Split)
    ensures forall p :: p in s.Line() <==> s.OnLine(p) && s.Lo() <= s.Pos(p) <= s.Hi() && s.Pos(p) != s.gap
  {
    forall p | s.OnLine(p)
      ensures p == LineCell(s.ver, s.at, s.Pos(p))
    {
    }
  }

  /**
   * `h` differs from `g` only in non-corner cells of `r`, each of which
   * became a wall; both have the same cells.
   */
  ghost predicate WallsOnlyIn(g: Tiles, h: Tiles, r: Rect) {
    h.Keys == g.Keys &&
    forall p :: p in h && h[p] != g[p] ==> r.Contains(p) && !r.IsCorner(p) && h[p] == Wall
  }

  /** `h` is `g` with the cells of the split's line set to wall. */
  ghost predicate LineDrawn(g: Tiles, h: Tiles, s: Split) {
    h.Keys == g.Keys && s.Line() <= g.Keys &&
    forall p :: p in h ==> h[p] == if p in s.Line() then Wall else g[p]
  }

  /**
   * Walling every position of the line from its first to its last, except
   * the gap, draws the split's line.
   */
  lemma LineDrawnAlong(g: Tiles, h: Tiles, s: Split)
    requires h.Keys == g.Keys
    requires forall p :: s.OnLine(p) && s.Lo() <= s.Pos(p) <= s.Hi() ==> p in g
    requires forall p :: p in h ==>
      h[p] == if s.OnLine(p) && s.Lo() <= s.Pos(p) <= s.Hi() && s.Pos(p) != s.gap then Wall else g[p]
    ensures LineDrawn(g, h, s)
  {
    LineMembers(s);
  }

  /**
   * When the rectangle held no wall, each half still holds none when its
   * own division starts: the line lies outside both halves, and the first
   * half's division changes nothing in the second.
   */
  lemma HalvesClear(s: Split, g0: Tiles, g1: Tiles, g2: Tiles)
    requires s.WellPlaced() && NoWall(g0, s.rect)
    requires LineDrawn(g0, g1, s)
    requires WallsOnlyIn(g1, g2, s.Halves().0)
    ensures NoWall(g1, s.Halves().0) && NoWall(g2, s.Halves().1)
  {
    var (a, b) := s.Halves();
    LineShape(s);
    forall p | a.Contains(p) ensures Open(g1, p) {
      assert s.rect.Contains(p) && p !in s.Line();
    }
    forall p | b.Contains(p) ensures Open(g2, p) {
      assert s.rect.Contains(p) && p !in s.Line();
    }
  }

  /** One full step (line, first half, second half) changes nothing but non-corner cells of the rectangle, each into a wall. */
  lemma SplitWallsOnly(s: Split, g0: Tiles, g1: Tiles, g2: Tiles, g3: Tiles)
    requires s.WellPlaced()
    requires LineDrawn(g0, g1, s)
    requires WallsOnlyIn(g1, g2, s.Halves().0)
    requires WallsOnlyIn(g2, g3, s.Halves().1)
    ensures WallsOnlyIn(g0, g3, s.rect)
  {
    var r := s.rect;
    var (a, b) := s.Halves();
    LineShape(s);
    forall p | p in g3 && g3[p] != g0[p]
      ensures r.Contains(p) && !r.IsCorner(p) && g3[p] == Wall
    {
      if g3[p] != g2[p] {
        assert b.Contains(p) && !b.IsCorner(p);
      } else if g2[p] != g1[p] {
        assert a.Contains(p) && !a.IsCorner(p);
      } else {
        assert p in s.Line();
      }
    }
  }

  /**
   * One full step of the division keeps connectivity: the line is drawn
   * (`g0` to `g1`), the first half is divided (`g1` to `g2`), then the second
   * (`g2` to `g3`). If the rectangle held no wall before and each half's
   * division leaves its half connected, the rectangle ends connected.
   */
  lemma SplitKeepsConnected(s: Split, g0: Tiles, g1: Tiles, g2: Tiles, g3: Tiles)
    requires s.WellPlaced()
    requires LineDrawn(g0, g1, s)
    requires WallsOnlyIn(g1, g2, s.Halves().0)
    requires WallsOnlyIn(g2, g3, s.Halves().1)
    requires NoWall(g1, s.Halves().0) ==> Connected(g2, s.Halves().0)
    requires NoWall(g2, s.Halves().1) ==> Connected(g3, s.Halves().1)
    requires NoWall(g0, s.rect)
    ensures Connected(g3, s.rect)
  {
    var r := s.rect;
    var (a, b) := s.Halves();
    LineShape(s);
    HalvesClear(s, g0, g1, g2);
    assert SameOpen(g2, g3, a);
    ConnectedFrame(g2, g3, a);
    var gap := s.GapCell();
    var ca := LineCell(s.ver, s.at - 1, s.gap);
    var cb := LineCell(s.ver, s.at + 1, s.gap);
    assert a.Contains(ca) && r.Contains(ca) && b.Contains(cb) && r.Contains(cb);
    assert g3[ca] == g0[ca];
    assert g3[cb] == g0[cb];
    assert g3[gap] == g0[gap];
    JoinHalves(g3, r, a, b, gap, ca, cb);
  }

  /** Every recorded split is well placed inside `r`. */
  ghost predicate SplitsWithin(done: seq<Split>, r: Rect) {
    forall s :: s in done ==> s.WellPlaced() && s.rect.Within(r)
  }

  /** Every cell of every recorded line is a wall in `g`. */
  ghost predicate LinesWalled(g: Tiles, done: seq<Split>) {
    forall s, p :: s in done && p in s.Line() ==> p in g && g[p] == Wall
  }

  /** Every cell that differs between `g` and `h` lies on a recorded line. */
  ghost predicate ChangesOnLines(g: Tiles, h: Tiles, done: seq<Split>) {
    forall p :: p in g && p in h && h[p] != g[p] ==> exists s :: s in done && p in s.Line()
  }

  /** The gap of every recorded split is passable in `g`. */
  ghost predicate GapsOpen(g: Tiles, done: seq<Split>) {
    forall s :: s in done ==> Open(g, s.GapCell())
  }

  /**
   * The record of one full step (the split `s`, then the splits made in its
   * first half `da`, then those made in its second half `db`) lies in the
   * rectangle, and all its lines end up walls.
   */
  lemma SplitRecordWalled(s: Split, g1: Tiles, g2: Tiles, g3: Tiles, da: seq<Split>, db: seq<Split>)
    requires s.WellPlaced()
    requires s.Line() <= g1.Keys && forall p :: p in s.Line() ==> g1[p] == Wall
    requires WallsOnlyIn(g1, g2, s.Halves().0) && WallsOnlyIn(g2, g3, s.Halves().1)
    requires SplitsWithin(da, s.Halves().0) && SplitsWithin(db, s.Halves().1)
    requires LinesWalled(g2, da) && LinesWalled(g3, db)
    ensures SplitsWithin([s] + da + db, s.rect)
    ensures LinesWalled(g3, [s] + da + db)
  {
    var done := [s] + da + db;
    forall t, p | t in done && p in t.Line()
      ensures p in g3 && g3[p] == Wall
    {
      if t in da {
        assert p in g2 && g2[p] == Wall;
      } else if t in db {
      } else {
        assert t == s;
        assert p in g1 && g1[p] == Wall;
        assert g2[p] == Wall;
      }
    }
  }

  /** Every cell a full step changes lies on the line of one of the splits it records. */
  lemma SplitRecordChanges(s: Split, g0: Tiles, g1: Tiles, g2: Tiles, g3: Tiles, da: seq<Split>, db: seq<Split>)
    requires LineDrawn(g0, g1, s) && g2.Keys == g1.Keys && g3.Keys == g2.Keys
    requires ChangesOnLines(g1, g2, da) && ChangesOnLines(g2, g3, db)
    ensures ChangesOnLines(g0, g3, [s] + da + db)
  {
    var done := [s] + da + db;
    forall p | p in g0 && p in g3 && g3[p] != g0[p]
      ensures exists t :: t in done && p in t.Line()
    {
      if g1[p] != g0[p] {
        assert s in done && p in s.Line();
      } else if g2[p] != g1[p] {
        var t :| t in da && p in t.Line();
        assert t in done;
      } else {
        var t :| t in db && p in t.Line();
        assert t in done;
      }
    }
  }

  /** When the rectangle started without walls, every gap a full step records is still passable at its end. */
  lemma SplitRecordGaps(s: Split, g0: Tiles, g1: Tiles, g2: Tiles, g3: Tiles, da: seq<Split>, db: seq<Split>)
    requires s.WellPlaced()
    requires LineDrawn(g0, g1, s)
    requires WallsOnlyIn(g1, g2, s.Halves().0) && WallsOnlyIn(g2, g3, s.Halves().1)
    requires SplitsWithin(da, s.Halves().0)
    requires NoWall(g1, s.Halves().0) ==> GapsOpen(g2, da)
    requires NoWall(g2, s.Halves().1) ==> GapsOpen(g3, db)
    requires NoWall(g0, s.rect)
    ensures GapsOpen(g3, [s] + da + db)
  {
    var r := s.rect;
    var (a, b) := s.Halves();
    var done := [s] + da + db;
    LineShape(s);
    HalvesClear(s, g0, g1, g2);
    forall t | t in done
      ensures Open(g3, t.GapCell())
    {
      if t in da {
        LineShape(t);
        assert a.Contains(t.GapCell());
      } else if t in db {
      } else {
        assert t == s;
        assert g3[s.GapCell()] == g0[s.GapCell()];
      }
    }
  }

  /**
   * `h` is `g` after the division of `r` recorded in `done`: only non-corner
   * cells of `r` changed, each into a wall and each on a recorded line; every
   * recorded split is well placed inside `r` and its line is all walls; and
   * if `r` held no wall in `g`, it is connected in `h` with every gap open.
   */
  ghost predicate Divided(g: Tiles, h: Tiles, done: seq<Split>, r: Rect) {
    WallsOnlyIn(g, h, r) && SplitsWithin(done, r) && LinesWalled(h, done) && ChangesOnLines(g, h, done) &&
    (NoWall(g, r) ==> Connected(h, r) && GapsOpen(h, done))
  }

  /** A rectangle that is left alone counts as divided, with no splits. */
  lemma NotDivided(g: Tiles, r: Rect)
    ensures Divided(g, g, [], r)
  {
    if NoWall(g, r) {
      NoWallConnected(g, r);
    }
  }

  /**
   * Drawing the line of `s` (`g0` to `g1`) and dividing its two halves in
   * turn (`g1` to `g2`, then `g2` to `g3`) divides the whole rectangle, with
   * the record `s` followed by the records of the halves.
   */
  lemma DivisionStep(s: Split, g0: Tiles, g1: Tiles, g2: Tiles, g3: Tiles, da: seq<Split>, db: seq<Split>)
    requires s.WellPlaced()
    requires LineDrawn(g0, g1, s)
    requires Divided(g1, g2, da, s.Halves().0)
    requires Divided(g2, g3, db, s.Halves().1)
    ensures Divided(g0, g3, [s] + da + db, s.rect)
  {
    SplitWallsOnly(s, g0, g1, g2, g3);
    SplitRecordWalled(s, g1, g2, g3, da, db);
    SplitRecordChanges(s, g0, g1, g2, g3, da, db);
    if NoWall(g0, s.rect) {
      SplitKeepsConnected(s, g0, g1, g2, g3);
      SplitRecordGaps(s, g0, g1, g2, g3, da, db);
    }
  }

  /**
   * The shape of one run of `generateMaze` on a rectangle: `Leaf` when it
   * returns at once, or the split it makes followed by the runs on its first
   * and its second half.
   */
  datatype Division = Leaf | Node(split: Split, first: Division, second: Division)

  /** The splits of a division in the order `generateMaze` makes them: this one, then the first half's, then the second half's. */
  function Splits(t: Division): (done: seq<Split>)
  {
    match t
    case Leaf => []
    case Node(s, a, b) => [s] + Splits(a) + Splits(b)
  }

  /**
   * `t` is a division `generateMaze` makes of `r` when called with
   * orientation `ver`: nothing when `r` is too thin; otherwise a well-placed
   * split of `r` with orientation `ver`, then each half divided with the
   * other orientation.
   */
  ghost predicate DivisionOf(t: Division, r: Rect, ver: bool)
    decreases t
  {
    if TooThin(r) then t == Leaf
    else
      t.Node? && t.split.rect == r && t.split.ver == ver && t.split.WellPlaced() &&
      DivisionOf(t.first, t.split.Halves().0, !ver) && DivisionOf(t.second, t.split.Halves().1, !ver)
  }

  /** Every cell the division walls. */
  ghost function Walls(t: Division): (cells: set<Cell>)
  {
    match t
    case Leaf => {}
    case Node(s, a, b) => s.Line() + Walls(a) + Walls(b)
  }

  /** The walls the source's loops write, added up split by split: `Hi() - Lo()` for each. */
  function WallCount(t: Division): (n: int)
  {
    match t
    case Leaf => 0
    case Node(s, a, b) => (s.Hi() - s.Lo()) + WallCount(a) + WallCount(b)
  }

  /** A cell is walled by a division exactly when it lies on the line of one of its splits. */
  lemma {:induction false} WallsAreLines(t: Division)
    ensures forall p :: p in Walls(t) <==> exists s :: s in Splits(t) && p in s.Line()
    decreases t
  {
    if t.Node? {
      var s, a, b := t.split, t.first, t.second;
      WallsAreLines(a);
      WallsAreLines(b);
      assert Splits(t) == [s] + Splits(a) + Splits(b);
      assert Walls(t) == s.Line() + Walls(a) + Walls(b);
      forall p | p in Walls(t)
        ensures exists u :: u in Splits(t) && p in u.Line()
      {
        if p in s.Line() {
          assert s in Splits(t);
        } else if p in Walls(a) {
          var u :| u in Splits(a) && p in u.Line();
          assert u in Splits(t);
        } else {
          assert p in Walls(b);
          var u :| u in Splits(b) && p in u.Line();
          assert u in Splits(t);
        }
      }
      forall p, u | u in Splits(t) && p in u.Line()
        ensures p in Walls(t)
      {
        if u in Splits(a) {
          assert p in Walls(a);
        } else if u in Splits(b) {
          assert p in Walls(b);
        } else {
          assert u == s;
        }
      }
    }
  }

  /** Every cell a division of `r` walls lies in `r`. */
  lemma {:induction false} WallsInside(t: Division, r: Rect, ver: bool)
    requires DivisionOf(t, r, ver)
    ensures forall p :: p in Walls(t) ==> r.Contains(p)
    decreases t
  {
    if t.Node? {
      var s := t.split;
      WallsInside(t.first, s.Halves().0, !ver);
      WallsInside(t.second, s.Halves().1, !ver);
      forall p | p in Walls(t)
        ensures r.Contains(p)
      {
        if p in s.Line() {
          LineShape(s);
        } else if p in Walls(t.first) {
          assert s.Halves().0.Contains(p);
        } else {
          assert s.Halves().1.Contains(p);
        }
      }
    }
  }

  /** The line of a split and the walls of its two halves are three sets that share no cell. */
  lemma WallsApart(t: Division, r: Rect, ver: bool)
    requires DivisionOf(t, r, ver) && t.Node?
    ensures t.split.Line() !! Walls(t.first) && t.split.Line() !! Walls(t.second)
    ensures Walls(t.first) !! Walls(t.second)
  {
    var s := t.split;
    var (a, b) := s.Halves();
    WallsInside(t.first, a, !ver);
    WallsInside(t.second, b, !ver);
    LineShape(s);
    forall p | p in s.Line()
      ensures !a.Contains(p) && !b.Contains(p)
    {
    }
  }

  /** The line of every split of a division is among its walls. */
  lemma {:induction false} LinesInWalls(t: Division)
    ensures forall u :: u in Splits(t) ==> u.Line() <= Walls(t)
    decreases t
  {
    if t.Node? {
      LinesInWalls(t.first);
      LinesInWalls(t.second);
      assert Splits(t) == [t.split] + Splits(t.first) + Splits(t.second);
    }
  }

  /** Parts of two sets that share no cell share no cell. */
  lemma SubsetsApart(x: set<Cell>, y: set<Cell>, xs: set<Cell>, ys: set<Cell>)
    requires x <= xs && y <= ys && xs !! ys
    ensures x !! y
  {
    forall p | p in x
      ensures p !in y
    {
      assert p in xs;
    }
  }

  /**
   * A split followed by two records whose lines are each pairwise apart, lie
   * in two sets apart from each other and from the split's line, is a record
   * whose lines are pairwise apart.
   */
  lemma RecordLinesApart(s: Split, da: seq<Split>, db: seq<Split>, wa: set<Cell>, wb: set<Cell>)
    requires forall i, j :: 0 <= i < j < |da| ==> da[i].Line() !! da[j].Line()
    requires forall i, j :: 0 <= i < j < |db| ==> db[i].Line() !! db[j].Line()
    requires forall u :: u in da ==> u.Line() <= wa
    requires forall u :: u in db ==> u.Line() <= wb
    requires s.Line() !! wa && s.Line() !! wb && wa !! wb
    ensures forall i, j :: 0 <= i < j < |[s] + da + db| ==> ([s] + da + db)[i].Line() !! ([s] + da + db)[j].Line()
  {
    var all := [s] + da + db;
    forall i, j | 0 <= i < j < |all|
      ensures all[i].Line() !! all[j].Line()
    {
      if i == 0 {
        if j <= |da| {
          assert all[j] == da[j - 1];
          SubsetsApart(s.Line(), all[j].Line(), s.Line(), wa);
        } else {
          assert all[j] == db[j - 1 - |da|];
          SubsetsApart(s.Line(), all[j].Line(), s.Line(), wb);
        }
      } else if j <= |da| {
        assert all[i] == da[i - 1] && all[j] == da[j - 1];
      } else if i > |da| {
        assert all[i] == db[i - 1 - |da|] && all[j] == db[j - 1 - |da|];
      } else {
        assert all[i] == da[i - 1] && all[j] == db[j - 1 - |da|];
        SubsetsApart(all[i].Line(), all[j].Line(), wa, wb);
      }
    }
  }

  /** The lines of two different splits of one division never share a cell. */
  lemma {:induction false} LinesDisjoint(t: Division, r: Rect, ver: bool)
    requires DivisionOf(t, r, ver)
    ensures forall i, j :: 0 <= i < j < |Splits(t)| ==> Splits(t)[i].Line() !! Splits(t)[j].Line()
    decreases t
  {
    if t.Node? {
      LinesDisjoint(t.first, t.split.Halves().0, !ver);
      LinesDisjoint(t.second, t.split.Halves().1, !ver);
      WallsApart(t, r, ver);
      LinesInWalls(t.first);
      LinesInWalls(t.second);
      RecordLinesApart(t.split, Splits(t.first), Splits(t.second), Walls(t.first), Walls(t.second));
    }
  }

  /** The walls of a division number exactly the walls its loops write: no line crosses another. */
  lemma {:induction false} WallsCounted(t: Division, r: Rect, ver: bool)
    requires DivisionOf(t, r, ver)
    ensures |Walls(t)| == WallCount(t)
    decreases t
  {
    if t.Node? {
      var s := t.split;
      WallsCounted(t.first, s.Halves().0, !ver);
      WallsCounted(t.second, s.Halves().1, !ver);
      WallsApart(t, r, ver);
      LineShape(s);
      assert |Walls(t.first) + Walls(t.second)| == WallCount(t.first) + WallCount(t.second);
    }
  }
}
