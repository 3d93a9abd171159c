/**
 * Tiles, cells and rectangles of the maze grid, and what it means for the
 * passable cells of a rectangle to be connected.
 */
module Grid {

  /** The four kinds of grid cell (the source's enum `mazeTiles`). */
  datatype Tile = Empty | Wall | Start | End

  /** A cell address (row, column): the row runs over the height, the column over the width. */
  type Cell = (int, int)

  /** The grid storage: one tile per cell address. */
  type Tiles = map<Cell, Tile>

  datatype Option<T> = None | Some(value: T)

  /**
   * A rectangle of cells with inclusive bounds, named as the parameters of
   * `generateMaze`: columns startWidth..endWidth, rows startHeight..endHeight.
   */
  datatype Rect = Rect(startWidth: int, endWidth: int, startHeight: int, endHeight: int)
  {
    predicate Contains(p: Cell) {
      startHeight <= p.0 <= endHeight && startWidth <= p.1 <= endWidth
    }

    predicate IsCorner(p: Cell) {
      (p.0 == startHeight || p.0 == endHeight) && (p.1 == startWidth || p.1 == endWidth)
    }

    predicate Within(outer: Rect) {
      outer.startWidth <= startWidth && endWidth <= outer.endWidth &&
      outer.startHeight <= startHeight && endHeight <= outer.endHeight
    }

    predicate NonEmpty() {
      startWidth <= endWidth && startHeight <= endHeight
    }

    /** The measure that every recursive call of `generateMaze` decreases. */
    function Extent(): (n: int) {
      (endWidth - startWidth) + (endHeight - startHeight)
    }
  }

  /** A cell that exists in the grid and can be walked on. */
  predicate Open(g: Tiles, p: Cell) {
    p in g && g[p] != Wall
  }

  /** Two cells that share a side (4-neighbourhood). */
  predicate Adjacent(p: Cell, q: Cell) {
    (p.0 == q.0 && (p.1 == q.1 + 1 || q.1 == p.1 + 1)) ||
    (p.1 == q.1 && (p.0 == q.0 + 1 || q.0 == p.0 + 1))
  }

  /** Every cell of `r` exists in `g` and none of them is a wall. */
  ghost predicate NoWall(g: Tiles, r: Rect) {
    forall p :: r.Contains(p) ==> Open(g, p)
  }

  /** The cells of `r` are open in `g` exactly when they are open in `h`. */
  ghost predicate SameOpen(g: Tiles, h: Tiles, r: Rect) {
    forall p :: r.Contains(p) ==> (Open(g, p) <==> Open(h, p))
  }

  /** `path` walks from `p` to `q` through open cells of `r`, one side-step at a time. */
  ghost predicate IsPath(g: Tiles, r: Rect, path: seq<Cell>, p: Cell, q: Cell) {
    |path| > 0 && path[0] == p && path[|path| - 1] == q &&
    (forall i :: 0 <= i < |path| ==> r.Contains(path[i]) && Open(g, path[i])) &&
    (forall i :: 0 <= i < |path| - 1 ==> Adjacent(path[i], path[i + 1]))
  }

  ghost predicate Connects(g: Tiles, r: Rect, p: Cell, q: Cell) {
    exists path :: IsPath(g, r, path, p, q)
  }

  /** Every two open cells of `r` are joined by a path that stays inside `r`. */
  ghost predicate Connected(g: Tiles, r: Rect) {
    forall p, q :: r.Contains(p) && r.Contains(q) && Open(g, p) && Open(g, q) ==> Connects(g, r, p, q)
  }

  lemma ConnectsRefl(g: Tiles, r: Rect, p: Cell)
    requires r.Contains(p) && Open(g, p)
    ensures Connects(g, r, p, p)
  {
    assert IsPath(g, r, [p], p, p);
  }

  lemma ConnectsStep(g: Tiles, r: Rect, p: Cell, q: Cell)
    requires r.Contains(p) && Open(g, p) && r.Contains(q) && Open(g, q) && Adjacent(p, q)
    ensures Connects(g, r, p, q)
  {
    assert IsPath(g, r, [p, q], p, q);
  }

  /** A path walked backwards is a path. */
  lemma ConnectsSymmetric(g: Tiles, r: Rect, p: Cell, q: Cell)
    requires Connects(g, r, p, q)
    ensures Connects(g, r, q, p)
  {
    var path :| IsPath(g, r, path, p, q);
    var n := |path|;
    var back := seq(n, i requires 0 <= i < n => path[n - 1 - i]);
    forall i | 0 <= i < n - 1
      ensures Adjacent(back[i], back[i + 1])
    {
      var j := n - 2 - i;
      assert Adjacent(path[j], path[j + 1]);
    }
    assert IsPath(g, r, back, q, p);
  }

  /** Two paths that meet in `q` make one path. */
  lemma ConnectsTrans(g: Tiles, r: Rect, p: Cell, q: Cell, s: Cell)
    requires Connects(g, r, p, q) && Connects(g, r, q, s)
    ensures Connects(g, r, p, s)
  {
    var a :| IsPath(g, r, a, p, q);
    var b :| IsPath(g, r, b, q, s);
    var ab := a + b[1..];
    forall i | 0 <= i < |ab| - 1
      ensures Adjacent(ab[i], ab[i + 1])
    {
      if i < |a| - 1 {
        assert ab[i] == a[i] && ab[i + 1] == a[i + 1];
      } else {
        var j := i - |a| + 1;
        assert ab[i] == b[j] && ab[i + 1] == b[j + 1];
      }
    }
    assert IsPath(g, r, ab, p, s);
  }

  /** A path inside a rectangle is a path inside every rectangle around it. */
  lemma ConnectsWiden(g: Tiles, r: Rect, outer: Rect, p: Cell, q: Cell)
    requires r.Within(outer) && Connects(g, r, p, q)
    ensures Connects(g, outer, p, q)
  {
    var path :| IsPath(g, r, path, p, q);
    assert IsPath(g, outer, path, p, q);
  }

  /** Connectivity of `r` depends only on which cells of `r` are open. */
  lemma ConnectedFrame(g: Tiles, h: Tiles, r: Rect)
    requires Connected(g, r) && SameOpen(g, h, r)
    ensures Connected(h, r)
  {
    forall p, q | r.Contains(p) && r.Contains(q) && Open(h, p) && Open(h, q)
      ensures Connects(h, r, p, q)
    {
      var path :| IsPath(g, r, path, p, q);
      assert IsPath(h, r, path, p, q);
    }
  }

  /** In a rectangle without walls, any open cell reaches any other (column first, then row). */
  lemma {:induction false} WalkConnects(g: Tiles, r: Rect, p: Cell, q: Cell)
    requires NoWall(g, r) && r.Contains(p) && r.Contains(q)
    ensures Connects(g, r, p, q)
    decreases (if p.0 <= q.0 then q.0 - p.0 else p.0 - q.0) + (if p.1 <= q.1 then q.1 - p.1 else p.1 - q.1)
  {
    if p == q {
      ConnectsRefl(g, r, p);
    } else {
      var next: Cell :=
        if p.1 < q.1 then (p.0, p.1 + 1)
        else if p.1 > q.1 then (p.0, p.1 - 1)
        else if p.0 < q.0 then (p.0 + 1, p.1)
        else (p.0 - 1, p.1);
      ConnectsStep(g, r, p, next);
      WalkConnects(g, r, next, q);
      ConnectsTrans(g, r, p, next, q);
    }
  }

  /** A rectangle without walls is connected: the base case of the partition. */
  lemma NoWallConnected(g: Tiles, r: Rect)
    requires NoWall(g, r)
    ensures Connected(g, r)
  {
    forall p, q | r.Contains(p) && r.Contains(q) && Open(g, p) && Open(g, q)
      ensures Connects(g, r, p, q)
    {
      WalkConnects(g, r, p, q);
    }
  }

  /**
   * The joining step: two connected halves of `r`, and an open `gap` cell
   * beside an open cell of each half, make `r` connected, provided every open
   * cell of `r` lies in one of the halves or is the gap.
   */
  lemma JoinHalves(g: Tiles, r: Rect, a: Rect, b: Rect, gap: Cell, ca: Cell, cb: Cell)
    requires a.Within(r) && b.Within(r) && Connected(g, a) && Connected(g, b)
    requires r.Contains(gap) && Open(g, gap)
    requires a.Contains(ca) && Open(g, ca) && Adjacent(ca, gap)
    requires b.Contains(cb) && Open(g, cb) && Adjacent(gap, cb)
    requires forall p :: r.Contains(p) && Open(g, p) ==> a.Contains(p) || b.Contains(p) || p == gap
    ensures Connected(g, r)
  {
    forall p | r.Contains(p) && Open(g, p)
      ensures Connects(g, r, p, gap)
    {
      if p == gap {
        ConnectsRefl(g, r, gap);
      } else if a.Contains(p) {
        ConnectsWiden(g, a, r, p, ca);
        ConnectsStep(g, r, ca, gap);
        ConnectsTrans(g, r, p, ca, gap);
      } else {
        ConnectsWiden(g, b, r, p, cb);
        ConnectsStep(g, r, cb, gap);
        ConnectsSymmetric(g, r, cb, gap);
        ConnectsTrans(g, r, p, cb, gap);
      }
    }
    forall p, q | r.Contains(p) && r.Contains(q) && Open(g, p) && Open(g, q)
      ensures Connects(g, r, p, q)
    {
      ConnectsSymmetric(g, r, q, gap);
      ConnectsTrans(g, r, p, gap, q);
    }
  }
}
