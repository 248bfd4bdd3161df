/**
  The tile matrix of a level and 4-directional walking over it.

  The game stores its map as a list of columns, `map[x][y]`, whose cells
  carry a `block_path` flag. Only that flag matters to the engine, so a
  grid here is a sequence of columns of booleans, `true` meaning blocked.
 */
module Grid {

  /** A map coordinate; x selects the column, y the cell within it. */
  datatype Cell = Cell(x: int, y: int)

  /** `g[x][y]` is the `block_path` flag of the cell at (x, y). */
  type Grid = seq<seq<bool>>

  /** The grid has `width` columns of `height` cells each. */
  predicate Shaped(g: Grid, width: int, height: int)
  {
    |g| == width && forall x :: 0 <= x < |g| ==> |g[x]| == height
  }

  /** As many cells per column as there are columns. */
  predicate Square(g: Grid)
  {
    Shaped(g, |g|, |g|)
  }

  /** Both tables have the same number of columns, each of the same length. */
  predicate SameShape<T, U>(a: seq<seq<T>>, b: seq<seq<U>>)
  {
    |b| == |a| && forall x :: 0 <= x < |a| ==> |b[x]| == |a[x]|
  }

  predicate InBounds(g: Grid, c: Cell)
  {
    0 <= c.x < |g| && 0 <= c.y < |g[c.x]|
  }

  /** The cell exists and does not block movement. */
  predicate IsOpen(g: Grid, c: Cell)
  {
    InBounds(g, c) && !g[c.x][c.y]
  }

  /** `g'` is `g` with zero or more cells unblocked and none blocked. */
  ghost predicate OnlyUnblocks(g: Grid, g': Grid)
  {
    SameShape(g, g') && forall c :: IsOpen(g, c) ==> IsOpen(g', c)
  }

  lemma UnblocksTrans(g: Grid, g': Grid, g'': Grid)
    requires OnlyUnblocks(g, g') && OnlyUnblocks(g', g'')
    ensures OnlyUnblocks(g, g'')
  {
  }

  /** A fresh level: every cell blocked. */
  function AllBlocked(width: nat, height: nat): (g: Grid)
    ensures Shaped(g, width, height)
    ensures forall c :: !IsOpen(g, c)
  {
    seq(width, _ => seq(height, _ => true))
  }

  /** The one-cell update `map[x][y].block_path = False`. */
  function Unblock(g: Grid, c: Cell): (g': Grid)
    requires InBounds(g, c)
    ensures OnlyUnblocks(g, g')
    ensures forall d :: InBounds(g', d) <==> InBounds(g, d)
    ensures forall d :: IsOpen(g', d) <==> IsOpen(g, d) || d == c
  {
    g[c.x := g[c.x][c.y := false]]
  }

  /** Orthogonal neighbours, or the same cell twice. */
  predicate Adjacent(a: Cell, b: Cell)
  {
    (a.x == b.x && -1 <= a.y - b.y <= 1) || (a.y == b.y && -1 <= a.x - b.x <= 1)
  }

  /** A walk through open cells taking 4-directional steps. */
  ghost predicate IsPath(g: Grid, p: seq<Cell>)
  {
    && |p| > 0
    && (forall i :: 0 <= i < |p| ==> IsOpen(g, p[i]))
    && (forall i :: 0 <= i < |p| - 1 ==> Adjacent(p[i], p[i + 1]))
  }

  /** `b` can be walked to from `a` over open cells. */
  ghost predicate Reachable(g: Grid, a: Cell, b: Cell)
  {
    exists p :: IsPath(g, p) && p[0] == a && p[|p| - 1] == b
  }

  lemma ReachableRefl(g: Grid, a: Cell)
    requires IsOpen(g, a)
    ensures Reachable(g, a, a)
  {
    assert IsPath(g, [a]);
  }

  lemma ReachableStep(g: Grid, a: Cell, b: Cell)
    requires IsOpen(g, a) && IsOpen(g, b) && Adjacent(a, b)
    ensures Reachable(g, a, b)
  {
    assert IsPath(g, [a, b]);
  }

  /** Two walks that meet glue into one. */
  lemma ReachableTrans(g: Grid, a: Cell, b: Cell, c: Cell)
    requires Reachable(g, a, b) && Reachable(g, b, c)
    ensures Reachable(g, a, c)
  {
    var p :| IsPath(g, p) && p[0] == a && p[|p| - 1] == b;
    var q :| IsPath(g, q) && q[0] == b && q[|q| - 1] == c;
    var r := p + q;
    forall i | 0 <= i < |r| - 1
      ensures Adjacent(r[i], r[i + 1])
    {
      if i < |p| - 1 {
        assert r[i] == p[i] && r[i + 1] == p[i + 1];
      } else if i == |p| - 1 {
        assert r[i] == b && r[i + 1] == b;
      } else {
        assert r[i] == q[i - |p|] && r[i + 1] == q[i - |p| + 1];
      }
    }
    forall i | 0 <= i < |r|
      ensures IsOpen(g, r[i])
    {
      if i < |p| {
        assert r[i] == p[i];
      } else {
        assert r[i] == q[i - |p|];
      }
    }
    assert IsPath(g, r) && r[0] == a && r[|r| - 1] == c;
  }

  /** Unblocking more cells never cuts a walk. */
  lemma ReachableMono(g: Grid, g': Grid, a: Cell, b: Cell)
    requires OnlyUnblocks(g, g')
    requires Reachable(g, a, b)
    ensures Reachable(g', a, b)
  {
    var p :| IsPath(g, p) && p[0] == a && p[|p| - 1] == b;
    assert IsPath(g', p);
  }

  /** A fully open straight run along row `y` can be walked from end to end. */
  lemma {:induction false} RowReachable(g: Grid, y: int, a: int, b: int)
    requires forall x :: (a <= x <= b || b <= x <= a) ==> IsOpen(g, Cell(x, y))
    ensures Reachable(g, Cell(a, y), Cell(b, y))
    decreases if a <= b then b - a else a - b
  {
    if a == b {
      ReachableRefl(g, Cell(a, y));
    } else {
      var a' := if a < b then a + 1 else a - 1;
      RowReachable(g, y, a', b);
      ReachableStep(g, Cell(a, y), Cell(a', y));
      ReachableTrans(g, Cell(a, y), Cell(a', y), Cell(b, y));
    }
  }

  /** A fully open straight run along column `x` can be walked from end to end. */
  lemma {:induction false} ColumnReachable(g: Grid, x: int, a: int, b: int)
    requires forall y :: (a <= y <= b || b <= y <= a) ==> IsOpen(g, Cell(x, y))
    ensures Reachable(g, Cell(x, a), Cell(x, b))
    decreases if a <= b then b - a else a - b
  {
    if a == b {
      ReachableRefl(g, Cell(x, a));
    } else {
      var a' := if a < b then a + 1 else a - 1;
      ColumnReachable(g, x, a', b);
      ReachableStep(g, Cell(x, a), Cell(x, a'));
      ReachableTrans(g, Cell(x, a), Cell(x, a'), Cell(x, b));
    }
  }
}
