/**
  Carving floor into a level: `create_room`, `create_h_tunnel`,
  `create_v_tunnel`, and the L-shaped corridor `map_create` draws between
  the centers of two consecutive rooms.
 */
module Carve {
  import opened Grid
  import opened Rects

  /** `v` lies on the closed segment between `a` and `b`, in either order. */
  predicate Between(v: int, a: int, b: int)
  {
    (a <= v <= b) || (b <= v <= a)
  }

  function Min(a: int, b: int): int { if a < b then a else b }
  function Max(a: int, b: int): int { if a < b then b else a }

  /** Unblocks `map[x][y]` for `y in range(lo, hi)`, in increasing y. */
  function CarveColumn(g: Grid, x: int, lo: int, hi: int): (g': Grid)
    requires lo < hi ==> 0 <= x < |g| && 0 <= lo && hi <= |g[x]|
    ensures OnlyUnblocks(g, g')
    ensures forall c :: IsOpen(g', c) <==> IsOpen(g, c) || (c.x == x && lo <= c.y < hi)
    decreases hi - lo
  {
    if lo >= hi then g else CarveColumn(Unblock(g, Cell(x, lo)), x, lo + 1, hi)
  }

  /** Unblocks `map[x][y]` for `x in range(lo, hi)`, in increasing x. */
  function CarveRow(g: Grid, y: int, lo: int, hi: int): (g': Grid)
    requires forall x :: lo <= x < hi ==> InBounds(g, Cell(x, y))
    ensures OnlyUnblocks(g, g')
    ensures forall c :: IsOpen(g', c) <==> IsOpen(g, c) || (c.y == y && lo <= c.x < hi)
    decreases hi - lo
  {
    if lo >= hi then g else CarveRow(Unblock(g, Cell(lo, y)), y, lo + 1, hi)
  }

  /** The nested loops of `create_room`: columns `[xlo, xhi)`, each over rows `[ylo, yhi)`. */
  function CarveBlock(g: Grid, xlo: int, xhi: int, ylo: int, yhi: int): (g': Grid)
    requires xlo < xhi && ylo < yhi ==>
      0 <= xlo && xhi <= |g| && 0 <= ylo && forall x :: xlo <= x < xhi ==> yhi <= |g[x]|
    ensures OnlyUnblocks(g, g')
    ensures forall c :: IsOpen(g', c) <==> IsOpen(g, c) || (xlo <= c.x < xhi && ylo <= c.y < yhi)
    decreases xhi - xlo
  {
    if xlo >= xhi then g
    else CarveBlock(CarveColumn(g, xlo, ylo, yhi), xlo + 1, xhi, ylo, yhi)
  }

  /** Interior cells of the room exist in the grid (the border may touch its edge). */
  predicate InteriorFits(room: Rect, g: Grid)
  {
    room.x1 + 1 < room.x2 && room.y1 + 1 < room.y2 ==>
      0 <= room.x1 + 1 && room.x2 <= |g| && 0 <= room.y1 + 1 &&
      forall x :: room.x1 + 1 <= x < room.x2 ==> room.y2 <= |g[x]|
  }

  /** `create_room`: the room's interior becomes floor, every other cell keeps its flag. */
  function CreateRoom(room: Rect, g: Grid): (g': Grid)
    requires InteriorFits(room, g)
    ensures OnlyUnblocks(g, g')
    ensures forall c :: IsOpen(g', c) <==> IsOpen(g, c) || InInterior(room, c)
  {
    CarveBlock(g, room.x1 + 1, room.x2, room.y1 + 1, room.y2)
  }

  /** `create_h_tunnel(x1, x2, y)`: the closed run of row y between x1 and x2, either way round. */
  function CreateHTunnel(x1: int, x2: int, y: int, g: Grid): (g': Grid)
    requires forall x :: Between(x, x1, x2) ==> InBounds(g, Cell(x, y))
    ensures OnlyUnblocks(g, g')
    ensures forall c :: IsOpen(g', c) <==> IsOpen(g, c) || (c.y == y && Between(c.x, x1, x2))
  {
    assert forall x :: Min(x1, x2) <= x < Max(x1, x2) + 1 ==> Between(x, x1, x2) && InBounds(g, Cell(x, y));
    assert InBounds(g, Cell(x1, y)) && InBounds(g, Cell(x2, y));
    CarveRow(g, y, Min(x1, x2), Max(x1, x2) + 1)
  }

  /** `create_v_tunnel(y1, y2, x)`: the closed run of column x between y1 and y2, either way round. */
  function CreateVTunnel(y1: int, y2: int, x: int, g: Grid): (g': Grid)
    requires forall y :: Between(y, y1, y2) ==> InBounds(g, Cell(x, y))
    ensures OnlyUnblocks(g, g')
    ensures forall c :: IsOpen(g', c) <==> IsOpen(g, c) || (c.x == x && Between(c.y, y1, y2))
  {
    assert forall y :: Min(y1, y2) <= y < Max(y1, y2) + 1 ==> Between(y, y1, y2) && InBounds(g, Cell(x, y));
    assert InBounds(g, Cell(x, y1)) && InBounds(g, Cell(x, y2));
    CarveColumn(g, x, Min(y1, y2), Max(y1, y2) + 1)
  }

  /**
    The cells of the L-shaped corridor from `prev` to `cur`. A coin of 1
    runs along prev's row first and then up or down cur's column; any
    other coin runs along prev's column first and then along cur's row.
   */
  predicate OnCorridor(prev: Cell, cur: Cell, coin: int, c: Cell)
  {
    if coin == 1 then
      (c.y == prev.y && Between(c.x, prev.x, cur.x)) || (c.x == cur.x && Between(c.y, prev.y, cur.y))
    else
      (c.x == prev.x && Between(c.y, prev.y, cur.y)) || (c.y == cur.y && Between(c.x, prev.x, cur.x))
  }

  /** The tunnel pair `map_create` carves between consecutive room centers. */
  function Connect(prev: Cell, cur: Cell, coin: int, g: Grid): (g': Grid)
    requires forall c :: OnCorridor(prev, cur, coin, c) ==> InBounds(g, c)
    ensures OnlyUnblocks(g, g')
    ensures forall c :: IsOpen(g', c) <==> IsOpen(g, c) || OnCorridor(prev, cur, coin, c)
  {
    if coin == 1 then
      assert forall x :: Between(x, prev.x, cur.x) ==> OnCorridor(prev, cur, coin, Cell(x, prev.y));
      assert forall y :: Between(y, prev.y, cur.y) ==> OnCorridor(prev, cur, coin, Cell(cur.x, y));
      var g1 := CreateHTunnel(prev.x, cur.x, prev.y, g);
      CreateVTunnel(prev.y, cur.y, cur.x, g1)
    else
      assert forall y :: Between(y, prev.y, cur.y) ==> OnCorridor(prev, cur, coin, Cell(prev.x, y));
      assert forall x :: Between(x, prev.x, cur.x) ==> OnCorridor(prev, cur, coin, Cell(x, cur.y));
      var g1 := CreateVTunnel(prev.y, cur.y, prev.x, g);
      CreateHTunnel(prev.x, cur.x, cur.y, g1)
  }

  /**
    Whatever the coin, every corridor cell, and in particular `cur`, can be
    walked to from `prev` once the corridor is carved.
   */
  lemma ConnectJoins(prev: Cell, cur: Cell, coin: int, g: Grid)
    requires forall c :: OnCorridor(prev, cur, coin, c) ==> InBounds(g, c)
    ensures forall c :: OnCorridor(prev, cur, coin, c) ==> Reachable(Connect(prev, cur, coin, g), prev, c)
    ensures Reachable(Connect(prev, cur, coin, g), prev, cur)
  {
    var g' := Connect(prev, cur, coin, g);
    var corner := if coin == 1 then Cell(cur.x, prev.y) else Cell(prev.x, cur.y);
    forall c | OnCorridor(prev, cur, coin, c)
      ensures Reachable(g', prev, c)
    {
      if coin == 1 {
        assert forall x :: Between(x, prev.x, cur.x) ==> OnCorridor(prev, cur, coin, Cell(x, prev.y));
        assert forall y :: Between(y, prev.y, cur.y) ==> OnCorridor(prev, cur, coin, Cell(cur.x, y));
        if c.y == prev.y && Between(c.x, prev.x, cur.x) {
          RowReachable(g', prev.y, prev.x, c.x);
        } else {
          RowReachable(g', prev.y, prev.x, cur.x);
          ColumnReachable(g', cur.x, prev.y, c.y);
          ReachableTrans(g', prev, corner, c);
        }
      } else {
        assert forall y :: Between(y, prev.y, cur.y) ==> OnCorridor(prev, cur, coin, Cell(prev.x, y));
        assert forall x :: Between(x, prev.x, cur.x) ==> OnCorridor(prev, cur, coin, Cell(x, cur.y));
        if c.x == prev.x && Between(c.y, prev.y, cur.y) {
          ColumnReachable(g', prev.x, prev.y, c.y);
        } else {
          ColumnReachable(g', prev.x, prev.y, cur.y);
          RowReachable(g', cur.y, prev.x, c.x);
          ReachableTrans(g', prev, corner, c);
        }
      }
    }
    assert OnCorridor(prev, cur, coin, cur);
  }

  /**
    A carved room is one walkable area: every interior cell can be walked
    to from the room's center, along the center's row and then a column.
   */
  lemma RoomInteriorConnected(g: Grid, room: Rect, c: Cell)
    requires forall d :: InInterior(room, d) ==> IsOpen(g, d)
    requires InInterior(room, c)
    ensures Reachable(g, Center(room), c)
  {
    var m := Center(room);
    assert InInterior(room, m);
    assert forall x :: Between(x, m.x, c.x) ==> InInterior(room, Cell(x, m.y));
    assert forall y :: Between(y, m.y, c.y) ==> InInterior(room, Cell(c.x, y));
    RowReachable(g, m.y, m.x, c.x);
    ColumnReachable(g, c.x, m.y, c.y);
    ReachableTrans(g, m, Cell(c.x, m.y), c);
  }
}
