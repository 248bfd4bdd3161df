/**
  `get_free_tiles` and `random_free_tile`: placing something on a floor
  cell by listing all floor cells once and picking one by index.
 */
module FreeTiles {
  import opened Grid

  /** The scan order: by row (y) first, then by column (x). */
  predicate Before(a: Cell, b: Cell)
  {
    a.y < b.y || (a.y == b.y && a.x < b.x)
  }

  predicate ScanOrdered(s: seq<Cell>)
  {
    forall i, j :: 0 <= i < j < |s| ==> Before(s[i], s[j])
  }

  /** The inner loop: the floor cells `(x, y)` of row y with `x in range(n)`, left to right. */
  function ScanRow(g: Grid, y: int, n: int): (r: seq<Cell>)
    requires forall x :: 0 <= x < n ==> InBounds(g, Cell(x, y))
    ensures forall c :: c in r <==> c.y == y && 0 <= c.x < n && IsOpen(g, c)
    ensures forall i :: 0 <= i < |r| ==> r[i].y == y && r[i].x < n
    ensures ScanOrdered(r)
  {
    if n <= 0 then []
    else
      assert InBounds(g, Cell(n - 1, y));
      ScanRow(g, y, n - 1) + (if !g[n - 1][y] then [Cell(n - 1, y)] else [])
  }

  /** Both loops: the floor cells of rows `range(m)`, each row scanned over `range(n)`. */
  function ScanRows(g: Grid, m: int, n: int): (r: seq<Cell>)
    requires forall x, y :: 0 <= y < m && 0 <= x < n ==> InBounds(g, Cell(x, y))
    ensures forall c :: c in r <==> 0 <= c.y < m && 0 <= c.x < n && IsOpen(g, c)
    ensures forall i :: 0 <= i < |r| ==> r[i].y < m
    ensures ScanOrdered(r)
  {
    if m <= 0 then []
    else
      var front := ScanRows(g, m - 1, n);
      var row := ScanRow(g, m - 1, n);
      assert forall i, j :: 0 <= i < |front| && 0 <= j < |row| ==> Before(front[i], row[j]);
      front + row
  }

  /**
    `get_free_tiles`: the y loop runs over `len(map)` and the x loop over
    `len(map[0])` while cells are read as `map[x][y]`, which is only sound
    for a square map. The result lists every floor cell exactly once, and
    nothing else, in row-by-row order.
   */
  function GetFreeTiles(g: Grid): (r: seq<Cell>)
    requires Square(g)
    ensures forall c :: c in r <==> IsOpen(g, c)
    ensures forall i, j :: 0 <= i < |r| && 0 <= j < |r| && i != j ==> r[i] != r[j]
    ensures ScanOrdered(r)
  {
    if |g| == 0 then []
    else
      var r := ScanRows(g, |g|, |g[0]|);
      assert forall i, j :: 0 <= i < j < |r| ==> Before(r[i], r[j]);
      r
  }

  /**
    `random_free_tile`: the index is the value drawn from `[0, len - 1]`;
    the list must not be empty. The chosen cell is floor.
   */
  function RandomFreeTile(g: Grid, index: int): (c: Cell)
    requires Square(g)
    requires 0 <= index < |GetFreeTiles(g)|
    ensures IsOpen(g, c)
    ensures c in GetFreeTiles(g)
  {
    GetFreeTiles(g)[index]
  }

  /** Every floor cell is picked by exactly one index. */
  lemma EveryFreeTilePickable(g: Grid, c: Cell)
    requires Square(g) && IsOpen(g, c)
    ensures exists i :: 0 <= i < |GetFreeTiles(g)| && RandomFreeTile(g, i) == c
    ensures forall i, j ::
      (0 <= i < |GetFreeTiles(g)| && 0 <= j < |GetFreeTiles(g)| &&
       RandomFreeTile(g, i) == c && RandomFreeTile(g, j) == c) ==> i == j
  {
    var r := GetFreeTiles(g);
    assert c in r;
    var i :| 0 <= i < |r| && r[i] == c;
    assert RandomFreeTile(g, i) == c;
  }
}
