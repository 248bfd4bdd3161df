/** The `Rect` class: the axis-aligned rectangle that describes a room. */
module Rects {
  import opened Grid

  /** Corners (x1, y1) and (x2, y2); the border lines belong to the room. */
  datatype Rect = Rect(x1: int, y1: int, x2: int, y2: int)

  /** The constructor `Rect(x, y, w, h)`: top-left corner plus extent. */
  function FromSize(x: int, y: int, w: int, h: int): (r: Rect)
    ensures r.x1 == x && r.y1 == y
    ensures r.x2 - r.x1 == w && r.y2 - r.y1 == h
  {
    Rect(x, y, x + w, y + h)
  }

  /** Corners in order (a non-negative extent). */
  predicate Proper(r: Rect)
  {
    r.x1 <= r.x2 && r.y1 <= r.y2
  }

  /** The cell lies on the rectangle or inside it. */
  predicate InClosed(r: Rect, c: Cell)
  {
    r.x1 <= c.x <= r.x2 && r.y1 <= c.y <= r.y2
  }

  /** The cell lies strictly inside the border: the part `create_room` carves. */
  predicate InInterior(r: Rect, c: Cell)
  {
    r.x1 < c.x < r.x2 && r.y1 < c.y < r.y2
  }

  /**
    `center()`: the rounded-down midpoint. Python 2 `/` floors, and so does
    Dafny's `/` for a positive divisor, whatever the sign of the dividend.
   */
  function Center(r: Rect): (c: Cell)
    ensures Proper(r) ==> InClosed(r, c)
    ensures r.x2 - r.x1 >= 2 && r.y2 - r.y1 >= 2 ==> InInterior(r, c)
  {
    Cell((r.x1 + r.x2) / 2, (r.y1 + r.y2) / 2)
  }

  /** `intersect()`: an inclusive overlap test on both axes. */
  predicate Intersect(a: Rect, b: Rect)
  {
    a.x1 <= b.x2 && a.x2 >= b.x1 && a.y1 <= b.y2 && a.y2 >= b.y1
  }

  /**
    The inclusive test means exactly "the closed rectangles share a cell",
    so it is symmetric and rooms that merely touch along a border count as
    intersecting.
   */
  lemma IntersectIffSharedCell(a: Rect, b: Rect)
    requires Proper(a) && Proper(b)
    ensures Intersect(a, b) <==> exists c :: InClosed(a, c) && InClosed(b, c)
    ensures Intersect(a, b) <==> Intersect(b, a)
  {
    if Intersect(a, b) {
      var c := Cell(if a.x1 < b.x1 then b.x1 else a.x1, if a.y1 < b.y1 then b.y1 else a.y1);
      assert InClosed(a, c) && InClosed(b, c);
    }
  }
}
