/**
  The map-side half of field of view: the transparency index
  `map_make_fov` hands to the FOV library, and the explored flags
  `draw_map` sets from what the library reports visible. The visibility
  computation itself belongs to the library and is not part of this model.
 */
module Visibility {
  import opened Grid

  /** The two properties `map_set_properties` records for a cell. */
  datatype FovCell = FovCell(transparent: bool, walkable: bool)

  /** A `width` x `height` table indexed `[x][y]`. */
  type Table<T> = seq<seq<T>>

  /**
    `map_make_fov`: a cell is transparent exactly when it does not block
    movement, and walkable exactly then too.
   */
  function MakeFov(g: Grid, width: nat, height: nat): (fov: Table<FovCell>)
    requires Shaped(g, width, height)
    ensures |fov| == width && forall x :: 0 <= x < width ==> |fov[x]| == height
    ensures forall c :: InBounds(g, c) ==>
      fov[c.x][c.y].transparent == IsOpen(g, c) && fov[c.x][c.y].walkable == IsOpen(g, c)
  {
    seq(width, x requires 0 <= x < width =>
      seq(height, y requires 0 <= y < height => FovCell(!g[x][y], !g[x][y])))
  }

  /**
    The explored-flag update inside `draw_map`: every cell the library
    reports visible becomes explored; no flag is ever cleared.
   */
  function MarkExplored(explored: Table<bool>, visible: Table<bool>): (e': Table<bool>)
    requires SameShape(explored, visible)
    ensures SameShape(e', explored)
    ensures forall x, y :: 0 <= x < |explored| && 0 <= y < |explored[x]| ==>
      e'[x][y] == (explored[x][y] || visible[x][y])
  {
    seq(|explored|, x requires 0 <= x < |explored| =>
      seq(|explored[x]|, y requires 0 <= y < |explored[x]| => explored[x][y] || visible[x][y]))
  }

  /** Marking is monotone: a cell explored before any sequence of frames stays explored. */
  lemma {:induction false} ExploredMonotone(explored: Table<bool>, frames: seq<Table<bool>>, x: nat, y: nat)
    requires forall i :: 0 <= i < |frames| ==> SameShape(explored, frames[i])
    requires x < |explored| && y < |explored[x]| && explored[x][y]
    ensures SameShape(explored, MarkAll(explored, frames))
    ensures MarkAll(explored, frames)[x][y]
    decreases |frames|
  {
    if |frames| > 0 {
      var next := MarkExplored(explored, frames[0]);
      ShapeCarries(explored, next, frames);
      ExploredMonotone(next, frames[1..], x, y);
    }
  }

  /** The explored flags after drawing several frames in turn. */
  function MarkAll(explored: Table<bool>, frames: seq<Table<bool>>): Table<bool>
    requires forall i :: 0 <= i < |frames| ==> SameShape(explored, frames[i])
    decreases |frames|
  {
    if |frames| == 0 then explored
    else
      var next := MarkExplored(explored, frames[0]);
      ShapeCarries(explored, next, frames);
      MarkAll(next, frames[1..])
  }

  /** A table shaped like `explored` is shaped like every remaining frame. */
  lemma ShapeCarries(explored: Table<bool>, next: Table<bool>, frames: seq<Table<bool>>)
    requires |frames| > 0 && SameShape(next, explored)
    requires forall i :: 0 <= i < |frames| ==> SameShape(explored, frames[i])
    ensures forall i :: 0 <= i < |frames[1..]| ==> SameShape(next, frames[1..][i])
  {
    forall i | 0 <= i < |frames[1..]|
      ensures SameShape(next, frames[1..][i])
    {
      assert frames[1..][i] == frames[i + 1];
      assert SameShape(explored, frames[i + 1]);
    }
  }

  /** Drawing the same visible set twice explores nothing new. */
  lemma MarkIdempotent(explored: Table<bool>, visible: Table<bool>)
    requires SameShape(explored, visible)
    ensures MarkExplored(MarkExplored(explored, visible), visible) == MarkExplored(explored, visible)
  {
    var once := MarkExplored(explored, visible);
    var twice := MarkExplored(once, visible);
    assert |twice| == |once|;
    forall x | 0 <= x < |once|
      ensures twice[x] == once[x]
    {
    }
  }
}
