/**
  `map_create`: the dungeon generator.

  The random source is replaced by its results. Attempt r reads one `Draw`
  holding the values `random_get_int` returns for that attempt: width,
  height, left and top corner, and the corridor coin (read only when the
  room is accepted and is not the first). Every property below holds for
  all draws in the documented ranges, so nothing depends on the generator
  of the numbers.
 */
module Dungeon {
  import opened Grid
  import opened Rects
  import opened Carve

  /** The `constants` the generator reads. */
  datatype Config = Config(mapWidth: nat, mapHeight: nat, roomMinSize: nat, roomMaxSize: nat, maxRooms: nat)

  /** Room sizes between the bounds, and small enough that a position exists. */
  predicate ValidConfig(cfg: Config)
  {
    cfg.roomMinSize <= cfg.roomMaxSize &&
    cfg.roomMaxSize <= cfg.mapWidth - 1 && cfg.roomMaxSize <= cfg.mapHeight - 1
  }

  /** The values drawn during one attempt. */
  datatype Draw = Draw(w: int, h: int, x: int, y: int, coin: int)

  /** Each value lies in the range its `random_get_int` call is given. */
  predicate ValidDraw(cfg: Config, d: Draw)
  {
    && cfg.roomMinSize <= d.w <= cfg.roomMaxSize
    && cfg.roomMinSize <= d.h <= cfg.roomMaxSize
    && 0 <= d.x <= cfg.mapWidth - d.w - 1
    && 0 <= d.y <= cfg.mapHeight - d.h - 1
    && 0 <= d.coin <= 1
  }

  predicate ValidDraws(cfg: Config, draws: seq<Draw>)
  {
    forall i :: 0 <= i < |draws| ==> ValidDraw(cfg, draws[i])
  }

  /** The candidate room of one attempt. */
  function RoomOf(d: Draw): Rect
  {
    FromSize(d.x, d.y, d.w, d.h)
  }

  /** The generator's state between attempts: the map and the accepted rooms, in order. */
  datatype Level = Level(grid: Grid, rooms: seq<Rect>)

  /** The room, border included, lies on the map: `x1 >= 0` and `x2 <= MAP_WIDTH - 1`, likewise for y. */
  predicate InsideMap(cfg: Config, r: Rect)
  {
    0 <= r.x1 <= r.x2 <= cfg.mapWidth - 1 && 0 <= r.y1 <= r.y2 <= cfg.mapHeight - 1
  }

  /** Width and height are sizes the generator may draw. */
  predicate Sized(cfg: Config, r: Rect)
  {
    cfg.roomMinSize <= r.x2 - r.x1 <= cfg.roomMaxSize && cfg.roomMinSize <= r.y2 - r.y1 <= cfg.roomMaxSize
  }

  /** Map of the configured size, and every accepted room on it. */
  predicate Fits(cfg: Config, lvl: Level)
  {
    Shaped(lvl.grid, cfg.mapWidth, cfg.mapHeight) &&
    forall i :: 0 <= i < |lvl.rooms| ==> InsideMap(cfg, lvl.rooms[i]) && Sized(cfg, lvl.rooms[i])
  }

  /** No two accepted rooms intersect, under the same inclusive test the generator applies. */
  predicate PairwiseApart(rooms: seq<Rect>)
  {
    forall i, j :: 0 <= i < |rooms| && 0 <= j < |rooms| && i != j ==> !Intersect(rooms[i], rooms[j])
  }

  /** Every accepted room's interior is floor. */
  ghost predicate InteriorsOpen(lvl: Level)
  {
    forall i, c :: 0 <= i < |lvl.rooms| && InInterior(lvl.rooms[i], c) ==> IsOpen(lvl.grid, c)
  }

  /**
    Every floor cell can be walked to from the first room's center (so, in
    particular, every later room's center can), and before any room is
    accepted there is no floor at all.
   */
  ghost predicate FloorConnected(lvl: Level)
  {
    if |lvl.rooms| == 0 then
      forall c :: !IsOpen(lvl.grid, c)
    else
      && (forall c :: IsOpen(lvl.grid, c) ==> Reachable(lvl.grid, Center(lvl.rooms[0]), c))
      && (forall i :: 0 < i < |lvl.rooms| ==> Reachable(lvl.grid, Center(lvl.rooms[0]), Center(lvl.rooms[i])))
  }

  /** What holds after every attempt of `map_create`. */
  ghost predicate LevelInv(cfg: Config, lvl: Level)
  {
    Fits(cfg, lvl) && PairwiseApart(lvl.rooms) && InteriorsOpen(lvl) && FloorConnected(lvl)
  }

  /** The `for other_room in rooms` loop: does the candidate intersect an accepted room? */
  function Collides(room: Rect, rooms: seq<Rect>): (r: bool)
    ensures r <==> exists i :: 0 <= i < |rooms| && Intersect(room, rooms[i])
  {
    if |rooms| == 0 then false
    else if Intersect(room, rooms[0]) then true
    else
      var rest := Collides(room, rooms[1..]);
      assert forall i :: 1 <= i < |rooms| ==> rooms[i] == rooms[1..][i - 1];
      rest
  }

  /**
    Accepting a room: carve its interior and, unless it is the first, join
    its center to the previous room's center by a corridor; then append it.
   */
  function Accept(cfg: Config, lvl: Level, room: Rect, coin: int): (lvl': Level)
    requires Fits(cfg, lvl) && InsideMap(cfg, room) && Sized(cfg, room)
    ensures Fits(cfg, lvl')
    ensures lvl'.rooms == lvl.rooms + [room]
    ensures forall c :: IsOpen(lvl'.grid, c) <==>
      || IsOpen(lvl.grid, c)
      || InInterior(room, c)
      || (|lvl.rooms| > 0 && OnCorridor(Center(lvl.rooms[|lvl.rooms| - 1]), Center(room), coin, c))
  {
    var g1 := CreateRoom(room, lvl.grid);
    if |lvl.rooms| == 0 then Level(g1, [room])
    else
      var prev := lvl.rooms[|lvl.rooms| - 1];
      CorridorFits(cfg, prev, room, coin, g1);
      Level(Connect(Center(prev), Center(room), coin, g1), lvl.rooms + [room])
  }

  /**
    One iteration of the attempt loop: reject the candidate if it intersects
    an accepted room, accept it otherwise.
   */
  function Attempt(cfg: Config, lvl: Level, d: Draw): (lvl': Level)
    requires ValidDraw(cfg, d) && Fits(cfg, lvl)
    ensures Fits(cfg, lvl')
    ensures lvl'.rooms == lvl.rooms || lvl'.rooms == lvl.rooms + [RoomOf(d)]
    ensures lvl'.rooms == lvl.rooms + [RoomOf(d)] <==> !Collides(RoomOf(d), lvl.rooms)
    ensures Collides(RoomOf(d), lvl.rooms) ==> lvl' == lvl
    ensures !Collides(RoomOf(d), lvl.rooms) ==> lvl' == Accept(cfg, lvl, RoomOf(d), d.coin)
  {
    var room := RoomOf(d);
    if Collides(room, lvl.rooms) then lvl
    else Accept(cfg, lvl, room, d.coin)
  }

  /** Both centers lie on the map, so every cell of the corridor between them does. */
  lemma CorridorFits(cfg: Config, a: Rect, b: Rect, coin: int, g: Grid)
    requires InsideMap(cfg, a) && InsideMap(cfg, b)
    requires Shaped(g, cfg.mapWidth, cfg.mapHeight)
    ensures forall c :: OnCorridor(Center(a), Center(b), coin, c) ==> InBounds(g, c)
  {
  }

  /** The attempt loop over the remaining draws. */
  function Generate(cfg: Config, lvl: Level, draws: seq<Draw>): (lvl': Level)
    requires ValidDraws(cfg, draws) && Fits(cfg, lvl)
    ensures Fits(cfg, lvl')
    ensures |lvl.rooms| <= |lvl'.rooms| <= |lvl.rooms| + |draws|
    decreases |draws|
  {
    if |draws| == 0 then lvl
    else Generate(cfg, Attempt(cfg, lvl, draws[0]), draws[1..])
  }

  /** The attempt loop never drops or reorders an accepted room. */
  lemma {:induction false} GenerateKeepsRooms(cfg: Config, lvl: Level, draws: seq<Draw>)
    requires ValidDraws(cfg, draws) && Fits(cfg, lvl)
    ensures Generate(cfg, lvl, draws).rooms[..|lvl.rooms|] == lvl.rooms
    decreases |draws|
  {
    if |draws| > 0 {
      var next := Attempt(cfg, lvl, draws[0]);
      GenerateKeepsRooms(cfg, next, draws[1..]);
      assert Generate(cfg, lvl, draws) == Generate(cfg, next, draws[1..]);
    }
  }

  /** Every room the attempt loop adds is the room of one of the draws. */
  lemma {:induction false} GenerateRoomsFromDraws(cfg: Config, lvl: Level, draws: seq<Draw>)
    requires ValidDraws(cfg, draws) && Fits(cfg, lvl)
    ensures var rooms := Generate(cfg, lvl, draws).rooms;
      forall i :: |lvl.rooms| <= i < |rooms| ==> exists k :: 0 <= k < |draws| && rooms[i] == RoomOf(draws[k])
    decreases |draws|
  {
    if |draws| > 0 {
      var next := Attempt(cfg, lvl, draws[0]);
      var rest := draws[1..];
      var rooms := Generate(cfg, lvl, draws).rooms;
      assert rooms == Generate(cfg, next, rest).rooms;
      GenerateRoomsFromDraws(cfg, next, rest);
      GenerateKeepsRooms(cfg, next, rest);
      forall i | |lvl.rooms| <= i < |rooms|
        ensures exists k :: 0 <= k < |draws| && rooms[i] == RoomOf(draws[k])
      {
        if i < |next.rooms| {
          assert rooms[i] == rooms[..|next.rooms|][i] == next.rooms[i] == RoomOf(draws[0]);
        } else {
          var k :| 0 <= k < |rest| && rooms[i] == RoomOf(rest[k]);
          assert rest[k] == draws[k + 1];
        }
      }
    }
  }

  /** A fresh map with every cell blocked and no rooms yet. */
  function Initial(cfg: Config): (lvl: Level)
    ensures LevelInv(cfg, lvl)
  {
    Level(AllBlocked(cfg.mapWidth, cfg.mapHeight), [])
  }

  /**
    `map_create` with `MAX_ROOMS` attempts. Every room lies on the map and
    has a drawn size; no two rooms intersect; at most `MAX_ROOMS` rooms are
    accepted and, since the first attempt is never rejected, at least one
    when `MAX_ROOMS >= 1` (the fact `rooms[0]` in `game_initialize` relies
    on); every room's interior is floor; and every floor cell, every
    room center among them, can be walked to from the first room's center.
   */
  function MapCreate(cfg: Config, draws: seq<Draw>): (lvl: Level)
    requires ValidConfig(cfg)
    requires |draws| == cfg.maxRooms && ValidDraws(cfg, draws)
    ensures Shaped(lvl.grid, cfg.mapWidth, cfg.mapHeight)
    ensures forall i :: 0 <= i < |lvl.rooms| ==> InsideMap(cfg, lvl.rooms[i]) && Sized(cfg, lvl.rooms[i])
    ensures PairwiseApart(lvl.rooms)
    ensures |lvl.rooms| <= cfg.maxRooms
    ensures cfg.maxRooms >= 1 ==> |lvl.rooms| >= 1 && lvl.rooms[0] == RoomOf(draws[0])
    ensures InteriorsOpen(lvl)
    ensures FloorConnected(lvl)
  {
    var lvl := Generate(cfg, Initial(cfg), draws);
    GenerateInv(cfg, Initial(cfg), draws);
    lvl
  }

  /** One attempt keeps every invariant, only unblocks, and never rejects the first room. */
  lemma AttemptInv(cfg: Config, lvl: Level, d: Draw)
    requires LevelInv(cfg, lvl) && ValidDraw(cfg, d)
    ensures LevelInv(cfg, Attempt(cfg, lvl, d))
    ensures OnlyUnblocks(lvl.grid, Attempt(cfg, lvl, d).grid)
    ensures |lvl.rooms| == 0 ==> Attempt(cfg, lvl, d).rooms == [RoomOf(d)]
  {
    var room := RoomOf(d);
    var lvl' := Attempt(cfg, lvl, d);
    if Collides(room, lvl.rooms) {
      assert lvl' == lvl;
    } else {
      var g := lvl.grid;
      var g1 := CreateRoom(room, g);
      var k := |lvl.rooms|;
      assert lvl'.rooms == lvl.rooms + [room];
      // The new room is apart from every earlier one.
      forall i, j | 0 <= i < |lvl'.rooms| && 0 <= j < |lvl'.rooms| && i != j
        ensures !Intersect(lvl'.rooms[i], lvl'.rooms[j])
      {
        if i == k {
          assert !Intersect(room, lvl.rooms[j]);
        } else if j == k {
          assert !Intersect(room, lvl.rooms[i]);
        }
      }
      if k == 0 {
        AcceptFirst(cfg, lvl, room, d.coin);
      } else {
        AcceptLater(cfg, lvl, room, d.coin);
      }
    }
  }

  /** Accepting the first room: its interior is all the floor there is. */
  lemma AcceptFirst(cfg: Config, lvl: Level, room: Rect, coin: int)
    requires LevelInv(cfg, lvl) && |lvl.rooms| == 0
    requires InsideMap(cfg, room) && Sized(cfg, room)
    ensures OnlyUnblocks(lvl.grid, Accept(cfg, lvl, room, coin).grid)
    ensures InteriorsOpen(Accept(cfg, lvl, room, coin))
    ensures FloorConnected(Accept(cfg, lvl, room, coin))
  {
    var g1 := CreateRoom(room, lvl.grid);
    forall c | IsOpen(g1, c)
      ensures Reachable(g1, Center(room), c)
    {
      assert !IsOpen(lvl.grid, c);
      RoomInteriorConnected(g1, room, c);
    }
  }

  /**
    Accepting a later room: its interior is reached from its center, its
    center from the previous center through the corridor, and the previous
    center from the first one as before.
   */
  lemma AcceptLater(cfg: Config, lvl: Level, room: Rect, coin: int)
    requires LevelInv(cfg, lvl) && |lvl.rooms| > 0
    requires InsideMap(cfg, room) && Sized(cfg, room)
    ensures OnlyUnblocks(lvl.grid, Accept(cfg, lvl, room, coin).grid)
    ensures InteriorsOpen(Accept(cfg, lvl, room, coin))
    ensures FloorConnected(Accept(cfg, lvl, room, coin))
  {
    var g := lvl.grid;
    var g1 := CreateRoom(room, g);
    var k := |lvl.rooms|;
    var prevRoom := lvl.rooms[k - 1];
    CorridorFits(cfg, prevRoom, room, coin, g1);
    var prev := Center(prevRoom);
    var cur := Center(room);
    var first := Center(lvl.rooms[0]);
    var g2 := Connect(prev, cur, coin, g1);
    var rooms' := lvl.rooms + [room];
    assert Accept(cfg, lvl, room, coin) == Level(g2, rooms');
    UnblocksTrans(g, g1, g2);
    ConnectJoins(prev, cur, coin, g1);
    assert OnCorridor(prev, cur, coin, prev);
    // The first center reaches the previous one in the new grid.
    if k == 1 {
      ReachableRefl(g2, first);
    } else {
      assert Reachable(g, first, Center(lvl.rooms[k - 1]));
      ReachableMono(g, g2, first, prev);
    }
    ReachableTrans(g2, first, prev, cur);
    InteriorsStayOpen(lvl.rooms, room, g, g1, g2);
    NewFloorReachable(g, g1, g2, room, first, prev, coin);
    forall i | 0 < i < |rooms'|
      ensures Reachable(g2, first, Center(rooms'[i]))
    {
      if i < k {
        assert rooms'[i] == lvl.rooms[i];
        ReachableMono(g, g2, first, Center(lvl.rooms[i]));
      }
    }
    assert rooms'[0] == lvl.rooms[0];
  }

  /** Earlier interiors stay floor, and the new room's interior has become floor. */
  lemma InteriorsStayOpen(rooms: seq<Rect>, room: Rect, g: Grid, g1: Grid, g2: Grid)
    requires forall i, c :: 0 <= i < |rooms| && InInterior(rooms[i], c) ==> IsOpen(g, c)
    requires OnlyUnblocks(g, g1) && OnlyUnblocks(g1, g2)
    requires forall c :: InInterior(room, c) ==> IsOpen(g1, c)
    ensures forall i, c :: 0 <= i < |rooms + [room]| && InInterior((rooms + [room])[i], c) ==> IsOpen(g2, c)
  {
    forall i, c | 0 <= i < |rooms + [room]| && InInterior((rooms + [room])[i], c)
      ensures IsOpen(g2, c)
    {
      if i < |rooms| {
        assert (rooms + [room])[i] == rooms[i];
        assert IsOpen(g, c);
      } else {
        assert IsOpen(g1, c);
      }
    }
  }

  /**
    After carving a room and a corridor from `prev` to the room's center,
    every floor cell is still reached from `first`: old floor as before,
    corridor cells through `prev`, interior cells through the new center.
   */
  lemma NewFloorReachable(g: Grid, g1: Grid, g2: Grid, room: Rect, first: Cell, prev: Cell, coin: int)
    requires OnlyUnblocks(g, g2)
    requires forall c :: IsOpen(g, c) ==> Reachable(g, first, c)
    requires forall c :: IsOpen(g1, c) <==> IsOpen(g, c) || InInterior(room, c)
    requires OnlyUnblocks(g1, g2)
    requires forall c :: IsOpen(g2, c) <==> IsOpen(g1, c) || OnCorridor(prev, Center(room), coin, c)
    requires forall c :: OnCorridor(prev, Center(room), coin, c) ==> Reachable(g2, prev, c)
    requires Reachable(g2, first, prev) && Reachable(g2, first, Center(room))
    ensures forall c :: IsOpen(g2, c) ==> Reachable(g2, first, c)
  {
    var cur := Center(room);
    forall c | IsOpen(g2, c)
      ensures Reachable(g2, first, c)
    {
      if OnCorridor(prev, cur, coin, c) {
        ReachableTrans(g2, first, prev, c);
      } else if IsOpen(g, c) {
        ReachableMono(g, g2, first, c);
      } else {
        assert InInterior(room, c);
        forall d | InInterior(room, d)
          ensures IsOpen(g2, d)
        {
          assert IsOpen(g1, d);
        }
        RoomInteriorConnected(g2, room, c);
        ReachableTrans(g2, first, cur, c);
      }
    }
  }

  /** The attempt loop keeps every invariant; it accepts the first draw's room when the level is empty. */
  lemma {:induction false} GenerateInv(cfg: Config, lvl: Level, draws: seq<Draw>)
    requires LevelInv(cfg, lvl) && ValidDraws(cfg, draws)
    ensures LevelInv(cfg, Generate(cfg, lvl, draws))
    ensures OnlyUnblocks(lvl.grid, Generate(cfg, lvl, draws).grid)
    ensures |lvl.rooms| == 0 && |draws| > 0 ==>
      |Generate(cfg, lvl, draws).rooms| >= 1 && Generate(cfg, lvl, draws).rooms[0] == RoomOf(draws[0])
    ensures |lvl.rooms| > 0 ==> Generate(cfg, lvl, draws).rooms[0] == lvl.rooms[0]
    decreases |draws|
  {
    if |draws| > 0 {
      var next := Attempt(cfg, lvl, draws[0]);
      AttemptInv(cfg, lvl, draws[0]);
      assert ValidDraws(cfg, draws[1..]);
      GenerateInv(cfg, next, draws[1..]);
      UnblocksTrans(lvl.grid, next.grid, Generate(cfg, next, draws[1..]).grid);
    } else {
      assert OnlyUnblocks(lvl.grid, lvl.grid);
    }
  }

  /**
    With rooms at least 2 cells wide and high every center lies in its
    room's interior, so every room center is floor and can be walked to
    from the first room's center.
   */
  lemma RoomCentersReachable(cfg: Config, draws: seq<Draw>)
    requires ValidConfig(cfg) && cfg.roomMinSize >= 2
    requires |draws| == cfg.maxRooms && ValidDraws(cfg, draws)
    ensures var lvl := MapCreate(cfg, draws);
      forall i :: 0 <= i < |lvl.rooms| ==>
        IsOpen(lvl.grid, Center(lvl.rooms[i])) && Reachable(lvl.grid, Center(lvl.rooms[0]), Center(lvl.rooms[i]))
  {
    var lvl := MapCreate(cfg, draws);
    forall i | 0 <= i < |lvl.rooms|
      ensures IsOpen(lvl.grid, Center(lvl.rooms[i]))
      ensures Reachable(lvl.grid, Center(lvl.rooms[0]), Center(lvl.rooms[i]))
    {
      assert Sized(cfg, lvl.rooms[i]);
      assert InInterior(lvl.rooms[i], Center(lvl.rooms[i]));
    }
  }

  // ---------------------------------------------------------------------
  // The map edge at 0

  /** No floor in column 0 or row 0. */
  ghost predicate EdgeWalled(g: Grid)
  {
    forall c :: IsOpen(g, c) ==> c.x >= 1 && c.y >= 1
  }

  /**
    With rooms at least 2 cells across, accepting a room opens nothing in
    column or row 0: interiors start one past a border at 0 or more, and
    corridors run between centers, which lie inside their rooms.
   */
  lemma AcceptKeepsEdge(cfg: Config, lvl: Level, room: Rect, coin: int)
    requires Fits(cfg, lvl) && InsideMap(cfg, room) && Sized(cfg, room) && cfg.roomMinSize >= 2
    requires EdgeWalled(lvl.grid)
    ensures EdgeWalled(Accept(cfg, lvl, room, coin).grid)
  {
  }

  /** The attempt loop keeps column 0 and row 0 walled. */
  lemma {:induction false} GenerateKeepsEdge(cfg: Config, lvl: Level, draws: seq<Draw>)
    requires ValidDraws(cfg, draws) && Fits(cfg, lvl) && cfg.roomMinSize >= 2
    requires EdgeWalled(lvl.grid)
    ensures EdgeWalled(Generate(cfg, lvl, draws).grid)
    decreases |draws|
  {
    if |draws| > 0 {
      var room := RoomOf(draws[0]);
      if !Collides(room, lvl.rooms) {
        AcceptKeepsEdge(cfg, lvl, room, draws[0].coin);
      }
      GenerateKeepsEdge(cfg, Attempt(cfg, lvl, draws[0]), draws[1..]);
    }
  }

  /**
    On a generated map with rooms at least 2 cells across, column 0 and
    row 0 are all wall, so nothing placed on floor stands at coordinate 0.
   */
  lemma MapCreateEdgeWalled(cfg: Config, draws: seq<Draw>)
    requires ValidConfig(cfg) && cfg.roomMinSize >= 2
    requires |draws| == cfg.maxRooms && ValidDraws(cfg, draws)
    ensures forall c :: IsOpen(MapCreate(cfg, draws).grid, c) ==> c.x >= 1 && c.y >= 1
  {
    GenerateKeepsEdge(cfg, Initial(cfg), draws);
  }
}
