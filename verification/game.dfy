/**
  What `game_initialize` relies on when it places the player and the two
  test monsters on a freshly generated map.
 */
module Game {
  import opened Grid
  import opened Rects
  import opened Dungeon
  import opened FreeTiles

  /**
    With at least one attempt, rooms at least 2 cells across and a square
    map, `rooms[0]` exists, its center (the player's start) is floor, and
    the free-tile list `random_free_tile` indexes is not empty.
   */
  lemma PlacementDefined(cfg: Config, draws: seq<Draw>)
    requires ValidConfig(cfg) && cfg.maxRooms >= 1 && cfg.roomMinSize >= 2
    requires cfg.mapWidth == cfg.mapHeight
    requires |draws| == cfg.maxRooms && ValidDraws(cfg, draws)
    ensures |MapCreate(cfg, draws).rooms| >= 1
    ensures IsOpen(MapCreate(cfg, draws).grid, Center(MapCreate(cfg, draws).rooms[0]))
    ensures Square(MapCreate(cfg, draws).grid) && |GetFreeTiles(MapCreate(cfg, draws).grid)| >= 1
  {
    var lvl := MapCreate(cfg, draws);
    RoomCentersReachable(cfg, draws);
    var start := Center(lvl.rooms[0]);
    assert IsOpen(lvl.grid, start);
    assert start in GetFreeTiles(lvl.grid);
  }

  /**
    The shipped settings: a 20 x 20 map, rooms 4 to 6 cells across, four
    attempts. They meet every precondition of `PlacementDefined`.
   */
  function ShippedConfig(): (cfg: Config)
    ensures ValidConfig(cfg) && cfg.maxRooms >= 1 && cfg.roomMinSize >= 2
    ensures cfg.mapWidth == cfg.mapHeight
  {
    Config(20, 20, 4, 6, 4)
  }
}
