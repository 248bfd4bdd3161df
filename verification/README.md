# Roguelike engine core in Dafny

A model of the simulation core of a small Python 2 roguelike
(`main.py`): the dungeon generator (`Rect`, `create_room`, the two tunnel
carvers, `map_create`), free-tile placement (`get_free_tiles`,
`random_free_tile`), the map side of field of view (`map_make_fov` and the
explored flags of `draw_map`), `com_Creature`'s `attack_mod`, `move`,
`attack` and `take_damage` together with the functions `roll`,
`death_monster` and `map_check_for_creature`, all over the game object's
entity list and message log (`obj_Game.add_entity`, `game_message`).

Modules:

- `Wrappers`: `Option`.
- `Grid`: the tile map as `seq<seq<bool>>` indexed `[x][y]` (true = blocks
  movement), cells, 4-neighbour paths and reachability.
- `Rects`: `Rect`, its center (Python 2 integer division, which floors like
  Dafny's `/` for positive divisors) and the inclusive intersection test.
- `Carve`: `create_room`, `create_h_tunnel`, `create_v_tunnel`, and the
  L-shaped corridor `map_create` digs between consecutive room centers.
- `Dungeon`: `map_create` as a fold over one `Draw` (width, height, x, y,
  coin) per attempt; the random values are inputs.
- `Game`: what `game_initialize` relies on when it places the player on
  `rooms[0]`'s center and the monsters on random free tiles.
- `FreeTiles`: `get_free_tiles` and `random_free_tile` (the drawn index is
  an input).
- `Text`: `str()` of integers as the messages use it, with a parser that
  inverts it.
- `Combat`: creatures, entities and the session (map, rooms, entities,
  messages); Python object identity is an `id` carried by each entity.
- `MoveBounds`: the off-map step `move` allows and the corrected move.
- `Visibility`: the transparency table and explored flags.

Random draws (`libtcod.random_get_int`) are parameters constrained to the
ranges the source asks for. The constants of `constants.py` are fields of
`Dungeon.Config`; `Game.ShippedConfig` holds the shipped values.

This version of the game has no stairs, items, inventory or level
transitions. `move` attacks any other entity standing on the destination,
whether or not it has a creature component; every entity `game_initialize`
puts on the map has one, which `Combat.ValidSession` records.
`map_create` reads the room list only once it is non-empty (the previous
room at main.py:220 is read only after the `num_rooms == 0` test at
main.py:211). The unguarded read of `rooms[0]` is in `game_initialize`
(main.py:484). `Dungeon.MapCreate` shows `rooms[0]` exists whenever at
least one attempt is made; `Game.PlacementDefined` adds that, on a square
map with rooms at least 2 cells across, its center is floor and the
free-tile list is non-empty.

## Model

| member | source | states |
|---|---|---|
| Rects.FromSize | main.py:31-35 | A rectangle built from a corner and a size has that corner and extends exactly w by h. |
| Rects.Center | main.py:37-40 | The center of a rectangle lies within it, and strictly inside it when the rectangle is at least 2 cells wide and high. |
| Rects.IntersectIffSharedCell | main.py:42-45 | Two rectangles intersect exactly when some cell lies in both (borders included), and intersection is symmetric. |
| Grid.AllBlocked | main.py:179 | The fresh map has the configured width and height and no open cell. |
| Carve.CreateRoom | main.py:159-163 | After carving, a cell is open exactly when it was open before or lies strictly inside the room; nothing is ever blocked. |
| Carve.CreateHTunnel | main.py:166-169 | The tunnel opens exactly the cells of row y between x1 and x2, both ends included, in either order. |
| Carve.CreateVTunnel | main.py:172-175 | The tunnel opens exactly the cells of column x between y1 and y2, both ends included, in either order. |
| Carve.Connect | main.py:222-230 | The corridor opens exactly the cells of the L-shaped path from the previous center to the new one, bending according to the coin. |
| Carve.ConnectJoins | main.py:222-230 | After the corridor is dug, every corridor cell and the new center can be walked to from the previous center. |
| Carve.RoomInteriorConnected | main.py:159-163 | Every interior cell of a carved room can be walked to from the room's center. |
| Dungeon.Collides | main.py:195-200 | A candidate is rejected exactly when it intersects some accepted room. |
| Dungeon.Accept | main.py:202-234 | An accepted room is appended to the room list; a cell is open afterwards exactly when it was open before, lies inside the new room, or lies on the corridor from the previous room's center (only when there is a previous room). |
| Dungeon.Attempt | main.py:184-234 | One attempt appends its room exactly when it collides with no accepted room; a rejected candidate leaves the whole level, map included, unchanged; an accepted one is carved and connected as `Accept` states. |
| Dungeon.Generate | main.py:184-234 | The attempt loop keeps the map and its rooms inside the bounds and adds at most one room per attempt. |
| Dungeon.GenerateKeepsRooms | main.py:184-234 | The attempt loop never drops or reorders an accepted room: the rooms it started with stay a prefix of the list. |
| Dungeon.GenerateRoomsFromDraws | main.py:184-234 | Every room the attempt loop adds is the room of one of the draws. |
| Dungeon.AttemptInv | main.py:184-234 | One attempt keeps rooms inside the map, pairwise apart, their interiors open and all floor reachable from the first center; it never blocks a cell. |
| Dungeon.GenerateInv | main.py:184-234 | The whole attempt loop keeps that invariant, never blocks a cell, and the first accepted room stays first. |
| Dungeon.MapCreate | main.py:178-251 | The map has the configured size; there are at most MAX_ROOMS rooms, each inside the map and of allowed size, no two intersecting; with one attempt or more the first draw is the first room; every room interior is floor and every floor cell is reachable from the first room's center. |
| Dungeon.MapCreateEdgeWalled | main.py:159-234 | With rooms at least 2 cells across, no floor is ever carved in column 0 or row 0: room interiors start one past a border at 0 or more, and corridors run between room centers. |
| Dungeon.RoomCentersReachable | main.py:178-251 | With rooms at least 2 cells across, every room's center is floor and is reachable from the first room's center. |
| Game.PlacementDefined | main.py:484-493 | With at least one attempt and rooms at least 2 across on a square map, `rooms[0]` exists, its center is floor, and the free-tile list is not empty. |
| Game.ShippedConfig | constants.py:3-16 | The shipped constants satisfy the generator's range requirements and those of `PlacementDefined`. |
| FreeTiles.GetFreeTiles | main.py:371-377 | The list holds every floor cell once and nothing else, in row-by-row order. |
| FreeTiles.RandomFreeTile | main.py:382-389 | The picked cell is floor and is in the free-tile list. |
| FreeTiles.EveryFreeTilePickable | main.py:382-389 | Every floor cell is returned for exactly one index. |
| Text.IntRoundTrip | main.py:121-129 | The decimal text of a number in a message reads back as that number, so different values print differently. |
| Combat.NewCreature | main.py:80-89 | A new creature starts at full health. |
| Combat.GameMessage | main.py:26-27 | Logging appends exactly the given text and color and changes nothing else. |
| Combat.AddEntity | main.py:22-24 | Adding nothing changes nothing; adding an entity appends it and keeps every earlier entity in place. |
| Combat.AddEntityKeepsValid | main.py:22-24 | Adding a creature-bearing entity with a new identity keeps the session well formed. |
| Combat.SumBounds | main.py:139-146 | The sum of n die values each in [1, sides] lies in [n, n * sides]. |
| Combat.Roll | main.py:139-146 | Rolling `dice` dice of `sides` sides yields a total between `dice` and `dice * sides`. |
| Combat.AttackMod | main.py:91-95 | The attack value lies between the number of dice and the number of dice times their sides. |
| Combat.MapCheckForCreature | main.py:272-285 | The result is the first entity, other than the excluded one, standing on the cell, or none when no such entity exists. |
| Combat.RemoveFirst | main.py:154 | Removing an entity drops exactly its one occurrence and keeps the others in order. |
| Combat.DeathMonster | main.py:148-154 | A death logs the gray death message, strips the creature and AI components and removes exactly that entity from the list. |
| Combat.TakeDamage | main.py:127-133 | Damage lowers hp by its amount and logs the new hp; the entity is removed with a death message exactly when hp drops to 0 or below and it has a death function. |
| Combat.Attack | main.py:120-125 | An attack logs the red attack message, then the white hp message with the lowered hp, then, when the target dies, the gray death message; the earlier log is kept; the target is removed, or only its hp is lowered and its position, glyph and AI stay; other entities are untouched. |
| Combat.AttackKeepsValid | main.py:120-133 | After an attack every entity still has a creature and identities stay unique. |
| Combat.MoverSurvivesAttack | main.py:108-111 | The attacker is still in the list, unchanged, after attacking another entity. |
| Combat.Move | main.py:97-118 | A guarded-out move changes nothing; a move onto another entity attacks it and the mover stays; otherwise the mover advances by exactly (dx, dy) when the (Python-indexed) tile is open and stays put when it is blocked; dice are read only for an attack; the map never changes and the session stays well formed. |
| MoveBounds.MoveLeavesMap | main.py:97-104 | As written, a player at column 0 of a 3 x 3 map stepping left moves to column -1, off the map. |
| MoveBounds.MoveChecked | main.py:97-118 | With the destination checked against 0, a move whose destination lies below 0 is rejected and leaves the session unchanged; every other move behaves as the written one; an entity on the map stays on the map. |
| Visibility.MakeFov | main.py:254-262 | The FOV table has the map's size and marks a cell transparent, and walkable, exactly when it is floor. |
| Visibility.MarkExplored | main.py:306-315 | After a frame a cell is explored exactly when it was explored before or is visible now. |
| Visibility.ExploredMonotone | main.py:306-315 | Over any sequence of frames, an explored cell stays explored. |
| Visibility.MarkIdempotent | main.py:306-315 | Drawing the same visible set twice explores nothing more than drawing it once. |

## Left out

- Field-of-view computation (`map_calculate_fov`, `libtcod.map_compute_fov`): it is library code; the visible set is an input to `Visibility.MarkExplored`.
- Rendering (`draw_iso`, `draw_map`'s drawing, `draw_messages`, `draw_game`, `obj_Entity.draw`) and the terminal setup: presentation only.
- The main loop and key handling (`game_main_loop`, `game_handle_keys`): input plumbing.
- `AI_test.take_turn`: it only calls `move` with two random values in [-1, 1], which `Combat.Move` covers for any deltas.
- `NPC_wrapper` and the rest of `game_initialize`: construction of the concrete player and two monsters; only the placement facts are modelled (`Game.PlacementDefined`).
- `print` calls in `move`, `roll` and `random_free_tile`: console output only.
- The branch of `map_check_for_creature` without an exclusion (main.py:288-292): every caller passes an exclusion.
- `Dungeon.MapCreate`: the random values are grouped per attempt (w, h, x, y, coin) instead of one flat stream; a coin is only read when a corridor is dug, so the results are the same for every choice of values.
- `Dungeon.MapCreate`: the call to `map_make_fov` at its end is modelled separately as `Visibility.MakeFov`.
- `FreeTiles.GetFreeTiles`: requires a square map, because the source scans `len(map)` rows and `len(map[0])` columns while indexing `[x][y]`; the shipped map is 20 x 20.
- `Combat.Move`: requires a square map (both guards compare with the map's width) and a destination the Python list indexing accepts (no more than one map width below 0); the shipped map is square and moves are by at most one cell.
- Combat.Roll: the number of dice is a natural number; a negative count would roll nothing in Python.
- Combat.Roll: each die value lies in [1, sides], so a creature with at least one die and fewer than 1 side has no valid roll and cannot attack in the model; what the random library does with such a range is not modelled. Every creature in main.py rolls 1d6.
- `Combat.Move`: the entity list is assumed to hold only creature-bearing entities with distinct identities, which is what `game_initialize` builds.
- `struct_Tile.explored` is kept in a separate table (`Visibility`) rather than in the map cells.

## Findings

| source | as written | input that shows it | evidently intended | confidence | as-written member | corrected member |
|---|---|---|---|---|---|---|
| main.py:98-104 | The lower-bound guards test the current coordinate (`self.owner.y < 0`, `self.owner.x < 0`), not the destination, so a step from column or row 0 towards -1 passes; `current_map[-1][...]` then reads the opposite edge. | 3 x 3 map whose only floor is (2, 1); player at (0, 1) moves by (-1, 0) and ends at (-1, 1). | Reject when the destination is below 0, as for the upper bound. On a generated map with rooms at least 2 cells across column 0 and row 0 are all wall (`Dungeon.MapCreateEdgeWalled`), so nothing placed on floor starts there and only a hand-built map shows the defect. | not executed | MoveBounds.MoveLeavesMap | MoveBounds.MoveChecked |
