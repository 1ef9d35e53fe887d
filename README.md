# Piano Tiles game engine, in Dafny

This project models the game-state engine of a falling-tile ("Piano Tiles")
game, written in Python, and proves properties of it. Tiles spawn in one of
four lanes and fall by their own speed on every tick. A click on an unclicked
tile scores one point. Every 5 points the speed rises by one, up to 15, and
every live tile is retargeted to the new speed. Every 10 points the spawn
delay drops by 50 ms, down to 400. An unclicked tile whose bottom edge passes
the field ends the game. So does a click that hits nothing while some tile
is visible.

The repository implements this engine twice, and the model covers both:

- **The MVC variant.** `models/tile.py` and `controllers/game.py` become the
  classes `Tiles.Tile` and `Controller.GameController`.
- **The layered variant.** `data/entities.py`, `data/repository.py` and
  `bussiness_logic/game_logic.py` become `Entities.Tile`,
  `Entities.GameData`, `Repository.GameRepository` and
  `BusinessLogic.GameLogic`. `GameUi.GameUI` composes these calls the way
  `presentation/game_ui.py` does, without its widgets.

Both variants are specified by one value-level machine, the module `Rules`:
- `TileView`, `Level` and `Game` are values.
- `Start`, `Spawn`, `Tick`, `Click`, `Score` and `End` are functions on them.

Each tile class has a `View()`, the tile's fields as a `TileView`. The
classes that own the game state (`GameController`, `GameData`, `GameLogic`
and `GameUI`) have a ghost `State()`: the level, the game-over flag and the
`View()` of each tile they hold. The engine's operations are proved to move
`State()` exactly as the matching `Rules` function does. These operations
are start, spawn, tick, click, score, end, restart and tile creation.

The lower-level pieces are specified field by field or against the tiles'
views, not by a `Rules` step. These pieces are:
- the setters and the list mutators;
- the repository's methods;
- the sweep and retargeting loops;
- `CheckClick` and `MoveTiles` of the logic layer.

The operations above are proved from those contracts. The controller and the
layered composition carry the same contracts, so the two variants are proved
to run the same engine. Methods that loop over the tile list also say which
tile objects the list holds afterwards, not just their values.

The module `Invariants` states `Healthy`, a property of every reachable
state:
- the level follows the closed-form schedule of its score;
- every tile is well formed and carries the global speed;
- while the game runs, no tile is missed.

It proves that every operation keeps `Healthy`. It also proves what follows
from it, for example that a tick never removes an unclicked tile. The
module `Lists` holds ordered filtering (`Select`) and Python's `list.remove`
(`RemoveFirst`, `RemoveEach`). It proves that removing the collected tiles
one by one leaves exactly the unflagged tiles, in order.

The source's pure predicates are defined through the `Rules` predicates
`Contains`, `OutOfBounds`, `Missed` and `Visible`:
- `is_clicked_at` and `is_click_inside_tile` use `Contains`;
- `is_out_of_bounds` and `is_tile_out_of_bounds` use `OutOfBounds`;
- `is_missed` and `is_tile_missed` use `Missed`.

Their properties are stated as lemmas about those predicates.

## Model

| member | source | states |
|---|---|---|
| Rules.Contains | models/tile.py:18-21 | Defines the hit test: x <= px <= x + width and y <= py <= y + height, inclusive on all four edges. |
| Rules.OutOfBounds | models/tile.py:27-29 | Defines out of bounds: the top edge is strictly below the field, `y > h`. |
| Rules.Missed | models/tile.py:31-33 | Defines missed: unclicked, with the bottom edge strictly below the field, `y + height > h`. |
| Rules.Visible | controllers/game.py:85-86 | Defines visible: the top edge lies in [0, h). |
| Tiles.Tile.IsClickedAt | models/tile.py:18-21 | The tile's hit test, `Contains` of its state. |
| Tiles.Tile.IsOutOfBounds | models/tile.py:27-29 | `OutOfBounds` of the tile's state. |
| Tiles.Tile.IsMissed | models/tile.py:31-33 | `Missed` of the tile's state. |
| BusinessLogic.GameLogic.IsTileOutOfBounds | bussiness_logic/game_logic.py:36-37 | `OutOfBounds` of the tile's state against the record's canvas height. |
| BusinessLogic.GameLogic.IsTileMissed | bussiness_logic/game_logic.py:39-41 | `Missed` of the tile's state against the record's canvas height. |
| BusinessLogic.GameLogic.IsClickInsideTile | bussiness_logic/game_logic.py:55-57 | `Contains` of the tile's state: the same inclusive hit test as the MVC tile's. |
| Rules.Start | data/entities.py:34-39 | The initial state is running, with no tiles, at the level the schedule gives for zero points (score 0, speed 5, delay 800). |
| Rules.AddTile | bussiness_logic/game_logic.py:10-19 | Creating a tile keeps the level and the flag and extends the list by exactly one. The earlier tiles are kept in order. The new tile is in lane `column`, unclicked, at y = -150, with the current global speed. |
| Rules.Spawn | controllers/game.py:30-37 | Defines a spawn: nothing once the game is over, otherwise `AddTile`. |
| Rules.MoveTiles | bussiness_logic/game_logic.py:21-34 | Defines the in-order sweep of one tick. Tiles are moved up to and including the first fatal one, and tiles before it that are out of bounds once moved are flagged. The moved list and the flags have the list's length. The sweep lemmas below characterise it. |
| Rules.Tick | controllers/game.py:43-64 | A tick never changes the level, never lengthens the list, and changes nothing once the game is over. `SweepContinues`, `SweepStops` and `TickHealthy` state the rest. |
| Rules.Retarget | controllers/game.py:99-100 | Every tile takes the new speed and nothing else about it changes. The list keeps its length. |
| Rules.End | controllers/game.py:105-108 | Ending the game sets the flag and keeps the level and the tiles. |
| Rules.Score | controllers/game.py:90-103 | One point: the level becomes `Scored` of the old one. The flag and the number of tiles stay, and each tile changes at most its speed. On a speed step every tile takes the new global speed. Otherwise the tiles are unchanged. |
| Rules.Click | controllers/game.py:68-88 | A click changes nothing once the game is over and never changes the number of tiles. The level either stays or becomes `Scored` of the old one. `ClickHitsFirst` and `ClickMisses` state which. |
| Tiles.Tile.constructor | models/tile.py:4-12 | The new tile is in lane `column` with x = column * width and y = -height (fully above the field). It is unclicked and stores the given width, height and speed. |
| Tiles.Tile.Move | models/tile.py:14-16 | The tile's state becomes `Moved` of the old one: `y` grows by the tile's own speed and only `y` may change. |
| Rules.MovedOnlyFalls | models/tile.py:14-16 | A move changes `y` by exactly the speed and leaves every other field as it was. |
| Rules.ContainsEdges | models/tile.py:18-21 | The hit test is inclusive: it holds at the top-left and bottom-right corners. It fails one unit beyond any of the four edges. |
| Tiles.Tile.MarkClicked | models/tile.py:23-25 | Sets `clicked` to true whatever it was, so a second call changes nothing. No other field changes. |
| Rules.MissedBeforeOut | models/tile.py:27-33 | A clicked tile is never missed. An unclicked tile of positive height that is out of bounds (strictly `y > h`) is also missed. |
| Tiles.MoveAt | controllers/game.py:50-51 | Moving tile `i` of a duplicate-free list advances the list's states by one tile along the sweep. Every other tile keeps its state. |
| Tiles.SetSpeeds | controllers/game.py:99-100 | Every tile of a duplicate-free list takes the new speed. The list's states are the old ones retargeted, and nothing else about a tile changes. |
| Rules.Scored | controllers/game.py:92-103 | One point adds exactly 1 to the score. The speed rises by at most 1 and the spawn delay drops by at most 50. From a speed in [5, 15] the speed stays in [5, 15]. From a delay that is a multiple of 50 in [400, 800], the delay stays so. |
| Rules.ScoredFollowsSchedule | controllers/game.py:92-103 | Scoring one point from the level scheduled for `n` points gives the level scheduled for `n + 1`. The level scheduled for `n` has speed min(5 + n/5, 15) and delay max(800 - 50*(n/10), 400). |
| Rules.LevelAtClosedForm | controllers/game.py:92-103 | The level reached from the start after `n` points equals the closed-form schedule. |
| Rules.DifficultyMilestones | controllers/game.py:95-103 | After 5 points the speed is 6. After 10 points the level is score 10, speed 7, delay 750. |
| Rules.LevelBounds | controllers/game.py:95-103 | From the start, the speed stays in [5, 15] and the delay in [400, 800]. The speed reaches 15 at 50 points and the delay reaches 400 at 80, and neither changes afterwards. |
| Invariants.HealthyBounds | controllers/game.py:95-103 | In every state that satisfies `Healthy`, 5 <= speed <= 15 and 400 <= spawn delay <= 800. |
| Rules.FirstFatal | controllers/game.py:50-60 | Returns the position where the sweep stops: no earlier tile is fatal once moved. If it is inside the list, the tile there is fatal once moved (not out of bounds, but missed). |
| Rules.SweepStopsAt | controllers/game.py:57-60 | If the loop meets a fatal tile at `i`, then `i` is the first fatal position, the game does not go on, and exactly tiles 0..i have moved. |
| Rules.SweepEnds | controllers/game.py:50-61 | If the loop runs off the end, the game goes on and every tile has moved. |
| Rules.SweepCollects | controllers/game.py:55-56 | The tiles the loop collected before it stopped are exactly the tiles the sweep flags for removal, in list order. |
| Rules.SweepContinues | controllers/game.py:50-64 | A tick goes on exactly when no moved tile is fatal. In that case every tile moved by its own speed, and exactly the tiles then out of bounds are flagged. |
| Rules.SweepStops | controllers/game.py:55-60 | A tick that stops does so at a fatal tile `k`, and every earlier tile moved without being fatal. Later tiles keep their position, and none from `k` on is flagged. |
| Rules.FirstHit | controllers/game.py:75-81 | Returns the position of the first tile that is unclicked and contains the point: every earlier tile is clicked or misses the point. It returns the list length when there is none. |
| Rules.HitMovesOn | bussiness_logic/game_logic.py:47-53 | Once the hit tile is marked, the same point no longer hits it: the next hit lies strictly later in the list. |
| Rules.GameOverIsFinal | controllers/game.py:30-71 | Once the game is over, ticks, clicks and spawns change nothing. The start state is not over. |
| Rules.ClickHitsFirst | controllers/game.py:73-81 | A hit marks the first unclicked tile containing the point and adds exactly 1 to the score. The game does not end, and no other tile changes its clicked flag. |
| Rules.ClickMisses | controllers/game.py:83-88 | A click that hits nothing ends the game exactly when some tile has 0 <= y < 600. Otherwise the whole state is unchanged. The level and the tiles never change. |
| Rules.RepeatedClick | controllers/game.py:68-88 | Clicking the same point again, with no other unclicked tile under it, leaves the whole level unchanged: no point, no speed or delay step. If the tile marked by the first click is visible, the second click ends the game. |
| Invariants.StartHealthy | controllers/game.py:14-18 | The initial state (score 0, speed 5, delay 800, no tiles) satisfies `Healthy`. |
| Invariants.AddTileHealthy | controllers/game.py:35-37 | Spawning in a lane within [0, 4) keeps `Healthy`. |
| Invariants.TickRemovesOnlyClicked | controllers/game.py:55-60 | In a running state that satisfies `Healthy`, every tile a tick flags for removal is a clicked one. An unclicked tile always ends the game before it can leave the field. |
| Invariants.TickFalls | controllers/game.py:50-51 | In a running state that satisfies `Healthy`, every moved tile falls by at least 5. |
| Invariants.TickHealthy | controllers/game.py:43-64 | A tick keeps `Healthy`. |
| Invariants.MarkHealthy | controllers/game.py:76-77 | Marking a tile clicked keeps `Healthy`. |
| Invariants.ScoreHealthy | controllers/game.py:90-103 | Scoring keeps `Healthy`, with the retargeted tiles following the new speed. |
| Invariants.ClickHealthy | controllers/game.py:68-88 | A click keeps `Healthy`. |
| Invariants.LoneTileFalls | controllers/game.py:43-64 | In a fresh game with one spawned tile, the tile falls 5 per tick from -150. After each of the first 120 ticks the game is still running and that tile is the only one. |
| Invariants.LoneTileMissed | controllers/game.py:57-60 | On the 121st tick the unclicked lone tile is missed and the game ends, with the tile at y = 455. |
| Invariants.FirstClickScenario | controllers/game.py:68-81 | One spawn in lane 0, one tick, then a click at (50, -145): the tile is marked, the score is 1, and speed and delay are unchanged. |
| Lists.RemoveFirst | data/entities.py:76-77 | `list.remove` drops one occurrence: the result is one shorter and has the multiset of the list minus that element. |
| Lists.RemoveFirstSplice | data/entities.py:76-77 | `list.remove` cuts out exactly the first occurrence: the elements before it and after it stay, in order. |
| Lists.RemoveFirstDistinct | data/entities.py:76-77 | `list.remove` on a duplicate-free list leaves it duplicate-free. |
| Lists.RemoveEachDistinct | bussiness_logic/game_logic.py:43-45 | Removing listed elements one by one from a duplicate-free list leaves it duplicate-free. |
| Lists.RemoveEach | bussiness_logic/game_logic.py:43-45 | Removing each listed element in turn shortens the list by the number of elements removed. |
| Lists.RemoveEachSelected | controllers/game.py:62-64 | On a duplicate-free list, removing the selected elements one by one always succeeds. It leaves exactly the unselected elements, in their order. |
| Controller.GameController.constructor | controllers/game.py:6-23 | The new controller is in state `Spawn(Tick(Start()), column)`: score 0, speed 5, delay 800, running, one fresh tile. Its canvas width is 400 and the state satisfies `Healthy`. |
| Controller.GameController.StartGame | controllers/game.py:25-28 | The state becomes one tick followed by one spawn. On an empty running game that adds exactly one fresh tile. |
| Controller.GameController.SpawnTile | controllers/game.py:30-41 | Once the game is over nothing changes. Otherwise one fresh tile with the global speed is appended at the end and the earlier tiles are kept in order. |
| Controller.GameController.GameLoop | controllers/game.py:43-66 | The state becomes `Tick` of the old one. When the tick goes on, the list keeps exactly the unflagged tile objects, in order. When it stops, the list is as it was. Once the game is over nothing changes. |
| Controller.GameController.SweepTiles | controllers/game.py:48-60 | The loop of a tick: the tiles' states become the sweep's, and the game is over exactly when the sweep stops. When it goes on, the collected tiles are exactly the flagged ones, in list order. |
| Controller.GameController.RemoveAll | controllers/game.py:62-64 | The list becomes the result of `list.remove` applied to each collected tile in turn, and stays duplicate-free if it was. |
| Controller.GameController.OnClick | controllers/game.py:68-88 | The state becomes `Click` of the old one, and the list holds the same tile objects. |
| Controller.GameController.IncreaseScore | controllers/game.py:90-103 | The state becomes `Score` of the old one: one point, and on a speed step every live tile is retargeted. `Healthy` is kept. |
| Controller.GameController.EndGame | controllers/game.py:105-108 | The state becomes `End` of the old one: the game-over flag is set and nothing else changes. |
| Controller.GameController.RestartGame | controllers/game.py:110-125 | Clears the tiles, restores the initial level and flag, and starts again. The state becomes `Spawn(Tick(Start()), column)`, holding one fresh tile. |
| Entities.Tile.constructor | data/entities.py:2-9 | Placed in lane `column` with x = column * width and y = -height, unclicked, storing width, height and speed as given. |
| Entities.Tile.SetClicked | data/entities.py:20-21 | Only `clicked` changes, to the given value. |
| Entities.Tile.SetSpeed | data/entities.py:23-24 | Only `speed` changes, to the given value. |
| Entities.Tile.UpdatePosition | data/entities.py:29-30 | Only `y` changes, to exactly the given value. |
| Entities.UpdatePositionAt | bussiness_logic/game_logic.py:25-26 | Setting tile `i` to its own `y + speed` advances the list's states by one tile along the sweep. Every other tile keeps its state. |
| Entities.GameData.constructor | data/entities.py:34-44 | Score 0, speed 5, delay 800, running, no tiles. There are 4 lanes of 100 by 150 tiles, a field 600 high, and canvas width = columns * tile width. |
| Entities.GameData.SetScore | data/entities.py:49-50 | Only the score changes, to the given value. |
| Entities.GameData.SetSpeed | data/entities.py:55-56 | Only the global speed changes, to the given value. |
| Entities.GameData.SetSpawnDelay | data/entities.py:61-62 | Only the spawn delay changes, to the given value. |
| Entities.GameData.SetGameOver | data/entities.py:67-68 | Only the game-over flag changes, to the given value. |
| Entities.GameData.AddTile | data/entities.py:73-74 | Appends the tile at the end, keeping the earlier tiles in order. |
| Entities.GameData.RemoveTile | data/entities.py:76-77 | Requires the tile to be present. Removes its first occurrence and keeps the others in order. |
| Entities.GameData.ClearTiles | data/entities.py:79-80 | The tile list becomes empty. |
| Repository.GameRepository.constructor | data/repository.py:4-8 | Creates the one game data record, in its initial state and configuration. The record is a constant field, so every later call works on it. |
| Repository.GameRepository.ResetGameData | data/repository.py:10-15 | The record returns to the initial state: score 0, speed 5, delay 800, running, no tiles. |
| Repository.GameRepository.SaveTile | data/repository.py:17-18 | Appends the tile to the end of the record's list. |
| Repository.GameRepository.DeleteTile | data/repository.py:20-21 | Requires the tile to be present. Removes its first occurrence from the record's list. |
| Repository.GameRepository.GetAllTiles | data/repository.py:23-24 | Returns the record's list as it is at the call: the same tile objects in the same order, not copies. Moves and marks made through it therefore reach the record. |
| Repository.GameRepository.UpdateScore | data/repository.py:26-27 | Sets the score and nothing else. |
| Repository.GameRepository.UpdateSpeed | data/repository.py:29-30 | Sets the global speed and nothing else. |
| Repository.GameRepository.UpdateSpawnDelay | data/repository.py:32-33 | Sets the spawn delay and nothing else. |
| BusinessLogic.GameLogic.constructor | bussiness_logic/game_logic.py:6-8 | The logic reads the very record its repository owns, in the initial state with no tiles. |
| BusinessLogic.GameLogic.CreateNewTile | bussiness_logic/game_logic.py:10-19 | Appends one fresh tile in lane `column` with the current speed and returns it, with no game-over guard. The state becomes `AddTile` of the old one, and a duplicate-free list stays duplicate-free. |
| BusinessLogic.GameLogic.MoveTiles | bussiness_logic/game_logic.py:21-34 | The tiles' states become the sweep's and the returned flag says whether the sweep goes on. The returned list holds exactly the flagged tiles, in list order. Neither the list nor any field of the record changes. |
| BusinessLogic.GameLogic.RemoveTiles | bussiness_logic/game_logic.py:43-45 | The record's list becomes the result of `list.remove` applied to each listed tile in turn, and stays duplicate-free if it was. |
| BusinessLogic.GameLogic.CheckClick | bussiness_logic/game_logic.py:47-57 | Marks and returns the first unclicked tile, in list order, that contains the point. With none, returns `None` and changes nothing. |
| BusinessLogic.GameLogic.HasVisibleTiles | bussiness_logic/game_logic.py:59-63 | True exactly when some tile has 0 <= y < 600. |
| BusinessLogic.GameLogic.IncreaseScore | bussiness_logic/game_logic.py:65-78 | The state becomes `Score` of the old one, the same rule as the controller's, and the list holds the same tile objects. |
| BusinessLogic.GameLogic.SetAllSpeeds | bussiness_logic/game_logic.py:73-74 | Every tile of the list takes the new speed, and nothing else about a tile changes. |
| BusinessLogic.GameLogic.EndGame | bussiness_logic/game_logic.py:80-81 | The state becomes `End` of the old one: the game-over flag is set and nothing else changes. |
| BusinessLogic.GameLogic.ResetGame | bussiness_logic/game_logic.py:83-84 | The record returns to the initial state with no tiles. |
| GameUi.GameUI.constructor | presentation/game_ui.py:5-13 | The same initial state as the controller's: `Spawn(Tick(Start()), column)`, holding one fresh tile. |
| GameUi.GameUI.StartGame | presentation/game_ui.py:76-78 | One tick followed by one spawn, as the controller's `StartGame`. |
| GameUi.GameUI.SpawnTile | presentation/game_ui.py:80-87 | The guard around `CreateNewTile` makes it `Spawn` of the old state, as the controller's `SpawnTile`. |
| GameUi.GameUI.GameLoop | presentation/game_ui.py:99-117 | `MoveTiles`, then `EndGame` or `RemoveTiles`, compose to `Tick` of the old state. The tile objects that remain are the same as under the controller's `GameLoop`. |
| GameUi.GameUI.OnClick | presentation/game_ui.py:134-148 | `CheckClick` then `IncreaseScore`, or `HasVisibleTiles` then `EndGame`, compose to `Click` of the old state, as the controller's `OnClick`. |
| GameUi.GameUI.EndGame | presentation/game_ui.py:161-163 | The state becomes `End` of the old one: the game-over flag is set and nothing else changes. |
| GameUi.GameUI.RestartGame | presentation/game_ui.py:190-203 | Resets the record and starts again. The state becomes `Spawn(Tick(Start()), column)`, as the controller's `RestartGame`. |

## Left out

- The view and the widgets are left out: the `self.view.*` calls in `controllers/game.py`, and the canvas, labels, `tile_graphics` dictionary and game-over drawing of `presentation/game_ui.py`. They only display the engine's state. `views/views.py` and `main.py` are not part of this model.
- Timers are left out (`schedule_callback`, `root.after`, the 30 ms tick cadence and the spawn delay used as a timeout). A tick and a spawn are each one method call. The spawn delay is only a value the engine keeps.
- `random.randint` is left out. The lane is a parameter with `0 <= column < 4`.
- Trivial getters are not separate members. `get_position`, `get_dimensions`, `is_clicked`, `get_speed`, `get_score`, `get_tiles`, `is_game_over` and the configuration getters are field reads. `get_game_data` is the constant field `gameData`.
- The duplicate-free tile list is a precondition. The methods that move, mark or retarget tiles while scanning the list require that no tile object occurs twice in it (`Lists.Distinct`). This is part of the `Valid` of `GameController`, `GameLogic` and `GameUI`. The removal loops (`RemoveAll`, `RemoveTiles`) instead require that each `list.remove` call finds its tile (`Lists.Removable`). The operations of `GameController` and `GameUI` are proved to keep the list duplicate-free. `GameLogic.CreateNewTile`, `GameLogic.RemoveTiles` and the controller's `RemoveAll` keep it whenever it holds before the call. The record's `AddTile`/`RemoveTile` and the repository's `SaveTile`/`DeleteTile`, like Python's `append` and `remove`, do not state it; `GameUI` proves it where it calls them.
- The widths and heights are constants. The configuration fields (`columns`, `tile_width`, `tile_height`, `canvas_width`, `canvas_height`) are never reassigned, so they are `const`.
- Some loops are their own methods: the tile loop of a tick (`SweepTiles`), the retargeting loops (`SetSpeeds`, `SetAllSpeeds`) and one tile's move within the sweep (`MoveAt`, `UpdatePositionAt`). Each is inline in the source and has the same effect there.
- Integer semantics need no special handling. Python's integers are unbounded, like Dafny's. Python's `%` and Dafny's agree for the positive divisors 5 and 10.
- A fresh or restarted game holds one tile. The constructors and the restarts call `start_game`, which runs one (empty) tick and spawns one tile, so they do not leave an empty list. The model follows the code: the restarts ensure `Spawn(Tick(Start()), column)`.
- The tile list is a value, not an aliased list object. `Repository.GameRepository.GetAllTiles` returns the list's value at the call. A later `SaveTile` or `DeleteTile` does not show through that value, as it would through Python's shared list. No caller in the source changes the list while holding the returned reference, and the tile objects themselves are shared as in the source.
- Controller.GameController.SweepTiles: says nothing of the tiles collected when an unclicked missed tile ends the game, because `game_loop` returns at once and discards that list.
- `presentation/game_ui.py:2` imports `business_logic`, which does not match the `bussiness_logic` directory. That import is not modelled: the composition calls `BusinessLogic.GameLogic` directly.
