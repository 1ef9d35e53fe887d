/** The layered variant's game logic (bussiness_logic/game_logic.py): the
    same engine as the controller, split into separate calls. Moving the
    tiles only reports whether the game goes on and which tiles to remove;
    a click only marks a tile; the caller decides when the game is over. */
module BusinessLogic {
  import Lists
  import opened Rules
  import opened Entities
  import opened Repository

  datatype Option<T> = None | Some(value: T)

  class GameLogic {
    const repository: GameRepository
    const gameData: GameData

    /** The logic reads the very record the repository writes, and that
        record has the configuration its constructor gives it. */
    ghost predicate Linked() {
      gameData == repository.gameData &&
      gameData.columns == Columns && gameData.tileWidth == TileWidth &&
      gameData.tileHeight == TileHeight && gameData.canvasHeight == CanvasHeight
    }

    /** Linked, and the tile list holds distinct objects (every tile is a
        fresh object appended once). */
    ghost predicate Valid()
      reads gameData
    {
      Linked() && Lists.Distinct(gameData.tiles)
    }

    /** The game data as a value. */
    ghost function State(): Game
      reads gameData, gameData.tiles
    {
      gameData.State()
    }

    constructor ()
      ensures Valid() && fresh(repository) && fresh(gameData)
      ensures State() == Start() && gameData.tiles == []
    {
      var r := new GameRepository();
      repository := r;
      gameData := r.gameData;
    }

    /** A new tile in lane `column` (the caller's random pick) with the
        current global speed, appended to the list and returned; unlike the
        controller's spawn there is no game-over guard here. */
    method CreateNewTile(column: int) returns (tile: Tile)
      requires Linked() && 0 <= column < gameData.columns
      modifies gameData`tiles
      ensures fresh(tile) && gameData.tiles == old(gameData.tiles) + [tile]
      ensures State() == AddTile(old(State()), column)
      ensures Lists.Distinct(old(gameData.tiles)) ==> Lists.Distinct(gameData.tiles)
    {
      tile := new Tile(column, gameData.tileWidth, gameData.tileHeight, gameData.speed);
      if Lists.Distinct(gameData.tiles) {
        Lists.DistinctSnoc(gameData.tiles, tile);
      }
      repository.SaveTile(tile);
      assert Views(gameData.tiles) == Views(old(gameData.tiles)) + [tile.View()];
    }

    /** Moves the tiles in list order, collecting the ones out of bounds;
        stops at the first unclicked missed tile and reports `false` with the
        tiles collected so far. The list and every field of the game data
        stay as they are. */
    method MoveTiles() returns (gameContinues: bool, tilesToRemove: seq<Tile>)
      requires Valid()
      modifies gameData.tiles
      ensures var s := Rules.MoveTiles(old(Views(gameData.tiles)), CanvasHeight);
              Views(gameData.tiles) == s.moved && gameContinues == s.continues &&
              tilesToRemove == Lists.Select(gameData.tiles, s.remove)
    {
      var tiles := repository.GetAllTiles();
      ghost var vs := Views(tiles);
      ghost var k := FirstFatal(vs, CanvasHeight);
      ghost var flags := OutFlags(vs, CanvasHeight);
      tilesToRemove := [];
      var i := 0;
      while i < |tiles|
        invariant 0 <= i <= |tiles| && i <= k
        invariant Views(tiles) == Swept(vs, i)
        invariant tilesToRemove == Lists.Select(tiles[..i], flags[..i])
      {
        var tile := tiles[i];
        var newY := tile.y + tile.speed;
        UpdatePositionAt(tiles, i, newY, vs);
        Lists.SelectStep(tiles, flags, i);
        if IsTileOutOfBounds(tile) {
          tilesToRemove := tilesToRemove + [tile];
        } else if IsTileMissed(tile) {
          if !tile.clicked {
            SweepStopsAt(vs, CanvasHeight, i);
            SweepCollects(tiles, vs, CanvasHeight, i);
            return false, tilesToRemove;
          }
        }
        i := i + 1;
      }
      SweepEnds(vs, CanvasHeight);
      SweepCollects(tiles, vs, CanvasHeight, i);
      assert tiles[..i] == tiles;
      return true, tilesToRemove;
    }

    /** The top edge is strictly below the field. */
    predicate IsTileOutOfBounds(tile: Tile)
      reads tile
    {
      OutOfBounds(tile.View(), gameData.canvasHeight)
    }

    /** Unclicked, with the bottom edge strictly below the field. */
    predicate IsTileMissed(tile: Tile)
      reads tile
    {
      Missed(tile.View(), gameData.canvasHeight)
    }

    /** Deletes each listed tile in turn, by its first occurrence; each must
        still be in the list when its turn comes. */
    method RemoveTiles(tilesToRemove: seq<Tile>)
      requires Linked() && Lists.Removable(gameData.tiles, tilesToRemove)
      modifies gameData`tiles
      ensures gameData.tiles == Lists.RemoveEach(old(gameData.tiles), tilesToRemove)
      ensures Lists.Distinct(old(gameData.tiles)) ==> Lists.Distinct(gameData.tiles)
    {
      if Lists.Distinct(gameData.tiles) {
        Lists.RemoveEachDistinct(gameData.tiles, tilesToRemove);
      }
      var j := 0;
      while j < |tilesToRemove|
        invariant 0 <= j <= |tilesToRemove|
        invariant Lists.Removable(gameData.tiles, tilesToRemove[j..])
        invariant Lists.RemoveEach(gameData.tiles, tilesToRemove[j..]) ==
                  Lists.RemoveEach(old(gameData.tiles), tilesToRemove)
      {
        var tile := tilesToRemove[j];
        assert tilesToRemove[j..][0] == tile && tilesToRemove[j..][1..] == tilesToRemove[j + 1..];
        repository.DeleteTile(tile);
        j := j + 1;
      }
    }

    /** Marks and returns the first unclicked tile, in list order, whose
        rectangle contains the point (edges included); with none, returns
        `None` and changes nothing. */
    method CheckClick(x: int, y: int) returns (clicked: Option<Tile>)
      requires Valid()
      modifies gameData.tiles
      ensures var vs := old(Views(gameData.tiles)); var k := FirstHit(vs, x, y);
              if k < |vs| then
                clicked == Some(gameData.tiles[k]) &&
                Views(gameData.tiles) == vs[k := vs[k].(clicked := true)]
              else
                clicked == None && Views(gameData.tiles) == vs
    {
      var tiles := repository.GetAllTiles();
      ghost var vs := Views(tiles);
      ghost var k := FirstHit(vs, x, y);
      var i := 0;
      while i < |tiles|
        invariant 0 <= i <= |tiles| && i <= k
        invariant Views(tiles) == vs
      {
        var tile := tiles[i];
        assert tile.View() == vs[i];
        if !tile.clicked {
          if IsClickInsideTile(tile, x, y) {
            Lists.DistinctOthers(tiles, i);
            tile.SetClicked(true);
            assert i == k;
            ViewsAre(tiles, vs[k := vs[k].(clicked := true)]);
            return Some(tile);
          }
        }
        i := i + 1;
      }
      return None;
    }

    /** The hit test, inclusive on all four edges. */
    predicate IsClickInsideTile(tile: Tile, x: int, y: int)
      reads tile
    {
      Contains(tile.View(), x, y)
    }

    /** Whether some tile's top edge lies in [0, canvas height). */
    method HasVisibleTiles() returns (visible: bool)
      requires Linked()
      ensures visible <==> AnyVisible(Views(gameData.tiles), CanvasHeight)
    {
      var tiles := repository.GetAllTiles();
      var i := 0;
      while i < |tiles|
        invariant 0 <= i <= |tiles|
        invariant forall j :: 0 <= j < i ==> !Visible(tiles[j].View(), CanvasHeight)
      {
        var tile := tiles[i];
        if tile.y >= 0 && tile.y < gameData.canvasHeight {
          assert Views(tiles)[i] == tile.View();
          return true;
        }
        i := i + 1;
      }
      return false;
    }

    /** One point: the speed rises every 5 points below 15, with every live
        tile retargeted, and the spawn delay drops by 50 every 10 points
        above 400. */
    method IncreaseScore()
      requires Valid()
      modifies gameData, gameData.tiles
      ensures State() == Score(old(State())) && gameData.tiles == old(gameData.tiles)
    {
      ghost var g0 := State();
      ghost var g1 := Score(g0);
      var newScore := gameData.score + 1;
      repository.UpdateScore(newScore);
      assert Views(gameData.tiles) == g0.tiles;
      if newScore % 5 == 0 && gameData.speed < 15 {
        var newSpeed := gameData.speed + 1;
        repository.UpdateSpeed(newSpeed);
        assert Views(gameData.tiles) == g0.tiles;
        SetAllSpeeds(newSpeed);
        assert SpeedStep(g0.level) && newSpeed == g1.level.speed;
      } else {
        assert !SpeedStep(g0.level);
      }
      assert Views(gameData.tiles) == g1.tiles;
      if newScore % 10 == 0 && gameData.spawnDelay > 400 {
        var newDelay := gameData.spawnDelay - 50;
        repository.UpdateSpawnDelay(newDelay);
      }
      assert Views(gameData.tiles) == g1.tiles && gameData.gameOver == g1.gameOver;
      assert State().level == g1.level;
    }

    /** The retargeting loop of `IncreaseScore`: every tile in the list, in
        order, takes the new speed; the record's own fields stay. */
    method SetAllSpeeds(newSpeed: int)
      requires Valid()
      modifies gameData.tiles
      ensures Views(gameData.tiles) == Retarget(old(Views(gameData.tiles)), newSpeed)
    {
      var tiles := repository.GetAllTiles();
      ghost var vs := Views(tiles);
      var i := 0;
      while i < |tiles|
        invariant 0 <= i <= |tiles|
        invariant forall j :: 0 <= j < i ==> tiles[j].View() == vs[j].(speed := newSpeed)
        invariant forall j :: i <= j < |tiles| ==> tiles[j].View() == vs[j]
      {
        Lists.DistinctOthers(tiles, i);
        tiles[i].SetSpeed(newSpeed);
        i := i + 1;
      }
      ViewsAre(tiles, Retarget(vs, newSpeed));
    }

    /** Sets the game-over flag and nothing else. */
    method EndGame()
      modifies gameData`gameOver
      ensures State() == End(old(State()))
    {
      gameData.SetGameOver(true);
    }

    /** Back to the initial state, with no tiles. */
    method ResetGame()
      requires Linked()
      modifies gameData
      ensures State() == Start() && gameData.tiles == []
    {
      repository.ResetGameData();
    }
  }
}
