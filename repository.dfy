/** The layered variant's repository (data/repository.py): the one owner of
    the game data record, through which the logic layer writes it. */
module Repository {
  import Lists
  import Rules
  import opened Entities

  class GameRepository {
    /** The single record created with the repository; every later call
        works on this same object. */
    const gameData: GameData

    constructor ()
      ensures fresh(gameData) && gameData.State() == Rules.Start() && gameData.tiles == []
      ensures gameData.columns == Rules.Columns && gameData.canvasHeight == Rules.CanvasHeight
      ensures gameData.tileWidth == Rules.TileWidth && gameData.tileHeight == Rules.TileHeight
      ensures gameData.canvasWidth == gameData.columns * gameData.tileWidth
    {
      gameData := new GameData();
    }

    /** Back to score 0, speed 5, delay 800, running, with no tiles. */
    method ResetGameData()
      modifies gameData
      ensures gameData.State() == Rules.Start() && gameData.tiles == []
    {
      gameData.SetScore(0);
      gameData.SetSpeed(5);
      gameData.SetSpawnDelay(800);
      gameData.SetGameOver(false);
      gameData.ClearTiles();
    }

    /** Appends the tile to the end of the record's list. */
    method SaveTile(tile: Tile)
      modifies gameData`tiles
      ensures gameData.tiles == old(gameData.tiles) + [tile]
    {
      gameData.AddTile(tile);
    }

    /** Removes the first occurrence of the tile, which must be present. */
    method DeleteTile(tile: Tile)
      requires tile in gameData.tiles
      modifies gameData`tiles
      ensures gameData.tiles == Lists.RemoveFirst(old(gameData.tiles), tile)
    {
      gameData.RemoveTile(tile);
    }

    /** The record's list of tiles, the same tile objects in the same order. */
    method GetAllTiles() returns (tiles: seq<Tile>)
      ensures tiles == gameData.tiles
    {
      tiles := gameData.tiles;
    }

    method UpdateScore(score: int)
      modifies gameData`score
      ensures gameData.score == score
    {
      gameData.SetScore(score);
    }

    method UpdateSpeed(speed: int)
      modifies gameData`speed
      ensures gameData.speed == speed
    {
      gameData.SetSpeed(speed);
    }

    method UpdateSpawnDelay(delay: int)
      modifies gameData`spawnDelay
      ensures gameData.spawnDelay == delay
    {
      gameData.SetSpawnDelay(delay);
    }
  }
}
