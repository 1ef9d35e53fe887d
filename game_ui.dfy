/** How the presentation layer of the layered variant (presentation/game_ui.py)
    composes the logic calls, without its widgets, drawings and timers. Each
    operation moves the game data exactly as the matching function of Rules
    does, which is also what the controller's operation of the same name is
    proved to do: the two variants run the same engine. */
module GameUi {
  import Lists
  import opened Rules
  import opened Invariants
  import opened Entities
  import opened BusinessLogic

  class GameUI {
    const gameLogic: GameLogic
    const gameData: GameData

    /** The game data as a value. */
    ghost function State(): Game
      reads gameData, gameData.tiles
    {
      gameData.State()
    }

    /** The interface reads the record the logic writes. */
    ghost predicate Wired() {
      gameData == gameLogic.gameData && gameLogic.Linked()
    }

    /** Wired, the tiles are distinct objects and the state satisfies
        `Healthy`. */
    ghost predicate Valid()
      reads gameData, gameData.tiles
    {
      Wired() && Lists.Distinct(gameData.tiles) && Healthy(State())
    }

    /** A new interface starts the game: one (empty) tick, then one spawn in
        lane `column`. */
    constructor (column: int)
      requires 0 <= column < Columns
      ensures Valid() && State() == Spawn(Tick(Start()), column)
      ensures fresh(gameData) && |gameData.tiles| == 1 && fresh(gameData.tiles[0])
    {
      var logic := new GameLogic();
      gameLogic := logic;
      gameData := logic.gameData;
      new;
      StartHealthy();
      StartGame(column);
    }

    /** One tick followed by one spawn in lane `column`. */
    method StartGame(column: int)
      requires Valid() && 0 <= column < Columns
      modifies gameData, gameData.tiles
      ensures Valid() && State() == Spawn(Tick(old(State())), column)
      ensures old(gameData.tiles) == [] && !old(gameData.gameOver) ==>
                |gameData.tiles| == 1 && fresh(gameData.tiles[0])
    {
      GameLoop();
      SpawnTile(column);
    }

    /** Creates one tile in lane `column` unless the game is over. */
    method SpawnTile(column: int)
      requires Valid() && 0 <= column < Columns
      modifies gameData`tiles
      ensures Valid() && State() == Spawn(old(State()), column)
      ensures old(gameData.gameOver) ==> gameData.tiles == old(gameData.tiles)
      ensures !old(gameData.gameOver) ==>
                |gameData.tiles| == |old(gameData.tiles)| + 1 &&
                gameData.tiles[..|old(gameData.tiles)|] == old(gameData.tiles) &&
                fresh(gameData.tiles[|old(gameData.tiles)|])
    {
      if gameData.gameOver {
        return;
      }
      var tile := gameLogic.CreateNewTile(column);
      Lists.DistinctSnoc(old(gameData.tiles), tile);
      assert gameData.tiles[..|old(gameData.tiles)|] == old(gameData.tiles);
      AddTileHealthy(old(State()), column);
    }

    /** One tick: the logic moves the tiles; if it reports a miss the game
        ends, otherwise the collected tiles are removed. */
    method GameLoop()
      requires Valid()
      modifies gameData, gameData.tiles
      ensures Valid() && State() == Tick(old(State()))
      ensures var s := MoveTiles(old(State()).tiles, CanvasHeight);
              !old(gameData.gameOver) ==>
                Views(old(gameData.tiles)) == s.moved &&
                gameData.tiles == if s.continues then Lists.Select(old(gameData.tiles), Lists.Not(s.remove))
                                  else old(gameData.tiles)
      ensures old(gameData.gameOver) ==> gameData.tiles == old(gameData.tiles)
    {
      if gameData.gameOver {
        return;
      }
      ghost var g0 := State();
      ghost var s := MoveTiles(g0.tiles, CanvasHeight);
      var gameContinues, tilesToRemove := gameLogic.MoveTiles();
      if !gameContinues {
        EndGame();
        assert State() == Tick(g0);
        TickHealthy(g0);
        return;
      }
      SweepContinues(g0.tiles, CanvasHeight);
      Lists.RemoveEachSelected(gameData.tiles, s.remove);
      gameLogic.RemoveTiles(tilesToRemove);
      Lists.SelectDistinct(old(gameData.tiles), Lists.Not(s.remove));
      ViewsSelect(old(gameData.tiles), Lists.Not(s.remove));
      assert State() == Tick(g0);
      TickHealthy(g0);
    }

    /** A click: a hit scores; a click that hits nothing ends the game if
        some tile is visible. */
    method OnClick(x: int, y: int)
      requires Valid()
      modifies gameData, gameData.tiles
      ensures Valid() && State() == Click(old(State()), x, y) && gameData.tiles == old(gameData.tiles)
    {
      if gameData.gameOver {
        return;
      }
      ghost var g0 := State();
      var clickedTile := gameLogic.CheckClick(x, y);
      if clickedTile.Some? {
        ghost var k := FirstHit(g0.tiles, x, y);
        MarkHealthy(g0, k);
        gameLogic.IncreaseScore();
        ScoreHealthy(g0.(tiles := g0.tiles[k := g0.tiles[k].(clicked := true)]));
      } else {
        var visible := gameLogic.HasVisibleTiles();
        if visible {
          EndGame();
        }
      }
    }

    /** Sets the game-over flag and nothing else. */
    method EndGame()
      requires Wired()
      modifies gameData`gameOver
      ensures State() == End(old(State()))
      ensures old(Valid()) ==> Valid()
    {
      gameLogic.EndGame();
    }

    /** Resets the game data and starts the game again, which spawns one tile
        in lane `column`. */
    method RestartGame(column: int)
      requires Wired() && 0 <= column < Columns
      modifies gameData, gameData.tiles
      ensures Valid() && State() == Spawn(Tick(Start()), column)
      ensures |gameData.tiles| == 1 && fresh(gameData.tiles[0])
    {
      gameLogic.ResetGame();
      StartHealthy();
      StartGame(column);
    }
  }
}
