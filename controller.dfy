/** The MVC variant's engine (controllers/game.py), without its view calls:
    every operation moves the controller's state exactly as the matching
    function of Rules does, and keeps `Healthy`. */
module Controller {
  import Lists
  import opened Rules
  import opened Invariants
  import opened Tiles

  class GameController {
    const columns: int := Rules.Columns
    const tileWidth: int := Rules.TileWidth
    const tileHeight: int := Rules.TileHeight
    const canvasWidth: int := columns * tileWidth
    const canvasHeight: int := Rules.CanvasHeight

    var score: int
    var speed: int
    var spawnDelay: int
    var gameOver: bool
    var tiles: seq<Tile>

    /** The controller's state as a value. */
    ghost function State(): Game
      reads this, tiles
    {
      Game(Level(score, speed, spawnDelay), gameOver, Views(tiles))
    }

    /** Tiles are distinct objects and the state satisfies `Healthy`. */
    ghost predicate Valid()
      reads this, tiles
    {
      Lists.Distinct(tiles) && Healthy(State())
    }

    /** A new controller starts the game: one (empty) tick, then one spawn,
        so it holds exactly one fresh tile, in lane `column`. */
    constructor (column: int)
      requires 0 <= column < Rules.Columns
      ensures Valid() && State() == Spawn(Tick(Start()), column)
      ensures canvasWidth == 400 && |tiles| == 1 && fresh(tiles[0])
    {
      score := 0;
      speed := 5;
      spawnDelay := 800;
      gameOver := false;
      tiles := [];
      new;
      StartHealthy();
      StartGame(column);
    }

    /** One tick followed by one spawn in lane `column`. */
    method StartGame(column: int)
      requires Valid() && 0 <= column < columns
      modifies this, tiles
      ensures Valid() && State() == Spawn(Tick(old(State())), column)
      ensures old(tiles) == [] && !old(gameOver) ==> |tiles| == 1 && fresh(tiles[0])
    {
      GameLoop();
      SpawnTile(column);
    }

    /** Appends one fresh tile with the global speed, unless the game is over. */
    method SpawnTile(column: int)
      requires Valid() && 0 <= column < columns
      modifies this
      ensures Valid() && State() == Spawn(old(State()), column)
      ensures old(gameOver) ==> tiles == old(tiles)
      ensures !old(gameOver) ==> |tiles| == |old(tiles)| + 1 && tiles[..|old(tiles)|] == old(tiles) &&
                                 fresh(tiles[|old(tiles)|])
    {
      if gameOver {
        return;
      }
      var tile := new Tile(column, tileWidth, tileHeight, speed);
      Lists.DistinctSnoc(tiles, tile);
      tiles := tiles + [tile];
      assert Views(tiles) == Views(old(tiles)) + [tile.View()];
      AddTileHealthy(old(State()), column);
    }

    /** One tick: tiles are moved in order; out-of-bounds ones are collected
        and removed afterwards, in order, unless an unclicked tile is found
        missed, which ends the game at once. */
    method GameLoop()
      requires Valid()
      modifies this, tiles
      ensures Valid() && State() == Tick(old(State()))
      ensures var s := MoveTiles(old(State()).tiles, canvasHeight);
              !old(gameOver) ==>
                Views(old(tiles)) == s.moved &&
                tiles == if s.continues then Lists.Select(old(tiles), Lists.Not(s.remove)) else old(tiles)
      ensures old(gameOver) ==> tiles == old(tiles)
    {
      if gameOver {
        return;
      }
      ghost var g0 := State();
      ghost var s := MoveTiles(g0.tiles, canvasHeight);
      var tilesToRemove := SweepTiles();
      if gameOver {
        assert State() == Tick(g0);
        TickHealthy(g0);
        return;
      }
      SweepContinues(g0.tiles, canvasHeight);
      Lists.RemoveEachSelected(tiles, s.remove);
      RemoveAll(tilesToRemove);
      Lists.SelectDistinct(old(tiles), Lists.Not(s.remove));
      ViewsSelect(old(tiles), Lists.Not(s.remove));
      assert State() == Tick(g0);
      TickHealthy(g0);
    }

    /** Removes the collected tiles one by one, each by its first occurrence,
        as `list.remove` does; each must still be present when its turn comes. */
    method RemoveAll(tilesToRemove: seq<Tile>)
      requires Lists.Removable(tiles, tilesToRemove)
      modifies this`tiles
      ensures tiles == Lists.RemoveEach(old(tiles), tilesToRemove)
      ensures Lists.Distinct(old(tiles)) ==> Lists.Distinct(tiles)
    {
      if Lists.Distinct(tiles) {
        Lists.RemoveEachDistinct(tiles, tilesToRemove);
      }
      var j := 0;
      while j < |tilesToRemove|
        invariant 0 <= j <= |tilesToRemove|
        invariant Lists.Removable(tiles, tilesToRemove[j..])
        invariant Lists.RemoveEach(tiles, tilesToRemove[j..]) == Lists.RemoveEach(old(tiles), tilesToRemove)
      {
        var tile := tilesToRemove[j];
        assert tilesToRemove[j..][0] == tile && tilesToRemove[j..][1..] == tilesToRemove[j + 1..];
        tiles := Lists.RemoveFirst(tiles, tile);
        j := j + 1;
      }
    }

    /** The loop of a tick: moves the tiles in order and collects the ones
        out of bounds; at the first unclicked tile found missed it ends the
        game and stops, leaving later tiles where they were. */
    method SweepTiles() returns (tilesToRemove: seq<Tile>)
      requires Lists.Distinct(tiles) && !gameOver
      modifies tiles, this`gameOver
      ensures var s := MoveTiles(old(Views(tiles)), canvasHeight);
              Views(tiles) == s.moved && gameOver == !s.continues &&
              (s.continues ==> tilesToRemove == Lists.Select(tiles, s.remove))
    {
      ghost var vs := Views(tiles);
      ghost var k := FirstFatal(vs, canvasHeight);
      ghost var flags := OutFlags(vs, canvasHeight);
      tilesToRemove := [];
      var i := 0;
      while i < |tiles|
        invariant 0 <= i <= |tiles| && i <= k
        invariant !gameOver && Views(tiles) == Swept(vs, i)
        invariant tilesToRemove == Lists.Select(tiles[..i], flags[..i])
      {
        var tile := tiles[i];
        MoveAt(tiles, i, vs);
        Lists.SelectStep(tiles, flags, i);
        if tile.IsOutOfBounds(canvasHeight) {
          tilesToRemove := tilesToRemove + [tile];
        } else if tile.IsMissed(canvasHeight) {
          if !tile.clicked {
            SweepStopsAt(vs, canvasHeight, i);
            EndGame();
            return;
          }
        }
        i := i + 1;
      }
      SweepEnds(vs, canvasHeight);
      SweepCollects(tiles, vs, canvasHeight, i);
      assert tiles[..i] == tiles;
    }

    /** A click: the first unclicked tile containing the point is marked and
        scores; otherwise the game ends if some tile is visible. */
    method OnClick(x: int, y: int)
      requires Valid()
      modifies this, tiles
      ensures Valid() && State() == Click(old(State()), x, y) && tiles == old(tiles)
    {
      if gameOver {
        return;
      }
      ghost var g0 := State();
      ghost var k := FirstHit(g0.tiles, x, y);
      var clickedTile := false;
      var i := 0;
      while i < |tiles|
        invariant 0 <= i <= |tiles| && i <= k
        invariant !clickedTile && State() == g0 && Valid()
      {
        var tile := tiles[i];
        if !tile.clicked && tile.IsClickedAt(x, y) {
          Lists.DistinctOthers(tiles, i);
          tile.MarkClicked();
          clickedTile := true;
          ghost var marked := g0.(tiles := g0.tiles[i := g0.tiles[i].(clicked := true)]);
          assert State() == marked;
          MarkHealthy(g0, i);
          IncreaseScore();
          break;
        }
        i := i + 1;
      }
      if !clickedTile {
        var ts := tiles;
        var visible := seq(|ts|, j requires 0 <= j < |ts| reads ts => 0 <= ts[j].y < canvasHeight);
        var visibleTiles := Lists.Select(ts, visible);
        Lists.SelectEmpty(ts, visible);
        assert forall j :: 0 <= j < |ts| ==> (visible[j] <==> Visible(g0.tiles[j], canvasHeight));
        if |visibleTiles| > 0 {
          EndGame();
        }
      }
    }

    /** One point: the speed rises every 5 points below 15, with every live
        tile retargeted, and the spawn delay drops by 50 every 10 points above
        400. */
    method IncreaseScore()
      requires Valid()
      modifies this, tiles
      ensures Valid() && State() == Score(old(State())) && tiles == old(tiles)
    {
      ghost var g0 := State();
      ghost var g1 := Score(g0);
      score := score + 1;
      if score % 5 == 0 && speed < 15 {
        speed := speed + 1;
        SetSpeeds(tiles, speed);
        assert SpeedStep(g0.level) && speed == g1.level.speed;
      } else {
        assert !SpeedStep(g0.level);
      }
      assert Views(tiles) == g1.tiles;
      if score % 10 == 0 && spawnDelay > 400 {
        spawnDelay := spawnDelay - 50;
      }
      assert State().level == g1.level;
      ScoreHealthy(g0);
    }

    /** Sets the game-over flag and nothing else. */
    method EndGame()
      modifies this`gameOver
      ensures State() == End(old(State()))
      ensures old(Valid()) ==> Valid()
    {
      gameOver := true;
    }

    /** Empties the tiles, restores the initial level and flag, and starts
        the game again, which spawns one tile in lane `column`. */
    method RestartGame(column: int)
      requires 0 <= column < columns
      modifies this
      ensures Valid() && State() == Spawn(Tick(Start()), column)
      ensures |tiles| == 1 && fresh(tiles[0])
    {
      tiles := [];
      score := 0;
      speed := 5;
      spawnDelay := 800;
      gameOver := false;
      StartHealthy();
      StartGame(column);
    }
  }
}
