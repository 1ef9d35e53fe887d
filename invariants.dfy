/** A property every reachable game state has, that each step keeps it, and
    what follows: an unclicked tile always ends the game before it could be
    removed, and a few concrete game scenarios. */
module Invariants {
  import Lists
  import opened Rules

  /** A tile as every spawn creates it, kept in sync with the global speed. */
  predicate WellFormed(t: TileView, speed: int) {
    0 <= t.column < Columns && t.x == t.column * TileWidth &&
    t.width == TileWidth && t.height == TileHeight && t.speed == speed
  }

  /** A property every reachable state has: the level follows the schedule
      of its score, every tile is well formed, and while the game runs no
      tile is missed. */
  ghost predicate Healthy(g: Game) {
    g.level.score >= 0 && g.level == Scheduled(g.level.score) &&
    (forall i :: 0 <= i < |g.tiles| ==> WellFormed(g.tiles[i], g.level.speed)) &&
    (!g.gameOver ==> forall i :: 0 <= i < |g.tiles| ==> !Missed(g.tiles[i], CanvasHeight))
  }

  lemma StartHealthy()
    ensures Healthy(Start()) && Start().tiles == [] && Start().level == Level(0, 5, 800)
  {
  }

  /** In every `Healthy` state the speed lies within [5, 15] and the spawn
      delay within [400, 800]. */
  lemma HealthyBounds(g: Game)
    requires Healthy(g)
    ensures InitialSpeed <= g.level.speed <= MaxSpeed
    ensures MinSpawnDelay <= g.level.spawnDelay <= InitialSpawnDelay
  {
    LevelAtClosedForm(g.level.score);
    LevelBounds(g.level.score);
  }

  /** Adding a tile in a valid lane keeps `Healthy`. */
  lemma AddTileHealthy(g: Game, column: int)
    requires Healthy(g) && 0 <= column < Columns
    ensures Healthy(AddTile(g, column)) && Healthy(Spawn(g, column))
  {
  }

  /** A running tick never removes an unclicked tile: such a tile sat at
      most 150 above the bottom and falls at most 15, so it is missed, and
      ends the game, before it can leave the field. */
  lemma TickRemovesOnlyClicked(g: Game)
    requires Healthy(g) && !g.gameOver
    ensures var s := MoveTiles(g.tiles, CanvasHeight);
            forall i :: 0 <= i < |g.tiles| && s.remove[i] ==> g.tiles[i].clicked
  {
    var s := MoveTiles(g.tiles, CanvasHeight);
    forall i | 0 <= i < |g.tiles| && s.remove[i] ensures g.tiles[i].clicked {
      assert WellFormed(g.tiles[i], g.level.speed);
      assert OutOfBounds(s.moved[i], CanvasHeight);
    }
  }

  /** During a running tick every moved tile falls by at least 5. */
  lemma TickFalls(g: Game)
    requires Healthy(g) && !g.gameOver
    ensures var s := MoveTiles(g.tiles, CanvasHeight);
            forall i :: 0 <= i < |g.tiles| ==>
              s.moved[i].y == g.tiles[i].y || s.moved[i].y >= g.tiles[i].y + InitialSpeed
  {
    var s := MoveTiles(g.tiles, CanvasHeight);
    forall i | 0 <= i < |g.tiles|
      ensures s.moved[i].y == g.tiles[i].y || s.moved[i].y >= g.tiles[i].y + InitialSpeed
    {
      assert WellFormed(g.tiles[i], g.level.speed);
    }
  }

  /** Ticks keep `Healthy`. */
  lemma TickHealthy(g: Game)
    requires Healthy(g)
    ensures Healthy(Tick(g))
  {
    if !g.gameOver {
      var s := MoveTiles(g.tiles, CanvasHeight);
      assert forall i :: 0 <= i < |g.tiles| ==> WellFormed(s.moved[i], g.level.speed) by {
        forall i | 0 <= i < |g.tiles| ensures WellFormed(s.moved[i], g.level.speed) {
          assert WellFormed(g.tiles[i], g.level.speed);
        }
      }
      if s.continues {
        SweepContinues(g.tiles, CanvasHeight);
        var keep := Lists.Not(s.remove);
        var rest := Lists.Select(s.moved, keep);
        forall j | 0 <= j < |rest|
          ensures WellFormed(rest[j], g.level.speed) && !Missed(rest[j], CanvasHeight)
        {
          Lists.SelectMember(s.moved, keep, rest[j]);
          var i :| 0 <= i < |s.moved| && keep[i] && s.moved[i] == rest[j];
          assert !Fatal(Moved(g.tiles[i]), CanvasHeight);
        }
      }
    }
  }

  /** Marking a tile clicked keeps `Healthy`. */
  lemma MarkHealthy(g: Game, k: nat)
    requires Healthy(g) && k < |g.tiles|
    ensures Healthy(g.(tiles := g.tiles[k := g.tiles[k].(clicked := true)]))
  {
    var g' := g.(tiles := g.tiles[k := g.tiles[k].(clicked := true)]);
    forall i | 0 <= i < |g'.tiles| ensures WellFormed(g'.tiles[i], g.level.speed) {
      assert WellFormed(g.tiles[i], g.level.speed);
    }
  }

  /** Scoring keeps `Healthy`: the level steps along the schedule
      and, when the speed rises, the retargeted tiles follow it. */
  lemma ScoreHealthy(g: Game)
    requires Healthy(g)
    ensures Healthy(Score(g))
  {
    var g' := Score(g);
    ScoredFollowsSchedule(g.level.score);
    forall i | 0 <= i < |g'.tiles| ensures WellFormed(g'.tiles[i], g'.level.speed) {
      assert WellFormed(g.tiles[i], g.level.speed);
    }
    if !g.gameOver {
      forall i | 0 <= i < |g'.tiles| ensures !Missed(g'.tiles[i], CanvasHeight) {
        assert !Missed(g.tiles[i], CanvasHeight);
      }
    }
  }

  /** Clicks keep `Healthy`. */
  lemma ClickHealthy(g: Game, px: int, py: int)
    requires Healthy(g)
    ensures Healthy(Click(g, px, py))
  {
    if !g.gameOver {
      var k := FirstHit(g.tiles, px, py);
      if k < |g.tiles| {
        MarkHealthy(g, k);
        ScoreHealthy(g.(tiles := g.tiles[k := g.tiles[k].(clicked := true)]));
      }
    }
  }

  // -------------------------------------------------------------- scenarios

  /** `n` ticks in a row. */
  function Ticks(g: Game, n: nat): Game {
    if n == 0 then g else Tick(Ticks(g, n - 1))
  }

  /** The single tile of a fresh game, after `n` ticks. */
  function LoneTile(column: int, n: int): TileView {
    TileView(column, column * TileWidth, -TileHeight + InitialSpeed * n, TileWidth, TileHeight,
             InitialSpeed, false)
  }

  /** A lone unclicked tile spawned into a fresh game falls 5 per tick from
      -150 and the game runs through 120 ticks, with the tile at 450. */
  lemma {:induction false} LoneTileFalls(column: int, n: nat)
    requires n <= 120
    ensures Ticks(Spawn(Start(), column), n) == Game(Initial, false, [LoneTile(column, n)])
  {
    if n > 0 {
      LoneTileFalls(column, n - 1);
      var vs := [LoneTile(column, n - 1)];
      assert !Fatal(Moved(vs[0]), CanvasHeight);
      SweepContinues(vs, CanvasHeight);
      var s := MoveTiles(vs, CanvasHeight);
      assert s.moved == [LoneTile(column, n)] && s.remove == [false];
      assert Lists.Not(s.remove) == [true];
      assert Lists.Select(s.moved, [true]) == [LoneTile(column, n)];
    }
  }

  /** On the 121st tick the tile reaches 455, its bottom edge passes 600
      while its top is still inside, and the game ends. */
  lemma LoneTileMissed(column: int)
    ensures !Ticks(Spawn(Start(), column), 120).gameOver
    ensures Ticks(Spawn(Start(), column), 121).gameOver
    ensures Ticks(Spawn(Start(), column), 121).tiles == [LoneTile(column, 121)]
  {
    LoneTileFalls(column, 120);
    var vs := [LoneTile(column, 120)];
    assert Fatal(Moved(vs[0]), CanvasHeight);
    assert FirstFatal(vs, CanvasHeight) == 0;
  }

  /** Spawn in lane 0, one tick to y = -145, click at (50, -145): the tile is
      hit and marked, the score is 1, speed and spawn delay are unchanged. */
  lemma FirstClickScenario()
    ensures var g := Click(Tick(Spawn(Start(), 0)), 50, -145);
            g.level == Level(1, 5, 800) && !g.gameOver &&
            g.tiles == [LoneTile(0, 1).(clicked := true)]
  {
    LoneTileFalls(0, 1);
    var g := Tick(Spawn(Start(), 0));
    assert g == Ticks(Spawn(Start(), 0), 1);
    assert FirstHit(g.tiles, 50, -145) == 0;
  }
}
