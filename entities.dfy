/** The layered variant's records (data/entities.py): a mutable tile with
    setters, and the game data record that owns the score, the global speed,
    the spawn delay, the game-over flag and the ordered list of tiles. */
module Entities {
  import Lists
  import Rules

  class Tile {
    const column: int
    const width: int
    const height: int
    const x: int
    var y: int
    var speed: int
    var clicked: bool

    /** The tile's state as a value. */
    function View(): Rules.TileView
      reads this
    {
      Rules.TileView(column, x, y, width, height, speed, clicked)
    }

    /** Placed in lane `column`, fully above the play field, unclicked, with
        width, height and speed stored as given. */
    constructor (column: int, tileWidth: int, tileHeight: int, speed: int)
      ensures View() == Rules.NewTile(column, tileWidth, tileHeight, speed)
    {
      this.column := column;
      width := tileWidth;
      height := tileHeight;
      this.speed := speed;
      clicked := false;
      x := column * tileWidth;
      y := -tileHeight;
    }

    /** Sets the clicked flag to `clicked`; nothing else changes. */
    method SetClicked(clicked: bool)
      modifies this`clicked
      ensures View() == old(View()).(clicked := clicked)
    {
      this.clicked := clicked;
    }

    /** Sets the tile's own speed; nothing else changes. */
    method SetSpeed(speed: int)
      modifies this`speed
      ensures View() == old(View()).(speed := speed)
    {
      this.speed := speed;
    }

    /** Moves the top edge to exactly `newY`; nothing else changes. */
    method UpdatePosition(newY: int)
      modifies this`y
      ensures View() == old(View()).(y := newY)
    {
      y := newY;
    }
  }

  // The list helpers below also exist in Tiles, once per tile class: the
  // two variants of the game define two unrelated Tile classes.

  /** The states of a list of tiles, in order. */
  function Views(ts: seq<Tile>): (r: seq<Rules.TileView>)
    reads ts
  {
    seq(|ts|, i requires 0 <= i < |ts| reads ts => ts[i].View())
  }

  /** A list whose tiles show the given states, one by one. */
  lemma ViewsAre(ts: seq<Tile>, vs: seq<Rules.TileView>)
    requires |ts| == |vs| && forall i :: 0 <= i < |ts| ==> ts[i].View() == vs[i]
    ensures Views(ts) == vs
  {
  }

  /** Moves the tile at `i` of a duplicate-free list down by its own speed:
      the list's states advance by one tile along the sweep. */
  method UpdatePositionAt(ts: seq<Tile>, i: nat, newY: int, ghost vs: seq<Rules.TileView>)
    requires Lists.Distinct(ts) && i < |ts| && Views(ts) == Rules.Swept(vs, i)
    requires newY == ts[i].y + ts[i].speed
    modifies ts[i]
    ensures Views(ts) == Rules.Swept(vs, i + 1) && ts[i].View() == Rules.Moved(vs[i])
  {
    assert ts[i].View() == Views(ts)[i];
    ts[i].UpdatePosition(newY);
    forall j | 0 <= j < |ts|
      ensures Views(ts)[j] == Rules.Swept(vs, i + 1)[j]
    {
      assert old(Views(ts))[j] == old(ts[j].View());
      if j != i {
        Lists.DistinctAt(ts, i, j);
        assert ts[j].View() == old(ts[j].View());
      }
    }
  }

  /** Taking views commutes with filtering the list. */
  lemma {:induction false} ViewsSelect(ts: seq<Tile>, m: seq<bool>)
    requires |ts| == |m|
    ensures Views(Lists.Select(ts, m)) == Lists.Select(Views(ts), m)
  {
    if ts != [] {
      ViewsSelect(ts[1..], m[1..]);
      assert Views(ts)[1..] == Views(ts[1..]);
      var head := if m[0] then [ts[0]] else [];
      assert Views(head + Lists.Select(ts[1..], m[1..])) == Views(head) + Views(Lists.Select(ts[1..], m[1..]));
    }
  }

  class GameData {
    var score: int
    var speed: int
    var spawnDelay: int
    var gameOver: bool
    var tiles: seq<Tile>
    // Set once by the constructor and never reassigned.
    const columns: int
    const tileWidth: int
    const tileHeight: int
    const canvasWidth: int
    const canvasHeight: int

    /** The record's state as a value. */
    ghost function State(): Rules.Game
      reads this, tiles
    {
      Rules.Game(Rules.Level(score, speed, spawnDelay), gameOver, Views(tiles))
    }

    /** The defaults: score 0, speed 5, delay 800, running, no tiles, four
        lanes of 100 by 150 tiles on a 400 by 600 field. */
    constructor ()
      ensures State() == Rules.Start() && tiles == []
      ensures columns == Rules.Columns && tileWidth == Rules.TileWidth && tileHeight == Rules.TileHeight
      ensures canvasWidth == columns * tileWidth && canvasHeight == Rules.CanvasHeight
    {
      score := 0;
      speed := 5;
      spawnDelay := 800;
      gameOver := false;
      tiles := [];
      columns := 4;
      tileWidth := 100;
      tileHeight := 150;
      canvasWidth := 4 * 100;
      canvasHeight := 600;
    }

    method SetScore(score: int)
      modifies this`score
      ensures this.score == score
    {
      this.score := score;
    }

    method SetSpeed(speed: int)
      modifies this`speed
      ensures this.speed == speed
    {
      this.speed := speed;
    }

    method SetSpawnDelay(delay: int)
      modifies this`spawnDelay
      ensures spawnDelay == delay
    {
      spawnDelay := delay;
    }

    method SetGameOver(gameOver: bool)
      modifies this`gameOver
      ensures this.gameOver == gameOver
    {
      this.gameOver := gameOver;
    }

    /** Appends at the end, keeping the earlier tiles in order. */
    method AddTile(tile: Tile)
      modifies this`tiles
      ensures tiles == old(tiles) + [tile]
    {
      tiles := tiles + [tile];
    }

    /** Python's `list.remove`: the first occurrence goes, the others keep
        their order; the call fails on a tile that is not in the list. */
    method RemoveTile(tile: Tile)
      requires tile in tiles
      modifies this`tiles
      ensures tiles == Lists.RemoveFirst(old(tiles), tile)
    {
      tiles := Lists.RemoveFirst(tiles, tile);
    }

    method ClearTiles()
      modifies this`tiles
      ensures tiles == []
    {
      tiles := [];
    }
  }
}
