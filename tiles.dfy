/** The mutable tile of the MVC variant (models/tile.py). */
module Tiles {
  import Lists
  import Rules

  class Tile {
    const column: int
    const width: int
    const height: int
    const x: int
    var y: int
    var speed: int
    var clicked: bool

    /** The tile's state as a value. */
    function View(): Rules.TileView
      reads this
    {
      Rules.TileView(column, x, y, width, height, speed, clicked)
    }

    /** Placed in lane `column`, fully above the play field, unclicked. */
    constructor (column: int, tileWidth: int, tileHeight: int, speed: int)
      ensures View() == Rules.NewTile(column, tileWidth, tileHeight, speed)
    {
      this.column := column;
      width := tileWidth;
      height := tileHeight;
      this.speed := speed;
      clicked := false;
      x := column * tileWidth;
      y := -tileHeight;
    }

    /** Falls by its own speed; nothing else changes. */
    method Move()
      modifies this`y
      ensures View() == Rules.Moved(old(View()))
    {
      y := y + speed;
    }

    predicate IsClickedAt(px: int, py: int)
      reads this
    {
      Rules.Contains(View(), px, py)
    }

    /** Sets the clicked flag, whatever it was; nothing else changes. */
    method MarkClicked()
      modifies this`clicked
      ensures View() == old(View()).(clicked := true)
    {
      clicked := true;
    }

    predicate IsOutOfBounds(canvasHeight: int)
      reads this
    {
      Rules.OutOfBounds(View(), canvasHeight)
    }

    predicate IsMissed(canvasHeight: int)
      reads this
    {
      Rules.Missed(View(), canvasHeight)
    }
  }

  // The list helpers below also exist in Entities, once per tile class: the
  // two variants of the game define two unrelated Tile classes.

  /** The states of a list of tiles, in order. */
  function Views(ts: seq<Tile>): (r: seq<Rules.TileView>)
    reads ts
  {
    seq(|ts|, i requires 0 <= i < |ts| reads ts => ts[i].View())
  }

  /** A list whose tiles show the given states, one by one. */
  lemma ViewsAre(ts: seq<Tile>, vs: seq<Rules.TileView>)
    requires |ts| == |vs| && forall i :: 0 <= i < |ts| ==> ts[i].View() == vs[i]
    ensures Views(ts) == vs
  {
  }

  /** Moves the tile at `i` of a duplicate-free list: the list's states
      advance by one tile along the sweep. */
  method MoveAt(ts: seq<Tile>, i: nat, ghost vs: seq<Rules.TileView>)
    requires Lists.Distinct(ts) && i < |ts| && Views(ts) == Rules.Swept(vs, i)
    modifies ts[i]
    ensures Views(ts) == Rules.Swept(vs, i + 1) && ts[i].View() == Rules.Moved(vs[i])
  {
    assert ts[i].View() == Views(ts)[i];
    ts[i].Move();
    forall j | 0 <= j < |ts|
      ensures Views(ts)[j] == Rules.Swept(vs, i + 1)[j]
    {
      assert old(Views(ts))[j] == old(ts[j].View());
      if j != i {
        Lists.DistinctAt(ts, i, j);
        assert ts[j].View() == old(ts[j].View());
      }
    }
  }

  /** Gives every tile of a duplicate-free list the speed `speed`, in list
      order; nothing else about the tiles changes. */
  method SetSpeeds(ts: seq<Tile>, speed: int)
    requires Lists.Distinct(ts)
    modifies set t | t in ts
    ensures Views(ts) == Rules.Retarget(old(Views(ts)), speed)
  {
    ghost var vs := Views(ts);
    var i := 0;
    while i < |ts|
      invariant 0 <= i <= |ts|
      invariant forall j :: 0 <= j < i ==> ts[j].View() == vs[j].(speed := speed)
      invariant forall j :: i <= j < |ts| ==> ts[j].View() == vs[j]
    {
      Lists.DistinctOthers(ts, i);
      ts[i].speed := speed;
      i := i + 1;
    }
    ViewsAre(ts, Rules.Retarget(vs, speed));
  }

  /** Taking views commutes with filtering the list. */
  lemma {:induction false} ViewsSelect(ts: seq<Tile>, m: seq<bool>)
    requires |ts| == |m|
    ensures Views(Lists.Select(ts, m)) == Lists.Select(Views(ts), m)
  {
    if ts != [] {
      ViewsSelect(ts[1..], m[1..]);
      assert Views(ts)[1..] == Views(ts[1..]);
      var head := if m[0] then [ts[0]] else [];
      assert Views(head + Lists.Select(ts[1..], m[1..])) == Views(head) + Views(Lists.Select(ts[1..], m[1..]));
    }
  }
}
