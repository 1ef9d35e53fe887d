/** The integer rules both variants of the engine follow, as a value-level
    machine: tile geometry, one tick, one click, one spawn, the difficulty
    schedule, and the lemmas about them. The classes of the other modules
    are proved to move their state exactly as these functions do. */
module Rules {
  import Lists

  // Configuration shared by the controller and by the game data record.
  const Columns: int := 4
  const TileWidth: int := 100
  const TileHeight: int := 150
  const CanvasWidth: int := Columns * TileWidth
  const CanvasHeight: int := 600
  const InitialSpeed: int := 5
  const MaxSpeed: int := 15
  const InitialSpawnDelay: int := 800
  const MinSpawnDelay: int := 400
  const SpeedStepPoints: int := 5
  const DelayStepPoints: int := 10
  const DelayStep: int := 50

  /** What a tile holds: its lane, its rectangle, its own speed, and whether
      a click has landed on it. */
  datatype TileView = TileView(column: int, x: int, y: int, width: int, height: int,
                               speed: int, clicked: bool)

  /** A tile just created: placed in its lane, fully above the top edge. */
  function NewTile(column: int, width: int, height: int, speed: int): TileView {
    TileView(column, column * width, -height, width, height, speed, false)
  }

  /** One step of fall at the tile's own speed. */
  function Moved(t: TileView): TileView {
    t.(y := t.y + t.speed)
  }

  /** The hit test: inclusive on all four edges. */
  predicate Contains(t: TileView, px: int, py: int) {
    t.x <= px <= t.x + t.width && t.y <= py <= t.y + t.height
  }

  /** The top edge is strictly below the bottom of the play field. */
  predicate OutOfBounds(t: TileView, h: int) {
    t.y > h
  }

  /** Unclicked, with the bottom edge strictly below the play field. */
  predicate Missed(t: TileView, h: int) {
    !t.clicked && t.y + t.height > h
  }

  /** The top edge lies in the visible band [0, h). */
  predicate Visible(t: TileView, h: int) {
    0 <= t.y < h
  }

  /** What ends a tick: a moved tile that is not out of bounds but is missed. */
  predicate Fatal(t: TileView, h: int) {
    !OutOfBounds(t, h) && Missed(t, h)
  }

  // ---------------------------------------------------------------- tiles

  /** The hit test includes every corner of the rectangle and nothing one
      unit outside it. */
  lemma ContainsEdges(t: TileView, px: int, py: int)
    ensures Contains(t, t.x, t.y) && Contains(t, t.x + t.width, t.y + t.height)
            <== t.width >= 0 && t.height >= 0
    ensures !Contains(t, t.x + t.width + 1, py) && !Contains(t, px, t.y + t.height + 1)
    ensures !Contains(t, t.x - 1, py) && !Contains(t, px, t.y - 1)
  {
  }

  /** Moving changes `y` by exactly the tile's speed and nothing else. */
  lemma MovedOnlyFalls(t: TileView)
    ensures Moved(t).y - t.y == t.speed
    ensures Moved(t).(y := t.y) == t
  {
  }

  /** A clicked tile is never missed; a tile of positive height that is out
      of bounds is missed unless clicked, so a tile is missed before it
      leaves the field. */
  lemma MissedBeforeOut(t: TileView, h: int)
    ensures t.clicked ==> !Missed(t, h)
    ensures t.height > 0 && !t.clicked && OutOfBounds(t, h) ==> Missed(t, h)
  {
  }

  // ------------------------------------------------------------ difficulty

  /** Score, global speed and spawn delay. */
  datatype Level = Level(score: int, speed: int, spawnDelay: int)

  const Initial: Level := Level(0, InitialSpeed, InitialSpawnDelay)

  /** Whether the next point raises the speed. */
  predicate SpeedStep(l: Level) {
    (l.score + 1) % SpeedStepPoints == 0 && l.speed < MaxSpeed
  }

  /** Whether the next point shortens the spawn delay. */
  predicate DelayStepDue(l: Level) {
    (l.score + 1) % DelayStepPoints == 0 && l.spawnDelay > MinSpawnDelay
  }

  /** One point scored. The speed stays within [5, 15] from any level; the
      spawn delay stays within [400, 800] only while it is a multiple of 50. */
  function Scored(l: Level): (r: Level)
    ensures r.score == l.score + 1
    ensures InitialSpeed <= l.speed <= MaxSpeed ==> InitialSpeed <= r.speed <= MaxSpeed
    ensures l.spawnDelay % DelayStep == 0 && MinSpawnDelay <= l.spawnDelay <= InitialSpawnDelay
            ==> r.spawnDelay % DelayStep == 0 && MinSpawnDelay <= r.spawnDelay <= InitialSpawnDelay
    ensures l.speed <= r.speed <= l.speed + 1 && l.spawnDelay - DelayStep <= r.spawnDelay <= l.spawnDelay
  {
    Level(l.score + 1,
          if SpeedStep(l) then l.speed + 1 else l.speed,
          if DelayStepDue(l) then l.spawnDelay - DelayStep else l.spawnDelay)
  }

  /** The level reached from the start after `n` points. */
  function LevelAt(n: nat): Level {
    if n == 0 then Initial else Scored(LevelAt(n - 1))
  }

  function Min(a: int, b: int): int { if a <= b then a else b }
  function Max(a: int, b: int): int { if a >= b then a else b }

  /** The level the schedule prescribes for `n` points: the speed is
      5 + n/5 capped at 15, the spawn delay 800 - 50*(n/10) floored at 400. */
  function Scheduled(n: nat): Level {
    Level(n, Min(InitialSpeed + n / SpeedStepPoints, MaxSpeed),
          Max(InitialSpawnDelay - DelayStep * (n / DelayStepPoints), MinSpawnDelay))
  }

  /** Scoring one point moves along the schedule. */
  lemma ScoredFollowsSchedule(n: nat)
    ensures Scored(Scheduled(n)) == Scheduled(n + 1)
  {
    assert (n + 1) / 5 == n / 5 + (if (n + 1) % 5 == 0 then 1 else 0);
    assert (n + 1) / 10 == n / 10 + (if (n + 1) % 10 == 0 then 1 else 0);
  }

  /** The level after `n` points from the start is the scheduled one. */
  lemma {:induction false} LevelAtClosedForm(n: nat)
    ensures LevelAt(n) == Scheduled(n)
  {
    if n > 0 {
      LevelAtClosedForm(n - 1);
      ScoredFollowsSchedule(n - 1);
    }
  }

  /** The difficulty milestones: speed 6 after 5 points, speed 7 and delay
      750 after 10. */
  lemma DifficultyMilestones()
    ensures LevelAt(5).speed == 6
    ensures LevelAt(10) == Level(10, 7, 750)
  {
    LevelAtClosedForm(5);
    LevelAtClosedForm(10);
  }

  /** On the schedule the speed stays within [5, 15] and the spawn delay
      within [400, 800]; the speed reaches its cap of 15 at 50 points and the
      delay its floor of 400 at 80, and neither moves further. */
  lemma LevelBounds(n: nat)
    ensures InitialSpeed <= LevelAt(n).speed <= MaxSpeed
    ensures MinSpawnDelay <= LevelAt(n).spawnDelay <= InitialSpawnDelay
    ensures n >= 50 ==> LevelAt(n).speed == MaxSpeed
    ensures n >= 80 ==> LevelAt(n).spawnDelay == MinSpawnDelay
  {
    LevelAtClosedForm(n);
    assert n >= 50 ==> n / SpeedStepPoints >= 10;
    assert n >= 80 ==> n / DelayStepPoints >= 8;
  }

  // ------------------------------------------------------------------ game

  /** Everything the engine owns, with the tiles in spawn order. */
  datatype Game = Game(level: Level, gameOver: bool, tiles: seq<TileView>)

  /** The initial state: running, no tiles, at the level the schedule
      prescribes for zero points. */
  function Start(): (r: Game)
    ensures r.level == Scheduled(0) && !r.gameOver && r.tiles == []
  {
    Game(Initial, false, [])
  }

  /** A tile created in lane `column` with the current global speed,
      appended at the end whatever the game-over flag says. */
  function AddTile(g: Game, column: int): (r: Game)
    ensures r.level == g.level && r.gameOver == g.gameOver
    ensures |r.tiles| == |g.tiles| + 1 && r.tiles[..|g.tiles|] == g.tiles
    ensures var t := r.tiles[|g.tiles|];
            t.column == column && t.y == -TileHeight && !t.clicked && t.speed == g.level.speed
  {
    g.(tiles := g.tiles + [NewTile(column, TileWidth, TileHeight, g.level.speed)])
  }

  /** Spawning, which does nothing once the game is over. */
  function Spawn(g: Game, column: int): Game {
    if g.gameOver then g else AddTile(g, column)
  }

  /** What moving the tiles yields: whether the game goes on, every tile as
      it stands afterwards, and which tiles were found out of bounds. */
  datatype Sweep = Sweep(continues: bool, moved: seq<TileView>, remove: seq<bool>)

  /** Where the in-order sweep stops: the first tile that is fatal once
      moved, or the length of the list. */
  function FirstFatal(vs: seq<TileView>, h: int): (k: nat)
    ensures k <= |vs|
    ensures forall i :: 0 <= i < k ==> !Fatal(Moved(vs[i]), h)
    ensures k < |vs| ==> Fatal(Moved(vs[k]), h)
  {
    if vs == [] then 0 else if Fatal(Moved(vs[0]), h) then 0 else 1 + FirstFatal(vs[1..], h)
  }

  /** The list once the sweep has moved its first `n` tiles. */
  function Swept(vs: seq<TileView>, n: int): (r: seq<TileView>)
    ensures |r| == |vs|
  {
    seq(|vs|, i requires 0 <= i < |vs| => if i < n then Moved(vs[i]) else vs[i])
  }

  /** The sweep of one tick: tiles are moved in order up to and including the
      first fatal one; tiles after it are neither moved nor inspected. */
  function MoveTiles(vs: seq<TileView>, h: int): (r: Sweep)
    ensures |r.moved| == |vs| && |r.remove| == |vs|
  {
    var k := FirstFatal(vs, h);
    var moved := Swept(vs, k + 1);
    Sweep(k == |vs|, moved, seq(|vs|, i requires 0 <= i < |vs| => i < k && OutOfBounds(moved[i], h)))
  }

  /** The sweep loop stopping at tile `i`: that tile is the first fatal
      one, the list is as the sweep leaves it and the game does not go on. */
  lemma SweepStopsAt(vs: seq<TileView>, h: int, i: nat)
    requires i < |vs| && i <= FirstFatal(vs, h) && Fatal(Moved(vs[i]), h)
    ensures i == FirstFatal(vs, h)
    ensures MoveTiles(vs, h).moved == Swept(vs, i + 1) && !MoveTiles(vs, h).continues
  {
  }

  /** The sweep loop running off the end with no fatal tile: the game goes
      on with every tile moved. */
  lemma SweepEnds(vs: seq<TileView>, h: int)
    requires |vs| == FirstFatal(vs, h)
    ensures MoveTiles(vs, h).continues && MoveTiles(vs, h).moved == Swept(vs, |vs|)
  {
    assert Swept(vs, |vs|) == Swept(vs, |vs| + 1);
  }

  /** For each tile, whether it is out of bounds once moved. */
  function OutFlags(vs: seq<TileView>, h: int): (r: seq<bool>)
    ensures |r| == |vs|
  {
    seq(|vs|, i requires 0 <= i < |vs| => OutOfBounds(Moved(vs[i]), h))
  }

  /** What the sweep loop has collected when it stops at tile `i` (or at the
      end): the items of `ts` it found out of bounds before `i`, which are
      exactly the ones the sweep flags for removal. */
  lemma SweepCollects<T>(ts: seq<T>, vs: seq<TileView>, h: int, i: nat)
    requires |ts| == |vs| && i == FirstFatal(vs, h)
    ensures Lists.Select(ts[..i], OutFlags(vs, h)[..i]) == Lists.Select(ts, MoveTiles(vs, h).remove)
  {
    var s := MoveTiles(vs, h);
    assert s.remove[..i] == OutFlags(vs, h)[..i];
    Lists.SelectPrefix(ts, s.remove, i);
  }

  /** A sweep with no fatal tile goes on, moves every tile by its own speed
      and flags exactly the tiles that are then out of bounds. */
  lemma SweepContinues(vs: seq<TileView>, h: int)
    ensures MoveTiles(vs, h).continues <==> forall i :: 0 <= i < |vs| ==> !Fatal(Moved(vs[i]), h)
    ensures MoveTiles(vs, h).continues ==>
              forall i :: 0 <= i < |vs| ==>
                MoveTiles(vs, h).moved[i] == Moved(vs[i]) &&
                (MoveTiles(vs, h).remove[i] <==> OutOfBounds(Moved(vs[i]), h))
  {
    var k := FirstFatal(vs, h);
    if k < |vs| {
      assert Fatal(Moved(vs[k]), h);
    }
  }

  /** A sweep that stops does so at a fatal tile `k` before which no tile was
      fatal; tiles after `k` keep their position and nothing after `k - 1`
      is flagged. */
  lemma SweepStops(vs: seq<TileView>, h: int)
    ensures var r := MoveTiles(vs, h); var k := FirstFatal(vs, h);
            !r.continues ==>
              k < |vs| && Fatal(r.moved[k], h) &&
              (forall i :: 0 <= i < k ==> !Fatal(r.moved[i], h) && r.moved[i] == Moved(vs[i])) &&
              (forall i :: k < i < |vs| ==> r.moved[i] == vs[i] && !r.remove[i]) &&
              !r.remove[k]
  {
  }

  /** One tick. When the sweep goes on, the flagged tiles are removed and the
      others keep their order; when it stops, the game is over and nothing
      is removed. */
  function Tick(g: Game): (r: Game)
    ensures r.level == g.level
    ensures g.gameOver ==> r == g
    ensures |r.tiles| <= |g.tiles|
  {
    if g.gameOver then g
    else
      var s := MoveTiles(g.tiles, CanvasHeight);
      if s.continues then g.(tiles := Lists.Select(s.moved, Lists.Not(s.remove)))
      else g.(gameOver := true, tiles := s.moved)
  }

  /** The position of the first unclicked tile containing the point, or the
      length of the list. */
  function FirstHit(vs: seq<TileView>, px: int, py: int): (k: nat)
    ensures k <= |vs|
    ensures forall i :: 0 <= i < k ==> vs[i].clicked || !Contains(vs[i], px, py)
    ensures k < |vs| ==> !vs[k].clicked && Contains(vs[k], px, py)
  {
    if vs == [] then 0
    else if !vs[0].clicked && Contains(vs[0], px, py) then 0
    else 1 + FirstHit(vs[1..], px, py)
  }

  /** Some tile's top edge lies in [0, h). */
  predicate AnyVisible(vs: seq<TileView>, h: int) {
    exists i :: 0 <= i < |vs| && Visible(vs[i], h)
  }

  /** Every tile retargeted to `speed`. */
  function Retarget(vs: seq<TileView>, speed: int): (r: seq<TileView>)
    ensures |r| == |vs|
    ensures forall i :: 0 <= i < |vs| ==> r[i].speed == speed && r[i].(speed := vs[i].speed) == vs[i]
  {
    seq(|vs|, i requires 0 <= i < |vs| => vs[i].(speed := speed))
  }

  /** Ending the game: the flag is set and nothing else changes. */
  function End(g: Game): (r: Game)
    ensures r.gameOver && r.level == g.level && r.tiles == g.tiles
  {
    g.(gameOver := true)
  }

  /** One point scored, with live tiles retargeted when the speed rises. */
  function Score(g: Game): (r: Game)
    ensures r.level == Scored(g.level) && r.gameOver == g.gameOver && |r.tiles| == |g.tiles|
    ensures forall i :: 0 <= i < |g.tiles| ==> r.tiles[i].(speed := g.tiles[i].speed) == g.tiles[i]
    ensures SpeedStep(g.level) ==> forall i :: 0 <= i < |r.tiles| ==> r.tiles[i].speed == r.level.speed
    ensures !SpeedStep(g.level) ==> r.tiles == g.tiles
  {
    var l := Scored(g.level);
    g.(level := l, tiles := if SpeedStep(g.level) then Retarget(g.tiles, l.speed) else g.tiles)
  }

  /** One click: the first unclicked tile containing the point is marked
      and scores; a click that hits nothing ends the game when some tile is
      visible and is harmless otherwise. */
  function Click(g: Game, px: int, py: int): (r: Game)
    ensures g.gameOver ==> r == g
    ensures |r.tiles| == |g.tiles|
    ensures r.level == g.level || r.level == Scored(g.level)
  {
    if g.gameOver then g
    else
      var k := FirstHit(g.tiles, px, py);
      if k < |g.tiles| then Score(g.(tiles := g.tiles[k := g.tiles[k].(clicked := true)]))
      else if AnyVisible(g.tiles, CanvasHeight) then g.(gameOver := true)
      else g
  }

  /** Once the tile a click hits is marked, the same point no longer hits
      it: the next hit, if any, lies further down the list. */
  lemma HitMovesOn(vs: seq<TileView>, px: int, py: int)
    requires FirstHit(vs, px, py) < |vs|
    ensures var k := FirstHit(vs, px, py);
            FirstHit(vs[k := vs[k].(clicked := true)], px, py) > k
  {
  }

  /** Nothing but a restart leaves the game-over state, and once over the
      game ignores ticks, clicks and spawns. */
  lemma GameOverIsFinal(g: Game, px: int, py: int, column: int)
    requires g.gameOver
    ensures Tick(g) == g && Click(g, px, py) == g && Spawn(g, column) == g
    ensures !Start().gameOver
  {
  }

  /** A click hits the first unclicked tile containing the point: that tile
      becomes clicked, the score rises by exactly one, and no other tile
      changes its click state. */
  lemma ClickHitsFirst(g: Game, px: int, py: int)
    requires !g.gameOver
    ensures var k := FirstHit(g.tiles, px, py); var g' := Click(g, px, py);
            k < |g.tiles| ==>
              !g.tiles[k].clicked && Contains(g.tiles[k], px, py) &&
              (forall i :: 0 <= i < k ==> g.tiles[i].clicked || !Contains(g.tiles[i], px, py)) &&
              |g'.tiles| == |g.tiles| && g'.tiles[k].clicked && g'.level.score == g.level.score + 1 &&
              !g'.gameOver &&
              forall i :: 0 <= i < |g.tiles| && i != k ==> g'.tiles[i].clicked == g.tiles[i].clicked
  {
  }

  /** A click that hits nothing ends the game exactly when some tile is
      visible, and otherwise changes nothing. */
  lemma ClickMisses(g: Game, px: int, py: int)
    requires !g.gameOver
    requires forall i :: 0 <= i < |g.tiles| ==> g.tiles[i].clicked || !Contains(g.tiles[i], px, py)
    ensures Click(g, px, py).gameOver <==> AnyVisible(g.tiles, CanvasHeight)
    ensures !AnyVisible(g.tiles, CanvasHeight) ==> Click(g, px, py) == g
    ensures Click(g, px, py).level == g.level && Click(g, px, py).tiles == g.tiles
  {
  }

  /** Clicking the same point again does not score the tile the first click
      marked; with no other unclicked tile under the point the second click
      is a miss-click, which ends the game if that tile is visible. */
  lemma {:induction false} RepeatedClick(g: Game, px: int, py: int)
    requires !g.gameOver
    requires FirstHit(g.tiles, px, py) < |g.tiles|
    requires forall i :: 0 <= i < |g.tiles| && i != FirstHit(g.tiles, px, py) ==>
               g.tiles[i].clicked || !Contains(g.tiles[i], px, py)
    ensures var k := FirstHit(g.tiles, px, py); var g1 := Click(g, px, py); var g2 := Click(g1, px, py);
            g2.level == g1.level &&
            (Visible(g.tiles[k], CanvasHeight) ==> g2.gameOver)
  {
    var k := FirstHit(g.tiles, px, py);
    var g1 := Click(g, px, py);
    assert g1.tiles[k].y == g.tiles[k].y;
    forall i | 0 <= i < |g1.tiles| ensures g1.tiles[i].clicked || !Contains(g1.tiles[i], px, py) {
      assert g1.tiles[i].x == g.tiles[i].x && g1.tiles[i].y == g.tiles[i].y;
      assert g1.tiles[i].width == g.tiles[i].width && g1.tiles[i].height == g.tiles[i].height;
    }
    ClickMisses(g1, px, py);
    if Visible(g.tiles[k], CanvasHeight) {
      assert Visible(g1.tiles[k], CanvasHeight);
    }
  }
}
