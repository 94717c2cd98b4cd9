/** The pursuing enemies: a per-tick step toward the player along a
    shortest route, and the caught test. */
module Enemies {
  import opened Grid
  import opened Pathfinding

  /** Speed an enemy is created with. */
  const INITIAL_SPEED: real := 13.0 / 10.0
  /** Speed set on every visible tick with a route: CELL_SIZE / 30 * 2. */
  const ENEMY_SPEED: real := (CELL_SIZE as real / 30.0) * 2.0

  function Abs(v: real): real {
    if v < 0.0 then -v else v
  }

  function Min(a: real, b: real): real {
    if a <= b then a else b
  }

  function Max(a: real, b: real): real {
    if a <= b then b else a
  }

  /** One axis of the step: move p toward t by min(s, |t - p|). */
  function Approach(p: real, t: real, s: real): (r: real)
    requires s > 0.0
    ensures p <= t ==> p <= r <= t
    ensures t <= p ==> t <= r <= p
    ensures Abs(r - p) == Min(s, Abs(t - p))
    ensures Abs(t - r) == Max(0.0, Abs(t - p) - s)
  {
    if p < t then p + Min(s, t - p)
    else if p > t then p - Min(s, p - t)
    else p
  }

  /** Squared Euclidean distance, standing in for the square root. */
  function SqDist(ax: real, ay: real, bx: real, bY: real): (d: real)
    ensures d >= 0.0
  {
    (ax - bx) * (ax - bx) + (ay - bY) * (ay - bY)
  }

  /** check_collision: a visible enemy at pixel (ex, ey) catches the player
      at (px, py) when their distance is below CELL_SIZE. */
  predicate Caught(visible: bool, ex: real, ey: real, px: int, py: int) {
    visible && SqDist(ex, ey, px as real, py as real) < (CELL_SIZE * CELL_SIZE) as real
  }

  /** An invisible enemy never catches. */
  lemma {:induction false} InvisibleNeverCatches(ex: real, ey: real, px: int, py: int)
    ensures !Caught(false, ex, ey, px, py)
  {
  }

  /** A catch needs both axis gaps below CELL_SIZE. */
  lemma {:induction false} CaughtWithinCell(ex: real, ey: real, px: int, py: int)
    requires Caught(true, ex, ey, px, py)
    ensures Abs(ex - px as real) < CELL_SIZE as real && Abs(ey - py as real) < CELL_SIZE as real
  {
    var c := CELL_SIZE as real;
    var dx, dy := Abs(ex - px as real), Abs(ey - py as real);
    assert dx * dx <= SqDist(ex, ey, px as real, py as real);
    assert dy * dy <= SqDist(ex, ey, px as real, py as real);
    if dx >= c { assert dx * dx >= c * c by { MulMono(c, dx); } }
    if dy >= c { assert dy * dy >= c * c by { MulMono(c, dy); } }
  }

  /** A visible enemy whose axis gaps sum to less than CELL_SIZE catches. */
  lemma {:induction false} CloseMeansCaught(ex: real, ey: real, px: int, py: int)
    requires Abs(ex - px as real) + Abs(ey - py as real) < CELL_SIZE as real
    ensures Caught(true, ex, ey, px, py)
  {
    var c := CELL_SIZE as real;
    var dx, dy := Abs(ex - px as real), Abs(ey - py as real);
    assert dx * dx + dy * dy <= (dx + dy) * (dx + dy);
    assert (dx + dy) * (dx + dy) < c * c by { MulStrict(dx + dy, c); }
  }

  /** The threshold is strict: exactly CELL_SIZE away on one axis is not a catch. */
  lemma {:induction false} ThresholdNotCaught(px: int, py: int)
    ensures !Caught(true, (px + CELL_SIZE) as real, py as real, px, py)
  {
  }

  lemma MulMono(a: real, b: real)
    requires 0.0 <= a <= b
    ensures a * a <= b * b
  {
  }

  lemma MulStrict(a: real, b: real)
    requires 0.0 <= a < b
    ensures a * a < b * b
  {
    PosMul(b - a, b + a);
    assert b * b - a * a == (b - a) * (b + a);
  }

  lemma PosMul(u: real, v: real)
    requires u > 0.0 && v > 0.0
    ensures u * v > 0.0
  {
  }

  /** Retargeting to a neighbouring cell's pixel, made while within the
      (old) speed of the old target, leaves the gap below one cell plus a step. */
  lemma {:induction false} HopGap(p: real, t0: real, t1: real, s0: real)
    requires Abs(p - t0) < s0 <= ENEMY_SPEED
    requires Abs(t1 - t0) <= CELL_SIZE as real
    ensures Abs(p - t1) < CELL_SIZE as real + ENEMY_SPEED
  {
  }

  /** A step never widens the gap to the target. */
  lemma {:induction false} StepGap(p: real, t: real, bound: real)
    requires Abs(p - t) < bound
    ensures Abs(Approach(p, t, ENEMY_SPEED) - t) < bound
  {
    var r := Approach(p, t, ENEMY_SPEED);
    assert Abs(t - r) == Max(0.0, Abs(t - p) - ENEMY_SPEED);
  }

  /** Adjacent cells' pixels differ by at most one cell on each axis. */
  lemma {:induction false} AdjacentPixels(a: Cell, b: Cell)
    requires Adjacent(a, b)
    ensures Abs((b.0 * CELL_SIZE) as real - (a.0 * CELL_SIZE) as real) <= CELL_SIZE as real
    ensures Abs((b.1 * CELL_SIZE + MAZE_OFFSET) as real - (a.1 * CELL_SIZE + MAZE_OFFSET) as real) <= CELL_SIZE as real
  {
  }

  class Enemy {
    /** The cell the enemy occupies or is heading into. */
    var x: int
    var y: int
    /** On-screen position. */
    var pixelX: real
    var pixelY: real
    /** The pixel of cell (x, y) the enemy is moving to. */
    var targetX: real
    var targetY: real
    var speed: real
    /** The remaining hops, each a cell. */
    var path: seq<Cell>
    var isVisible: bool
    /** The maze the enemy searches, shared with the game. */
    const grid: Maze
    /** The route in use on the last visible tick, after any recomputation
        and before the hop was taken. */
    ghost var route: seq<Cell>

    ghost predicate Valid()
      reads this
    {
      && WellFormed(grid)
      && IsWalkFrom(grid, (x, y), path)
      && targetX == (x * CELL_SIZE) as real
      && targetY == (y * CELL_SIZE + MAZE_OFFSET) as real
      && (speed == INITIAL_SPEED || speed == ENEMY_SPEED)
      && Abs(pixelX - targetX) < CELL_SIZE as real + ENEMY_SPEED
      && Abs(pixelY - targetY) < CELL_SIZE as real + ENEMY_SPEED
    }

    /** Enemy(start_x, start_y, image, grid): at rest on its start cell. */
    constructor (startX: int, startY: int, grid: Maze)
      requires WellFormed(grid)
      ensures Valid()
      ensures x == startX && y == startY && this.grid == grid
      ensures pixelX == targetX == (startX * CELL_SIZE) as real
      ensures pixelY == targetY == (startY * CELL_SIZE + MAZE_OFFSET) as real
      ensures speed == INITIAL_SPEED && path == [] && isVisible
    {
      x, y := startX, startY;
      pixelX, pixelY := (startX * CELL_SIZE) as real, (startY * CELL_SIZE + MAZE_OFFSET) as real;
      targetX, targetY := pixelX, pixelY;
      speed := INITIAL_SPEED;
      path := [];
      isVisible := true;
      this.grid := grid;
      route := [];
    }

    /** check_collision(player_x, player_y). */
    predicate CheckCollision(playerX: int, playerY: int)
      reads this
    {
      Caught(isVisible, pixelX, pixelY, playerX, playerY)
    }

    /** move_towards_player(player_x, player_y): refresh the route when the
        enemy is not in the player's cell, take the next hop once close to
        the current target on both axes, then step each axis toward the
        target by at most the speed. */
    method MoveTowardsPlayer(playerX: int, playerY: int)
      requires Valid()
      modifies this
      ensures Valid()
      ensures isVisible == old(isVisible)
      ensures !old(isVisible) ==> unchanged(this)
      ensures old(isVisible) && (old(x), old(y)) == PixelCell(playerX, playerY) ==> route == old(path)
      ensures old(isVisible) && (old(x), old(y)) != PixelCell(playerX, playerY) ==>
                ShortestRoute(grid, (old(x), old(y)), PixelCell(playerX, playerY), route)
      ensures old(isVisible) && route == [] ==>
                path == [] && x == old(x) && y == old(y) && speed == old(speed) &&
                pixelX == old(pixelX) && pixelY == old(pixelY) &&
                targetX == old(targetX) && targetY == old(targetY)
      ensures old(isVisible) && route != [] ==>
                var hop := Abs(old(pixelX) - old(targetX)) < old(speed) && Abs(old(pixelY) - old(targetY)) < old(speed);
                && (hop ==> (x, y) == route[0] && path == route[1..])
                && (!hop ==> x == old(x) && y == old(y) && path == route)
                && speed == ENEMY_SPEED
                && pixelX == Approach(old(pixelX), targetX, ENEMY_SPEED)
                && pixelY == Approach(old(pixelY), targetY, ENEMY_SPEED)
    {
      if !isVisible {
        return;
      }
      var goal := PixelCell(playerX, playerY);
      if (x, y) != goal {
        path := Bfs(grid, (x, y), goal);
      }
      route := path;
      if path == [] {
        return;
      }
      Advance();
    }

    /** The hop and the step of move_towards_player, once a route exists. */
    method Advance()
      requires Valid() && path != []
      modifies this`x, this`y, this`targetX, this`targetY, this`path, this`speed, this`pixelX, this`pixelY
      ensures Valid()
      ensures var hop := Abs(old(pixelX) - old(targetX)) < old(speed) && Abs(old(pixelY) - old(targetY)) < old(speed);
                && (hop ==> (x, y) == old(path[0]) && path == old(path[1..]))
                && (!hop ==> x == old(x) && y == old(y) && path == old(path))
                && speed == ENEMY_SPEED
                && pixelX == Approach(old(pixelX), targetX, ENEMY_SPEED)
                && pixelY == Approach(old(pixelY), targetY, ENEMY_SPEED)
    {
      assert 0.0 < INITIAL_SPEED < ENEMY_SPEED;
      if Abs(pixelX - targetX) < speed && Abs(pixelY - targetY) < speed {
        WalkFromTail(grid, (x, y), path);
        AdjacentPixels((x, y), path[0]);
        ghost var tx, ty := targetX, targetY;
        var next := path[0];
        path := path[1..];
        x, y := next.0, next.1;
        targetX := (x * CELL_SIZE) as real;
        targetY := (y * CELL_SIZE + MAZE_OFFSET) as real;
        HopGap(pixelX, tx, targetX, speed);
        HopGap(pixelY, ty, targetY, speed);
      }
      speed := ENEMY_SPEED;
      StepGap(pixelX, targetX, CELL_SIZE as real + ENEMY_SPEED);
      StepGap(pixelY, targetY, CELL_SIZE as real + ENEMY_SPEED);
      pixelX := Approach(pixelX, targetX, speed);
      pixelY := Approach(pixelY, targetY, speed);
    }
  }
}
