/** Projectiles: shooting, the per-tick bullet step with its wall and enemy
    tests, and the random respawn of a shot enemy. */
module Bullets {
  import opened Grid
  import opened Randomness

  datatype Direction = Up | Down | Left | Right

  /** A bullet: top-left pixel and unit direction, as the (bx, by, dx, dy) tuple. */
  datatype Bullet = Bullet(x: int, y: int, dx: int, dy: int)

  /** Side of a bullet's square, in pixels. */
  const BULLET_SIZE: int := 6

  function Unit(d: Direction): (v: (int, int)) {
    match d
    case Up => (0, -1)
    case Down => (0, 1)
    case Left => (-1, 0)
    case Right => (1, 0)
  }

  /** shoot(direction) for a player at pixel (px, py). */
  function Shot(px: int, py: int, d: Direction): Bullet {
    match d
    case Up => Bullet(px + CELL_SIZE / 2, py, 0, -1)
    case Down => Bullet(px + CELL_SIZE / 2, py + CELL_SIZE, 0, 1)
    case Left => Bullet(px, py + CELL_SIZE / 2, -1, 0)
    case Right => Bullet(px + CELL_SIZE, py + CELL_SIZE / 2, 1, 0)
  }

  /** A shot flies along the direction it was fired in, and starts on the
      middle of the side of the player's cell-sized box that faces it. */
  lemma {:induction false} ShotFacesDirection(px: int, py: int, d: Direction)
    ensures var b := Shot(px, py, d);
      && (b.dx, b.dy) == Unit(d)
      && (b.dx != 0 ==> b.y == py + CELL_SIZE / 2 && b.x == px + (if b.dx > 0 then CELL_SIZE else 0))
      && (b.dy != 0 ==> b.x == px + CELL_SIZE / 2 && b.y == py + (if b.dy > 0 then CELL_SIZE else 0))
  {
    match d
    case Up =>
    case Down =>
    case Left =>
    case Right =>
  }

  /** One step: BULLET_SPEED pixels along the bullet's direction. */
  function Moved(b: Bullet): Bullet {
    Bullet(b.x + BULLET_SPEED * b.dx, b.y + BULLET_SPEED * b.dy, b.dx, b.dy)
  }

  function BulletRect(b: Bullet): Rect {
    Rect(b.x, b.y, BULLET_SIZE, BULLET_SIZE)
  }

  /** int(v): truncation toward zero, as a pygame.Rect coordinate. */
  function Trunc(v: real): (i: int)
    ensures v >= 0.0 ==> i as real <= v < i as real + 1.0
    ensures v < 0.0 ==> i as real - 1.0 < v <= i as real
  {
    if v >= 0.0 then v.Floor else -((-v).Floor)
  }

  /** An enemy's hit box at pixel position p. */
  function EnemyRect(p: (real, real)): Rect {
    Rect(Trunc(p.0), Trunc(p.1), CELL_SIZE - 6, CELL_SIZE - 6)
  }

  /** The position a freshly created enemy on cell c has. */
  function SpawnPixel(c: Cell): (real, real) {
    ((c.0 * CELL_SIZE) as real, (c.1 * CELL_SIZE + MAZE_OFFSET) as real)
  }

  /** The bullet's cell is an in-bounds wall: it is dropped. Out of bounds
      is not a wall. */
  predicate HitsWall(g: Maze, b: Bullet)
    requires WellFormed(g)
  {
    IsWall(g, PixelCell(b.x, b.y))
  }

  datatype Hit = NoHit | HitAt(i: nat)

  /** The first enemy, from index k on, whose box the rectangle overlaps. */
  function FirstHit(r: Rect, foes: seq<(real, real)>, k: nat): (h: Hit)
    requires k <= |foes|
    ensures h.HitAt? ==> k <= h.i < |foes| && Collide(r, EnemyRect(foes[h.i]))
    ensures h.HitAt? ==> forall j | k <= j < h.i :: !Collide(r, EnemyRect(foes[j]))
    ensures h.NoHit? ==> forall j | k <= j < |foes| :: !Collide(r, EnemyRect(foes[j]))
    decreases |foes| - k
  {
    if k == |foes| then NoHit
    else if Collide(r, EnemyRect(foes[k])) then HitAt(k)
    else FirstHit(r, foes, k + 1)
  }

  /** Some cell a draw can land on is open. */
  ghost predicate SomeOpenInner(g: Maze)
    requires WellFormed(g)
  {
    exists c :: Inner(c) && IsOpen(g, c)
  }

  ghost predicate OpenDrawAt(g: Maze, rand: nat -> nat, k: nat, t: nat)
    requires WellFormed(g)
  {
    IsOpen(g, DrawCell(rand, PairStart(k, t)))
  }

  /** Among draws that land on an open cell there is a first one. */
  lemma {:induction false} FirstOpenDraw(g: Maze, rand: nat -> nat, k: nat, t0: nat)
    requires WellFormed(g) && OpenDrawAt(g, rand, k, t0)
    ensures exists t: nat :: OpenDrawAt(g, rand, k, t) && forall u: nat | u < t :: !OpenDrawAt(g, rand, k, u)
    decreases t0
  {
    if exists u: nat :: u < t0 && OpenDrawAt(g, rand, k, u) {
      var u: nat :| u < t0 && OpenDrawAt(g, rand, k, u);
      FirstOpenDraw(g, rand, k, u);
    }
  }

  /** get_random_spawn from cursor k: the first drawn open cell, and the
      cursor after it. */
  ghost function NextSpawn(g: Maze, rand: nat -> nat, k: nat): (r: (Cell, nat))
    requires WellFormed(g) && Fair(rand) && SomeOpenInner(g)
    ensures IsOpen(g, r.0) && r.1 > k
    ensures exists t: nat :: r == (DrawCell(rand, PairStart(k, t)), PairStart(k, t) + 2)
                           && forall u: nat | u < t :: !OpenDrawAt(g, rand, k, u)
  {
    var c :| Inner(c) && IsOpen(g, c);
    assert DrawnFrom(rand, c, k);
    var t0: nat :| DrawCell(rand, PairStart(k, t0)) == c;
    assert OpenDrawAt(g, rand, k, t0);
    FirstOpenDraw(g, rand, k, t0);
    var t: nat :| OpenDrawAt(g, rand, k, t) && forall u: nat | u < t :: !OpenDrawAt(g, rand, k, u);
    (DrawCell(rand, PairStart(k, t)), PairStart(k, t) + 2)
  }

  /** The bullets, the enemy positions and the random cursor after move_bullets. */
  datatype Volley = Volley(bullets: seq<Bullet>, foes: seq<(real, real)>, cursor: nat)

  /** move_bullets over bullets bs against enemies at positions foes, the
      respawns drawn from cursor k on: each bullet steps; one landing in a
      wall is dropped; one overlapping an enemy removes the first such
      enemy, which is replaced at the end of the list by a new enemy on a
      random open cell; any other bullet is kept. */
  ghost function StepBullets(g: Maze, rand: nat -> nat, k: nat, bs: seq<Bullet>, foes: seq<(real, real)>): (r: Volley)
    requires WellFormed(g) && Fair(rand) && SomeOpenInner(g)
    decreases |bs|
  {
    if bs == [] then Volley([], foes, k)
    else
      var b := Moved(bs[0]);
      if HitsWall(g, b) then StepBullets(g, rand, k, bs[1..], foes)
      else
        match FirstHit(BulletRect(b), foes, 0)
        case NoHit =>
          var r := StepBullets(g, rand, k, bs[1..], foes);
          Volley([b] + r.bullets, r.foes, r.cursor)
        case HitAt(i) =>
          var s := NextSpawn(g, rand, k);
          var foes' := foes[..i] + foes[i + 1..] + [SpawnPixel(s.0)];
          StepBullets(g, rand, s.1, bs[1..], foes')
  }

  /** move_bullets keeps the number of enemies, only moves the cursor
      forward, never adds bullets, and every enemy afterwards is one that
      was there or a new one on an open cell. */
  lemma {:induction false} VolleyBounds(g: Maze, rand: nat -> nat, k: nat, bs: seq<Bullet>, foes: seq<(real, real)>)
    requires WellFormed(g) && Fair(rand) && SomeOpenInner(g)
    ensures var r := StepBullets(g, rand, k, bs, foes);
      && |r.foes| == |foes|
      && r.cursor >= k
      && |r.bullets| <= |bs|
      && forall f | f in r.foes :: f in foes || exists c :: IsOpen(g, c) && f == SpawnPixel(c)
    decreases |bs|
  {
    if bs != [] {
      var b := Moved(bs[0]);
      if HitsWall(g, b) {
        VolleyBounds(g, rand, k, bs[1..], foes);
      } else {
        match FirstHit(BulletRect(b), foes, 0)
        case NoHit =>
          VolleyBounds(g, rand, k, bs[1..], foes);
        case HitAt(i) =>
          var s := NextSpawn(g, rand, k);
          var foes' := foes[..i] + foes[i + 1..] + [SpawnPixel(s.0)];
          assert forall f | f in foes' :: f in foes || f == SpawnPixel(s.0);
          VolleyBounds(g, rand, s.1, bs[1..], foes');
      }
    }
  }

  /** One bullet b's share of move_bullets: `stepped` is what it leaves in
      the list ([] or b moved), and k', foes' the cursor and the enemy
      positions after it. */
  ghost predicate BulletOutcome(g: Maze, rand: nat -> nat, k: nat, b: Bullet, foes: seq<(real, real)>,
                                stepped: seq<Bullet>, k': nat, foes': seq<(real, real)>)
    requires WellFormed(g) && Fair(rand) && SomeOpenInner(g)
  {
    if HitsWall(g, Moved(b)) then stepped == [] && k' == k && foes' == foes
    else
      match FirstHit(BulletRect(Moved(b)), foes, 0)
      case NoHit => stepped == [Moved(b)] && k' == k && foes' == foes
      case HitAt(j) =>
        && stepped == [] && k' == NextSpawn(g, rand, k).1
        && foes' == foes[..j] + foes[j + 1..] + [SpawnPixel(NextSpawn(g, rand, k).0)]
  }

  /** The volley is the first bullet's outcome followed by the rest of the
      volley from the state that outcome leaves. */
  lemma {:induction false} VolleyStep(g: Maze, rand: nat -> nat, k: nat, bs: seq<Bullet>, foes: seq<(real, real)>,
                                      stepped: seq<Bullet>, k': nat, foes': seq<(real, real)>)
    requires WellFormed(g) && Fair(rand) && SomeOpenInner(g) && bs != []
    requires BulletOutcome(g, rand, k, bs[0], foes, stepped, k', foes')
    ensures var r := StepBullets(g, rand, k', bs[1..], foes');
      StepBullets(g, rand, k, bs, foes) == Volley(stepped + r.bullets, r.foes, r.cursor)
  {
  }

  /** Every bullet advanced by one step, in order. */
  function AdvanceAll(bs: seq<Bullet>): (r: seq<Bullet>)
    ensures |r| == |bs|
    ensures forall i | 0 <= i < |bs| :: r[i] == Moved(bs[i])
  {
    if bs == [] then [] else [Moved(bs[0])] + AdvanceAll(bs[1..])
  }

  /** a is b with some elements left out, the rest in the same order. */
  predicate IsSubsequence<T(==)>(a: seq<T>, b: seq<T>)
    decreases |b|
  {
    if a == [] then true
    else if b == [] then false
    else (a[0] == b[0] && IsSubsequence(a[1..], b[1..])) || IsSubsequence(a, b[1..])
  }

  /** The surviving bullets are the stepped bullets with some left out,
      in their original order and with their directions. */
  lemma {:induction false} SurvivorsInOrder(g: Maze, rand: nat -> nat, k: nat, bs: seq<Bullet>, foes: seq<(real, real)>)
    requires WellFormed(g) && Fair(rand) && SomeOpenInner(g)
    ensures IsSubsequence(StepBullets(g, rand, k, bs, foes).bullets, AdvanceAll(bs))
    decreases |bs|
  {
    if bs != [] {
      var b := Moved(bs[0]);
      var adv := AdvanceAll(bs);
      assert adv[0] == b && adv[1..] == AdvanceAll(bs[1..]);
      if HitsWall(g, b) {
        SurvivorsInOrder(g, rand, k, bs[1..], foes);
        SubsequenceSkip(StepBullets(g, rand, k, bs[1..], foes).bullets, adv);
      } else {
        match FirstHit(BulletRect(b), foes, 0)
        case NoHit =>
          SurvivorsInOrder(g, rand, k, bs[1..], foes);
        case HitAt(i) =>
          var s := NextSpawn(g, rand, k);
          var foes' := foes[..i] + foes[i + 1..] + [SpawnPixel(s.0)];
          SurvivorsInOrder(g, rand, s.1, bs[1..], foes');
          SubsequenceSkip(StepBullets(g, rand, s.1, bs[1..], foes').bullets, adv);
      }
    }
  }

  lemma SubsequenceSkip<T>(a: seq<T>, b: seq<T>)
    requires b != [] && IsSubsequence(a, b[1..])
    ensures IsSubsequence(a, b)
  {
  }

  /** A bullet stepping into a wall is simply dropped: nothing else changes. */
  lemma {:induction false} WallDropsBullet(g: Maze, rand: nat -> nat, k: nat, b: Bullet, rest: seq<Bullet>, foes: seq<(real, real)>)
    requires WellFormed(g) && Fair(rand) && SomeOpenInner(g)
    requires HitsWall(g, Moved(b))
    ensures StepBullets(g, rand, k, [b] + rest, foes) == StepBullets(g, rand, k, rest, foes)
  {
    assert ([b] + rest)[1..] == rest;
  }

  /** A bullet outside the maze that hits nobody is kept, stepped. */
  lemma {:induction false} OutsideBulletKept(g: Maze, rand: nat -> nat, k: nat, b: Bullet, rest: seq<Bullet>, foes: seq<(real, real)>)
    requires WellFormed(g) && Fair(rand) && SomeOpenInner(g)
    requires !InBounds(PixelCell(Moved(b).x, Moved(b).y))
    requires forall j | 0 <= j < |foes| :: !Collide(BulletRect(Moved(b)), EnemyRect(foes[j]))
    ensures StepBullets(g, rand, k, [b] + rest, foes).bullets == [Moved(b)] + StepBullets(g, rand, k, rest, foes).bullets
  {
    assert ([b] + rest)[1..] == rest;
  }
}
