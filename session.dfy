/** A game session: starting a level and the simulation part of one frame
    of run_game. */
module Session {
  import opened Grid
  import opened Randomness
  import opened Carving
  import opened Enemies
  import opened Movement
  import opened Bullets
  import opened Scores

  /** The screens of the game; only the playing ones take part in the simulation. */
  datatype State = MainMenu | Playing | GameOver | GameWon | PlayerSelect | DifficultySelect
                 | HelpScreen | Animation | HighScores

  /** Keys collected to open the goal on EXTREME. */
  const KEYS_NEEDED: int := 3

  function KeyTarget(d: Difficulty): int {
    if d == Extreme then KEYS_NEEDED else 0
  }

  /** The four moves the arrow keys are dealt, in the order they are dealt. */
  const MOVES: seq<Cell> := [(0, -1), (0, 1), (-1, 0), (1, 0)]
  const ARROWS: seq<Key> := [KeyUp, KeyDown, KeyLeft, KeyRight]

  /** A control table as init_level builds it: the arrow keys in some
      order, dealt UP, DOWN, LEFT, RIGHT. */
  predicate ControlsOk(controls: Controls) {
    && |controls| == 4
    && (forall i | 0 <= i < 4 :: controls[i].1 == MOVES[i] && controls[i].0 in ARROWS)
    && (forall i, j | 0 <= i < j < 4 :: controls[i].0 != controls[j].0)
  }

  predicate Distinct<T(==)>(s: seq<T>) {
    forall i, j | 0 <= i < j < |s| :: s[i] != s[j]
  }

  /** The keys generate_key_positions has accepted after `count` cells drawn
      from cursor k: each drawn candidate not accepted before, in draw order. */
  function ScanKeys(g: Maze, rand: nat -> nat, k: nat, count: nat): (keys: seq<Cell>)
    requires WellFormed(g)
    ensures |keys| <= count
    decreases count
  {
    if count == 0 then []
    else
      var prev := ScanKeys(g, rand, k, count - 1);
      var c := DrawCell(rand, PairStart(k, count - 1));
      if KeyCandidate(g, c) && c !in prev then prev + [c] else prev
  }

  /** The accepted keys are distinct inner cells, each open and neither the
      start nor the goal. */
  lemma {:induction false} ScanKeysValid(g: Maze, rand: nat -> nat, k: nat, count: nat)
    requires WellFormed(g)
    ensures var keys := ScanKeys(g, rand, k, count);
      Distinct(keys) && forall i | 0 <= i < |keys| :: KeyCandidate(g, keys[i]) && Inner(keys[i])
    decreases count
  {
    if count > 0 {
      ScanKeysValid(g, rand, k, count - 1);
      var prev := ScanKeys(g, rand, k, count - 1);
      var c := DrawCell(rand, PairStart(k, count - 1));
      if KeyCandidate(g, c) && c !in prev {
        var keys := prev + [c];
        assert forall i | 0 <= i < |prev| :: keys[i] == prev[i];
      }
    }
  }

  /** The on-screen positions of the enemies, in list order. */
  ghost function Positions(es: seq<Enemy>): (ps: seq<(real, real)>)
    reads set e | e in es
    ensures |ps| == |es|
    ensures forall i | 0 <= i < |es| :: ps[i] == (es[i].pixelX, es[i].pixelY)
  {
    seq(|es|, i reads es requires 0 <= i < |es| => (es[i].pixelX, es[i].pixelY))
  }

  /** Every enemy is well set up on maze g, and no enemy is listed twice. */
  ghost predicate Squad(es: seq<Enemy>, g: Maze)
    reads set e | e in es
  {
    (forall i | 0 <= i < |es| :: es[i].Valid() && es[i].grid == g) && Distinct(es)
  }

  /** The elements of s with s[j] removed and e appended. */
  lemma ReplaceAt<T>(s: seq<T>, j: nat, e: T)
    requires j < |s|
    ensures |s[..j] + s[j + 1..] + [e]| == |s|
    ensures forall i | 0 <= i < |s| :: (s[..j] + s[j + 1..] + [e])[i] == if i < j then s[i] else if i < |s| - 1 then s[i + 1] else e
  {
  }

  /** Removing the j-th enemy and appending a new one keeps the squad. */
  lemma SquadReplace(es: seq<Enemy>, g: Maze, j: nat, e: Enemy)
    requires Squad(es, g) && j < |es|
    requires e.Valid() && e.grid == g && e !in es
    ensures Squad(es[..j] + es[j + 1..] + [e], g)
  {
    var es' := es[..j] + es[j + 1..] + [e];
    ReplaceAt(es, j, e);
    forall i | 0 <= i < |es'| ensures es'[i].Valid() && es'[i].grid == g {
      if i < j { assert es'[i] == es[i]; } else if i < |es| - 1 { assert es'[i] == es[i + 1]; }
    }
    forall a, b | 0 <= a < b < |es'| ensures es'[a] != es'[b] {
      if b == |es'| - 1 { assert es'[a] in es; }
    }
  }

  /** A maze as init_level leaves it: carved, the goal open, every open cell
      but the goal connected to the start, room for the keys and somewhere
      to spawn. */
  ghost predicate Laid(g: Maze) {
    && WellFormed(g) && IsOpen(g, ROOT) && IsOpen(g, GOAL) && SomeOpenInner(g)
    && (forall c | InBounds(c) && IsOpen(g, c) && c != GOAL :: Reachable(g, ROOT, c))
    && |KeyCells(g)| >= 4
  }

  lemma LaidMaze(g: Maze)
    requires WellFormed(g) && IsOpen(g, ROOT) && IsOpen(g, GOAL)
    requires forall c | InBounds(c) && IsOpen(g, c) && c != GOAL :: Reachable(g, ROOT, c)
    requires |KeyCells(g)| >= 4
    ensures Laid(g)
  {
    assert Inner(ROOT);
  }

  /** Each of the three start cells holds an enemy at rest. */
  ghost predicate OnStarts(es: seq<Enemy>)
    reads set e | e in es
  {
    forall k | 0 <= k < 3 :: exists e | e in es :: (e.x, e.y) == ENEMY_STARTS[k] && e.path == []
  }

  /** The three enemies of init_level, on the start cells in list order. */
  method NewEnemies(g: Maze) returns (made: seq<Enemy>)
    requires WellFormed(g)
    ensures Squad(made, g) && |made| == 3
    ensures forall i | 0 <= i < 3 :: fresh(made[i]) && made[i].path == [] && (made[i].x, made[i].y) == ENEMY_STARTS[i]
  {
    var e0 := new Enemy(COLS / 2, ROWS / 2, g);
    var e1 := new Enemy(COLS - 2, ROWS - 2, g);
    var e2 := new Enemy(COLS / 2, ROWS / 4, g);
    made := [e0, e1, e2];
  }

  /** Any rearrangement of a squad is a squad with the same members. */
  lemma SquadPermutation(made: seq<Enemy>, es: seq<Enemy>, g: Maze)
    requires Squad(made, g) && multiset(es) == multiset(made)
    ensures Squad(es, g)
    ensures forall e :: e in es <==> e in made
  {
    DistinctPermutation(made, es);
    forall e ensures e in es <==> e in made {
      assert e in es <==> e in multiset(es);
      assert e in made <==> e in multiset(made);
    }
    forall i | 0 <= i < |es| ensures es[i].Valid() && es[i].grid == g {
      assert es[i] in made;
    }
  }

  /** The positions change the same way as the list. */
  lemma PositionsReplace(es: seq<Enemy>, j: nat, e: Enemy)
    requires j < |es|
    ensures Positions(es[..j] + es[j + 1..] + [e]) == Positions(es)[..j] + Positions(es)[j + 1..] + [(e.pixelX, e.pixelY)]
  {
    var es' := es[..j] + es[j + 1..] + [e];
    var ps := Positions(es);
    ReplaceAt(es, j, e);
    ReplaceAt(ps, j, (e.pixelX, e.pixelY));
  }

  /** The level start_game sets up for a difficulty. */
  function LevelOf(d: Difficulty): int {
    match d
    case Medium => 1
    case Hard => 2
    case Extreme => 3
  }

  /** The cells the three enemies of levels 2 and 3 start on, before the shuffle. */
  const ENEMY_STARTS: seq<Cell> := [(COLS / 2, ROWS / 2), (COLS - 2, ROWS - 2), (COLS / 2, ROWS / 4)]

  /** The control table dealt from a shuffled arrow list: the i-th key gets the i-th move. */
  function Dealt(arrows: seq<Key>): (controls: Controls)
    requires |arrows| == 4
    ensures |controls| == 4
    ensures forall i | 0 <= i < 4 :: controls[i] == (arrows[i], MOVES[i])
  {
    [(arrows[0], MOVES[0]), (arrows[1], MOVES[1]), (arrows[2], MOVES[2]), (arrows[3], MOVES[3])]
  }

  /** Dealing any rearrangement of the arrow keys gives a control table. */
  lemma DealtOk(arrows: seq<Key>)
    requires |arrows| == 4 && multiset(arrows) == multiset(ARROWS)
    ensures ControlsOk(Dealt(arrows))
  {
    DistinctPermutation(ARROWS, arrows);
    forall i | 0 <= i < 4 ensures arrows[i] in ARROWS {
      assert arrows[i] in multiset(arrows);
    }
  }

  /** The shooting key of each direction. */
  function ShootKey(d: Direction): Key {
    match d
    case Up => KeyW
    case Down => KeyS
    case Left => KeyA
    case Right => KeyD
  }

  /** Velocity from the i-th control on: the i-th control's share plus the rest. */
  lemma VelocityStep(controls: Controls, pressed: set<Key>, i: nat)
    requires i < |controls|
    ensures var rest, key, move := Velocity(controls[i + 1..], pressed), controls[i].0, controls[i].1;
      Velocity(controls[i..], pressed) ==
        if key in pressed then (rest.0 + move.0 * PLAYER_SPEED, rest.1 + move.1 * PLAYER_SPEED) else rest
  {
    assert controls[i..][0] == controls[i] && controls[i..][1..] == controls[i + 1..];
  }

  /** The bullets the shooting keys add in one tick, in the order W, S, A, D. */
  function Shots(pressed: set<Key>, px: int, py: int): seq<Bullet> {
    (if KeyW in pressed then [Shot(px, py, Up)] else [])
    + (if KeyS in pressed then [Shot(px, py, Down)] else [])
    + (if KeyA in pressed then [Shot(px, py, Left)] else [])
    + (if KeyD in pressed then [Shot(px, py, Right)] else [])
  }

  /** A tick shoots in direction d exactly when d's key is held, once. */
  lemma {:induction false} ShotsPressed(pressed: set<Key>, px: int, py: int, d: Direction)
    ensures Shot(px, py, d) in Shots(pressed, px, py) <==> ShootKey(d) in pressed
    ensures |Shots(pressed, px, py)| <= 4
  {
    var s := Shots(pressed, px, py);
    ShotFacesDirection(px, py, d);
    if Shot(px, py, d) in s {
      var i :| 0 <= i < |s| && s[i] == Shot(px, py, d);
      match d
      case Up =>
      case Down =>
      case Left =>
      case Right =>
    }
  }

  /** The player's goal-test rectangle at (px, py): inset by 10 pixels, CELL_SIZE - 15 wide. */
  function PlayerBox(px: int, py: int): Rect {
    Rect(px + 10, py + 10, CELL_SIZE - 15, CELL_SIZE - 15)
  }

  /** The goal test of the tick. */
  predicate OnGoal(px: int, py: int, gx: int, gy: int) {
    Collide(PlayerBox(px, py), Rect(gx, gy, CELL_SIZE, CELL_SIZE))
  }

  /** The goal test accepts exactly the player positions in a window around
      the goal pixel, CELL_SIZE - 5 to the left and above, CELL_SIZE - 10 to
      the right and below. */
  lemma {:induction false} OnGoalWindow(px: int, py: int, gx: int, gy: int)
    ensures OnGoal(px, py, gx, gy) <==>
      && gx - (CELL_SIZE - 5) < px < gx + (CELL_SIZE - 10)
      && gy - (CELL_SIZE - 5) < py < gy + (CELL_SIZE - 10)
  {
  }

  /** list.remove(x): drop the first occurrence of x, if any. */
  function RemoveFirst<T(==)>(s: seq<T>, x: T): (r: seq<T>)
    ensures x !in s ==> r == s
    ensures x in s ==> |r| == |s| - 1
    ensures multiset(r) == multiset(s) - multiset{x}
  {
    if s == [] then []
    else if s[0] == x then
      assert s == [s[0]] + s[1..];
      s[1..]
    else
      assert s == [s[0]] + s[1..];
      [s[0]] + RemoveFirst(s[1..], x)
  }

  /** From a list without repeats, list.remove(x) removes x and only x. */
  lemma {:induction false} RemoveFirstDistinct<T>(s: seq<T>, x: T)
    requires Distinct(s)
    ensures Distinct(RemoveFirst(s, x))
    ensures forall c :: c in RemoveFirst(s, x) <==> c in s && c != x
  {
    var r := RemoveFirst(s, x);
    forall c ensures c in r <==> c in s && c != x {
      DistinctOnce(s, c);
      assert c in r <==> multiset(r)[c] > 0;
      assert c in s <==> multiset(s)[c] > 0;
    }
    forall i, j | 0 <= i < j < |r| ensures r[i] != r[j] {
      Twice(r, i, j);
      DistinctOnce(s, r[i]);
    }
  }

  /** The draw loop of generate_key_positions on maze g from cursor k0: it
      returns the keys and the cursor after the last draw. */
  method DrawKeys(g: Maze, rand: nat -> nat, k0: nat, n: nat) returns (found: seq<Cell>, k: nat)
    requires WellFormed(g) && Fair(rand) && n <= |KeyCells(g)|
    ensures exists count: nat ::
      && k == PairStart(k0, count)
      && found == ScanKeys(g, rand, k0, count)
      && (count == 0 || |ScanKeys(g, rand, k0, count - 1)| < n)
    ensures |found| == n
    ensures Distinct(found) && forall c | c in found :: KeyCandidate(g, c)
  {
    k := k0;
    ghost var count: nat := 0;
    found := [];
    ghost var due: nat := 0;
    ghost var prev: seq<Cell> := [];
    if n > 0 {
      due := NextCandidate(g, rand, k0, 0, found);
    }
    while |found| < n
      invariant k == PairStart(k0, count)
      invariant found == ScanKeys(g, rand, k0, count)
      invariant count > 0 ==> prev == ScanKeys(g, rand, k0, count - 1) && |prev| < n
      invariant |found| <= n
      invariant |found| < n ==> KeyDue(g, rand, k0, count, due, found)
      decreases n - |found|, due - count
    {
      prev := found;
      found, due := DrawKey(g, rand, k0, count, n, k, found, due);
      k := k + 2;
      count := count + 1;
    }
    ScanKeysValid(g, rand, k0, count);
  }

  /** One pass of that loop: the cell drawn at cursor k is added when it is
      an open cell, neither start nor goal, not taken yet; the next
      candidate still lies ahead. */
  method DrawKey(g: Maze, rand: nat -> nat, ghost k0: nat, ghost count: nat, ghost n: nat, k: nat,
                 found: seq<Cell>, ghost due: nat) returns (found': seq<Cell>, ghost due': nat)
    requires WellFormed(g) && Fair(rand) && n <= |KeyCells(g)|
    requires k == PairStart(k0, count) && found == ScanKeys(g, rand, k0, count)
    requires |found| < n && KeyDue(g, rand, k0, count, due, found)
    ensures found' == ScanKeys(g, rand, k0, count + 1) && |found'| <= n
    ensures |found'| < n ==> KeyDue(g, rand, k0, count + 1, due', found')
    ensures |found'| > |found| || (due' == due && count < due)
  {
    ScanNext(g, rand, k0, count);
    var cell := DrawCell(rand, k);
    found' := found;
    if g[cell.1][cell.0] == OPEN && cell != ROOT && cell != GOAL && cell !in found {
      found' := found + [cell];
    }
    due' := ScanStep(g, rand, k0, count, n, due);
  }

  /** The position of x in a list without repeats, or |s| when x is absent. */
  lemma {:induction false} IndexOf<T>(s: seq<T>, x: T) returns (at: nat)
    requires Distinct(s)
    ensures at <= |s|
    ensures forall i | 0 <= i < |s| :: s[i] == x <==> i == at
    ensures at == |s| <==> x !in s
  {
    at := 0;
    while at < |s| && s[at] != x
      invariant at <= |s| && forall i | 0 <= i < at :: s[i] != x
    {
      at := at + 1;
    }
  }

  /** A rearrangement of a list without repeats has no repeats. */
  lemma {:induction false} DistinctPermutation<T>(s: seq<T>, r: seq<T>)
    requires Distinct(s) && multiset(r) == multiset(s)
    ensures Distinct(r)
  {
    forall i, j | 0 <= i < j < |r| ensures r[i] != r[j] {
      Twice(r, i, j);
      DistinctOnce(s, r[i]);
    }
  }

  lemma {:induction false} Twice<T>(r: seq<T>, i: nat, j: nat)
    requires i < j < |r|
    ensures r[i] == r[j] ==> multiset(r)[r[i]] >= 2
  {
    assert r == r[..j] + r[j..];
    assert r[i] == r[..j][i] && r[j] == r[j..][0];
  }

  lemma {:induction false} DistinctOnce<T>(s: seq<T>, x: T)
    requires Distinct(s)
    ensures multiset(s)[x] <= 1
    decreases |s|
  {
    if s != [] {
      assert s == [s[0]] + s[1..];
      assert Distinct(s[1..]);
      DistinctOnce(s[1..], x);
      if s[0] == x {
        assert x !in s[1..];
      }
    }
  }

  /** The key pickup of a frame on the player's cell c: on EXTREME a key is
      removed iff it is c, and the count rises by the number removed; on the
      other difficulties keys and count stay as they were. */
  ghost predicate PickedUp(d: Difficulty, c: Cell, keys0: seq<Cell>, collected0: int, keys: seq<Cell>, collected: int) {
    if d == Extreme then
      var hit := if c in keys0 then 1 else 0;
      && (forall k :: k in keys <==> k in keys0 && k != c)
      && collected == collected0 + hit && |keys| == |keys0| - hit
    else keys == keys0 && collected == collected0
  }

  /** What the frames of a level keep true of the game's values: the random
      source fair and the high-score table complete; the maze well formed
      with some inner cell open; the player touching no wall; distinct keys
      that with the keys collected make up the difficulty's target. */
  ghost predicate Running(rand: nat -> nat, scores: Table, g: Maze, player: (int, int),
                          keys: seq<Cell>, collected: int, d: Difficulty)
  {
    && Fair(rand) && scores.Keys == {Medium, Hard, Extreme}
    && WellFormed(g) && SomeOpenInner(g)
    && Clear(g, player.0, player.1)
    && Distinct(keys) && collected >= 0 && collected + |keys| == KeyTarget(d)
  }

  class Game {
    var state: State
    var difficulty: Difficulty
    var paused: bool
    var grid: Maze
    var startPos: Cell
    var endPos: Cell
    var playerX: int
    var playerY: int
    var goalX: int
    var goalY: int
    var goalReached: bool
    var collectedKeys: int
    var keys: seq<Cell>
    var bullets: seq<Bullet>
    var enemies: seq<Enemy>
    var controls: Controls
    var highScores: Table
    var startTime: real
    var elapsedTime: real
    /** The random source: rand(k) is the k-th draw; drawn counts the draws taken. */
    const rand: nat -> nat
    var drawn: nat

    ghost predicate Valid()
      reads this`highScores
    {
      Fair(rand) && highScores.Keys == {Medium, Hard, Extreme}
    }

    /** What holds from the start of a level on. */
    ghost predicate Playable()
      reads this`highScores, this`grid, this`playerX, this`playerY, this`keys, this`collectedKeys, this`difficulty
      reads this`enemies, set e | e in enemies
    {
      && Running(rand, highScores, grid, (playerX, playerY), keys, collectedKeys, difficulty)
      && Squad(enemies, grid)
      && |enemies| == (if difficulty == Medium then 0 else 3)
    }

    /** How an unpaused frame ends, from state0, keys0, collected0, scores0,
        goal0 and time0 as they were before it: GAME_OVER exactly when an
        enemy catches the player, and then no key is picked up; otherwise
        the key pickup, and GAME_WON exactly when the player is on the goal
        with every key, which sets the flag, the elapsed time and the
        high-score table; any other frame leaves the state, the flag, the
        time and the table as they were. */
    ghost predicate Settled(now: real, date: string, state0: State, keys0: seq<Cell>, collected0: int,
                            scores0: Table, goal0: bool, time0: real)
      reads this, set e | e in enemies
    {
      var caught := exists e | e in enemies :: e.CheckCollision(playerX, playerY);
      && (caught ==> state == GameOver && keys == keys0 && collectedKeys == collected0)
      && (!caught ==> PickedUp(difficulty, PixelCell(playerX, playerY), keys0, collected0, keys, collectedKeys))
      && (state == GameOver ==> caught)
      && (state != GameOver && state != GameWon ==> state == state0)
      && (state == GameWon ==> && OnGoal(playerX, playerY, goalX, goalY)
                               && collectedKeys == KeyTarget(difficulty)
                               && goalReached && elapsedTime == now - startTime
                               && difficulty in scores0 && highScores == Updated(scores0, difficulty, elapsedTime, date))
      && (state != GameWon ==> highScores == scores0 && goalReached == goal0 && elapsedTime == time0)
      && ((state != GameOver && OnGoal(playerX, playerY, goalX, goalY) && collectedKeys == KeyTarget(difficulty))
          ==> state == GameWon)
    }

    /** The simulation fields of Game(): no level yet, high scores as loaded. */
    constructor (rand: nat -> nat, loaded: Table)
      requires Fair(rand) && loaded.Keys == {Medium, Hard, Extreme}
      ensures Valid()
      ensures state == Animation && !paused && collectedKeys == 0 && !goalReached
      ensures grid == [] && bullets == [] && enemies == [] && keys == [] && controls == []
      ensures highScores == loaded && this.rand == rand && drawn == 0
    {
      state := Animation;
      difficulty := Medium;
      paused := false;
      grid := [];
      startPos, endPos := (0, 0), (0, 0);
      playerX, playerY, goalX, goalY := 0, 0, 0, 0;
      goalReached := false;
      collectedKeys := 0;
      keys, bullets, enemies, controls := [], [], [], [];
      highScores := loaded;
      startTime, elapsedTime := 0.0, 0.0;
      this.rand := rand;
      drawn := 0;
    }

    /** update_high_score(difficulty, time_seconds) with the current date. */
    method UpdateHighScore(d: Difficulty, t: real, date: string) returns (isNew: bool)
      requires Valid()
      modifies this`highScores
      ensures Valid()
      ensures isNew == Beats(t, old(highScores)[d])
      ensures highScores == Updated(old(highScores), d, t, date)
    {
      if Beats(t, highScores[d]) {
        highScores := highScores[d := Best(t, date)];
        isNew := true;
      } else {
        isNew := false;
      }
    }

    /** shoot(direction): a new bullet at the end of the list. */
    method Shoot(d: Direction)
      modifies this`bullets
      ensures bullets == old(bullets) + [Shot(playerX, playerY, d)]
    {
      bullets := bullets + [Shot(playerX, playerY, d)];
    }

    /** get_random_spawn: draw inner cells until one is open. */
    method GetRandomSpawn() returns (c: Cell)
      requires WellFormed(grid) && Fair(rand) && SomeOpenInner(grid)
      modifies this`drawn
      ensures (c, drawn) == NextSpawn(grid, rand, old(drawn))
    {
      c, drawn := SpawnScan(grid, rand, drawn);
    }

    /** move_bullets: step every bullet; drop those entering a wall; a bullet
        overlapping an enemy removes the first such enemy, which is replaced
        at the end of the list by a new enemy on a random open cell; keep the
        others, in order. */
    method MoveBullets()
      requires WellFormed(grid) && Fair(rand) && SomeOpenInner(grid) && Squad(enemies, grid)
      modifies this`bullets, this`enemies, this`drawn
      ensures Squad(enemies, grid) && |enemies| == old(|enemies|)
      ensures forall e | e in enemies :: e in old(enemies) || fresh(e)
      ensures var r := StepBullets(grid, rand, old(drawn), old(bullets), old(Positions(enemies)));
        bullets == r.bullets && Positions(enemies) == r.foes && drawn == r.cursor
    {
      var g, bs := grid, bullets;
      ghost var spec := StepBullets(g, rand, drawn, bs, Positions(enemies));
      var kept: seq<Bullet> := [];
      var i := 0;
      while i < |bs|
        invariant 0 <= i <= |bs|
        invariant Squad(enemies, grid) && |enemies| == old(|enemies|)
        invariant forall e | e in enemies :: e in old(enemies) || fresh(e)
        invariant var r := StepBullets(g, rand, drawn, bs[i..], Positions(enemies));
          spec == Volley(kept + r.bullets, r.foes, r.cursor)
      {
        assert bs[i..][0] == bs[i] && bs[i..][1..] == bs[i + 1..];
        ghost var k, foes := drawn, Positions(enemies);
        var stepped := StepBullet(bs[i]);
        VolleyStep(g, rand, k, bs[i..], foes, stepped, drawn, Positions(enemies));
        Associative(kept, stepped, StepBullets(g, rand, drawn, bs[i + 1..], Positions(enemies)).bullets);
        kept := kept + stepped;
        i := i + 1;
      }
      bullets := kept;
    }

    /** One bullet of move_bullets: it steps; in a wall it is dropped; on the
        first enemy it overlaps, that enemy is replaced and the bullet
        dropped; otherwise it stays, stepped. */
    method StepBullet(b0: Bullet) returns (stepped: seq<Bullet>)
      requires WellFormed(grid) && Fair(rand) && SomeOpenInner(grid) && Squad(enemies, grid)
      modifies this`enemies, this`drawn
      ensures Squad(enemies, grid) && |enemies| == old(|enemies|)
      ensures forall e | e in enemies :: e in old(enemies) || fresh(e)
      ensures BulletOutcome(grid, rand, old(drawn), b0, old(Positions(enemies)), stepped, drawn, Positions(enemies))
    {
      var b := Moved(b0);
      var cell := PixelCell(b.x, b.y);
      if 0 <= cell.0 < COLS && 0 <= cell.1 < ROWS && grid[cell.1][cell.0] == WALL {
        return [];
      }
      var box := BulletRect(b);
      var j := 0;
      while j < |enemies| && !Collide(box, EnemyRect((enemies[j].pixelX, enemies[j].pixelY)))
        invariant 0 <= j <= |enemies|
        invariant FirstHit(box, Positions(enemies), 0) == FirstHit(box, Positions(enemies), j)
      {
        j := j + 1;
      }
      if j < |enemies| {
        ReplaceEnemy(j);
        stepped := [];
      } else {
        stepped := [b];
      }
    }

    /** enemies.remove(hit_enemy), then a new enemy from get_random_spawn appended. */
    method ReplaceEnemy(j: nat)
      requires WellFormed(grid) && Fair(rand) && SomeOpenInner(grid)
      requires Squad(enemies, grid) && j < |enemies|
      modifies this`enemies, this`drawn
      ensures Squad(enemies, grid) && |enemies| == old(|enemies|)
      ensures forall e | e in enemies :: e in old(enemies) || fresh(e)
      ensures var s := NextSpawn(grid, rand, old(drawn));
        && drawn == s.1
        && Positions(enemies) == old(Positions(enemies))[..j] + old(Positions(enemies))[j + 1..] + [SpawnPixel(s.0)]
    {
      var es := enemies;
      ghost var ps := Positions(es);
      var c := GetRandomSpawn();
      var spawned := new Enemy(c.0, c.1, grid);
      assert Positions(es) == ps;
      SquadReplace(es, grid, j, spawned);
      PositionsReplace(es, j, spawned);
      enemies := es[..j] + es[j + 1..] + [spawned];
      assert Positions(enemies) == ps[..j] + ps[j + 1..] + [SpawnPixel(c)];
    }

    /** generate_key_positions(n): draw inner cells until n distinct candidates are accepted. */
    method GenerateKeyPositions(n: nat) returns (found: seq<Cell>)
      requires WellFormed(grid) && Fair(rand) && n <= |KeyCells(grid)|
      modifies this`drawn
      ensures exists count: nat ::
        && drawn == PairStart(old(drawn), count)
        && found == ScanKeys(grid, rand, old(drawn), count)
        && (count == 0 || |ScanKeys(grid, rand, old(drawn), count - 1)| < n)
      ensures |found| == n
      ensures Distinct(found) && forall c | c in found :: KeyCandidate(grid, c)
    {
      found, drawn := DrawKeys(grid, rand, drawn, n);
    }

    /** The shooting part of the tick: shoot("up"), "down", "left", "right"
        for W, S, A, D held, in that order. */
    method ShootPressed(pressed: set<Key>)
      modifies this`bullets
      ensures bullets == old(bullets) + Shots(pressed, playerX, playerY)
    {
      ghost var start := bullets;
      if KeyW in pressed { Shoot(Up); }
      if KeyS in pressed { Shoot(Down); }
      if KeyA in pressed { Shoot(Left); }
      if KeyD in pressed { Shoot(Right); }
      assert bullets == start + Shots(pressed, playerX, playerY);
    }

    /** The velocity of the tick: the sum over the held arrow keys of their
        move vectors times the player speed. */
    method HeldVelocity(pressed: set<Key>) returns (vx: int, vy: int)
      ensures (vx, vy) == Velocity(controls, pressed)
    {
      vx, vy := 0, 0;
      var i := 0;
      while i < |controls|
        invariant 0 <= i <= |controls|
        invariant var rest := Velocity(controls[i..], pressed); (vx + rest.0, vy + rest.1) == Velocity(controls, pressed)
      {
        VelocityStep(controls, pressed, i);
        if controls[i].0 in pressed {
          vx := vx + controls[i].1.0 * PLAYER_SPEED;
          vy := vy + controls[i].1.1 * PLAYER_SPEED;
        }
        i := i + 1;
      }
      assert controls[i..] == [];
    }

    /** The movement part of the tick: the x step if can_move accepts it,
        then the y step against the accepted x, as PlayerStep takes them. */
    method MovePlayer(pressed: set<Key>)
      requires WellFormed(grid)
      modifies this`playerX, this`playerY
      ensures var v := Velocity(controls, pressed);
        (playerX, playerY) == PlayerStep(grid, old(playerX), old(playerY), v.0, v.1)
    {
      var vx, vy := HeldVelocity(pressed);
      var newX, newY := playerX + vx, playerY + vy;
      var okX := CanMove(grid, newX, playerY);
      if okX {
        playerX := newX;
      }
      var okY := CanMove(grid, playerX, newY);
      if okY {
        playerY := newY;
      }
    }

    /** The enemy part of the tick: each enemy in list order moves toward the
        player and is checked; the first one that catches the player ends the
        game and the loop. */
    method ChasePlayer() returns (caught: bool)
      requires Squad(enemies, grid)
      modifies this`state, set e | e in enemies
      ensures Squad(enemies, grid)
      ensures caught <==> exists i | 0 <= i < |enemies| :: enemies[i].CheckCollision(playerX, playerY)
      ensures state == if caught then GameOver else old(state)
    {
      var es, px, py := enemies, playerX, playerY;
      var i := 0;
      while i < |es|
        invariant 0 <= i <= |es|
        invariant Squad(es, grid) && state == old(state)
        invariant forall j | 0 <= j < i :: !es[j].CheckCollision(px, py)
      {
        es[i].MoveTowardsPlayer(px, py);
        if es[i].CheckCollision(px, py) {
          state := GameOver;
          return true;
        }
        i := i + 1;
      }
      return false;
    }

    /** The key pickup of the tick on EXTREME: scanning a copy of the key
        list, a key on the player's cell is removed and counted. */
    method CollectKeys()
      requires Distinct(keys)
      modifies this`keys, this`collectedKeys
      ensures Distinct(keys)
      ensures forall c :: c in keys <==> c in old(keys) && c != PixelCell(playerX, playerY)
      ensures var hit := if PixelCell(playerX, playerY) in old(keys) then 1 else 0;
        collectedKeys == old(collectedKeys) + hit && |keys| == |old(keys)| - hit
    {
      var cell := PixelCell(playerX, playerY);
      var snapshot := keys;
      ghost var at := IndexOf(snapshot, cell);
      var i := 0;
      while i < |snapshot|
        invariant 0 <= i <= |snapshot|
        invariant keys == if at < i then RemoveFirst(snapshot, cell) else snapshot
        invariant collectedKeys == old(collectedKeys) + if at < i then 1 else 0
      {
        if cell == snapshot[i] {
          keys := RemoveFirst(keys, snapshot[i]);
          collectedKeys := collectedKeys + 1;
        }
        i := i + 1;
      }
      if at == |snapshot| {
        assert cell !in snapshot && keys == snapshot;
      } else {
        RemoveFirstDistinct(snapshot, cell);
      }
    }

    /** init_level(level): a fresh carved maze with the goal forced open, the
        player on the start cell and the goal marker on the goal cell, the
        arrow keys shuffled and dealt UP, DOWN, LEFT, RIGHT, three enemies in
        shuffled order from level 2 on, and three keys on level 3. */
    method InitLevel(level: int)
      requires Valid()
      modifies this`grid, this`startPos, this`endPos, this`playerX, this`playerY, this`goalX, this`goalY
      modifies this`controls, this`enemies, this`keys, this`drawn
      ensures Valid() && Laid(grid) && startPos == ROOT && endPos == GOAL
      ensures (playerX, playerY) == CellPixel(ROOT) && (goalX, goalY) == CellPixel(GOAL)
      ensures Clear(grid, playerX, playerY)
      ensures ControlsOk(controls)
      ensures Squad(enemies, grid) && |enemies| == (if level >= 2 then 3 else 0)
      ensures forall e | e in enemies :: fresh(e)
      ensures level >= 2 ==> OnStarts(enemies)
      ensures Distinct(keys) && |keys| == (if level == 3 then KEYS_NEEDED else 0)
      ensures forall c | c in keys :: KeyCandidate(grid, c)
    {
      LayOut();
      DealControls();
      PlaceSquad(level);
      PlaceKeys(level);
    }

    /** The enemies of init_level: none, or from level 2 on PlaceEnemies. */
    method PlaceSquad(level: int)
      requires WellFormed(grid)
      modifies this`enemies, this`drawn
      ensures Squad(enemies, grid) && |enemies| == (if level >= 2 then 3 else 0)
      ensures forall e | e in enemies :: fresh(e)
      ensures level >= 2 ==> OnStarts(enemies)
    {
      enemies := [];
      if level >= 2 {
        PlaceEnemies();
      }
    }

    /** The keys of init_level: none, or on level 3 generate_key_positions(3). */
    method PlaceKeys(level: int)
      requires Valid() && Laid(grid)
      modifies this`keys, this`drawn
      ensures Distinct(keys) && |keys| == (if level == 3 then KEYS_NEEDED else 0)
      ensures forall c | c in keys :: KeyCandidate(grid, c)
      ensures level != 3 ==> drawn == old(drawn)
    {
      keys := [];
      if level == 3 {
        keys := GenerateKeyPositions(KEYS_NEEDED);
      }
    }

    /** The maze, start, goal, player and goal marker of init_level. */
    method LayOut()
      modifies this`grid, this`startPos, this`endPos, this`playerX, this`playerY, this`goalX, this`goalY, this`drawn
      ensures Laid(grid) && startPos == ROOT && endPos == GOAL
      ensures (playerX, playerY) == CellPixel(ROOT) && (goalX, goalY) == CellPixel(GOAL)
      ensures Clear(grid, playerX, playerY)
    {
      var g, next := GenerateMaze(rand, drawn);
      LaidMaze(g);
      OpenCellPixelFree(g, ROOT);
      grid, drawn := g, next;
      startPos, endPos := ROOT, GOAL;
      playerX, playerY := CellPixel(ROOT).0, CellPixel(ROOT).1;
      goalX, goalY := CellPixel(GOAL).0, CellPixel(GOAL).1;
    }

    /** The control table of init_level: random.shuffle of the four arrow
        keys, then the i-th key of the shuffled list bound to the i-th move. */
    method DealControls()
      modifies this`controls, this`drawn
      ensures ControlsOk(controls) && drawn == old(drawn) + 3
    {
      var arrows := Shuffled(ARROWS, DrawsFrom(rand, drawn, 3));
      drawn := drawn + 3;
      DealtOk(arrows);
      controls := Dealt(arrows);
    }

    /** The enemies of levels 2 and 3: the three new enemies in
        random.shuffle order. The shuffle's two draws are taken from the
        stream before the enemies are made; making them draws nothing. */
    method PlaceEnemies()
      requires WellFormed(grid)
      modifies this`enemies, this`drawn
      ensures Squad(enemies, grid) && |enemies| == 3 && drawn == old(drawn) + 2
      ensures forall e | e in enemies :: fresh(e)
      ensures OnStarts(enemies)
    {
      var draws := DrawsFrom(rand, drawn, 2);
      drawn := drawn + 2;
      var made := NewEnemies(grid);
      var es := Shuffled(made, draws);
      SquadPermutation(made, es, grid);
      enemies := es;
      forall k | 0 <= k < 3 ensures exists e | e in es :: (e.x, e.y) == ENEMY_STARTS[k] && e.path == [] {
        assert made[k] in es;
      }
    }

    /** start_game(difficulty): the level of the difficulty is set up, nothing
        collected, no bullets, and the clock started at `now`. */
    method StartGame(d: Difficulty, now: real)
      requires Valid()
      modifies this`difficulty, this`state, this`goalReached, this`collectedKeys, this`bullets, this`startTime
      modifies this`grid, this`startPos, this`endPos, this`playerX, this`playerY, this`goalX, this`goalY
      modifies this`controls, this`enemies, this`keys, this`drawn
      ensures Playable() && state == Playing && difficulty == d
      ensures !goalReached && collectedKeys == 0 && |keys| == KeyTarget(d) && bullets == []
      ensures (playerX, playerY) == CellPixel(ROOT) && startTime == now
      ensures Laid(grid) && startPos == ROOT && endPos == GOAL && (goalX, goalY) == CellPixel(GOAL)
      ensures ControlsOk(controls)
      ensures forall e | e in enemies :: fresh(e)
      ensures d != Medium ==> OnStarts(enemies)
      ensures forall c | c in keys :: KeyCandidate(grid, c)
    {
      ResetRun(d);
      SetUpLevel(LevelOf(d));
      startTime := now;
    }

    /** The fields start_game sets before init_level. */
    method ResetRun(d: Difficulty)
      modifies this`difficulty, this`state, this`goalReached, this`collectedKeys, this`bullets
      ensures difficulty == d && state == Playing && !goalReached && collectedKeys == 0 && bullets == []
    {
      difficulty := d;
      state := Playing;
      goalReached := false;
      collectedKeys := 0;
      bullets := [];
    }

    /** init_level(level) for the level of the current difficulty, nothing
        collected yet: the level is playable. */
    method SetUpLevel(level: int)
      requires Valid() && collectedKeys == 0 && level == LevelOf(difficulty)
      modifies this`grid, this`startPos, this`endPos, this`playerX, this`playerY, this`goalX, this`goalY
      modifies this`controls, this`enemies, this`keys, this`drawn
      ensures Playable() && |keys| == KeyTarget(difficulty)
      ensures Laid(grid) && startPos == ROOT && endPos == GOAL
      ensures (playerX, playerY) == CellPixel(ROOT) && (goalX, goalY) == CellPixel(GOAL)
      ensures ControlsOk(controls)
      ensures forall e | e in enemies :: fresh(e)
      ensures level >= 2 ==> OnStarts(enemies)
      ensures forall c | c in keys :: KeyCandidate(grid, c)
    {
      InitLevel(level);
      LevelReady();
    }

    /** A level just laid out for the difficulty, nothing collected yet, is playable. */
    lemma LevelReady()
      requires Valid() && Laid(grid) && Clear(grid, playerX, playerY)
      requires Squad(enemies, grid) && |enemies| == (if LevelOf(difficulty) >= 2 then 3 else 0)
      requires Distinct(keys) && |keys| == (if LevelOf(difficulty) == 3 then KEYS_NEEDED else 0)
      requires collectedKeys == 0
      ensures Playable()
    {
    }

    /** One frame of run_game while a game is on. The window events become
        parameters: `pauseToggles` P key presses, and whether the exit button
        was clicked (which sets the main menu and lets the frame go on). When
        the game is paused after them nothing else happens; otherwise the
        frame is Advance. */
    method Tick(pauseToggles: nat, exitClicked: bool, pressed: set<Key>, now: real, date: string)
      requires Playable() && state == Playing
      modifies this`state, this`paused, this`bullets, this`enemies, this`drawn, this`playerX, this`playerY
      modifies this`keys, this`collectedKeys, this`goalReached, this`elapsedTime, this`highScores
      modifies set e | e in enemies
      ensures Playable()
      ensures paused == (old(paused) != (pauseToggles % 2 == 1))
      ensures paused ==> && state == (if exitClicked then MainMenu else Playing)
                         && playerX == old(playerX) && playerY == old(playerY)
                         && bullets == old(bullets) && enemies == old(enemies) && keys == old(keys)
                         && highScores == old(highScores) && drawn == old(drawn)
                         && collectedKeys == old(collectedKeys) && goalReached == old(goalReached)
                         && elapsedTime == old(elapsedTime) && unchanged(set e | e in enemies)
      ensures !paused ==> var v := Velocity(old(controls), pressed);
        (playerX, playerY) == PlayerStep(old(grid), old(playerX), old(playerY), v.0, v.1)
      ensures !paused && difficulty == Medium ==> bullets == old(bullets) && drawn == old(drawn)
      ensures !paused && difficulty != Medium ==>
        var r := StepBullets(old(grid), rand, old(drawn), old(bullets) + Shots(pressed, old(playerX), old(playerY)),
                             old(Positions(enemies)));
        bullets == r.bullets && drawn == r.cursor
      ensures !paused ==> Settled(now, date, if exitClicked then MainMenu else Playing, old(keys), old(collectedKeys),
                                  old(highScores), old(goalReached), old(elapsedTime))
    {
      HandleEvents(pauseToggles, exitClicked);
      if paused {
        return;
      }
      Advance(pressed, now, date);
    }

    /** The event loop of a frame: the exit button sets the main menu, each
        P key press toggles the pause. */
    method HandleEvents(pauseToggles: nat, exitClicked: bool)
      modifies this`state, this`paused
      ensures paused == (old(paused) != (pauseToggles % 2 == 1))
      ensures state == if exitClicked then MainMenu else old(state)
    {
      if exitClicked {
        state := MainMenu;
      }
      if pauseToggles % 2 == 1 {
        paused := !paused;
      }
    }

    /** The simulation part of an unpaused frame of run_game: shooting (HARD
        and EXTREME), the player's move, the bullets (HARD and EXTREME), the
        enemies, the key pickup (EXTREME) and the goal test. */
    method Advance(pressed: set<Key>, now: real, date: string)
      requires Playable() && (state == Playing || state == MainMenu)
      modifies this`bullets, this`enemies, this`drawn, this`playerX, this`playerY, this`state
      modifies this`keys, this`collectedKeys, this`goalReached, this`elapsedTime, this`highScores
      modifies set e | e in enemies
      ensures Playable()
      ensures var v := Velocity(old(controls), pressed);
        (playerX, playerY) == PlayerStep(old(grid), old(playerX), old(playerY), v.0, v.1)
      ensures difficulty == Medium ==> bullets == old(bullets) && drawn == old(drawn)
      ensures difficulty != Medium ==>
        var r := StepBullets(old(grid), rand, old(drawn), old(bullets) + Shots(pressed, old(playerX), old(playerY)),
                             old(Positions(enemies)));
        bullets == r.bullets && drawn == r.cursor
      ensures Settled(now, date, old(state), old(keys), old(collectedKeys), old(highScores), old(goalReached), old(elapsedTime))
    {
      Act(pressed);
      Resolve(now, date);
    }

    /** The first half of an unpaused frame: shooting and the bullets on HARD
        and EXTREME around the player's move. */
    method Act(pressed: set<Key>)
      requires Playable()
      modifies this`bullets, this`enemies, this`drawn, this`playerX, this`playerY
      ensures Playable()
      ensures forall e | e in enemies :: e in old(enemies) || fresh(e)
      ensures var v := Velocity(controls, pressed);
        (playerX, playerY) == PlayerStep(grid, old(playerX), old(playerY), v.0, v.1)
      ensures difficulty == Medium ==> bullets == old(bullets) && drawn == old(drawn) && enemies == old(enemies)
      ensures difficulty != Medium ==>
        var r := StepBullets(grid, rand, old(drawn), old(bullets) + Shots(pressed, old(playerX), old(playerY)),
                             old(Positions(enemies)));
        bullets == r.bullets && Positions(enemies) == r.foes && drawn == r.cursor
    {
      ghost var foes := Positions(enemies);
      if difficulty != Medium {
        ShootPressed(pressed);
      }
      ghost var fired := bullets;
      ghost var v := Velocity(controls, pressed);
      StepStaysClear(grid, playerX, playerY, v.0, v.1);
      MovePlayer(pressed);
      assert Running(rand, highScores, grid, (playerX, playerY), keys, collectedKeys, difficulty);
      if difficulty != Medium {
        assert bullets == fired && Positions(enemies) == foes;
        MoveBullets();
      }
    }

    /** The second half of an unpaused frame: the enemies, then, unless one
        caught the player, the key pickup and the goal test. */
    method Resolve(now: real, date: string)
      requires Playable() && (state == Playing || state == MainMenu)
      modifies this`state, this`keys, this`collectedKeys, this`goalReached, this`elapsedTime, this`highScores
      modifies set e | e in enemies
      ensures Playable()
      ensures playerX == old(playerX) && playerY == old(playerY) && bullets == old(bullets) && drawn == old(drawn)
      ensures Settled(now, date, old(state), old(keys), old(collectedKeys), old(highScores), old(goalReached), old(elapsedTime))
    {
      var caught := ChasePlayer();
      if !caught {
        Finish(now, date);
      }
    }

    /** The end of a frame no enemy ended: the key pickup on EXTREME, then
        the goal test, which on EXTREME also needs all three keys. */
    method Finish(now: real, date: string)
      requires Playable() && (state == Playing || state == MainMenu)
      modifies this`state, this`keys, this`collectedKeys, this`goalReached, this`elapsedTime, this`highScores
      ensures Playable()
      ensures state == GameWon || state == old(state)
      ensures state == GameWon ==> && OnGoal(playerX, playerY, goalX, goalY)
                                   && collectedKeys == KeyTarget(difficulty)
                                   && goalReached && elapsedTime == now - startTime
                                   && highScores == Updated(old(highScores), difficulty, elapsedTime, date)
      ensures state != GameWon ==> highScores == old(highScores)
      ensures state != GameWon ==> goalReached == old(goalReached) && elapsedTime == old(elapsedTime)
      ensures (OnGoal(playerX, playerY, goalX, goalY) && collectedKeys == KeyTarget(difficulty)) ==> state == GameWon
      ensures PickedUp(difficulty, PixelCell(playerX, playerY), old(keys), old(collectedKeys), keys, collectedKeys)
    {
      if difficulty == Extreme {
        CollectKeys();
      }
      if OnGoal(playerX, playerY, goalX, goalY) && (difficulty != Extreme || collectedKeys == KEYS_NEEDED) {
        Win(now, date);
      }
    }

    /** The goal reached: the flag, the elapsed time, the high-score
        update and the GAME_WON state. */
    method Win(now: real, date: string)
      requires Playable()
      modifies this`goalReached, this`elapsedTime, this`highScores, this`state
      ensures Playable()
      ensures goalReached && elapsedTime == now - startTime && state == GameWon
      ensures highScores == Updated(old(highScores), difficulty, elapsedTime, date)
    {
      goalReached := true;
      elapsedTime := now - startTime;
      var isNew := UpdateHighScore(difficulty, elapsedTime, date);
      state := GameWon;
    }
  }

  /** The draw at offset `due`, not before `count`, lands on a candidate not yet taken. */
  ghost predicate KeyDue(g: Maze, rand: nat -> nat, k0: nat, count: nat, due: nat, found: seq<Cell>)
    requires WellFormed(g)
  {
    count <= due && KeyCandidate(g, DrawCell(rand, PairStart(k0, due))) && DrawCell(rand, PairStart(k0, due)) !in found
  }

  /** The retry loop of get_random_spawn: draw cells from cursor k0 on
      until one is open; k is the cursor after the accepted draw. */
  method SpawnScan(g: Maze, rand: nat -> nat, k0: nat) returns (c: Cell, k: nat)
    requires WellFormed(g) && Fair(rand) && SomeOpenInner(g)
    ensures (c, k) == NextSpawn(g, rand, k0)
  {
    ghost var last := SpawnDue(g, rand, k0);
    k := k0;
    ghost var t: nat := 0;
    while true
      invariant t <= last && k == PairStart(k0, t)
      invariant forall u: nat | u < t :: !OpenDrawAt(g, rand, k0, u)
      decreases last - t
    {
      var cell := DrawCell(rand, k);
      k := k + 2;
      if g[cell.1][cell.0] == OPEN {
        c := cell;
        SpawnIsFirst(g, rand, k0, t);
        return;
      }
      t := t + 1;
    }
  }

  /** The draw NextSpawn stops at. */
  lemma SpawnDue(g: Maze, rand: nat -> nat, k: nat) returns (t: nat)
    requires WellFormed(g) && Fair(rand) && SomeOpenInner(g)
    ensures NextSpawn(g, rand, k) == (DrawCell(rand, PairStart(k, t)), PairStart(k, t) + 2)
    ensures OpenDrawAt(g, rand, k, t)
  {
    t :| NextSpawn(g, rand, k) == (DrawCell(rand, PairStart(k, t)), PairStart(k, t) + 2)
      && forall u: nat | u < t :: !OpenDrawAt(g, rand, k, u);
  }

  /** The first open draw is the one NextSpawn picks. */
  lemma SpawnIsFirst(g: Maze, rand: nat -> nat, k: nat, t: nat)
    requires WellFormed(g) && Fair(rand) && SomeOpenInner(g)
    requires OpenDrawAt(g, rand, k, t) && forall u: nat | u < t :: !OpenDrawAt(g, rand, k, u)
    ensures NextSpawn(g, rand, k) == (DrawCell(rand, PairStart(k, t)), PairStart(k, t) + 2)
  {
    var t': nat :| NextSpawn(g, rand, k) == (DrawCell(rand, PairStart(k, t')), PairStart(k, t') + 2)
      && forall u: nat | u < t' :: !OpenDrawAt(g, rand, k, u);
    assert IsOpen(g, NextSpawn(g, rand, k).0);
    assert OpenDrawAt(g, rand, k, t');
  }

  /** One draw of generate_key_positions keeps the loop's bookkeeping and
      moves it toward the end: either a key is accepted or the next
      candidate's draw gets one closer. */
  lemma ScanStep(g: Maze, rand: nat -> nat, k0: nat, count: nat, n: nat, due: nat) returns (due': nat)
    requires WellFormed(g) && Fair(rand) && n <= |KeyCells(g)|
    requires var before := ScanKeys(g, rand, k0, count); |before| < n && KeyDue(g, rand, k0, count, due, before)
    ensures var before, after := ScanKeys(g, rand, k0, count), ScanKeys(g, rand, k0, count + 1);
      && |after| <= n
      && (|after| < n ==> KeyDue(g, rand, k0, count + 1, due', after))
      && (|after| > |before| || (due' == due && count < due))
  {
    var before, after := ScanKeys(g, rand, k0, count), ScanKeys(g, rand, k0, count + 1);
    due' := due;
    if |after| > |before| && |after| < n {
      due' := NextCandidate(g, rand, k0, count + 1, after);
    }
  }

  /** The draw at `count` as the loop sees it: accepted when open, neither
      start nor goal, and not accepted before. */
  lemma ScanNext(g: Maze, rand: nat -> nat, k: nat, count: nat)
    requires WellFormed(g)
    ensures var prev, c := ScanKeys(g, rand, k, count), DrawCell(rand, PairStart(k, count));
      ScanKeys(g, rand, k, count + 1) ==
        if g[c.1][c.0] == OPEN && c != ROOT && c != GOAL && c !in prev then prev + [c] else prev
  {
  }

  /** Accepted keys only accumulate as draws go on. */
  lemma {:induction false} ScanKeysGrow(g: Maze, rand: nat -> nat, k: nat, a: nat, b: nat)
    requires WellFormed(g) && a <= b
    ensures ScanKeys(g, rand, k, a) <= ScanKeys(g, rand, k, b)
    decreases b - a
  {
    if a < b {
      ScanKeysGrow(g, rand, k, a, b - 1);
    }
  }

  /** So generate_key_positions stops at the first draw that completes n keys:
      no earlier count had n. */
  lemma {:induction false} StopsAtFirst(g: Maze, rand: nat -> nat, k: nat, count: nat, n: nat)
    requires WellFormed(g) && count > 0 && |ScanKeys(g, rand, k, count - 1)| < n
    ensures forall c: nat | c < count :: |ScanKeys(g, rand, k, c)| < n
  {
    forall c: nat | c < count ensures |ScanKeys(g, rand, k, c)| < n {
      ScanKeysGrow(g, rand, k, c, count - 1);
    }
  }

  lemma NextCandidate(g: Maze, rand: nat -> nat, k0: nat, count: nat, found: seq<Cell>) returns (due: nat)
    requires WellFormed(g) && Fair(rand)
    requires found == ScanKeys(g, rand, k0, count) && |found| < |KeyCells(g)|
    ensures KeyDue(g, rand, k0, count, due, found)
  {
    var taken := set i | 0 <= i < |found| :: found[i];
    ScanKeysValid(g, rand, k0, count);
    DistinctCard(found);
    forall c | c in taken ensures c in KeyCells(g) {
      var i :| 0 <= i < |found| && found[i] == c;
      assert Inner(c) && KeyCandidate(g, c);
    }
    var a := MissingElement(taken, KeyCells(g));
    assert Inner(a);
    assert DrawnFrom(rand, a, PairStart(k0, count));
    var t: nat :| DrawCell(rand, PairStart(PairStart(k0, count), t)) == a;
    due := count + t;
    assert PairStart(PairStart(k0, count), t) == PairStart(k0, due);
  }

  lemma Associative<T>(a: seq<T>, b: seq<T>, c: seq<T>)
    ensures a + (b + c) == (a + b) + c
  {
  }

  lemma DistinctCard<T>(s: seq<T>)
    requires Distinct(s)
    ensures |set i | 0 <= i < |s| :: s[i]| == |s|
  {
    if s != [] {
      var t := s[..|s| - 1];
      DistinctCard(t);
      assert (set i | 0 <= i < |s| :: s[i]) == (set i | 0 <= i < |t| :: t[i]) + {s[|s| - 1]};
    }
  }

  lemma MissingElement<T>(a: set<T>, b: set<T>) returns (x: T)
    requires a <= b && |a| < |b|
    ensures x in b && x !in a
  {
    var d := b - a;
    assert b == a + d;
    assert |d| > 0;
    x :| x in d;
  }
}
