/** Maze generation: recursive carving in two-cell jumps from (3, 3) over an
    all-wall grid, with one direction list shuffled in place by every call. */
module Carving {
  import opened Grid
  import opened Randomness

  const ROOT: Cell := (3, 3)
  /** The goal cell (COLS - 5, ROWS - 5), opened after carving. */
  const GOAL: Cell := (COLS - 5, ROWS - 5)
  /** The starting contents of the shared direction list. */
  const DIRECTIONS: seq<Cell> := [(2, 0), (-2, 0), (0, 2), (0, -2)]

  /** A cell the carver may open: inside the border and with at least one odd coordinate. */
  predicate Carvable(c: Cell) {
    1 <= c.0 <= COLS - 2 && 1 <= c.1 <= ROWS - 2 && (c.0 % 2 == 1 || c.1 % 2 == 1)
  }

  /** A cell generate_key_positions accepts: open, and neither the start nor the goal. */
  predicate KeyCandidate(g: Maze, c: Cell)
    requires WellFormed(g)
  {
    IsOpen(g, c) && c != ROOT && c != GOAL
  }

  /** The cells a key can be placed on. */
  function KeyCells(g: Maze): set<Cell>
    requires WellFormed(g)
  {
    set x, y | 1 <= x <= COLS - 2 && 1 <= y <= ROWS - 2 && KeyCandidate(g, (x, y)) :: (x, y)
  }

  /** The initial grid. Both branches of the source's comprehension are walls. */
  function AllWalls(): (g: Maze)
    ensures WellFormed(g)
    ensures forall c | InBounds(c) :: IsWall(g, c)
  {
    seq(ROWS, r => seq(COLS, c => if r < 2 || r >= ROWS - 2 || c < 2 || c >= COLS - 2 then WALL else WALL))
  }

  function WallCells(g: Maze): set<Cell>
    requires WellFormed(g)
  {
    set x, y | 0 <= x < COLS && 0 <= y < ROWS && g[y][x] == WALL :: (x, y)
  }

  /** What the carver keeps true between writes: the shared direction list
      holds each direction, `stamp` records the open cells in the order they
      were opened and `parent` the open neighbour each one was opened from,
      so every open cell leads back to ROOT. */
  ghost predicate CarveInvariant(g: Maze, dirs: seq<Cell>, stamp: map<Cell, nat>, parent: map<Cell, Cell>, clock: nat) {
    DirectionsOk(dirs) && Stamped(g, stamp) && Tree(stamp, parent, clock)
  }

  ghost predicate DirectionsOk(dirs: seq<Cell>) {
    && |dirs| == 4
    && (forall i | 0 <= i < |dirs| :: dirs[i] in DIRECTIONS)
    && (forall d | d in DIRECTIONS :: d in dirs)
  }

  /** The open cells of g are exactly the stamped ones. */
  ghost predicate Stamped(g: Maze, stamp: map<Cell, nat>) {
    && WellFormed(g)
    && (forall x, y | 0 <= x < COLS && 0 <= y < ROWS :: g[y][x] == OPEN <==> (x, y) in stamp)
  }

  /** Each stamped cell other than ROOT has an earlier-stamped neighbour as parent. */
  ghost predicate Tree(stamp: map<Cell, nat>, parent: map<Cell, Cell>, clock: nat) {
    StampsBelow(stamp, clock) && Rooted(stamp, parent) && ParentsEarlier(stamp, parent)
  }

  /** Stamped cells are carvable and were stamped before `clock`. */
  ghost predicate StampsBelow(stamp: map<Cell, nat>, clock: nat) {
    forall c | c in stamp :: InBounds(c) && Carvable(c) && stamp[c] < clock
  }

  ghost predicate Rooted(stamp: map<Cell, nat>, parent: map<Cell, Cell>) {
    forall c | c in stamp && c != ROOT :: c in parent
  }

  ghost predicate ParentsEarlier(stamp: map<Cell, nat>, parent: map<Cell, Cell>) {
    forall c {:trigger parent[c]} | c in parent ::
      c in stamp && parent[c] in stamp && Adjacent(parent[c], c) && stamp[parent[c]] < stamp[c]
  }

  /** Every cell the carver has opened is connected to ROOT through open cells. */
  lemma {:induction false} StampedReachable(g: Maze, dirs: seq<Cell>, stamp: map<Cell, nat>, parent: map<Cell, Cell>, clock: nat, c: Cell)
    requires CarveInvariant(g, dirs, stamp, parent, clock)
    requires c in stamp
    ensures Reachable(g, ROOT, c)
    decreases stamp[c]
  {
    if c != ROOT {
      var p := parent[c];
      StampedReachable(g, dirs, stamp, parent, clock, p);
      assert IsOpen(g, c) && IsOpen(g, p);
      if p == ROOT {
        WalkExtend(g, ROOT, ROOT, [], c);
      } else {
        var w :| IsWalk(g, ROOT, p, w);
        WalkExtend(g, ROOT, p, w, c);
      }
    }
  }

  /** g with cell c set to OPEN. */
  function OpenAt(g: Maze, c: Cell): (r: Maze)
    requires WellFormed(g) && InBounds(c)
    ensures WellFormed(r)
    ensures forall x, y | 0 <= x < COLS && 0 <= y < ROWS :: r[y][x] == if (x, y) == c then OPEN else g[y][x]
  {
    SetCell(g, c, OPEN);
    g[c.1 := g[c.1][c.0 := OPEN]]
  }

  /** The cell two steps from c in direction d, and the cell in between. */
  function Target(c: Cell, d: Cell): Cell {
    (c.0 + d.0, c.1 + d.1)
  }

  function Between(c: Cell, d: Cell): Cell {
    (c.0 + d.0 / 2, c.1 + d.1 / 2)
  }

  /** carve_maze's test for direction d at cell c: the far cell is inside
      the border and still a wall. */
  predicate CanJump(g: Maze, c: Cell, d: Cell)
    requires WellFormed(g)
  {
    var t := Target(c, d);
    1 <= t.0 < COLS - 1 && 1 <= t.1 < ROWS - 1 && g[t.1][t.0] == WALL
  }

  /** Opening a new carvable cell from an open neighbour and recording it
      keeps the carver's invariant. */
  lemma OpenFresh(g: Maze, dirs: seq<Cell>, stamp: map<Cell, nat>, parent: map<Cell, Cell>, clock: nat, c: Cell, from: Cell)
    requires CarveInvariant(g, dirs, stamp, parent, clock) && Carvable(c) && c !in stamp
    requires c == ROOT || (from in stamp && Adjacent(from, c))
    ensures CarveInvariant(OpenAt(g, c), dirs, stamp[c := clock], if c != ROOT then parent[c := from] else parent, clock + 1)
  {
    StampFresh(g, stamp, c, clock);
    TreeFresh(stamp, parent, clock, c, from);
  }

  lemma StampFresh(g: Maze, stamp: map<Cell, nat>, c: Cell, clock: nat)
    requires Stamped(g, stamp) && InBounds(c)
    ensures Stamped(OpenAt(g, c), stamp[c := clock])
  {
    var g', stamp' := OpenAt(g, c), stamp[c := clock];
    forall x, y | 0 <= x < COLS && 0 <= y < ROWS ensures g'[y][x] == OPEN <==> (x, y) in stamp' {
    }
  }

  lemma TreeFresh(stamp: map<Cell, nat>, parent: map<Cell, Cell>, clock: nat, c: Cell, from: Cell)
    requires Tree(stamp, parent, clock) && Carvable(c) && c !in stamp
    requires c == ROOT || (from in stamp && Adjacent(from, c))
    ensures Tree(stamp[c := clock], if c != ROOT then parent[c := from] else parent, clock + 1)
  {
    StampsFresh(stamp, clock, c);
    RootedFresh(stamp, parent, clock, c, from);
    ParentsFresh(stamp, parent, clock, c, from);
  }

  lemma StampsFresh(stamp: map<Cell, nat>, clock: nat, c: Cell)
    requires StampsBelow(stamp, clock) && Carvable(c)
    ensures StampsBelow(stamp[c := clock], clock + 1)
  {
    forall e | e in stamp[c := clock] ensures InBounds(e) && Carvable(e) && stamp[c := clock][e] < clock + 1 {
      if e != c {
        assert e in stamp;
      }
    }
  }

  lemma RootedFresh(stamp: map<Cell, nat>, parent: map<Cell, Cell>, clock: nat, c: Cell, from: Cell)
    requires Rooted(stamp, parent)
    ensures Rooted(stamp[c := clock], if c != ROOT then parent[c := from] else parent)
  {
    var stamp', parent' := stamp[c := clock], if c != ROOT then parent[c := from] else parent;
    forall e | e in stamp' && e != ROOT ensures e in parent' {
      if e != c {
        assert e in stamp;
      }
    }
  }

  lemma ParentsFresh(stamp: map<Cell, nat>, parent: map<Cell, Cell>, clock: nat, c: Cell, from: Cell)
    requires ParentsEarlier(stamp, parent) && StampsBelow(stamp, clock) && c !in stamp
    requires c == ROOT || (from in stamp && Adjacent(from, c))
    ensures ParentsEarlier(stamp[c := clock], if c != ROOT then parent[c := from] else parent)
  {
    var stamp', parent' := stamp[c := clock], if c != ROOT then parent[c := from] else parent;
    forall e {:trigger parent'[e]} | e in parent'
      ensures e in stamp' && parent'[e] in stamp' && Adjacent(parent'[e], e) && stamp'[parent'[e]] < stamp'[e]
    {
      if e == c {
        assert parent'[e] == from && from in stamp && from != c;
      } else {
        assert e in parent && parent'[e] == parent[e];
        var p := parent[e];
        assert p in stamp && e in stamp && stamp[p] < stamp[e];
        assert p != c && stamp'[p] == stamp[p] && stamp'[e] == stamp[e];
      }
    }
  }

  /** Opening a cell that is already open changes nothing the invariant sees. */
  lemma OpenAgain(g: Maze, stamp: map<Cell, nat>, c: Cell)
    requires Stamped(g, stamp) && c in stamp && InBounds(c)
    ensures Stamped(OpenAt(g, c), stamp)
  {
    var g' := OpenAt(g, c);
    forall x, y | 0 <= x < COLS && 0 <= y < ROWS ensures g'[y][x] == OPEN <==> (x, y) in stamp {
    }
  }

  /** No jump from c is possible on g. */
  ghost predicate Stuck(g: Maze, c: Cell)
    requires WellFormed(g)
  {
    forall d | d in DIRECTIONS :: !CanJump(g, c, d)
  }

  /** The grid in which the carve of Target(c, d) starts, when it is the
      first jump made from c after entering c on grid g0. */
  function FirstJumpGrid(g0: Maze, c: Cell, d: Cell): Maze
    requires WellFormed(g0) && InBounds(c) && InBounds(Between(c, d))
  {
    OpenAt(OpenAt(g0, c), Between(c, d))
  }

  /** The jump from c in direction d, allowed on g0, has been made by g1:
      the far cell and the cell in between are open. */
  ghost predicate Made(g0: Maze, g1: Maze, c: Cell, d: Cell)
    requires WellFormed(g0) && WellFormed(g1)
  {
    d in DIRECTIONS && CanJump(g0, c, d) && IsOpen(g1, Target(c, d)) && IsOpen(g1, Between(c, d))
  }

  /** The first jump from the far cell of a jump from c in direction d: the
      carve of Target(c, d) started on grid gt made the jump sub[0] when gt
      allowed one (sub has at most one element). */
  ghost predicate FarJump(gt: Maze, g1: Maze, c: Cell, d: Cell, sub: seq<Cell>)
    requires WellFormed(gt) && WellFormed(g1)
  {
    && |sub| <= 1
    && (sub == [] ==> Stuck(gt, Target(c, d)))
    && (sub != [] ==> Made(gt, g1, Target(c, d), sub[0]))
  }

  /** The first two levels of jumps carve_maze at c made, starting on g0 and
      ending on g1: chain[0] is the first jump from c, chain[1] the first jump
      from its far cell; the chain stops early only where no jump was
      possible. */
  ghost predicate FirstJumps(g0: Maze, g1: Maze, c: Cell, chain: seq<Cell>)
    requires WellFormed(g0) && WellFormed(g1)
  {
    && |chain| <= 2
    && (chain == [] ==> Stuck(g0, c))
    && (chain != [] ==>
          && Made(g0, g1, c, chain[0]) && InBounds(c) && InBounds(Between(c, chain[0]))
          && FarJump(FirstJumpGrid(g0, c, chain[0]), g1, c, chain[0], chain[1..]))
  }

  class Carver {
    var grid: Maze
    /** The one DIRECTIONS list that every recursive call shuffles in place. */
    var dirs: seq<Cell>
    /** The random source: rand(k) is the k-th draw. */
    const rand: nat -> nat
    var drawn: nat
    ghost var stamp: map<Cell, nat>
    ghost var parent: map<Cell, Cell>
    ghost var clock: nat

    ghost predicate Valid()
      reads this
    {
      CarveInvariant(grid, dirs, stamp, parent, clock)
    }

    constructor (rand: nat -> nat, start: nat)
      ensures Valid()
      ensures grid == AllWalls() && dirs == DIRECTIONS && this.rand == rand && drawn == start
      ensures stamp == map[]
    {
      grid := AllWalls();
      dirs := DIRECTIONS;
      this.rand := rand;
      drawn := start;
      stamp := map[];
      parent := map[];
      clock := 0;
    }

    /** random.shuffle(DIRECTIONS), taking the next |dirs| - 1 draws. */
    method ShuffleDirections()
      requires Valid()
      modifies this`dirs, this`drawn
      ensures Valid()
      ensures dirs == Shuffled(old(dirs), DrawsFrom(rand, old(drawn), |old(dirs)| - 1))
      ensures drawn == old(drawn) + |old(dirs)| - 1
    {
      var draws := DrawsFrom(rand, drawn, |dirs| - 1);
      var shuffled := Shuffled(dirs, draws);
      forall i | 0 <= i < |shuffled| ensures shuffled[i] in DIRECTIONS {
        ShuffledElements(dirs, draws, shuffled[i]);
      }
      forall d | d in DIRECTIONS ensures d in shuffled {
        ShuffledElements(dirs, draws, d);
      }
      dirs := shuffled;
      drawn := drawn + |draws|;
    }

    /** grid[c.1][c.0] = 0, recording (in the ghost state) the neighbour `from`
        that the opening came from. */
    method Open(c: Cell, ghost from: Cell)
      requires Valid()
      requires Carvable(c)
      requires c == ROOT || (from in stamp && Adjacent(from, c))
      modifies this`grid, this`stamp, this`parent, this`clock
      ensures Valid()
      ensures grid == OpenAt(old(grid), c)
      ensures IsOpen(grid, c) && c in stamp && old(stamp).Keys <= stamp.Keys
      ensures forall d | InBounds(d) && IsOpen(old(grid), d) :: IsOpen(grid, d)
    {
      ghost var g0 := grid;
      grid := OpenAt(grid, c);
      if c !in stamp {
        OpenFresh(g0, dirs, stamp, parent, clock, c, from);
        stamp, parent, clock := stamp[c := clock], (if c != ROOT then parent[c := from] else parent), clock + 1;
      } else {
        OpenAgain(g0, stamp, c);
      }
    }

    /** carve_maze(x, y, DIRECTIONS). Each call enters a cell that is still a
        wall and opens it first, so the set of wall cells shrinks strictly
        from one call to the next. The loop reads the shared list by index,
        as a Python for-loop does, so directions reordered by nested calls
        may be repeated or skipped. The ghost result records the first two
        levels of jumps made. */
    method Carve(x: int, y: int, ghost from: Cell) returns (ghost chain: seq<Cell>)
      requires Valid()
      requires Carvable((x, y)) && x % 2 == 1 && y % 2 == 1
      requires grid[y][x] == WALL
      requires (x, y) == ROOT || (from in stamp && Adjacent(from, (x, y)))
      modifies this
      ensures Valid()
      ensures (x, y) in stamp && old(stamp).Keys <= stamp.Keys && IsOpen(grid, (x, y))
      ensures forall c | InBounds(c) && IsOpen(old(grid), c) :: IsOpen(grid, c)
      ensures FirstJumps(old(grid), grid, (x, y), chain)
      decreases WallCells(grid), 3
    {
      ghost var entry := grid;
      Open((x, y), from);
      ShuffleDirections();
      ghost var entered, shuffled := grid, dirs;
      chain := [];
      var i := 0;
      while i < |dirs|
        invariant Valid() && 0 <= i <= |dirs|
        invariant (x, y) in stamp && old(stamp).Keys <= stamp.Keys && IsOpen(grid, (x, y))
        invariant forall c | InBounds(c) && IsOpen(entry, c) :: IsOpen(grid, c)
        invariant Scanned(entry, entered, shuffled, (x, y), i, chain)
      {
        WallCellsBelow(entry, grid, (x, y));
        chain := Try(x, y, i, entry, entered, shuffled, chain);
        i := i + 1;
      }
      if chain == [] {
        NoJumpLeft(entry, (x, y), shuffled);
      }
    }

    /** How far the loop of carve_maze at c has got after i directions: either
        no jump yet, so nothing changed since entering c and none of the
        directions tried allowed one, or the first jump went through. */
    ghost predicate Scanned(entry: Maze, entered: Maze, shuffled: seq<Cell>, c: Cell, i: int, chain: seq<Cell>)
      reads this
    {
      && WellFormed(entry) && WellFormed(grid) && WellFormed(entered)
      && InBounds(c) && entered == OpenAt(entry, c)
      && (chain == [] ==> grid == entered && dirs == shuffled && i <= |shuffled|
                          && forall k | 0 <= k < i :: !CanJump(entered, c, shuffled[k]))
      && (chain != [] ==> FirstJumps(entry, grid, c, chain))
    }

    /** The i-th iteration of carve_maze's loop at (x, y). */
    method Try(x: int, y: int, i: int, ghost entry: Maze, ghost entered: Maze, ghost shuffled: seq<Cell>, ghost chain: seq<Cell>)
      returns (ghost chain': seq<Cell>)
      requires Valid() && 0 <= i < |dirs|
      requires Carvable((x, y)) && x % 2 == 1 && y % 2 == 1 && (x, y) in stamp
      requires Scanned(entry, entered, shuffled, (x, y), i, chain)
      modifies this
      ensures Valid()
      ensures (x, y) in stamp && old(stamp).Keys <= stamp.Keys
      ensures forall c | InBounds(c) && IsOpen(old(grid), c) :: IsOpen(grid, c)
      ensures Scanned(entry, entered, shuffled, (x, y), i + 1, chain')
      decreases WallCells(grid) + {(x, y)}, 2
    {
      ghost var before := grid;
      ghost var d := dirs[i];
      ghost var can := CanJump(grid, (x, y), d);
      var sub := Jump(x, y, dirs[i]);
      chain' := chain;
      if chain != [] {
        ChainMonotone(entry, before, grid, (x, y), chain);
      } else if can {
        chain' := [d] + sub;
        FirstJump(entry, grid, (x, y), d, sub);
      }
    }

    /** One iteration of carve_maze's loop: if the cell two steps away in
        direction d is inside the border and still a wall, open the cell in
        between and carve on from the far cell. */
    method Jump(x: int, y: int, d: Cell) returns (ghost sub: seq<Cell>)
      requires Valid()
      requires Carvable((x, y)) && x % 2 == 1 && y % 2 == 1
      requires (x, y) in stamp && d in DIRECTIONS
      modifies this
      ensures Valid()
      ensures (x, y) in stamp && old(stamp).Keys <= stamp.Keys
      ensures forall c | InBounds(c) && IsOpen(old(grid), c) :: IsOpen(grid, c)
      ensures CanJump(old(grid), (x, y), d) ==> JumpDone(old(grid), grid, (x, y), d, sub)
      ensures !CanJump(old(grid), (x, y), d) ==> grid == old(grid) && dirs == old(dirs)
      decreases WallCells(grid) + {(x, y)}, 1
    {
      sub := [];
      if CanJump(grid, (x, y), d) {
        StepFacts(x, y, d);
        ghost var before := grid;
        Open(Between((x, y), d), (x, y));
        WallCellsShrink(before, grid, (x, y));
        sub := JumpTo(x, y, d, before);
      }
    }

    /** The far half of a jump: the cell in between is open, carve on from
        the far cell. */
    method JumpTo(x: int, y: int, d: Cell, ghost before: Maze) returns (ghost sub: seq<Cell>)
      requires Valid() && WellFormed(before)
      requires Carvable((x, y)) && x % 2 == 1 && y % 2 == 1 && d in DIRECTIONS
      requires (x, y) in stamp && CanJump(before, (x, y), d)
      requires InBounds(Between((x, y), d)) && grid == OpenAt(before, Between((x, y), d))
      requires Between((x, y), d) in stamp
      requires IsWall(grid, Target((x, y), d))
      requires forall c | InBounds(c) && IsOpen(before, c) :: IsOpen(grid, c)
      modifies this
      ensures Valid()
      ensures old(stamp).Keys <= stamp.Keys
      ensures forall c | InBounds(c) && IsOpen(before, c) :: IsOpen(grid, c)
      ensures JumpDone(before, grid, (x, y), d, sub)
      decreases WallCells(grid), 4
    {
      StepFacts(x, y, d);
      ghost var gt := grid;
      var t := Target((x, y), d);
      assert t == (t.0, t.1);
      var nested := Carve(t.0, t.1, Between((x, y), d));
      sub := nested[..if nested == [] then 0 else 1];
      JumpMade(before, gt, grid, (x, y), d, nested);
    }
  }

  /** After the jump from c in direction d on grid g0, on grid g1: the jump
      is made, and sub is the first jump from its far cell. */
  ghost predicate JumpDone(g0: Maze, g1: Maze, c: Cell, d: Cell, sub: seq<Cell>)
    requires WellFormed(g0) && WellFormed(g1)
  {
    && Made(g0, g1, c, d) && InBounds(Between(c, d))
    && FarJump(OpenAt(g0, Between(c, d)), g1, c, d, sub)
  }

  /** What the carve of the far cell leaves for the jump that started it. */
  lemma JumpMade(g0: Maze, g1: Maze, g2: Maze, c: Cell, d: Cell, nested: seq<Cell>)
    requires WellFormed(g0) && WellFormed(g1) && WellFormed(g2)
    requires Carvable(c) && c.0 % 2 == 1 && c.1 % 2 == 1 && d in DIRECTIONS && CanJump(g0, c, d)
    requires g1 == OpenAt(g0, Between(c, d))
    requires forall e | InBounds(e) && IsOpen(g1, e) :: IsOpen(g2, e)
    requires IsOpen(g2, Target(c, d))
    requires FirstJumps(g1, g2, Target(c, d), nested)
    ensures JumpDone(g0, g2, c, d, nested[..if nested == [] then 0 else 1])
  {
    StepFacts(c.0, c.1, d);
    assert IsOpen(g1, Between(c, d));
  }

  /** Jumps once made stay made as more cells open. */
  lemma ChainMonotone(g0: Maze, g1: Maze, g2: Maze, c: Cell, chain: seq<Cell>)
    requires WellFormed(g0) && WellFormed(g1) && WellFormed(g2)
    requires forall e | InBounds(e) && IsOpen(g1, e) :: IsOpen(g2, e)
    requires chain != [] && FirstJumps(g0, g1, c, chain)
    ensures FirstJumps(g0, g2, c, chain)
  {
    assert IsOpen(g2, Target(c, chain[0])) && IsOpen(g2, Between(c, chain[0]));
    if |chain| == 2 {
      var t := Target(c, chain[0]);
      assert IsOpen(g2, Target(t, chain[1])) && IsOpen(g2, Between(t, chain[1]));
    }
  }

  /** The first jump made after entering c on g0. */
  lemma FirstJump(g0: Maze, g1: Maze, c: Cell, d: Cell, sub: seq<Cell>)
    requires WellFormed(g0) && WellFormed(g1) && InBounds(c) && d in DIRECTIONS
    requires CanJump(OpenAt(g0, c), c, d)
    requires JumpDone(OpenAt(g0, c), g1, c, d, sub)
    ensures FirstJumps(g0, g1, c, [d] + sub)
  {
    assert CanJump(g0, c, d);
    assert ([d] + sub)[0] == d && ([d] + sub)[1..] == sub;
  }

  /** Having tried every direction of a list covering DIRECTIONS without a
      jump, no jump from c was possible on entry. */
  lemma NoJumpLeft(g0: Maze, c: Cell, dirs: seq<Cell>)
    requires WellFormed(g0) && InBounds(c)
    requires forall d | d in DIRECTIONS :: d in dirs
    requires forall k | 0 <= k < |dirs| :: !CanJump(OpenAt(g0, c), c, dirs[k])
    ensures Stuck(g0, c)
  {
    forall d | d in DIRECTIONS ensures !CanJump(g0, c, d) {
      var k :| 0 <= k < |dirs| && dirs[k] == d;
      assert !CanJump(OpenAt(g0, c), c, d);
    }
  }

  /** What one two-cell jump from an odd/odd carvable cell reaches. */
  lemma StepFacts(x: int, y: int, d: Cell)
    requires Carvable((x, y)) && x % 2 == 1 && y % 2 == 1 && d in DIRECTIONS
    requires 1 <= x + d.0 < COLS - 1 && 1 <= y + d.1 < ROWS - 1
    ensures Carvable(Between((x, y), d)) && Carvable(Target((x, y), d))
    ensures Target((x, y), d).0 % 2 == 1 && Target((x, y), d).1 % 2 == 1
    ensures Adjacent((x, y), Between((x, y), d)) && Adjacent(Between((x, y), d), Target((x, y), d))
  {
  }

  /** Writing one in-bounds cell keeps the grid well formed and changes only that cell. */
  lemma SetCell(g: Maze, c: Cell, v: int)
    requires WellFormed(g) && InBounds(c) && (v == OPEN || v == WALL)
    ensures WellFormed(g[c.1 := g[c.1][c.0 := v]])
    ensures forall x, y | 0 <= x < COLS && 0 <= y < ROWS ::
      g[c.1 := g[c.1][c.0 := v]][y][x] == if (x, y) == c then v else g[y][x]
  {
  }

  /** Opening cells only removes wall cells. */
  lemma WallCellsSubset(g0: Maze, g1: Maze)
    requires WellFormed(g0) && WellFormed(g1)
    requires forall d | InBounds(d) && IsOpen(g0, d) :: IsOpen(g1, d)
    ensures WallCells(g1) <= WallCells(g0)
  {
    forall d | d in WallCells(g1) ensures d in WallCells(g0) {
      assert IsWall(g1, d);
    }
  }

  /** The measure of a loop iteration is no larger than that of the carve call it belongs to. */
  lemma WallCellsBelow(g0: Maze, g1: Maze, c: Cell)
    requires WellFormed(g0) && WellFormed(g1)
    requires forall d | InBounds(d) && IsOpen(g0, d) :: IsOpen(g1, d)
    requires IsWall(g0, c)
    ensures WallCells(g1) + {c} < WallCells(g0) || WallCells(g1) + {c} == WallCells(g0)
  {
    WallCellsSubset(g0, g1);
    assert c in WallCells(g0);
  }

  /** The measure of a nested carve call is below that of the iteration making it. */
  lemma WallCellsShrink(g0: Maze, g1: Maze, c: Cell)
    requires WellFormed(g0) && WellFormed(g1)
    requires forall d | InBounds(d) && IsOpen(g0, d) :: IsOpen(g1, d)
    requires IsOpen(g0, c)
    ensures WallCells(g1) < WallCells(g0) + {c}
  {
    WallCellsSubset(g0, g1);
    assert c !in WallCells(g1);
  }

  /** The grid part of init_level: all walls, carve from (3, 3), then force
      the goal open. The forced goal cell is the only open cell the carving
      did not connect to (3, 3). */
  method GenerateMaze(rand: nat -> nat, start: nat) returns (g: Maze, next: nat)
    ensures WellFormed(g)
    ensures IsOpen(g, ROOT) && IsOpen(g, GOAL)
    ensures forall c | InBounds(c) && IsOpen(g, c) :: c == GOAL || Carvable(c)
    ensures forall c | InBounds(c) && IsOpen(g, c) && c != GOAL :: Reachable(g, ROOT, c)
    ensures |KeyCells(g)| >= 4
  {
    var carver := new Carver(rand, start);
    ghost var chain := carver.Carve(ROOT.0, ROOT.1, ROOT);
    var carved := carver.grid;
    g := OpenAt(carved, GOAL);
    ForceGoalOpen(carved, carver.dirs, carver.stamp, carver.parent, carver.clock);
    CarvedAtLeastFour(carved, chain);
    next := carver.drawn;
  }

  /** Opening the goal after carving keeps every carved cell connected to ROOT. */
  lemma ForceGoalOpen(carved: Maze, dirs: seq<Cell>, stamp: map<Cell, nat>, parent: map<Cell, Cell>, clock: nat)
    requires CarveInvariant(carved, dirs, stamp, parent, clock)
    requires ROOT in stamp
    ensures var g := OpenAt(carved, GOAL);
      && IsOpen(g, ROOT) && IsOpen(g, GOAL)
      && (forall c | InBounds(c) && IsOpen(g, c) :: c == GOAL || Carvable(c))
      && (forall c | InBounds(c) && IsOpen(g, c) && c != GOAL :: Reachable(g, ROOT, c))
  {
    var g := OpenAt(carved, GOAL);
    assert forall c | InBounds(c) && IsOpen(carved, c) :: IsOpen(g, c);
    forall c | InBounds(c) && IsOpen(g, c) && c != GOAL ensures Reachable(g, ROOT, c) {
      assert IsOpen(carved, c);
      StampedReachable(carved, dirs, stamp, parent, clock, c);
      if c != ROOT {
        var w :| IsWalk(carved, ROOT, c, w);
        WalkMonotone(carved, g, ROOT, c, w);
      }
    }
  }

  /** The carve from ROOT on the all-wall grid always makes its first jump,
      and the carve of that jump's far cell always makes one too, so at
      least four cells besides ROOT are open near ROOT. */
  lemma CarvedAtLeastFour(carved: Maze, chain: seq<Cell>)
    requires WellFormed(carved) && FirstJumps(AllWalls(), carved, ROOT, chain)
    ensures |KeyCells(OpenAt(carved, GOAL))| >= 4
  {
    var w := AllWalls();
    var d0 := RootJumps(w, carved, chain);
    var e1 := FarCellJumps(w, carved, chain, d0);
    TwoJumpsOpen(carved, d0, e1);
  }

  /** Two chained jumps from ROOT leave four key cells once the goal is opened. */
  lemma TwoJumpsOpen(carved: Maze, d0: Cell, e1: Cell)
    requires WellFormed(carved) && d0 in DIRECTIONS && e1 in DIRECTIONS
    requires var t0 := Target(ROOT, d0); var t1 := Target(t0, e1);
      && IsOpen(carved, Between(ROOT, d0)) && IsOpen(carved, t0)
      && IsOpen(carved, Between(t0, e1)) && IsOpen(carved, t1)
      && 1 <= t1.0 < COLS - 1 && 1 <= t1.1 < ROWS - 1 && t1 != ROOT && t1 != Between(ROOT, d0)
    ensures |KeyCells(OpenAt(carved, GOAL))| >= 4
  {
    var t0 := Target(ROOT, d0);
    var cells := [Between(ROOT, d0), t0, Between(t0, e1), Target(t0, e1)];
    var four := TwoJumpCells(d0, e1);
    var g := OpenAt(carved, GOAL);
    forall c | c in four ensures c in KeyCells(g) {
      assert c in cells;
      assert IsOpen(g, c);
    }
    CardSubset(four, KeyCells(g));
  }

  /** The cells opened by a jump d0 from ROOT followed by a jump e1 from its
      far cell, when e1 does not lead back into ROOT or the first cell between. */
  lemma TwoJumpCells(d0: Cell, e1: Cell) returns (four: set<Cell>)
    requires d0 in DIRECTIONS && e1 in DIRECTIONS
    requires var t1 := Target(Target(ROOT, d0), e1);
      1 <= t1.0 < COLS - 1 && 1 <= t1.1 < ROWS - 1 && t1 != ROOT && t1 != Between(ROOT, d0)
    ensures four == {Between(ROOT, d0), Target(ROOT, d0), Between(Target(ROOT, d0), e1), Target(Target(ROOT, d0), e1)}
    ensures |four| == 4
    ensures forall c | c in four :: 1 <= c.0 <= COLS - 2 && 1 <= c.1 <= ROWS - 2 && c != ROOT && c != GOAL
  {
    var m0, t0 := Between(ROOT, d0), Target(ROOT, d0);
    var m1, t1 := Between(t0, e1), Target(t0, e1);
    four := {m0, t0, m1, t1};
    assert m0 != t0 && m0 != m1 && t0 != m1 && t0 != t1 && m1 != t1;
  }

  /** A grid with no open cell, as carving starts from. */
  ghost predicate Solid(w: Maze) {
    WellFormed(w) && forall c | InBounds(c) :: IsWall(w, c)
  }

  /** The first jump from ROOT is always made. */
  lemma RootJumps(w: Maze, carved: Maze, chain: seq<Cell>) returns (d0: Cell)
    requires Solid(w) && WellFormed(carved) && FirstJumps(w, carved, ROOT, chain)
    ensures chain != [] && d0 == chain[0] && d0 in DIRECTIONS
    ensures IsOpen(carved, Between(ROOT, d0)) && IsOpen(carved, Target(ROOT, d0))
  {
    assert IsWall(w, Target(ROOT, (2, 0)));
    WallAhead(w, ROOT, (2, 0));
    d0 := chain[0];
  }

  /** The first jump from the far cell of ROOT's first jump is always made,
      and it leads to a fresh cell inside the border. */
  lemma FarCellJumps(w: Maze, carved: Maze, chain: seq<Cell>, d0: Cell) returns (e1: Cell)
    requires Solid(w) && WellFormed(carved) && FirstJumps(w, carved, ROOT, chain)
    requires chain != [] && d0 == chain[0] && d0 in DIRECTIONS
    ensures e1 in DIRECTIONS
    ensures var t0 := Target(ROOT, d0); var t1 := Target(t0, e1);
      && IsOpen(carved, Between(t0, e1)) && IsOpen(carved, t1)
      && 1 <= t1.0 < COLS - 1 && 1 <= t1.1 < ROWS - 1 && t1 != ROOT && t1 != Between(ROOT, d0)
  {
    var gt := FirstJumpGrid(w, ROOT, d0);
    var t0 := Target(ROOT, d0);
    var e := SecondJump(w, d0);
    assert !Stuck(gt, t0);
    e1 := chain[1];
    assert Made(gt, carved, t0, e1);
    EntryGrid(w, d0, Target(t0, e1));
  }

  /** When the carve of ROOT's first far cell starts, only ROOT and the cell
      between are open. */
  lemma EntryGrid(w: Maze, d0: Cell, c: Cell)
    requires Solid(w) && d0 in DIRECTIONS && InBounds(c)
    ensures IsWall(FirstJumpGrid(w, ROOT, d0), c) <==> c != ROOT && c != Between(ROOT, d0)
  {
    assert IsWall(w, c);
  }

  /** A jump the carve of Target(ROOT, d0) can always make, since only ROOT
      and the cell between are open when it starts. */
  lemma SecondJump(w: Maze, d0: Cell) returns (e: Cell)
    requires Solid(w) && d0 in DIRECTIONS
    ensures e in DIRECTIONS && CanJump(FirstJumpGrid(w, ROOT, d0), Target(ROOT, d0), e)
  {
    if d0 == (2, 0) || d0 == (0, 2) {
      e := d0;
    } else if d0 == (-2, 0) {
      e := (0, 2);
    } else {
      e := (2, 0);
    }
    var t0 := Target(ROOT, d0);
    EntryGrid(w, d0, Target(t0, e));
    WallAhead(FirstJumpGrid(w, ROOT, d0), t0, e);
  }

  /** carve_maze's test holds whenever the far cell is a wall inside the border. */
  lemma WallAhead(g: Maze, c: Cell, d: Cell)
    requires WellFormed(g) && IsWall(g, Target(c, d))
    requires 1 <= Target(c, d).0 < COLS - 1 && 1 <= Target(c, d).1 < ROWS - 1
    ensures CanJump(g, c, d)
  {
  }

  lemma CardSubset<T>(a: set<T>, b: set<T>)
    requires a <= b
    ensures |a| <= |b|
  {
    if a != {} {
      var x :| x in a;
      CardSubset(a - {x}, b - {x});
    }
  }
}
