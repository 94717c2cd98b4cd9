/** The maze grid, its pixel geometry and the walk relation shared by the
    carver, the pathfinder, the movement rules and the projectiles. */
module Grid {

  const WIDTH: int := 800
  const HEIGHT: int := 600
  const ROWS: int := 21
  const COLS: int := 21
  /** Pixel size of one cell: min(WIDTH // COLS, HEIGHT // ROWS). */
  const CELL_SIZE: int := if WIDTH / COLS < HEIGHT / ROWS then WIDTH / COLS else HEIGHT / ROWS
  const PLAYER_SPEED: int := 4
  /** Height of the header band above the maze. */
  const MAZE_OFFSET: int := 20
  const BULLET_SPEED: int := 6

  const WALL: int := 1
  const OPEN: int := 0

  /** A cell as (column, row), i.e. (x, y); the grid is indexed grid[y][x]. */
  type Cell = (int, int)

  /** The maze: ROWS rows of COLS cells, each OPEN or WALL. */
  type Maze = seq<seq<int>>

  predicate WellFormed(g: Maze) {
    && |g| == ROWS
    && forall r | 0 <= r < |g| :: |g[r]| == COLS && forall c | 0 <= c < |g[r]| :: g[r][c] == OPEN || g[r][c] == WALL
  }

  predicate InBounds(c: Cell) {
    0 <= c.0 < COLS && 0 <= c.1 < ROWS
  }

  predicate IsOpen(g: Maze, c: Cell)
    requires WellFormed(g)
  {
    InBounds(c) && g[c.1][c.0] == OPEN
  }

  predicate IsWall(g: Maze, c: Cell)
    requires WellFormed(g)
  {
    InBounds(c) && g[c.1][c.0] == WALL
  }

  /** The four-neighbour relation used everywhere in the maze. */
  predicate Adjacent(a: Cell, b: Cell) {
    (a.0 == b.0 && (a.1 == b.1 + 1 || a.1 + 1 == b.1)) ||
    (a.1 == b.1 && (a.0 == b.0 + 1 || a.0 + 1 == b.0))
  }

  /** The grid cell containing a pixel position (floor division, header band removed). */
  function PixelCell(px: int, py: int): (c: Cell)
    ensures c.0 * CELL_SIZE <= px < c.0 * CELL_SIZE + CELL_SIZE
    ensures c.1 * CELL_SIZE + MAZE_OFFSET <= py < c.1 * CELL_SIZE + CELL_SIZE + MAZE_OFFSET
  {
    (px / CELL_SIZE, (py - MAZE_OFFSET) / CELL_SIZE)
  }

  /** Top-left pixel of a cell. */
  function CellPixel(c: Cell): (int, int) {
    (c.0 * CELL_SIZE, c.1 * CELL_SIZE + MAZE_OFFSET)
  }

  lemma {:induction false} PixelCellOfCellPixel(c: Cell)
    ensures PixelCell(CellPixel(c).0, CellPixel(c).1) == c
  {
    var p := CellPixel(c);
    var d := PixelCell(p.0, p.1);
    DivUnique(p.0, c.0);
    DivUnique(p.1 - MAZE_OFFSET, c.1);
  }

  /** Floor division by CELL_SIZE is determined by the bracketing multiples. */
  lemma DivUnique(p: int, q: int)
    requires q * CELL_SIZE <= p < q * CELL_SIZE + CELL_SIZE
    ensures p / CELL_SIZE == q
  {
  }

  /** An axis-aligned integer rectangle as pygame.Rect holds it. */
  datatype Rect = Rect(x: int, y: int, w: int, h: int)

  /** pygame's colliderect: both rectangles non-empty and a strict overlap on
      both axes, so rectangles that only share an edge do not collide. */
  predicate Collide(a: Rect, b: Rect) {
    && a.w > 0 && a.h > 0 && b.w > 0 && b.h > 0
    && a.x < b.x + b.w && b.x < a.x + a.w
    && a.y < b.y + b.h && b.y < a.y + a.h
  }

  /** Full on-screen rectangle of a maze cell. */
  function CellRect(c: Cell): (r: Rect)
    ensures r.w == CELL_SIZE && r.h == CELL_SIZE
  {
    Rect(c.0 * CELL_SIZE, c.1 * CELL_SIZE + MAZE_OFFSET, CELL_SIZE, CELL_SIZE)
  }

  /** `p` is a walk of open cells leaving `s`: p[0] is a neighbour of `s` and
      each element is a neighbour of the one before. The start cell itself is
      not part of `p`. */
  ghost predicate IsWalkFrom(g: Maze, s: Cell, p: seq<Cell>)
    requires WellFormed(g)
  {
    (forall i | 0 <= i < |p| :: IsOpen(g, p[i])) &&
    (|p| > 0 ==> Adjacent(s, p[0])) &&
    (forall i | 0 <= i < |p| - 1 :: Adjacent(p[i], p[i + 1]))
  }

  /** `p` is a walk of open cells from `s` (excluded) to `t` (included). */
  ghost predicate IsWalk(g: Maze, s: Cell, t: Cell, p: seq<Cell>)
    requires WellFormed(g)
  {
    |p| > 0 && IsWalkFrom(g, s, p) && p[|p| - 1] == t
  }

  /** `t` can be reached from `s` over open cells (or is `s`). */
  ghost predicate Reachable(g: Maze, s: Cell, t: Cell)
    requires WellFormed(g)
  {
    s == t || exists p :: IsWalk(g, s, t, p)
  }

  /** Extending a walk by one more open neighbour gives a walk. */
  lemma {:induction false} WalkExtend(g: Maze, s: Cell, t: Cell, p: seq<Cell>, u: Cell)
    requires WellFormed(g)
    requires (p == [] && t == s) || IsWalk(g, s, t, p)
    requires IsOpen(g, u) && Adjacent(t, u)
    ensures IsWalk(g, s, u, p + [u])
  {
    var q := p + [u];
    forall i | 0 <= i < |q| ensures IsOpen(g, q[i]) {
      if i < |p| { assert q[i] == p[i]; }
    }
    forall i | 0 <= i < |q| - 1 ensures Adjacent(q[i], q[i + 1]) {
      if i < |p| - 1 { assert q[i] == p[i] && q[i + 1] == p[i + 1]; }
    }
  }

  /** Dropping the first step of a walk leaves a walk from that step. */
  lemma {:induction false} WalkFromTail(g: Maze, s: Cell, p: seq<Cell>)
    requires WellFormed(g)
    requires IsWalkFrom(g, s, p) && p != []
    ensures IsWalkFrom(g, p[0], p[1..])
  {
    var q := p[1..];
    forall i | 0 <= i < |q| ensures IsOpen(g, q[i]) {
      assert q[i] == p[i + 1];
    }
    forall i | 0 <= i < |q| - 1 ensures Adjacent(q[i], q[i + 1]) {
      assert q[i] == p[i + 1] && q[i + 1] == p[i + 2];
    }
    if q != [] { assert q[0] == p[1]; }
  }

  /** Walks survive opening more cells. */
  lemma {:induction false} WalkMonotone(g: Maze, g': Maze, s: Cell, t: Cell, p: seq<Cell>)
    requires WellFormed(g) && WellFormed(g')
    requires forall c | InBounds(c) && IsOpen(g, c) :: IsOpen(g', c)
    requires IsWalk(g, s, t, p)
    ensures IsWalk(g', s, t, p)
  {
    forall i | 0 <= i < |p| ensures IsOpen(g', p[i]) {
      assert IsOpen(g, p[i]);
    }
  }
}
