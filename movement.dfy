/** Player movement: the wall test of can_move and the per-axis update of
    the tick, driven by the shuffled arrow-key controls. */
module Movement {
  import opened Grid

  /** The keys the simulation reads: arrows steer, W/A/S/D shoot. */
  datatype Key = KeyUp | KeyDown | KeyLeft | KeyRight | KeyW | KeyA | KeyS | KeyD

  /** The player's collision square at top-left pixel (x, y). */
  function PlayerRect(x: int, y: int): (r: Rect)
    ensures r.w == CELL_SIZE - 6 && r.h == CELL_SIZE - 6 && r.w > 0
  {
    Rect(x, y, CELL_SIZE - 6, CELL_SIZE - 6)
  }

  /** The player square at top-left pixel (x, y) strictly overlaps no wall cell. */
  ghost predicate Clear(g: Maze, x: int, y: int)
    requires WellFormed(g)
  {
    forall c | IsWall(g, c) :: !Collide(PlayerRect(x, y), CellRect(c))
  }

  /** can_move(new_x, new_y): scan the cells row by row and refuse at the
      first wall the player square would overlap. */
  method CanMove(g: Maze, x: int, y: int) returns (ok: bool)
    requires WellFormed(g)
    ensures ok <==> Clear(g, x, y)
  {
    var box := PlayerRect(x, y);
    var row := 0;
    while row < ROWS
      invariant 0 <= row <= ROWS
      invariant forall c | IsWall(g, c) && c.1 < row :: !Collide(box, CellRect(c))
    {
      var col := 0;
      while col < COLS
        invariant 0 <= col <= COLS
        invariant forall c | IsWall(g, c) && (c.1 < row || (c.1 == row && c.0 < col)) :: !Collide(box, CellRect(c))
      {
        if g[row][col] == WALL && Collide(box, CellRect((col, row))) {
          assert IsWall(g, (col, row));
          return false;
        }
        col := col + 1;
      }
      row := row + 1;
    }
    return true;
  }

  /** A wall-free player's top-left pixel lies in an open cell, when that
      cell is in the maze at all. */
  lemma {:induction false} FreeCornerOpen(g: Maze, x: int, y: int)
    requires WellFormed(g) && Clear(g, x, y)
    requires InBounds(PixelCell(x, y))
    ensures IsOpen(g, PixelCell(x, y))
  {
    var c := PixelCell(x, y);
    assert Collide(PlayerRect(x, y), CellRect(c));
    assert !IsWall(g, c);
  }

  /** A player placed on the top-left pixel of an open cell is wall-free:
      its square lies strictly inside that cell. */
  lemma {:induction false} OpenCellPixelFree(g: Maze, c: Cell)
    requires WellFormed(g) && IsOpen(g, c)
    ensures Clear(g, CellPixel(c).0, CellPixel(c).1)
  {
    var p := CellPixel(c);
    forall d | IsWall(g, d) ensures !Collide(PlayerRect(p.0, p.1), CellRect(d)) {
      assert d != c;
      if d.0 != c.0 {
        Apart(d.0, c.0);
      } else {
        Apart(d.1, c.1);
      }
    }
  }

  /** Distinct rows (or columns) of cells are at least one cell apart. */
  lemma Apart(a: int, b: int)
    requires a != b
    ensures a * CELL_SIZE + CELL_SIZE <= b * CELL_SIZE || b * CELL_SIZE + CELL_SIZE <= a * CELL_SIZE
  {
    if a < b {
      assert (b - a) * CELL_SIZE >= CELL_SIZE;
    } else {
      assert (a - b) * CELL_SIZE >= CELL_SIZE;
    }
  }

  /** The arrow-key table: each entry maps a key to a unit move. */
  type Controls = seq<(Key, Cell)>

  /** The velocity summed over the controls whose key is pressed. */
  function Velocity(controls: Controls, pressed: set<Key>): (v: (int, int))
  {
    if controls == [] then (0, 0)
    else
      var rest := Velocity(controls[1..], pressed);
      var key, move := controls[0].0, controls[0].1;
      if key in pressed then (rest.0 + move.0 * PLAYER_SPEED, rest.1 + move.1 * PLAYER_SPEED)
      else rest
  }

  /** Pressing no steering key gives zero velocity. */
  lemma {:induction false} NoKeyNoVelocity(controls: Controls, pressed: set<Key>)
    requires forall i | 0 <= i < |controls| :: controls[i].0 !in pressed
    ensures Velocity(controls, pressed) == (0, 0)
    decreases |controls|
  {
    if controls != [] {
      NoKeyNoVelocity(controls[1..], pressed);
    }
  }

  /** With distinct keys, pressing exactly one steering key moves the player
      PLAYER_SPEED pixels along that key's move. */
  lemma {:induction false} OneKeyVelocity(controls: Controls, pressed: set<Key>, i: int)
    requires 0 <= i < |controls|
    requires forall j, k | 0 <= j < k < |controls| :: controls[j].0 != controls[k].0
    requires controls[i].0 in pressed
    requires forall j | 0 <= j < |controls| && j != i :: controls[j].0 !in pressed
    ensures Velocity(controls, pressed) == (controls[i].1.0 * PLAYER_SPEED, controls[i].1.1 * PLAYER_SPEED)
    decreases |controls|
  {
    var tail := controls[1..];
    if i == 0 {
      NoKeyNoVelocity(tail, pressed);
    } else {
      assert controls[0].0 !in pressed;
      OneKeyVelocity(tail, pressed, i - 1);
    }
  }

  /** The per-axis move of the tick: x first against the old y, then y
      against the accepted x. */
  ghost function PlayerStep(g: Maze, x: int, y: int, vx: int, vy: int): (p: (int, int))
    requires WellFormed(g)
  {
    var nx := if Clear(g, x + vx, y) then x + vx else x;
    var ny := if Clear(g, nx, y + vy) then y + vy else y;
    (nx, ny)
  }

  /** A step keeps a wall-free player wall-free. */
  lemma StepStaysClear(g: Maze, x: int, y: int, vx: int, vy: int)
    requires WellFormed(g) && Clear(g, x, y)
    ensures var p := PlayerStep(g, x, y, vx, vy); Clear(g, p.0, p.1)
  {
  }

  /** A step moves each axis by its velocity or not at all, and takes an
      axis exactly when the square there is clear; standing still is always
      allowed. */
  lemma StepAxes(g: Maze, x: int, y: int, vx: int, vy: int)
    requires WellFormed(g)
    ensures var p := PlayerStep(g, x, y, vx, vy);
      && (p.0 == x || p.0 == x + vx)
      && (p.1 == y || p.1 == y + vy)
      && (vx == 0 && vy == 0 ==> p == (x, y))
      && (p.0 == x + vx <==> vx == 0 || Clear(g, x + vx, y))
      && (p.1 == y + vy <==> vy == 0 || Clear(g, p.0, y + vy))
  {
  }
}
