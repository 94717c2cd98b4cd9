# Mystic Maize simulation core in Dafny

Mystic Maize is a pygame maze game. The player starts on cell (3, 3) of a 21×21 maze and has to reach the goal cell (16, 16). The arrow keys are bound to the four moves in a random order. From HARD on, three enemies chase the player along shortest routes, and the W/A/S/D keys shoot bullets that knock an enemy back to a random open cell. On EXTREME, three keys have to be collected before the goal opens. A best-time table keeps the fastest win for each difficulty.

This project models the simulation part of `main.py` and proves properties of it:

- **Maze generation.** `init_level`'s grid and `carve_maze`, as an imperative carver class over a `seq<seq<int>>` grid, with one shared direction list that every call shuffles in place.
- **Pathfinding.** The breadth-first search of `Enemy.bfs`, as a method with a queue and a visited set.
- **Enemies.** An `Enemy` class whose `MoveTowardsPlayer` updates its fields in place, plus the caught test.
- **Player movement.** `can_move` as a loop method, and the velocity and per-axis step of the tick.
- **Bullets.** `shoot`, `move_bullets` and `get_random_spawn`.
- **Session.** `update_high_score`, `start_game`, `init_level`, `generate_key_positions` and one frame of `run_game`, as methods of a `Game` class.

Randomness is an oracle `rand: nat -> nat`. The game keeps a cursor `drawn` counting the draws it has taken. `random.shuffle` is the Fisher–Yates pass, which takes one draw per swap. `random.randint(1, 19)` is `1 + rand(k) % 19`. The retry loops of `get_random_spawn` and `generate_key_positions` end because of the assumption `Fair(rand)`: from any cursor on, every inner cell is drawn again. The source relies on the same thing, with probability one.

Files, one module each:

- `grid.dfy` (Grid): the constants of `main.py`, the cell/pixel geometry, pygame's `colliderect`, and walks over open cells.
- `random.dfy` (Randomness): the shuffle and the cell draws.
- `scores.dfy` (Scores).
- `maze.dfy` (Carving).
- `pathfinding.dfy` (Pathfinding).
- `enemy.dfy` (Enemies).
- `movement.dfy` (Movement).
- `bullets.dfy` (Bullets).
- `session.dfy` (Session): the `Game` class.

The main results:

- **The maze.** Every open cell except the forced-open goal is connected to the start through open cells. Every carved cell is inside the border and has an odd coordinate. At least four cells are available for keys. Carving terminates, because every call enters a cell that was still a wall.
- **The search.** `bfs` returns exactly a shortest walk, or `[]` when the two cells are the same or no walk exists.
- **An enemy step.** It never passes its target. A hop is taken only when both axis gaps are below the speed. An invisible enemy does not move at all.
- **The player.** It never enters a wall. Each axis is accepted exactly when `can_move` accepts it.
- **A volley of bullets.** It keeps the enemy count. Survivors keep their order and their direction. A bullet that steps into a wall is dropped, and one outside the maze is kept.
- **The key pickup.** It keeps `collected_keys + len(keys)` at the difficulty's target.
- **A win.** It needs the goal overlap and, on EXTREME, all three keys. The best time only improves, and a repeated update with the same time is never a new record.

## Model

| member | source | states |
|---|---|---|
| Grid.PixelCell | MysticMaizeGame/MysticMaize/MysticMaize/main.py:913-914 | the cell of a pixel is the one whose CELL_SIZE square, below the 20-pixel header, contains it |
| Grid.PixelCellOfCellPixel | MysticMaizeGame/MysticMaize/MysticMaize/main.py:55 | the pixel a cell is drawn at lies in that cell again |
| Grid.CellRect | MysticMaizeGame/MysticMaize/MysticMaize/main.py:983 | a wall's rectangle is one full CELL_SIZE square |
| Grid.WalkExtend | MysticMaizeGame/MysticMaize/MysticMaize/main.py:117-122 | a walk followed by an open neighbour of its end is a walk |
| Grid.WalkFromTail | MysticMaizeGame/MysticMaize/MysticMaize/main.py:85-86 | popping the first hop of a walk leaves a walk from the hop's cell |
| Grid.WalkMonotone | MysticMaizeGame/MysticMaize/MysticMaize/main.py:789 | opening more cells breaks no walk |
| Randomness.Shuffled | MysticMaizeGame/MysticMaize/MysticMaize/main.py:844 | random.shuffle keeps the length and the multiset of the list |
| Randomness.ShuffledElements | MysticMaizeGame/MysticMaize/MysticMaize/main.py:844 | an element is in the shuffled list iff it is in the original |
| Randomness.DrawCell | MysticMaizeGame/MysticMaize/MysticMaize/main.py:1027-1028 | both randint draws fall in [1, COLS-2] × [1, ROWS-2] |
| Scores.FirstWinIsRecord | MysticMaizeGame/MysticMaize/MysticMaize/main.py:247-251 | on the fallback table, whose three entries hold the time inf, any time beats the entry and becomes the stored best |
| Scores.Updated | MysticMaizeGame/MysticMaize/MysticMaize/main.py:258-267 | the entry for d becomes (t, date) iff t beats it; every other entry and the key set are unchanged |
| Scores.RepeatIsNotNew | MysticMaizeGame/MysticMaize/MysticMaize/main.py:1126 | after an update with t, a second update with the same t is not a new record |
| Scores.BestOnlyImproves | MysticMaizeGame/MysticMaize/MysticMaize/main.py:260-264 | a stored time never gets worse |
| Carving.AllWalls | MysticMaizeGame/MysticMaize/MysticMaize/main.py:783-784 | the initial grid is 21×21 and every cell is a wall |
| Carving.OpenAt | MysticMaizeGame/MysticMaize/MysticMaize/main.py:843 | writing 0 to one cell changes exactly that cell |
| Carving.StampedReachable | MysticMaizeGame/MysticMaize/MysticMaize/main.py:842-849 | every cell the carver opened is connected to (3, 3) through open cells |
| Carving.Carver.constructor | MysticMaizeGame/MysticMaize/MysticMaize/main.py:783-786 | carving starts from the all-wall grid and the direction list (2,0), (-2,0), (0,2), (0,-2) |
| Carving.Carver.ShuffleDirections | MysticMaizeGame/MysticMaize/MysticMaize/main.py:844 | the shared list becomes its shuffle by the next three draws and still holds each direction |
| Carving.Carver.Open | MysticMaizeGame/MysticMaize/MysticMaize/main.py:843 | the grid becomes the old one with the cell opened; nothing open is closed again |
| Carving.Carver.Carve | MysticMaizeGame/MysticMaize/MysticMaize/main.py:842-849 | the cell is opened, no open cell is closed, the carver's invariant (every opened cell inside the border with an odd coordinate, linked to (3, 3)) is kept, and the first two levels of jumps are recorded; the call terminates as the wall set shrinks |
| Carving.Carver.Try | MysticMaizeGame/MysticMaize/MysticMaize/main.py:845-849 | one loop iteration over the shared list, read by index, advances how far the scan has got |
| Carving.Carver.Jump | MysticMaizeGame/MysticMaize/MysticMaize/main.py:846-849 | when the far cell is inside the border and a wall, the jump is made; otherwise grid and list are untouched |
| Carving.Carver.JumpTo | MysticMaizeGame/MysticMaize/MysticMaize/main.py:848-849 | with the middle cell open, the recursive carve from the far cell completes the jump |
| Carving.GenerateMaze | MysticMaizeGame/MysticMaize/MysticMaize/main.py:783-789 | start and goal are open, every open cell is the goal or inside the border with an odd coordinate, every open cell but the goal is reachable from (3, 3), and at least four key cells exist |
| Carving.ForceGoalOpen | MysticMaizeGame/MysticMaize/MysticMaize/main.py:788-789 | forcing the goal open keeps every carved cell connected to (3, 3) |
| Carving.CarvedAtLeastFour | MysticMaizeGame/MysticMaize/MysticMaize/main.py:842-849 | whatever the shuffles, the carve opens at least four cells other than start and goal |
| Carving.RootJumps | MysticMaizeGame/MysticMaize/MysticMaize/main.py:845-849 | the carve from (3, 3) on the all-wall grid always makes its first jump |
| Carving.FarCellJumps | MysticMaizeGame/MysticMaize/MysticMaize/main.py:845-849 | the carve of that jump's far cell always makes a jump to a fresh cell as well |
| Pathfinding.Bfs | MysticMaizeGame/MysticMaize/MysticMaize/main.py:107-124 | [] iff start == goal or no walk exists; otherwise a walk over open in-bounds cells from start (excluded) to goal (included), no longer than any other walk |
| Pathfinding.HeadIsShortest | MysticMaizeGame/MysticMaize/MysticMaize/main.py:113-115 | when the goal reaches the head of the queue, its path is a shortest walk |
| Pathfinding.WalkStaysSeen | MysticMaizeGame/MysticMaize/MysticMaize/main.py:117-124 | every cell on a walk from the start was seen at most its walk length away, so an empty queue means no walk |
| Pathfinding.NeighboursCovered | MysticMaizeGame/MysticMaize/MysticMaize/main.py:117-122 | the four tried offsets cover every open neighbour of the expanded cell |
| Pathfinding.FinishExpand | MysticMaizeGame/MysticMaize/MysticMaize/main.py:112-122 | one pop and expansion keeps the search invariant and uses up unvisited cells or queue entries |
| Pathfinding.ShortestAvoidsStart | MysticMaizeGame/MysticMaize/MysticMaize/main.py:107-124 | a shortest walk never passes the start cell |
| Enemies.Approach | MysticMaizeGame/MysticMaize/MysticMaize/main.py:97-105 | an axis moves min(speed, gap) toward the target, never past it, and the gap shrinks by the speed or to 0 |
| Enemies.InvisibleNeverCatches | MysticMaizeGame/MysticMaize/MysticMaize/main.py:127-128 | an invisible enemy never catches |
| Enemies.CaughtWithinCell | MysticMaizeGame/MysticMaize/MysticMaize/main.py:130-134 | a catch needs both axis gaps below CELL_SIZE |
| Enemies.CloseMeansCaught | MysticMaizeGame/MysticMaize/MysticMaize/main.py:130-134 | a visible enemy whose axis gaps sum to less than CELL_SIZE catches |
| Enemies.ThresholdNotCaught | MysticMaizeGame/MysticMaize/MysticMaize/main.py:133 | the threshold is strict: exactly CELL_SIZE away is no catch |
| Enemies.HopGap | MysticMaizeGame/MysticMaize/MysticMaize/main.py:83-87 | retargeting to the next hop leaves the gap below one cell plus a step |
| Enemies.StepGap | MysticMaizeGame/MysticMaize/MysticMaize/main.py:97-105 | a step never widens the gap to the target |
| Enemies.Enemy.constructor | MysticMaizeGame/MysticMaize/MysticMaize/main.py:53-65 | a new enemy rests on its start cell's pixel, visible, speed 1.3, no path |
| Enemies.Enemy.MoveTowardsPlayer | MysticMaizeGame/MysticMaize/MysticMaize/main.py:67-105 | invisible: nothing changes; otherwise the route is the old path in the player's cell and a shortest route elsewhere; no route: no move; else the hop is taken iff both gaps are below the old speed, the speed becomes 2·CELL_SIZE/30 and each axis approaches the target |
| Enemies.Enemy.Advance | MysticMaizeGame/MysticMaize/MysticMaize/main.py:83-105 | the hop and the step, keeping the path a walk from the enemy's cell and the target that cell's pixel |
| Movement.CanMove | MysticMaizeGame/MysticMaize/MysticMaize/main.py:978-986 | true iff the (CELL_SIZE-6) square strictly overlaps no wall cell's square |
| Movement.FreeCornerOpen | MysticMaizeGame/MysticMaize/MysticMaize/main.py:913-914 | a wall-free player's cell, when in the maze, is open |
| Movement.OpenCellPixelFree | MysticMaizeGame/MysticMaize/MysticMaize/main.py:790 | a player placed on an open cell's pixel touches no wall |
| Movement.NoKeyNoVelocity | MysticMaizeGame/MysticMaize/MysticMaize/main.py:890-894 | no steering key held, no velocity |
| Movement.OneKeyVelocity | MysticMaizeGame/MysticMaize/MysticMaize/main.py:890-894 | one steering key held moves PLAYER_SPEED along that key's move |
| Movement.StepStaysClear | MysticMaizeGame/MysticMaize/MysticMaize/main.py:896-900 | a wall-free player stays wall-free after the per-axis update |
| Movement.StepAxes | MysticMaizeGame/MysticMaize/MysticMaize/main.py:896-900 | each axis moves by its velocity or not at all, the x axis iff can_move(new_x, y), the y axis iff can_move(x', new_y); zero velocity leaves the player in place |
| Bullets.ShotFacesDirection | MysticMaizeGame/MysticMaize/MysticMaize/main.py:988-997 | a shot flies along its unit direction from the middle of the facing side of the player's cell |
| Bullets.Trunc | MysticMaizeGame/MysticMaize/MysticMaize/main.py:1011 | the enemy box coordinate is the pixel truncated toward zero |
| Bullets.FirstHit | MysticMaizeGame/MysticMaize/MysticMaize/main.py:1009-1014 | the hit is the first overlapping enemy in list order; no hit means none overlaps |
| Bullets.FirstOpenDraw | MysticMaizeGame/MysticMaize/MysticMaize/main.py:1026-1030 | among draws that land on an open cell there is a first |
| Bullets.NextSpawn | MysticMaizeGame/MysticMaize/MysticMaize/main.py:1025-1030 | the spawn is an open cell, the first open one drawn, and the cursor moves past it |
| Bullets.VolleyBounds | MysticMaizeGame/MysticMaize/MysticMaize/main.py:999-1023 | the enemy count is kept, the cursor only moves on, no bullet is added, every enemy afterwards was there or is new on an open cell |
| Bullets.VolleyStep | MysticMaizeGame/MysticMaize/MysticMaize/main.py:1001-1022 | the volley is the first bullet's outcome followed by the rest from the state it leaves |
| Bullets.SurvivorsInOrder | MysticMaizeGame/MysticMaize/MysticMaize/main.py:1001-1023 | the surviving bullets are a subsequence of all bullets moved by BULLET_SPEED, in order and with their directions |
| Bullets.WallDropsBullet | MysticMaizeGame/MysticMaize/MysticMaize/main.py:1006-1007 | a bullet stepping into an in-bounds wall is dropped and changes nothing else |
| Bullets.OutsideBulletKept | MysticMaizeGame/MysticMaize/MysticMaize/main.py:1006-1022 | a bullet outside the maze that hits nobody is kept, stepped |
| Session.ScanKeysValid | MysticMaizeGame/MysticMaize/MysticMaize/main.py:853-856 | accepted keys are distinct inner open cells, neither start nor goal |
| Session.ScanKeysGrow | MysticMaizeGame/MysticMaize/MysticMaize/main.py:853-856 | accepted keys only accumulate as draws go on |
| Session.StopsAtFirst | MysticMaizeGame/MysticMaize/MysticMaize/main.py:853 | the loop stops at the first draw that completes n keys |
| Session.ScanStep | MysticMaizeGame/MysticMaize/MysticMaize/main.py:853-856 | each draw accepts a key or gets one draw closer to the next acceptable one |
| Session.NextCandidate | MysticMaizeGame/MysticMaize/MysticMaize/main.py:853-856 | while fewer keys than key cells are placed, some later draw lands on a new candidate |
| Session.DrawKeys | MysticMaizeGame/MysticMaize/MysticMaize/main.py:852-857 | the loop ends with the first n accepted keys of the draw stream and the cursor after the last draw |
| Session.DrawKey | MysticMaizeGame/MysticMaize/MysticMaize/main.py:853-855 | one pass adds the drawn cell exactly as the next step of ScanKeys does, and the next new candidate is still ahead unless a key was added |
| Session.SpawnIsFirst | MysticMaizeGame/MysticMaize/MysticMaize/main.py:1026-1030 | the first open draw is the spawn |
| Session.RemoveFirst | MysticMaizeGame/MysticMaize/MysticMaize/main.py:917 | list.remove drops one occurrence of x when present and nothing otherwise |
| Session.RemoveFirstDistinct | MysticMaizeGame/MysticMaize/MysticMaize/main.py:915-918 | from a list without repeats it removes x and only x |
| Session.NewEnemies | MysticMaizeGame/MysticMaize/MysticMaize/main.py:831-835 | three fresh enemies at rest on (10,10), (19,19), (10,5), in that order |
| Session.SquadPermutation | MysticMaizeGame/MysticMaize/MysticMaize/main.py:836-837 | the shuffled enemy list has the same, distinct, well set-up members |
| Session.SquadReplace | MysticMaizeGame/MysticMaize/MysticMaize/main.py:1017-1020 | removing the hit enemy and appending a new one keeps a squad without repeats |
| Session.PositionsReplace | MysticMaizeGame/MysticMaize/MysticMaize/main.py:1017-1020 | the enemy positions change as the list does |
| Session.DealtOk | MysticMaizeGame/MysticMaize/MysticMaize/main.py:821-828 | any shuffle of the arrow keys gives a table of the four arrow keys, each bound once |
| Session.VelocityStep | MysticMaizeGame/MysticMaize/MysticMaize/main.py:891-894 | the velocity is the first control's share plus the rest |
| Session.ShotsPressed | MysticMaizeGame/MysticMaize/MysticMaize/main.py:884-888 | a tick fires direction d iff d's key is held, at most four shots |
| Session.OnGoalWindow | MysticMaizeGame/MysticMaize/MysticMaize/main.py:921-923 | the goal test accepts exactly a window around the goal pixel |
| Session.Game.constructor | MysticMaizeGame/MysticMaize/MysticMaize/main.py:143-218 | the ANIMATION state, not paused, nothing collected, empty level, the loaded high scores |
| Session.Game.UpdateHighScore | MysticMaizeGame/MysticMaize/MysticMaize/main.py:258-267 | returns whether t beats the stored time; the table becomes Updated |
| Session.Game.Shoot | MysticMaizeGame/MysticMaize/MysticMaize/main.py:988-997 | appends the shot for the direction |
| Session.Game.GetRandomSpawn | MysticMaizeGame/MysticMaize/MysticMaize/main.py:1025-1030 | returns the first open drawn cell and moves the cursor past it |
| Session.SpawnScan | MysticMaizeGame/MysticMaize/MysticMaize/main.py:1026-1030 | the retry loop over the draw stream ends on NextSpawn: the first open cell drawn, and the cursor after it |
| Session.Game.MoveBullets | MysticMaizeGame/MysticMaize/MysticMaize/main.py:999-1023 | bullets, enemy positions and cursor become those of StepBullets; the squad and its size are kept |
| Session.Game.StepBullet | MysticMaizeGame/MysticMaize/MysticMaize/main.py:1001-1022 | one bullet: dropped in a wall, dropped with the first hit enemy replaced, or kept stepped |
| Session.Game.ReplaceEnemy | MysticMaizeGame/MysticMaize/MysticMaize/main.py:1015-1020 | the hit enemy is removed and a new one appended on the next spawn cell |
| Session.Game.GenerateKeyPositions | MysticMaizeGame/MysticMaize/MysticMaize/main.py:851-857 | n distinct open cells, neither start nor goal, the first n the draws accept |
| Session.Game.ShootPressed | MysticMaizeGame/MysticMaize/MysticMaize/main.py:884-888 | the bullets of W, S, A, D held are appended in that order |
| Session.Game.HeldVelocity | MysticMaizeGame/MysticMaize/MysticMaize/main.py:890-894 | the loop computes Velocity of the controls |
| Session.Game.MovePlayer | MysticMaizeGame/MysticMaize/MysticMaize/main.py:896-900 | the player moves to PlayerStep of its velocity |
| Session.Game.ChasePlayer | MysticMaizeGame/MysticMaize/MysticMaize/main.py:905-910 | GAME_OVER iff some enemy, after moving, catches the player; the squad is kept |
| Session.Game.CollectKeys | MysticMaizeGame/MysticMaize/MysticMaize/main.py:912-919 | a key is removed iff it is the player's cell, and the count rises by exactly the number removed |
| Session.Game.InitLevel | MysticMaizeGame/MysticMaize/MysticMaize/main.py:782-840 | a laid-out maze, the player on the start pixel touching no wall, the goal marker on the goal pixel, a control table, three fresh enemies on the start cells (two and up), three valid keys (three) |
| Session.Game.LayOut | MysticMaizeGame/MysticMaize/MysticMaize/main.py:783-791 | the maze, start, goal, player and goal pixels of init_level |
| Session.Game.DealControls | MysticMaizeGame/MysticMaize/MysticMaize/main.py:815-828 | a table of the four arrow keys dealt UP, DOWN, LEFT, RIGHT, three draws taken |
| Session.Game.PlaceSquad | MysticMaizeGame/MysticMaize/MysticMaize/main.py:829-837 | no enemies on level 1, three fresh ones on the start cells otherwise |
| Session.Game.PlaceEnemies | MysticMaizeGame/MysticMaize/MysticMaize/main.py:830-837 | three fresh enemies in shuffled order, one on each start cell, two draws taken |
| Session.Game.PlaceKeys | MysticMaizeGame/MysticMaize/MysticMaize/main.py:838-840 | three valid keys on level 3, none and no draws otherwise |
| Session.Game.StartGame | MysticMaizeGame/MysticMaize/MysticMaize/main.py:765-777 | GAME state, the difficulty set, nothing collected, no bullets, the difficulty's level laid out and playable, the clock started; from HARD on the enemies are new and on (10,10), (19,19), (10,5), and every key is an open cell other than start and goal |
| Session.Game.ResetRun | MysticMaizeGame/MysticMaize/MysticMaize/main.py:766-770 | the fields start_game sets before the level |
| Session.Game.SetUpLevel | MysticMaizeGame/MysticMaize/MysticMaize/main.py:771-776 | the level of the difficulty is laid out with as many keys as the difficulty needs, and is playable; from level 2 on the enemies are new and on the three start cells, and every key is an open cell other than start and goal |
| Session.Game.LevelReady | MysticMaizeGame/MysticMaize/MysticMaize/main.py:771-776 | a just laid-out level with nothing collected is playable |
| Session.Game.Tick | MysticMaizeGame/MysticMaize/MysticMaize/main.py:859-929 | playability kept; P presses toggle the pause; paused: only the exit button takes effect, and player, bullets, enemies, keys, count, draws, flag, time and high scores stay as they were; unpaused: the player takes PlayerStep, the bullets and the cursor follow StepBullets of the fired volley on HARD and EXTREME and stay as they were on MEDIUM, and the frame is Settled from MAIN_MENU if the exit button was clicked, else PLAYING: GAME_OVER iff an enemy catches the player, with keys and count untouched; otherwise the key pickup (PickedUp) and GAME_WON iff the goal overlaps with all keys needed, with flag, time and high score set; any other frame keeps the state, flag, time and table |
| Session.Game.HandleEvents | MysticMaizeGame/MysticMaize/MysticMaize/main.py:860-876 | the exit button sets the main menu, each P press toggles the pause |
| Session.Game.Advance | MysticMaizeGame/MysticMaize/MysticMaize/main.py:883-929 | an unpaused frame: PlayerStep for the player, the bullets and cursor of StepBullets on the fired volley on HARD and EXTREME (unchanged on MEDIUM), and an end that is Settled from the state before the frame |
| Session.Game.Act | MysticMaizeGame/MysticMaize/MysticMaize/main.py:883-903 | shooting, the move and the bullets, keeping the player wall-free; on HARD and EXTREME the bullets, the enemy positions and the cursor are those of StepBullets on the fired volley (a hit enemy replaced by one on a fresh open cell); on MEDIUM bullets, enemies and cursor are untouched |
| Session.Game.Resolve | MysticMaizeGame/MysticMaize/MysticMaize/main.py:905-929 | the enemies, then the end of the frame is Settled: GAME_OVER iff a moved enemy catches the player, skipping the key pickup and the goal test; otherwise the key pickup (PickedUp) and GAME_WON iff the goal overlaps with all keys needed; flag, time and table change only on a win; the player, bullets and draws untouched |
| Session.Game.Finish | MysticMaizeGame/MysticMaize/MysticMaize/main.py:912-929 | on EXTREME a key is removed iff it is the player's cell and the count rises by the number removed, other difficulties keep keys and count; then GAME_WON iff the goal overlaps and (not EXTREME or three keys), the flag, time and high score changed then only |
| Session.Game.Win | MysticMaizeGame/MysticMaize/MysticMaize/main.py:925-928 | the flag, the elapsed time, the high-score update and GAME_WON |

## Left out

- Drawing, fonts, images, the animation, menus, the help screen, the credits and the blocking game-over and game-won screens are presentation only. The event dispatch of `run` is left out too, apart from the pause and exit events a frame receives.
- Audio (`pygame.mixer`, every `*_sound.play()`, the pause and unpause of the music) has no effect on the simulation.
- Loading and saving `high_scores.json` is file I/O. The constructor takes the loaded table as a parameter, and `EmptyTable` is the table loading falls back to.
- Creating the default player images is file I/O, and so are its `random.randint` colour draws, which happen before any game and so do not take part in the draw stream.
- `update_screen_size` and window resizing are left out. `CELL_SIZE` stays the default 28.
- The `QUIT` event, the `running` flag and the music button do not belong to the simulation.
- `time.time()` and `time.strftime` become the parameters `now` and `date`. The enemy's `dt` and `last_time` are left out; the source computes them and never uses them.
- Floats are exact reals. Rounding of `speed` and of the enemy pixels is not modelled.
- `check_collision` compares the squared distance with `CELL_SIZE²` rather than comparing the square root with `CELL_SIZE`. The two agree for nonnegative distances.
- Bullets.EnemyRect: an enemy's `pygame.Rect` takes its float pixel truncated toward zero (`Trunc`). A pygame version that rounds is not modelled.
- `random.shuffle` and `random.randint` are an oracle stream, and `Fair` assumes every inner cell is drawn again from any point on. Without that assumption, `get_random_spawn` and `generate_key_positions` may not end; the source has the same limitation.
- Enemy images, `is_alive` and `hit_enemy.image` are not modelled, since the simulation never reads them. `is_visible` is modelled, though the source never sets it false.
- `enemies.remove(hit_enemy)` removes the first enemy equal to the hit one. The model removes the hit enemy by its index. Enemies are objects and the list never holds one twice (`Squad`), so the two are the same.
- Pathfinding.Bfs: the contract says the path is a shortest walk. It does not say which of several shortest walks the neighbour order (0,1), (1,0), (0,-1), (-1,0) picks.
- Carving.GenerateMaze: the contract gives properties of the carved maze, not the exact grid a given draw stream produces. Because the shared direction list is shuffled by nested calls while outer loops read it, not every cell inside the border need be carved. The goal is opened by force and need not be reachable, so neither is claimed.
- Session.Game.DealControls: the contract says the table holds the four arrow keys dealt UP, DOWN, LEFT, RIGHT. It does not say which shuffle of them.
- Session.Game.PlaceEnemies: the contract says one enemy rests on each start cell, not which order the shuffle gives. The shuffle's two draws are taken from the stream before the enemies are created; creating an enemy draws nothing.
- Session.Game.ChasePlayer: the contract gives the outcome (GAME_OVER iff a moved enemy catches the player) and keeps the squad. It does not restate each enemy's move; `Enemies.Enemy.MoveTowardsPlayer` states that.
- Session.Game.Advance: the contract does not restate the enemy moves; `Enemies.Enemy.MoveTowardsPlayer` states those. The player's step and the bullets are stated against the maze and controls of the start of the frame, which the frame does not change.
- Session.Game.Tick: like Advance, the contract does not restate the enemy moves of an unpaused frame, and states the player's step and the bullets against the maze and controls of the start of the frame.
- Session.Game.StartGame: the contract does not say how many draws the level takes.
- The exit button takes effect during a pause too, as in the source. `paused` is not reset by `start_game`, also as in the source.
- The source's constructor leaves `difficulty` as `None`. The model stores `Medium` until `start_game` sets it; nothing reads it before then.
- The route is recomputed on every tick where the enemy's cell differs from the player's, not only when the player's cell changes (main.py:78-79).
- The unused `dt`, `move_x` and `move_y` (main.py:94-95) are left out: motion does not depend on elapsed time.
- A bullet whose cell is out of bounds is kept (main.py:1006); nothing removes bullets that leave the maze.
