# Pac-Man simulation core in Dafny

This project models the simulation layer of a grid-based Pac-Man clone and proves properties of it.

- **The maze.** A fixed 28 x 31 layout is normalised into a tile layer, a dot layer and a power-pellet layer. Counters track the collectibles in total and those eaten.
- **The ghosts.** Each ghost plans over the 4-connected grid of open cells with Dijkstra's search or A*. A depth-bounded backtracking search also exists, though nothing calls it. The model covers the flee target, path following with its accept/reject step rule, and the active, frightened and eaten flags.
- **The player.** The model covers the latched turn, the single-cell move test, the side-tunnel wrap and the mouth animation.
- **The game.** The model covers:
  - the five-state machine driven by the key table;
  - scoring, including the doubling ghost combo;
  - lives, full reset and level advance;
  - the fixed order of one simulation tick: power-up expiry, player, dot, pellet, ghost release, per-ghost update then collision, level check.

Modules follow the source files:

| file | module | models |
|---|---|---|
| `geometry.dfy` | `Geometry` | cells, positions, the `(int)` cast and `std::floor` |
| `maze.dfy` | `MazeGrid` | `Maze.h`, `Maze.cpp` |
| `pathfinding.dfy` | `Pathfinding` | `GetNeighbors`, `Heuristic`, walks and shortest walks |
| `search.dfy` | `PathSearch` | `PathNode`, `FindPathDijkstra`, `FindPathAStar` |
| `backtracking.dfy` | `Backtracking` | `FindPathBacktracking`, `BacktrackRecursive` |
| `ghost_agent.dfy` | `GhostAgent` | the rest of `Ghost.h`, `Ghost.cpp` |
| `player.dfy` | `PlayerAgent` | `Player.h`, `Player.cpp` |
| `game.dfy` | `GameStateMachine` | `Game.h`, `Game.cpp` |

State that the source updates in place is modelled as classes: `Maze`, `Ghost`, `Player` and `Game`.
- Their methods carry `modifies` clauses. Most state the new value of everything they may change. The game's ghost loop states where each ghost moved only when no life is lost and no ghost is eaten; the ghost phase adds the release and the ghosts' speeds; the tick and `Update` state the player's move and that no live ghost touches the player, but not where the ghosts moved (see below).
- The maze layers are `array2`s and the key table is an `array`.
- The maze also keeps two ghost sets, `dotCells` and `pelletCells`. They mirror the two collectible layers, so the conservation invariant can be stated as set sizes.

Dijkstra's search and A* differ only in the heuristic their queue entries carry, so they share one best-first search.
- The search is proved against a specification: the path is empty exactly when the start is the goal or the goal is unreachable.
- Otherwise the path is a shortest walk through open cells that excludes the start and ends at the goal.
- The proof runs through a loop invariant over the cost map, the parent map, the queue and the set of closed cells.

Floats are modelled as reals and integers as unbounded integers. The model keeps two cell conversions apart:
- the `(int)` casts of the player and of the ghosts' grid position truncate toward zero;
- the ghosts' movement test applies `std::floor` first.

## Model

| member | source | states |
|---|---|---|
| Geometry.Trunc | Player.cpp:17-18 | the `(int)` cast truncates toward zero: for a non-negative value it is the floor, for a negative one it lies within one above it |
| Geometry.Floor | Ghost.cpp:162-163 | `std::floor` then a cast: the greatest integer not above the value |
| Geometry.TruncCell | Player.cpp:102-105 | the `glm::ivec2` cast of `GetGridPosition` (both agents, also Ghost.cpp:381-384): each non-negative coordinate lands in the cell whose unit interval contains it, and every coordinate in (-1, 1) truncates to 0 |
| Geometry.TruncVersusFloor | Ghost.cpp:381-384 | truncation and flooring differ exactly on negative non-integers, where truncation is one larger; every point of (-1, 1) truncates to 0 |
| MazeGrid.LayoutShape | Maze.cpp:18-50 | the built-in layout has 31 rows of 28 codes |
| MazeGrid.LayoutStocked | Maze.cpp:18-50 | the built-in layout is rectangular and has a dot at (1, 1), so a fresh maze is never cleared |
| MazeGrid.TileFor | Maze.cpp:57-75 | a stored tile is never DOT or POWER_PELLET; it is WALL exactly when the code is WALL; other codes are kept |
| MazeGrid.ScanStep | Maze.cpp:59-70 | each scanned cell raises the running count by one exactly when it holds a dot or a pellet |
| MazeGrid.Maze.constructor | Maze.cpp:4-12 | a new maze is pristine: tiles normalised from the layout, every collectible present, nothing eaten, the total equal to the number of cells coded 2 or 3 |
| MazeGrid.Maze.Reset | Maze.cpp:146-149 | reset leaves the maze pristine again |
| MazeGrid.Maze.InitializeMaze | Maze.cpp:14-80 | the row-major scan leaves the maze pristine whatever the flags were before |
| MazeGrid.Maze.ScanComplete | Maze.cpp:52-79 | once all rows are scanned, the flagged cells are exactly the layout's dot and pellet cells and the total counts both |
| MazeGrid.Maze.InitializeRow | Maze.cpp:55-76 | one row of the scan initialises its cells and extends the count |
| MazeGrid.Maze.InitializeCell | Maze.cpp:57-75 | one cell of the scan stores its normalised tile and flags and counts it if it holds a collectible |
| MazeGrid.Maze.IsWalkable | Maze.cpp:151-157 | true for any out-of-range cell; in range, true exactly when the tile is not WALL |
| MazeGrid.Maze.HasDot | Maze.cpp:159-165 | false out of range; in range, the stored dot flag, which is membership in the dot set |
| MazeGrid.Maze.HasPowerPellet | Maze.cpp:167-173 | false out of range; in range, the stored pellet flag |
| MazeGrid.Maze.RemoveDot | Maze.cpp:175-182 | clears the dot and raises `dotsEaten` by one exactly when an in-range dot was there; otherwise nothing changes; tiles and pellets are untouched; conservation is kept |
| MazeGrid.Maze.RemovePowerPellet | Maze.cpp:184-191 | the same for power pellets |
| MazeGrid.Maze.GridToWorld | Maze.cpp:198-201 | the centre of tile (x, y): 16 units inside each 32-unit tile |
| MazeGrid.Wrap | Player.cpp:45-47 | x below 0 becomes 27 and x above 27 becomes 0; y is never wrapped; positions already in [0, 27] are kept |
| MazeGrid.AllEatenIffEmpty | Maze.cpp:193-196 | `0 <= dotsEaten <= totalDots`, and `AllDotsEaten` holds exactly when no dot and no pellet is left |
| MazeGrid.PristineNotCleared | Maze.cpp:193-196 | a pristine maze has dots left and `AllDotsEaten` is false for it |
| MazeGrid.CollectiblesOnEmptyTiles | Maze.cpp:57-75 | no cell holds both a dot and a pellet, and every collectible lies on an EMPTY tile |
| MazeGrid.WalkableIffLayoutOpen | Maze.cpp:151-157 | in range, a cell is walkable exactly when its layout code is not WALL |
| Pathfinding.Heuristic | Ghost.cpp:375-379 | the Manhattan distance is a natural number and zero exactly when the cells are equal |
| Pathfinding.HeuristicSymmetric | Ghost.cpp:375-379 | the Manhattan distance is symmetric |
| Pathfinding.HeuristicStep | Ghost.cpp:375-379 | one step changes the distance to any cell by at most one |
| Pathfinding.HeuristicAdmissible | Ghost.cpp:375-379 | the distance from a walk's start is at most the walk's length plus the distance from its end |
| Pathfinding.HeuristicLowerBound | Ghost.cpp:375-379 | the heuristic never exceeds the length of any walk between two cells |
| Pathfinding.NeighborsFromSpec | Ghost.cpp:394-404 | the directions from k on contribute exactly their in-bounds walkable cells, without repeats |
| Pathfinding.NeighborsSpec | Ghost.cpp:386-407 | the neighbours are exactly the in-bounds walkable 4-adjacent cells, at most four, without repeats |
| Pathfinding.GetNeighbors | Ghost.cpp:386-407 | the loop returns the neighbours in up, down, left, right order |
| Pathfinding.WalkCellsOpen | Ghost.cpp:398-400 | every cell of a walk lies in the grid, is not a wall, and is adjacent to the one before it |
| Pathfinding.ShortestPathAvoidsStart | Ghost.cpp:210-214 | a shortest path does not contain its start |
| Pathfinding.ShortestPathSimple | Ghost.cpp:204-217 | a shortest path repeats no cell |
| Pathfinding.ShortestPathsAgree | Ghost.cpp:183-373 | two shortest paths for the same query have equal length, so Dijkstra and A* agree in length |
| PathSearch.H | Ghost.cpp:361-365 | an entry's heuristic is 0 for Dijkstra and at most the Manhattan distance for A*, and 0 at the goal |
| PathSearch.HConsistent | Ghost.cpp:354-368 | either heuristic drops by at most one across a step |
| PathSearch.MinIndex | Ghost.h:26-28 | the popped entry has no entry of smaller total (`operator>` compares totals only) |
| PathSearch.PushesMembers | Ghost.cpp:224-236 | the pushed entries are exactly the improved neighbours, with cost plus one and the popped cell as parent |
| PathSearch.RelaxNeighbors | Ghost.cpp:220-237 | the relaxation loop lowers each improvable neighbour's cost to the popped cost plus one, records its parent and pushes it, and leaves everything else unchanged |
| PathSearch.SearchInvInit | Ghost.cpp:189-197 | the start entry with cost 0 and itself as parent establishes the search invariant |
| PathSearch.GoalCostOptimal | Ghost.cpp:204-218 | when the goal is popped, its recorded cost is at most the length of every walk to it |
| PathSearch.GoalPathShortest | Ghost.cpp:204-218 | the path rebuilt at the goal is a shortest walk, empty exactly when start is the goal |
| PathSearch.ExhaustedUnreachable | Ghost.cpp:238-240 | when the queue runs empty, the goal is unreachable and differs from the start |
| PathSearch.RelaxedTree | Ghost.cpp:220-237 | relaxing the steps out of a tree cell whose cost, like every closed cell's, is kept leaves the parent links a tree of steps into the closed set plus that cell |
| PathSearch.PopPreserves | Ghost.cpp:199-238 | one iteration that pops a non-goal entry keeps the search invariant |
| PathSearch.RemoveAt | Ghost.cpp:201-202 | `pop()` removes exactly one entry |
| PathSearch.Reversed | Ghost.cpp:216 | `std::reverse` as a value: same length, elements in reverse order |
| PathSearch.Reconstruct | Ghost.cpp:206-217 | following parent links from the goal and reversing yields a walk from the start to the goal whose length is the goal's cost |
| PathSearch.BestFirstSearch | Ghost.cpp:183-241 | empty exactly when start is the goal or the goal is unreachable; otherwise a shortest walk through open cells |
| PathSearch.FindPathDijkstra | Ghost.cpp:183-241 | the same, for zero heuristics |
| PathSearch.FindPathAStar | Ghost.cpp:316-373 | the same, for the Manhattan heuristic |
| Backtracking.InsertBy | Ghost.cpp:294-299 | inserting into a sorted sequence keeps it sorted and adds exactly one element |
| Backtracking.SortBy | Ghost.cpp:294-299 | the result is sorted by the key and a permutation of the input |
| Backtracking.SortByDistance | Ghost.cpp:293-299 | the four directions are sorted by the distance of the cell they reach from the goal, and permuted only |
| Backtracking.DirectionAdjacent | Ghost.cpp:286-291 | each direction reaches a 4-adjacent cell |
| Backtracking.BacktrackRecursive | Ghost.cpp:257-314 | the current cell equal to the goal succeeds at once; on failure the path is returned as it was on entry; on success the appended cells form a path to the goal, with at most one cell per remaining depth level and no repeats, every cell but the goal open and previously unvisited; visited marks are never cleared |
| Backtracking.TryDirections | Ghost.cpp:281-313 | visited marks are never cleared; on failure the path is returned as it was on entry; on success the path entered with is kept as a prefix and the appended cells form a backtracking path from the current cell to the goal within the remaining depth, every appended cell but the last in the grid and either the current cell or previously unvisited |
| Backtracking.ExtendFound | Ghost.cpp:305-308 | a path found from a neighbour, behind the current cell, is a path from the current cell |
| Backtracking.FindPathBacktracking | Ghost.cpp:243-255 | the result is empty or a start-inclusive path to the goal of at most `maxDepth + 1` cells with adjacent steps and no repeats; `start == goal` gives `[start]` |
| GhostAgent.ScatterTarget | Ghost.cpp:409-420 | the four corner cells lie in the grid, on the top or bottom row, within three columns of a side |
| GhostAgent.ScatterTargetsDistinct | Ghost.cpp:409-420 | no two personalities share a scatter cell |
| GhostAgent.Clamp | Ghost.cpp:92 | the clamped value lies in range and equals the input when that is in range |
| GhostAgent.FleeTarget | Ghost.cpp:89-92 | the flee target is always in the grid, and it is the reflection through the ghost whenever that is in the grid |
| GhostAgent.ClampedReflectionAway | Ghost.cpp:91-92 | along one axis, clamping the reflection never brings it nearer the player than the ghost |
| GhostAgent.FleeTargetAway | Ghost.cpp:87-97 | the flee target is at least as far from the player as the ghost, per axis and in Manhattan distance |
| GhostAgent.ChaseTarget | Ghost.cpp:87-133 | when frightened the target is in the grid; otherwise it is the player's cell for every personality |
| GhostAgent.CloseCellsEqual | Ghost.cpp:62 | two integer cells are closer than 0.5 exactly when they are equal |
| GhostAgent.Advanced | Ghost.cpp:145-148 | the cursor moves on by one exactly when the ghost is within 0.1 of the current cell's centre |
| GhostAgent.Moved | Ghost.cpp:136-181 | with no path cell left nothing changes; otherwise the cursor moves by at most one or jumps to the end, x stays in [0, 27], and a position in the arena stays there |
| GhostAgent.MovedRefused | Ghost.cpp:171-175 | a step onto a wall or off the grid is refused: the position is kept (up to the wrap) and the cursor jumps to the end of the path |
| GhostAgent.MovedOntoOpenCell | Ghost.cpp:161-170 | a position change other than the wrap lands on an open cell |
| GhostAgent.Ghost.constructor | Ghost.cpp:15-22 | a new ghost is at its start, facing up, inactive, not frightened, not eaten, with base speed 3.5 and no path |
| GhostAgent.Ghost.UpdateAI | Ghost.cpp:82-134 | the new path is what Dijkstra's search plans from the ghost's cell to the chase target, and the cursor restarts at 0 |
| GhostAgent.Ghost.AimAlongPath | Ghost.cpp:141-153 | the arrival test advances the cursor as `Advanced` says and returns the vector to the point now aimed at |
| GhostAgent.Ghost.UpdateMovement | Ghost.cpp:136-181 | the new position, heading and cursor are those of `Moved`; the path is kept |
| GhostAgent.Ghost.Update | Ghost.cpp:24-53 | `GhostUpdated`: the frightened flag is adopted and the speed is `ChaseSpeed` (0.7 times base when frightened); once the accumulated timer exceeds 0.1 s the timer restarts and the path is what Dijkstra's search plans from the ghost's cell to `ChaseTarget`, otherwise the timer grows and the path is kept; position, heading and cursor are those of `Moved` (through `UpdatedFrom`, over the ghost's `Course` before the call); the active and eaten flags and the start are kept |
| GhostAgent.Ghost.Replan | Ghost.cpp:36-41 | the timer accumulates; above 0.1 it plans afresh and restarts |
| GhostAgent.Ghost.UpdateReturn | Ghost.cpp:55-80 | `GhostReturned`: speed is twice base; on the home cell (13, 14) the ghost is no longer eaten, back at its start, with no path, and does not move; elsewhere it replans with A* toward home once the timer exceeds 0.3 s and moves as `Moved` says (through `ReturnedFrom`, over the ghost's `Course` before the call); the active and frightened flags are kept |
| GhostAgent.Ghost.ReplanHome | Ghost.cpp:70-77 | the timer accumulates; above 0.3 an A* path home replaces the path and the timer restarts |
| GhostAgent.Ghost.Reset | Ghost.cpp:459-470 | back at `pos` (the new start), facing up, inactive, not frightened, not eaten, at base speed, with no path and cursor 0 |
| GhostAgent.Ghost.SetEaten | Ghost.cpp:472-480 | `SetEaten(true)` also clears `frightened` and the path; `SetEaten(false)` changes only `eaten` |
| GhostAgent.Ghost.SetActive | Ghost.h:44 | overwrites only the active flag |
| GhostAgent.Ghost.SetFrightened | Ghost.h:47 | overwrites only the frightened flag |
| PlayerAgent.Turned | Player.cpp:14-25 | the direction changes exactly when the desired direction is non-zero and differs, and its truncated probe cell at half a tile ahead is in bounds and walkable; a change adopts the desired direction |
| PlayerAgent.Stepped | Player.cpp:28-43 | a zero direction does not move; otherwise the full step is taken exactly when its truncated cell is in bounds and walkable, and refused otherwise |
| PlayerAgent.MouthStep | Player.cpp:50-72 | from a valid mouth state, the angle moves by 5 toward 45 or 0 and stays in [0, 45]; the opening flag flips exactly at 45 and at 0 |
| PlayerAgent.Player.constructor | Player.cpp:4-9 | a new player is at its start, standing still, speed 5, mouth shut and opening |
| PlayerAgent.Player.Update | Player.cpp:11-73 | `PlayerUpdated`: the player's `Pose` after the call is `Advanced` from the one before: the direction is `Turned`, the position is `Wrap` of `Stepped`, and the mouth steps by `MouthStep` only once more than 0.05 s has accumulated, restarting that timer; the latched direction and the start are kept |
| PlayerAgent.Player.TurnTest | Player.cpp:14-25 | the turn test gives `Turned` |
| PlayerAgent.Player.MoveTest | Player.cpp:28-43 | the move test gives `Stepped` |
| PlayerAgent.Player.AnimateMouth | Player.cpp:49-72 | the mouth invariant is kept; the mouth steps by `MouthStep` only above 0.05 s |
| PlayerAgent.Player.Reset | Player.cpp:92-100 | back at `pos` (the new start), both directions zero, mouth shut and opening |
| PlayerAgent.Player.SetDirection | Player.h:17 | only latches the desired direction |
| GameStateMachine.NextState | Game.cpp:64-110 | input never enters Win or Over; the state changes only on ENTER from Menu, Over or Win, or on P from Active or Paused |
| GameStateMachine.PauseToggles | Game.cpp:74-102 | P pauses a running game and P again resumes it |
| GameStateMachine.WinUnreachable | Game.cpp:64-110 | no state other than Win leads to Win |
| GameStateMachine.KeyDirection | Game.cpp:82-90 | zero exactly when no movement key is held; otherwise one of the four unit directions |
| GameStateMachine.SingleKeyDirections | Game.cpp:83-90 | each movement key held alone asks for its own direction |
| GameStateMachine.GhostPoints | Game.cpp:348 | the n-th ghost of a combo is worth at least 200 |
| GameStateMachine.GhostPointsDouble | Game.cpp:348 | the combo starts at 200 and doubles with each ghost |
| GameStateMachine.CheckCollision | Game.cpp:389-392 | collision is symmetric and needs a positive threshold |
| GameStateMachine.CreateGhosts | Game.cpp:46-53 | four distinct new ghosts in container order, each at its start with its own personality and inactive |
| GameStateMachine.CreateMaze | Game.cpp:40 | a new, pristine maze |
| GameStateMachine.CreateAgents | Game.cpp:40-53 | the four ghosts, a player at the start and an all-false 1024-entry key table |
| GameStateMachine.Game.constructor | Game.cpp:7-13 | on the menu with score 0, three lives, level 1, the stored high score, zero timers, no power-up and no key held, with a pristine maze and everyone at the start |
| GameStateMachine.Game.ResetPositions | Game.cpp:375-381 | the player and all four ghosts at their starts, every ghost at its base speed and inactive; the mouth and replan timers are kept |
| GameStateMachine.Game.ActivateFirstOnly | Game.cpp:282-284 | only ghost 0 is active |
| GameStateMachine.Game.SetRoundCounters | Game.cpp:266-272 | the round counters are set; the power-up is off, its timer, the release timer and the combo are zero |
| GameStateMachine.Game.RestartAgents | Game.cpp:275-284 | everyone at the start, every ghost at its base speed, only ghost 0 active; the mouth and replan timers are kept |
| GameStateMachine.Game.ResetBoard | Game.cpp:266-274 | the counters are set and the maze is pristine again |
| GameStateMachine.Game.StartRound | Game.cpp:264-285 | a fresh round (`FreshRound`: full maze, no power-up, zero release timer and combo, everyone at the start and at base speed, only ghost 0 out) with the given score, lives, level and banner timer; the mouth and replan timers are kept |
| GameStateMachine.Game.Reset | Game.cpp:264-285 | score 0, three lives, level 1, a fresh round with every ghost at base speed; the state, the high score and the mouth and replan timers are kept |
| GameStateMachine.Game.NextLevel | Game.cpp:287-308 | the level rises by one; score, lives, state and high score are kept; a fresh round with every ghost at base speed; banner timer 2; the mouth and replan timers are kept |
| GameStateMachine.Game.ReadDirection | Game.cpp:82-90 | the sequential key tests give the precedence of `KeyDirection`: right over left over down over up |
| GameStateMachine.Game.Steer | Game.cpp:81-93 | the latched direction becomes `KeyDirection` of the held movement keys (right over left over down over up); with none held it stays |
| GameStateMachine.Game.StartGame | Game.cpp:66-73 | ENTER on the menu gives Active and a fresh new game, every ghost at base speed, the mouth and replan timers kept |
| GameStateMachine.Game.ProcessInput | Game.cpp:64-110 | the state follows `NextState`; ENTER on the menu starts a fresh new game (`FreshRound`, so every ghost at base speed) with the high score and the mouth and replan timers kept; in every other case the counters, timers, maze, ghosts and player are all kept except that a running game latches the direction `KeyDirection` asks for; only the P key is ever cleared, and only on resuming |
| GameStateMachine.Game.AddPoints | Game.cpp:313-319 | the score rises by the points, and the high score becomes the larger of itself and the score |
| GameStateMachine.Game.EatDot | Game.cpp:310-324 | the dot is removed as `RemoveDot` says, 10 points are scored and the high score is raised to the score if beaten |
| GameStateMachine.Game.FrightenLiveGhosts | Game.cpp:333-337 | exactly the active, not-eaten ghosts become frightened; the others keep their flag |
| GameStateMachine.Game.EatPowerPellet | Game.cpp:326-343 | 50 points, power-up on with 8 s and a zero combo, live ghosts frightened; the high score is not touched |
| GameStateMachine.Game.EatGhost | Game.cpp:345-362 | `AteGhost`: the combo rises by one first and the score by `GhostPoints` of the new combo, the high score is raised to the score; the ghost is eaten, no longer frightened and has no path, its other fields kept; the player, the other ghosts and the other counters are untouched |
| GameStateMachine.Game.ClearPowerUp | Game.cpp:383-385 | the power-up off and both timers zero |
| GameStateMachine.Game.LoseLife | Game.cpp:364-387 | `LostLife`: one life fewer with score, high score, level, banner timer and combo kept; at zero or below the game is over and the power-up, the release timer, the player and every ghost are unchanged; otherwise the player and every ghost are at the start, every ghost is inactive at base speed, and the power-up and release timer are cleared |
| GameStateMachine.Game.CalmAllGhosts | Game.cpp:126-127 | no ghost is frightened |
| GameStateMachine.Game.ExpirePowerUp | Game.cpp:119-129 | a running power-up loses `dt`, and ends once its timer reaches 0; each ghost stays frightened exactly when it was and the power-up has not just ended |
| GameStateMachine.Game.FirstInactiveFrom | Game.cpp:150-158 | the first ghost at or after k that is still inactive, or the count of ghosts when there is none |
| GameStateMachine.Game.ReleaseGhost | Game.cpp:146-159 | once the timer exceeds 2 s, the first inactive ghost is activated and the timer restarts; with every ghost out the timer keeps running |
| GameStateMachine.Game.CollectDot | Game.cpp:135-139 | a dot in the cell is eaten for 10 points |
| GameStateMachine.Game.CollectPellet | Game.cpp:140-144 | a pellet in the cell scores 50, starts an 8 s power-up with a zero combo, frightens exactly the live ghosts and is removed; otherwise nothing changes |
| GameStateMachine.Game.CollectAt | Game.cpp:134-144 | the dot and the pellet of the cell are removed; 10 points for a dot, with the high score raised to the score after it, and 50 for a pellet; a pellet starts the power-up and frightens exactly the live ghosts, otherwise the power-up is kept |
| GameStateMachine.Game.PlayerPhase | Game.cpp:119-144 | the power-up timer runs and, once used up, ends and calms every ghost; the player's pose is `Advanced` from the one before (`PlayerUpdated`); the dot and pellet of the new truncated cell are removed and scored, a pellet restarting the power-up and frightening exactly the live ghosts |
| GameStateMachine.Game.MoveGhost | Game.cpp:164-172 | a live ghost moves as `GhostUpdated` says with the power-up as its frightened flag; an eaten ghost as `GhostReturned` says; a ghost in the house is unchanged; the active flag is kept and every other ghost is untouched |
| GameStateMachine.Game.Collide | Game.cpp:174-185 | a live ghost touching the player is eaten (`AteGhost`) while the power-up runs and costs a life (`LostLife`) otherwise; when none touches, the game, the player and every ghost are unchanged |
| GameStateMachine.Game.StepGhost | Game.cpp:162-186 | at most one life is lost, none during a power-up or from a ghost in the house; a lost life that leaves some puts every ghost back in the house; without a life lost, the state, release timer, player and every other ghost are unchanged and the ghost has had its turn (`TurnTaken`); without a ghost eaten either, it moved from its `Course` before the turn as `MovedInTurn` says: as `UpdatedFrom` says with the power-up as its frightened flag when out and not eaten, as `ReturnedFrom` says and not frightened when eaten |
| GameStateMachine.Game.UpdateGhosts | Game.cpp:161-186 | no life is lost during a power-up and nothing is scored without one; with two or more lives at most one is lost per loop; without a life lost, the state, release timer and player are unchanged and every ghost has had its turn, so no live ghost touches the player; without a ghost eaten either, every ghost moved from its `Course` before the loop as `MovedInTurn` says (`GhostsMoved`) |
| GameStateMachine.Game.GhostPhase | Game.cpp:146-186 | the loop's guarantees; without a life lost, the release timer is zero when a ghost was released (`Releases`) and has grown by `dt` otherwise, the first ghost in the house is out exactly then, no live ghost touches the player, live ghosts move at chase or flee speed, eaten ones at twice base, and those still in the house are unchanged; without a ghost eaten either, every ghost moved from its `Course` before the phase as `MovedInTurn` says (`GhostsMoved`) |
| GameStateMachine.Game.Phases | Game.cpp:119-186 | the player phase, then the ghost phase: the invariant holds, score and high score never drop, the only state change is to Over, lives are kept during a running power-up; without a life lost, the player's pose is `Advanced` from the one before (`PlayerUpdated`), the dot and pellet of its new cell are gone, and no live ghost touches it |
| GameStateMachine.Game.Tick | Game.cpp:119-195 | the invariant holds; score and high score never drop; the only state change is to Over; a running power-up costs no life; at most one life is lost from two or more; the board is never left cleared: the level is kept, or it rises by one with a fresh round; with level and lives kept, the phase guarantees of `Phases` hold |
| GameStateMachine.Game.Update | Game.cpp:112-196 | the state is `NextState` of the input, or Over when play ran; Win is never entered; the high score never drops; only the P key is cleared, on resuming; when play does not run, everything but the state, that key and the latched direction is unchanged; when it runs (resuming, starting from the menu, or continuing), the level, taken as 1 when starting, is kept or rises with a fresh round and the board is not left cleared; a game started from the menu has three lives or two; outside the menu, at most one life is lost from two or more and none during a running power-up; when it runs outside the menu with level and lives kept, the player steers by `KeyDirection` if the game was already running and keeps its latched direction when resuming, turns by `Turned`, moves by `Wrap` of `Stepped`, the dot and pellet of its new cell are gone, and no live ghost touches it |

## Left out

- Rendering, particles, shaders and resource loading are drawing only, and nothing in the simulation reads them. This covers `Render` of every class, `ParticleSystem`, `Renderer`, `ResourceManager`, the particle spawns in `EatDot`, `EatPowerPellet` and `EatGhost`, and the maze's animation timers.
- `LoadHighScore` and `SaveHighScore` are file I/O. The stored high score is a constructor parameter, and every save is left out.
- `Game::Init` is modelled only through the objects it creates. Shader and renderer set-up is left out.
- `Game::Width` and `Game::Height` only size the projection and are not modelled.
- Floating point is modelled with reals, so rounding and `float` precision are not modelled.
- The square root in `glm::normalize` is not modelled. `UpdateMovement` takes it as a parameter `normalize`, which `Update` passes through.
- The arrival test `glm::length(toTarget) < 0.1` is compared through squared lengths.
- The ghost's `color`, `animationTimer` and `animationFrame` are drawing only and are not modelled.
- `targetTile` is not modelled because it is never read.
- The unused `playerDir` and `level` parameters of `Ghost::Update` and `UpdateAI` are dropped.
- The scatter corner that `UpdateAI` computes but never uses is not computed there. `GetScatterTarget` itself is modelled as `ScatterTarget`.
- GhostAgent.Ghost.constructor: does not state the ghost's initial speed. The source initialises `speed` from `baseSpeed` before `baseSpeed` is set, because members are initialised in declaration order (Ghost.h:61-62), so the value is indeterminate. `Update`, `UpdateReturn` and `Reset` set the speed before any move.
- The searches' `float` costs are integers here. Every cost is a whole number of steps, so the two agree.
- `std::priority_queue` is modelled as a sequence whose minimum-total entry is popped. Its order among entries of equal total is unspecified in the source and in the model, so the model proves only what holds for any tie order.
- Which of several equal-length shortest paths is returned is not modelled.
- `std::sort` in the backtracking search is modelled as some sort by the key. The order among equal keys is unspecified, as for the unstable sort.
- `Game::EatGhost` takes a ghost pointer in the source; the model takes the ghost's index in the container, which is how its only caller reaches it.
- GameStateMachine.GhostPoints: does not model `200 * (1 << (n - 1))` overflowing a 32-bit int, which happens from the 25th ghost of a combo (200 * 2^24 exceeds 2^31 - 1). That needs ghosts to be eaten again after returning home within one power-up, and points are unbounded integers here. For the same reason `Score += points` (Game.cpp:349) is not modelled as overflowing, though the combo's points alone, 200 * (2^24 - 1) by the 24th ghost, exceed 2^31 - 1, and a high running score does so sooner.
- GameStateMachine.Game.Update: does not bound `Lives` from below. With one life left, several ghosts touching the player in the same tick each take a life, so `Lives` can go below 0.
- GameStateMachine.Game.Tick: lets `NextLevel` run after a life loss has ended the game in the same tick, as the source does.
- GameStateMachine.Game.StepGhost, GameStateMachine.Game.UpdateGhosts, GameStateMachine.Game.GhostPhase, GameStateMachine.Game.Phases, GameStateMachine.Game.Tick: state the player's and ghosts' moves only when no life (and, for `Tick`, no level) is lost in the call, and the ghosts' moves only when no ghost is eaten either. A lost life is described by `LostLife` at the call of `LoseLife`, an eaten ghost by `AteGhost` at the call of `EatGhost`, and a new level by `FreshRound`.
- GameStateMachine.Game.Phases: does not restate where the ghosts moved (`GhostsMoved`), which `GhostPhase` states. Carrying the ghosts' courses from before the player phase across it did not fit the verifier's resource limit. Of the ghosts, `Phases` states only that none is left touching the player; their release, speeds and moves are stated by `GhostPhase`.
- GameStateMachine.Game.Tick: does not state where the ghosts moved, for the reason given for `Phases`.
- GameStateMachine.Game.Update: does not state where the ghosts moved, for the reason given for `Phases`; nor, for a game started from the menu, the first frame's moves from the start positions, only that the level is 1 (or 2 with a fresh round), the board is not cleared, the high score does not drop, and it has three lives or two.
- The Win state exists but nothing assigns it. `WinUnreachable` proves that input never enters it.
- `stateTimer` is set to 2 by `NextLevel` (Game.cpp:307) but nothing reads it, not even `Render` (Game.cpp:198-262).
- `Reset` and `NextLevel` are proved through `StartRound`, which resets the counters, then the maze, then the agents. The source resets the counters, then the maze, then the player, then the ghosts. These parts share no state, so the order does not change the result.
- `EatPowerPellet` does not refresh the high score, as in the source. A score raised only by a pellet can exceed `HighScore` until the next dot or ghost.
- MazeGrid.Maze.AllDotsEaten: carries no contract of its own. `AllEatenIffEmpty` states what it means.
- The getters `GetPosition`, `GetDirection`, `IsActive` and `IsEaten` are not separate members. Being pure reads, they are field accesses in the model.
