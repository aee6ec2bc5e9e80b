/** A ghost: its behaviour flags, its path-following cursor and the decisions of
    `Ghost::Update`, `Ghost::UpdateReturn` and `Ghost::UpdateAI`. */
module GhostAgent {
  import opened Geometry
  import opened MazeGrid
  import opened Pathfinding
  import opened PathSearch

  /** The four personalities a ghost is created with. */
  datatype GhostAI = Aggressive | Ambush | Patrol | Random

  /** The ghost-house cell an eaten ghost returns to. */
  const HOME: Cell := Cell(13, 14)

  /** The speed every ghost is created with, in tiles per second. */
  const BASE_SPEED: real := 3.5

  /** The direction a ghost faces after construction or a reset. */
  const FACING_UP: Vec := Vec(0.0, -1.0)

  /** `Ghost::GetScatterTarget`: each personality owns a cell on the top or bottom row,
      within three columns of a side wall. The corner is computed by `UpdateAI` but never
      used. */
  function ScatterTarget(ai: GhostAI): (c: Cell)
    ensures InGrid(c)
    ensures c.y == 0 || c.y == HEIGHT - 1
    ensures c.x < 3 || WIDTH - 4 < c.x
  {
    match ai
    case Aggressive => Cell(25, 0)
    case Ambush => Cell(2, 0)
    case Patrol => Cell(27, 30)
    case Random => Cell(0, 30)
  }

  /** No two personalities share a scatter cell. */
  lemma ScatterTargetsDistinct(a: GhostAI, b: GhostAI)
    ensures ScatterTarget(a) == ScatterTarget(b) ==> a == b
  {
  }

  /** `glm::clamp` on one coordinate. */
  function Clamp(v: int, lo: int, hi: int): (r: int)
    requires lo <= hi
    ensures lo <= r <= hi
    ensures lo <= v <= hi ==> r == v
  {
    if v < lo then lo else if v > hi then hi else v
  }

  /** The flee target of a frightened ghost: the player's cell reflected through the
      ghost's cell, clamped to the grid. It always lies in the grid, and it is the
      reflection itself whenever that does. */
  function FleeTarget(current: Cell, player: Cell): (t: Cell)
    ensures InGrid(t)
    ensures InGrid(Cell(2 * current.x - player.x, 2 * current.y - player.y)) ==>
      t == Cell(2 * current.x - player.x, 2 * current.y - player.y)
  {
    Cell(Clamp(2 * current.x - player.x, 0, WIDTH - 1), Clamp(2 * current.y - player.y, 0, HEIGHT - 1))
  }

  /** Along one axis, clamping the reflection never brings the target nearer the player
      than the ghost, as long as the ghost itself is within the clamp range. */
  lemma ClampedReflectionAway(c: int, p: int, hi: int)
    requires 0 <= c <= hi
    ensures Abs(Clamp(2 * c - p, 0, hi) - p) >= Abs(c - p)
  {
  }

  /** Fleeing never aims nearer the player: from any cell of the grid, the flee target is
      at least as far from the player as the ghost, along each axis and in Manhattan
      distance. */
  lemma FleeTargetAway(current: Cell, player: Cell)
    requires InGrid(current)
    ensures Abs(FleeTarget(current, player).x - player.x) >= Abs(current.x - player.x)
    ensures Abs(FleeTarget(current, player).y - player.y) >= Abs(current.y - player.y)
    ensures Heuristic(FleeTarget(current, player), player) >= Heuristic(current, player)
  {
    ClampedReflectionAway(current.x, player.x, WIDTH - 1);
    ClampedReflectionAway(current.y, player.y, HEIGHT - 1);
  }

  /** The cell `UpdateAI` plans towards: the flee target when frightened, otherwise the
      player's own cell, whatever the ghost's personality. */
  function ChaseTarget(frightened: bool, current: Cell, player: Cell): (t: Cell)
    ensures frightened ==> InGrid(t)
    ensures !frightened ==> t == player
  {
    if frightened then FleeTarget(current, player) else player
  }

  /** `path` is what `FindPathDijkstra` or `FindPathAStar` may return for the query: empty
      exactly when there is nothing to walk, and otherwise a shortest walk through open
      cells that excludes `from` and ends at `to`. */
  ghost predicate PlannedPath(maze: Maze, from: Cell, to: Cell, path: seq<Cell>)
    reads maze.tiles
    requires maze.TilesShaped()
  {
    (path == [] <==> from == to || !Reachable(OpenCells(maze), from, to)) &&
    (Reachable(OpenCells(maze), from, to) ==> ShortestPath(OpenCells(maze), from, to, path))
  }

  /** Two integer cells are closer than half a tile exactly when they are the same cell:
      the `glm::distance(...) < 0.5f` test of `UpdateReturn` is an equality test. */
  lemma CloseCellsEqual(a: Cell, b: Cell)
    ensures Closer(AsVec(a), AsVec(b), 0.5) <==> a == b
  {
    var dx, dy := a.x - b.x, a.y - b.y;
    assert SqDistance(AsVec(a), AsVec(b)) == (dx * dx + dy * dy) as real;
    if dx != 0 {
      assert dx * dx >= 1 by { SquareAtLeastOne(dx); }
    }
    if dy != 0 {
      assert dy * dy >= 1 by { SquareAtLeastOne(dy); }
    }
  }

  lemma SquareAtLeastOne(d: int)
    requires d != 0
    ensures d * d >= 1
  {
    if d > 0 {
      assert d * d >= d * 1;
    } else {
      assert d * d == (-d) * (-d);
      assert (-d) * (-d) >= (-d) * 1;
    }
  }

  /** The point a ghost aims at on path cell `c`: the centre of the tile. */
  function TileCentre(c: Cell): Vec
  {
    Vec(c.x as real + 0.5, c.y as real + 0.5)
  }

  /** The cell a ghost's step is tested against: each coordinate floored. */
  function FloorCell(p: Vec): Cell
  {
    Cell(Floor(p.x), Floor(p.y))
  }

  /** The outcome of one `UpdateMovement`: position, heading and path cursor. */
  datatype Motion = Motion(position: Vec, direction: Vec, pathIndex: nat)

  /** The cursor after the arrival test: the next path cell once the ghost is within 0.1
      of the centre of the current one. */
  function Advanced(path: seq<Cell>, index: nat, position: Vec): (next: nat)
    requires index < |path|
    ensures next == index || next == index + 1
    ensures next == index + 1 <==> Closer(TileCentre(path[index]), position, 0.1)
  {
    if Closer(TileCentre(path[index]), position, 0.1) then index + 1 else index
  }

  /** The vector to the point aimed at after the arrival test. Past the end of the path
      the ghost keeps aiming at the cell it has just reached. */
  function Heading(path: seq<Cell>, index: nat, position: Vec): Vec
    requires index < |path|
  {
    var next := Advanced(path, index, position);
    Minus(TileCentre(path[if next < |path| then next else index]), position)
  }

  /** The position one step proposes: along `normalize(heading)` by `speed * dt`. The
      square root inside `glm::normalize` is the caller's `normalize`. */
  function Proposed(position: Vec, heading: Vec, speed: real, dt: real, normalize: Vec -> Vec): Vec
  {
    Plus(position, Scale(normalize(heading), speed * dt))
  }

  /** `Ghost::UpdateMovement`. With no path cell left, nothing moves and the horizontal
      wrap is skipped. Otherwise the cursor may advance, and a step towards the aimed
      point is taken only when its floored cell is an open cell of the grid; a refused
      step leaves the ghost in place and pushes the cursor to the end of the path, which
      forces a replan. */
  function Moved(maze: Maze, path: seq<Cell>, index: nat, position: Vec, direction: Vec,
                 speed: real, dt: real, normalize: Vec -> Vec): (m: Motion)
    reads maze.tiles
    requires maze.TilesShaped()
    ensures index >= |path| ==> m == Motion(position, direction, index)
    ensures index < |path| ==>
      m.pathIndex <= |path| && (m.pathIndex == index || m.pathIndex == index + 1 || m.pathIndex == |path|)
    ensures index < |path| ==> 0.0 <= m.position.x <= 27.0
    ensures InArena(position) ==> InArena(m.position)
  {
    if index >= |path| then Motion(position, direction, index)
    else
      var next := Advanced(path, index, position);
      var heading := Heading(path, index, position);
      if heading == Zero then Motion(Wrap(position), direction, next)
      else
        var step := Proposed(position, heading, speed, dt, normalize);
        if Passable(maze, FloorCell(step)) then Motion(Wrap(step), normalize(heading), next)
        else Motion(Wrap(position), normalize(heading), |path|)
  }

  /** A step whose floored cell is a wall or off the grid is refused: the ghost stays
      where it was, up to the wrap, and the cursor jumps to the end of the path. */
  lemma MovedRefused(maze: Maze, path: seq<Cell>, index: nat, position: Vec, direction: Vec,
                     speed: real, dt: real, normalize: Vec -> Vec)
    requires maze.TilesShaped() && index < |path|
    requires Heading(path, index, position) != Zero
    requires !Passable(maze, FloorCell(Proposed(position, Heading(path, index, position), speed, dt, normalize)))
    ensures Moved(maze, path, index, position, direction, speed, dt, normalize).position == Wrap(position)
    ensures Moved(maze, path, index, position, direction, speed, dt, normalize).pathIndex == |path|
  {
  }

  /** A ghost never leaves open ground by its own step: whenever its position changes
      other than by the wrap, the floored cell of the unwrapped new position is an open
      cell of the grid. */
  lemma MovedOntoOpenCell(maze: Maze, path: seq<Cell>, index: nat, position: Vec, direction: Vec,
                          speed: real, dt: real, normalize: Vec -> Vec)
    requires maze.TilesShaped() && index < |path|
    requires Moved(maze, path, index, position, direction, speed, dt, normalize).position != Wrap(position)
    ensures Passable(maze, FloorCell(Proposed(position, Heading(path, index, position), speed, dt, normalize)))
    ensures Moved(maze, path, index, position, direction, speed, dt, normalize).position ==
      Wrap(Proposed(position, Heading(path, index, position), speed, dt, normalize))
  {
  }

  /** The speed of a live ghost: 0.7 of the base speed while frightened, the base speed
      otherwise. */
  function ChaseSpeed(base: real, frightened: bool): real
  {
    if frightened then base * 0.7 else base
  }

  /** What a ghost's move starts from: where it is and started, where it faces, whether
      it is eaten, the path it follows with its cursor, and its replan timer. */
  datatype Course = Course(position: Vec, startPosition: Vec, direction: Vec, eaten: bool,
                           currentPath: seq<Cell>, pathIndex: nat, pathUpdateTimer: real)

  /** The course of ghost `g` as it stands. */
  ghost function CourseOf(g: Ghost): Course
    reads g`position, g`startPosition, g`direction, g`eaten, g`currentPath, g`pathIndex
    reads g`pathUpdateTimer
  {
    Course(g.position, g.startPosition, g.direction, g.eaten, g.currentPath, g.pathIndex, g.pathUpdateTimer)
  }

  /** What `Ghost::Update` makes of a live ghost that set out on course `c`: the frightened
      flag adopted, the speed set from it (0.7 of the base speed when frightened), a fresh
      Dijkstra plan towards `ChaseTarget` with the replan timer restarted once more than
      0.1 s has accumulated (otherwise the timer grows and the path stays), and the motion
      `Moved` along the path in force; the eaten flag and the start position are kept. */
  ghost predicate UpdatedFrom(g: Ghost, c: Course, dt: real, maze: Maze, playerPos: Vec, isFrightened: bool,
                              normalize: Vec -> Vec)
    reads g, maze.tiles
    requires maze.TilesShaped()
  {
    var replan := c.pathUpdateTimer + dt > 0.1;
    var from := TruncCell(c.position);
    g.frightened == isFrightened &&
    g.speed == ChaseSpeed(g.baseSpeed, isFrightened) &&
    (replan ==>
      g.pathUpdateTimer == 0.0 &&
      PlannedPath(maze, from, ChaseTarget(isFrightened, from, TruncCell(playerPos)), g.currentPath)) &&
    (!replan ==> g.pathUpdateTimer == c.pathUpdateTimer + dt && g.currentPath == c.currentPath) &&
    Motion(g.position, g.direction, g.pathIndex) ==
      Moved(maze, g.currentPath, if replan then 0 else c.pathIndex, c.position, c.direction,
            g.speed, dt, normalize) &&
    g.eaten == c.eaten && g.startPosition == c.startPosition
  }

  /** What `Ghost::Update` leaves behind: the ghost updated from its course before, with
      the active flag kept. */
  twostate predicate GhostUpdated(g: Ghost, dt: real, maze: Maze, playerPos: Vec, isFrightened: bool,
                                  normalize: Vec -> Vec)
    reads g, maze.tiles
    requires maze.TilesShaped()
  {
    UpdatedFrom(g, old(CourseOf(g)), dt, maze, playerPos, isFrightened, normalize) && g.active == old(g.active)
  }

  /** What `Ghost::UpdateReturn` makes of an eaten ghost that set out on course `c`: twice
      the base speed. On the home cell the ghost is restored (no longer eaten, back at its
      start position, with no path) without moving; elsewhere an A* plan home replaces
      the path once more than 0.3 s has accumulated, and the ghost moves by `Moved`. The
      start position is kept. */
  ghost predicate ReturnedFrom(g: Ghost, c: Course, dt: real, maze: Maze, normalize: Vec -> Vec)
    reads g, maze.tiles
    requires maze.TilesShaped()
  {
    var replan := c.pathUpdateTimer + dt > 0.3;
    var from := TruncCell(c.position);
    g.speed == g.baseSpeed * 2.0 && g.startPosition == c.startPosition &&
    (from == HOME ==>
      !g.eaten && g.position == c.startPosition && g.currentPath == [] &&
      g.direction == c.direction && g.pathIndex == c.pathIndex && g.pathUpdateTimer == c.pathUpdateTimer) &&
    (from != HOME ==>
      g.eaten == c.eaten &&
      (replan ==> g.pathUpdateTimer == 0.0 && PlannedPath(maze, from, HOME, g.currentPath)) &&
      (!replan ==> g.pathUpdateTimer == c.pathUpdateTimer + dt && g.currentPath == c.currentPath) &&
      Motion(g.position, g.direction, g.pathIndex) ==
        Moved(maze, g.currentPath, if replan then 0 else c.pathIndex, c.position, c.direction,
              g.speed, dt, normalize))
  }

  /** What `Ghost::UpdateReturn` leaves behind: the ghost returned from its course before,
      with the active and frightened flags kept. */
  twostate predicate GhostReturned(g: Ghost, dt: real, maze: Maze, normalize: Vec -> Vec)
    reads g, maze.tiles
    requires maze.TilesShaped()
  {
    ReturnedFrom(g, old(CourseOf(g)), dt, maze, normalize) &&
    g.active == old(g.active) && g.frightened == old(g.frightened)
  }

  /** A ghost: where it is and started, where it faces, its personality, its three
      behaviour flags, its speed and the path it follows with its cursor. */
  class Ghost {
    var position: Vec
    var startPosition: Vec
    var direction: Vec
    const aiType: GhostAI
    var active: bool
    var frightened: bool
    var eaten: bool
    var speed: real
    const baseSpeed: real
    var pathUpdateTimer: real
    var currentPath: seq<Cell>
    var pathIndex: nat

    /** A ghost starts inactive, facing up, with no path. Its speed is initialised from
        `baseSpeed` before `baseSpeed` itself is (members are initialised in declaration
        order), so it is left unspecified here; `Update` and `UpdateReturn` set it before
        any movement. */
    constructor (startPos: Vec, aiType: GhostAI)
      ensures position == startPos && startPosition == startPos && direction == FACING_UP
      ensures this.aiType == aiType && !active && !frightened && !eaten
      ensures baseSpeed == BASE_SPEED && pathUpdateTimer == 0.0
      ensures currentPath == [] && pathIndex == 0
    {
      position, startPosition, direction := startPos, startPos, FACING_UP;
      this.aiType := aiType;
      active, frightened, eaten := false, false, false;
      baseSpeed := BASE_SPEED;
      pathUpdateTimer := 0.0;
      currentPath, pathIndex := [], 0;
    }

    /** `Ghost::GetGridPosition`: the truncated cell of the position. */
    function GetGridPosition(): Cell
      reads this`position
    {
      TruncCell(position)
    }

    /** `Ghost::UpdateAI`: plan a shortest path from the ghost's cell with Dijkstra's
        search, towards the flee target when frightened and towards the player's cell
        otherwise, for every personality alike; the cursor restarts at 0. */
    method UpdateAI(maze: Maze, playerPos: Vec)
      requires maze.TilesShaped()
      modifies this`currentPath, this`pathIndex
      ensures pathIndex == 0
      ensures PlannedPath(maze, TruncCell(position),
                          ChaseTarget(frightened, TruncCell(position), TruncCell(playerPos)), currentPath)
    {
      var currentGrid := GetGridPosition();
      var playerGrid := TruncCell(playerPos);
      if frightened {
        var awayTarget := FleeTarget(currentGrid, playerGrid);
        currentPath := FindPathDijkstra(maze, currentGrid, awayTarget);
        pathIndex := 0;
        return;
      }
      match aiType
      case Aggressive =>
        currentPath := FindPathDijkstra(maze, currentGrid, playerGrid);
        pathIndex := 0;
      case Ambush =>
        currentPath := FindPathDijkstra(maze, currentGrid, playerGrid);
        pathIndex := 0;
      case Patrol =>
        currentPath := FindPathDijkstra(maze, currentGrid, playerGrid);
        pathIndex := 0;
      case Random =>
        currentPath := FindPathDijkstra(maze, currentGrid, playerGrid);
        pathIndex := 0;
    }

    /** The first half of `Ghost::UpdateMovement`: the arrival test moves the cursor on
        once the ghost is within 0.1 of the centre of the current path cell, and the
        vector to the point now aimed at is returned. */
    method AimAlongPath() returns (toTarget: Vec)
      requires pathIndex < |currentPath|
      modifies this`pathIndex
      ensures pathIndex == Advanced(currentPath, old(pathIndex), position)
      ensures toTarget == Heading(currentPath, old(pathIndex), position)
    {
      var target := TileCentre(currentPath[pathIndex]);
      toTarget := Minus(target, position);
      if Closer(target, position, 0.1) {
        pathIndex := pathIndex + 1;
        if pathIndex < |currentPath| {
          target := TileCentre(currentPath[pathIndex]);
          toTarget := Minus(target, position);
        }
      }
    }

    /** `Ghost::UpdateMovement`, on the object: the new position, heading and cursor are
        those of `Moved`; the path itself is kept. */
    method UpdateMovement(dt: real, maze: Maze, normalize: Vec -> Vec)
      requires maze.TilesShaped()
      modifies this`position, this`direction, this`pathIndex
      ensures Motion(position, direction, pathIndex) ==
        Moved(maze, currentPath, old(pathIndex), old(position), old(direction), speed, dt, normalize)
    {
      if |currentPath| == 0 || pathIndex >= |currentPath| {
        return;
      }
      ghost var index := pathIndex;
      var toTarget := AimAlongPath();
      if toTarget != Zero {
        direction := normalize(toTarget);
        var newPos := Plus(position, Scale(direction, speed * dt));
        assert newPos == Proposed(position, toTarget, speed, dt, normalize);
        var grid := FloorCell(newPos);
        if grid.x >= 0 && grid.x < WIDTH && grid.y >= 0 && grid.y < HEIGHT && maze.IsWalkable(grid.x, grid.y) {
          assert Passable(maze, FloorCell(newPos));
          position := newPos;
        } else {
          assert !Passable(maze, FloorCell(newPos));
          pathIndex := |currentPath|;
        }
      }
      ghost var unwrapped := position;
      if position.x < 0.0 {
        position := position.(x := 27.0);
      }
      if position.x > 27.0 {
        position := position.(x := 0.0);
      }
      assert position == Wrap(unwrapped);
    }

    /** `Ghost::Update` for a live ghost: adopt the frightened flag and its speed (0.7 of
        the base speed when frightened), replan once more than 0.1 s has accumulated and
        restart that timer, then move along the path. */
    method Update(dt: real, maze: Maze, playerPos: Vec, isFrightened: bool, normalize: Vec -> Vec)
      requires maze.TilesShaped()
      modifies this
      ensures GhostUpdated(this, dt, maze, playerPos, isFrightened, normalize)
    {
      frightened := isFrightened;
      if frightened {
        speed := baseSpeed * 0.7;
      } else {
        speed := baseSpeed;
      }
      Replan(dt, maze, playerPos);
      UpdateMovement(dt, maze, normalize);
    }

    /** The replanning step of `Ghost::Update`: `dt` accumulates in the replan timer, and
        once it exceeds 0.1 s the ghost plans afresh and the timer restarts. */
    method Replan(dt: real, maze: Maze, playerPos: Vec)
      requires maze.TilesShaped()
      modifies this`pathUpdateTimer, this`currentPath, this`pathIndex
      ensures old(pathUpdateTimer) + dt > 0.1 ==>
        pathUpdateTimer == 0.0 && pathIndex == 0 &&
        PlannedPath(maze, TruncCell(position),
                    ChaseTarget(frightened, TruncCell(position), TruncCell(playerPos)), currentPath)
      ensures old(pathUpdateTimer) + dt <= 0.1 ==>
        pathUpdateTimer == old(pathUpdateTimer) + dt && currentPath == old(currentPath) && pathIndex == old(pathIndex)
    {
      pathUpdateTimer := pathUpdateTimer + dt;
      if pathUpdateTimer > 0.1 {
        UpdateAI(maze, playerPos);
        pathUpdateTimer := 0.0;
      }
    }

    /** `Ghost::UpdateReturn` for an eaten ghost: at twice the base speed it heads for the
        ghost house. On the home cell it is restored: no longer eaten, back at its start
        position, with no path, and without moving. Elsewhere it replans with A* once more
        than 0.3 s has accumulated, then moves. */
    method UpdateReturn(dt: real, maze: Maze, normalize: Vec -> Vec)
      requires maze.TilesShaped()
      modifies this
      ensures GhostReturned(this, dt, maze, normalize)
    {
      speed := baseSpeed * 2.0;
      var currentGrid := GetGridPosition();
      CloseCellsEqual(currentGrid, HOME);
      if Closer(AsVec(currentGrid), AsVec(HOME), 0.5) {
        eaten := false;
        position := startPosition;
        currentPath := [];
        return;
      }
      ReplanHome(dt, maze, currentGrid);
      UpdateMovement(dt, maze, normalize);
    }

    /** The replanning step of `Ghost::UpdateReturn`: `dt` accumulates in the replan
        timer, and once it exceeds 0.3 s an A* path from `currentGrid` to the ghost house
        replaces the current one and the timer restarts. */
    method ReplanHome(dt: real, maze: Maze, currentGrid: Cell)
      requires maze.TilesShaped()
      modifies this`pathUpdateTimer, this`currentPath, this`pathIndex
      ensures old(pathUpdateTimer) + dt > 0.3 ==>
        pathUpdateTimer == 0.0 && pathIndex == 0 && PlannedPath(maze, currentGrid, HOME, currentPath)
      ensures old(pathUpdateTimer) + dt <= 0.3 ==>
        pathUpdateTimer == old(pathUpdateTimer) + dt && currentPath == old(currentPath) && pathIndex == old(pathIndex)
    {
      pathUpdateTimer := pathUpdateTimer + dt;
      if pathUpdateTimer > 0.3 {
        currentPath := FindPathAStar(maze, currentGrid, HOME);
        pathIndex := 0;
        pathUpdateTimer := 0.0;
      }
    }

    /** `Ghost::Reset`: back to `pos` (which becomes the start position), facing up,
        inactive, neither frightened nor eaten, at base speed, with no path. The replan
        timer is not touched. */
    method Reset(pos: Vec)
      modifies this
      ensures position == pos && startPosition == pos && direction == FACING_UP
      ensures !active && !frightened && !eaten
      ensures speed == baseSpeed && currentPath == [] && pathIndex == 0
      ensures pathUpdateTimer == old(pathUpdateTimer)
    {
      position := pos;
      startPosition := pos;
      direction := FACING_UP;
      active := false;
      frightened := false;
      eaten := false;
      speed := baseSpeed;
      currentPath := [];
      pathIndex := 0;
    }

    /** `Ghost::SetEaten`: being eaten also ends the fright and drops the path (the cursor
        is kept); clearing the flag changes nothing else. */
    method SetEaten(val: bool)
      modifies this`eaten, this`frightened, this`currentPath
      ensures eaten == val
      ensures val ==> !frightened && currentPath == []
      ensures !val ==> frightened == old(frightened) && currentPath == old(currentPath)
    {
      eaten := val;
      if eaten {
        frightened := false;
        currentPath := [];
      }
    }

    /** `Ghost::SetActive`: overwrites the active flag only. */
    method SetActive(val: bool)
      modifies this`active
      ensures active == val
    {
      active := val;
    }

    /** `Ghost::SetFrightened`: overwrites the frightened flag only. */
    method SetFrightened(val: bool)
      modifies this`frightened
      ensures frightened == val
    {
      frightened := val;
    }
  }
}
