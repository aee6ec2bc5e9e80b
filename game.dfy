/** The game: the five-state machine driven by the key table, scoring, lives and levels,
    and the fixed order of one simulation tick. */
module GameStateMachine {
  import opened Geometry
  import opened MazeGrid
  import opened GhostAgent
  import opened PlayerAgent

  datatype GameState = Menu | Active | Paused | Win | Over

  /** GLFW key codes the game reads. */
  const KEY_ENTER := 257
  const KEY_P := 80
  const KEY_W := 87
  const KEY_A := 65
  const KEY_S := 83
  const KEY_D := 68
  const KEY_RIGHT := 262
  const KEY_LEFT := 263
  const KEY_DOWN := 264
  const KEY_UP := 265

  /** The size of the key table. */
  const KEY_COUNT := 1024

  /** Where Pac-Man and the four ghosts (in container order) start every round. */
  const PLAYER_START: Vec := Vec(13.0, 29.0)
  const GHOST_STARTS: seq<Vec> := [Vec(13.5, 11.0), Vec(11.5, 14.0), Vec(13.5, 14.0), Vec(15.5, 14.0)]
  const GHOST_AIS: seq<GhostAI> := [Aggressive, Ambush, Patrol, Random]

  const START_LIVES := 3
  const DOT_POINTS := 10
  const PELLET_POINTS := 50
  const GHOST_BASE_POINTS := 200
  const POWER_UP_SECONDS: real := 8.0
  const RELEASE_SECONDS: real := 2.0
  const LEVEL_BANNER_SECONDS: real := 2.0

  /** The default collision distance of `CheckCollision`. */
  const COLLISION_THRESHOLD: real := 0.3

  /** The state after the key table is read. ENTER leaves the menu for play and leaves the
      game-over and win screens for the menu; P pauses and resumes. Nothing else moves the
      state, so input never produces `Win` or `Over`. */
  function NextState(s: GameState, enter: bool, p: bool): (r: GameState)
    ensures r == Win ==> s == Win
    ensures r == Over ==> s == Over
    ensures r != s ==> (enter && (s == Menu || s == Over || s == Win)) || (p && (s == Active || s == Paused))
  {
    match s
    case Menu => if enter then Active else Menu
    case Active => if p then Paused else Active
    case Paused => if p then Active else Paused
    case Over => if enter then Menu else Over
    case Win => if enter then Menu else Win
  }

  /** Pausing is a toggle: P pauses a running game, and P again resumes it. */
  lemma PauseToggles(enter: bool, enter': bool)
    ensures NextState(Active, enter, true) == Paused
    ensures NextState(NextState(Active, enter, true), enter', true) == Active
  {
  }

  /** No state is ever left for `Win`: the win screen is unreachable from any other state. */
  lemma WinUnreachable(s: GameState, enter: bool, p: bool)
    requires s != Win
    ensures NextState(s, enter, p) != Win
  {
  }

  /** The direction asked for by the movement keys, by precedence: right (or D) over left
      (or A) over down (or S) over up (or W); with none held, zero. */
  function KeyDirection(up: bool, down: bool, left: bool, right: bool): (d: Vec)
    ensures d == Zero <==> !up && !down && !left && !right
    ensures d == Zero || d == Vec(0.0, -1.0) || d == Vec(0.0, 1.0) || d == Vec(-1.0, 0.0) || d == Vec(1.0, 0.0)
  {
    if right then Vec(1.0, 0.0)
    else if left then Vec(-1.0, 0.0)
    else if down then Vec(0.0, 1.0)
    else if up then Vec(0.0, -1.0)
    else Zero
  }

  /** Each movement key held alone asks for its own direction. */
  lemma SingleKeyDirections()
    ensures KeyDirection(true, false, false, false) == Vec(0.0, -1.0)
    ensures KeyDirection(false, true, false, false) == Vec(0.0, 1.0)
    ensures KeyDirection(false, false, true, false) == Vec(-1.0, 0.0)
    ensures KeyDirection(false, false, false, true) == Vec(1.0, 0.0)
  {
  }

  /** Two to the power n, the value of `1 << n` for the shifts `GhostPoints` makes. */
  function Pow2(n: nat): (r: nat)
    ensures r >= 1
  {
    if n == 0 then 1 else 2 * Pow2(n - 1)
  }

  /** The points for the n-th ghost eaten under one power-up, `200 * (1 << (n - 1))`. */
  function GhostPoints(n: int): (p: int)
    requires n >= 1
    ensures p >= GHOST_BASE_POINTS
  {
    GHOST_BASE_POINTS * Pow2(n - 1)
  }

  /** The combo doubles with every ghost: 200, 400, 800, 1600, ... */
  lemma {:induction false} GhostPointsDouble(n: int)
    requires n >= 1
    ensures GhostPoints(1) == 200
    ensures GhostPoints(n + 1) == 2 * GhostPoints(n)
  {
  }

  /** The high score once the score has become `score`: raised to it when beaten,
      otherwise kept. */
  function Raised(high: int, score: int): (r: int)
    ensures r >= high && r >= score
    ensures r == high || r == score
  {
    if score > high then score else high
  }

  /** `Game::CheckCollision`: closer than the threshold. It is symmetric, and no two
      points collide under a threshold that is not positive. */
  function CheckCollision(pos1: Vec, pos2: Vec, threshold: real): (r: bool)
    ensures r ==> 0.0 < threshold
    ensures r == Closer(pos2, pos1, threshold)
  {
    Closer(pos1, pos2, threshold)
  }

  /** A ghost's round-start condition: at `pos`, facing up, neither frightened nor
      eaten, with no path. */
  ghost predicate GhostAtStart(g: Ghost, pos: Vec)
    reads g`position, g`startPosition, g`direction, g`frightened, g`eaten, g`currentPath, g`pathIndex
  {
    g.position == pos && g.startPosition == pos && g.direction == FACING_UP &&
    !g.frightened && !g.eaten && g.currentPath == [] && g.pathIndex == 0
  }

  /** Pac-Man's round-start condition: at the start cell, standing still, mouth shut. */
  ghost predicate PlayerAtStart(p: Player)
    reads p`position, p`startPosition, p`direction, p`desiredDirection, p`mouthAngle, p`mouthOpening
  {
    p.position == PLAYER_START && p.startPosition == PLAYER_START &&
    p.direction == Zero && p.desiredDirection == Zero && p.mouthAngle == 0.0 && p.mouthOpening
  }

  /** The ghost flags agree: an eaten ghost is active and not frightened. */
  ghost predicate FlagsAgree(g: Ghost)
    reads g`eaten, g`active, g`frightened
  {
    g.eaten ==> g.active && !g.frightened
  }

  /** The four ghosts of `Game::Init`, in container order: each at its start position with
      its own AI, inactive, not frightened and not eaten. */
  method CreateGhosts() returns (gs: seq<Ghost>)
    ensures |gs| == 4 && forall a, b :: 0 <= a < b < 4 ==> gs[a] != gs[b]
    ensures forall i :: 0 <= i < 4 ==>
      fresh(gs[i]) && gs[i].aiType == GHOST_AIS[i] && gs[i].baseSpeed == BASE_SPEED &&
      GhostAtStart(gs[i], GHOST_STARTS[i]) && !gs[i].active
  {
    var g0 := new Ghost(GHOST_STARTS[0], GHOST_AIS[0]);
    var g1 := new Ghost(GHOST_STARTS[1], GHOST_AIS[1]);
    var g2 := new Ghost(GHOST_STARTS[2], GHOST_AIS[2]);
    var g3 := new Ghost(GHOST_STARTS[3], GHOST_AIS[3]);
    gs := [g0, g1, g2, g3];
    forall i | 0 <= i < 4
      ensures fresh(gs[i]) && gs[i].aiType == GHOST_AIS[i] && gs[i].baseSpeed == BASE_SPEED &&
        GhostAtStart(gs[i], GHOST_STARTS[i]) && !gs[i].active
    {
      if i == 0 {} else if i == 1 {} else if i == 2 {} else {}
    }
  }

  /** The maze of `Game::Init`, freshly initialised from the built-in layout. */
  method CreateMaze() returns (m: Maze)
    ensures fresh(m) && fresh(m.tiles) && fresh(m.dots) && fresh(m.powerPellets)
    ensures m.Pristine()
  {
    m := new Maze();
  }

  /** The key table and the agents of `Game::Init`: no key held, Pac-Man at the start
      and the four inactive ghosts. */
  method CreateAgents() returns (gs: seq<Ghost>, p: Player, keys: array<bool>)
    ensures |gs| == 4 && forall a, b :: 0 <= a < b < 4 ==> gs[a] != gs[b]
    ensures forall i :: 0 <= i < 4 ==> fresh(gs[i]) && GhostAtStart(gs[i], GHOST_STARTS[i]) && !gs[i].active
    ensures fresh(p) && p.Valid() && PlayerAtStart(p)
    ensures fresh(keys) && keys.Length == KEY_COUNT && forall k :: 0 <= k < keys.Length ==> !keys[k]
  {
    gs := CreateGhosts();
    p := new Player(PLAYER_START);
    keys := new bool[KEY_COUNT](k => false);
  }

  /** The game: the state machine, the key table, the counters, the timers of the power-up
      and of ghost release, and the maze, the player and the four ghosts it owns. */
  class Game {
    var State: GameState
    const Keys: array<bool>
    var Score: int
    var HighScore: int
    var Lives: int
    var Level: int
    const player: Player
    const ghosts: seq<Ghost>
    const maze: Maze
    var stateTimer: real
    var ghostReleaseTimer: real
    var powerUpTimer: real
    var powerUpActive: bool
    var ghostsEaten: int

    /** The key table has 1024 entries and there are four distinct ghosts. */
    ghost predicate Shape()
    {
      Keys.Length == KEY_COUNT && |ghosts| == 4 &&
      forall a, b :: 0 <= a < b < |ghosts| ==> ghosts[a] != ghosts[b]
    }

    /** The maze keeps its own invariant. */
    ghost predicate MazeOk()
      reads maze, maze.tiles, maze.dots, maze.powerPellets
    {
      maze.Valid()
    }

    /** The ghost flags agree, and a ghost is frightened only while the power-up is on. */
    ghost predicate GhostsAgree()
      reads this`powerUpActive, ghosts`eaten, ghosts`active, ghosts`frightened
    {
      forall i :: 0 <= i < |ghosts| ==> FlagsAgree(ghosts[i]) && (!powerUpActive ==> !ghosts[i].frightened)
    }

    /** The object invariant. */
    ghost predicate Valid()
      reads this`powerUpActive, this`ghostsEaten, player`mouthAngle, player`mouthOpening
      reads ghosts`eaten, ghosts`active, ghosts`frightened, maze, maze.tiles, maze.dots, maze.powerPellets
    {
      Shape() && MazeOk() && player.Valid() && GhostsAgree() && ghostsEaten >= 0
    }

    /** All four ghosts at their round-start positions. */
    ghost predicate GhostsAtStart()
      reads ghosts`position, ghosts`startPosition, ghosts`direction, ghosts`frightened, ghosts`eaten
      reads ghosts`currentPath, ghosts`pathIndex
      requires |ghosts| == 4
    {
      forall i :: 0 <= i < 4 ==> GhostAtStart(ghosts[i], GHOST_STARTS[i])
    }

    /** No ghost is out of the house. */
    ghost predicate AllInactive()
      reads ghosts`active
    {
      forall i :: 0 <= i < |ghosts| ==> !ghosts[i].active
    }

    /** Only the first ghost is out of the house. */
    ghost predicate OnlyFirstActive()
      reads ghosts`active
      requires |ghosts| == 4
    {
      forall i :: 0 <= i < 4 ==> (ghosts[i].active <==> i == 0)
    }

    /** Every ghost moves at its base speed. */
    ghost predicate AtBaseSpeed()
      reads ghosts`speed
    {
      forall j :: 0 <= j < |ghosts| ==> ghosts[j].speed == ghosts[j].baseSpeed
    }

    /** A round as `Reset` and `NextLevel` leave it: a full maze, no power-up, the release
        timer restarted, no combo, everyone at the start, every ghost at base speed, and
        only the first ghost out. */
    ghost predicate FreshRound()
      reads this`powerUpActive, this`powerUpTimer, this`ghostReleaseTimer, this`ghostsEaten
      reads player`position, player`startPosition, player`direction, player`desiredDirection
      reads player`mouthAngle, player`mouthOpening, ghosts`position, ghosts`startPosition
      reads ghosts`direction, ghosts`frightened, ghosts`eaten, ghosts`currentPath, ghosts`pathIndex
      reads ghosts`active, ghosts`speed, maze, maze.tiles, maze.dots, maze.powerPellets
      requires |ghosts| == 4
    {
      !powerUpActive && powerUpTimer == 0.0 && ghostReleaseTimer == 0.0 && ghostsEaten == 0 &&
      maze.Pristine() && PlayerAtStart(player) && GhostsAtStart() && AtBaseSpeed() && OnlyFirstActive()
    }

    /** The timers a round restart leaves alone: the player's mouth-animation timer and
        every ghost's replan timer. */
    twostate predicate AgentTimersKept()
      reads player`animationTimer, ghosts`pathUpdateTimer
    {
      player.animationTimer == old(player.animationTimer) &&
      forall j :: 0 <= j < |ghosts| ==> ghosts[j].pathUpdateTimer == old(ghosts[j].pathUpdateTimer)
    }

    /** The counters and timers are as they were. */
    twostate predicate CountersKept()
      reads this
    {
      Score == old(Score) && HighScore == old(HighScore) && Lives == old(Lives) && Level == old(Level) &&
      stateTimer == old(stateTimer) && ghostReleaseTimer == old(ghostReleaseTimer) &&
      powerUpTimer == old(powerUpTimer) && powerUpActive == old(powerUpActive) && ghostsEaten == old(ghostsEaten)
    }

    /** Every ghost is as it was. */
    twostate predicate GhostsKept()
      reads ghosts
    {
      forall j :: 0 <= j < |ghosts| ==> unchanged(ghosts[j])
    }

    /** The maze is as it was. */
    twostate predicate MazeKept()
      reads maze, maze.tiles, maze.dots, maze.powerPellets
    {
      unchanged(maze, maze.tiles, maze.dots, maze.powerPellets)
    }

    /** The player is as it was, except perhaps for the direction it has latched. */
    twostate predicate PlayerKept()
      reads player
    {
      player.position == old(player.position) && player.startPosition == old(player.startPosition) &&
      player.direction == old(player.direction) && player.animationTimer == old(player.animationTimer) &&
      player.mouthAngle == old(player.mouthAngle) && player.mouthOpening == old(player.mouthOpening)
    }

    /** The latched direction after the running branch of `Game::ProcessInput`: the
        direction the movement keys ask for by `KeyDirection`, or the latched one when no
        movement key is held. */
    ghost function SteerTarget(): Vec
      reads Keys, player`desiredDirection
      requires Shape()
    {
      var d := KeyDirection(Keys[KEY_W] || Keys[KEY_UP], Keys[KEY_S] || Keys[KEY_DOWN],
                            Keys[KEY_A] || Keys[KEY_LEFT], Keys[KEY_D] || Keys[KEY_RIGHT]);
      if d == Zero then player.desiredDirection else d
    }

    /** The i-th ghost is live (out of the house and not eaten) and within the collision
        distance of the player. */
    ghost predicate Touching(i: int)
      requires 0 <= i < |ghosts|
      reads player`position, ghosts[i]
    {
      ghosts[i].active && !ghosts[i].eaten && CheckCollision(player.position, ghosts[i].position, COLLISION_THRESHOLD)
    }

    /** What `Game::LoseLife` leaves: one life fewer, with score, level, banner and combo
        kept. With no life left the game is over and nothing else changes; otherwise the
        player and every ghost are back at the start (their animation and replan timers
        kept, the ghosts at base speed and all in the house), and the power-up and the
        release timer are cleared. */
    twostate predicate LostLife()
      reads this, player, ghosts
      requires Shape()
    {
      Lives == old(Lives) - 1 &&
      Score == old(Score) && HighScore == old(HighScore) && Level == old(Level) &&
      stateTimer == old(stateTimer) && ghostsEaten == old(ghostsEaten) &&
      (Lives <= 0 ==>
        State == Over && powerUpActive == old(powerUpActive) && powerUpTimer == old(powerUpTimer) &&
        ghostReleaseTimer == old(ghostReleaseTimer) && unchanged(player) && GhostsKept()) &&
      (Lives > 0 ==>
        State == old(State) && !powerUpActive && powerUpTimer == 0.0 && ghostReleaseTimer == 0.0 &&
        PlayerAtStart(player) && player.animationTimer == old(player.animationTimer) &&
        GhostsAtStart() && AllInactive() &&
        forall j :: 0 <= j < |ghosts| ==>
          ghosts[j].speed == ghosts[j].baseSpeed && ghosts[j].pathUpdateTimer == old(ghosts[j].pathUpdateTimer))
    }

    /** What `Game::EatGhost` leaves for the i-th ghost: the combo one longer, its points
        scored and the high score raised to the score; the ghost eaten, no longer
        frightened and without a path, with its other fields kept. The player, the other
        ghosts and the remaining counters are untouched. */
    twostate predicate AteGhost(i: int)
      reads this, player, ghosts
      requires 0 <= i < |ghosts|
    {
      old(ghostsEaten) >= 0 && ghostsEaten == old(ghostsEaten) + 1 &&
      Score == old(Score) + GhostPoints(ghostsEaten) && HighScore == Raised(old(HighScore), Score) &&
      Lives == old(Lives) && State == old(State) && Level == old(Level) && stateTimer == old(stateTimer) &&
      powerUpActive == old(powerUpActive) && powerUpTimer == old(powerUpTimer) &&
      ghostReleaseTimer == old(ghostReleaseTimer) &&
      ghosts[i].eaten && !ghosts[i].frightened && ghosts[i].currentPath == [] &&
      ghosts[i].active == old(ghosts[i].active) && ghosts[i].position == old(ghosts[i].position) &&
      ghosts[i].direction == old(ghosts[i].direction) && ghosts[i].startPosition == old(ghosts[i].startPosition) &&
      ghosts[i].speed == old(ghosts[i].speed) && ghosts[i].pathUpdateTimer == old(ghosts[i].pathUpdateTimer) &&
      ghosts[i].pathIndex == old(ghosts[i].pathIndex) &&
      unchanged(player) && forall j :: 0 <= j < |ghosts| && j != i ==> unchanged(ghosts[j])
    }

    /** The i-th ghost has had its turn of the ghost loop of `Game::Update`: it no longer
        touches the player and is in or out of the house as before; if it was live it now
        moves at its chase or flee speed, if it was eaten at its return speed, and if it
        was in the house it is untouched. */
    twostate predicate TurnTaken(i: int)
      requires 0 <= i < |ghosts|
      reads this`powerUpActive, player`position, ghosts[i]
    {
      !Touching(i) && ghosts[i].active == old(ghosts[i].active) &&
      (old(ghosts[i].active) && !old(ghosts[i].eaten) ==>
        ghosts[i].speed == ChaseSpeed(ghosts[i].baseSpeed, powerUpActive)) &&
      (old(ghosts[i].eaten) ==> ghosts[i].speed == ghosts[i].baseSpeed * 2.0) &&
      (!old(ghosts[i].active) ==> unchanged(ghosts[i]))
    }

    /** The i-th ghost has moved from course `c` as its turn of the ghost loop of
        `Game::Update` says: if it is out of the house and was not eaten, as `UpdatedFrom`
        says with the power-up as its frightened flag; if it was eaten, as `ReturnedFrom`
        says, still not frightened. */
    ghost predicate MovedInTurn(i: int, c: Course, dt: real, normalize: Vec -> Vec)
      requires 0 <= i < |ghosts| && maze.TilesShaped()
      reads this`powerUpActive, player`position, ghosts[i], maze.tiles
    {
      (ghosts[i].active && !c.eaten ==>
        UpdatedFrom(ghosts[i], c, dt, maze, player.position, powerUpActive, normalize)) &&
      (c.eaten ==> ReturnedFrom(ghosts[i], c, dt, maze, normalize) && !ghosts[i].frightened)
    }

    /** The courses of the four ghosts, in container order. */
    ghost function Courses(): (cs: seq<Course>)
      reads ghosts`position, ghosts`startPosition, ghosts`direction, ghosts`eaten
      reads ghosts`currentPath, ghosts`pathIndex, ghosts`pathUpdateTimer
      requires |ghosts| == 4
      ensures |cs| == 4 && forall j :: 0 <= j < 4 ==> cs[j] == CourseOf(ghosts[j])
    {
      [CourseOf(ghosts[0]), CourseOf(ghosts[1]), CourseOf(ghosts[2]), CourseOf(ghosts[3])]
    }

    /** Every ghost has moved from course `cs[j]` as its turn of the ghost loop of
        `Game::Update` says. */
    ghost predicate MovedFrom(cs: seq<Course>, dt: real, normalize: Vec -> Vec)
      reads this`powerUpActive, player`position, ghosts, maze.tiles
      requires maze.TilesShaped() && |cs| == |ghosts|
    {
      forall j :: 0 <= j < |ghosts| ==> MovedInTurn(j, cs[j], dt, normalize)
    }

    /** Every ghost has moved as the release step and then the ghost loop of
        `Game::Update` say, from where it was before them. */
    twostate predicate GhostsMoved(dt: real, normalize: Vec -> Vec)
      reads this`powerUpActive, player`position, ghosts, maze.tiles
      requires maze.TilesShaped() && |ghosts| == 4
    {
      MovedFrom(old(Courses()), dt, normalize)
    }

    /** The release step lets a ghost out: the timer, grown by `dt`, exceeds two seconds
        and some ghost is still in the house. */
    ghost predicate Releases(dt: real)
      reads this`ghostReleaseTimer, ghosts`active
    {
      ghostReleaseTimer + dt > RELEASE_SECONDS && FirstInactiveFrom(0) < |ghosts|
    }

    /** `Game::Game` followed by the object creation of `Game::Init`: on the menu, with
        three lives at level 1, no key held, a fresh maze, and the player and four inactive
        ghosts at their start positions. `HighScore` is the value read back from storage. */
    constructor (storedHighScore: int)
      ensures Valid()
      ensures State == Menu && Score == 0 && HighScore == storedHighScore && Lives == START_LIVES && Level == 1
      ensures stateTimer == 0.0 && ghostReleaseTimer == 0.0 && powerUpTimer == 0.0 && !powerUpActive && ghostsEaten == 0
      ensures forall k :: 0 <= k < Keys.Length ==> !Keys[k]
      ensures maze.Pristine() && PlayerAtStart(player) && GhostsAtStart() && AllInactive()
    {
      var gs, p, keys := CreateAgents();
      var m := CreateMaze();
      State := Menu;
      Keys := keys;
      Score, HighScore, Lives, Level := 0, storedHighScore, START_LIVES, 1;
      stateTimer, ghostReleaseTimer, powerUpTimer := 0.0, 0.0, 0.0;
      powerUpActive, ghostsEaten := false, 0;
      maze, player, ghosts := m, p, gs;
    }

    /** The player and the four ghosts back at their start positions, as `Reset`,
        `NextLevel` and `LoseLife` do it. Every ghost is left in the house at base speed;
        the animation and replan timers are kept. */
    method ResetPositions()
      requires Shape()
      modifies player, ghosts
      ensures player.Valid() && PlayerAtStart(player) && GhostsAtStart() && AllInactive()
      ensures AtBaseSpeed() && AgentTimersKept()
    {
      player.Reset(PLAYER_START);
      ghosts[0].Reset(GHOST_STARTS[0]);
      ghosts[1].Reset(GHOST_STARTS[1]);
      ghosts[2].Reset(GHOST_STARTS[2]);
      ghosts[3].Reset(GHOST_STARTS[3]);
      forall i | 0 <= i < 4
        ensures GhostAtStart(ghosts[i], GHOST_STARTS[i]) && !ghosts[i].active
        ensures ghosts[i].speed == ghosts[i].baseSpeed && ghosts[i].pathUpdateTimer == old(ghosts[i].pathUpdateTimer)
      {
        if i == 0 {} else if i == 1 {} else if i == 2 {} else {}
      }
    }

    /** The first ghost leaves the house at once; the others wait for the release timer. */
    method ActivateFirstOnly()
      requires Shape()
      modifies ghosts`active
      ensures OnlyFirstActive()
    {
      ghosts[0].SetActive(true);
      for i := 1 to |ghosts|
        invariant forall j :: 0 <= j < i ==> (ghosts[j].active <==> j == 0)
      {
        ghosts[i].SetActive(false);
      }
    }

    /** The counters a new round starts with: the given score, lives, level and banner
        timer, the power-up off, the release timer restarted and no combo. */
    method SetRoundCounters(score: int, lives: int, level: int, banner: real)
      modifies this`Score, this`Lives, this`Level, this`stateTimer
      modifies this`powerUpActive, this`powerUpTimer, this`ghostReleaseTimer, this`ghostsEaten
      ensures Score == score && Lives == lives && Level == level && stateTimer == banner
      ensures !powerUpActive && powerUpTimer == 0.0 && ghostReleaseTimer == 0.0 && ghostsEaten == 0
    {
      Score, Lives, Level, stateTimer := score, lives, level, banner;
      powerUpActive := false;
      powerUpTimer := 0.0;
      ghostReleaseTimer := 0.0;
      ghostsEaten := 0;
    }

    /** Everyone back at the start with only the first ghost out of the house. */
    method RestartAgents()
      requires Shape()
      modifies player, ghosts
      ensures player.Valid() && PlayerAtStart(player) && GhostsAtStart() && OnlyFirstActive()
      ensures AtBaseSpeed() && AgentTimersKept()
    {
      ResetPositions();
      ActivateFirstOnly();
    }

    /** The round counters set and the maze refilled. */
    method ResetBoard(score: int, lives: int, level: int, banner: real)
      requires MazeOk()
      modifies this`Score, this`Lives, this`Level, this`stateTimer
      modifies this`powerUpActive, this`powerUpTimer, this`ghostReleaseTimer, this`ghostsEaten
      modifies maze, maze.tiles, maze.dots, maze.powerPellets
      ensures maze.Pristine()
      ensures Score == score && Lives == lives && Level == level && stateTimer == banner
      ensures !powerUpActive && powerUpTimer == 0.0 && ghostReleaseTimer == 0.0 && ghostsEaten == 0
    {
      SetRoundCounters(score, lives, level, banner);
      maze.Reset();
    }

    /** What `Reset` and `NextLevel` share: the counters set, the maze refilled and everyone
        back at the start. The maze, the agents and the counters are disjoint, so the order
        in which they are reset does not matter. */
    method StartRound(score: int, lives: int, level: int, banner: real)
      requires Shape() && MazeOk()
      modifies this`Score, this`Lives, this`Level, this`stateTimer
      modifies this`powerUpActive, this`powerUpTimer, this`ghostReleaseTimer, this`ghostsEaten
      modifies player, ghosts, maze, maze.tiles, maze.dots, maze.powerPellets
      ensures Valid() && FreshRound() && AgentTimersKept()
      ensures Score == score && Lives == lives && Level == level && stateTimer == banner
    {
      ResetBoard(score, lives, level, banner);
      RestartAgents();
    }

    /** `Game::Reset`: a new game of three lives at level 1 with score 0. The state, the
        high score and the banner timer are kept. */
    method Reset()
      requires Valid()
      modifies this, player, ghosts, maze, maze.tiles, maze.dots, maze.powerPellets
      ensures Valid() && FreshRound() && AgentTimersKept()
      ensures Score == 0 && Lives == START_LIVES && Level == 1
      ensures State == old(State) && HighScore == old(HighScore) && stateTimer == old(stateTimer)
    {
      StartRound(0, START_LIVES, 1, stateTimer);
    }

    /** `Game::NextLevel`: one level up with score and lives kept, a fresh maze, everyone
        at the start, and the two-second level banner. */
    method NextLevel()
      requires Valid()
      modifies this, player, ghosts, maze, maze.tiles, maze.dots, maze.powerPellets
      ensures Valid() && FreshRound() && AgentTimersKept()
      ensures Level == old(Level) + 1 && stateTimer == LEVEL_BANNER_SECONDS
      ensures State == old(State) && Score == old(Score) && HighScore == old(HighScore) && Lives == old(Lives)
    {
      StartRound(Score, Lives, Level + 1, LEVEL_BANNER_SECONDS);
    }

    /** The movement keys of `Game::ProcessInput`, tested in the order `Game::ProcessInput` uses (up, down,
        left, right) with each later key overriding the earlier ones: the result is the
        precedence of `KeyDirection`. */
    method ReadDirection() returns (newDir: Vec)
      requires Shape()
      ensures newDir == KeyDirection(Keys[KEY_W] || Keys[KEY_UP], Keys[KEY_S] || Keys[KEY_DOWN],
                                     Keys[KEY_A] || Keys[KEY_LEFT], Keys[KEY_D] || Keys[KEY_RIGHT])
    {
      newDir := Zero;
      if Keys[KEY_W] || Keys[KEY_UP] {
        newDir := Vec(0.0, -1.0);
      }
      if Keys[KEY_S] || Keys[KEY_DOWN] {
        newDir := Vec(0.0, 1.0);
      }
      if Keys[KEY_A] || Keys[KEY_LEFT] {
        newDir := Vec(-1.0, 0.0);
      }
      if Keys[KEY_D] || Keys[KEY_RIGHT] {
        newDir := Vec(1.0, 0.0);
      }
    }

    /** The running branch of `Game::ProcessInput`: a held movement key is latched as the
        player's desired direction; with none held the latched direction stays. */
    method Steer()
      requires Shape()
      modifies player`desiredDirection
      ensures player.desiredDirection == old(SteerTarget())
    {
      var newDir := ReadDirection();
      if newDir != Zero {
        player.SetDirection(newDir);
      }
    }

    /** The menu branch of `Game::ProcessInput`: ENTER starts a new game and play begins. */
    method StartGame()
      requires Valid()
      modifies this, player, ghosts, maze, maze.tiles, maze.dots, maze.powerPellets
      ensures Valid() && FreshRound() && AgentTimersKept() && State == Active
      ensures Score == 0 && Lives == START_LIVES && Level == 1
      ensures HighScore == old(HighScore) && stateTimer == old(stateTimer)
    {
      State := Active;
      Reset();
    }

    /** `Game::ProcessInput`: the state moves as `NextState` says. Leaving the menu starts a
        new game. While running, the movement keys steer the player as `SteerTarget` says.
        Resuming clears the P key so that it does not pause again at once. Apart from the
        new game, input changes no counter, no timer, neither the maze nor any ghost, and
        nothing of the player but its latched direction. */
    method ProcessInput()
      requires Valid()
      modifies this, Keys, player, ghosts, maze, maze.tiles, maze.dots, maze.powerPellets
      ensures Valid()
      ensures State == NextState(old(State), old(Keys[KEY_ENTER]), old(Keys[KEY_P]))
      ensures old(State) == Menu && old(Keys[KEY_ENTER]) ==>
        FreshRound() && AgentTimersKept() && Score == 0 && Lives == START_LIVES && Level == 1 &&
        HighScore == old(HighScore) && stateTimer == old(stateTimer)
      ensures !(old(State) == Menu && old(Keys[KEY_ENTER])) ==>
        CountersKept() && MazeKept() && GhostsKept() && PlayerKept() &&
        player.desiredDirection == if old(State) == Active then old(SteerTarget()) else old(player.desiredDirection)
      ensures forall k :: 0 <= k < Keys.Length && k != KEY_P ==> Keys[k] == old(Keys[k])
      ensures Keys[KEY_P] == (old(Keys[KEY_P]) && old(State) != Paused)
    {
      if State == Menu {
        if Keys[KEY_ENTER] {
          StartGame();
        }
      } else if State == Active {
        if Keys[KEY_P] {
          State := Paused;
        }
        Steer();
      } else if State == Paused {
        if Keys[KEY_P] {
          State := Active;
          Keys[KEY_P] := false;
        }
      } else {
        if Keys[KEY_ENTER] {
          State := Menu;
        }
      }
    }

    /** Adds points to the score and raises the high score to it when it is beaten. */
    method AddPoints(points: int)
      modifies this`Score, this`HighScore
      ensures Score == old(Score) + points
      ensures HighScore == Raised(old(HighScore), Score)
    {
      Score := Score + points;
      if Score > HighScore {
        HighScore := Score;
      }
    }

    /** `Game::EatDot`: the dot at (x, y) is removed and 10 points are scored. */
    method EatDot(x: int, y: int)
      requires Valid()
      modifies this`Score, this`HighScore, maze`dotsEaten, maze`dotCells, maze.dots
      ensures Valid()
      ensures maze.dotCells == old(maze.dotCells) - {Cell(x, y)}
      ensures maze.dotsEaten == old(maze.dotsEaten) + (if Cell(x, y) in old(maze.dotCells) then 1 else 0)
      ensures Score == old(Score) + DOT_POINTS
      ensures HighScore == Raised(old(HighScore), Score)
    {
      maze.RemoveDot(x, y);
      AddPoints(DOT_POINTS);
    }

    /** Every live ghost (out of the house and not eaten) is frightened; the others keep
        their flag. */
    method FrightenLiveGhosts()
      requires Shape()
      modifies ghosts`frightened
      ensures forall i :: 0 <= i < |ghosts| ==>
        ghosts[i].frightened == (old(ghosts[i].frightened) || (ghosts[i].active && !ghosts[i].eaten))
    {
      for i := 0 to |ghosts|
        invariant forall j :: 0 <= j < i ==>
          ghosts[j].frightened == (old(ghosts[j].frightened) || (ghosts[j].active && !ghosts[j].eaten))
        invariant forall j :: i <= j < |ghosts| ==> ghosts[j].frightened == old(ghosts[j].frightened)
      {
        if ghosts[i].active && !ghosts[i].eaten {
          ghosts[i].SetFrightened(true);
        }
      }
    }

    /** `Game::EatPowerPellet`: 50 points (the high score is not updated here), an
        eight-second power-up with a fresh combo, and every live ghost frightened. The
        pellet itself is removed by the caller. */
    method EatPowerPellet()
      requires Valid()
      modifies this`Score, this`powerUpActive, this`powerUpTimer, this`ghostsEaten, ghosts`frightened
      ensures Valid()
      ensures Score == old(Score) + PELLET_POINTS
      ensures powerUpActive && powerUpTimer == POWER_UP_SECONDS && ghostsEaten == 0
      ensures forall i :: 0 <= i < |ghosts| ==>
        ghosts[i].frightened == (old(ghosts[i].frightened) || (ghosts[i].active && !ghosts[i].eaten))
    {
      Score, powerUpActive, powerUpTimer, ghostsEaten := Score + PELLET_POINTS, true, POWER_UP_SECONDS, 0;
      FrightenLiveGhosts();
    }

    /** `Game::EatGhost` on the i-th ghost, which is out of the house: the combo grows by
        one and scores `GhostPoints` of it (200, 400, 800, ...), and the ghost is eaten,
        as `AteGhost` says. */
    method EatGhost(i: int)
      requires Valid() && 0 <= i < |ghosts| && ghosts[i].active
      modifies this`ghostsEaten, this`Score, this`HighScore
      modifies ghosts`eaten, ghosts`frightened, ghosts`currentPath
      ensures Valid()
      ensures AteGhost(i)
    {
      ghostsEaten := ghostsEaten + 1;
      AddPoints(GhostPoints(ghostsEaten));
      ghosts[i].SetEaten(true);
    }

    /** The power-up and the release timer cleared, as `LoseLife` does it. */
    method ClearPowerUp()
      modifies this`powerUpActive, this`powerUpTimer, this`ghostReleaseTimer
      ensures !powerUpActive && powerUpTimer == 0.0 && ghostReleaseTimer == 0.0
    {
      powerUpActive := false;
      powerUpTimer := 0.0;
      ghostReleaseTimer := 0.0;
    }

    /** `Game::LoseLife`: one life fewer, as `LostLife` says. With none left the game is
        over and nothing else changes; otherwise everyone goes back to the start with every
        ghost in the house, and the power-up and the release timer are cleared. The combo
        is not reset. */
    method LoseLife()
      requires Valid()
      modifies this`Lives, this`State, this`powerUpActive, this`powerUpTimer, this`ghostReleaseTimer
      modifies player, ghosts
      ensures Valid()
      ensures LostLife()
    {
      Lives := Lives - 1;
      if Lives <= 0 {
        State := Over;
      } else {
        ResetPositions();
        ClearPowerUp();
      }
    }

    /** No ghost is frightened any more. */
    method CalmAllGhosts()
      requires Shape()
      modifies ghosts`frightened
      ensures forall i :: 0 <= i < |ghosts| ==> !ghosts[i].frightened
    {
      for i := 0 to |ghosts|
        invariant forall j :: 0 <= j < i ==> !ghosts[j].frightened
      {
        ghosts[i].SetFrightened(false);
      }
    }

    /** The power-up step of `Game::Update`: a running power-up loses `dt`, and once its
        timer is used up it ends and no ghost stays frightened. */
    method ExpirePowerUp(dt: real)
      requires Valid()
      modifies this`powerUpActive, this`powerUpTimer, ghosts`frightened
      ensures Valid()
      ensures powerUpActive == (old(powerUpActive) && old(powerUpTimer) - dt > 0.0)
      ensures powerUpTimer == if old(powerUpActive) then old(powerUpTimer) - dt else old(powerUpTimer)
      ensures var expired := old(powerUpActive) && old(powerUpTimer) - dt <= 0.0;
        forall i :: 0 <= i < |ghosts| ==> ghosts[i].frightened == (old(ghosts[i].frightened) && !expired)
    {
      if powerUpActive {
        powerUpTimer := powerUpTimer - dt;
        if powerUpTimer <= 0.0 {
          powerUpActive := false;
          CalmAllGhosts();
        }
      }
    }

    /** The index of the first ghost, from `k` on, that is still in the house; `|ghosts|`
        when there is none. */
    ghost function FirstInactiveFrom(k: nat): (r: nat)
      reads ghosts`active
      requires k <= |ghosts|
      ensures k <= r <= |ghosts|
      ensures forall j :: k <= j < r ==> ghosts[j].active
      ensures r < |ghosts| ==> !ghosts[r].active
      decreases |ghosts| - k
    {
      if k == |ghosts| || !ghosts[k].active then k else FirstInactiveFrom(k + 1)
    }

    /** The release step of `Game::Update`: `dt` accumulates in the release timer, and once
        it exceeds two seconds the first ghost still in the house comes out and the timer
        restarts. With every ghost out, the timer keeps running. */
    method ReleaseGhost(dt: real)
      requires Valid()
      modifies this`ghostReleaseTimer, ghosts`active
      ensures Valid()
      ensures var k := old(FirstInactiveFrom(0));
        if old(ghostReleaseTimer) + dt > RELEASE_SECONDS && k < |ghosts| then
          ghostReleaseTimer == 0.0 &&
          forall j :: 0 <= j < |ghosts| ==> ghosts[j].active == (j == k || old(ghosts[j].active))
        else
          ghostReleaseTimer == old(ghostReleaseTimer) + dt &&
          forall j :: 0 <= j < |ghosts| ==> ghosts[j].active == old(ghosts[j].active)
    {
      ghost var k := FirstInactiveFrom(0);
      ghostReleaseTimer := ghostReleaseTimer + dt;
      if ghostReleaseTimer > RELEASE_SECONDS {
        var i := 0;
        while i < |ghosts|
          invariant 0 <= i <= k
          invariant ghostReleaseTimer == old(ghostReleaseTimer) + dt
        {
          if !ghosts[i].active {
            ghosts[i].SetActive(true);
            ghostReleaseTimer := 0.0;
            break;
          }
          i := i + 1;
        }
      }
    }

    /** The dot test of `Game::Update` at cell `c`: a dot there is eaten. */
    method CollectDot(c: Cell)
      requires Valid()
      modifies this`Score, this`HighScore, maze`dotsEaten, maze`dotCells, maze.dots
      ensures Valid()
      ensures maze.dotCells == old(maze.dotCells) - {c}
      ensures Score == old(Score) + (if c in old(maze.dotCells) then DOT_POINTS else 0)
      ensures HighScore == if c in old(maze.dotCells) then Raised(old(HighScore), Score) else old(HighScore)
    {
      if maze.HasDot(c.x, c.y) {
        EatDot(c.x, c.y);
      }
    }

    /** The power-pellet test of `Game::Update` at cell `c`: a pellet there powers the player
        up, frightening every live ghost, and is then removed. Without one nothing changes. */
    method CollectPellet(c: Cell)
      requires Valid()
      modifies this`Score, this`powerUpActive, this`powerUpTimer, this`ghostsEaten, ghosts`frightened
      modifies maze`dotsEaten, maze`pelletCells, maze.powerPellets
      ensures Valid()
      ensures maze.pelletCells == old(maze.pelletCells) - {c}
      ensures c in old(maze.pelletCells) ==>
        Score == old(Score) + PELLET_POINTS && powerUpActive && powerUpTimer == POWER_UP_SECONDS && ghostsEaten == 0
      ensures c !in old(maze.pelletCells) ==>
        Score == old(Score) && powerUpActive == old(powerUpActive) && powerUpTimer == old(powerUpTimer) &&
        ghostsEaten == old(ghostsEaten)
      ensures forall j :: 0 <= j < |ghosts| ==>
        ghosts[j].frightened == (old(ghosts[j].frightened) ||
                                 (c in old(maze.pelletCells) && ghosts[j].active && !ghosts[j].eaten))
    {
      if maze.HasPowerPellet(c.x, c.y) {
        EatPowerPellet();
        maze.RemovePowerPellet(c.x, c.y);
      }
    }

    /** The collection step of `Game::Update` at the player's cell `c`: a dot there is
        eaten, then a power pellet there is eaten, frightening every live ghost. */
    method CollectAt(c: Cell)
      requires Valid()
      modifies this`Score, this`HighScore, this`powerUpActive, this`powerUpTimer, this`ghostsEaten
      modifies ghosts`frightened, maze`dotsEaten, maze`dotCells, maze`pelletCells, maze.dots, maze.powerPellets
      ensures Valid()
      ensures maze.dotCells == old(maze.dotCells) - {c} && maze.pelletCells == old(maze.pelletCells) - {c}
      ensures var dot := c in old(maze.dotCells);
        Score == old(Score) + (if dot then DOT_POINTS else 0) + (if c in old(maze.pelletCells) then PELLET_POINTS else 0) &&
        HighScore == if dot then Raised(old(HighScore), old(Score) + DOT_POINTS) else old(HighScore)
      ensures c in old(maze.pelletCells) ==> powerUpActive && powerUpTimer == POWER_UP_SECONDS && ghostsEaten == 0
      ensures c !in old(maze.pelletCells) ==>
        powerUpActive == old(powerUpActive) && powerUpTimer == old(powerUpTimer) && ghostsEaten == old(ghostsEaten)
      ensures forall j :: 0 <= j < |ghosts| ==>
        ghosts[j].frightened == (old(ghosts[j].frightened) ||
                                 (c in old(maze.pelletCells) && ghosts[j].active && !ghosts[j].eaten))
    {
      CollectDot(c);
      assert maze.pelletCells == old(maze.pelletCells);
      assert forall j :: 0 <= j < |ghosts| ==> ghosts[j].frightened == old(ghosts[j].frightened);
      CollectPellet(c);
    }

    /** The player step of `Game::Update`: the power-up timer runs (calming every ghost
        when it runs out), the player moves as `PlayerUpdated` says, and whatever lies in
        the player's new cell is collected. */
    method PlayerPhase(dt: real)
      requires Valid()
      modifies this`Score, this`HighScore, this`powerUpActive, this`powerUpTimer, this`ghostsEaten
      modifies ghosts`frightened, player, maze`dotsEaten, maze`dotCells, maze`pelletCells, maze.dots, maze.powerPellets
      ensures Valid()
      ensures PlayerUpdated(player, dt, maze)
      ensures var c := TruncCell(player.position);
        var dot := c in old(maze.dotCells);
        maze.dotCells == old(maze.dotCells) - {c} && maze.pelletCells == old(maze.pelletCells) - {c} &&
        Score == old(Score) + (if dot then DOT_POINTS else 0) + (if c in old(maze.pelletCells) then PELLET_POINTS else 0) &&
        HighScore == if dot then Raised(old(HighScore), old(Score) + DOT_POINTS) else old(HighScore)
      ensures var c := TruncCell(player.position);
        (c in old(maze.pelletCells) ==> powerUpActive && powerUpTimer == POWER_UP_SECONDS && ghostsEaten == 0) &&
        (c !in old(maze.pelletCells) ==>
          powerUpActive == (old(powerUpActive) && old(powerUpTimer) - dt > 0.0) &&
          powerUpTimer == (if old(powerUpActive) then old(powerUpTimer) - dt else old(powerUpTimer)) &&
          ghostsEaten == old(ghostsEaten))
      ensures var c := TruncCell(player.position);
        var expired := old(powerUpActive) && old(powerUpTimer) - dt <= 0.0;
        forall j :: 0 <= j < |ghosts| ==>
          ghosts[j].frightened == ((old(ghosts[j].frightened) && !expired) ||
                                   (c in old(maze.pelletCells) && ghosts[j].active && !ghosts[j].eaten))
    {
      ExpirePowerUp(dt);
      assert PoseOf(player) == old(PoseOf(player));
      label expired:
      player.Update(dt, maze);
      assert PlayerUpdated@expired(player, dt, maze);
      assert unchanged@expired(maze, maze.tiles, maze.dots, maze.powerPellets);
      assert maze.dotCells == old(maze.dotCells) && maze.pelletCells == old(maze.pelletCells);
      assert Score == old(Score) && HighScore == old(HighScore) && ghostsEaten == old(ghostsEaten);
      var c := player.GetGridPosition();
      label moved:
      CollectAt(c);
      assert PoseOf(player) == old@moved(PoseOf(player));
    }

    /** The movement step of the ghost loop of `Game::Update` for the i-th ghost: a live
        ghost chases (or flees, while the power-up runs) as `GhostUpdated` says, an eaten
        one heads home as `GhostReturned` says, and a ghost in the house stays put. */
    method MoveGhost(i: int, dt: real, normalize: Vec -> Vec)
      requires Valid() && 0 <= i < |ghosts|
      modifies ghosts[i]
      ensures Valid()
      ensures old(ghosts[i].active) && !old(ghosts[i].eaten) ==>
        GhostUpdated(ghosts[i], dt, maze, player.position, powerUpActive, normalize)
      ensures old(ghosts[i].eaten) ==> GhostReturned(ghosts[i], dt, maze, normalize)
      ensures !old(ghosts[i].active) ==> unchanged(ghosts[i])
    {
      var g := ghosts[i];
      if g.active && !g.eaten {
        g.Update(dt, maze, player.position, powerUpActive, normalize);
      } else if g.eaten {
        g.UpdateReturn(dt, maze, normalize);
      }
      assert MazeOk() && player.Valid();
      forall j | 0 <= j < |ghosts|
        ensures FlagsAgree(ghosts[j]) && (!powerUpActive ==> !ghosts[j].frightened)
      {
        if j != i {
          assert ghosts[j] != g;
        }
      }
    }

    /** The collision step of the ghost loop of `Game::Update` for the i-th ghost: a live
        ghost touching the player is eaten while the power-up runs (`AteGhost`) and
        otherwise costs a life (`LostLife`); without a touch nothing changes. */
    method Collide(i: int)
      requires Valid() && 0 <= i < |ghosts|
      modifies this`ghostsEaten, this`Score, this`HighScore, this`Lives, this`State
      modifies this`powerUpActive, this`powerUpTimer, this`ghostReleaseTimer, player, ghosts
      ensures Valid()
      ensures old(Touching(i)) && old(powerUpActive) ==> AteGhost(i)
      ensures old(Touching(i)) && !old(powerUpActive) ==> LostLife()
      ensures !old(Touching(i)) ==> unchanged(this) && unchanged(player) && GhostsKept()
    {
      var g := ghosts[i];
      if g.active && CheckCollision(player.position, g.position, COLLISION_THRESHOLD) {
        if powerUpActive && !g.eaten {
          EatGhost(i);
        } else if !g.eaten {
          LoseLife();
        }
      }
    }

    /** One turn of the ghost loop of `Game::Update`: the i-th ghost moves, then is tested
        against the player. Without a life lost the turn is `TurnTaken` and touches
        nothing but the i-th ghost and the score; without a ghost eaten either, the ghost
        has moved exactly as `GhostUpdated` or `GhostReturned` says. */
    method StepGhost(i: int, dt: real, normalize: Vec -> Vec)
      requires Valid() && 0 <= i < |ghosts|
      modifies this`ghostsEaten, this`Score, this`HighScore, this`Lives, this`State
      modifies this`powerUpActive, this`powerUpTimer, this`ghostReleaseTimer, player, ghosts
      ensures Valid()
      ensures powerUpActive == old(powerUpActive) && HighScore >= old(HighScore) && Score >= old(Score)
      ensures powerUpActive ==> Lives == old(Lives)
      ensures !powerUpActive ==> Score == old(Score)
      ensures Lives == old(Lives) || Lives == old(Lives) - 1
      ensures State == old(State) || State == Over
      ensures Lives < old(Lives) && Lives > 0 ==> AllInactive() && GhostsAtStart()
      ensures !old(ghosts[i].active) ==> Lives == old(Lives)
      ensures Lives == old(Lives) ==>
        State == old(State) && ghostReleaseTimer == old(ghostReleaseTimer) && unchanged(player) && TurnTaken(i) &&
        forall j :: 0 <= j < |ghosts| && j != i ==> unchanged(ghosts[j])
      ensures ghostsEaten >= old(ghostsEaten)
      ensures Lives == old(Lives) && ghostsEaten == old(ghostsEaten) ==>
        MovedInTurn(i, old(CourseOf(ghosts[i])), dt, normalize)
    {
      MoveGhost(i, dt, normalize);
      Collide(i);
    }

    /** The ghost loop of `Game::Update`. While the power-up runs no life is lost; without
        it no ghost is eaten and nothing is scored. With two or more lives left at most one
        is lost, since losing one sends every ghost back into the house; with one left,
        several ghosts touching the player at once each take one. Without a life lost,
        every ghost has had its turn (`TurnTaken`), so none is left touching the player;
        without a ghost eaten either, every ghost has moved from where it stood before the
        loop (`GhostsMoved`). */
    method UpdateGhosts(dt: real, normalize: Vec -> Vec)
      requires Valid()
      modifies this`ghostsEaten, this`Score, this`HighScore, this`Lives, this`State
      modifies this`powerUpActive, this`powerUpTimer, this`ghostReleaseTimer, player, ghosts
      ensures Valid()
      ensures powerUpActive == old(powerUpActive) && HighScore >= old(HighScore) && Score >= old(Score)
      ensures powerUpActive ==> Lives == old(Lives)
      ensures !powerUpActive ==> Score == old(Score)
      ensures Lives <= old(Lives)
      ensures old(Lives) >= 2 ==> Lives >= old(Lives) - 1
      ensures State == old(State) || State == Over
      ensures Lives == old(Lives) ==>
        State == old(State) && ghostReleaseTimer == old(ghostReleaseTimer) && unchanged(player) &&
        forall j :: 0 <= j < |ghosts| ==> TurnTaken(j)
      ensures ghostsEaten >= old(ghostsEaten)
      ensures Lives == old(Lives) && ghostsEaten == old(ghostsEaten) ==> GhostsMoved(dt, normalize)
    {
      ghost var cs := Courses();
      for i := 0 to |ghosts|
        invariant Valid()
        invariant ghostsEaten >= old(ghostsEaten)
        invariant Lives == old(Lives) && ghostsEaten == old(ghostsEaten) ==>
          forall j :: 0 <= j < i ==> MovedInTurn(j, cs[j], dt, normalize)
        invariant powerUpActive == old(powerUpActive) && HighScore >= old(HighScore) && Score >= old(Score)
        invariant powerUpActive ==> Lives == old(Lives)
        invariant !powerUpActive ==> Score == old(Score)
        invariant Lives <= old(Lives)
        invariant State == old(State) || State == Over
        invariant old(Lives) >= 2 ==> Lives >= old(Lives) - 1
        invariant old(Lives) >= 2 && Lives < old(Lives) ==>
          forall j :: i <= j < |ghosts| ==> !ghosts[j].active
        invariant Lives == old(Lives) ==>
          State == old(State) && ghostReleaseTimer == old(ghostReleaseTimer) && unchanged(player) &&
          (forall j :: 0 <= j < i ==> TurnTaken(j)) &&
          forall j :: i <= j < |ghosts| ==> unchanged(ghosts[j])
      {
        StepGhost(i, dt, normalize);
      }
    }

    /** The ghost half of `Game::Update`: the release step, then the ghost loop. Without a
        life lost, the released ghost (if any) is out, the release timer is as the release
        step left it, and every ghost has had its turn from its state after the release;
        without a ghost eaten either, every ghost has moved from where it stood before the
        phase (`GhostsMoved`). */
    method GhostPhase(dt: real, normalize: Vec -> Vec)
      requires Valid()
      modifies this`ghostsEaten, this`Score, this`HighScore, this`Lives, this`State
      modifies this`powerUpActive, this`powerUpTimer, this`ghostReleaseTimer, player, ghosts
      ensures Valid()
      ensures powerUpActive == old(powerUpActive) && HighScore >= old(HighScore) && Score >= old(Score)
      ensures powerUpActive ==> Lives == old(Lives)
      ensures !powerUpActive ==> Score == old(Score)
      ensures Lives <= old(Lives)
      ensures old(Lives) >= 2 ==> Lives >= old(Lives) - 1
      ensures State == old(State) || State == Over
      ensures Lives == old(Lives) ==>
        State == old(State) && unchanged(player) &&
        ghostReleaseTimer == (if old(Releases(dt)) then 0.0 else old(ghostReleaseTimer) + dt) &&
        forall j :: 0 <= j < |ghosts| ==>
          !Touching(j) &&
          ghosts[j].active == (old(ghosts[j].active) || (old(Releases(dt)) && j == old(FirstInactiveFrom(0)))) &&
          (ghosts[j].active && !old(ghosts[j].eaten) ==>
            ghosts[j].speed == ChaseSpeed(ghosts[j].baseSpeed, powerUpActive)) &&
          (old(ghosts[j].eaten) ==> ghosts[j].speed == ghosts[j].baseSpeed * 2.0) &&
          (!ghosts[j].active ==> unchanged(ghosts[j]))
      ensures ghostsEaten >= old(ghostsEaten)
      ensures Lives == old(Lives) && ghostsEaten == old(ghostsEaten) ==> GhostsMoved(dt, normalize)
    {
      ReleaseGhost(dt);
      assert Courses() == old(Courses());
      label released:
      UpdateGhosts(dt, normalize);
      if Lives == old(Lives) {
        forall j | 0 <= j < |ghosts|
          ensures !Touching(j) && ghosts[j].active == old@released(ghosts[j].active)
          ensures old@released(ghosts[j].active) && !old(ghosts[j].eaten) ==>
            ghosts[j].speed == ChaseSpeed(ghosts[j].baseSpeed, powerUpActive)
          ensures old(ghosts[j].eaten) ==> ghosts[j].speed == ghosts[j].baseSpeed * 2.0
          ensures !ghosts[j].active ==> unchanged(ghosts[j])
        {
          assert TurnTaken@released(j);
        }
      }
    }

    /** The player half, then the ghost half, of a running `Game::Update`. Without a life
        lost, the player has moved as `PlayerUpdated` says, its new cell has been emptied,
        and no live ghost touches it. */
    method Phases(dt: real, normalize: Vec -> Vec)
      requires Valid()
      modifies this`Score, this`HighScore, this`Lives, this`State, this`powerUpActive, this`powerUpTimer
      modifies this`ghostReleaseTimer, this`ghostsEaten, player, ghosts
      modifies maze`dotsEaten, maze`dotCells, maze`pelletCells, maze.dots, maze.powerPellets
      ensures Valid()
      ensures HighScore >= old(HighScore) && Score >= old(Score)
      ensures State == old(State) || State == Over
      ensures Lives <= old(Lives)
      ensures old(powerUpActive) && old(powerUpTimer) - dt > 0.0 ==> Lives == old(Lives)
      ensures old(Lives) >= 2 ==> Lives >= old(Lives) - 1
      ensures Lives == old(Lives) ==>
        PlayerUpdated(player, dt, maze) &&
        maze.dotCells == old(maze.dotCells) - {TruncCell(player.position)} &&
        maze.pelletCells == old(maze.pelletCells) - {TruncCell(player.position)} &&
        forall j :: 0 <= j < |ghosts| ==> !Touching(j)
    {
      PlayerPhase(dt);
      label played:
      GhostPhase(dt, normalize);
      if Lives == old(Lives) {
        assert PoseOf(player) == old@played(PoseOf(player));
      }
    }

    /** What `Game::Update` does once the game is running: the player half, the ghost
        half, and the next level once every collectible is eaten (which `Game::Update`
        checks even when the ghost loop has just ended the game). So a tick never ends with
        the board cleared: either the level stays, or it goes up by one with a fresh round.
        Without a level or a life lost, the player has moved as `PlayerUpdated` says, its
        new cell has been emptied, and no live ghost touches it. */
    method Tick(dt: real, normalize: Vec -> Vec)
      requires Valid()
      modifies this, player, ghosts, maze, maze.tiles, maze.dots, maze.powerPellets
      ensures Valid()
      ensures HighScore >= old(HighScore) && Score >= old(Score)
      ensures State == old(State) || State == Over
      ensures Lives <= old(Lives)
      ensures old(powerUpActive) && old(powerUpTimer) - dt > 0.0 ==> Lives == old(Lives)
      ensures old(Lives) >= 2 ==> Lives >= old(Lives) - 1
      ensures maze.dotCells != {} || maze.pelletCells != {}
      ensures Level == old(Level) || (Level == old(Level) + 1 && FreshRound())
      ensures Level == old(Level) && Lives == old(Lives) ==>
        PlayerUpdated(player, dt, maze) &&
        maze.dotCells == old(maze.dotCells) - {TruncCell(player.position)} &&
        maze.pelletCells == old(maze.pelletCells) - {TruncCell(player.position)} &&
        forall j :: 0 <= j < |ghosts| ==> !Touching(j)
    {
      Phases(dt, normalize);
      if maze.AllDotsEaten() {
        NextLevel();
        PristineNotCleared(maze);
      } else {
        AllEatenIffEmpty(maze);
      }
    }

    /** `Game::Update`: input first; unless the game is then running, nothing else happens:
        no counter, timer, maze cell or ghost changes, and the player changes only its
        latched direction. Otherwise one tick is simulated, in which the only state change
        is to game over. The win screen is never entered, the high score never drops, a
        tick during a running power-up never costs a life, and with two or more lives at
        most one is lost per tick. In a running game without a level or a life lost, the
        player steers by the keys, then turns and moves from where it stood. */
    method Update(dt: real, normalize: Vec -> Vec)
      requires Valid()
      modifies this, Keys, player, ghosts, maze, maze.tiles, maze.dots, maze.powerPellets
      ensures Valid()
      ensures var s := NextState(old(State), old(Keys[KEY_ENTER]), old(Keys[KEY_P]));
        State == s || (s == Active && State == Over)
      ensures State == Win ==> old(State) == Win
      ensures HighScore >= old(HighScore)
      ensures forall k :: 0 <= k < Keys.Length && k != KEY_P ==> Keys[k] == old(Keys[k])
      ensures Keys[KEY_P] == (old(Keys[KEY_P]) && old(State) != Paused)
      ensures NextState(old(State), old(Keys[KEY_ENTER]), old(Keys[KEY_P])) != Active ==>
        CountersKept() && MazeKept() && GhostsKept() && PlayerKept() &&
        player.desiredDirection == if old(State) == Active then old(SteerTarget()) else old(player.desiredDirection)
      ensures NextState(old(State), old(Keys[KEY_ENTER]), old(Keys[KEY_P])) == Active ==>
        maze.dotCells != {} || maze.pelletCells != {}
      ensures var level := if old(State) == Menu then 1 else old(Level);
        NextState(old(State), old(Keys[KEY_ENTER]), old(Keys[KEY_P])) == Active ==>
          Level == level || (Level == level + 1 && FreshRound())
      ensures old(State) == Menu && old(Keys[KEY_ENTER]) ==>
        Lives == START_LIVES || Lives == START_LIVES - 1
      ensures old(State) != Menu && old(Lives) >= 2 ==> Lives >= old(Lives) - 1
      ensures NextState(old(State), old(Keys[KEY_ENTER]), old(Keys[KEY_P])) == Active && old(State) != Menu &&
              old(powerUpActive) && old(powerUpTimer) - dt > 0.0 ==>
        Lives == old(Lives)
      ensures NextState(old(State), old(Keys[KEY_ENTER]), old(Keys[KEY_P])) == Active && old(State) != Menu &&
              Level == old(Level) && Lives == old(Lives) ==>
        player.desiredDirection ==
          (if old(State) == Active then old(SteerTarget()) else old(player.desiredDirection)) &&
        player.direction == Turned(maze, old(player.position), old(player.direction), player.desiredDirection) &&
        player.position == Wrap(Stepped(maze, old(player.position), player.direction, player.speed, dt)) &&
        maze.dotCells == old(maze.dotCells) - {TruncCell(player.position)} &&
        maze.pelletCells == old(maze.pelletCells) - {TruncCell(player.position)} &&
        forall j :: 0 <= j < |ghosts| ==> !Touching(j)
    {
      ProcessInput();
      if State != Active {
        return;
      }
      Tick(dt, normalize);
    }
  }
}
