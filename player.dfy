/** Pac-Man: the latched turn, the single-cell move test, the side-tunnel wrap and the
    mouth animation of `Player::Update`. */
module PlayerAgent {
  import opened Geometry
  import opened MazeGrid

  /** The player's speed in tiles per second. */
  const PLAYER_SPEED: real := 5.0

  /** How far ahead of the position a turn is probed, in multiples of the new direction. */
  const TURN_PROBE: real := 0.5

  /** The mouth opens and closes in steps of 5 degrees between 0 and 45. */
  const MOUTH_STEP: real := 5.0
  const MOUTH_MAX: real := 45.0

  /** A mouth step is due once more than this many seconds have accumulated. */
  const MOUTH_INTERVAL: real := 0.05

  /** The cell the turn test probes: half a tile along the desired direction, truncated. */
  function TurnProbe(position: Vec, desired: Vec): Cell
  {
    TruncCell(Plus(position, Scale(desired, TURN_PROBE)))
  }

  /** The direction after the turn test. A latched direction is adopted only when it is
      non-zero, differs from the current one and its probe cell is an open cell of the
      grid; otherwise the current direction stays. */
  function Turned(maze: Maze, position: Vec, direction: Vec, desired: Vec): (r: Vec)
    reads maze.tiles
    requires maze.TilesShaped()
    ensures r == direction || r == desired
    ensures r != direction <==>
      desired != Zero && desired != direction && Passable(maze, TurnProbe(position, desired))
  {
    if desired != Zero && desired != direction && Passable(maze, TurnProbe(position, desired))
    then desired else direction
  }

  /** The position after the move test, before the wrap. A zero direction does not move;
      otherwise the step of `speed * dt` along the direction is taken only when the
      truncated cell it lands in is an open cell of the grid, and refused in full
      otherwise. */
  function Stepped(maze: Maze, position: Vec, direction: Vec, speed: real, dt: real): (r: Vec)
    reads maze.tiles
    requires maze.TilesShaped()
    ensures direction == Zero ==> r == position
    ensures r == position || r == Plus(position, Scale(direction, speed * dt))
    ensures r == Plus(position, Scale(direction, speed * dt)) && r != position ==> Passable(maze, TruncCell(r))
    ensures direction != Zero && Passable(maze, TruncCell(Plus(position, Scale(direction, speed * dt)))) ==>
      r == Plus(position, Scale(direction, speed * dt))
  {
    if direction == Zero then position
    else
      var newPos := Plus(position, Scale(direction, speed * dt));
      if Passable(maze, TruncCell(newPos)) then newPos else position
  }

  /** The mouth stays between 0 and 45 degrees on a multiple of 5; it is opening when shut
      and closing when wide open. */
  predicate MouthValid(angle: real, opening: bool)
  {
    0.0 <= angle <= MOUTH_MAX && angle == angle.Floor as real && angle.Floor % 5 == 0 &&
    (angle == 0.0 ==> opening) && (angle == MOUTH_MAX ==> !opening)
  }

  /** One mouth step: open or close by 5 degrees, turning round at 45 and at 0. */
  datatype Mouth = Mouth(angle: real, opening: bool)

  function MouthStep(angle: real, opening: bool): (m: Mouth)
    ensures MouthValid(angle, opening) ==> MouthValid(m.angle, m.opening)
    ensures MouthValid(angle, opening) ==>
      (if opening then m.angle == angle + MOUTH_STEP else m.angle == angle - MOUTH_STEP)
    ensures MouthValid(angle, opening) ==>
      (m.opening != opening <==> m.angle == MOUTH_MAX || m.angle == 0.0)
  {
    if opening then
      if angle + MOUTH_STEP >= MOUTH_MAX then Mouth(MOUTH_MAX, false) else Mouth(angle + MOUTH_STEP, true)
    else
      if angle - MOUTH_STEP <= 0.0 then Mouth(0.0, true) else Mouth(angle - MOUTH_STEP, false)
  }

  /** What a player's move starts from: where it is and started, the direction it moves in
      and the one last asked for, and the mouth animation with its timer. */
  datatype Pose = Pose(position: Vec, startPosition: Vec, direction: Vec, desiredDirection: Vec,
                       animationTimer: real, mouthAngle: real, mouthOpening: bool)

  /** The pose of player `p` as it stands. */
  ghost function PoseOf(p: Player): Pose
    reads p`position, p`startPosition, p`direction, p`desiredDirection, p`animationTimer
    reads p`mouthAngle, p`mouthOpening
  {
    Pose(p.position, p.startPosition, p.direction, p.desiredDirection, p.animationTimer, p.mouthAngle,
         p.mouthOpening)
  }

  /** The pose `Player::Update` makes of pose `q`: the direction after the turn test, the
      position after the move test and the wrap, and the mouth stepped once more than
      0.05 s has accumulated, restarting the timer (otherwise the timer grows). The
      latched direction and the start position are kept. */
  function Advanced(maze: Maze, q: Pose, speed: real, dt: real): Pose
    reads maze.tiles
    requires maze.TilesShaped()
  {
    var direction := Turned(maze, q.position, q.direction, q.desiredDirection);
    var due := q.animationTimer + dt > MOUTH_INTERVAL;
    var mouth := if due then MouthStep(q.mouthAngle, q.mouthOpening) else Mouth(q.mouthAngle, q.mouthOpening);
    q.(position := Wrap(Stepped(maze, q.position, direction, speed, dt)), direction := direction,
       animationTimer := if due then 0.0 else q.animationTimer + dt,
       mouthAngle := mouth.angle, mouthOpening := mouth.opening)
  }

  /** What `Player::Update` leaves behind: the pose advanced from the one before. */
  twostate predicate PlayerUpdated(p: Player, dt: real, maze: Maze)
    reads p, maze.tiles
    requires maze.TilesShaped()
  {
    PoseOf(p) == Advanced(maze, old(PoseOf(p)), p.speed, dt)
  }

  /** The player: where it is and started, the direction it moves in, the direction last
      asked for, its speed and the mouth animation. */
  class Player {
    var position: Vec
    var startPosition: Vec
    var direction: Vec
    var desiredDirection: Vec
    const speed: real
    var animationTimer: real
    var mouthAngle: real
    var mouthOpening: bool

    /** The mouth invariant. */
    ghost predicate Valid()
      reads this`mouthAngle, this`mouthOpening
    {
      MouthValid(mouthAngle, mouthOpening)
    }

    /** The player starts at `startPos`, standing still with a shut mouth. */
    constructor (startPos: Vec)
      ensures Valid()
      ensures position == startPos && startPosition == startPos
      ensures direction == Zero && desiredDirection == Zero
      ensures speed == PLAYER_SPEED && animationTimer == 0.0
      ensures mouthAngle == 0.0 && mouthOpening
    {
      position, startPosition := startPos, startPos;
      direction, desiredDirection := Zero, Zero;
      speed := PLAYER_SPEED;
      animationTimer := 0.0;
      mouthAngle, mouthOpening := 0.0, true;
    }

    /** `Player::Update`: the turn test, the move test, the wrap, then the mouth step once
        more than 0.05 s has accumulated. */
    method Update(dt: real, maze: Maze)
      requires maze.TilesShaped() && Valid()
      modifies this
      ensures Valid()
      ensures PlayerUpdated(this, dt, maze)
    {
      TurnTest(maze);
      MoveTest(dt, maze);
      ghost var unwrapped := position;
      if position.x < 0.0 {
        position := position.(x := 27.0);
      }
      if position.x > 27.0 {
        position := position.(x := 0.0);
      }
      assert position == Wrap(unwrapped);
      AnimateMouth(dt);
    }

    /** The turn test of `Player::Update`. */
    method TurnTest(maze: Maze)
      requires maze.TilesShaped()
      modifies this`direction
      ensures direction == Turned(maze, position, old(direction), desiredDirection)
    {
      if desiredDirection != Zero && desiredDirection != direction {
        var testPos := Plus(position, Scale(desiredDirection, TURN_PROBE));
        var testX, testY := Trunc(testPos.x), Trunc(testPos.y);
        if testX >= 0 && testX < WIDTH && testY >= 0 && testY < HEIGHT && maze.IsWalkable(testX, testY) {
          direction := desiredDirection;
        }
      }
    }

    /** The move test of `Player::Update`. */
    method MoveTest(dt: real, maze: Maze)
      requires maze.TilesShaped()
      modifies this`position
      ensures position == Stepped(maze, old(position), direction, speed, dt)
    {
      if direction != Zero {
        var newPos := Plus(position, Scale(direction, speed * dt));
        var gridX, gridY := Trunc(newPos.x), Trunc(newPos.y);
        if gridX >= 0 && gridX < WIDTH && gridY >= 0 && gridY < HEIGHT && maze.IsWalkable(gridX, gridY) {
          position := newPos;
        }
      }
    }

    /** The mouth animation of `Player::Update`. */
    method AnimateMouth(dt: real)
      requires Valid()
      modifies this`animationTimer, this`mouthAngle, this`mouthOpening
      ensures Valid()
      ensures old(animationTimer) + dt > MOUTH_INTERVAL ==>
        animationTimer == 0.0 && Mouth(mouthAngle, mouthOpening) == MouthStep(old(mouthAngle), old(mouthOpening))
      ensures old(animationTimer) + dt <= MOUTH_INTERVAL ==>
        animationTimer == old(animationTimer) + dt && mouthAngle == old(mouthAngle) && mouthOpening == old(mouthOpening)
    {
      animationTimer := animationTimer + dt;
      if animationTimer > MOUTH_INTERVAL {
        if mouthOpening {
          mouthAngle := mouthAngle + MOUTH_STEP;
          if mouthAngle >= MOUTH_MAX {
            mouthAngle := MOUTH_MAX;
            mouthOpening := false;
          }
        } else {
          mouthAngle := mouthAngle - MOUTH_STEP;
          if mouthAngle <= 0.0 {
            mouthAngle := 0.0;
            mouthOpening := true;
          }
        }
        animationTimer := 0.0;
      }
    }

    /** `Player::Reset`: back to `pos` (which becomes the start position), standing still,
        with no latched direction and a shut mouth. Speed and the animation timer are kept. */
    method Reset(pos: Vec)
      modifies this
      ensures Valid()
      ensures position == pos && startPosition == pos
      ensures direction == Zero && desiredDirection == Zero
      ensures mouthAngle == 0.0 && mouthOpening
      ensures animationTimer == old(animationTimer)
    {
      position := pos;
      startPosition := pos;
      direction := Zero;
      desiredDirection := Zero;
      mouthAngle := 0.0;
      mouthOpening := true;
    }

    /** `Player::SetDirection`: only latches the direction; `Update` decides whether to
        take it. */
    method SetDirection(dir: Vec)
      modifies this`desiredDirection
      ensures desiredDirection == dir
    {
      desiredDirection := dir;
    }

    /** `Player::GetGridPosition`: the truncated cell of the position. */
    function GetGridPosition(): Cell
      reads this`position
    {
      TruncCell(position)
    }
  }
}
