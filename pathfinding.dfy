/** The 4-connected grid graph the ghosts search: neighbours, the Manhattan heuristic, walks
    and shortest walks. */
module Pathfinding {
  import opened Geometry
  import opened MazeGrid

  /** The four unit steps in the order `Ghost::GetNeighbors` tries them: up, down, left, right. */
  const DIRECTIONS: seq<Cell> := [Cell(0, -1), Cell(0, 1), Cell(-1, 0), Cell(1, 0)]

  function Abs(n: int): (r: nat)
    ensures r == n || r == -n
  {
    if n < 0 then -n else n
  }

  /** Manhattan distance between two cells. */
  function Heuristic(a: Cell, b: Cell): (r: nat)
    ensures r == 0 <==> a == b
  {
    Abs(a.x - b.x) + Abs(a.y - b.y)
  }

  /** The Manhattan distance is symmetric. */
  lemma HeuristicSymmetric(a: Cell, b: Cell)
    ensures Heuristic(a, b) == Heuristic(b, a)
  {
  }

  /** Two cells one unit step apart. */
  predicate Adjacent(a: Cell, b: Cell)
  {
    Heuristic(a, b) == 1
  }

  /** The cells a search may enter: inside the grid and not a wall. */
  ghost function OpenCells(maze: Maze): (open: set<Cell>)
    reads maze.tiles
    requires maze.TilesShaped()
    ensures forall c :: c in open <==> Passable(maze, c)
  {
    set c | c in GridCells() && Passable(maze, c)
  }

  /** One move of a walk over the open cells: to an adjacent open cell. */
  predicate Step(open: set<Cell>, from: Cell, to: Cell)
  {
    Adjacent(from, to) && to in open
  }

  /** The passable cells among `pos + DIRECTIONS[k..]`, in direction order. */
  function NeighborsFrom(maze: Maze, pos: Cell, k: nat): (ns: seq<Cell>)
    reads maze.tiles
    requires maze.TilesShaped() && k <= |DIRECTIONS|
    decreases |DIRECTIONS| - k
  {
    if k == |DIRECTIONS| then []
    else
      var n := CellPlus(pos, DIRECTIONS[k]);
      (if Passable(maze, n) then [n] else []) + NeighborsFrom(maze, pos, k + 1)
  }

  /** The neighbours of `pos`, in the order up, down, left, right. */
  function Neighbors(maze: Maze, pos: Cell): seq<Cell>
    reads maze.tiles
    requires maze.TilesShaped()
  {
    NeighborsFrom(maze, pos, 0)
  }

  /** The cells in `NeighborsFrom(maze, pos, k)` are exactly the passable cells one of the
      remaining directions away, and none repeats. */
  lemma {:induction false} NeighborsFromSpec(maze: Maze, pos: Cell, k: nat)
    requires maze.TilesShaped() && k <= |DIRECTIONS|
    ensures forall n :: n in NeighborsFrom(maze, pos, k) <==>
      Passable(maze, n) && exists j :: k <= j < |DIRECTIONS| && n == CellPlus(pos, DIRECTIONS[j])
    ensures forall i, j :: 0 <= i < j < |NeighborsFrom(maze, pos, k)| ==>
      NeighborsFrom(maze, pos, k)[i] != NeighborsFrom(maze, pos, k)[j]
    decreases |DIRECTIONS| - k
  {
    if k < |DIRECTIONS| {
      NeighborsFromSpec(maze, pos, k + 1);
      var n := CellPlus(pos, DIRECTIONS[k]);
      var rest := NeighborsFrom(maze, pos, k + 1);
      assert n !in rest;
      forall m | m in NeighborsFrom(maze, pos, k)
        ensures Passable(maze, m) && exists j :: k <= j < |DIRECTIONS| && m == CellPlus(pos, DIRECTIONS[j])
      {
        if m !in rest {
          assert m == n;
        }
      }
    }
  }

  /** The neighbours of `pos` are exactly the cells a single step reaches, without repeats. */
  lemma NeighborsSpec(maze: Maze, pos: Cell)
    requires maze.TilesShaped()
    ensures forall n :: n in Neighbors(maze, pos) <==> Step(OpenCells(maze), pos, n)
    ensures forall i, j :: 0 <= i < j < |Neighbors(maze, pos)| ==> Neighbors(maze, pos)[i] != Neighbors(maze, pos)[j]
    ensures |Neighbors(maze, pos)| <= 4
  {
    NeighborsFromSpec(maze, pos, 0);
    forall n ensures n in Neighbors(maze, pos) <==> Step(OpenCells(maze), pos, n) {
      if Step(OpenCells(maze), pos, n) {
        var d := Cell(n.x - pos.x, n.y - pos.y);
        assert n == CellPlus(pos, d);
        assert d == DIRECTIONS[0] || d == DIRECTIONS[1] || d == DIRECTIONS[2] || d == DIRECTIONS[3];
      }
    }
    NeighborsLength(maze, pos, 0);
  }

  lemma {:induction false} NeighborsLength(maze: Maze, pos: Cell, k: nat)
    requires maze.TilesShaped() && k <= |DIRECTIONS|
    ensures |NeighborsFrom(maze, pos, k)| <= |DIRECTIONS| - k
    decreases |DIRECTIONS| - k
  {
    if k < |DIRECTIONS| {
      NeighborsLength(maze, pos, k + 1);
    }
  }

  /** Collects the in-bounds walkable cells one step from `pos`, trying the four directions
      in order. */
  method GetNeighbors(maze: Maze, pos: Cell) returns (neighbors: seq<Cell>)
    requires maze.TilesShaped()
    ensures neighbors == Neighbors(maze, pos)
    ensures forall n :: n in neighbors <==> Step(OpenCells(maze), pos, n)
  {
    neighbors := [];
    var k := 0;
    while k < |DIRECTIONS|
      invariant 0 <= k <= |DIRECTIONS|
      invariant neighbors + NeighborsFrom(maze, pos, k) == Neighbors(maze, pos)
    {
      var neighbor := CellPlus(pos, DIRECTIONS[k]);
      ghost var rest := NeighborsFrom(maze, pos, k + 1);
      if neighbor.x >= 0 && neighbor.x < WIDTH && neighbor.y >= 0 && neighbor.y < HEIGHT &&
         maze.IsWalkable(neighbor.x, neighbor.y)
      {
        assert NeighborsFrom(maze, pos, k) == [neighbor] + rest;
        assert (neighbors + [neighbor]) + rest == neighbors + ([neighbor] + rest);
        neighbors := neighbors + [neighbor];
      } else {
        assert NeighborsFrom(maze, pos, k) == rest;
      }
      k := k + 1;
    }
    NeighborsSpec(maze, pos);
  }

  /** The Manhattan distance changes by exactly one across a step. */
  lemma HeuristicStep(a: Cell, b: Cell, g: Cell)
    requires Adjacent(a, b)
    ensures Heuristic(a, g) <= Heuristic(b, g) + 1 && Heuristic(b, g) <= Heuristic(a, g) + 1
  {
  }

  /** A walk from `from`: each cell is a step from the one before it (the first from `from`).
      The start itself is not part of the walk. */
  ghost predicate IsWalk(open: set<Cell>, from: Cell, w: seq<Cell>)
  {
    forall i :: 0 <= i < |w| ==> Step(open, Before(from, w, i), w[i])
  }

  /** The cell a walk from `from` occupies just before its i-th cell. */
  function Before(from: Cell, w: seq<Cell>, i: int): Cell
    requires 0 <= i <= |w|
  {
    if i == 0 then from else w[i - 1]
  }

  /** Where a walk from `from` ends. */
  function WalkEnd(from: Cell, w: seq<Cell>): Cell
  {
    if w == [] then from else w[|w| - 1]
  }

  /** Some walk leads from `from` to `to`. */
  ghost predicate Reachable(open: set<Cell>, from: Cell, to: Cell)
  {
    exists w :: IsWalk(open, from, w) && WalkEnd(from, w) == to
  }

  /** `p` is a walk from `from` to `to` and no such walk is shorter. */
  ghost predicate ShortestPath(open: set<Cell>, from: Cell, to: Cell, p: seq<Cell>)
  {
    IsWalk(open, from, p) && WalkEnd(from, p) == to &&
    forall w :: IsWalk(open, from, w) && WalkEnd(from, w) == to ==> |p| <= |w|
  }

  /** Dropping the last cell of a walk leaves a walk. */
  lemma WalkPrefix(open: set<Cell>, from: Cell, w: seq<Cell>, k: nat)
    requires IsWalk(open, from, w) && k <= |w|
    ensures IsWalk(open, from, w[..k])
  {
    forall i | 0 <= i < k
      ensures Step(open, Before(from, w[..k], i), w[..k][i])
    {
      assert w[..k][i] == w[i];
      if i > 0 { assert w[..k][i - 1] == w[i - 1]; }
    }
  }

  /** The part of a walk after its k-th cell is a walk from that cell. */
  lemma WalkSuffix(open: set<Cell>, from: Cell, w: seq<Cell>, k: nat)
    requires IsWalk(open, from, w) && k < |w|
    ensures IsWalk(open, w[k], w[k + 1..])
    ensures WalkEnd(w[k], w[k + 1..]) == WalkEnd(from, w)
  {
    var s := w[k + 1..];
    forall i | 0 <= i < |s|
      ensures Step(open, Before(w[k], s, i), s[i])
    {
      assert s[i] == w[k + 1 + i];
      assert Before(w[k], s, i) == w[k + i];
      assert Step(open, Before(from, w, k + 1 + i), w[k + 1 + i]);
    }
  }

  /** A step in front of a walk gives a walk. */
  lemma WalkCons(open: set<Cell>, from: Cell, c: Cell, w: seq<Cell>)
    requires Step(open, from, c) && IsWalk(open, c, w)
    ensures IsWalk(open, from, [c] + w)
    ensures WalkEnd(from, [c] + w) == WalkEnd(c, w)
  {
    var cw := [c] + w;
    forall i | 0 <= i < |cw|
      ensures Step(open, Before(from, cw, i), cw[i])
    {
      if i > 0 {
        assert cw[i] == w[i - 1];
        assert Step(open, Before(c, w, i - 1), w[i - 1]);
      }
    }
  }

  /** The Manhattan distance never exceeds the length of a walk: the heuristic is admissible. */
  lemma {:induction false} HeuristicAdmissible(open: set<Cell>, from: Cell, w: seq<Cell>, goal: Cell)
    requires IsWalk(open, from, w)
    ensures Heuristic(from, goal) <= |w| + Heuristic(WalkEnd(from, w), goal)
    decreases |w|
  {
    if w != [] {
      var k := |w| - 1;
      WalkPrefix(open, from, w, k);
      HeuristicAdmissible(open, from, w[..k], goal);
      var prev := WalkEnd(from, w[..k]);
      assert Step(open, prev, w[k]);
      HeuristicStep(prev, w[k], goal);
    }
  }

  /** Manhattan distance is a lower bound on the length of every walk between two cells. */
  lemma HeuristicLowerBound(open: set<Cell>, from: Cell, to: Cell, w: seq<Cell>)
    requires IsWalk(open, from, w) && WalkEnd(from, w) == to
    ensures Heuristic(from, to) <= |w|
  {
    HeuristicAdmissible(open, from, w, to);
  }

  /** Every cell of a walk over a maze's open cells is inside the grid and not a wall, and
      each is adjacent to the one before it. */
  lemma WalkCellsOpen(maze: Maze, from: Cell, w: seq<Cell>, i: int)
    requires maze.TilesShaped() && IsWalk(OpenCells(maze), from, w) && 0 <= i < |w|
    ensures InGrid(w[i]) && maze.tiles[w[i].x, w[i].y] != WALL
    ensures Adjacent(Before(from, w, i), w[i])
  {
    assert Step(OpenCells(maze), Before(from, w, i), w[i]);
  }

  /** A shortest walk never comes back to its start. */
  lemma ShortestPathAvoidsStart(open: set<Cell>, from: Cell, to: Cell, p: seq<Cell>)
    requires ShortestPath(open, from, to, p)
    ensures from !in p
  {
    if from in p {
      var k :| 0 <= k < |p| && p[k] == from;
      WalkSuffix(open, from, p, k);
      assert false;
    }
  }

  /** A walk that visits a cell twice can skip the loop between the two visits. */
  lemma WalkShortcut(open: set<Cell>, from: Cell, p: seq<Cell>, i: int, j: int)
    requires IsWalk(open, from, p) && 0 <= i < j < |p| && p[i] == p[j]
    ensures IsWalk(open, from, p[..i + 1] + p[j + 1..])
    ensures WalkEnd(from, p[..i + 1] + p[j + 1..]) == WalkEnd(from, p)
    ensures |p[..i + 1] + p[j + 1..]| < |p|
  {
    WalkPrefix(open, from, p, i + 1);
    WalkSuffix(open, from, p, j);
    assert WalkEnd(from, p[..i + 1]) == p[i];
    WalkJoin(open, from, p[..i + 1], p[j + 1..]);
  }

  /** A shortest walk never repeats a cell. */
  lemma ShortestPathSimple(open: set<Cell>, from: Cell, to: Cell, p: seq<Cell>)
    requires ShortestPath(open, from, to, p)
    ensures forall i, j :: 0 <= i < j < |p| ==> p[i] != p[j]
  {
    forall i, j | 0 <= i < j < |p| ensures p[i] != p[j] {
      if p[i] == p[j] {
        WalkShortcut(open, from, p, i, j);
        assert false;
      }
    }
  }

  /** A walk to `c` followed by a walk from `c` is a walk. */
  lemma WalkJoin(open: set<Cell>, from: Cell, u: seq<Cell>, v: seq<Cell>)
    requires IsWalk(open, from, u) && IsWalk(open, WalkEnd(from, u), v)
    ensures IsWalk(open, from, u + v)
    ensures WalkEnd(from, u + v) == WalkEnd(WalkEnd(from, u), v)
  {
    var uv := u + v;
    forall i | 0 <= i < |uv|
      ensures Step(open, Before(from, uv, i), uv[i])
    {
      if i < |u| {
        assert uv[i] == u[i];
        if i > 0 { assert uv[i - 1] == u[i - 1]; }
      } else {
        var j := i - |u|;
        assert uv[i] == v[j];
        assert Step(open, Before(WalkEnd(from, u), v, j), v[j]);
        if j > 0 { assert uv[i - 1] == v[j - 1]; }
      }
    }
  }

  /** Shortest walks between the same cells have the same length, so the two searches return
      paths of equal length on the same query. */
  lemma ShortestPathsAgree(open: set<Cell>, from: Cell, to: Cell, p: seq<Cell>, q: seq<Cell>)
    requires ShortestPath(open, from, to, p) && ShortestPath(open, from, to, q)
    ensures |p| == |q|
  {
  }
}
