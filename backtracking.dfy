/** The depth-bounded backtracking search, `Ghost::FindPathBacktracking`. Unlike the
    best-first searches its paths include the start cell. */
module Backtracking {
  import opened Geometry
  import opened MazeGrid
  import opened Pathfinding

  /** The comparator's key: how far the cell one step along `d` lies from the goal. */
  function DistanceKey(current: Cell, goal: Cell, d: Cell): nat
  {
    Heuristic(CellPlus(current, d), goal)
  }

  predicate SortedBy(ds: seq<Cell>, key: Cell -> nat)
  {
    forall i, j :: 0 <= i < j < |ds| ==> key(ds[i]) <= key(ds[j])
  }

  /** A cell no farther than everything in an ordered sequence can go in front of it. */
  lemma SortedCons(x: Cell, rest: seq<Cell>, key: Cell -> nat)
    requires SortedBy(rest, key) && forall y :: y in rest ==> key(x) <= key(y)
    ensures SortedBy([x] + rest, key)
  {
    forall i, j | 0 <= i < j < |[x] + rest|
      ensures key(([x] + rest)[i]) <= key(([x] + rest)[j])
    {
      if i == 0 {
        assert ([x] + rest)[j] == rest[j - 1];
      }
    }
  }

  /** The head of an ordered sequence is no farther than any of its elements. */
  lemma SortedHead(ds: seq<Cell>, key: Cell -> nat)
    requires SortedBy(ds, key) && ds != []
    ensures forall y :: y in ds[1..] ==> key(ds[0]) <= key(y)
  {
    forall y | y in ds[1..]
      ensures key(ds[0]) <= key(y)
    {
      var k :| 0 <= k < |ds[1..]| && ds[1..][k] == y;
      assert ds[k + 1] == y;
    }
  }

  /** Inserts `d` into a sequence already ordered by `key`. */
  function InsertBy(d: Cell, ds: seq<Cell>, key: Cell -> nat): (r: seq<Cell>)
    requires SortedBy(ds, key)
    ensures multiset(r) == multiset(ds) + multiset{d}
    ensures SortedBy(r, key)
  {
    if ds == [] then [d]
    else if key(d) <= key(ds[0]) then [d] + ds
    else
      assert ds == [ds[0]] + ds[1..];
      var rest := InsertBy(d, ds[1..], key);
      assert forall x :: x in rest ==> x in multiset(ds[1..]) + multiset{d};
      SortedHead(ds, key);
      SortedCons(ds[0], rest, key);
      [ds[0]] + rest
  }

  /** A sort by `key`: ordered and a permutation of its input. */
  function SortBy(ds: seq<Cell>, key: Cell -> nat): (r: seq<Cell>)
    ensures multiset(r) == multiset(ds)
    ensures SortedBy(r, key)
  {
    if ds == [] then []
    else
      assert ds == [ds[0]] + ds[1..];
      InsertBy(ds[0], SortBy(ds[1..], key), key)
  }

  /** The key of the i-th direction of `ds`. */
  function KeyAt(ds: seq<Cell>, i: int, current: Cell, goal: Cell): nat
    requires 0 <= i < |ds|
  {
    DistanceKey(current, goal, ds[i])
  }

  /** The `std::sort` of the directions in `BacktrackRecursive`, nearest to the goal
      first. */
  method SortByDistance(directions: seq<Cell>, current: Cell, goal: Cell) returns (sorted: seq<Cell>)
    ensures multiset(sorted) == multiset(directions)
    ensures forall i, j :: 0 <= i < j < |sorted| ==> KeyAt(sorted, i, current, goal) <= KeyAt(sorted, j, current, goal)
  {
    sorted := SortBy(directions, d => DistanceKey(current, goal, d));
  }

  /** One step along any of the four directions reaches an adjacent cell. */
  lemma DirectionAdjacent(c: Cell, d: Cell)
    requires d in DIRECTIONS
    ensures Adjacent(c, CellPlus(c, d))
  {
  }

  /** A path the backtracking search reports: it starts at `start`, ends at `goal`, moves
      between adjacent cells, repeats no cell, and every cell but the last is an open cell
      other than the goal. The goal itself is never tested for walls or bounds. Within a
      depth budget, the path has at most `budget + 1` cells unless it is the start alone. */
  predicate BacktrackPath(maze: Maze, p: seq<Cell>, start: Cell, goal: Cell, budget: int)
    reads maze.tiles
    requires maze.TilesShaped()
  {
    |p| >= 1 && p[0] == start && p[|p| - 1] == goal && (|p| == 1 || |p| <= budget + 1) &&
    (forall i :: 0 <= i < |p| - 1 ==> Passable(maze, p[i]) && p[i] != goal && Adjacent(p[i], p[i + 1])) &&
    (forall i, j :: 0 <= i < j < |p| ==> p[i] != p[j])
  }

  /** `Ghost::BacktrackRecursive`: depth-first search from `current`, extending `path`
      (a `std::vector` taken by reference) and marking cells in `visited`. Marks are
      never cleared, not even on backtracking. On failure `path` is returned unchanged; on success
      the cells appended form a `BacktrackPath`, and all but the goal were unmarked on
      entry. */
  method BacktrackRecursive(maze: Maze, current: Cell, goal: Cell, path: seq<Cell>,
                            visited: array2<bool>, depth: int, maxDepth: int)
    returns (found: bool, path': seq<Cell>)
    requires maze.TilesShaped() && visited.Length0 == WIDTH && visited.Length1 == HEIGHT
    modifies visited
    ensures forall x, y :: InBounds(x, y) && old(visited[x, y]) ==> visited[x, y]
    ensures current == goal ==> found && path' == path + [current]
    ensures !found ==> path' == path
    ensures found ==>
      |path| < |path'| && path'[..|path|] == path &&
      BacktrackPath(maze, path'[|path|..], current, goal, maxDepth - depth)
    ensures found ==> forall c :: c in path'[|path|..|path'| - 1] ==> InGrid(c) && !old(visited[c.x, c.y])
    decreases maxDepth - depth, 1
  {
    if current == goal {
      assert (path + [current])[|path|..|path|] == [];
      return true, path + [current];
    }
    if depth >= maxDepth {
      return false, path;
    }
    if current.x < 0 || current.x >= WIDTH || current.y < 0 || current.y >= HEIGHT {
      return false, path;
    }
    if visited[current.x, current.y] {
      return false, path;
    }
    if !maze.IsWalkable(current.x, current.y) {
      return false, path;
    }
    visited[current.x, current.y] := true;
    label marked:
    found, path' := TryDirections(maze, current, goal, path, visited, depth, maxDepth);
    forall c | found && c in path'[|path|..|path'| - 1]
      ensures InGrid(c) && !old(visited[c.x, c.y])
    {
      assert c == current || !old@marked(visited[c.x, c.y]);
    }
  }

  /** The rest of `BacktrackRecursive` once `current` has been marked and pushed: sort the
      four directions by the distance to the goal and try them in turn. The first
      neighbour from which the search succeeds wins; when none does, `current` is popped
      again. */
  method TryDirections(maze: Maze, current: Cell, goal: Cell, path: seq<Cell>,
                       visited: array2<bool>, depth: int, maxDepth: int)
    returns (found: bool, path': seq<Cell>)
    requires maze.TilesShaped() && visited.Length0 == WIDTH && visited.Length1 == HEIGHT
    requires Passable(maze, current) && current != goal && depth < maxDepth
    requires visited[current.x, current.y]
    modifies visited
    ensures forall x, y :: InBounds(x, y) && old(visited[x, y]) ==> visited[x, y]
    ensures !found ==> path' == path
    ensures found ==>
      |path| < |path'| && path'[..|path|] == path &&
      BacktrackPath(maze, path'[|path|..], current, goal, maxDepth - depth)
    ensures found ==> forall c :: c in path'[|path|..|path'| - 1] ==>
      InGrid(c) && (c == current || !old(visited[c.x, c.y]))
    decreases maxDepth - depth, 0
  {
    var extended := path + [current];
    var directions := SortByDistance(DIRECTIONS, current, goal);
    assert forall d :: d in directions ==> d in multiset(DIRECTIONS);
    for i := 0 to |directions|
      invariant forall x, y :: InBounds(x, y) && old(visited[x, y]) ==> visited[x, y]
    {
      var next := CellPlus(current, directions[i]);
      DirectionAdjacent(current, directions[i]);
      label before:
      var ok, result := BacktrackRecursive(maze, next, goal, extended, visited, depth + 1, maxDepth);
      if ok {
        assert current !in result[|extended|..|result| - 1];
        ExtendFound(maze, path, current, goal, result, maxDepth - depth);
        assert result[|path|..|result| - 1] == [current] + result[|extended|..|result| - 1];
        return true, result;
      }
    }
    return false, path;
  }

  /** The success case of `BacktrackRecursive`: the path found from a neighbour, behind
      `current`, is a path from `current`. */
  lemma ExtendFound(maze: Maze, path: seq<Cell>, current: Cell, goal: Cell, result: seq<Cell>, budget: int)
    requires maze.TilesShaped() && Passable(maze, current) && current != goal && 1 <= budget
    requires |path| + 1 < |result| && result[..|path| + 1] == path + [current]
    requires BacktrackPath(maze, result[|path| + 1..], result[|path| + 1], goal, budget - 1)
    requires Adjacent(current, result[|path| + 1])
    requires current !in result[|path| + 1..|result| - 1]
    ensures |path| < |result| && result[..|path|] == path
    ensures BacktrackPath(maze, result[|path|..], current, goal, budget)
  {
    var tail := result[|path| + 1..];
    assert result[|path|..] == [current] + tail;
    assert result[..|path|] == (path + [current])[..|path|];
  }

  /** `Ghost::FindPathBacktracking`: a fresh all-false `visited` grid and an empty path.
      A non-empty result is a `BacktrackPath` of at most `maxDepth + 1` cells. */
  method FindPathBacktracking(maze: Maze, start: Cell, goal: Cell, maxDepth: int) returns (path: seq<Cell>)
    requires maze.TilesShaped()
    ensures path == [] || BacktrackPath(maze, path, start, goal, maxDepth)
    ensures start == goal ==> path == [start]
  {
    var visited := new bool[WIDTH, HEIGHT]((x, y) => false);
    var found, p := BacktrackRecursive(maze, start, goal, [], visited, 0, maxDepth);
    if found {
      WholePath(maze, p, start, goal, maxDepth);
      path := p;
    } else {
      path := [];
    }
  }

  /** Behind an empty path, the cells a successful search appends are the whole path. */
  lemma WholePath(maze: Maze, p: seq<Cell>, start: Cell, goal: Cell, budget: int)
    requires maze.TilesShaped() && BacktrackPath(maze, p[0..], start, goal, budget)
    ensures BacktrackPath(maze, p, start, goal, budget)
  {
    assert p[0..] == p;
  }
}
