/** Uniform-cost search (Dijkstra) and A* over the open cells of the maze. The two differ
    only in the heuristic carried by each queue entry, so they share one best-first search
    whose `useHeuristic` switch selects the Manhattan heuristic or zero. */
module PathSearch {
  import opened Geometry
  import opened MazeGrid
  import opened Pathfinding

  /** A priority-queue entry: a cell, the cost of reaching it, its heuristic estimate and the
      cell it was reached from. */
  datatype PathNode = PathNode(position: Cell, cost: int, heuristic: int, parent: Cell)
  {
    /** The priority: cost plus heuristic. */
    function GetTotal(): int { cost + heuristic }
  }

  /** `a > b` for the queue's ordering: totals only, with no tie-breaker. */
  predicate Greater(a: PathNode, b: PathNode)
  {
    a.GetTotal() > b.GetTotal()
  }

  /** The heuristic an entry for `pos` carries: Manhattan distance to the goal for A*, zero for
      Dijkstra. */
  function H(useHeuristic: bool, pos: Cell, goal: Cell): (h: nat)
    ensures !useHeuristic ==> h == 0
    ensures h <= Heuristic(pos, goal)
    ensures pos == goal ==> h == 0
  {
    if useHeuristic then Heuristic(pos, goal) else 0
  }

  /** Either heuristic is consistent: it drops by at most one across a step. */
  lemma HConsistent(useHeuristic: bool, a: Cell, b: Cell, goal: Cell)
    requires Adjacent(a, b)
    ensures H(useHeuristic, a, goal) <= H(useHeuristic, b, goal) + 1
  {
    HeuristicStep(a, b, goal);
  }

  /** The position of an entry no other entry is `Greater` than: the queue's top. */
  method MinIndex(queue: seq<PathNode>) returns (top: nat)
    requires |queue| > 0
    ensures top < |queue|
    ensures forall j :: 0 <= j < |queue| ==> !Greater(queue[top], queue[j])
  {
    top := 0;
    var k := 1;
    while k < |queue|
      invariant 1 <= k <= |queue| && top < k
      invariant forall j :: 0 <= j < k ==> queue[top].GetTotal() <= queue[j].GetTotal()
    {
      if Greater(queue[top], queue[k]) {
        top := k;
      }
      k := k + 1;
    }
  }

  /** Relaxing the neighbour `n` of a cell of cost `c` improves it: `n` has no cost yet, or a
      higher one than `c + 1`. */
  predicate Improves(c: int, cost: map<Cell, int>, n: Cell)
  {
    n !in cost || c + 1 < cost[n]
  }

  /** The effect of relaxing every cell of `ns` from `u` on the costs and parents: improved
      neighbours get cost `cost[u] + 1` and parent `u`; nothing else changes. */
  ghost predicate RelaxedMaps(ns: seq<Cell>, u: Cell, cost: map<Cell, int>, came: map<Cell, Cell>,
                              cost2: map<Cell, int>, came2: map<Cell, Cell>)
    requires u in cost && came.Keys == cost.Keys
  {
    var c := cost[u];
    (forall v :: v in cost2 <==> v in cost || v in ns) &&
    came2.Keys == cost2.Keys &&
    (forall v :: v in cost2 ==>
      cost2[v] == (if v in ns && Improves(c, cost, v) then c + 1 else cost[v]) &&
      came2[v] == (if v in ns && Improves(c, cost, v) then u else came[v]))
  }

  /** The entries pushed while relaxing `ns` from `u`, of cost `c`: one per improved
      neighbour, in order. */
  function Pushes(ns: seq<Cell>, u: Cell, c: int, cost: map<Cell, int>, goal: Cell, useHeuristic: bool): seq<PathNode>
  {
    if ns == [] then []
    else
      var n := ns[|ns| - 1];
      Pushes(ns[..|ns| - 1], u, c, cost, goal, useHeuristic) +
      (if Improves(c, cost, n) then [PathNode(n, c + 1, H(useHeuristic, n, goal), u)] else [])
  }

  /** The pushed entries are exactly the improved neighbours, each with cost `c + 1`, its
      heuristic and parent `u`. */
  lemma {:induction false} PushesMembers(ns: seq<Cell>, u: Cell, c: int, cost: map<Cell, int>, goal: Cell, useHeuristic: bool)
    ensures forall e :: e in Pushes(ns, u, c, cost, goal, useHeuristic) <==>
      e.position in ns && Improves(c, cost, e.position) && e == PathNode(e.position, c + 1, H(useHeuristic, e.position, goal), u)
  {
    if ns != [] {
      var ns' := ns[..|ns| - 1];
      PushesMembers(ns', u, c, cost, goal, useHeuristic);
      assert ns == ns' + [ns[|ns| - 1]];
    }
  }

  /** Relaxing one more neighbour pushes at most one more entry. */
  lemma PushesSnoc(ns: seq<Cell>, n: Cell, u: Cell, c: int, cost: map<Cell, int>, goal: Cell, useHeuristic: bool)
    ensures Pushes(ns + [n], u, c, cost, goal, useHeuristic) == Pushes(ns, u, c, cost, goal, useHeuristic) +
      (if Improves(c, cost, n) then [PathNode(n, c + 1, H(useHeuristic, n, goal), u)] else [])
  {
    assert (ns + [n])[..|ns|] == ns;
  }

  /** Nothing is pushed when no neighbour is improved. */
  lemma {:induction false} NothingPushed(ns: seq<Cell>, u: Cell, c: int, cost: map<Cell, int>, goal: Cell, useHeuristic: bool)
    requires forall n :: n in ns ==> !Improves(c, cost, n)
    ensures Pushes(ns, u, c, cost, goal, useHeuristic) == []
  {
    if ns != [] {
      NothingPushed(ns[..|ns| - 1], u, c, cost, goal, useHeuristic);
    }
  }

  /** The effect on the queue: the pushed entries are appended. */
  ghost predicate RelaxedQueue(ns: seq<Cell>, u: Cell, goal: Cell, useHeuristic: bool,
                               cost: map<Cell, int>, queue: seq<PathNode>, queue2: seq<PathNode>)
    requires u in cost
  {
    queue2 == queue + Pushes(ns, u, cost[u], cost, goal, useHeuristic)
  }

  /** The effect of relaxing every cell of `ns` from `u`. */
  ghost predicate Relaxed(ns: seq<Cell>, u: Cell, goal: Cell, useHeuristic: bool,
                          cost: map<Cell, int>, came: map<Cell, Cell>, queue: seq<PathNode>,
                          cost2: map<Cell, int>, came2: map<Cell, Cell>, queue2: seq<PathNode>)
    requires u in cost && came.Keys == cost.Keys
  {
    RelaxedMaps(ns, u, cost, came, cost2, came2) &&
    RelaxedQueue(ns, u, goal, useHeuristic, cost, queue, queue2)
  }

  /** One step of the relaxation loop on the maps, when `n` is improved. */
  lemma RelaxMapsImproved(ns: seq<Cell>, n: Cell, u: Cell, cost: map<Cell, int>, came: map<Cell, Cell>,
                          cost2: map<Cell, int>, came2: map<Cell, Cell>)
    requires u in cost && came.Keys == cost.Keys && u != n && u !in ns && n !in ns
    requires RelaxedMaps(ns, u, cost, came, cost2, came2)
    requires n !in cost2 || cost2[u] + 1 < cost2[n]
    ensures cost2[u] == cost[u] && Improves(cost[u], cost, n)
    ensures RelaxedMaps(ns + [n], u, cost, came, cost2[n := cost2[u] + 1], came2[n := u])
  {
    var c := cost[u];
    var ns', c2, k2 := ns + [n], cost2[n := c + 1], came2[n := u];
    assert forall v :: v in ns' <==> v in ns || v == n;
    forall v | v in c2
      ensures c2[v] == (if v in ns' && Improves(c, cost, v) then c + 1 else cost[v])
      ensures k2[v] == (if v in ns' && Improves(c, cost, v) then u else came[v])
    {
    }
  }

  /** One step of the relaxation loop on the maps, when `n` is not improved. */
  lemma RelaxMapsKept(ns: seq<Cell>, n: Cell, u: Cell, cost: map<Cell, int>, came: map<Cell, Cell>,
                      cost2: map<Cell, int>, came2: map<Cell, Cell>)
    requires u in cost && came.Keys == cost.Keys && u != n && u !in ns && n !in ns
    requires RelaxedMaps(ns, u, cost, came, cost2, came2)
    requires !(n !in cost2 || cost2[u] + 1 < cost2[n])
    ensures !Improves(cost[u], cost, n)
    ensures RelaxedMaps(ns + [n], u, cost, came, cost2, came2)
  {
    var c := cost[u];
    var ns' := ns + [n];
    forall v | v in cost2
      ensures cost2[v] == (if v in ns' && Improves(c, cost, v) then c + 1 else cost[v])
      ensures came2[v] == (if v in ns' && Improves(c, cost, v) then u else came[v])
    {
      if v != n {
        assert v in ns' <==> v in ns;
      }
    }
  }

  /** One step of the relaxation loop over `ns[k]`, in either case. */
  lemma RelaxStep(ns: seq<Cell>, k: int, u: Cell, goal: Cell, useHeuristic: bool,
                  cost: map<Cell, int>, came: map<Cell, Cell>, queue: seq<PathNode>,
                  cost2: map<Cell, int>, came2: map<Cell, Cell>, queue2: seq<PathNode>)
    requires u in cost && came.Keys == cost.Keys && u !in ns
    requires 0 <= k < |ns| && ns[k] !in ns[..k]
    requires Relaxed(ns[..k], u, goal, useHeuristic, cost, came, queue, cost2, came2, queue2)
    ensures cost2[u] == cost[u]
    ensures var n := ns[k];
      if n !in cost2 || cost2[u] + 1 < cost2[n] then
        Relaxed(ns[..k + 1], u, goal, useHeuristic, cost, came, queue,
                cost2[n := cost2[u] + 1], came2[n := u], queue2 + [PathNode(n, cost2[u] + 1, H(useHeuristic, n, goal), u)])
      else
        Relaxed(ns[..k + 1], u, goal, useHeuristic, cost, came, queue, cost2, came2, queue2)
  {
    var n := ns[k];
    assert ns[..k + 1] == ns[..k] + [n];
    PushesSnoc(ns[..k], n, u, cost[u], cost, goal, useHeuristic);
    if n !in cost2 || cost2[u] + 1 < cost2[n] {
      RelaxMapsImproved(ns[..k], n, u, cost, came, cost2, came2);
    } else {
      RelaxMapsKept(ns[..k], n, u, cost, came, cost2, came2);
    }
  }

  /** The loop over the neighbours of the popped cell `u`: each one that `u` reaches more
      cheaply gets the new cost and parent and is pushed on the queue. */
  method RelaxNeighbors(ns: seq<Cell>, u: Cell, goal: Cell, useHeuristic: bool,
                        costSoFar: map<Cell, int>, cameFrom: map<Cell, Cell>, openSet: seq<PathNode>)
    returns (cost2: map<Cell, int>, came2: map<Cell, Cell>, queue2: seq<PathNode>)
    requires u in costSoFar && cameFrom.Keys == costSoFar.Keys && u !in ns
    requires forall i, j :: 0 <= i < j < |ns| ==> ns[i] != ns[j]
    ensures Relaxed(ns, u, goal, useHeuristic, costSoFar, cameFrom, openSet, cost2, came2, queue2)
  {
    cost2, came2, queue2 := costSoFar, cameFrom, openSet;
    for k := 0 to |ns|
      invariant Relaxed(ns[..k], u, goal, useHeuristic, costSoFar, cameFrom, openSet, cost2, came2, queue2)
    {
      var neighbor := ns[k];
      RelaxStep(ns, k, u, goal, useHeuristic, costSoFar, cameFrom, openSet, cost2, came2, queue2);
      var newCost := cost2[u] + 1;
      if neighbor !in cost2 || newCost < cost2[neighbor] {
        cost2 := cost2[neighbor := newCost];
        came2 := came2[neighbor := u];
        queue2 := queue2 + [PathNode(neighbor, newCost, H(useHeuristic, neighbor, goal), u)];
      }
    }
    assert ns[..|ns|] == ns;
  }

  // ---------------------------------------------------------------------------------------
  // The search invariant. `closed` holds the cells popped so far with their final cost; it
  // is proof bookkeeping only, the search itself keeps no closed set.

  /** The parent links form a tree of steps rooted at `start`, every parent is closed, and
      each cost is one more than the parent's. */
  ghost predicate ParentTree(open: set<Cell>, start: Cell, cost: map<Cell, int>, came: map<Cell, Cell>,
                             closed: set<Cell>)
  {
    start in cost && cost[start] == 0 && came.Keys == cost.Keys && came[start] == start &&
    closed <= cost.Keys &&
    (forall v :: v in cost ==> 0 <= cost[v] && (v == start || v in open)) &&
    (forall v :: v in cost && v != start ==>
      came[v] in closed && Step(open, came[v], v) && cost[v] == cost[came[v]] + 1)
  }

  /** Every queue entry over-approximates its cell's cost, and every cell not yet closed has
      an entry holding exactly its cost and parent. */
  ghost predicate Frontier(goal: Cell, useHeuristic: bool, cost: map<Cell, int>, came: map<Cell, Cell>,
                           queue: seq<PathNode>, closed: set<Cell>)
    requires came.Keys == cost.Keys
  {
    (forall e :: e in queue ==>
      e.position in cost && cost[e.position] <= e.cost && e.heuristic == H(useHeuristic, e.position, goal)) &&
    (forall v :: v in cost && v !in closed ==> PathNode(v, cost[v], H(useHeuristic, v, goal), came[v]) in queue)
  }

  /** Every neighbour of a closed cell has been relaxed from it. */
  ghost predicate ClosedRelaxed(open: set<Cell>, cost: map<Cell, int>, closed: set<Cell>)
    requires closed <= cost.Keys
  {
    forall v, n :: v in closed && Step(open, v, n) ==> n in cost && cost[n] <= cost[v] + 1
  }

  /** The goal is not closed, the neighbours of closed cells have been relaxed, and no
      queue entry has a smaller total than a closed cell. */
  ghost predicate Settled(open: set<Cell>, goal: Cell, useHeuristic: bool, cost: map<Cell, int>,
                          queue: seq<PathNode>, closed: set<Cell>)
    requires closed <= cost.Keys
  {
    goal !in closed &&
    ClosedRelaxed(open, cost, closed) &&
    (forall v, e :: v in closed && e in queue ==> cost[v] + H(useHeuristic, v, goal) <= e.GetTotal())
  }

  ghost predicate SearchInv(open: set<Cell>, start: Cell, goal: Cell, useHeuristic: bool,
                            cost: map<Cell, int>, came: map<Cell, Cell>, queue: seq<PathNode>,
                            closed: set<Cell>)
  {
    ParentTree(open, start, cost, came, closed) &&
    Frontier(goal, useHeuristic, cost, came, queue, closed) &&
    Settled(open, goal, useHeuristic, cost, queue, closed)
  }

  /** The state after pushing the start node. */
  lemma SearchInvInit(open: set<Cell>, start: Cell, goal: Cell, useHeuristic: bool)
    ensures SearchInv(open, start, goal, useHeuristic, map[start := 0], map[start := start],
                      [PathNode(start, 0, H(useHeuristic, start, goal), start)], {})
  {
  }

  /** A cell that is not closed has a queue entry, so its cost plus heuristic bounds every
      lower bound `k` of the queue totals. */
  lemma OpenCellBound(goal: Cell, useHeuristic: bool, cost: map<Cell, int>, came: map<Cell, Cell>,
                      queue: seq<PathNode>, closed: set<Cell>, k: int, v: Cell)
    requires came.Keys == cost.Keys && Frontier(goal, useHeuristic, cost, came, queue, closed)
    requires forall e :: e in queue ==> k <= e.GetTotal()
    requires v in cost && v !in closed
    ensures k <= cost[v] + H(useHeuristic, v, goal)
  {
    assert PathNode(v, cost[v], H(useHeuristic, v, goal), came[v]) in queue;
  }

  /** Every walk from the start either ends in a closed cell no farther than the walk's
      length, or is at least as long as `k` minus the heuristic at its end, where `k` is at
      most every queue total. */
  lemma {:induction false} FrontierBound(open: set<Cell>, start: Cell, goal: Cell, useHeuristic: bool,
                                         cost: map<Cell, int>, came: map<Cell, Cell>, queue: seq<PathNode>,
                                         closed: set<Cell>, k: int, w: seq<Cell>)
    requires SearchInv(open, start, goal, useHeuristic, cost, came, queue, closed)
    requires forall e :: e in queue ==> k <= e.GetTotal()
    requires IsWalk(open, start, w)
    ensures (WalkEnd(start, w) in closed && cost[WalkEnd(start, w)] <= |w|) ||
            k <= |w| + H(useHeuristic, WalkEnd(start, w), goal)
    decreases |w|
  {
    forall v | v in cost && v !in closed
      ensures k <= cost[v] + H(useHeuristic, v, goal)
    {
      OpenCellBound(goal, useHeuristic, cost, came, queue, closed, k, v);
    }
    FrontierBoundFrom(open, start, goal, useHeuristic, cost, closed, k, w);
  }

  /** `FrontierBound` from the parts of the invariant it uses. */
  lemma {:induction false} FrontierBoundFrom(open: set<Cell>, start: Cell, goal: Cell, useHeuristic: bool,
                                             cost: map<Cell, int>, closed: set<Cell>, k: int, w: seq<Cell>)
    requires start in cost && cost[start] == 0 && closed <= cost.Keys && ClosedRelaxed(open, cost, closed)
    requires forall v :: v in cost && v !in closed ==> k <= cost[v] + H(useHeuristic, v, goal)
    requires IsWalk(open, start, w)
    ensures (WalkEnd(start, w) in closed && cost[WalkEnd(start, w)] <= |w|) ||
            k <= |w| + H(useHeuristic, WalkEnd(start, w), goal)
    decreases |w|
  {
    if w != [] {
      var m := |w| - 1;
      WalkPrefix(open, start, w, m);
      FrontierBoundFrom(open, start, goal, useHeuristic, cost, closed, k, w[..m]);
      var p, v := WalkEnd(start, w[..m]), WalkEnd(start, w);
      assert Step(open, Before(start, w, m), w[m]);
      assert Step(open, p, v);
      HConsistent(useHeuristic, p, v, goal);
    }
  }

  /** A popped entry with the minimal total for a cell that is not closed carries that
      cell's exact cost. */
  lemma PoppedExact(open: set<Cell>, start: Cell, goal: Cell, useHeuristic: bool,
                    cost: map<Cell, int>, came: map<Cell, Cell>, queue: seq<PathNode>,
                    closed: set<Cell>, top: int)
    requires SearchInv(open, start, goal, useHeuristic, cost, came, queue, closed)
    requires 0 <= top < |queue| && forall j :: 0 <= j < |queue| ==> !Greater(queue[top], queue[j])
    requires queue[top].position !in closed
    ensures queue[top].cost == cost[queue[top].position]
  {
    var u := queue[top].position;
    var x := PathNode(u, cost[u], H(useHeuristic, u, goal), came[u]);
    assert x in queue;
    var j :| 0 <= j < |queue| && queue[j] == x;
    assert !Greater(queue[top], queue[j]);
  }

  /** When the goal is popped before it is closed, its cost is the length of a shortest
      walk to it. */
  lemma GoalCostOptimal(open: set<Cell>, start: Cell, goal: Cell, useHeuristic: bool,
                        cost: map<Cell, int>, came: map<Cell, Cell>, queue: seq<PathNode>,
                        closed: set<Cell>, top: int, w: seq<Cell>)
    requires SearchInv(open, start, goal, useHeuristic, cost, came, queue, closed)
    requires 0 <= top < |queue| && forall j :: 0 <= j < |queue| ==> !Greater(queue[top], queue[j])
    requires queue[top].position == goal
    requires IsWalk(open, start, w) && WalkEnd(start, w) == goal
    ensures cost[goal] <= |w|
  {
    PoppedExact(open, start, goal, useHeuristic, cost, came, queue, closed, top);
    var k := queue[top].GetTotal();
    forall e | e in queue
      ensures k <= e.GetTotal()
    {
      var j :| 0 <= j < |queue| && queue[j] == e;
      assert !Greater(queue[top], queue[j]);
    }
    FrontierBound(open, start, goal, useHeuristic, cost, came, queue, closed, k, w);
  }

  /** The walk rebuilt when the goal is popped is a shortest one, and empty exactly when the
      start is the goal. */
  lemma GoalPathShortest(open: set<Cell>, start: Cell, goal: Cell, useHeuristic: bool,
                         cost: map<Cell, int>, came: map<Cell, Cell>, queue: seq<PathNode>,
                         closed: set<Cell>, top: int, path: seq<Cell>)
    requires SearchInv(open, start, goal, useHeuristic, cost, came, queue, closed)
    requires 0 <= top < |queue| && forall j :: 0 <= j < |queue| ==> !Greater(queue[top], queue[j])
    requires queue[top].position == goal
    requires IsWalk(open, start, path) && WalkEnd(start, path) == goal && |path| == cost[goal]
    ensures Reachable(open, start, goal) && ShortestPath(open, start, goal, path)
    ensures path == [] <==> start == goal
  {
    forall w | IsWalk(open, start, w) && WalkEnd(start, w) == goal
      ensures |path| <= |w|
    {
      GoalCostOptimal(open, start, goal, useHeuristic, cost, came, queue, closed, top, w);
    }
  }

  /** Every walk from the start stays among the closed cells once the queue is empty. */
  lemma {:induction false} ExhaustedWalk(open: set<Cell>, start: Cell, goal: Cell, useHeuristic: bool,
                                         cost: map<Cell, int>, came: map<Cell, Cell>,
                                         closed: set<Cell>, w: seq<Cell>)
    requires SearchInv(open, start, goal, useHeuristic, cost, came, [], closed)
    requires IsWalk(open, start, w)
    ensures WalkEnd(start, w) in closed
    decreases |w|
  {
    assert forall v :: v in cost ==> v in closed;
    if w != [] {
      var m := |w| - 1;
      WalkPrefix(open, start, w, m);
      ExhaustedWalk(open, start, goal, useHeuristic, cost, came, closed, w[..m]);
      assert Step(open, Before(start, w, m), w[m]);
    }
  }

  /** An exhausted queue means the goal cannot be reached (and is not the start). */
  lemma ExhaustedUnreachable(open: set<Cell>, start: Cell, goal: Cell, useHeuristic: bool,
                             cost: map<Cell, int>, came: map<Cell, Cell>, closed: set<Cell>)
    requires SearchInv(open, start, goal, useHeuristic, cost, came, [], closed)
    ensures start != goal && !Reachable(open, start, goal)
  {
    ExhaustedWalk(open, start, goal, useHeuristic, cost, came, closed, []);
    if Reachable(open, start, goal) {
      var w :| IsWalk(open, start, w) && WalkEnd(start, w) == goal;
      ExhaustedWalk(open, start, goal, useHeuristic, cost, came, closed, w);
      assert false;
    }
  }

  // ---------------------------------------------------------------------------------------
  // One iteration of the search loop preserves the invariant.

  /** The queue after `pop()` removed the entry at `top`. */
  function RemoveAt(queue: seq<PathNode>, top: int): (rest: seq<PathNode>)
    requires 0 <= top < |queue|
    ensures |rest| == |queue| - 1
    ensures forall e :: e in rest ==> e in queue
    ensures forall e :: e in queue && e != queue[top] ==> e in rest
  {
    queue[..top] + queue[top + 1..]
  }

  /** A sequence's elements are those of its two halves. */
  lemma SplitMembers(q: seq<PathNode>, n: int)
    requires 0 <= n <= |q|
    ensures forall e :: e in q <==> e in q[..n] || e in q[n..]
  {
    assert q == q[..n] + q[n..];
  }

  /** The state before and after one iteration that pops `queue[top]`, which is not the goal,
      and relaxes its neighbours `ns`. */
  ghost predicate PopStep(open: set<Cell>, start: Cell, goal: Cell, useHeuristic: bool,
                          cost: map<Cell, int>, came: map<Cell, Cell>, queue: seq<PathNode>, closed: set<Cell>,
                          top: int, ns: seq<Cell>,
                          cost2: map<Cell, int>, came2: map<Cell, Cell>, queue2: seq<PathNode>)
  {
    SearchInv(open, start, goal, useHeuristic, cost, came, queue, closed) &&
    0 <= top < |queue| && (forall j :: 0 <= j < |queue| ==> !Greater(queue[top], queue[j])) &&
    queue[top].position != goal &&
    (forall n :: n in ns <==> Step(open, queue[top].position, n)) &&
    queue[top] in queue &&
    Relaxed(ns, queue[top].position, goal, useHeuristic, cost, came, RemoveAt(queue, top), cost2, came2, queue2)
  }

  /** Popping a stale entry for a closed cell changes nothing but the queue. */
  lemma PopStale(open: set<Cell>, start: Cell, goal: Cell, useHeuristic: bool,
                 cost: map<Cell, int>, came: map<Cell, Cell>, queue: seq<PathNode>, closed: set<Cell>,
                 top: int, ns: seq<Cell>,
                 cost2: map<Cell, int>, came2: map<Cell, Cell>, queue2: seq<PathNode>)
    requires PopStep(open, start, goal, useHeuristic, cost, came, queue, closed, top, ns, cost2, came2, queue2)
    requires queue[top].position in closed
    ensures cost2 == cost && came2 == came && queue2 == RemoveAt(queue, top)
    ensures SearchInv(open, start, goal, useHeuristic, cost2, came2, queue2, closed)
  {
    var u := queue[top].position;
    var c := cost[u];
    var rest := RemoveAt(queue, top);
    assert ClosedRelaxed(open, cost, closed);
    forall n | n in ns
      ensures n in cost && !Improves(c, cost, n)
    {
      assert Step(open, u, n);
    }
    assert cost2 == cost;
    assert came2 == came;
    NothingPushed(ns, u, c, cost, goal, useHeuristic);
    forall v | v in cost && v !in closed
      ensures PathNode(v, cost[v], H(useHeuristic, v, goal), came[v]) in rest
    {
      assert PathNode(v, cost[v], H(useHeuristic, v, goal), came[v]) in queue;
    }
    assert Frontier(goal, useHeuristic, cost, came, rest, closed);
  }

  /** Facts about popping a fresh entry, for a cell that is not yet closed: it carries the
      cell's exact cost, and relaxing its neighbours never changes a closed cell and never
      raises a cost. */
  lemma PopFreshFacts(open: set<Cell>, start: Cell, goal: Cell, useHeuristic: bool,
                      cost: map<Cell, int>, came: map<Cell, Cell>, queue: seq<PathNode>, closed: set<Cell>,
                      top: int, ns: seq<Cell>,
                      cost2: map<Cell, int>, came2: map<Cell, Cell>, queue2: seq<PathNode>)
    requires PopStep(open, start, goal, useHeuristic, cost, came, queue, closed, top, ns, cost2, came2, queue2)
    requires queue[top].position !in closed
    ensures queue[top].cost == cost[queue[top].position]
    ensures queue[top].position !in ns && cost2[queue[top].position] == cost[queue[top].position]
    ensures forall w :: w in closed ==> w in cost2 && cost2[w] == cost[w] && came2[w] == came[w]
    ensures forall v :: v in cost ==> v in cost2 && cost2[v] <= cost[v]
  {
    var u := queue[top].position;
    var c := cost[u];
    PoppedExact(open, start, goal, useHeuristic, cost, came, queue, closed, top);
    assert !Step(open, u, u);
    forall w | w in closed && w in ns
      ensures !Improves(c, cost, w)
    {
      assert Step(open, u, w);
      HConsistent(useHeuristic, u, w, goal);
      assert cost[w] + H(useHeuristic, w, goal) <= queue[top].GetTotal();
    }
  }

  /** Relaxing the steps out of a cell `u` of the tree, when that keeps `u`'s cost and every
      closed cell's cost and parent, leaves a tree of steps into the closed set plus `u`. */
  lemma RelaxedTree(open: set<Cell>, start: Cell, cost: map<Cell, int>, came: map<Cell, Cell>, closed: set<Cell>,
                    u: Cell, ns: seq<Cell>, cost2: map<Cell, int>, came2: map<Cell, Cell>)
    requires ParentTree(open, start, cost, came, closed)
    requires u in cost && (forall n :: n in ns ==> Step(open, u, n))
    requires RelaxedMaps(ns, u, cost, came, cost2, came2)
    requires u in cost2 && cost2[u] == cost[u]
    requires forall w :: w in closed ==> w in cost2 && cost2[w] == cost[w] && came2[w] == came[w]
    ensures ParentTree(open, start, cost2, came2, closed + {u})
  {
    var c := cost[u];
    forall v | v in cost2
      ensures 0 <= cost2[v] && (v == start || v in open)
    {
      if v in ns {
        assert Step(open, u, v);
      }
    }
    forall v | v in cost2 && v != start
      ensures came2[v] in closed + {u} && Step(open, came2[v], v) && cost2[v] == cost2[came2[v]] + 1
    {
      if v in ns && Improves(c, cost, v) {
        assert Step(open, u, v);
      } else {
        assert came[v] in closed;
      }
    }
  }

  /** After a fresh pop, the parent links still form a tree of steps into the closed set. */
  lemma PopFreshTree(open: set<Cell>, start: Cell, goal: Cell, useHeuristic: bool,
                     cost: map<Cell, int>, came: map<Cell, Cell>, queue: seq<PathNode>, closed: set<Cell>,
                     top: int, ns: seq<Cell>,
                     cost2: map<Cell, int>, came2: map<Cell, Cell>, queue2: seq<PathNode>)
    requires PopStep(open, start, goal, useHeuristic, cost, came, queue, closed, top, ns, cost2, came2, queue2)
    requires queue[top].position !in closed
    ensures ParentTree(open, start, cost2, came2, closed + {queue[top].position})
  {
    PopFreshFacts(open, start, goal, useHeuristic, cost, came, queue, closed, top, ns, cost2, came2, queue2);
    RelaxedTree(open, start, cost, came, closed, queue[top].position, ns, cost2, came2);
  }

  /** After a fresh pop, the queue still covers every cell that is not closed. */
  lemma PopFreshFrontier(open: set<Cell>, start: Cell, goal: Cell, useHeuristic: bool,
                         cost: map<Cell, int>, came: map<Cell, Cell>, queue: seq<PathNode>, closed: set<Cell>,
                         top: int, ns: seq<Cell>,
                         cost2: map<Cell, int>, came2: map<Cell, Cell>, queue2: seq<PathNode>)
    requires PopStep(open, start, goal, useHeuristic, cost, came, queue, closed, top, ns, cost2, came2, queue2)
    requires queue[top].position !in closed
    ensures came2.Keys == cost2.Keys
    ensures Frontier(goal, useHeuristic, cost2, came2, queue2, closed + {queue[top].position})
  {
    var u := queue[top].position;
    var c := cost[u];
    var rest := RemoveAt(queue, top);
    var pushed := Pushes(ns, u, c, cost, goal, useHeuristic);
    PopFreshFacts(open, start, goal, useHeuristic, cost, came, queue, closed, top, ns, cost2, came2, queue2);
    PushesMembers(ns, u, c, cost, goal, useHeuristic);
    forall e | e in queue2
      ensures e.position in cost2 && cost2[e.position] <= e.cost && e.heuristic == H(useHeuristic, e.position, goal)
    {
      if e !in rest {
        assert e in pushed;
      }
    }
    forall v | v in cost2 && v !in closed + {u}
      ensures PathNode(v, cost2[v], H(useHeuristic, v, goal), came2[v]) in queue2
    {
      if v in ns && Improves(c, cost, v) {
        assert PathNode(v, c + 1, H(useHeuristic, v, goal), u) in pushed;
      } else {
        assert PathNode(v, cost[v], H(useHeuristic, v, goal), came[v]) in queue;
        assert PathNode(v, cost[v], H(useHeuristic, v, goal), came[v]) in rest;
      }
    }
  }

  /** After a fresh pop, the closed cells (now including the popped one) are still relaxed
      and no queue entry undercuts them. */
  lemma PopFreshSettled(open: set<Cell>, start: Cell, goal: Cell, useHeuristic: bool,
                        cost: map<Cell, int>, came: map<Cell, Cell>, queue: seq<PathNode>, closed: set<Cell>,
                        top: int, ns: seq<Cell>,
                        cost2: map<Cell, int>, came2: map<Cell, Cell>, queue2: seq<PathNode>)
    requires PopStep(open, start, goal, useHeuristic, cost, came, queue, closed, top, ns, cost2, came2, queue2)
    requires queue[top].position !in closed
    ensures closed + {queue[top].position} <= cost2.Keys
    ensures Settled(open, goal, useHeuristic, cost2, queue2, closed + {queue[top].position})
  {
    var u := queue[top].position;
    var c := cost[u];
    var k := queue[top].GetTotal();
    var rest := RemoveAt(queue, top);
    var pushed := Pushes(ns, u, c, cost, goal, useHeuristic);
    var closed2 := closed + {u};
    PopFreshFacts(open, start, goal, useHeuristic, cost, came, queue, closed, top, ns, cost2, came2, queue2);
    PushesMembers(ns, u, c, cost, goal, useHeuristic);
    assert ClosedRelaxed(open, cost, closed);
    forall v, n | v in closed2 && Step(open, v, n)
      ensures n in cost2 && cost2[n] <= cost2[v] + 1
    {
      if v == u {
        assert n in ns;
      }
    }
    forall e | e in rest
      ensures k <= e.GetTotal()
    {
      var j :| 0 <= j < |queue| && queue[j] == e;
      assert !Greater(queue[top], queue[j]);
    }
    forall v, e | v in closed2 && e in queue2
      ensures cost2[v] + H(useHeuristic, v, goal) <= e.GetTotal()
    {
      assert cost[v] + H(useHeuristic, v, goal) <= k;
      if e !in rest {
        assert e in pushed;
        assert Step(open, u, e.position);
        HConsistent(useHeuristic, u, e.position, goal);
      }
    }
  }

  /** One iteration that pops a non-goal entry and relaxes its neighbours preserves the
      invariant, with the popped cell closed; popping a stale entry only shortens the queue. */
  lemma PopPreserves(open: set<Cell>, start: Cell, goal: Cell, useHeuristic: bool,
                     cost: map<Cell, int>, came: map<Cell, Cell>, queue: seq<PathNode>, closed: set<Cell>,
                     top: int, ns: seq<Cell>,
                     cost2: map<Cell, int>, came2: map<Cell, Cell>, queue2: seq<PathNode>)
    requires PopStep(open, start, goal, useHeuristic, cost, came, queue, closed, top, ns, cost2, came2, queue2)
    ensures queue[top].position !in closed ==>
      SearchInv(open, start, goal, useHeuristic, cost2, came2, queue2, closed + {queue[top].position})
    ensures queue[top].position in closed ==>
      SearchInv(open, start, goal, useHeuristic, cost2, came2, queue2, closed) && |queue2| < |queue|
  {
    var u := queue[top].position;
    if u in closed {
      PopStale(open, start, goal, useHeuristic, cost, came, queue, closed, top, ns, cost2, came2, queue2);
    } else {
      PopFreshTree(open, start, goal, useHeuristic, cost, came, queue, closed, top, ns, cost2, came2, queue2);
      PopFreshFrontier(open, start, goal, useHeuristic, cost, came, queue, closed, top, ns, cost2, came2, queue2);
      PopFreshSettled(open, start, goal, useHeuristic, cost, came, queue, closed, top, ns, cost2, came2, queue2);
    }
  }

  // ---------------------------------------------------------------------------------------
  // Path reconstruction and the two searches.

  /** `std::reverse` on a path, as a value. */
  function Reversed(s: seq<Cell>): (r: seq<Cell>)
    ensures |r| == |s|
    ensures forall i :: 0 <= i < |s| ==> r[i] == s[|s| - 1 - i]
  {
    if s == [] then [] else [s[|s| - 1]] + Reversed(s[..|s| - 1])
  }

  /** Reversing after a `push_back` puts the pushed cell first. */
  lemma ReversedSnoc(s: seq<Cell>, x: Cell)
    ensures Reversed(s + [x]) == [x] + Reversed(s)
  {
    assert (s + [x])[..|s|] == s;
  }

  /** Closing one more cell of `universe` leaves fewer to close. */
  lemma ClosingShrinks(universe: set<Cell>, closed: set<Cell>, u: Cell)
    requires u in universe && u !in closed
    ensures |universe - (closed + {u})| < |universe - closed|
  {
    assert universe - closed == (universe - (closed + {u})) + {u};
  }

  /** Following the parent links back from the goal and reversing yields a walk from the
      start to the goal whose length is the goal's cost. */
  method Reconstruct(start: Cell, goal: Cell, cameFrom: map<Cell, Cell>,
                     ghost open: set<Cell>, ghost cost: map<Cell, int>, ghost closed: set<Cell>)
    returns (path: seq<Cell>)
    requires ParentTree(open, start, cost, cameFrom, closed) && goal in cost
    ensures IsWalk(open, start, path) && WalkEnd(start, path) == goal && |path| == cost[goal]
  {
    var reversed: seq<Cell> := [];
    var pos := goal;
    while pos != start
      invariant pos in cost
      invariant IsWalk(open, pos, Reversed(reversed)) && WalkEnd(pos, Reversed(reversed)) == goal
      invariant |reversed| + cost[pos] == cost[goal]
      decreases cost[pos]
    {
      ReversedSnoc(reversed, pos);
      WalkCons(open, cameFrom[pos], pos, Reversed(reversed));
      reversed := reversed + [pos];
      pos := cameFrom[pos];
    }
    path := Reversed(reversed);
  }

  /** The search shared by Dijkstra and A*: pop the entry of least total, stop at the goal
      and rebuild the path, otherwise relax the popped cell's neighbours. The path is empty
      exactly when the start is the goal or the goal is unreachable, and otherwise it is a
      shortest walk through open cells. */
  method BestFirstSearch(maze: Maze, start: Cell, goal: Cell, useHeuristic: bool) returns (path: seq<Cell>)
    requires maze.TilesShaped()
    ensures path == [] <==> start == goal || !Reachable(OpenCells(maze), start, goal)
    ensures Reachable(OpenCells(maze), start, goal) ==> ShortestPath(OpenCells(maze), start, goal, path)
  {
    ghost var open := OpenCells(maze);
    var openSet := [PathNode(start, 0, H(useHeuristic, start, goal), start)];
    var costSoFar := map[start := 0];
    var cameFrom := map[start := start];
    ghost var closed: set<Cell> := {};
    SearchInvInit(open, start, goal, useHeuristic);
    while openSet != []
      invariant SearchInv(open, start, goal, useHeuristic, costSoFar, cameFrom, openSet, closed)
      decreases |(open + {start}) - closed|, |openSet|
    {
      var top := MinIndex(openSet);
      var current := openSet[top];
      var rest := RemoveAt(openSet, top);
      if current.position == goal {
        path := Reconstruct(start, goal, cameFrom, open, costSoFar, closed);
        GoalPathShortest(open, start, goal, useHeuristic, costSoFar, cameFrom, openSet, closed, top, path);
        return;
      }
      var u := current.position;
      var neighbors := GetNeighbors(maze, u);
      NeighborsSpec(maze, u);
      assert !Adjacent(u, u);
      ghost var cost0, came0, queue0, closed0 := costSoFar, cameFrom, openSet, closed;
      costSoFar, cameFrom, openSet := RelaxNeighbors(neighbors, u, goal, useHeuristic, costSoFar, cameFrom, rest);
      PopPreserves(open, start, goal, useHeuristic, cost0, came0, queue0, closed0, top, neighbors,
                   costSoFar, cameFrom, openSet);
      if u !in closed {
        assert u in cost0 && (u == start || u in open);
        ClosingShrinks(open + {start}, closed, u);
        closed := closed + {u};
      }
    }
    ExhaustedUnreachable(open, start, goal, useHeuristic, costSoFar, cameFrom, closed);
    path := [];
  }

  /** Dijkstra's search, `Ghost::FindPathDijkstra`: every entry's heuristic is zero. */
  method FindPathDijkstra(maze: Maze, start: Cell, goal: Cell) returns (path: seq<Cell>)
    requires maze.TilesShaped()
    ensures path == [] <==> start == goal || !Reachable(OpenCells(maze), start, goal)
    ensures Reachable(OpenCells(maze), start, goal) ==> ShortestPath(OpenCells(maze), start, goal, path)
  {
    path := BestFirstSearch(maze, start, goal, false);
  }

  /** A* search, `Ghost::FindPathAStar`: entries carry the Manhattan distance to the goal. */
  method FindPathAStar(maze: Maze, start: Cell, goal: Cell) returns (path: seq<Cell>)
    requires maze.TilesShaped()
    ensures path == [] <==> start == goal || !Reachable(OpenCells(maze), start, goal)
    ensures Reachable(OpenCells(maze), start, goal) ==> ShortestPath(OpenCells(maze), start, goal, path)
  {
    path := BestFirstSearch(maze, start, goal, true);
  }
}
