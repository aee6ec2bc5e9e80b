/** Grid cells, continuous positions and the two float-to-cell conversions used by the agents. */
module Geometry {

  /** An integer grid cell, `glm::ivec2`. */
  datatype Cell = Cell(x: int, y: int)

  /** A continuous point or direction in tile units, `glm::vec2`; reals stand in for floats. */
  datatype Vec = Vec(x: real, y: real)

  const Zero: Vec := Vec(0.0, 0.0)

  function Plus(a: Vec, b: Vec): Vec { Vec(a.x + b.x, a.y + b.y) }

  function Minus(a: Vec, b: Vec): Vec { Vec(a.x - b.x, a.y - b.y) }

  function Scale(v: Vec, k: real): Vec { Vec(v.x * k, v.y * k) }

  function CellPlus(a: Cell, b: Cell): Cell { Cell(a.x + b.x, a.y + b.y) }

  function SqLength(v: Vec): real { v.x * v.x + v.y * v.y }

  function SqDistance(a: Vec, b: Vec): real { SqLength(Minus(a, b)) }

  function AsVec(c: Cell): Vec { Vec(c.x as real, c.y as real) }

  /** `glm::distance(a, b) < t`, decided without a square root: both sides are non-negative. */
  predicate Closer(a: Vec, b: Vec, t: real) { 0.0 < t && SqDistance(a, b) < t * t }

  /** A C++ `(int)` cast of a float: truncation toward zero. */
  function Trunc(r: real): (i: int)
    ensures 0.0 <= r ==> 0 <= i && i as real <= r < i as real + 1.0
    ensures r < 0.0 ==> i <= 0 && i as real - 1.0 < r <= i as real
  {
    if 0.0 <= r then r.Floor else -((-r).Floor)
  }

  /** `std::floor` followed by an int cast. */
  function Floor(r: real): (i: int)
    ensures i as real <= r < i as real + 1.0
  {
    r.Floor
  }

  /** `glm::ivec2(v)`, and the `GetGridPosition` of both agents: each coordinate truncated
      toward zero, not rounded, so that a point just left of column 0 still reads as
      column 0. */
  function TruncCell(v: Vec): (c: Cell)
    ensures 0.0 <= v.x ==> c.x as real <= v.x < c.x as real + 1.0
    ensures 0.0 <= v.y ==> c.y as real <= v.y < c.y as real + 1.0
    ensures -1.0 < v.x < 1.0 ==> c.x == 0
    ensures -1.0 < v.y < 1.0 ==> c.y == 0
  {
    Cell(Trunc(v.x), Trunc(v.y))
  }

  /** Truncation and flooring disagree exactly on negative non-integers, where truncation
      is one larger; in particular every point of (-1, 0) truncates to column 0. */
  lemma TruncVersusFloor(r: real)
    ensures Trunc(r) == Floor(r) <==> (0.0 <= r || r == r.Floor as real)
    ensures Trunc(r) != Floor(r) ==> Trunc(r) == Floor(r) + 1
    ensures -1.0 < r < 1.0 ==> Trunc(r) == 0
  {
  }
}
