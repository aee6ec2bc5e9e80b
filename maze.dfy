/** The maze grid: a fixed 28 x 31 layout normalised into a tile layer and two collectible
    layers (dots and power pellets), with counters for the collectibles eaten and in total. */
module MazeGrid {
  import opened Geometry

  const WIDTH := 28
  const HEIGHT := 31

  /** Tile codes. */
  const EMPTY := 0
  const WALL := 1
  const DOT := 2
  const POWER_PELLET := 3
  const GHOST_HOUSE := 4

  /** Size of one tile in world units. */
  const TILE_SIZE: real := 32.0

  /** The compiled-in layout, row by row: `LAYOUT[y][x]`. */
  const LAYOUT: seq<seq<int>> := [
    [1,1,1,1,1,1,1,1,1,1,1,1,1,1,1,1,1,1,1,1,1,1,1,1,1,1,1,1],
    [1,2,2,2,2,2,2,2,2,2,2,2,2,1,1,2,2,2,2,2,2,2,2,2,2,2,2,1],
    [1,2,1,1,1,1,2,1,1,1,1,1,2,1,1,2,1,1,1,1,1,2,1,1,1,1,2,1],
    [1,3,1,1,1,1,2,1,1,1,1,1,2,1,1,2,1,1,1,1,1,2,1,1,1,1,3,1],
    [1,2,1,1,1,1,2,1,1,1,1,1,2,1,1,2,1,1,1,1,1,2,1,1,1,1,2,1],
    [1,2,2,2,2,2,2,2,2,2,2,2,2,2,2,2,2,2,2,2,2,2,2,2,2,2,2,1],
    [1,2,1,1,1,1,2,1,1,2,1,1,1,1,1,1,1,1,2,1,1,2,1,1,1,1,2,1],
    [1,2,1,1,1,1,2,1,1,2,1,1,1,1,1,1,1,1,2,1,1,2,1,1,1,1,2,1],
    [1,2,2,2,2,2,2,1,1,2,2,2,2,1,1,2,2,2,2,1,1,2,2,2,2,2,2,1],
    [1,1,1,1,1,1,2,1,1,1,1,1,0,1,1,0,1,1,1,1,1,2,1,1,1,1,1,1],
    [1,1,1,1,1,1,2,1,1,1,1,1,0,1,1,0,1,1,1,1,1,2,1,1,1,1,1,1],
    [1,1,1,1,1,1,2,1,1,0,0,0,0,0,0,0,0,0,0,1,1,2,1,1,1,1,1,1],
    [1,1,1,1,1,1,2,1,1,0,1,1,1,4,4,1,1,1,0,1,1,2,1,1,1,1,1,1],
    [1,1,1,1,1,1,2,1,1,0,1,4,4,4,4,4,4,1,0,1,1,2,1,1,1,1,1,1],
    [0,0,0,0,0,0,2,0,0,0,1,4,4,4,4,4,4,1,0,0,0,2,0,0,0,0,0,0],
    [1,1,1,1,1,1,2,1,1,0,1,4,4,4,4,4,4,1,0,1,1,2,1,1,1,1,1,1],
    [1,1,1,1,1,1,2,1,1,0,1,1,1,1,1,1,1,1,0,1,1,2,1,1,1,1,1,1],
    [1,1,1,1,1,1,2,1,1,0,0,0,0,0,0,0,0,0,0,1,1,2,1,1,1,1,1,1],
    [1,1,1,1,1,1,2,1,1,0,1,1,1,1,1,1,1,1,0,1,1,2,1,1,1,1,1,1],
    [1,1,1,1,1,1,2,1,1,0,1,1,1,1,1,1,1,1,0,1,1,2,1,1,1,1,1,1],
    [1,2,2,2,2,2,2,2,2,2,2,2,2,1,1,2,2,2,2,2,2,2,2,2,2,2,2,1],
    [1,2,1,1,1,1,2,1,1,1,1,1,2,1,1,2,1,1,1,1,1,2,1,1,1,1,2,1],
    [1,2,1,1,1,1,2,1,1,1,1,1,2,1,1,2,1,1,1,1,1,2,1,1,1,1,2,1],
    [1,3,2,2,1,1,2,2,2,2,2,2,2,0,0,2,2,2,2,2,2,2,1,1,2,2,3,1],
    [1,1,1,2,1,1,2,1,1,2,1,1,1,1,1,1,1,1,2,1,1,2,1,1,2,1,1,1],
    [1,1,1,2,1,1,2,1,1,2,1,1,1,1,1,1,1,1,2,1,1,2,1,1,2,1,1,1],
    [1,2,2,2,2,2,2,1,1,2,2,2,2,1,1,2,2,2,2,1,1,2,2,2,2,2,2,1],
    [1,2,1,1,1,1,1,1,1,1,1,1,2,1,1,2,1,1,1,1,1,1,1,1,1,1,2,1],
    [1,2,1,1,1,1,1,1,1,1,1,1,2,1,1,2,1,1,1,1,1,1,1,1,1,1,2,1],
    [1,2,2,2,2,2,2,2,2,2,2,2,2,2,2,2,2,2,2,2,2,2,2,2,2,2,2,1],
    [1,1,1,1,1,1,1,1,1,1,1,1,1,1,1,1,1,1,1,1,1,1,1,1,1,1,1,1]
  ]

  predicate InBounds(x: int, y: int) { 0 <= x < WIDTH && 0 <= y < HEIGHT }

  predicate InGrid(c: Cell) { InBounds(c.x, c.y) }

  /** A layout has HEIGHT rows of WIDTH codes each. */
  predicate Rectangular(layout: seq<seq<int>>)
  {
    |layout| == HEIGHT && forall y :: 0 <= y < HEIGHT ==> |layout[y]| == WIDTH
  }

  lemma LayoutShape()
    ensures Rectangular(LAYOUT)
  {
  }

  /** The code a layout gives the in-bounds cell (x, y). */
  function CodeAt(layout: seq<seq<int>>, x: int, y: int): int
    requires Rectangular(layout) && InBounds(x, y)
  {
    layout[y][x]
  }

  /** The code of an in-bounds cell in the compiled-in layout. */
  function LayoutAt(x: int, y: int): int
    requires InBounds(x, y)
  {
    LayoutShape();
    CodeAt(LAYOUT, x, y)
  }

  /** Every cell of the grid. */
  function GridCells(): (s: set<Cell>)
    ensures forall c :: c in s <==> InGrid(c)
  {
    set x, y | 0 <= x < WIDTH && 0 <= y < HEIGHT :: Cell(x, y)
  }

  /** The cells to which a layout gives the code `code`. */
  function CellsWith(layout: seq<seq<int>>, code: int): set<Cell>
    requires Rectangular(layout)
  {
    set c | c in GridCells() && CodeAt(layout, c.x, c.y) == code
  }

  /** The cells a layout starts with a dot or a power pellet on. */
  function CollectiblesOf(layout: seq<seq<int>>): set<Cell>
    requires Rectangular(layout)
  {
    CellsWith(layout, DOT) + CellsWith(layout, POWER_PELLET)
  }

  /** The cells of the compiled-in layout with code `code`. */
  function LayoutCells(code: int): set<Cell>
  {
    LayoutShape();
    CellsWith(LAYOUT, code)
  }

  /** The cells that start a round holding a dot or a power pellet. */
  function CollectibleCells(): set<Cell>
  {
    LayoutShape();
    CollectiblesOf(LAYOUT)
  }

  /** The stored tile for a layout code: dot and pellet markers become EMPTY, because
      collectibles live only in their own layers. */
  function TileFor(code: int): (t: int)
    ensures t != DOT && t != POWER_PELLET
    ensures t == WALL <==> code == WALL
    ensures code != DOT && code != POWER_PELLET ==> t == code
  {
    if code == DOT || code == POWER_PELLET then EMPTY else code
  }

  /** The cells of `s` that a row-major scan has passed on reaching column `x` of row `y`. */
  function Scanned(s: set<Cell>, x: int, y: int): set<Cell>
  {
    set c | c in s && (c.y < y || (c.y == y && c.x < x))
  }

  lemma {:induction false} ScanStep(s: set<Cell>, x: int, y: int)
    ensures |Scanned(s, x + 1, y)| == |Scanned(s, x, y)| + (if Cell(x, y) in s then 1 else 0)
  {
    if Cell(x, y) in s {
      assert Scanned(s, x + 1, y) == Scanned(s, x, y) + {Cell(x, y)};
    } else {
      assert Scanned(s, x + 1, y) == Scanned(s, x, y);
    }
  }

  lemma ScanRow(s: set<Cell>, y: int)
    requires forall c :: c in s ==> InGrid(c)
    ensures Scanned(s, WIDTH, y) == Scanned(s, 0, y + 1)
  {
  }

  lemma ScanAll(s: set<Cell>)
    requires forall c :: c in s ==> InGrid(c)
    ensures Scanned(s, 0, HEIGHT) == s
  {
  }

  /** The maze: three WIDTH x HEIGHT layers indexed `[x, y]`, the two counters, and the
      compiled-in layout they are initialised from. The ghost sets mirror the two
      collectible layers. */
  class Maze {
    const tiles: array2<int>
    const dots: array2<bool>
    const powerPellets: array2<bool>
    var totalDots: int
    var dotsEaten: int
    /** The layout InitializeMaze scans: LAYOUT, from construction on. */
    const layout: seq<seq<int>>
    /** The cells whose dot flag is set. */
    ghost var dotCells: set<Cell>
    /** The cells whose power-pellet flag is set. */
    ghost var pelletCells: set<Cell>

    /** The tile layer has the grid's bounds. */
    predicate TilesShaped()
    {
      tiles.Length0 == WIDTH && tiles.Length1 == HEIGHT
    }

    /** The layers have the grid's bounds and are distinct arrays; the layout is rectangular. */
    ghost predicate Shaped()
    {
      TilesShaped() &&
      dots.Length0 == WIDTH && dots.Length1 == HEIGHT &&
      powerPellets.Length0 == WIDTH && powerPellets.Length1 == HEIGHT &&
      dots != powerPellets && Rectangular(layout)
    }

    /** The ghost sets hold exactly the flagged cells of the grid, and flags are set only
        where the layout put a dot or a power pellet. */
    ghost predicate Mirrored()
      reads this`dotCells, this`pelletCells, dots, powerPellets
      requires Shaped()
    {
      dotCells <= GridCells() && pelletCells <= GridCells() &&
      forall x, y {:trigger Flagged(x, y)} :: InBounds(x, y) ==> Flagged(x, y)
    }

    /** Cell (x, y) is in a ghost set exactly when its flag is set, which only happens where
        the layout has the matching code. */
    ghost predicate Flagged(x: int, y: int)
      reads this`dotCells, this`pelletCells, dots, powerPellets
      requires Shaped() && InBounds(x, y)
    {
      (dots[x, y] <==> Cell(x, y) in dotCells) &&
      (powerPellets[x, y] <==> Cell(x, y) in pelletCells) &&
      (dots[x, y] ==> CodeAt(layout, x, y) == DOT) &&
      (powerPellets[x, y] ==> CodeAt(layout, x, y) == POWER_PELLET)
    }

    /** The tile layer is the layout with dot and pellet markers replaced by EMPTY. */
    ghost predicate TilesMatchLayout()
      reads tiles
      requires Shaped()
    {
      forall x, y {:trigger tiles[x, y]} :: InBounds(x, y) ==> tiles[x, y] == TileFor(CodeAt(layout, x, y))
    }

    /** Every collectible counted in the total is either eaten or still present. */
    ghost predicate Conserved()
      reads this
    {
      0 <= dotsEaten && dotsEaten + |dotCells| + |pelletCells| == totalDots
    }

    /** The layout puts a dot somewhere, so a freshly filled maze is never cleared. */
    ghost predicate Stocked()
      requires Shaped()
    {
      CellsWith(layout, DOT) != {}
    }

    /** The object invariant: the layout has a dot, the tile layer is the normalised layout,
        collectibles sit where the layout put them, and every collectible is either eaten
        or still present. */
    ghost predicate Valid()
      reads this, tiles, dots, powerPellets
    {
      Shaped() && Stocked() && TilesMatchLayout() && Mirrored() && Conserved()
    }

    /** The state right after initialisation: nothing eaten, every collectible present. */
    ghost predicate Pristine()
      reads this, tiles, dots, powerPellets
    {
      Valid() && dotsEaten == 0 && totalDots == |CollectiblesOf(layout)| &&
      dotCells == CellsWith(layout, DOT) && pelletCells == CellsWith(layout, POWER_PELLET)
    }

    constructor ()
      ensures Pristine() && layout == LAYOUT
      ensures fresh(tiles) && fresh(dots) && fresh(powerPellets)
    {
      totalDots, dotsEaten := 0, 0;
      tiles := new int[WIDTH, HEIGHT]((x, y) => EMPTY);
      dots := new bool[WIDTH, HEIGHT]((x, y) => false);
      powerPellets := new bool[WIDTH, HEIGHT]((x, y) => false);
      layout := LAYOUT;
      dotCells, pelletCells := {}, {};
      LayoutStocked();
      new;
      InitializeMaze();
    }

    /** Re-runs the initialisation: every collectible comes back and the eaten count is zero. */
    method Reset()
      requires Valid()
      modifies this, tiles, dots, powerPellets
      ensures Pristine()
    {
      InitializeMaze();
    }

    /** Scans the layout row by row, storing the normalised tile and the two flags of each
        cell and counting the collectibles. A dot cell's pellet flag (and a pellet cell's dot
        flag) is left as it was, which is false because leftovers sit only where the layout
        put them. */
    method InitializeMaze()
      requires Shaped() && Stocked() && Mirrored()
      modifies this, tiles, dots, powerPellets
      ensures Pristine()
    {
      totalDots := 0;
      for y := 0 to HEIGHT
        invariant ScannedUpTo(0, y)
      {
        InitializeRow(y);
        ScanRow(CollectiblesOf(layout), y);
      }
      dotsEaten := 0;
      ScanComplete();
    }

    /** Once every row is scanned, the layers hold exactly the layout's collectibles and the
        total counts them. */
    lemma ScanComplete()
      requires ScannedUpTo(0, HEIGHT) && Stocked() && dotsEaten == 0
      ensures Pristine()
    {
      ScanAll(CollectiblesOf(layout));
      forall c: Cell | InGrid(c)
        ensures (c in dotCells <==> c in CellsWith(layout, DOT)) &&
          (c in pelletCells <==> c in CellsWith(layout, POWER_PELLET))
      {
        assert Flagged(c.x, c.y) && Initialised(c.x, c.y);
      }
      assert dotCells == CellsWith(layout, DOT);
      assert pelletCells == CellsWith(layout, POWER_PELLET);
      assert CellsWith(layout, DOT) !! CellsWith(layout, POWER_PELLET);
    }

    /** The inner loop of InitializeMaze: one row of the scan. */
    method InitializeRow(y: int)
      requires 0 <= y < HEIGHT && ScannedUpTo(0, y)
      modifies this`totalDots, this`dotCells, this`pelletCells, tiles, dots, powerPellets
      ensures ScannedUpTo(WIDTH, y)
    {
      for x := 0 to WIDTH
        invariant ScannedUpTo(x, y)
      {
        InitializeCell(x, y);
      }
    }

    /** The body of the inner loop of InitializeMaze: cell (x, y) of the scan. */
    method InitializeCell(x: int, y: int)
      requires InBounds(x, y) && ScannedUpTo(x, y)
      modifies this`totalDots, this`dotCells, this`pelletCells, tiles, dots, powerPellets
      ensures ScannedUpTo(x + 1, y)
    {
      ScanStep(CollectiblesOf(layout), x, y);
      var code := layout[y][x];
      tiles[x, y] := code;
      if code == DOT {
        dots[x, y] := true;
        dotCells := dotCells + {Cell(x, y)};
        totalDots := totalDots + 1;
        tiles[x, y] := EMPTY;
      } else if code == POWER_PELLET {
        powerPellets[x, y] := true;
        pelletCells := pelletCells + {Cell(x, y)};
        totalDots := totalDots + 1;
        tiles[x, y] := EMPTY;
      } else {
        dots[x, y] := false;
        powerPellets[x, y] := false;
        dotCells, pelletCells := dotCells - {Cell(x, y)}, pelletCells - {Cell(x, y)};
      }
      forall i, j | InBounds(i, j)
        ensures Flagged(i, j) && (old(Initialised(i, j)) || (i == x && j == y) ==> Initialised(i, j))
      {
        assert old(Flagged(i, j));
      }
    }

    /** The scan has counted and initialised every cell before column x of row y; flags
        everywhere are mirrored and set only where the layout says. */
    ghost predicate ScannedUpTo(x: int, y: int)
      reads this, tiles, dots, powerPellets
    {
      Shaped() && Mirrored() &&
      totalDots == |Scanned(CollectiblesOf(layout), x, y)| &&
      forall i, j :: InBounds(i, j) && (j < y || (j == y && i < x)) ==> Initialised(i, j)
    }

    /** Cell (x, y) holds its initial tile and flags. */
    ghost predicate Initialised(x: int, y: int)
      reads tiles, dots, powerPellets
      requires Shaped() && InBounds(x, y)
    {
      tiles[x, y] == TileFor(CodeAt(layout, x, y)) &&
      dots[x, y] == (CodeAt(layout, x, y) == DOT) &&
      powerPellets[x, y] == (CodeAt(layout, x, y) == POWER_PELLET)
    }

    /** Out-of-range cells count as walkable, so that agents may leave through the side
        tunnel; in range, only walls are not walkable. */
    function IsWalkable(x: int, y: int): (r: bool)
      reads tiles
      requires TilesShaped()
      ensures !InBounds(x, y) ==> r
      ensures InBounds(x, y) ==> (r <==> tiles[x, y] != WALL)
    {
      if x < 0 || x >= WIDTH || y < 0 || y >= HEIGHT then true else tiles[x, y] != WALL
    }

    /** False out of range; otherwise the dot flag. */
    function HasDot(x: int, y: int): (r: bool)
      reads this, tiles, dots, powerPellets
      requires Valid()
      ensures r <==> Cell(x, y) in dotCells
    {
      if x < 0 || x >= WIDTH || y < 0 || y >= HEIGHT then false else assert Flagged(x, y); dots[x, y]
    }

    /** False out of range; otherwise the power-pellet flag. */
    function HasPowerPellet(x: int, y: int): (r: bool)
      reads this, tiles, dots, powerPellets
      requires Valid()
      ensures r <==> Cell(x, y) in pelletCells
    {
      if x < 0 || x >= WIDTH || y < 0 || y >= HEIGHT then false else assert Flagged(x, y); powerPellets[x, y]
    }

    /** Clears the dot at (x, y) and counts it as eaten, when there is one; otherwise a no-op. */
    method RemoveDot(x: int, y: int)
      requires Valid()
      modifies this`dotsEaten, this`dotCells, dots
      ensures Valid()
      ensures dotCells == old(dotCells) - {Cell(x, y)}
      ensures dotsEaten == old(dotsEaten) + (if Cell(x, y) in old(dotCells) then 1 else 0)
    {
      assert InBounds(x, y) ==> Flagged(x, y);
      assert Cell(x, y) in dotCells ==> Cell(x, y) in GridCells();
      if x >= 0 && x < WIDTH && y >= 0 && y < HEIGHT && dots[x, y] {
        dots[x, y] := false;
        dotCells := dotCells - {Cell(x, y)};
        dotsEaten := dotsEaten + 1;
        forall i, j | InBounds(i, j)
          ensures Flagged(i, j)
        {
          assert old(Flagged(i, j));
        }
      }
    }

    /** Clears the power pellet at (x, y) and counts it as eaten, when there is one; otherwise a no-op. */
    method RemovePowerPellet(x: int, y: int)
      requires Valid()
      modifies this`dotsEaten, this`pelletCells, powerPellets
      ensures Valid()
      ensures pelletCells == old(pelletCells) - {Cell(x, y)}
      ensures dotsEaten == old(dotsEaten) + (if Cell(x, y) in old(pelletCells) then 1 else 0)
    {
      assert InBounds(x, y) ==> Flagged(x, y);
      assert Cell(x, y) in pelletCells ==> Cell(x, y) in GridCells();
      if x >= 0 && x < WIDTH && y >= 0 && y < HEIGHT && powerPellets[x, y] {
        powerPellets[x, y] := false;
        pelletCells := pelletCells - {Cell(x, y)};
        dotsEaten := dotsEaten + 1;
        forall i, j | InBounds(i, j)
          ensures Flagged(i, j)
        {
          assert old(Flagged(i, j));
        }
      }
    }

    /** The level is cleared once the eaten count reaches the total. */
    function AllDotsEaten(): (r: bool)
      reads this
    {
      dotsEaten >= totalDots
    }

    /** The world-space centre of tile (x, y). */
    function GridToWorld(x: int, y: int): (p: Vec)
      ensures TILE_SIZE * x as real < p.x < TILE_SIZE * (x + 1) as real
      ensures TILE_SIZE * y as real < p.y < TILE_SIZE * (y + 1) as real
      ensures p.x - TILE_SIZE * x as real == TILE_SIZE / 2.0 == p.y - TILE_SIZE * y as real
    {
      Vec(x as real * 32.0 + 16.0, y as real * 32.0 + 16.0)
    }
  }

  /** A cell an agent may enter: inside the grid and not a wall. Both agents and the
      searches test exactly this before moving. */
  predicate Passable(maze: Maze, c: Cell)
    reads maze.tiles
    requires maze.TilesShaped()
  {
    InGrid(c) && maze.IsWalkable(c.x, c.y)
  }

  /** The horizontal wrap of the side tunnel: left of column 0 re-enters at 27, right of
      27 re-enters at 0. Afterwards x lies in [0, 27]; y is never wrapped. */
  function Wrap(p: Vec): (q: Vec)
    ensures 0.0 <= q.x <= 27.0 && q.y == p.y
    ensures 0.0 <= p.x <= 27.0 ==> q == p
  {
    var x := if p.x < 0.0 then 27.0 else p.x;
    Vec(if x > 27.0 then 0.0 else x, p.y)
  }

  /** A position inside the playing area after a wrap: x in [0, 27], y in [0, 31). */
  predicate InArena(p: Vec)
  {
    0.0 <= p.x <= 27.0 && 0.0 <= p.y < HEIGHT as real
  }

  /** Conservation: the eaten count never exceeds the total, and the level is cleared exactly
      when no dot and no power pellet is left. */
  lemma AllEatenIffEmpty(m: Maze)
    requires m.Valid()
    ensures 0 <= m.dotsEaten <= m.totalDots
    ensures m.AllDotsEaten() <==> m.dotCells == {} && m.pelletCells == {}
  {
  }

  /** The built-in layout puts a dot on cell (1, 1). */
  lemma LayoutStocked()
    ensures Rectangular(LAYOUT) && Cell(1, 1) in CellsWith(LAYOUT, DOT)
  {
    LayoutShape();
    assert Cell(1, 1) in GridCells();
  }

  /** A freshly filled maze has a dot to eat, so a level is never cleared at its start. */
  lemma PristineNotCleared(m: Maze)
    requires m.Pristine()
    ensures m.dotCells != {} && !m.AllDotsEaten()
  {
    AllEatenIffEmpty(m);
  }

  /** After initialisation no cell holds both a dot and a power pellet, and every collectible
      sits on an EMPTY tile. */
  lemma CollectiblesOnEmptyTiles(m: Maze, x: int, y: int)
    requires m.Valid() && InBounds(x, y)
    ensures !(m.dots[x, y] && m.powerPellets[x, y])
    ensures m.dots[x, y] || m.powerPellets[x, y] ==> m.tiles[x, y] == EMPTY
  {
    assert m.Flagged(x, y);
  }

  /** In range, a cell is walkable exactly when its layout code is not WALL. */
  lemma WalkableIffLayoutOpen(m: Maze, x: int, y: int)
    requires m.Valid() && m.layout == LAYOUT && InBounds(x, y)
    ensures m.IsWalkable(x, y) <==> LayoutAt(x, y) != WALL
  {
  }
}
