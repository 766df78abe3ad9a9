/**
 * The maze lattice of maze.js: a rectangular array of booleans in which
 * odd-indexed rows and columns are cells, even-indexed ones are dividers,
 * and `true` means "obstructed".  This module holds the shape predicates,
 * the configuration constants and the mapping between lattice positions
 * and the dividerless grid of cells that the start and goal are given in.
 */
module Lattice {

  /** Row-major lattice: `g[i][j]` is the piece at row `i`, column `j`. */
  type Grid = seq<seq<bool>>

  /** Number of cells (not lattice positions) in each dimension. */
  const WIDTH: nat := 25
  const HEIGHT: nat := 13

  /** The start cell, in cell coordinates. */
  const STARTING_X: nat := 0
  const STARTING_Y: nat := 0

  /** A cell of the dividerless grid: column `x`, row `y`. */
  datatype Cell = Cell(x: int, y: int)

  /** The goal is the centre cell, by floor division of the cell counts. */
  function GoalFor(width: nat, height: nat): Cell
  {
    Cell(width / 2, height / 2)
  }

  const START: Cell := Cell(STARTING_X, STARTING_Y)
  const GOAL: Cell := GoalFor(WIDTH, HEIGHT)

  /** A piece with this id exists: row `i` exists and is long enough for column `j`. */
  predicate InLattice(g: Grid, i: int, j: int)
  {
    0 <= i < |g| && 0 <= j < |g[i]|
  }

  /** The piece exists and is shaded as a wall. */
  predicate Obstructed(g: Grid, i: int, j: int)
  {
    InLattice(g, i, j) && g[i][j]
  }

  /** Odd row and odd column: a cell rather than a divider or a corner piece. */
  predicate IsCellPosition(i: int, j: int)
  {
    i % 2 == 1 && j % 2 == 1
  }

  /** The lattice of a `width` x `height` maze: `2*height+1` rows of `2*width+1` pieces. */
  predicate IsLattice(g: Grid, width: nat, height: nat)
  {
    |g| == 2 * height + 1 && forall i :: 0 <= i < |g| ==> |g[i]| == 2 * width + 1
  }

  /** Every piece on the outer ring is obstructed. */
  ghost predicate Enclosed(g: Grid)
  {
    forall i, j :: InLattice(g, i, j) && (i == 0 || i == |g| - 1 || j == 0 || j == |g[i]| - 1) ==> g[i][j]
  }

  /** No cell is itself a wall. */
  ghost predicate CellsOpen(g: Grid)
  {
    forall i, j :: InLattice(g, i, j) && IsCellPosition(i, j) ==> !g[i][j]
  }

  /** The lattice position of a cell: row `2*y+1`, column `2*x+1`. */
  function LatticeOf(c: Cell): (p: (int, int))
    ensures IsCellPosition(p.0, p.1)
  {
    (2 * c.y + 1, 2 * c.x + 1)
  }

  /**
   * The cell a lattice position belongs to, as showMaze computes it:
   * column by floor division of `j`, row by floor division of `i`.
   * On a cell position it inverts LatticeOf.
   */
  function CellOf(i: nat, j: nat): (c: Cell)
    ensures IsCellPosition(i, j) ==> LatticeOf(c) == (i, j)
    ensures 0 <= c.x && 0 <= c.y
  {
    Cell(j / 2, i / 2)
  }

  /** The decorations showMaze attaches to one piece. */
  datatype Marks = Marks(obstructed: bool, goal: bool, start: bool)

  /**
   * The marks of piece `(i, j)`: shaded when its boolean is set; a goal or
   * start marker only on a cell position whose cell is the goal or start.
   * Exactly one lattice position carries each marker.
   */
  function PieceMarks(g: Grid, i: nat, j: nat): (m: Marks)
    requires InLattice(g, i, j)
    ensures m.obstructed <==> Obstructed(g, i, j)
    ensures m.goal <==> (i, j) == LatticeOf(GOAL)
    ensures m.start <==> (i, j) == LatticeOf(START)
  {
    if i % 2 != 0 && j % 2 != 0 then
      var cell := CellOf(i, j);
      Marks(g[i][j], cell == GOAL, cell == START)
    else
      Marks(g[i][j], false, false)
  }

  /**
   * Cell positions of a `width` x `height` lattice and the cells of
   * `[0, width) x [0, height)` correspond one to one.
   */
  lemma CellMappingBijective(width: nat, height: nat, g: Grid)
    requires IsLattice(g, width, height)
    ensures forall i: nat, j: nat :: InLattice(g, i, j) && IsCellPosition(i, j) ==>
              var c := CellOf(i, j); 0 <= c.x < width && 0 <= c.y < height
    ensures forall c: Cell :: 0 <= c.x < width && 0 <= c.y < height ==>
              var p := LatticeOf(c); InLattice(g, p.0, p.1) && p.0 >= 0 && p.1 >= 0 && CellOf(p.0, p.1) == c
  {
  }

  /** In a maze with at least one cell each way, the goal is one of its cells. */
  lemma GoalInside(width: nat, height: nat)
    requires width >= 1 && height >= 1
    ensures var c := GoalFor(width, height); 0 <= c.x < width && 0 <= c.y < height
  {
  }

  /** With odd cell counts the goal cell sits exactly in the middle of the lattice. */
  lemma GoalIsCentre(width: nat, height: nat)
    requires width % 2 == 1 && height % 2 == 1
    ensures LatticeOf(GoalFor(width, height)) == (height, width)
  {
  }

  /** With the configured 25 x 13 cells the goal is cell (12, 6), lattice piece (13, 25) of 27 x 51. */
  lemma ConfiguredGoal()
    ensures GOAL == Cell(12, 6)
    ensures LatticeOf(GOAL) == ((2 * HEIGHT + 1) / 2, (2 * WIDTH + 1) / 2)
    ensures LatticeOf(START) == (1, 1)
  {
  }
}
