/** The termination argument of the search loop. A cell re-enters the open
    set only when its cost strictly falls, so each iteration either records
    a cost for a new cell, lowers a recorded cost, or only shrinks the open
    set. Over the finitely many in-bounds cells this is a lexicographic
    descent of (cells without a cost, sum of recorded costs, open-set size). */
module Progress {
  import opened Geometry

  /** The cells (r, 0), ..., (r, cols - 1). */
  function RowCells(r: int, cols: nat): (s: seq<Cell>)
    ensures forall c :: c in s <==> c.row == r && 0 <= c.col < cols
  {
    if cols == 0 then [] else RowCells(r, cols - 1) + [Cell(r, cols - 1)]
  }

  /** The in-bounds cells of the first `rows` rows. */
  function CellsUpTo(grid: Grid, rows: nat): (s: seq<Cell>)
    requires rows <= |grid|
    ensures forall c :: c in s <==> c.row < rows && InBounds(grid, c)
  {
    if rows == 0 then [] else CellsUpTo(grid, rows - 1) + RowCells(rows - 1, |grid[rows - 1]|)
  }

  /** Every in-bounds cell of the grid. */
  function AllCells(grid: Grid): (s: seq<Cell>)
    ensures forall c :: c in s <==> InBounds(grid, c)
  {
    CellsUpTo(grid, |grid|)
  }

  /** How many of `cells` have no recorded cost. */
  function Unvisited(cells: seq<Cell>, gScore: map<Cell, nat>): nat {
    if cells == [] then 0
    else (if cells[0] in gScore then 0 else 1) + Unvisited(cells[1..], gScore)
  }

  /** The sum of the costs recorded for `cells`. */
  function Spent(cells: seq<Cell>, gScore: map<Cell, nat>): nat {
    if cells == [] then 0
    else (if cells[0] in gScore then gScore[cells[0]] else 0) + Spent(cells[1..], gScore)
  }

  /** `after` is strictly below `before` in the lexicographic order of
      (Unvisited, Spent). */
  predicate Below(cells: seq<Cell>, after: map<Cell, nat>, before: map<Cell, nat>) {
    || Unvisited(cells, after) < Unvisited(cells, before)
    || (Unvisited(cells, after) == Unvisited(cells, before) && Spent(cells, after) < Spent(cells, before))
  }

  /** Recording a cost for a cell that had none, or a strictly lower cost
      for a cell that had one, moves the measure strictly down as soon as
      the cell is one of `cells`. */
  lemma {:induction false} ImprovementDescends(cells: seq<Cell>, gScore: map<Cell, nat>, n: Cell, v: nat)
    requires n !in gScore || v < gScore[n]
    ensures n !in gScore ==> Unvisited(cells, gScore[n := v]) <= Unvisited(cells, gScore)
    ensures n in gScore ==> Unvisited(cells, gScore[n := v]) == Unvisited(cells, gScore)
    ensures n in gScore ==> Spent(cells, gScore[n := v]) <= Spent(cells, gScore)
    ensures n in cells ==> Below(cells, gScore[n := v], gScore)
  {
    if cells != [] {
      ImprovementDescends(cells[1..], gScore, n, v);
      assert n in cells ==> cells[0] == n || n in cells[1..];
    }
  }

  /** Lowering the measure twice lowers it. */
  lemma BelowTransitive(cells: seq<Cell>, a: map<Cell, nat>, b: map<Cell, nat>, c: map<Cell, nat>)
    requires Below(cells, a, b) && Below(cells, b, c)
    ensures Below(cells, a, c)
  {
  }
}
