/** Cells, the 0/1 grid, the Manhattan heuristic and the 4-connected
    neighbourhood that the A* search walks over. */
module Geometry {

  /** A grid position (row, col); rows grow downward, both are zero-based. */
  datatype Cell = Cell(row: int, col: int)

  /** A grid of cell flags: 0 is a free cell, any other value an obstacle. */
  type Grid = seq<seq<int>>

  /** The grid has a first row and every row is as long as it. */
  predicate Rectangular(grid: Grid) {
    |grid| > 0 && forall r :: 0 <= r < |grid| ==> |grid[r]| == |grid[0]|
  }

  predicate InBounds(grid: Grid, c: Cell) {
    0 <= c.row < |grid| && 0 <= c.col < |grid[c.row]|
  }

  predicate IsFree(grid: Grid, c: Cell) {
    InBounds(grid, c) && grid[c.row][c.col] == 0
  }

  function Abs(x: int): nat {
    if x < 0 then -x else x
  }

  /** The heuristic: sum of the absolute row and column differences. */
  function Manhattan(a: Cell, b: Cell): (d: nat)
    ensures d == 0 <==> a == b
  {
    Abs(a.row - b.row) + Abs(a.col - b.col)
  }

  lemma ManhattanSymmetric(a: Cell, b: Cell)
    ensures Manhattan(a, b) == Manhattan(b, a)
  {
  }

  lemma ManhattanTriangle(a: Cell, b: Cell, c: Cell)
    ensures Manhattan(a, c) <= Manhattan(a, b) + Manhattan(b, c)
  {
  }

  /** One move of the search: to an orthogonally adjacent free cell. */
  predicate Step(grid: Grid, from: Cell, to: Cell) {
    Manhattan(from, to) == 1 && IsFree(grid, to)
  }

  /** The position of a move in the order the neighbours are listed:
      up, down, left, right (4 for a cell that is not adjacent). */
  function Direction(from: Cell, to: Cell): nat {
    if to == Cell(from.row - 1, from.col) then 0
    else if to == Cell(from.row + 1, from.col) then 1
    else if to == Cell(from.row, from.col - 1) then 2
    else if to == Cell(from.row, from.col + 1) then 3
    else 4
  }

  /** The cells one move away are the four orthogonal ones. */
  lemma AdjacentCells(cell: Cell)
    ensures forall n :: Manhattan(cell, n) == 1 <==>
              || n == Cell(cell.row - 1, cell.col) || n == Cell(cell.row + 1, cell.col)
              || n == Cell(cell.row, cell.col - 1) || n == Cell(cell.row, cell.col + 1)
  {
    forall n ensures Manhattan(cell, n) == 1 <==>
              || n == Cell(cell.row - 1, cell.col) || n == Cell(cell.row + 1, cell.col)
              || n == Cell(cell.row, cell.col - 1) || n == Cell(cell.row, cell.col + 1)
    {
      if Manhattan(cell, n) == 1 {
        assert n == Cell(n.row, n.col);
      }
    }
  }

  /** The in-bounds free orthogonal neighbours of `cell`, up, down, left,
      right. The column bound is taken from the first row. */
  function Neighbors(grid: Grid, cell: Cell): (ns: seq<Cell>)
    requires Rectangular(grid) && InBounds(grid, cell)
    ensures |ns| <= 4
    ensures forall n :: n in ns <==> Step(grid, cell, n)
    ensures forall i, j :: 0 <= i < j < |ns| ==> Direction(cell, ns[i]) < Direction(cell, ns[j])
  {
    var r, c := cell.row, cell.col;
    var rows, cols := |grid|, |grid[0]|;
    var up := if r - 1 >= 0 && grid[r - 1][c] == 0 then [Cell(r - 1, c)] else [];
    var down := if r + 1 < rows && grid[r + 1][c] == 0 then [Cell(r + 1, c)] else [];
    var left := if c - 1 >= 0 && grid[r][c - 1] == 0 then [Cell(r, c - 1)] else [];
    var right := if c + 1 < cols && grid[r][c + 1] == 0 then [Cell(r, c + 1)] else [];
    NeighborTests(grid, cell, up, down, left, right);
    NeighborOrder(cell, up, down, left, right);
    up + down + left + right
  }

  /** The four tests of Neighbors keep exactly the moves out of `cell`. */
  lemma NeighborTests(grid: Grid, cell: Cell, up: seq<Cell>, down: seq<Cell>, left: seq<Cell>, right: seq<Cell>)
    requires Rectangular(grid) && InBounds(grid, cell)
    requires up == if cell.row - 1 >= 0 && grid[cell.row - 1][cell.col] == 0
                   then [Cell(cell.row - 1, cell.col)] else []
    requires down == if cell.row + 1 < |grid| && grid[cell.row + 1][cell.col] == 0
                     then [Cell(cell.row + 1, cell.col)] else []
    requires left == if cell.col - 1 >= 0 && grid[cell.row][cell.col - 1] == 0
                     then [Cell(cell.row, cell.col - 1)] else []
    requires right == if cell.col + 1 < |grid[0]| && grid[cell.row][cell.col + 1] == 0
                      then [Cell(cell.row, cell.col + 1)] else []
    ensures forall n :: n in up + down + left + right <==> Step(grid, cell, n)
  {
    AdjacentCells(cell);
    assert |grid[cell.row]| == |grid[0]|;
    assert cell.row - 1 >= 0 ==> |grid[cell.row - 1]| == |grid[0]|;
    assert cell.row + 1 < |grid| ==> |grid[cell.row + 1]| == |grid[0]|;
  }

  /** Lists of at most one up, down, left and right move, joined in that
      order, are ordered by direction. */
  lemma NeighborOrder(cell: Cell, up: seq<Cell>, down: seq<Cell>, left: seq<Cell>, right: seq<Cell>)
    requires up == [] || up == [Cell(cell.row - 1, cell.col)]
    requires down == [] || down == [Cell(cell.row + 1, cell.col)]
    requires left == [] || left == [Cell(cell.row, cell.col - 1)]
    requires right == [] || right == [Cell(cell.row, cell.col + 1)]
    ensures |up + down + left + right| <= 4
    ensures var ns := up + down + left + right;
            forall i, j :: 0 <= i < j < |ns| ==> Direction(cell, ns[i]) < Direction(cell, ns[j])
  {
    var ns := up + down + left + right;
    forall i, j | 0 <= i < j < |ns| ensures Direction(cell, ns[i]) < Direction(cell, ns[j]) {
      assert forall k :: 0 <= k < |ns| ==>
        Direction(cell, ns[k]) == (if k < |up| then 0
                                   else if k < |up| + |down| then 1
                                   else if k < |up| + |down| + |left| then 2
                                   else 3);
    }
  }

  /** Every neighbour is listed once. */
  lemma NeighborsDistinct(grid: Grid, cell: Cell)
    requires Rectangular(grid) && InBounds(grid, cell)
    ensures NoRepeats(Neighbors(grid, cell))
  {
    var ns := Neighbors(grid, cell);
    forall i, j | 0 <= i < j < |ns| ensures ns[i] != ns[j] {
      assert Direction(cell, ns[i]) < Direction(cell, ns[j]);
    }
  }

  predicate NoRepeats<T(==)>(s: seq<T>) {
    forall i, j :: 0 <= i < j < |s| ==> s[i] != s[j]
  }

  /** Consecutive cells of `p` are one move apart. */
  predicate IsWalk(grid: Grid, p: seq<Cell>) {
    forall i :: 0 <= i < |p| - 1 ==> Step(grid, p[i], p[i + 1])
  }

  /** `p` walks from `start` to `goal`. */
  predicate IsPath(grid: Grid, start: Cell, goal: Cell, p: seq<Cell>) {
    |p| > 0 && p[0] == start && p[|p| - 1] == goal && IsWalk(grid, p)
  }

  /** Every suffix of a walk is a walk. */
  lemma WalkSuffix(grid: Grid, p: seq<Cell>, i: nat)
    requires IsWalk(grid, p) && i <= |p|
    ensures IsWalk(grid, p[i..])
  {
    var rest := p[i..];
    forall j | 0 <= j < |rest| - 1 ensures Step(grid, rest[j], rest[j + 1]) {
      assert rest[j] == p[i + j] && rest[j + 1] == p[i + j + 1];
    }
  }

  /** The heuristic is consistent: one move changes it by at most one. */
  lemma ManhattanConsistent(grid: Grid, a: Cell, b: Cell, goal: Cell)
    requires Step(grid, a, b)
    ensures Manhattan(a, goal) <= Manhattan(b, goal) + 1
  {
    ManhattanTriangle(a, b, goal);
  }

  /** The heuristic is admissible: no walk between two cells has fewer moves
      than their Manhattan distance. */
  lemma {:induction false} ManhattanAdmissible(grid: Grid, p: seq<Cell>)
    requires |p| > 0 && IsWalk(grid, p)
    ensures Manhattan(p[0], p[|p| - 1]) <= |p| - 1
  {
    if |p| > 1 {
      var rest := p[1..];
      WalkSuffix(grid, p, 1);
      ManhattanAdmissible(grid, rest);
      assert Step(grid, p[0], p[1]);
      ManhattanTriangle(p[0], p[1], p[|p| - 1]);
    }
  }
}
