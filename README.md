# A* on a 4-connected 0/1 grid

This is a Dafny model of a small A* pathfinder. Cells of a rectangular grid are `0` (free) or anything else (an obstacle). A move goes up, down, left or right into a free cell and costs 1, and the heuristic is the Manhattan distance.

The search keeps three pieces of state:
- an open set, which is a plain list without duplicates;
- a child-to-parent table (`cameFrom`);
- a cost table (`gScore`).

Each round scans the open set for the first cell of lowest `f = g + h`. If that cell is the goal, the round rebuilds the path by following parent links. Otherwise it removes the cell from the open set and relaxes the cell's neighbours.

The model has four modules:

- `Geometry` (`geometry.dfy`): cells, the grid, the Manhattan heuristic, the ordered neighbour list, and walks and paths over the grid.
- `Reconstruct` (`reconstruct.dfy`): following the parent links back and reversing them.
- `Progress` (`progress.dfy`): the termination measure of the search loop. A cell re-enters the open set only when its cost strictly falls. So every round does one of three things:
  - records a cost for a new in-bounds cell;
  - lowers the sum of the recorded costs;
  - only shrinks the open set.

  Together these form a lexicographic descent.
- `Search` (`search.dfy`): the lowest-f scan, list removal, the relaxation loop and the search itself. The search is proved on all inputs that satisfy its preconditions to have four properties:
  - Sound: it returns a walk from start to goal with no repeated cell, in which every move goes to an adjacent free cell. Every cell after the first is free; the start itself is not checked, as in the source.
  - Optimal: no walk from start to goal has fewer cells.
  - Complete: it returns nothing only when no such walk exists.
  - Trivial case: when start and goal coincide, it returns exactly `[start]`.

`manhattan` is a single expression and `get_neighbors` builds a list by appending, so both are pure functions here. `reconstruct_path` and `astar` work by changing variables step by step, so they are methods with loops and invariants. Their lists and dictionaries are local `seq` and `map` variables that the loops reassign.

The scan treats a cell without a recorded cost as infinitely far. This is modelled with a `Cost` datatype (`Finite(n)` or `Infinite`) instead of a floating-point infinity.

## Model

| member | source | states |
|---|---|---|
| `Geometry.Manhattan` | astar.py:12-14 | the distance is a natural number, and it is 0 exactly when the two cells are equal |
| `Geometry.ManhattanSymmetric` | astar.py:12-14 | the distance from a to b equals the distance from b to a |
| `Geometry.ManhattanTriangle` | astar.py:12-14 | the distance obeys the triangle inequality |
| `Geometry.ManhattanConsistent` | astar.py:12-14 | one move lowers the heuristic by at most one (the heuristic is consistent) |
| `Geometry.ManhattanAdmissible` | astar.py:12-14 | no walk between two cells has fewer moves than their Manhattan distance (the heuristic is admissible) |
| `Geometry.AdjacentCells` | astar.py:24-35 | the cells at distance 1 are exactly the four cells above, below, left and right |
| `Geometry.Neighbors` | astar.py:17-37 | at most 4 cells are listed; a cell is listed exactly when it is in bounds, free and one move away; and the list is strictly ordered up, down, left, right |
| `Geometry.NeighborTests` | astar.py:19-35 | the four bound-and-free tests, with the column bound taken from the first row, keep exactly the in-bounds free cells at distance 1 on a rectangular grid |
| `Geometry.NeighborOrder` | astar.py:24-37 | appending at most one up, down, left and right cell in that order gives at most 4 cells, ordered by direction |
| `Geometry.NeighborsDistinct` | astar.py:17-37 | no neighbour is listed twice |
| `Geometry.WalkSuffix` | astar.py:87-95 | every suffix of a walk is a walk |
| `Reconstruct.Reverse` | astar.py:46 | the reversed list has the same length, and element k is the original element at position length-1-k |
| `Reconstruct.ChainCosts` | astar.py:88-93 | along a chain of parent links, each cell costs at least one more than the one before it |
| `Reconstruct.ReconstructPath` | astar.py:40-47 | when costs strictly fall along every parent link, the loop ends and the result has these properties: it ends at the given cell; its first cell has no parent; each cell after the first has the previous cell as its parent; costs strictly rise along it; and no cell repeats |
| `Progress.ImprovementDescends` | astar.py:88-93 | a first cost for a cell, or a strictly lower cost for a cell that has one, leaves these never higher: the number of cells without a cost, and (for a lowered cost) the cost sum. It strictly lowers their lexicographic pair when the cell is in bounds |
| `Progress.BelowTransitive` | astar.py:67-95 | the lexicographic order of the measure is transitive |
| `Progress.AllCells` | astar.py:67-95 | the cells the termination measure of the search loop counts over are exactly the in-bounds cells |
| `Search.Less` | astar.py:75 | the strict `<` of the scan: an infinite value is below nothing, a finite value is below infinity, and two finite values compare as numbers |
| `Search.LessStrictOrder` | astar.py:75 | that comparison is irreflexive, asymmetric and transitive, so `inf < inf` is false |
| `Search.FScore` | astar.py:72-74 | the f-score is infinite exactly when the cell has no recorded cost; otherwise it is the recorded cost plus the Manhattan distance to the goal, and at the goal it is the recorded cost itself |
| `Search.ImprovesIsLess` | astar.py:88-91 | the relaxation test holds exactly when g(current) + 1 is strictly below the neighbour's recorded cost, which is infinite when there is none |
| `Search.SelectLowest` | astar.py:68-77 | the chosen index is in range; no open cell has a strictly lower f-score; and every earlier open cell has a strictly higher one, so ties go to the earliest |
| `Search.FirstIndex` | astar.py:84 | the position found holds `x`, and `x` does not occur before it |
| `Search.DropAtFirst` | astar.py:84 | dropping the first occurrence shortens the list by one and keeps every other element; in a list without repeats, the removed value is gone and no repeats appear |
| `Search.RemoveFirst` | astar.py:84 | removal keeps the cells before and after the first occurrence of the value, in their order. So the length falls by one and every other element stays, and in a list without repeats the removed value is gone and no repeats appear |
| `Search.Appended` | astar.py:94-95 | only neighbours that are not already open are appended |
| `Search.ImprovementKeepsParents` | astar.py:88-93 | giving a cell the current cell as parent, with cost one above the current cell's, keeps costs strictly falling along every parent link |
| `Search.ImprovementKeepsClosed` | astar.py:91-95 | an improvement keeps every closed cell's moves leading to cells that cost at most one more |
| `Search.ImprovementKeepsTables` | astar.py:88-95 | one improvement keeps all the table invariants (listed after this table) |
| `Search.OpenRelaxedExtends` | astar.py:94-95 | relaxing one more neighbour appends it to the open set exactly when its cost improved and it was not open |
| `Search.CostsRelaxedExtends` | astar.py:88-93 | relaxing one more neighbour gives it cost g(current)+1 exactly when that is strictly lower than before, and leaves every other cost alone |
| `Search.ParentsRelaxedExtends` | astar.py:91-92 | relaxing one more neighbour gives it the current cell as parent exactly when its cost improved, and leaves every other parent alone |
| `Search.RelaxedCloses` | astar.py:87-95 | once every neighbour is relaxed, the current cell is closed too, and no cost has risen |
| `Search.PrefixExtends` | astar.py:87 | the next neighbour extends the prefix already visited and is not in it |
| `Search.RelaxNeighbor` | astar.py:88-95 | one step of the neighbour loop extends the relaxation by that neighbour; it keeps the table invariants and the closed cells, and does not raise the termination measure |
| `Search.Relax` | astar.py:87-95 | the new tables are exactly the original tables relaxed by the ordered neighbour list, which means three things: improved neighbours get the current cell as parent and cost g+1; the improved ones that were not open are appended in order; and nothing else changes. Also, no cost rises, the table invariants and closed-cell invariant hold, and the termination measure strictly falls unless nothing changed |
| `Search.OpenCellOnWalk` | astar.py:84-95 | along a walk from a cell of cost at most c, either the last cell costs at most c plus the number of moves, or some open cell on it costs at most c plus its position |
| `Search.OpenCellBoundsGoal` | astar.py:67-80 | if the goal has the lowest f-score and an open cell on a walk to the goal is cheap, then the goal's cost is at most the walk's number of moves |
| `Search.GoalCostOptimal` | astar.py:67-81 | when the goal is selected, its cost is at most the number of moves of every walk from start to goal |
| `Search.ParentChainIsPath` | astar.py:80-81 | the rebuilt chain starts at start and ends at the goal; each move goes to an adjacent free cell, so every cell after the first is free (the start is not checked, as in the source); and its number of moves is at most the goal's cost. With no parent links at all, it is `[start]` |
| `Search.AStar` | astar.py:50-98 | a result is a walk from start to goal without repeats, in which every cell after the first is free (the start is not checked, as in the source), and no walk from start to goal is shorter. No result means no walk from start to goal exists. If start equals goal, the result is `[start]` |

The table invariants (`Search.Tables`), which each round keeps:
- the open set has no duplicates;
- every open cell has a cost;
- the start costs 0 and never gets a parent;
- every cell with a cost is in bounds;
- the cells with a cost are exactly the start and the cells with a parent;
- costs strictly fall along every parent link;
- every parent is one move away from its child;
- if the goal has a cost, it is open.

`Search.Closed` states that every cell with a cost that is not open has all its moves leading to cells with a cost at most one higher. Completeness and optimality rest on it.

## Left out

- The demo at the bottom of `astar.py`: a grid literal, the call and printing the result. It is presentation only.
- The floating-point infinity used for a missing cost. A missing map key stands for it, and the scan compares the `Cost` datatype.
- Input validation. The source performs none. `AStar` requires a rectangular, non-empty grid and an in-bounds start, as the neighbour function assumes by indexing `grid[0]` and the cell. This precondition also excludes inputs the source handles without calling the neighbour function: when start equals goal, the source returns `[start]` in the first round for any grid and any start, even an empty grid, and the model does not cover those inputs. Python would accept a negative or out-of-range start and index from the end of a list or fail; that is not modelled. The goal is not required to be in bounds, because the source never indexes it.
- `Reconstruct.ReconstructPath` takes a ghost cost table as an extra argument, whose only role is to prove termination. Its precondition, that costs strictly fall along every parent link, is a search invariant and not a check the source makes. On a cyclic parent table the source would loop forever, and that case is not modelled.
- `Reconstruct.Reverse` returns the reversed list as a value. The source reverses the list in place, and that in-place update is not modelled.
- Integer width is not a concern: Python integers are unbounded, like Dafny's.
