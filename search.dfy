/** The A* search loop: a plain list as open set scanned for the lowest
    f = g + h, a child-to-parent table and a cost table, with unit moves. */
module Search {
  import opened Geometry
  import opened Reconstruct
  import opened Progress

  datatype Option<T> = None | Some(value: T)

  /** An f-score as the scan compares it: a cell without a recorded cost
      counts as infinitely far. */
  datatype Cost = Finite(n: nat) | Infinite

  /** The strict `<` of the scan, with infinity above every number and not
      below itself. */
  predicate Less(a: Cost, b: Cost): (r: bool)
    ensures r ==> a.Finite?
    ensures a.Finite? && b.Infinite? ==> r
    ensures a.Finite? && b.Finite? ==> (r <==> a.n < b.n)
  {
    a.Finite? && (b.Infinite? || a.n < b.n)
  }

  /** `Less` is a strict order: irreflexive, asymmetric and transitive. */
  lemma LessStrictOrder(a: Cost, b: Cost, c: Cost)
    ensures !Less(a, a)
    ensures Less(a, b) ==> !Less(b, a)
    ensures Less(a, b) && Less(b, c) ==> Less(a, c)
  {
  }

  /** The cost recorded for `cell`, infinite when there is none. */
  function CostOf(gScore: map<Cell, nat>, cell: Cell): Cost {
    if cell in gScore then Finite(gScore[cell]) else Infinite
  }

  /** g + h, where a missing g is infinite and so is the sum. */
  function FScore(gScore: map<Cell, nat>, cell: Cell, goal: Cell): (f: Cost)
    ensures f.Infinite? <==> CostOf(gScore, cell).Infinite?
    ensures f.Finite? ==> f.n == CostOf(gScore, cell).n + Manhattan(cell, goal)
    ensures f.Finite? && cell == goal ==> f == CostOf(gScore, cell)
  {
    if cell in gScore then Finite(gScore[cell] + Manhattan(cell, goal)) else Infinite
  }

  /** The scan over the open set: the index of the first cell whose f-score
      is minimal (a later cell replaces the choice only when strictly
      lower). */
  method SelectLowest(openSet: seq<Cell>, gScore: map<Cell, nat>, goal: Cell) returns (i: nat)
    requires |openSet| > 0
    ensures i < |openSet|
    ensures forall j :: 0 <= j < |openSet| ==>
              !Less(FScore(gScore, openSet[j], goal), FScore(gScore, openSet[i], goal))
    ensures forall j :: 0 <= j < i ==>
              Less(FScore(gScore, openSet[i], goal), FScore(gScore, openSet[j], goal))
  {
    i := 0;
    var currentF := Infinite;
    var k := 0;
    while k < |openSet|
      invariant 0 <= k <= |openSet|
      invariant k == 0 ==> i == 0
      invariant k > 0 ==> i < k && currentF == FScore(gScore, openSet[i], goal)
      invariant forall j :: 0 <= j < k ==> !Less(FScore(gScore, openSet[j], goal), currentF)
      invariant forall j :: 0 <= j < i ==> Less(currentF, FScore(gScore, openSet[j], goal))
    {
      var f := FScore(gScore, openSet[k], goal);
      if k == 0 || Less(f, currentF) {
        i, currentF := k, f;
      }
      k := k + 1;
    }
  }

  /** The position of the first occurrence of `x`. */
  function FirstIndex<T(==)>(s: seq<T>, x: T): (k: nat)
    requires x in s
    ensures k < |s| && s[k] == x && x !in s[..k]
  {
    if s[0] == x then 0
    else
      var k := 1 + FirstIndex(s[1..], x);
      assert s[..k] == [s[0]] + s[1..][..k - 1];
      k
  }

  /** Dropping the first occurrence of `x` at position `k` keeps every
      other element, and in a list without repeats removes `x` entirely. */
  lemma DropAtFirst<T>(s: seq<T>, x: T, k: nat)
    requires k < |s| && s[k] == x && x !in s[..k]
    ensures var r := s[..k] + s[k + 1..];
            && |r| == |s| - 1
            && (forall y :: y in r ==> y in s)
            && (forall y :: y in s && y != x ==> y in r)
            && (NoRepeats(s) ==> NoRepeats(r) && x !in r)
  {
    var r := s[..k] + s[k + 1..];
    forall y | y in s && y != x ensures y in r {
      var j :| 0 <= j < |s| && s[j] == y;
      assert j < k ==> r[j] == y;
      assert j > k ==> r[j - 1] == y;
    }
    if NoRepeats(s) {
      forall i, j | 0 <= i < j < |r| ensures r[i] != r[j] {
        var i' := if i < k then i else i + 1;
        var j' := if j < k then j else j + 1;
        assert r[i] == s[i'] && r[j] == s[j'];
      }
      forall i | 0 <= i < |r| ensures r[i] != x {
        assert i < k ==> r[i] == s[i];
        assert i >= k ==> r[i] == s[i + 1];
      }
    }
  }

  /** List removal of the first occurrence of `x`: the cells before and
      after it stay, in their order. */
  function RemoveFirst<T(==)>(s: seq<T>, x: T): (r: seq<T>)
    requires x in s
    ensures r == s[..FirstIndex(s, x)] + s[FirstIndex(s, x) + 1..]
    ensures |r| == |s| - 1
    ensures forall y :: y in r ==> y in s
    ensures forall y :: y in s && y != x ==> y in r
    ensures NoRepeats(s) ==> NoRepeats(r) && x !in r
  {
    DropAtFirst(s, x, FirstIndex(s, x));
    if s[0] == x then s[1..]
    else
      var k := FirstIndex(s[1..], x);
      assert s[..k + 1] == [s[0]] + s[1..][..k] && s[k + 2..] == s[1..][k + 1..];
      [s[0]] + RemoveFirst(s[1..], x)
  }

  /** Reaching `n` through `current` costs strictly less than recorded. */
  predicate Improves(gScore: map<Cell, nat>, current: Cell, n: Cell)
    requires current in gScore
  {
    n !in gScore || gScore[current] + 1 < gScore[n]
  }

  /** The relaxation test is the scan's strict `<` between g(current) + 1
      and the recorded cost of `n`, infinite when there is none. */
  lemma ImprovesIsLess(gScore: map<Cell, nat>, current: Cell, n: Cell)
    requires current in gScore
    ensures Improves(gScore, current, n) <==> Less(Finite(gScore[current] + 1), CostOf(gScore, n))
  {
  }

  /** The cells of `ns` that a relaxation from `current` appends to the
      open set: those it improves and that are not already there, in order. */
  function Appended(ns: seq<Cell>, gScore: map<Cell, nat>, current: Cell, openSet: seq<Cell>): (r: seq<Cell>)
    requires current in gScore
    ensures forall y :: y in r ==> y in ns && y !in openSet
  {
    if ns == [] then []
    else
      var last := ns[|ns| - 1];
      Appended(ns[..|ns| - 1], gScore, current, openSet)
      + (if Improves(gScore, current, last) && last !in openSet then [last] else [])
  }

  /** The facts about the three tables that every iteration keeps. */
  ghost predicate Tables(grid: Grid, start: Cell, goal: Cell,
                         openSet: seq<Cell>, cameFrom: map<Cell, Cell>, gScore: map<Cell, nat>)
  {
    && NoRepeats(openSet)
    && (forall c :: c in openSet ==> c in gScore)
    && start in gScore && gScore[start] == 0
    && start !in cameFrom
    && (forall k :: k in gScore ==> InBounds(grid, k))
    && (forall k :: k in gScore <==> k == start || k in cameFrom)
    && ParentsDescend(cameFrom, gScore)
    && (forall k :: k in cameFrom ==> Step(grid, cameFrom[k], k))
    && (goal in gScore ==> goal in openSet)
  }

  /** Every cell with a cost that is out of the open set, except those in
      `pending`, has all its moves leading to cells with a cost at most one
      above its own. */
  ghost predicate Closed(grid: Grid, openSet: seq<Cell>, gScore: map<Cell, nat>, pending: set<Cell>) {
    forall k, n :: k in gScore && k !in openSet && k !in pending && Step(grid, k, n) ==>
      n in gScore && gScore[n] <= gScore[k] + 1
  }

  /** The open set after relaxing the cells `done` from `current`: the
      improved cells of `done` not yet open are appended in order. */
  ghost predicate OpenRelaxed(done: seq<Cell>, current: Cell, openSet: seq<Cell>, gScore: map<Cell, nat>,
                              openSet': seq<Cell>)
    requires current in gScore
  {
    openSet' == openSet + Appended(done, gScore, current, openSet)
  }

  /** The costs after relaxing the cells `done` from `current`: the improved
      cells of `done` cost g(current) + 1, every other cost is unchanged. */
  ghost predicate CostsRelaxed(done: seq<Cell>, current: Cell, gScore: map<Cell, nat>, gScore': map<Cell, nat>)
    requires current in gScore
  {
    && (forall n :: n in gScore' <==> n in gScore || n in done)
    && (forall n :: n in done && Improves(gScore, current, n) ==>
          n in gScore' && gScore'[n] == gScore[current] + 1)
    && (forall n :: n in gScore && !(n in done && Improves(gScore, current, n)) ==>
          n in gScore' && gScore'[n] == gScore[n])
  }

  /** The parents after relaxing the cells `done` from `current`: the
      improved cells of `done` have `current` as parent, every other entry
      is unchanged. */
  ghost predicate ParentsRelaxed(done: seq<Cell>, current: Cell, gScore: map<Cell, nat>,
                                 cameFrom: map<Cell, Cell>, cameFrom': map<Cell, Cell>)
    requires current in gScore
  {
    && (forall n :: n in done && Improves(gScore, current, n) ==> n in cameFrom' && cameFrom'[n] == current)
    && (forall n :: !(n in done && Improves(gScore, current, n)) ==>
          (n in cameFrom' <==> n in cameFrom) && (n in cameFrom ==> cameFrom'[n] == cameFrom[n]))
  }

  /** The three tables after relaxing the cells `done` from `current`:
      exactly the improved cells of `done` have `current` as new parent and
      g(current) + 1 as new cost, every other entry is as it was, and the
      improved cells not yet open are appended to the open set in order. */
  ghost predicate Relaxed(done: seq<Cell>, current: Cell,
                          openSet: seq<Cell>, cameFrom: map<Cell, Cell>, gScore: map<Cell, nat>,
                          openSet': seq<Cell>, cameFrom': map<Cell, Cell>, gScore': map<Cell, nat>)
    requires current in gScore
  {
    && OpenRelaxed(done, current, openSet, gScore, openSet')
    && CostsRelaxed(done, current, gScore, gScore')
    && ParentsRelaxed(done, current, gScore, cameFrom, cameFrom')
  }

  /** An improvement keeps costs falling along parent links: the new cost
      of `n` is one more than its new parent's, and the children of `n`
      were already above its old, higher cost. */
  lemma ImprovementKeepsParents(cameFrom: map<Cell, Cell>, gScore: map<Cell, nat>, current: Cell, n: Cell)
    requires ParentsDescend(cameFrom, gScore)
    requires current in gScore && Improves(gScore, current, n)
    ensures ParentsDescend(cameFrom[n := current], gScore[n := gScore[current] + 1])
  {
    var cameFrom', gScore' := cameFrom[n := current], gScore[n := gScore[current] + 1];
    forall k | k in cameFrom'
      ensures k in gScore' && cameFrom'[k] in gScore' && gScore'[cameFrom'[k]] < gScore'[k]
    {
      if k != n {
        assert cameFrom'[k] == cameFrom[k] && gScore'[k] == gScore[k];
      }
    }
  }

  /** An improvement keeps the closed cells closed: costs only fall, and
      the cell whose cost falls is open afterwards. */
  lemma ImprovementKeepsClosed(grid: Grid, openSet: seq<Cell>, gScore: map<Cell, nat>,
                               current: Cell, n: Cell, v: nat)
    requires Closed(grid, openSet, gScore, {current})
    requires n !in gScore || v < gScore[n]
    ensures Closed(grid, if n in openSet then openSet else openSet + [n], gScore[n := v], {current})
  {
    var openSet', gScore' := if n in openSet then openSet else openSet + [n], gScore[n := v];
    forall k, m | k in gScore' && k !in openSet' && k !in {current} && Step(grid, k, m)
      ensures m in gScore' && gScore'[m] <= gScore'[k] + 1
    {
      assert k in gScore && k !in openSet && k != n;
    }
  }

  /** One improvement keeps the table facts: `n`, one move from `current`,
      gets `current` as parent and cost g(current) + 1, and joins the open
      set if absent. */
  lemma ImprovementKeepsTables(grid: Grid, start: Cell, goal: Cell, current: Cell, n: Cell,
                               openSet: seq<Cell>, cameFrom: map<Cell, Cell>, gScore: map<Cell, nat>)
    requires Tables(grid, start, goal, openSet, cameFrom, gScore)
    requires current in gScore
    requires Step(grid, current, n) && Improves(gScore, current, n)
    ensures Tables(grid, start, goal, if n in openSet then openSet else openSet + [n],
                   cameFrom[n := current], gScore[n := gScore[current] + 1])
  {
    var openSet' := if n in openSet then openSet else openSet + [n];
    var gScore' := gScore[n := gScore[current] + 1];
    var cameFrom' := cameFrom[n := current];
    ImprovementKeepsParents(cameFrom, gScore, current, n);
    assert n != start;
    assert NoRepeats(openSet');
    assert forall c :: c in openSet' ==> c in gScore';
    assert forall k :: k in gScore' ==> InBounds(grid, k);
    assert forall k :: k in gScore' <==> k == start || k in cameFrom';
    assert forall k :: k in cameFrom' ==> Step(grid, cameFrom'[k], k);
  }

  /** Relaxing one more cell `x` extends the open-set description by `x`. */
  lemma OpenRelaxedExtends(done: seq<Cell>, x: Cell, current: Cell, openSet: seq<Cell>,
                           gScore: map<Cell, nat>, gScore1: map<Cell, nat>, improves: bool,
                           openSet1: seq<Cell>, openSet2: seq<Cell>)
    requires current in gScore && current in gScore1 && gScore1[current] == gScore[current]
    requires x !in done
    requires CostsRelaxed(done, current, gScore, gScore1)
    requires OpenRelaxed(done, current, openSet, gScore, openSet1)
    requires improves == Improves(gScore1, current, x)
    requires openSet2 == if improves && x !in openSet1 then openSet1 + [x] else openSet1
    ensures OpenRelaxed(done + [x], current, openSet, gScore, openSet2)
  {
    var done' := done + [x];
    assert done'[..|done'| - 1] == done;
    assert x in openSet1 <==> x in openSet;
    assert Improves(gScore1, current, x) == Improves(gScore, current, x);
  }

  /** Relaxing one more cell `x` extends the cost description by `x`. */
  lemma CostsRelaxedExtends(done: seq<Cell>, x: Cell, current: Cell,
                            gScore: map<Cell, nat>, gScore1: map<Cell, nat>, gScore2: map<Cell, nat>)
    requires current in gScore && current in gScore1 && gScore1[current] == gScore[current]
    requires x !in done && x != current
    requires CostsRelaxed(done, current, gScore, gScore1)
    requires gScore2 == if Improves(gScore1, current, x) then gScore1[x := gScore1[current] + 1] else gScore1
    ensures Improves(gScore1, current, x) == Improves(gScore, current, x)
    ensures CostsRelaxed(done + [x], current, gScore, gScore2)
  {
  }

  /** Relaxing one more cell `x` extends the parent description by `x`. */
  lemma ParentsRelaxedExtends(done: seq<Cell>, x: Cell, current: Cell, gScore: map<Cell, nat>,
                              cameFrom: map<Cell, Cell>, cameFrom1: map<Cell, Cell>, cameFrom2: map<Cell, Cell>)
    requires current in gScore
    requires ParentsRelaxed(done, current, gScore, cameFrom, cameFrom1)
    requires cameFrom2 == if Improves(gScore, current, x) then cameFrom1[x := current] else cameFrom1
    ensures ParentsRelaxed(done + [x], current, gScore, cameFrom, cameFrom2)
  {
  }

  /** Once all of `current`'s moves are relaxed, `current` is closed too,
      and no cost has risen. */
  lemma RelaxedCloses(grid: Grid, current: Cell, ns: seq<Cell>, openSet': seq<Cell>,
                      gScore: map<Cell, nat>, gScore': map<Cell, nat>)
    requires current in gScore && current !in openSet'
    requires forall n :: n in ns <==> Step(grid, current, n)
    requires CostsRelaxed(ns, current, gScore, gScore')
    requires Closed(grid, openSet', gScore', {current})
    ensures Closed(grid, openSet', gScore', {})
    ensures forall n :: n in gScore ==> n in gScore' && gScore'[n] <= gScore[n]
  {
    assert current !in ns && gScore'[current] == gScore[current];
    forall k, m | k in gScore' && k !in openSet' && Step(grid, k, m)
      ensures m in gScore' && gScore'[m] <= gScore'[k] + 1
    {
      if k == current {
        assert m in ns;
      }
    }
  }

  /** The next element of a list without repeats extends its prefix and is
      not already in it. */
  lemma PrefixExtends<T>(s: seq<T>, i: nat)
    requires NoRepeats(s) && i < |s|
    ensures s[..i + 1] == s[..i] + [s[i]]
    ensures s[i] !in s[..i]
  {
    assert s[..i + 1] == s[..i] + [s[i]];
  }

  /** What holds between neighbours in the inner loop: the tables of the
      search, with `current` closed except for its moves, hold exactly the
      relaxation of the neighbours `done` applied to the tables before the
      loop, and the termination measure is no higher than before. */
  ghost predicate RelaxingFrom(grid: Grid, start: Cell, goal: Cell, current: Cell, done: seq<Cell>,
                               openSet0: seq<Cell>, cameFrom0: map<Cell, Cell>, gScore0: map<Cell, nat>,
                               openSet: seq<Cell>, cameFrom: map<Cell, Cell>, gScore: map<Cell, nat>)
  {
    && current in gScore0 && current in gScore && gScore[current] == gScore0[current]
    && current !in openSet
    && Tables(grid, start, goal, openSet, cameFrom, gScore)
    && Closed(grid, openSet, gScore, {current})
    && Relaxed(done, current, openSet0, cameFrom0, gScore0, openSet, cameFrom, gScore)
    && (|| Below(AllCells(grid), gScore, gScore0)
        || (gScore == gScore0 && cameFrom == cameFrom0 && openSet == openSet0))
  }

  /** The body of the inner loop for one neighbour: when going through
      `current` is strictly cheaper, `neighbor` gets `current` as parent and
      cost g(current) + 1, and is appended to the open set if absent. The
      ghost parameters are the tables before the loop and the neighbours
      `done` before this one. */
  method RelaxNeighbor(grid: Grid, start: Cell, goal: Cell, current: Cell, neighbor: Cell,
                       ghost done: seq<Cell>, ghost openSet0: seq<Cell>,
                       ghost cameFrom0: map<Cell, Cell>, ghost gScore0: map<Cell, nat>,
                       openSet: seq<Cell>, cameFrom: map<Cell, Cell>, gScore: map<Cell, nat>)
    returns (openSet': seq<Cell>, cameFrom': map<Cell, Cell>, gScore': map<Cell, nat>)
    requires Step(grid, current, neighbor) && neighbor !in done
    requires RelaxingFrom(grid, start, goal, current, done, openSet0, cameFrom0, gScore0,
                          openSet, cameFrom, gScore)
    ensures RelaxingFrom(grid, start, goal, current, done + [neighbor], openSet0, cameFrom0, gScore0,
                         openSet', cameFrom', gScore')
  {
    openSet', cameFrom', gScore' := openSet, cameFrom, gScore;
    ghost var cells := AllCells(grid);
    var tentativeG := gScore[current] + 1;
    ghost var improves := Improves(gScore, current, neighbor);
    if neighbor !in gScore || tentativeG < gScore[neighbor] {
      ImprovementDescends(cells, gScore, neighbor, tentativeG);
      ImprovementKeepsTables(grid, start, goal, current, neighbor, openSet, cameFrom, gScore);
      ImprovementKeepsClosed(grid, openSet, gScore, current, neighbor, tentativeG);
      cameFrom' := cameFrom[neighbor := current];
      gScore' := gScore[neighbor := tentativeG];
      openSet' := if neighbor !in openSet then openSet + [neighbor] else openSet;
      if Below(cells, gScore, gScore0) {
        BelowTransitive(cells, gScore', gScore, gScore0);
      }
    }
    CostsRelaxedExtends(done, neighbor, current, gScore0, gScore, gScore');
    OpenRelaxedExtends(done, neighbor, current, openSet0, gScore0, gScore, improves, openSet, openSet');
    ParentsRelaxedExtends(done, neighbor, current, gScore0, cameFrom0, cameFrom, cameFrom');
  }

  /** The inner loop over the neighbours of `current` (already removed from
      the open set): each improved neighbour gets `current` as parent and
      cost g(current) + 1, and is appended to the open set if absent. */
  method Relax(grid: Grid, start: Cell, goal: Cell, current: Cell,
               openSet: seq<Cell>, cameFrom: map<Cell, Cell>, gScore: map<Cell, nat>)
    returns (openSet': seq<Cell>, cameFrom': map<Cell, Cell>, gScore': map<Cell, nat>)
    requires Rectangular(grid)
    requires Tables(grid, start, goal, openSet, cameFrom, gScore)
    requires current in gScore && current !in openSet
    requires Closed(grid, openSet, gScore, {current})
    ensures Relaxed(Neighbors(grid, current), current, openSet, cameFrom, gScore, openSet', cameFrom', gScore')
    ensures forall n :: n in gScore ==> n in gScore' && gScore'[n] <= gScore[n]
    ensures Tables(grid, start, goal, openSet', cameFrom', gScore')
    ensures Closed(grid, openSet', gScore', {})
    ensures || Below(AllCells(grid), gScore', gScore)
            || (gScore' == gScore && cameFrom' == cameFrom && openSet' == openSet)
  {
    var ns := Neighbors(grid, current);
    NeighborsDistinct(grid, current);
    openSet', cameFrom', gScore' := openSet, cameFrom, gScore;
    var i := 0;
    while i < |ns|
      invariant 0 <= i <= |ns|
      invariant RelaxingFrom(grid, start, goal, current, ns[..i], openSet, cameFrom, gScore,
                             openSet', cameFrom', gScore')
    {
      var neighbor := ns[i];
      PrefixExtends(ns, i);
      openSet', cameFrom', gScore' := RelaxNeighbor(grid, start, goal, current, neighbor, ns[..i],
                                                    openSet, cameFrom, gScore, openSet', cameFrom', gScore');
      i := i + 1;
    }
    assert ns[..i] == ns;
    RelaxedCloses(grid, current, ns, openSet', gScore, gScore');
  }

  /** Along a walk whose first cell costs at most `c0`, either the last
      cell costs at most `c0` plus the number of moves, or some open cell
      of the walk costs at most `c0` plus its position: the closed cells
      pass a cheap cost on to the next cell. */
  lemma {:induction false} OpenCellOnWalk(grid: Grid, openSet: seq<Cell>, gScore: map<Cell, nat>,
                                          p: seq<Cell>, c0: nat)
    requires Closed(grid, openSet, gScore, {})
    requires |p| > 0 && IsWalk(grid, p) && p[0] in gScore && gScore[p[0]] <= c0
    ensures || (p[|p| - 1] in gScore && gScore[p[|p| - 1]] <= c0 + |p| - 1)
            || (exists i :: 0 <= i < |p| && p[i] in openSet && p[i] in gScore && gScore[p[i]] <= c0 + i)
  {
    if p[0] !in openSet && |p| > 1 {
      assert Step(grid, p[0], p[1]);
      var rest := p[1..];
      WalkSuffix(grid, p, 1);
      OpenCellOnWalk(grid, openSet, gScore, rest, c0 + 1);
      if exists i :: 0 <= i < |rest| && rest[i] in openSet && rest[i] in gScore && gScore[rest[i]] <= c0 + 1 + i {
        var i :| 0 <= i < |rest| && rest[i] in openSet && rest[i] in gScore && gScore[rest[i]] <= c0 + 1 + i;
        assert p[i + 1] == rest[i];
      }
    }
  }

  /** An open cell at position `i` of a walk to the goal, costing at most
      `i`, has an f-score at most the walk's number of moves, since the
      heuristic never overestimates; the goal, no higher in f-score, costs
      no more than that. */
  lemma OpenCellBoundsGoal(grid: Grid, goal: Cell, openSet: seq<Cell>, gScore: map<Cell, nat>,
                           p: seq<Cell>, i: nat, j: nat)
    requires goal in gScore
    requires j < |openSet| && !Less(FScore(gScore, openSet[j], goal), FScore(gScore, goal, goal))
    requires IsWalk(grid, p) && i < |p| && p[|p| - 1] == goal
    requires openSet[j] == p[i] && p[i] in gScore && gScore[p[i]] <= i
    ensures gScore[goal] <= |p| - 1
  {
    WalkSuffix(grid, p, i);
    ManhattanAdmissible(grid, p[i..]);
  }

  /** When the goal is the open cell of lowest f-score, its cost is at most
      the number of moves of any walk from `start` to it. */
  lemma GoalCostOptimal(grid: Grid, start: Cell, goal: Cell, openSet: seq<Cell>, gScore: map<Cell, nat>,
                        p: seq<Cell>)
    requires Closed(grid, openSet, gScore, {})
    requires start in gScore && gScore[start] == 0 && goal in gScore
    requires forall j :: 0 <= j < |openSet| ==> !Less(FScore(gScore, openSet[j], goal), FScore(gScore, goal, goal))
    requires IsPath(grid, start, goal, p)
    ensures gScore[goal] <= |p| - 1
  {
    OpenCellOnWalk(grid, openSet, gScore, p, 0);
    if exists i :: 0 <= i < |p| && p[i] in openSet && p[i] in gScore && gScore[p[i]] <= i {
      var i :| 0 <= i < |p| && p[i] in openSet && p[i] in gScore && gScore[p[i]] <= i;
      var j :| 0 <= j < |openSet| && openSet[j] == p[i];
      OpenCellBoundsGoal(grid, goal, openSet, gScore, p, i, j);
    }
  }

  /** A chain of parent links that ends at `goal` and begins at a cell
      without a parent begins at `start` and is a walk; with no parent
      links at all it is the one-cell path. */
  lemma ParentChainIsPath(grid: Grid, start: Cell, goal: Cell, openSet: seq<Cell>,
                          cameFrom: map<Cell, Cell>, gScore: map<Cell, nat>, path: seq<Cell>)
    requires Tables(grid, start, goal, openSet, cameFrom, gScore) && goal in gScore
    requires |path| > 0 && path[|path| - 1] == goal && path[0] !in cameFrom
    requires forall i :: 0 < i < |path| ==> path[i] in cameFrom && cameFrom[path[i]] == path[i - 1]
    ensures IsPath(grid, start, goal, path)
    ensures cameFrom == map[] ==> path == [start]
    ensures |path| - 1 <= gScore[goal]
  {
    assert path[0] in gScore by {
      if |path| > 1 {
        assert path[1] in cameFrom && cameFrom[path[1]] == path[0];
      }
    }
    forall j | 0 <= j < |path| - 1 ensures Step(grid, path[j], path[j + 1]) {
      assert cameFrom[path[j + 1]] == path[j];
    }
    ChainCosts(cameFrom, gScore, path, |path| - 1);
  }

  /** A* from `start` to `goal`: a walk of free cells that visits no cell
      twice, or None only when no walk from `start` reaches `goal`. */
  method AStar(start: Cell, goal: Cell, grid: Grid) returns (result: Option<seq<Cell>>)
    requires Rectangular(grid) && InBounds(grid, start)
    ensures result.Some? ==> IsPath(grid, start, goal, result.value) && NoRepeats(result.value)
    ensures result.Some? ==> forall p :: IsPath(grid, start, goal, p) ==> |result.value| <= |p|
    ensures result.None? ==> forall p :: !IsPath(grid, start, goal, p)
    ensures start == goal ==> result == Some([start])
  {
    var openSet := [start];
    var cameFrom: map<Cell, Cell> := map[];
    var gScore: map<Cell, nat> := map[start := 0];
    ghost var cells := AllCells(grid);

    while |openSet| > 0
      invariant Tables(grid, start, goal, openSet, cameFrom, gScore)
      invariant Closed(grid, openSet, gScore, {})
      invariant start == goal ==> openSet == [start] && cameFrom == map[]
      decreases Unvisited(cells, gScore), Spent(cells, gScore), |openSet|
    {
      var i := SelectLowest(openSet, gScore, goal);
      var current := openSet[i];

      if current == goal {
        var path := ReconstructPath(cameFrom, current, gScore);
        ParentChainIsPath(grid, start, goal, openSet, cameFrom, gScore, path);
        forall p | IsPath(grid, start, goal, p) ensures |path| <= |p| {
          GoalCostOptimal(grid, start, goal, openSet, gScore, p);
        }
        return Some(path);
      }

      openSet := RemoveFirst(openSet, current);
      openSet, cameFrom, gScore := Relax(grid, start, goal, current, openSet, cameFrom, gScore);
    }

    forall p | IsPath(grid, start, goal, p) ensures false {
      OpenCellOnWalk(grid, openSet, gScore, p, 0);
    }
    return None;
  }
}
