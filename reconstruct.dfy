/** Rebuilding the start-to-goal path from the child-to-parent table. */
module Reconstruct {
  import opened Geometry

  /** Every parent link leads to a cell with a strictly smaller recorded
      cost; this is what makes parent chains finite and free of cycles. */
  ghost predicate ParentsDescend(cameFrom: map<Cell, Cell>, gScore: map<Cell, nat>) {
    forall k :: k in cameFrom ==> k in gScore && cameFrom[k] in gScore && gScore[cameFrom[k]] < gScore[k]
  }

  /** The list reversed, as the in-place list reversal leaves it. */
  function Reverse<T>(s: seq<T>): (r: seq<T>)
    ensures |r| == |s|
    ensures forall k :: 0 <= k < |s| ==> r[k] == s[|s| - 1 - k]
  {
    if s == [] then [] else Reverse(s[1..]) + [s[0]]
  }

  /** Costs rise by at least one along each parent link, so the cell `k`
      links after the first costs at least `k` more than it. */
  lemma {:induction false} ChainCosts(cameFrom: map<Cell, Cell>, gScore: map<Cell, nat>, path: seq<Cell>, k: nat)
    requires ParentsDescend(cameFrom, gScore)
    requires forall i :: 0 < i < |path| ==> path[i] in cameFrom && cameFrom[path[i]] == path[i - 1]
    requires k < |path| && path[0] in gScore
    ensures path[k] in gScore && gScore[path[k]] >= gScore[path[0]] + k
  {
    if k > 0 {
      ChainCosts(cameFrom, gScore, path, k - 1);
      assert path[k] in cameFrom && cameFrom[path[k]] == path[k - 1];
    }
  }

  /** Follows parent links back from `current` until a cell with no parent,
      then reverses the collected cells. `gScore` is only the witness that
      the chain ends: costs strictly fall along every parent link. */
  method ReconstructPath(cameFrom: map<Cell, Cell>, current: Cell, ghost gScore: map<Cell, nat>)
    returns (path: seq<Cell>)
    requires ParentsDescend(cameFrom, gScore)
    ensures |path| > 0 && path[|path| - 1] == current
    ensures path[0] !in cameFrom
    ensures forall i :: 0 < i < |path| ==> path[i] in cameFrom && cameFrom[path[i]] == path[i - 1]
    ensures forall i, j :: 0 <= i < j < |path| ==>
              path[i] in gScore && path[j] in gScore && gScore[path[i]] < gScore[path[j]]
    ensures NoRepeats(path)
  {
    var cell := current;
    var chain := [cell];
    while cell in cameFrom
      invariant |chain| > 0 && chain[0] == current && chain[|chain| - 1] == cell
      invariant forall i :: 0 <= i < |chain| - 1 ==> chain[i] in cameFrom && cameFrom[chain[i]] == chain[i + 1]
      invariant forall i, j :: 0 <= i < j < |chain| ==>
                  chain[i] in gScore && chain[j] in gScore && gScore[chain[j]] < gScore[chain[i]]
      decreases if cell in gScore then gScore[cell] + 1 else 0
    {
      cell := cameFrom[cell];
      chain := chain + [cell];
    }
    path := Reverse(chain);
    var n := |chain|;
    assert path[0] == chain[n - 1];
    forall i | 0 < i < n
      ensures path[i] in cameFrom && cameFrom[path[i]] == path[i - 1]
    {
      assert path[i] == chain[n - 1 - i] && path[i - 1] == chain[n - i];
    }
    forall i, j | 0 <= i < j < n
      ensures path[i] in gScore && path[j] in gScore && gScore[path[i]] < gScore[path[j]]
    {
      assert path[i] == chain[n - 1 - i] && path[j] == chain[n - 1 - j];
    }
  }
}
