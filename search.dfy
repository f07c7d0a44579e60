/**
 * The bookkeeping of the A* search in NodesGrid.FindPath, stated over the
 * cells it runs on: routes, parent links with their costs, and the open and
 * closed lists between and during expansions.
 */
module Search {
  import opened Nodes
  import opened GridGeometry
  import opened Collections

  /**
   * Once a cell carries its heuristic towards the goal, its f-cost is never
   * below its g-cost, and equals it exactly at the goal.
   */
  lemma FCostWithHeuristic(n: Node, end: Node)
    requires n.hCost == CountHCost(n.x, n.y, end.x, end.y)
    ensures n.FCost() >= n.gCost
    ensures n.FCost() == n.gCost <==> n.x == end.x && n.y == end.y
  {
  }

  /** Cost of walking a list of cells, one step cost per consecutive pair. */
  function PathCost(p: seq<Node>): (r: int) {
    if |p| <= 1 then 0 else StepCost(p[0].x, p[0].y, p[1].x, p[1].y) + PathCost(p[1..])
  }

  ghost predicate InCells(s: seq<Node>, cells: set<Node>) {
    forall k :: 0 <= k < |s| ==> s[k] in cells
  }

  /** p is a route from start to end along the links, every cell after the first walkable. */
  ghost predicate IsWalk(older p: seq<Node>, start: Node, end: Node, cells: set<Node>)
    reads cells`nearestNodes, cells`walkable
  {
    |p| >= 1 && p[0] == start && p[|p| - 1] == end && InCells(p, cells) &&
    forall k :: 0 < k < |p| ==> WalkStep(p, k, cells)
  }

  /** Some route leads from start to end. */
  ghost predicate Reachable(start: Node, end: Node, cells: set<Node>)
    reads cells`nearestNodes, cells`walkable
  {
    exists p :: IsWalk(p, start, end, cells)
  }

  /** Entry k of p is a walkable cell linked from the entry before it. */
  ghost predicate WalkStep(p: seq<Node>, k: int, cells: set<Node>)
    requires 0 < k < |p|
    reads cells`nearestNodes, cells`walkable
  {
    p[k - 1] in cells && p[k] in cells && p[k] in p[k - 1].nearestNodes && p[k].walkable
  }

  /** Entry k of p has the entry before it as parent. */
  ghost predicate ParentStep(p: seq<Node>, k: int)
    requires 0 < k < |p|
    reads p[k]
  {
    p[k].parentNode == p[k - 1]
  }

  /** n is walkable and was reached in one step from its parent, at the g-cost of that step. */
  ghost predicate Stepped(n: Node, cells: set<Node>)
    reads n, if n.parentNode != null && n.parentNode in cells then {n.parentNode} else {}
  {
    n in cells && n.parentNode != null && n.parentNode in cells &&
    n in n.parentNode.nearestNodes && n.walkable &&
    n.gCost == n.parentNode.gCost + StepCost(n.parentNode.x, n.parentNode.y, n.x, n.y)
  }

  /** A reached cell other than the start: stepped to from a parent among P, with its heuristic towards end. */
  ghost predicate Parented(n: Node, P: seq<Node>, end: Node, cells: set<Node>)
    reads n, if n.parentNode != null && n.parentNode in cells then {n.parentNode} else {}
  {
    Stepped(n, cells) && n.parentNode in P && n.hCost == CountHCost(n.x, n.y, end.x, end.y)
  }

  /** The closed list in expansion order: the start first, every later entry parented by an earlier one. */
  ghost predicate ClosedChain(closed: seq<Node>, start: Node, end: Node, cells: set<Node>)
    reads cells
  {
    InCells(closed, cells) && NoDups(closed) && (closed != [] ==> closed[0] == start) &&
    forall i :: 0 < i < |closed| ==> ChainLink(closed, i, end, cells)
  }

  /** Entry i of the closed list C is parented by an earlier entry. */
  ghost predicate ChainLink(C: seq<Node>, i: int, end: Node, cells: set<Node>)
    requires 0 < i < |C|
    reads C[i], if C[i].parentNode != null && C[i].parentNode in cells then {C[i].parentNode} else {}
  {
    Parented(C[i], C[..i], end, cells)
  }

  /** Every walkable neighbour of a cell of C is on the open or the closed list. */
  ghost predicate Closure(C: seq<Node>, open: seq<Node>, closed: seq<Node>, cells: set<Node>)
    reads cells`nearestNodes, cells`walkable
  {
    forall c, m :: c in C && c in cells && m in c.nearestNodes && m in cells && m.walkable ==> m in open || m in closed
  }

  /** The open list: cells without repeats, none of them closed. */
  ghost predicate OpenList(open: seq<Node>, closed: seq<Node>, cells: set<Node>) {
    InCells(open, cells) && NoDups(open) && forall n :: n in open ==> n !in closed
  }

  /** The state between two rounds of the search from start towards end. */
  ghost predicate Explored(open: seq<Node>, closed: seq<Node>, start: Node, end: Node, cells: set<Node>)
    reads cells
  {
    ClosedChain(closed, start, end, cells) && OpenList(open, closed, cells) &&
    (closed == [] ==> open == [start]) && end !in closed &&
    (forall n :: n in open && n != start ==> Parented(n, closed, end, cells)) &&
    Closure(closed, open, closed, cells)
  }

  /** The state while the first i neighbours of current have been relaxed. */
  ghost predicate Relaxing(open: seq<Node>, closed: seq<Node>, current: Node, i: int, start: Node, end: Node, cells: set<Node>)
    reads cells
  {
    ClosedChain(closed, start, end, cells) && OpenList(open, closed, cells) &&
    current in cells && Expanding(open, closed, current, start, end, cells) &&
    OpenParented(open, closed + [current], current, start, end, cells) &&
    Closure(closed, open, closed, cells) && NeighboursDone(open, closed, current, i, cells)
  }

  /** current is an open cell other than the goal, first the start, later parented by a closed cell. */
  ghost predicate Expanding(open: seq<Node>, closed: seq<Node>, current: Node, start: Node, end: Node, cells: set<Node>)
    reads current, if current.parentNode != null && current.parentNode in cells then {current.parentNode} else {}
  {
    current in open && current != end && (closed == [] ==> current == start) && end !in closed &&
    (current != start ==> Parented(current, closed, end, cells))
  }

  /** Every open cell of the grid other than the start and current is parented by a cell of P. */
  ghost predicate OpenParented(open: seq<Node>, P: seq<Node>, current: Node, start: Node, end: Node, cells: set<Node>)
    reads cells
  {
    forall n :: n in open && n in cells && n != start && n != current ==> Parented(n, P, end, cells)
  }

  /** The first i neighbours of current that are walkable cells are open or closed. */
  ghost predicate NeighboursDone(open: seq<Node>, closed: seq<Node>, current: Node, i: int, cells: set<Node>)
    reads current, cells`walkable
  {
    0 <= i <= |current.nearestNodes| &&
    forall k :: 0 <= k < i && current.nearestNodes[k] in cells && current.nearestNodes[k].walkable ==>
      current.nearestNodes[k] in open || current.nearestNodes[k] in closed
  }

  /** The search starts with only the start cell open. */
  lemma ExploredAtStart(start: Node, end: Node, cells: set<Node>)
    requires start in cells
    ensures Explored([start], [], start, end, cells)
  {
  }

  /** Picking a cell other than the goal from the open list starts its expansion. */
  lemma StartRelax(open: seq<Node>, closed: seq<Node>, current: Node, start: Node, end: Node, cells: set<Node>)
    requires Explored(open, closed, start, end, cells) && current in open && current != end
    ensures Relaxing(open, closed, current, 0, start, end, cells)
  {
    forall n | n in open && n != start && n != current ensures Parented(n, closed + [current], end, cells) {
      assert Parented(n, closed, end, cells);
    }
  }

  /** A neighbour that is unwalkable, closed or already open needs no update. */
  lemma RelaxSkip(open: seq<Node>, closed: seq<Node>, current: Node, i: int, start: Node, end: Node, cells: set<Node>)
    requires Relaxing(open, closed, current, i, start, end, cells) && i < |current.nearestNodes|
    requires var node := current.nearestNodes[i]; !node.walkable || node in closed || node in open
    ensures Relaxing(open, closed, current, i + 1, start, end, cells)
  {
  }

  /**
   * The neighbour about to be updated is neither closed nor current, so it is
   * not the parent of any closed cell, of current, or of another open cell.
   */
  lemma RelaxFrame(open: seq<Node>, closed: seq<Node>, current: Node, i: int, start: Node, end: Node, cells: set<Node>)
    requires Relaxing(open, closed, current, i, start, end, cells) && i < |current.nearestNodes|
    requires current.nearestNodes[i] !in closed && current.nearestNodes[i] != current
    ensures var node := current.nearestNodes[i];
            (forall k :: 0 < k < |closed| ==> closed[k].parentNode != node) &&
            (current != start ==> current.parentNode != node) &&
            (forall n :: n in open && n != start && n != current ==> n.parentNode != node)
  {
    var node := current.nearestNodes[i];
    forall k | 0 < k < |closed| ensures closed[k].parentNode != node {
      assert ChainLink(closed, k, end, cells);
    }
    forall n | n in open && n != start && n != current ensures n.parentNode != node {
      assert Parented(n, closed + [current], end, cells);
    }
  }

  /**
   * After the update of neighbour i of current, which gives it current as
   * parent and opens it, the relaxation has covered i + 1 neighbours.
   */
  lemma RelaxUpdate(open: seq<Node>, open': seq<Node>, closed: seq<Node>, current: Node, i: int, start: Node, end: Node, cells: set<Node>)
    requires ClosedChain(closed, start, end, cells) && OpenList(open, closed, cells)
    requires Expanding(open, closed, current, start, end, cells) && current in cells
    requires NeighboursDone(open, closed, current, i, cells) && i < |current.nearestNodes|
    requires Closure(closed, open, closed, cells)
    requires var node := current.nearestNodes[i];
             node in cells && node !in closed && node != current && node != start &&
             open' == open + (if node in open then [] else [node]) &&
             Parented(node, closed + [current], end, cells) &&
             forall n :: n in open && n != start && n != current && n != node ==> Parented(n, closed + [current], end, cells)
    ensures Relaxing(open', closed, current, i + 1, start, end, cells)
  {
    var node := current.nearestNodes[i];
    if node !in open {
      NoDupsSnoc(open, node);
    }
  }

  /** Moving the fully relaxed cell from the open to the closed list restores the between-rounds state. */
  lemma FinishRelax(open: seq<Node>, closed: seq<Node>, current: Node, start: Node, end: Node, cells: set<Node>)
    requires Relaxing(open, closed, current, |current.nearestNodes|, start, end, cells)
    ensures Explored(Remove(open, current), closed + [current], start, end, cells)
  {
    RemoveUnique(open, current);
    ChainSnoc(closed, current, start, end, cells);
    OpenMove(open, closed, current, cells);
    ClosureMove(open, closed, current, cells);
  }

  /**
   * The open list after relaxing the neighbours nbrs in order: each walkable,
   * unclosed neighbour not yet open is appended.
   */
  ghost function Extended(open: seq<Node>, nbrs: seq<Node>, closed: seq<Node>): (r: seq<Node>)
    reads nbrs`walkable
  {
    if nbrs == [] then open
    else
      var node := nbrs[|nbrs| - 1];
      var o := Extended(open, nbrs[..|nbrs| - 1], closed);
      o + if node.walkable && node !in closed && node !in o then [node] else []
  }

  /** The open list is open0 extended by nbrs. */
  ghost predicate Opened(open: seq<Node>, open0: seq<Node>, nbrs: seq<Node>, closed: seq<Node>)
    reads nbrs`walkable
  {
    open == Extended(open0, nbrs, closed)
  }

  /** Extending open0 by nbrs adds exactly the walkable, unclosed cells of nbrs. */
  lemma {:induction false} ExtendedMembers(open0: seq<Node>, nbrs: seq<Node>, closed: seq<Node>)
    ensures forall n :: n in Extended(open0, nbrs, closed) <==> n in open0 || (n in nbrs && n.walkable && n !in closed)
  {
    if nbrs != [] {
      var p := nbrs[..|nbrs| - 1];
      ExtendedMembers(open0, p, closed);
      assert nbrs == p + [nbrs[|nbrs| - 1]];
    }
  }

  /** Relaxing one more neighbour opens it exactly when it is walkable, unclosed and not yet open. */
  lemma OpenedSnoc(open: seq<Node>, open': seq<Node>, open0: seq<Node>, nbrs: seq<Node>, i: int, closed: seq<Node>)
    requires 0 <= i < |nbrs| && Opened(open, open0, nbrs[..i], closed)
    requires open' == open + if nbrs[i].walkable && nbrs[i] !in closed && nbrs[i] !in open then [nbrs[i]] else []
    ensures Opened(open', open0, nbrs[..i + 1], closed)
  {
    assert nbrs[..i + 1][..i] == nbrs[..i];
    assert nbrs[..i + 1] == nbrs[..i] + [nbrs[i]];
  }

  /**
   * Expanding current ends with current moved to the closed list and the open
   * list grown by exactly its walkable, unclosed neighbours.
   */
  lemma ExpandFinish(open: seq<Node>, open0: seq<Node>, closed: seq<Node>, current: Node, start: Node, end: Node, cells: set<Node>)
    requires Relaxing(open, closed, current, |current.nearestNodes|, start, end, cells)
    requires Opened(open, open0, current.nearestNodes, closed)
    ensures Explored(Remove(open, current), closed + [current], start, end, cells)
    ensures forall n :: n in Remove(open, current) <==>
              n != current && (n in open0 || (n in current.nearestNodes && n.walkable && n !in closed))
  {
    FinishRelax(open, closed, current, start, end, cells);
    ExtendedMembers(open0, current.nearestNodes, closed);
    RemoveUnique(open, current);
  }

  /** Appending a cell parented by a closed one keeps the closed list a chain from the start. */
  lemma ChainSnoc(closed: seq<Node>, current: Node, start: Node, end: Node, cells: set<Node>)
    requires ClosedChain(closed, start, end, cells) && current in cells && current !in closed
    requires closed == [] ==> current == start
    requires current != start ==> Parented(current, closed, end, cells)
    ensures ClosedChain(closed + [current], start, end, cells)
  {
    var closed' := closed + [current];
    NoDupsSnoc(closed, current);
    forall i | 0 < i < |closed'| ensures ChainLink(closed', i, end, cells) {
      if i < |closed| {
        assert closed'[..i] == closed[..i] && ChainLink(closed, i, end, cells);
      } else {
        assert closed'[..i] == closed;
      }
    }
  }

  /** Moving a cell from the open to the closed list keeps the two lists apart. */
  lemma OpenMove(open: seq<Node>, closed: seq<Node>, current: Node, cells: set<Node>)
    requires OpenList(open, closed, cells) && current in open
    ensures OpenList(Remove(open, current), closed + [current], cells)
  {
    RemoveUnique(open, current);
    var open' := Remove(open, current);
    forall k | 0 <= k < |open'| ensures open'[k] in cells {
      assert open'[k] in open;
    }
  }

  /** Once all neighbours of current are relaxed, moving it to the closed list keeps the closure. */
  lemma ClosureMove(open: seq<Node>, closed: seq<Node>, current: Node, cells: set<Node>)
    requires NoDups(open) && current in cells && Closure(closed, open, closed, cells)
    requires forall k :: 0 <= k < |current.nearestNodes| && current.nearestNodes[k] in cells && current.nearestNodes[k].walkable ==>
               current.nearestNodes[k] in open || current.nearestNodes[k] in closed
    ensures Closure(closed + [current], Remove(open, current), closed + [current], cells)
  {
    RemoveUnique(open, current);
    forall c, m | c in closed + [current] && c in cells && m in c.nearestNodes && m in cells && m.walkable
      ensures m in Remove(open, current) || m in closed + [current]
    {
      if c == current {
        var k :| 0 <= k < |current.nearestNodes| && current.nearestNodes[k] == m;
      }
    }
  }

  /** A route that leaves from a set of cells whose walkable neighbours are all inside it never leaves it. */
  lemma {:induction false} WalkStaysInside(p: seq<Node>, start: Node, end: Node, closed: seq<Node>, cells: set<Node>, k: int)
    requires IsWalk(p, start, end, cells) && start in closed && Closure(closed, [], closed, cells)
    requires 0 <= k < |p|
    ensures p[k] in closed
    decreases k
  {
    if k > 0 {
      WalkStaysInside(p, start, end, closed, cells, k - 1);
      assert WalkStep(p, k, cells);
    }
  }

  /** When the open list runs out without reaching the goal, no route from the start reaches it. */
  lemma NoWalk(closed: seq<Node>, start: Node, end: Node, cells: set<Node>)
    requires Explored([], closed, start, end, cells)
    ensures forall p :: !IsWalk(p, start, end, cells)
  {
    forall p | IsWalk(p, start, end, cells) ensures false {
      WalkStaysInside(p, start, end, closed, cells, |p| - 1);
    }
  }

  /** Along a chain of parent links, the step costs sum to the difference of the g-costs at its ends. */
  lemma {:induction false} ChainCost(p: seq<Node>, cells: set<Node>)
    requires |p| >= 1
    requires forall k :: 0 < k < |p| ==> ParentStep(p, k) && Stepped(p[k], cells)
    ensures PathCost(p) == p[|p| - 1].gCost - p[0].gCost
  {
    if |p| > 1 {
      assert Stepped(p[1], cells) && ParentStep(p, 1);
      forall k | 0 < k < |p[1..]| ensures ParentStep(p[1..], k) && Stepped(p[1..][k], cells) {
        assert ParentStep(p, k + 1) && Stepped(p[k + 1], cells);
      }
      ChainCost(p[1..], cells);
    }
  }

  /** A chain of parent links through stepped cells is a route. */
  lemma ChainIsWalk(p: seq<Node>, start: Node, end: Node, cells: set<Node>)
    requires |p| >= 1 && p[0] == start && p[|p| - 1] == end && start in cells
    requires forall k :: 0 < k < |p| ==> ParentStep(p, k) && Stepped(p[k], cells)
    ensures IsWalk(p, start, end, cells)
  {
    forall k | 0 <= k < |p| ensures p[k] in cells {
      if k > 0 {
        assert Stepped(p[k], cells);
      }
    }
    forall k | 0 < k < |p| ensures WalkStep(p, k, cells) {
      assert ParentStep(p, k) && Stepped(p[k], cells);
    }
  }

  /** Every cell after the first of a duplicate-free list drawn from the closed list and the goal was stepped to. */
  lemma TraceStepped(p: seq<Node>, open: seq<Node>, closed: seq<Node>, start: Node, end: Node, cells: set<Node>)
    requires Explored(open, closed, start, end, cells) && end in open
    requires |p| >= 1 && p[0] == start && NoDups(p)
    requires forall k :: 0 < k < |p| ==> p[k] == end || p[k] in closed
    ensures forall k :: 0 < k < |p| ==> Stepped(p[k], cells)
  {
    forall k | 0 < k < |p| ensures Stepped(p[k], cells) {
      assert p[k] != start;
      if p[k] == end {
        assert Parented(end, closed, end, cells);
      } else {
        var i := IndexOf(closed, p[k]);
        assert ChainLink(closed, i, end, cells);
      }
    }
  }

  /** Entry i of the list C has an earlier entry as parent. */
  ghost predicate EarlierParent(C: seq<Node>, i: int)
    requires 0 < i < |C|
    reads C[i]
  {
    C[i].parentNode in C[..i]
  }

  /** When the goal is picked from the open list, the walk back along parent links is well founded. */
  lemma ReadyToTrace(open: seq<Node>, closed: seq<Node>, start: Node, end: Node, cells: set<Node>)
    requires Explored(open, closed, start, end, cells) && end in open
    ensures forall i :: 0 < i < |closed| ==> EarlierParent(closed, i)
    ensures end == start || end.parentNode in closed
  {
    forall i | 0 < i < |closed| ensures EarlierParent(closed, i) {
      assert ChainLink(closed, i, end, cells);
    }
    if end != start {
      assert Parented(end, closed, end, cells);
    }
  }

  /** The parent of the cell at position r of C (or of the goal, r = |C|) sits at an earlier position. */
  lemma ParentRank(C: seq<Node>, r: int, node: Node, start: Node) returns (j: int)
    requires forall i :: 0 < i < |C| ==> EarlierParent(C, i)
    requires C != [] ==> C[0] == start
    requires 0 <= r <= |C| && node != start
    requires r < |C| ==> C[r] == node
    requires r == |C| ==> node.parentNode in C
    ensures 0 <= j < r && C[j] == node.parentNode
  {
    if r < |C| {
      assert EarlierParent(C, r);
      j :| 0 <= j < r && C[..r][j] == node.parentNode;
    } else {
      j :| 0 <= j < |C| && C[j] == node.parentNode;
    }
  }

  /** Entry k of t is the parent of the entry before it: t runs from a cell back towards the start. */
  ghost predicate TrailStep(t: seq<Node>, k: int)
    requires 0 < k < |t|
    reads t[k - 1]
  {
    t[k - 1].parentNode == t[k]
  }

  /** Appending the parent of a trail's last entry extends the trail. */
  lemma TrailSnoc(t: seq<Node>, n: Node)
    requires forall k :: 0 < k < |t| ==> TrailStep(t, k)
    requires t != [] ==> t[|t| - 1].parentNode == n
    ensures forall k :: 0 < k < |t + [n]| ==> TrailStep(t + [n], k)
  {
    forall k | 0 < k < |t + [n]| ensures TrailStep(t + [n], k) {
      if k < |t| {
        assert TrailStep(t, k);
      }
    }
  }

  /** Reversing a trail of parent links gives a chain in which each entry's parent is the one before. */
  lemma ReversedParents(t: seq<Node>)
    requires forall k :: 0 < k < |t| ==> TrailStep(t, k)
    ensures forall k :: 0 < k < |Reversed(t)| ==> ParentStep(Reversed(t), k)
  {
    var r := Reversed(t);
    forall k | 0 < k < |r| ensures ParentStep(r, k) {
      assert TrailStep(t, |t| - k);
      assert r[k] == t[|t| - 1 - k] && r[k - 1] == t[|t| - k];
    }
  }

  /**
   * A finished walk back: the trail from end up to (not including) start, with
   * its ranks along C, reversed after start is appended, is a duplicate-free
   * parent chain from start to end whose other cells are end or closed.
   */
  lemma TraceFinish(trail: seq<Node>, ranks: seq<int>, C: seq<Node>, r: int, start: Node, end: Node)
    requires NoDups(C) && Ranked(trail, ranks, C, r, end) && 0 <= r <= |C|
    requires r < |C| ==> C[r] == start
    requires r == |C| ==> start == end && end !in C
    requires forall k :: 0 < k < |trail| ==> TrailStep(trail, k)
    requires trail == [] ==> start == end
    requires trail != [] ==> trail[0] == end && trail[|trail| - 1].parentNode == start && start != end
    ensures var path := Reversed(trail + [start]);
            |path| >= 1 && path[0] == start && path[|path| - 1] == end &&
            (forall k :: 0 < k < |path| ==> ParentStep(path, k)) &&
            (forall k :: 0 < k < |path| ==> path[k] == end || path[k] in C) &&
            NoDups(path) && (start == end ==> path == [start])
  {
    var t := trail + [start];
    RankedSnoc(trail, ranks, C, r, end, start, -1);
    RankedNoDups(t, ranks + [r], C, end);
    TrailSnoc(trail, start);
    ReversedNoDups(t);
    ReversedParents(t);
    var path := Reversed(t);
    forall k | 0 < k < |path| ensures path[k] == end || path[k] in C {
      var m := |t| - 1 - k;
      assert path[k] == t[m] && m < |trail|;
      if ranks[m] < |C| {
        assert C[ranks[m]] == t[m];
      }
    }
  }
}
