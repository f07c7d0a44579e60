/**
 * The hiding behaviour of EnemyHideBy.cs: choosing a cover cell next to an
 * obstacle that the player cannot see, planning a route to it, and consuming
 * the route waypoint by waypoint.
 *
 * The physics is not computed here; its answers come in as parameters:
 * `hidden(n)` is IsHidden for cell n, that is, whether the ray from n's
 * position towards the player hits something; `distance(n)` is the distance
 * from n's position to the agent; `seen` is whether the ray from the agent
 * itself reaches the player; `locate` is NodeFromWorldPoint; `arrived` is the
 * test that the agent has reached its waypoint.
 */
module Hiding {
  import opened Collections
  import opened Nodes
  import opened GridGeometry
  import opened Search
  import opened Grid

  /** What one periodic check did. */
  datatype HideOutcome =
    | Stayed                 // already moving, or already out of sight: nothing changed
    | NoHidingSpot           // no cover cell is hidden from the player (C#: GetNodeToHide throws)
    | Planned(target: Node)  // a route to target was searched for

  /** m is a walkable cell of the grid touching at least one unwalkable cell: a place to take cover. */
  ghost predicate CoverCell(cells: set<Node>, m: Node)
    reads cells`walkable
  {
    m in cells && m.walkable && exists o :: o in cells && !o.walkable && Chebyshev(o.x, o.y, m.x, m.y) == 1
  }

  /** The scan over the grid, standing at (x, y), has met an unwalkable neighbour of m. */
  ghost predicate ObstacleBefore(cells: set<Node>, m: Node, x: int, y: int)
    reads cells`walkable
  {
    exists o :: o in cells && !o.walkable && Before(o.x, o.y, x, y) && Chebyshev(o.x, o.y, m.x, m.y) == 1
  }

  /** The gathered list holds exactly the walkable neighbours of the unwalkable cells scanned so far. */
  ghost predicate Gathered(cells: set<Node>, g: seq<Node>, x: int, y: int)
    reads cells`walkable
  {
    (forall k :: 0 <= k < |g| ==> g[k] in cells && g[k].walkable && ObstacleBefore(cells, g[k], x, y)) &&
    (forall m :: m in cells && m.walkable && ObstacleBefore(cells, m, x, y) ==> m in g)
  }

  /**
   * The first stage of GetNodeToHide: the walkable neighbours of every
   * unwalkable cell, scanning the array x-outer, y-inner, then `Distinct`.
   */
  method Candidates(grid: NodesGrid) returns (tempNodes: seq<Node>)
    requires grid.ValidSlots()
    ensures NoDups(tempNodes)
    ensures forall m :: m in tempNodes <==> m in CoverCells(grid.Cells)
  {
    var gathered: seq<Node> := [];
    var x := 0;
    while x < grid.gridWidth
      invariant 0 <= x <= grid.gridWidth
      invariant Gathered(grid.Cells, gathered, x, 0)
    {
      gathered := GatherColumn(grid, gathered, x);
      GatherColumnEnd(grid, gathered, x);
      x := x + 1;
    }
    GatherEnd(grid, gathered);
    tempNodes := Distinct(gathered);
    DistinctMembers(gathered);
  }

  /** The inner loop of the scan: column x, from y = 0 to the top, appending the walkable neighbours of each unwalkable cell. */
  method GatherColumn(grid: NodesGrid, g: seq<Node>, x: int) returns (gathered: seq<Node>)
    requires grid.ValidSlots() && 0 <= x < grid.gridWidth
    requires Gathered(grid.Cells, g, x, 0)
    ensures Gathered(grid.Cells, gathered, x, grid.gridHeight)
  {
    gathered := g;
    var y := 0;
    while y < grid.gridHeight
      invariant 0 <= y <= grid.gridHeight
      invariant Gathered(grid.Cells, gathered, x, y)
    {
      var node := grid.gridNodes[x, y];
      if !node.walkable {
        var near := grid.GetNearestNodes(node, true);
        GatherObstacle(grid, gathered, near, node);
        gathered := gathered + near;
      } else {
        GatherWalkable(grid, gathered, node);
      }
      y := y + 1;
    }
  }

  /** Passing a walkable cell adds nothing: only unwalkable cells contribute neighbours. */
  lemma GatherWalkable(grid: NodesGrid, g: seq<Node>, node: Node)
    requires grid.ValidSlots() && node in grid.Cells && node.walkable
    requires Gathered(grid.Cells, g, node.x, node.y)
    ensures Gathered(grid.Cells, g, node.x, node.y + 1)
  {
    forall m | m in grid.Cells && m.walkable && ObstacleBefore(grid.Cells, m, node.x, node.y + 1)
      ensures ObstacleBefore(grid.Cells, m, node.x, node.y)
    {
      var o :| o in grid.Cells && !o.walkable && Before(o.x, o.y, node.x, node.y + 1) && Chebyshev(o.x, o.y, m.x, m.y) == 1;
      assert grid.gridNodes[o.x, o.y] == o;
    }
  }

  /** Passing an unwalkable cell adds its walkable neighbours. */
  lemma GatherObstacle(grid: NodesGrid, g: seq<Node>, near: seq<Node>, node: Node)
    requires grid.ValidSlots() && node in grid.Cells && !node.walkable
    requires Gathered(grid.Cells, g, node.x, node.y)
    requires forall m :: m in near <==> m in grid.Cells && Chebyshev(m.x, m.y, node.x, node.y) == 1 && m.walkable
    ensures Gathered(grid.Cells, g + near, node.x, node.y + 1)
  {
    forall m ensures m in g + near <==> m in grid.Cells && m.walkable && ObstacleBefore(grid.Cells, m, node.x, node.y + 1) {
      if m in near {
        assert Before(node.x, node.y, node.x, node.y + 1) && Chebyshev(node.x, node.y, m.x, m.y) == 1;
      }
      if m in grid.Cells && m.walkable && ObstacleBefore(grid.Cells, m, node.x, node.y + 1) {
        var o :| o in grid.Cells && !o.walkable && Before(o.x, o.y, node.x, node.y + 1) && Chebyshev(o.x, o.y, m.x, m.y) == 1;
        assert grid.gridNodes[o.x, o.y] == o;
        if o != node {
          assert ObstacleBefore(grid.Cells, m, node.x, node.y);
        }
      }
    }
  }

  /** Finishing a column is the same as starting the next one. */
  lemma GatherColumnEnd(grid: NodesGrid, g: seq<Node>, x: int)
    requires grid.ValidSlots() && Gathered(grid.Cells, g, x, grid.gridHeight)
    ensures Gathered(grid.Cells, g, x + 1, 0)
  {
    forall m | m in grid.Cells && m.walkable
      ensures ObstacleBefore(grid.Cells, m, x, grid.gridHeight) <==> ObstacleBefore(grid.Cells, m, x + 1, 0)
    {
      if ObstacleBefore(grid.Cells, m, x + 1, 0) {
        var o :| o in grid.Cells && !o.walkable && Before(o.x, o.y, x + 1, 0) && Chebyshev(o.x, o.y, m.x, m.y) == 1;
        assert Before(o.x, o.y, x, grid.gridHeight);
      }
      if ObstacleBefore(grid.Cells, m, x, grid.gridHeight) {
        var o :| o in grid.Cells && !o.walkable && Before(o.x, o.y, x, grid.gridHeight) && Chebyshev(o.x, o.y, m.x, m.y) == 1;
        assert Before(o.x, o.y, x + 1, 0);
      }
    }
  }

  /** After the whole array, the gathered cells are exactly the cover cells. */
  lemma GatherEnd(grid: NodesGrid, g: seq<Node>)
    requires grid.ValidSlots() && Gathered(grid.Cells, g, grid.gridWidth, 0)
    ensures forall m :: m in g <==> CoverCell(grid.Cells, m)
  {
    forall m | CoverCell(grid.Cells, m) ensures ObstacleBefore(grid.Cells, m, grid.gridWidth, 0) {
      var o :| o in grid.Cells && !o.walkable && Chebyshev(o.x, o.y, m.x, m.y) == 1;
      assert Before(o.x, o.y, grid.gridWidth, 0);
    }
  }

  /**
   * The list GetNodeToHide ends with: the candidates whose ray to the player
   * is blocked, with no repeats, ordered by distance to the agent; its head,
   * when there is one, is a hidden candidate no further away than any other.
   */
  lemma {:induction false} HiddenSelection(candidates: seq<Node>, hidden: Node -> bool, key: Node -> real)
    requires NoDups(candidates)
    ensures var h := OrderBy(Filter(candidates, hidden), key);
            NoDups(h) && SortedBy(h, key) &&
            (forall m :: m in h <==> m in candidates && hidden(m)) &&
            (h != [] ==> h[0] in candidates && hidden(h[0]) && forall m :: m in candidates && hidden(m) ==> key(h[0]) <= key(m))
  {
    var f := Filter(candidates, hidden);
    var h := OrderBy(f, key);
    FilterNoDups(candidates, hidden);
    OrderBySorted(f, key);
    FilterMembers(candidates, hidden);
    OrderByMembers(f, key);
    OrderByNoDups(f, key);
    if h != [] {
      OrderByFirstIsLeast(f, key);
    }
  }

  /** The cover cells of the grid, gathered into one set. */
  ghost function CoverCells(cells: set<Node>): (r: set<Node>)
    reads cells`walkable
  {
    set m | m in cells && CoverCell(cells, m)
  }

  /** No cover cell is out of the player's sight. */
  ghost predicate NoneHidden(cover: set<Node>, hidden: Node -> bool) {
    forall m :: m in cover ==> !hidden(m)
  }

  /** n is a cover cell out of the player's sight, and no such cell is nearer to the agent. */
  ghost predicate BestHidingPlace(cover: set<Node>, hidden: Node -> bool, distance: Node -> real, n: Node) {
    n in cover && hidden(n) && forall m :: m in cover && hidden(m) ==> distance(n) <= distance(m)
  }

  /**
   * Ranking the cover cells: the ranked list is empty exactly when no cover
   * cell is hidden, and otherwise its head is a nearest hidden cover cell.
   */
  lemma HidingChoice(cells: set<Node>, candidates: seq<Node>, hidden: Node -> bool, distance: Node -> real)
    requires NoDups(candidates) && forall m :: m in candidates <==> m in CoverCells(cells)
    ensures var h := OrderBy(Filter(candidates, hidden), distance);
            (h == [] <==> NoneHidden(CoverCells(cells), hidden)) &&
            (h != [] ==> BestHidingPlace(CoverCells(cells), hidden, distance, h[0]))
  {
    HiddenSelection(candidates, hidden, distance);
    var h := OrderBy(Filter(candidates, hidden), distance);
    if h != [] {
      assert h[0] in h;
    } else {
      forall m | m in CoverCells(cells) ensures !hidden(m) {
        assert m in candidates && (hidden(m) ==> m in h);
      }
    }
  }

  /** The loop over the candidates that keeps those hidden from the player, in order. */
  method KeepHidden(tempNodes: seq<Node>, hidden: Node -> bool) returns (kept: seq<Node>)
    ensures kept == Filter(tempNodes, hidden)
  {
    kept := [];
    var i := 0;
    while i < |tempNodes|
      invariant 0 <= i <= |tempNodes|
      invariant kept == Filter(tempNodes[..i], hidden)
    {
      var node := tempNodes[i];
      assert tempNodes[..i + 1] == tempNodes[..i] + [node];
      if hidden(node) {
        kept := kept + [node];
      }
      i := i + 1;
    }
    assert tempNodes[..i] == tempNodes;
  }

  /**
   * The list GetNodeToHide computes, before it is stored: the cover cells
   * hidden from the player, ranked by distance to the agent. It is empty
   * exactly when no cover cell is hidden, and its head is a nearest one.
   */
  method RankHidingPlaces(grid: NodesGrid, hidden: Node -> bool, distance: Node -> real)
    returns (ranked: seq<Node>, ghost candidates: seq<Node>)
    requires grid.ValidSlots()
    ensures NoDups(candidates) && forall m :: m in candidates <==> m in CoverCells(grid.Cells)
    ensures ranked == OrderBy(Filter(candidates, hidden), distance)
    ensures ranked == [] <==> NoneHidden(CoverCells(grid.Cells), hidden)
    ensures ranked != [] ==> BestHidingPlace(CoverCells(grid.Cells), hidden, distance, ranked[0])
  {
    var tempNodes := Candidates(grid);
    candidates := tempNodes;
    var kept := KeepHidden(tempNodes, hidden);
    ranked := OrderBy(kept, distance);
    HidingChoice(grid.Cells, candidates, hidden, distance);
  }

  class EnemyHideBy {
    const grid: NodesGrid
    /** Whether the agent is following a route to a hiding place. */
    var isMoving: bool
    /** The waypoint the agent is walking towards. */
    var hidePosition: Vector3
    /** The last ranked list of hiding places. */
    var hiddenNodes: seq<Node>
    /** The route being followed; None is the C# null, before any route is planned or when none is found. */
    var path: Option<seq<Node>>

    /** Models Awake and Start: an empty list of hiding places, and the agent's own position as first waypoint. */
    constructor (grid: NodesGrid, position: Vector3)
      ensures this.grid == grid && !isMoving && hidePosition == position
      ensures hiddenNodes == [] && path == None
    {
      this.grid := grid;
      isMoving := false;
      hiddenNodes := [];
      hidePosition := position;
      path := None;
    }

    /**
     * Chooses where to hide: clears hiddenNodes, refills it with the cover
     * cells hidden from the player, sorts it stably by distance to the agent
     * and shows it as the grid's highlighted path. C# then reads element 0,
     * which throws on an empty list; that case is the result None.
     */
    method GetNodeToHide(hidden: Node -> bool, distance: Node -> real)
      returns (hideNode: Option<Node>, ghost candidates: seq<Node>)
      requires grid.ValidSlots()
      modifies this`hiddenNodes, grid`path
      ensures grid.Valid() == old(grid.Valid())
      ensures NoDups(candidates) && forall m :: m in candidates <==> m in CoverCells(grid.Cells)
      ensures hiddenNodes == OrderBy(Filter(candidates, hidden), distance)
      ensures grid.path == hiddenNodes
      ensures hideNode.None? <==> hiddenNodes == []
      ensures hideNode.Some? ==> hideNode.value == hiddenNodes[0]
      ensures hideNode.None? <==> NoneHidden(CoverCells(grid.Cells), hidden)
      ensures hideNode.Some? ==> BestHidingPlace(CoverCells(grid.Cells), hidden, distance, hideNode.value)
    {
      var ranked;
      ranked, candidates := RankHidingPlaces(grid, hidden, distance);
      Publish(ranked);
      if ranked == [] {
        // C#: hiddenNodes[0] throws ArgumentOutOfRangeException.
        return None, candidates;
      }
      return Some(ranked[0]), candidates;
    }

    /** Stores the ranked list and shows it on the grid; the cells themselves are untouched. */
    method Publish(ranked: seq<Node>)
      modifies this`hiddenNodes, grid`path
      ensures hiddenNodes == ranked && grid.path == ranked
      ensures grid.Valid() == old(grid.Valid())
      ensures CoverCells(grid.Cells) == old(CoverCells(grid.Cells))
    {
      grid.Highlight(ranked);
      hiddenNodes := ranked;
    }

    /** While moving, the agent has a route to follow. */
    ghost predicate Following()
      reads this`isMoving, this`path
    {
      isMoving ==> path.Some?
    }

    /** The route search of HideFromPlayer: from the agent's cell to the hiding place's cell. */
    method PlanRoute(from: Node, to: Node) returns (route: Option<seq<Node>>)
      requires grid.Valid() && from in grid.Cells && to in grid.Cells
      modifies grid`openNodes, grid`closedNodes, grid.Cells`parentNode, grid.Cells`gCost, grid.Cells`hCost
      ensures grid.Valid() && CoverCells(grid.Cells) == old(CoverCells(grid.Cells))
      ensures route.Some? ==> IsWalk(route.value, from, to, grid.Cells) && PathCost(route.value) == to.gCost - from.gCost
      ensures route.None? <==> !Reachable(from, to, grid.Cells)
      ensures hiddenNodes == old(hiddenNodes) && grid.path == old(grid.path)
    {
      grid.ValidNeighbourly();
      route := grid.FindPath(from, to);
      assert route.None? <==> !Reachable(from, to, grid.Cells) by {
        if route.Some? {
          assert IsWalk(route.value, from, to, grid.Cells);
        }
      }
    }

    /** Stores the route found; the grid, and so what holds of the route, is untouched. */
    method Follow(route: Option<seq<Node>>, ghost from: Node, ghost to: Node)
      modifies this`path
      ensures path == route && hiddenNodes == old(hiddenNodes) && grid.path == old(grid.path)
      ensures grid.Valid() == old(grid.Valid()) && CoverCells(grid.Cells) == old(CoverCells(grid.Cells))
      ensures Reachable(from, to, grid.Cells) == old(Reachable(from, to, grid.Cells))
      ensures route.Some? ==> IsWalk(route.value, from, to, grid.Cells) == old(IsWalk(route.value, from, to, grid.Cells))
    {
      path := route;
    }

    /**
     * The work of HideFromPlayer once the guard has passed: choose the hiding
     * place, then plan the route from the agent's cell to its cell. With no
     * hiding place C# throws before the route is planned, so path keeps its
     * value.
     */
    method PlanHiding(hidden: Node -> bool, distance: Node -> real, locate: Vector3 -> Node, position: Vector3)
      returns (outcome: HideOutcome, ghost candidates: seq<Node>)
      requires grid.Valid() && forall v :: locate(v) in grid.Cells
      modifies this`path, this`hiddenNodes, grid`path, grid`openNodes, grid`closedNodes,
               grid.Cells`parentNode, grid.Cells`gCost, grid.Cells`hCost
      ensures grid.Valid() && outcome != Stayed
      // hiddenNodes, also shown as the grid's path, is the ranked list of hidden cover cells.
      ensures NoDups(candidates) && (forall m :: m in candidates <==> m in CoverCells(grid.Cells)) &&
              hiddenNodes == OrderBy(Filter(candidates, hidden), distance) && grid.path == hiddenNodes &&
              (outcome == NoHidingSpot ==> hiddenNodes == []) &&
              (outcome.Planned? ==> hiddenNodes != [] && outcome.target == hiddenNodes[0])
      ensures outcome == NoHidingSpot ==>
                path == old(path) && NoneHidden(CoverCells(grid.Cells), hidden)
      ensures outcome.Planned? ==>
                var from, to := locate(position), locate(outcome.target.position);
                BestHidingPlace(CoverCells(grid.Cells), hidden, distance, outcome.target) &&
                (path.Some? ==> IsWalk(path.value, from, to, grid.Cells)) &&
                (path.None? <==> !Reachable(from, to, grid.Cells))
    {
      var hideNode;
      hideNode, candidates := GetNodeToHide(hidden, distance);
      if hideNode.None? {
        return NoHidingSpot, candidates;
      }
      var from, to := locate(position), locate(hideNode.value.position);
      var route := PlanRoute(from, to);
      Follow(route, from, to);
      return Planned(hideNode.value), candidates;
    }

    /**
     * The periodic check: when the agent stands still in the player's sight,
     * it starts moving and plans a route to the chosen hiding place. As in
     * C#, isMoving is set first, so it stays set when no hiding place exists
     * (C# throws) and when no route is found (C# stores null).
     * `locate` is NodeFromWorldPoint.
     */
    method HideFromPlayer(seen: bool, hidden: Node -> bool, distance: Node -> real,
                          locate: Vector3 -> Node, position: Vector3)
      returns (outcome: HideOutcome, ghost candidates: seq<Node>)
      requires grid.Valid() && forall v :: locate(v) in grid.Cells
      modifies this`isMoving, this`path, this`hiddenNodes, grid`path, grid`openNodes, grid`closedNodes,
               grid.Cells`parentNode, grid.Cells`gCost, grid.Cells`hCost
      ensures grid.Valid()
      ensures outcome != Stayed ==>
                NoDups(candidates) && (forall m :: m in candidates <==> m in CoverCells(grid.Cells)) &&
                hiddenNodes == OrderBy(Filter(candidates, hidden), distance) && grid.path == hiddenNodes &&
                (outcome == NoHidingSpot ==> hiddenNodes == []) &&
                (outcome.Planned? ==> hiddenNodes != [] && outcome.target == hiddenNodes[0])
      ensures old(isMoving) || !seen ==>
                outcome == Stayed && unchanged(this) && unchanged(grid) && unchanged(grid.Cells)
      ensures !old(isMoving) && seen ==> outcome != Stayed && isMoving
      ensures outcome == NoHidingSpot ==>
                path == old(path) && NoneHidden(CoverCells(grid.Cells), hidden)
      ensures outcome.Planned? ==>
                var from, to := locate(position), locate(outcome.target.position);
                BestHidingPlace(CoverCells(grid.Cells), hidden, distance, outcome.target) &&
                (path.Some? ==> IsWalk(path.value, from, to, grid.Cells)) &&
                (path.None? <==> !Reachable(from, to, grid.Cells))
      // Both failures leave the agent moving without a route to follow.
      ensures outcome == NoHidingSpot && old(path).None? ==> !Following()
      ensures outcome.Planned? && path.None? ==> !Following()
    {
      if !isMoving && seen {
        isMoving := true;
        outcome, candidates := PlanHiding(hidden, distance, locate, position);
      } else {
        outcome, candidates := Stayed, [];
      }
    }

    /**
     * HideFromPlayer with both failures closed: the agent starts moving only
     * once a hiding place and a route to it are known, so it always has a
     * route while it moves. Otherwise it stays standing, to try again at the
     * next check.
     */
    method HideFromPlayerChecked(seen: bool, hidden: Node -> bool, distance: Node -> real,
                                 locate: Vector3 -> Node, position: Vector3)
      returns (outcome: HideOutcome, ghost candidates: seq<Node>)
      requires grid.Valid() && forall v :: locate(v) in grid.Cells
      modifies this`isMoving, this`path, this`hiddenNodes, grid`path, grid`openNodes, grid`closedNodes,
               grid.Cells`parentNode, grid.Cells`gCost, grid.Cells`hCost
      ensures grid.Valid()
      ensures outcome != Stayed ==>
                NoDups(candidates) && (forall m :: m in candidates <==> m in CoverCells(grid.Cells)) &&
                hiddenNodes == OrderBy(Filter(candidates, hidden), distance) && grid.path == hiddenNodes &&
                (outcome == NoHidingSpot ==> hiddenNodes == []) &&
                (outcome.Planned? ==> hiddenNodes != [] && outcome.target == hiddenNodes[0])
      ensures old(Following()) ==> Following()
      ensures old(isMoving) || !seen ==>
                outcome == Stayed && unchanged(this) && unchanged(grid) && unchanged(grid.Cells)
      ensures outcome == NoHidingSpot ==>
                !isMoving && path == old(path) && NoneHidden(CoverCells(grid.Cells), hidden)
      ensures outcome.Planned? ==>
                var from, to := locate(position), locate(outcome.target.position);
                BestHidingPlace(CoverCells(grid.Cells), hidden, distance, outcome.target) &&
                (isMoving <==> Reachable(from, to, grid.Cells)) &&
                (path.None? <==> !Reachable(from, to, grid.Cells)) &&
                (path.Some? ==> IsWalk(path.value, from, to, grid.Cells))
    {
      if !isMoving && seen {
        outcome, candidates := PlanHiding(hidden, distance, locate, position);
        ghost var from, to := locate(position), if outcome.Planned? then locate(outcome.target.position) else locate(position);
        SetMoving(outcome.Planned? && path.Some?, from, to);
      } else {
        outcome, candidates := Stayed, [];
      }
    }

    /** Starts or stops the move; the route, the lists and the grid are untouched. */
    method SetMoving(moving: bool, ghost from: Node, ghost to: Node)
      modifies this`isMoving
      ensures isMoving == moving && path == old(path)
      ensures hiddenNodes == old(hiddenNodes) && grid.path == old(grid.path)
      ensures grid.Valid() == old(grid.Valid()) && CoverCells(grid.Cells) == old(CoverCells(grid.Cells))
      ensures Reachable(from, to, grid.Cells) == old(Reachable(from, to, grid.Cells))
      ensures path.Some? ==> IsWalk(path.value, from, to, grid.Cells) == old(IsWalk(path.value, from, to, grid.Cells))
    {
      isMoving := moving;
    }

    /**
     * One frame while moving: on arrival at the current waypoint the next one
     * is taken off the front of the route; with the route used up, arrival
     * ends the move. `arrived` is the C# test that the agent is within 0.001
     * of hidePosition. ok is false where C# reads the count of a null route.
     */
    method Update(arrived: bool) returns (ok: bool)
      modifies this`isMoving, this`path, this`hidePosition
      ensures ok <==> !old(isMoving) || old(path).Some?
      ensures !ok || !old(isMoving) ==> unchanged(this)
      ensures old(isMoving) && old(path).Some? && old(path).value != [] ==>
                isMoving &&
                if arrived then hidePosition == old(path).value[0].position && path == Some(old(path).value[1..])
                else unchanged(this)
      ensures old(isMoving) && old(path) == Some([]) ==>
                path == old(path) && hidePosition == old(hidePosition) && isMoving == !arrived
      ensures old(isMoving) && !isMoving ==> old(path) == Some([]) && arrived
      ensures old(Following()) ==> ok && Following()
    {
      ok := true;
      if isMoving {
        if path.None? {
          // C#: path.Count on a null list throws NullReferenceException.
          ok := false;
          return;
        }
        if |path.value| > 0 {
          if arrived {
            hidePosition := path.value[0].position;
            path := Some(path.value[1..]);
          }
        } else if arrived {
          isMoving := false;
        }
      }
    }
  }
}
