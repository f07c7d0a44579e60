# Grid path-finding and hiding, modelled in Dafny

The Unity project this models has an enemy agent that hides from the player on a
square grid. Three C# files make up the core:

- `NodesGrid.cs` builds the grid and links each cell to its 8-neighbours. It
  answers three neighbourhood queries and runs A* between two cells.
- `Node.cs` is one cell. It holds fixed coordinates and a world position, its
  adjacency list, a walkability flag and the A* scratch fields (g-cost, h-cost,
  parent).
- `EnemyHideBy.cs` chooses a hiding place. A hiding place is a walkable cell next
  to an obstacle whose line of sight to the player is blocked, and the agent picks
  the nearest one. The file then plans a route there and walks the route waypoint
  by waypoint.

The model keeps the source's imperative form:

- `Node`, `NodesGrid` and `EnemyHideBy` are classes whose methods update fields
  in place.
- The C# lists become `seq` fields that the methods reassign.
- `gridNodes` is an `array2<Node?>`.
- The loops of the source are `while` loops with their invariants.
- LINQ's `Distinct` and `OrderBy`, and `List.Remove` and `List.Reverse`, are
  functions in `Collections`, with their properties proved as lemmas.

Files:

- `node.dfy`: module `Nodes`, the cell class.
- `grid_geometry.dfy`: module `GridGeometry`. It holds the integer geometry:
  Chebyshev distance, step costs, the heuristic, and the order in which
  generation links cells.
- `collections.dfy`: module `Collections`, the list operations.
- `search.dfy`: module `Search`. It holds routes (`IsWalk`, `Reachable`), path
  cost and the invariants of the A* loop.
- `nodes_grid.dfy`: module `Grid`, the class `NodesGrid`.
- `enemy_hide_by.dfy`: module `Hiding`, the class `EnemyHideBy` and the selection
  of hiding places.

The physics engine and the frame loop are outside the model. Their answers come
in as parameters:

- `obstructed(centre, halfExtents)` stands for `Physics.CheckBox`.
- `hidden(cell)` is `IsHidden` for a cell's position.
- `seen` is whether the ray from the agent's own position reaches the player. This is `!IsHidden(transform.position, …)` at EnemyHideBy.cs:69.
- `distance(cell)` is the distance from the cell to the agent.
- `locate` is `NodeFromWorldPoint`.
- `arrived` is the 0.001 arrival test of `Update`.

## Model

| member | source | states |
|---|---|---|
| Nodes.Node.constructor | Node.cs:20-27 | A new cell has the given coordinates and position and an empty adjacency list. It is unwalkable, both costs are 0, it has no parent, and so its f-cost is 0. |
| GridGeometry.StepCostOfNeighbours | NodesGrid.cs:113 | Between 8-neighbours a move costs 10 exactly when it is orthogonal and 14 exactly when it is diagonal; the cost is the same in both directions. |
| GridGeometry.CountHCost | NodesGrid.cs:187-190 | The heuristic is 0 exactly when the two cells coincide. It lies between 10 and 20 times their Chebyshev distance. |
| GridGeometry.HeuristicOverestimatesDiagonal | NodesGrid.cs:187-190 | One diagonal step costs 14 but the heuristic at its start is 20, so the heuristic can overestimate the remaining cost. |
| Collections.Remove | NodesGrid.cs:129 | `List.Remove` takes exactly one copy of the element out of the list's multiset, and nothing when it is absent. |
| Collections.RemoveFirst | NodesGrid.cs:129 | The copy removed is the first occurrence, at the first index holding the element. The elements before and after it keep their order. |
| Collections.RemoveAbsent | NodesGrid.cs:129 | A list without the element comes back unchanged. |
| Collections.RemoveUnique | NodesGrid.cs:129 | On a list without repeats, removing x leaves every other element and only those, and x is gone. |
| Collections.Reversed | NodesGrid.cs:149 | `List.Reverse` keeps the length and puts element k at position n-1-k. |
| Collections.Distinct | EnemyHideBy.cs:48 | `Distinct` gives a list without repeats in which every element of the input occurs and nothing else. |
| Collections.DistinctMembers | EnemyHideBy.cs:48 | An element is in the de-duplicated list exactly when it is in the input. |
| Collections.DistinctOfNoDups | EnemyHideBy.cs:48 | `Distinct` leaves a list without repeats unchanged. |
| Collections.Filter | EnemyHideBy.cs:50-56 | The kept list is no longer than the input. It holds only input elements that satisfy the test, and every input element that satisfies it. |
| Collections.FilterMembers | EnemyHideBy.cs:50-56 | An element is kept exactly when it is in the input and satisfies the test. |
| Collections.FilterNoDups | EnemyHideBy.cs:50-56 | Filtering a list without repeats gives a list without repeats. |
| Collections.OrderBy | EnemyHideBy.cs:59 | `OrderBy` returns a permutation of its input. |
| Collections.OrderBySorted | EnemyHideBy.cs:59 | The result of `OrderBy` is sorted by the key. |
| Collections.OrderByStable | EnemyHideBy.cs:59 | `OrderBy` is stable: for every key value, the elements with that key keep their input order. |
| Collections.OrderByMembers | EnemyHideBy.cs:59 | Sorting neither adds nor drops an element. |
| Collections.OrderByNoDups | EnemyHideBy.cs:59 | Sorting a list without repeats gives a list without repeats. |
| Collections.OrderByFirstIsLeast | EnemyHideBy.cs:59-64 | The head of a sorted non-empty list is an input element whose key is no larger than any other's. |
| Grid.NodesGrid.constructor | NodesGrid.cs:23-26 | Awake builds a fresh, fully linked grid of the configured size. Every cell sits at its coordinates times the cell size, is walkable exactly when its box is not obstructed, and has zero scratch fields. |
| Grid.NodesGrid.GenerateGrid | NodesGrid.cs:28-54 | After generation every slot of the fresh width x height array holds its own cell, and every cell is linked to exactly its in-bounds 8-neighbours (`Valid`). Positions, walkability and scratch fields are as for the constructor. |
| Grid.NodesGrid.PlaceCell | NodesGrid.cs:36-51 | One step of the scan: after cell (x, y) is created and linked, everything up to (x, y+1) is built. |
| Grid.NodesGrid.LinkNodes | NodesGrid.cs:56-60 | Linking A and B appends B to A's list and A to B's list; nothing else changes. |
| Grid.NodesGrid.NearestAreNeighbours | NodesGrid.cs:44-51 | After generation a cell's list holds exactly the cells at Chebyshev distance 1, each once, so at most 8 of them. |
| Grid.NodesGrid.AdjacencySymmetric | NodesGrid.cs:56-60 | After generation, B is in A's list exactly when A is in B's. |
| Grid.NodesGrid.GetNearestNodes | NodesGrid.cs:240-265 | The result holds exactly the grid cells at Chebyshev distance 1, only walkable ones when asked. They come in column-by-column scan order, without repeats, and there are at most 8. |
| Grid.NodesGrid.GetNearestNodesInRange | NodesGrid.cs:215-238 | The result holds exactly the grid cells at Chebyshev distance 1 to range, without repeats. They come in ring order (inner rings first, each ring in scan order). A range below 1 gives the empty list. |
| Grid.NodesGrid.GetNearestNodesInRange2 | NodesGrid.cs:192-213 | The result has no repeats and holds exactly the cells at the end of a walk of exactly `range` links from the cell. |
| Grid.NodesGrid.ReachOne | NodesGrid.cs:192-213 | On a generated grid, the recursive query with range 1 gives exactly the cells at Chebyshev distance 1. |
| Grid.NodesGrid.ReachWithin | NodesGrid.cs:192-213 | Following k links stays inside the grid and within Chebyshev distance k. |
| Grid.NodesGrid.ReachReturns | NodesGrid.cs:202-209 | With range 2 the recursive query contains the centre cell itself, unlike the ring query. |
| Grid.NodesGrid.GetNodeWithMinF | NodesGrid.cs:168-185 | The result is null exactly when the open list is empty. Otherwise it is the first open node whose f-cost is minimal. |
| Grid.NodesGrid.FindPath | NodesGrid.cs:85-134 | A found route starts at the start, ends at the goal, steps only between linked cells onto walkable ones, and has no repeats. Its step costs sum to the goal's g-cost minus the start's. No route is found exactly when no such route exists. Start equal to goal gives the one-cell route. |
| Search.FCostWithHeuristic | Node.cs:13-15 | The f-cost is the g-cost plus the heuristic: once the heuristic towards the goal is set, it is never below the g-cost and equals it exactly at the goal. |
| Grid.NodesGrid.Found | NodesGrid.cs:101-106 | When the goal leaves the open list, the traced path is a route to it with no repeats, at the goal's g-cost. |
| Grid.NodesGrid.ExpandNode | NodesGrid.cs:108-130 | One round keeps the search invariant: the closed list is a parent chain from the start, and every walkable neighbour of a closed cell is open or closed. The current cell moves to the end of the closed list. The new open list is the old one with the current cell's walkable, unclosed, not yet open neighbours appended in list order (`Extended`), and the current cell then removed. So it holds exactly the earlier open cells and those neighbours, minus the current cell. |
| Grid.NodesGrid.RelaxNeighbour | NodesGrid.cs:110-126 | A walkable, unclosed neighbour that is new or cheaper through the current cell gets it as parent, the new g-cost and its heuristic, and joins the open list once. Any other neighbour is left alone. |
| Grid.NodesGrid.Improve | NodesGrid.cs:118-125 | The update sets the parent, g-cost and heuristic, and appends the cell to the open list unless it is already there. |
| Grid.NodesGrid.TracePath | NodesGrid.cs:136-152 | The traced path runs from the start to the goal. Each cell after the first has the previous cell as parent. There are no repeats, and start equal to goal gives the one-cell path. |
| Grid.NodesGrid.Highlight | NodesGrid.cs:12 | Setting the highlighted path touches neither the cells nor their links. |
| Search.ExtendedMembers | NodesGrid.cs:110-127 | Relaxing the neighbours adds to the open list exactly those that are walkable and not closed. Everything already open stays open. |
| Search.NoWalk | NodesGrid.cs:97-133 | When the open list runs out with the search invariant intact, no route from the start reaches the goal. |
| Search.ChainCost | NodesGrid.cs:113-119 | Along a chain of parent links the step costs sum to the difference of the g-costs at its ends. |
| Search.ChainIsWalk | NodesGrid.cs:136-152 | A chain of parent links from the start to the goal through relaxed cells is a route. |
| Hiding.Candidates | EnemyHideBy.cs:37-48 | The de-duplicated candidate list holds, without repeats, exactly the walkable cells next to some unwalkable cell. |
| Hiding.GatherColumn | EnemyHideBy.cs:39-45 | Scanning one more column adds exactly the walkable neighbours of that column's unwalkable cells. |
| Hiding.KeepHidden | EnemyHideBy.cs:50-56 | The loop keeps, in order, exactly the candidates hidden from the player. |
| Hiding.HiddenSelection | EnemyHideBy.cs:48-64 | The ranked list has no repeats and is sorted by distance. It holds exactly the hidden candidates, and its head is hidden and no further away than any hidden candidate. |
| Hiding.HidingChoice | EnemyHideBy.cs:50-64 | The ranked list is empty exactly when no cover cell is hidden. Otherwise its head is a nearest hidden cover cell. |
| Hiding.RankHidingPlaces | EnemyHideBy.cs:35-59 | The computed list is the hidden cover cells ordered by distance. It is empty exactly when none is hidden, and its head is a nearest hidden one. |
| Hiding.EnemyHideBy.constructor | EnemyHideBy.cs:20-31 | Awake and Start: an empty list of hiding places, no route, not moving, and the agent's position as waypoint. |
| Hiding.EnemyHideBy.GetNodeToHide | EnemyHideBy.cs:33-65 | `hiddenNodes` becomes the hidden cover cells sorted by distance, and the grid highlights the same list. The result is None (C# throws) exactly when no cover cell is hidden; otherwise it is the head, a nearest hidden cover cell. The grid's cells are untouched. |
| Hiding.EnemyHideBy.Publish | EnemyHideBy.cs:59-62 | Storing the ranked list sets both `hiddenNodes` and the grid's path to it, leaving the cells alone. |
| Hiding.EnemyHideBy.PlanRoute | EnemyHideBy.cs:72 | The search from the agent's cell to the hiding cell returns a route when one exists and none otherwise. |
| Hiding.EnemyHideBy.Follow | EnemyHideBy.cs:72 | Storing the route found changes nothing else, so what held of it still holds. |
| Hiding.EnemyHideBy.SetMoving | EnemyHideBy.cs:71 | Setting the moving flag changes nothing else, so what held of the route and the grid still holds. |
| Hiding.EnemyHideBy.PlanHiding | EnemyHideBy.cs:71-72 | `hiddenNodes`, also shown as the grid's path, becomes the hidden cover cells ranked by distance. It is empty on `NoHidingSpot` and otherwise starts with the target. With no hidden cover cell the route is unchanged. Otherwise the target is a nearest hidden cover cell, and the stored route is a route to it, or None exactly when none exists. |
| Hiding.EnemyHideBy.HideFromPlayer | EnemyHideBy.cs:67-74 | When moving, or out of sight, nothing changes. Otherwise the agent is set moving and plans as PlanHiding does, with the same new `hiddenNodes` and grid path. Both failures leave it moving without a route, the first only when no route was stored before. |
| Hiding.EnemyHideBy.HideFromPlayerChecked | EnemyHideBy.cs:67-74 | As HideFromPlayer, except that the agent moves exactly when a route to a nearest hidden cover cell exists, so a moving agent always has a route. The stored route is a walk to the hiding cell when one exists, and none exactly when the cell is unreachable. The new `hiddenNodes` and grid path are as for PlanHiding. |
| Hiding.EnemyHideBy.Update | EnemyHideBy.cs:88-111 | While moving with waypoints left, arrival takes the first waypoint as target and drops it from the route. With the route used up, arrival stops the move. A moving agent with a route never fails, and a null route is the failure case. |

## Left out

- `NodeFromWorldPoint` (NodesGrid.cs:154-166) is floating-point arithmetic. It is the parameter `locate`, which is required to return a grid cell. So the model does not capture that rounding `percentX * gridWidth` up to `gridWidth` indexes past the array.
- `FindPath` takes the two cells rather than two world positions, for the same reason.
- `Physics.CheckBox`, `Physics.Raycast` (`IsHidden`), `Vector3.Distance` and the arrival test are parameters. Their floating-point geometry is not modelled.
- `OnDrawGizmos` and the `Debug` calls draw in the editor only and are left out.
- The movement at EnemyHideBy.cs:108-109 (`MoveTowards` and `Time.deltaTime`) is left out. Arrival at a waypoint comes in as the `arrived` parameter.
- The 0.5 s timer of `InvokeRepeating` is left out. Each call of `HideFromPlayer` is one tick.
- The fields `positionNode`, `speed` and `rangeToHide` are never read by the modelled code and are left out.
- The `player` field is read only for its position, in the ray tests of EnemyHideBy.cs:52 and :69. The model folds that position into the `hidden` and `seen` parameters.
- Grid.NodesGrid.FindPath: optimality of the route is not claimed. The heuristic can overestimate (`HeuristicOverestimatesDiagonal`), so the model proves only that a returned route is a valid route with the stated cost and that "no route" is exact.
- Grid.NodesGrid.constructor: `gridWidth` and `gridHeight` are `nat`. A negative serialized size, for which `new Node[gridWidth, gridHeight]` throws in C#, is not modelled.
- Grid.NodesGrid.FindPath: the scratch fields are not reset between searches, as in C#. The model only relies on the current search's invariant.
- Grid.NodesGrid.FindPath: `gCost`, `hCost` and `FCost` are 32-bit `int` in C# (Node.cs:10-14), but the model uses unbounded integers. `FindPath` never resets the start cell's `gCost` (NodesGrid.cs:87-95), so each search's g-costs (NodesGrid.cs:114, :119) build on a value left by an earlier search. They can grow from search to search, and in principle wrap around; that wrap-around is not modelled. Route validity and the exactness of "no route" do not depend on the costs; the cost of a route (`ChainCost`) and the tie-breaking in `GetNodeWithMinF` do.
- Exceptions are modelled as results: `GetNodeToHide` gives None where `hiddenNodes[0]` throws, and `HideFromPlayer` gives `NoHidingSpot`. `Update` gives `ok == false` where `path.Count` meets a null route.
- Grid.NodesGrid.GetNearestNodesInRange2 takes `range` as a `nat`. With a negative range the C# recursion never reaches its base case.
- Grid.NodesGrid.GetNearestNodesInRange2: the recursive query stays within Chebyshev distance `range` of its cell (`ReachWithin`). Generation links all 8 neighbours whatever their walkability, so the irregular, larger neighbourhood one might expect from a graph walk does not arise. The model follows the code.
- Hiding.EnemyHideBy.GetNodeToHide: in C#, `grid.path` and `hiddenNodes` are the same list object. The model stores equal values, so later aliasing through that shared list is not captured. The filter that C# runs on `hiddenNodes` in place is modelled as building a new list.
- Update: C#'s `path.RemoveAt(0)` changes the list returned by `FindPath` in place. The model replaces the route with its tail.

## Findings

| source | as written | input that shows it | evidently intended | confidence | as-written member | corrected member |
|---|---|---|---|---|---|---|
| EnemyHideBy.cs:67-74 | `isMoving` is set before the hiding place and the route are known. When `FindPath` returns null, or `GetNodeToHide` throws while no route was stored before, the agent stays moving with no route, and every later `Update` reads `path.Count` on null. (If an earlier route is already used up, `Update` instead ends the move.) Once moving, `HideFromPlayer` never plans again. | A first tick on a grid where no cover cell is hidden from the player, or any tick where the hiding cell cannot be reached from the agent's cell. | Start moving only once a route to a hiding place exists; otherwise stay put and try again at the next tick. | not executed | Hiding.EnemyHideBy.HideFromPlayer | Hiding.EnemyHideBy.HideFromPlayerChecked |
