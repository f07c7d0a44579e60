/**
 * The navigation grid of NodesGrid.cs: a width-by-height array of cells, each
 * linked to its eight neighbours, with A* search over the links and three
 * neighbourhood queries.
 */
module Grid {
  import opened Collections
  import opened Nodes
  import opened GridGeometry
  import opened Search

  /** The ring scan around c, standing at offset (x, y) of ring r, has passed the offset of m. */
  predicate Scanned(m: Node, c: Node, r: int, x: int, y: int) {
    RangeScanned(m.x - c.x, m.y - c.y, r, x, y)
  }

  /** The ring scan around c visits a before b. */
  predicate InRingOrder(a: Node, b: Node, c: Node) {
    RingBefore(a.x - c.x, a.y - c.y, b.x - c.x, b.y - c.y)
  }

  class NodesGrid {
    var gridNodes: array2<Node?>
    var openNodes: seq<Node>
    var closedNodes: seq<Node>
    /** Cells highlighted in the editor view; the hide-spot selector stores its list here. */
    var path: seq<Node>

    const gridWidth: nat
    const gridHeight: nat
    const nodeSize: real

    /** The cells created by the last grid generation. */
    ghost var Cells: set<Node>

    /** World position of cell (x, y): the cells lie on the y = 0 plane, nodeSize apart. */
    function CellPosition(x: int, y: int): (r: Vector3) {
      Vector3(x as real * nodeSize, 0.0, y as real * nodeSize)
    }

    /** Half extents of the box probed for obstacles around a cell. */
    function HalfExtents(): (r: Vector3) {
      Vector3(nodeSize / 2.0, nodeSize / 2.0, nodeSize / 2.0)
    }

    /**
     * The grid's topology: every in-bounds array slot holds the cell with those
     * coordinates, and each cell's adjacency list holds its neighbours in the
     * order grid generation links them.
     */
    ghost predicate Valid()
      reads this`gridNodes, this`Cells, gridNodes, Cells`nearestNodes
    {
      ValidSlots() && ValidLinks()
    }

    /** The array and the cell set agree: slot (i, j) holds the one cell with coordinates (i, j). */
    ghost predicate ValidSlots()
      reads this`gridNodes, this`Cells, gridNodes
    {
      gridNodes.Length0 == gridWidth && gridNodes.Length1 == gridHeight &&
      (forall i, j :: 0 <= i < gridWidth && 0 <= j < gridHeight ==>
         gridNodes[i, j] != null && gridNodes[i, j] in Cells && gridNodes[i, j].x == i && gridNodes[i, j].y == j) &&
      (forall n :: n in Cells ==> InBounds(n.x, n.y, gridWidth, gridHeight) && gridNodes[n.x, n.y] == n)
    }

    /** Every cell is linked to all its neighbours, and links stay inside the grid. */
    ghost predicate ValidLinks()
      reads this`Cells, Cells`nearestNodes
    {
      (forall n {:trigger FullyLinked(n)} :: n in Cells ==> FullyLinked(n)) && LinksClosed()
    }

    /** Each cell sits at the world position of its coordinates; positions never change. */
    ghost predicate Positioned()
      reads this`Cells
    {
      forall n :: n in Cells ==> n.position == CellPosition(n.x, n.y)
    }

    /** The links of n are all its in-bounds neighbours, in the order generation makes them. */
    ghost predicate FullyLinked(n: Node)
      reads n`nearestNodes
    {
      Coords(n.nearestNodes) == LinkOrder(n.x, n.y, gridWidth, gridHeight)
    }

    /**
     * The state of generation when the scan is about to create (cx, cy): exactly
     * the cells before it exist, with the walkability the obstacle probe gave,
     * untouched search fields, and the links made so far.
     */
    ghost predicate Built(cx: int, cy: int, obstructed: (Vector3, Vector3) -> bool)
      reads this`gridNodes, this`Cells, gridNodes, Cells`nearestNodes, Cells`walkable, Cells`gCost, Cells`hCost, Cells`parentNode
    {
      BuiltArray(cx, cy) && BuiltCells(cx, cy, obstructed) && BuiltLinks(cx, cy) && LinksClosed()
    }

    /** Exactly the array slots before (cx, cy) are filled, each with the cell of those coordinates. */
    ghost predicate BuiltArray(cx: int, cy: int)
      reads this`gridNodes, this`Cells, gridNodes
    {
      gridNodes.Length0 == gridWidth && gridNodes.Length1 == gridHeight &&
      forall i, j :: 0 <= i < gridWidth && 0 <= j < gridHeight ==>
        (gridNodes[i, j] != null <==> Before(i, j, cx, cy)) &&
        (gridNodes[i, j] != null ==> gridNodes[i, j] in Cells && gridNodes[i, j].x == i && gridNodes[i, j].y == j)
    }

    ghost predicate BuiltCells(cx: int, cy: int, obstructed: (Vector3, Vector3) -> bool)
      reads this`gridNodes, this`Cells, gridNodes, Cells`walkable, Cells`gCost, Cells`hCost, Cells`parentNode
    {
      gridNodes.Length0 == gridWidth && gridNodes.Length1 == gridHeight &&
      forall n :: n in Cells ==>
        InBounds(n.x, n.y, gridWidth, gridHeight) && Before(n.x, n.y, cx, cy) && gridNodes[n.x, n.y] == n &&
        n.position == CellPosition(n.x, n.y) && Fresh(n, obstructed)
    }

    ghost predicate BuiltLinks(cx: int, cy: int)
      reads this`Cells, Cells`nearestNodes
    {
      forall n {:trigger LinkedSoFar(n, cx, cy)} :: n in Cells ==> LinkedSoFar(n, cx, cy)
    }

    /** Every link leads to a cell of the grid. */
    ghost predicate LinksClosed()
      reads this`Cells, Cells`nearestNodes
    {
      forall n, k :: n in Cells && 0 <= k < |n.nearestNodes| ==> n.nearestNodes[k] in Cells
    }

    /** The links of n are those made before the scan reaches (cx, cy). */
    ghost predicate LinkedSoFar(n: Node, cx: int, cy: int)
      reads n`nearestNodes
    {
      Coords(n.nearestNodes) == LinkedBefore(n.x, n.y, gridWidth, gridHeight, cx, cy)
    }

    /** A cell as generation leaves it: walkable exactly when no obstacle overlaps its box, search fields at their defaults. */
    ghost predicate Fresh(n: Node, obstructed: (Vector3, Vector3) -> bool)
      reads n`walkable, n`gCost, n`hCost, n`parentNode
    {
      n.walkable == !obstructed(n.position, HalfExtents()) &&
      n.gCost == 0 && n.hCost == 0 && n.parentNode == null
    }

    /** Models Awake: sizes come from the serialized fields, then the grid is generated. */
    constructor (width: nat, height: nat, size: real, obstructed: (Vector3, Vector3) -> bool)
      ensures gridWidth == width && gridHeight == height && nodeSize == size
      ensures Valid() && Positioned()
      ensures forall n :: n in Cells ==> Fresh(n, obstructed)
      ensures openNodes == [] && closedNodes == [] && path == []
      ensures fresh(gridNodes) && fresh(Cells)
    {
      gridWidth, gridHeight, nodeSize := width, height, size;
      openNodes, closedNodes, path := [], [], [];
      gridNodes := new Node?[0, 0];
      Cells := {};
      new;
      GenerateGrid(obstructed);
    }

    /** Replaces the highlighted cells; the cells and their links are untouched. */
    method Highlight(cells: seq<Node>)
      modifies this`path
      ensures path == cells
      ensures Valid() == old(Valid())
    {
      path := cells;
    }

    /**
     * Allocates a fresh array and fills it in one x-outer, y-inner scan; each new
     * cell is linked both ways to its already-created neighbours.
     */
    method GenerateGrid(obstructed: (Vector3, Vector3) -> bool)
      modifies this`gridNodes, this`Cells
      ensures Valid() && Positioned()
      ensures forall n :: n in Cells ==> Fresh(n, obstructed)
      ensures fresh(gridNodes) && fresh(Cells)
    {
      gridNodes := new Node?[gridWidth, gridHeight]((i, j) => null);
      Cells := {};
      BuiltAtStart(obstructed);
      var x := 0;
      while x < gridWidth
        invariant 0 <= x <= gridWidth
        invariant fresh(gridNodes) && fresh(Cells)
        invariant Built(x, 0, obstructed)
      {
        PlaceColumn(x, obstructed);
        x := x + 1;
      }
      BuiltAtEnd(obstructed);
    }

    /** The inner loop of the scan: creates the cells of column x, bottom to top. */
    method PlaceColumn(x: int, obstructed: (Vector3, Vector3) -> bool)
      requires 0 <= x < gridWidth && Built(x, 0, obstructed)
      modifies this`Cells, gridNodes, Cells`nearestNodes
      ensures Built(x + 1, 0, obstructed)
      ensures fresh(Cells - old(Cells))
    {
      var y := 0;
      while y < gridHeight
        invariant 0 <= y <= gridHeight
        invariant fresh(Cells - old(Cells))
        invariant Built(x, y, obstructed)
      {
        PlaceCell(x, y, obstructed);
        y := y + 1;
      }
      BuiltColumnEnd(x, obstructed);
    }

    lemma BuiltColumnEnd(x: int, obstructed: (Vector3, Vector3) -> bool)
      requires Built(x, gridHeight, obstructed)
      ensures Built(x + 1, 0, obstructed)
    {
      forall n | n in Cells ensures LinkedSoFar(n, x + 1, 0) {
        assert LinkedSoFar(n, x, gridHeight);
        LinkedColumnEnd(n.x, n.y, gridWidth, gridHeight, x);
      }
    }

    lemma BuiltAtStart(obstructed: (Vector3, Vector3) -> bool)
      requires gridNodes.Length0 == gridWidth && gridNodes.Length1 == gridHeight
      requires forall i, j :: 0 <= i < gridWidth && 0 <= j < gridHeight ==> gridNodes[i, j] == null
      requires Cells == {}
      ensures Built(0, 0, obstructed)
    {
    }

    lemma BuiltAtEnd(obstructed: (Vector3, Vector3) -> bool)
      requires Built(gridWidth, 0, obstructed)
      ensures Valid() && Positioned()
      ensures forall n :: n in Cells ==> Fresh(n, obstructed)
    {
      forall n | n in Cells ensures FullyLinked(n) {
        assert LinkedSoFar(n, gridWidth, 0);
        LinkedAtEnd(n.x, n.y, gridWidth, gridHeight);
      }
    }

    /** One step of the scan: creates cell (x, y), probes it for obstacles and links it to its earlier neighbours. */
    method PlaceCell(x: int, y: int, obstructed: (Vector3, Vector3) -> bool)
      requires InBounds(x, y, gridWidth, gridHeight) && Built(x, y, obstructed)
      modifies this`Cells, gridNodes, Cells`nearestNodes
      ensures Built(x, y + 1, obstructed)
      ensures fresh(Cells - old(Cells))
    {
      ghost var oldCells := Cells;
      var currentNode := StoreCell(x, y, obstructed);
      LinkCell(currentNode, x, y, oldCells, obstructed);
    }

    /**
     * Creates cell (x, y) at its world position, stores it in its slot and
     * probes its box for obstacles: the array and the cells now reach past
     * (x, y), while the links are still those made before it.
     */
    method StoreCell(x: int, y: int, obstructed: (Vector3, Vector3) -> bool) returns (currentNode: Node)
      requires InBounds(x, y, gridWidth, gridHeight) && Built(x, y, obstructed)
      modifies this`Cells, gridNodes
      ensures fresh(currentNode) && currentNode.x == x && currentNode.y == y && currentNode.nearestNodes == []
      ensures Cells == old(Cells) + {currentNode} && fresh(Cells - old(Cells))
      ensures BuiltArray(x, y + 1) && BuiltCells(x, y + 1, obstructed) && BuiltLinks(x, y) && LinksClosed()
      ensures EarlierSlots(x, y, old(Cells)) && InSlotsBefore(old(Cells), x, y)
    {
      var nodePosition := CellPosition(x, y);
      currentNode := new Node(x, y, nodePosition);
      gridNodes[x, y] := currentNode;
      Cells := Cells + {currentNode};

      if !obstructed(nodePosition, HalfExtents()) {
        currentNode.walkable := true;
      }
      PlacedArray(currentNode);
      PlacedCells(obstructed, currentNode);
      StoredLinks(currentNode);
    }

    /** Storing the new cell advances the array part of the generation invariant by one slot. */
    twostate lemma PlacedArray(new currentNode: Node)
      requires InBounds(currentNode.x, currentNode.y, gridWidth, gridHeight)
      requires var x, y := currentNode.x, currentNode.y; old(BuiltArray(x, y))
      requires gridNodes == old(gridNodes) && Cells == old(Cells) + {currentNode}
      requires forall i, j :: 0 <= i < gridWidth && 0 <= j < gridHeight ==>
                 gridNodes[i, j] == if i == currentNode.x && j == currentNode.y then currentNode else old(gridNodes[i, j])
      ensures BuiltArray(currentNode.x, currentNode.y + 1)
      ensures EarlierSlots(currentNode.x, currentNode.y, old(Cells))
    {
    }

    /** The new cell is fresh and every older cell keeps its slot and its fields. */
    twostate lemma PlacedCells(obstructed: (Vector3, Vector3) -> bool, new currentNode: Node)
      requires InBounds(currentNode.x, currentNode.y, gridWidth, gridHeight)
      requires var x, y := currentNode.x, currentNode.y; old(BuiltCells(x, y, obstructed))
      requires gridNodes == old(gridNodes) && Cells == old(Cells) + {currentNode}
      requires currentNode.position == CellPosition(currentNode.x, currentNode.y) && Fresh(currentNode, obstructed)
      requires forall i, j :: 0 <= i < gridWidth && 0 <= j < gridHeight ==>
                 gridNodes[i, j] == if i == currentNode.x && j == currentNode.y then currentNode else old(gridNodes[i, j])
      requires forall n :: n in old(Cells) ==> n.walkable == old(n.walkable) && n.gCost == old(n.gCost) &&
                                               n.hCost == old(n.hCost) && n.parentNode == old(n.parentNode)
      ensures BuiltCells(currentNode.x, currentNode.y + 1, obstructed)
      ensures InSlotsBefore(old(Cells), currentNode.x, currentNode.y)
    {
      forall n | n in old(Cells) ensures Fresh(n, obstructed) {
        assert old(Fresh(n, obstructed));
      }
    }

    /** The new cell has no links yet, which is all the scan has made for it so far; the other cells keep theirs. */
    twostate lemma StoredLinks(new currentNode: Node)
      requires InBounds(currentNode.x, currentNode.y, gridWidth, gridHeight)
      requires var x, y := currentNode.x, currentNode.y; old(BuiltLinks(x, y)) && old(LinksClosed())
      requires Cells == old(Cells) + {currentNode} && currentNode.nearestNodes == []
      requires forall n :: n in old(Cells) ==> n.nearestNodes == old(n.nearestNodes)
      ensures BuiltLinks(currentNode.x, currentNode.y) && LinksClosed()
    {
      var x, y := currentNode.x, currentNode.y;
      LinkedStep(x, y, gridWidth, gridHeight, x, y);
      forall n | n in old(Cells) ensures LinkedSoFar(n, x, y) {
        assert old(LinkedSoFar(n, x, y));
      }
    }

    /** Every cell of the set sits in its own slot, which the scan passed before (x, y). */
    ghost predicate InSlotsBefore(cells: set<Node>, x: int, y: int)
      reads this`gridNodes, gridNodes
    {
      gridNodes.Length0 == gridWidth && gridNodes.Length1 == gridHeight &&
      forall n :: n in cells ==>
        InBounds(n.x, n.y, gridWidth, gridHeight) && Before(n.x, n.y, x, y) && gridNodes[n.x, n.y] == n
    }

    /**
     * LinkToEarlier, seen from the scan: the links now reach past (x, y),
     * and as only links change, the array and the cells' other fields keep
     * what held of them.
     */
    method LinkCell(currentNode: Node, x: int, y: int, ghost earlier: set<Node>, ghost obstructed: (Vector3, Vector3) -> bool)
      requires InBounds(x, y, gridWidth, gridHeight) && EarlierSlots(x, y, earlier) && InSlotsBefore(earlier, x, y)
      requires currentNode.x == x && currentNode.y == y && currentNode.nearestNodes == []
      requires currentNode !in earlier && Cells == earlier + {currentNode}
      requires BuiltLinks(x, y) && LinksClosed()
      modifies currentNode`nearestNodes, earlier`nearestNodes
      ensures BuiltLinks(x, y + 1) && LinksClosed()
      ensures BuiltArray(x, y + 1) == old(BuiltArray(x, y + 1))
      ensures BuiltCells(x, y + 1, obstructed) == old(BuiltCells(x, y + 1, obstructed))
    {
      LinkToEarlier(currentNode, x, y, earlier);
      PlacedLinks(currentNode, earlier);
    }

    /** Linking the new cell advances the link part of the generation invariant by one cell; links stay inside the grid. */
    twostate lemma PlacedLinks(new currentNode: Node, earlier: set<Node>)
      requires InBounds(currentNode.x, currentNode.y, gridWidth, gridHeight)
      requires var x, y := currentNode.x, currentNode.y; old(BuiltLinks(x, y)) && old(LinksClosed())
      requires EarlierSlots(currentNode.x, currentNode.y, earlier) && InSlotsBefore(earlier, currentNode.x, currentNode.y)
      requires Cells == old(Cells) == earlier + {currentNode} && currentNode !in earlier
      requires currentNode.nearestNodes == EarlierNodes(currentNode.x, currentNode.y, earlier)
      requires forall n :: n in earlier ==>
                 n.nearestNodes == old(n.nearestNodes) +
                                   (if n in EarlierNodes(currentNode.x, currentNode.y, earlier) then [currentNode] else [])
      ensures BuiltLinks(currentNode.x, currentNode.y + 1) && LinksClosed()
    {
      PlacedClosed(currentNode, earlier);
      var x, y := currentNode.x, currentNode.y;
      EarlierNodesCoords(x, y, earlier);
      forall n | n in Cells ensures LinkedSoFar(n, x, y + 1) {
        if n == currentNode {
          LinkedStep(x, y, gridWidth, gridHeight, x, y);
        } else {
          assert old(LinkedSoFar(n, x, y));
          EarlierNodeAdjacent(n, x, y, earlier);
          LinkedNodeStep(n, currentNode, x, y, old(n.nearestNodes));
        }
      }
    }

    /** The new links lead to the new cell or to earlier cells, so links stay inside the grid. */
    twostate lemma PlacedClosed(new currentNode: Node, earlier: set<Node>)
      requires InBounds(currentNode.x, currentNode.y, gridWidth, gridHeight) && EarlierSlots(currentNode.x, currentNode.y, earlier)
      requires old(LinksClosed()) && Cells == old(Cells) == earlier + {currentNode}
      requires currentNode.nearestNodes == EarlierNodes(currentNode.x, currentNode.y, earlier)
      requires forall n :: n in earlier ==>
                 n.nearestNodes == old(n.nearestNodes) +
                                   (if n in EarlierNodes(currentNode.x, currentNode.y, earlier) then [currentNode] else [])
      ensures LinksClosed()
    {
      EarlierNodesCoords(currentNode.x, currentNode.y, earlier);
      forall n, k | n in Cells && 0 <= k < |n.nearestNodes| ensures n.nearestNodes[k] in Cells {
        if n == currentNode {
          assert n.nearestNodes[k] in earlier;
        } else if k < |old(n.nearestNodes)| {
          assert n.nearestNodes[k] == old(n.nearestNodes[k]);
          assert old(n.nearestNodes[k] in Cells);
        } else {
          assert n.nearestNodes[k] == currentNode;
        }
      }
    }

    /** An earlier cell n gains the link to the new cell (x, y) exactly when the two are neighbours. */
    lemma LinkedNodeStep(n: Node, currentNode: Node, x: int, y: int, before: seq<Node>)
      requires InBounds(x, y, gridWidth, gridHeight) && InBounds(n.x, n.y, gridWidth, gridHeight) && Before(n.x, n.y, x, y)
      requires currentNode.x == x && currentNode.y == y
      requires Coords(before) == LinkedBefore(n.x, n.y, gridWidth, gridHeight, x, y)
      requires n.nearestNodes == before + (if Chebyshev(n.x, n.y, x, y) == 1 then [currentNode] else [])
      ensures LinkedSoFar(n, x, y + 1)
    {
      LinkedStep(n.x, n.y, gridWidth, gridHeight, x, y);
      CoordsSnoc(before, currentNode);
    }

    /**
     * Links the new cell (x, y) both ways to each of its in-bounds neighbours
     * at (x-1, y), (x, y-1), (x-1, y-1) and (x-1, y+1), in that order; the
     * other cells' lists are left alone.
     */
    method LinkToEarlier(currentNode: Node, x: int, y: int, ghost earlier: set<Node>)
      requires InBounds(x, y, gridWidth, gridHeight) && EarlierSlots(x, y, earlier)
      requires currentNode.nearestNodes == [] && currentNode !in earlier
      modifies currentNode`nearestNodes, earlier`nearestNodes
      ensures currentNode.nearestNodes == EarlierNodes(x, y, earlier)
      ensures forall n :: n in earlier ==>
                n.nearestNodes == old(n.nearestNodes) + (if n in EarlierNodes(x, y, earlier) then [currentNode] else [])
    {
      if x > 0 {
        LinkNodes(currentNode, gridNodes[x - 1, y]);
      }
      if y > 0 {
        LinkNodes(currentNode, gridNodes[x, y - 1]);
      }
      if x > 0 && y > 0 {
        LinkNodes(currentNode, gridNodes[x - 1, y - 1]);
      }
      if x > 0 && y < gridHeight - 1 {
        LinkNodes(currentNode, gridNodes[x - 1, y + 1]);
      }
    }

    /** An in-bounds slot (i, j) holds a cell of the given set with coordinates (i, j). */
    ghost predicate SlotIn(i: int, j: int, cells: set<Node>)
      reads this`gridNodes, gridNodes
    {
      gridNodes.Length0 == gridWidth && gridNodes.Length1 == gridHeight &&
      (InBounds(i, j, gridWidth, gridHeight) ==>
         gridNodes[i, j] != null && gridNodes[i, j] in cells && gridNodes[i, j].x == i && gridNodes[i, j].y == j)
    }

    /** The four slots a new cell at (x, y) links to which precede it in the scan. */
    ghost predicate EarlierSlots(x: int, y: int, cells: set<Node>)
      reads this`gridNodes, gridNodes
    {
      SlotIn(x - 1, y, cells) && SlotIn(x, y - 1, cells) && SlotIn(x - 1, y - 1, cells) && SlotIn(x - 1, y + 1, cells)
    }

    /** The cells a new cell at (x, y) links to, in the order of the four guarded calls. */
    ghost function EarlierNodes(x: int, y: int, cells: set<Node>): (r: seq<Node>)
      requires InBounds(x, y, gridWidth, gridHeight) && EarlierSlots(x, y, cells)
      reads this`gridNodes, gridNodes
    {
      SlotIf(x - 1, y, x > 0) + SlotIf(x, y - 1, y > 0) +
      SlotIf(x - 1, y - 1, x > 0 && y > 0) + SlotIf(x - 1, y + 1, x > 0 && y < gridHeight - 1)
    }

    /** The cell in slot (i, j) when the guard holds, nothing otherwise. */
    ghost function SlotIf(i: int, j: int, keep: bool): (r: seq<Node>)
      requires gridNodes.Length0 == gridWidth && gridNodes.Length1 == gridHeight
      requires keep ==> InBounds(i, j, gridWidth, gridHeight) && gridNodes[i, j] != null
      reads this`gridNodes, gridNodes
    {
      if keep then [gridNodes[i, j]] else []
    }

    /** The cells a new cell links to have the coordinates of its earlier neighbours, and belong to the given set. */
    lemma EarlierNodesCoords(x: int, y: int, cells: set<Node>)
      requires InBounds(x, y, gridWidth, gridHeight) && EarlierSlots(x, y, cells)
      ensures Coords(EarlierNodes(x, y, cells)) == EarlierNeighbours(x, y, gridWidth, gridHeight)
      ensures forall k :: 0 <= k < |EarlierNodes(x, y, cells)| ==> EarlierNodes(x, y, cells)[k] in cells
    {
      var a := SlotIf(x - 1, y, x > 0);
      var b := SlotIf(x, y - 1, y > 0);
      var c := SlotIf(x - 1, y - 1, x > 0 && y > 0);
      var d := SlotIf(x - 1, y + 1, x > 0 && y < gridHeight - 1);
      SlotIfCoords(x - 1, y, x > 0, cells);
      SlotIfCoords(x, y - 1, y > 0, cells);
      SlotIfCoords(x - 1, y - 1, x > 0 && y > 0, cells);
      SlotIfCoords(x - 1, y + 1, x > 0 && y < gridHeight - 1, cells);
      CoordsAppend(a, b);
      CoordsAppend(a + b, c);
      CoordsAppend(a + b + c, d);
    }

    lemma SlotIfCoords(i: int, j: int, keep: bool, cells: set<Node>)
      requires SlotIn(i, j, cells) && keep == InBounds(i, j, gridWidth, gridHeight)
      ensures Coords(SlotIf(i, j, keep)) == CellIf(i, j, keep)
      ensures forall k :: 0 <= k < |SlotIf(i, j, keep)| ==> SlotIf(i, j, keep)[k] in cells
    {
    }

    /** An earlier cell is linked to the new cell (x, y) exactly when it is one of its neighbours. */
    lemma EarlierNodeAdjacent(n: Node, x: int, y: int, cells: set<Node>)
      requires InBounds(x, y, gridWidth, gridHeight) && EarlierSlots(x, y, cells)
      requires n in cells && InBounds(n.x, n.y, gridWidth, gridHeight) && Before(n.x, n.y, x, y) && gridNodes[n.x, n.y] == n
      ensures n in EarlierNodes(x, y, cells) <==> Chebyshev(n.x, n.y, x, y) == 1
    {
      EarlierAdjacent(n.x, n.y, x, y);
    }

    /**
     * After generation a cell's list holds exactly the cells at Chebyshev
     * distance 1, each once: every 8-adjacent pair is linked exactly once.
     */
    lemma NearestAreNeighbours(n: Node)
      requires Valid() && n in Cells
      ensures forall m :: m in n.nearestNodes <==> m in Cells && Chebyshev(m.x, m.y, n.x, n.y) == 1
      ensures NoDups(n.nearestNodes) && |n.nearestNodes| <= 8
    {
      assert FullyLinked(n);
      LinkOrderIsNeighbourhood(n.x, n.y, gridWidth, gridHeight);
      var c := Coords(n.nearestNodes);
      forall m | m in n.nearestNodes ensures m in Cells && Chebyshev(m.x, m.y, n.x, n.y) == 1 {
        var k :| 0 <= k < |n.nearestNodes| && n.nearestNodes[k] == m;
        assert c[k] == (m.x, m.y);
      }
      forall m | m in Cells && Chebyshev(m.x, m.y, n.x, n.y) == 1 ensures m in n.nearestNodes {
        assert (m.x, m.y) in c;
        var k :| 0 <= k < |c| && c[k] == (m.x, m.y);
        assert n.nearestNodes[k] in Cells;
      }
      forall i, j | 0 <= i < j < |n.nearestNodes| ensures n.nearestNodes[i] != n.nearestNodes[j] {
        assert c[i] != c[j];
      }
    }

    /** Every link joins two cells of the grid one step apart. */
    ghost predicate Neighbourly()
      reads this`Cells, Cells`nearestNodes
    {
      forall n, m :: n in Cells && m in n.nearestNodes ==> m in Cells && Chebyshev(m.x, m.y, n.x, n.y) == 1
    }

    lemma ValidNeighbourly()
      requires Valid()
      ensures Neighbourly()
    {
      forall n, m | n in Cells && m in n.nearestNodes ensures m in Cells && Chebyshev(m.x, m.y, n.x, n.y) == 1 {
        NearestAreNeighbours(n);
      }
    }

    /** Adjacency is symmetric. */
    lemma AdjacencySymmetric(n: Node, m: Node)
      requires Valid() && n in Cells && m in Cells
      ensures m in n.nearestNodes <==> n in m.nearestNodes
    {
      NearestAreNeighbours(n);
      NearestAreNeighbours(m);
    }

    /**
     * The in-bounds cells around currentNode's coordinates, the centre excluded,
     * optionally only the walkable ones, scanned column by column.
     */
    method GetNearestNodes(currentNode: Node, onlyWalkable: bool := false) returns (nearestNodes: seq<Node>)
      requires ValidSlots()
      ensures forall m :: m in nearestNodes <==>
                m in Cells && Chebyshev(m.x, m.y, currentNode.x, currentNode.y) == 1 && (onlyWalkable ==> m.walkable)
      ensures forall i, j :: 0 <= i < j < |nearestNodes| ==>
                Before(nearestNodes[i].x, nearestNodes[i].y, nearestNodes[j].x, nearestNodes[j].y)
      ensures NoDups(nearestNodes) && |nearestNodes| <= 8
    {
      nearestNodes := [];
      var x := -1;
      while x <= 1
        invariant -1 <= x <= 2
        invariant ScanState(nearestNodes, currentNode, onlyWalkable, x, -1)
      {
        nearestNodes := ScanColumn(nearestNodes, currentNode, onlyWalkable, x);
        x := x + 1;
      }
      ScanEnd(nearestNodes, currentNode, onlyWalkable);
    }

    /** The inner scan loop: the offsets (x, -1), (x, 0), (x, 1) in turn. */
    method ScanColumn(s: seq<Node>, currentNode: Node, onlyWalkable: bool, x: int) returns (t: seq<Node>)
      requires ValidSlots() && -1 <= x <= 1 && ScanState(s, currentNode, onlyWalkable, x, -1)
      ensures ScanState(t, currentNode, onlyWalkable, x + 1, -1)
    {
      t := s;
      var y := -1;
      while y <= 1
        invariant -1 <= y <= 2
        invariant ScanState(t, currentNode, onlyWalkable, x, y)
      {
        t := ScanOffset(t, currentNode, onlyWalkable, x, y);
        y := y + 1;
      }
      ScanColumnEnd(t, currentNode, onlyWalkable, x);
    }

    /** One pass of the inner scan loop: appends the cell at offset (x, y) when it qualifies. */
    method ScanOffset(s: seq<Node>, currentNode: Node, onlyWalkable: bool, x: int, y: int) returns (t: seq<Node>)
      requires ValidSlots() && -1 <= x <= 1 && -1 <= y <= 1 && ScanState(s, currentNode, onlyWalkable, x, y)
      ensures ScanState(t, currentNode, onlyWalkable, x, y + 1)
    {
      t := s;
      if y == 0 && x == 0 {
        ScanSkip(s, currentNode, onlyWalkable, x, y);
        return;
      }
      var checkX := currentNode.x + x;
      var checkY := currentNode.y + y;
      if checkX >= 0 && checkY >= 0 && checkX < gridWidth && checkY < gridHeight {
        if onlyWalkable && !gridNodes[checkX, checkY].walkable {
          ScanSkip(s, currentNode, onlyWalkable, x, y);
          return;
        }
        ScanAppend(s, currentNode, onlyWalkable, x, y);
        t := s + [gridNodes[currentNode.x + x, currentNode.y + y]];
      } else {
        ScanSkip(s, currentNode, onlyWalkable, x, y);
      }
    }

    /** m is a cell of the ring around c that the scan collects. */
    ghost predicate Qualifies(m: Node, c: Node, onlyWalkable: bool)
      reads this`Cells, m`walkable
    {
      m in Cells && Ring(m.x - c.x, m.y - c.y) && (onlyWalkable ==> m.walkable)
    }

    /** (dx, dy) is one of the eight offsets around the centre. */
    predicate Ring(dx: int, dy: int) {
      -1 <= dx <= 1 && -1 <= dy <= 1 && !(dx == 0 && dy == 0)
    }

    /** The neighbour scan has collected, in order, exactly the qualifying cells whose offset precedes (x, y). */
    ghost predicate ScanState(s: seq<Node>, c: Node, onlyWalkable: bool, x: int, y: int)
      reads this`Cells, Cells`walkable
    {
      (forall k :: 0 <= k < |s| ==> s[k] in Cells && Qualifies(s[k], c, onlyWalkable) && Before(s[k].x - c.x, s[k].y - c.y, x, y)) &&
      (forall m {:trigger Qualifies(m, c, onlyWalkable)} :: m in Cells && Qualifies(m, c, onlyWalkable) && Before(m.x - c.x, m.y - c.y, x, y) ==> m in s) &&
      (forall i, j :: 0 <= i < j < |s| ==> Before(s[i].x, s[i].y, s[j].x, s[j].y))
    }

    /** A skipped offset (the centre, outside the grid, or an excluded unwalkable cell) leaves nothing to collect. */
    lemma ScanSkip(s: seq<Node>, c: Node, onlyWalkable: bool, x: int, y: int)
      requires ValidSlots() && -1 <= x <= 1 && -1 <= y <= 1 && ScanState(s, c, onlyWalkable, x, y)
      requires var cx, cy := c.x + x, c.y + y;
               (x, y) == (0, 0) || !InBounds(cx, cy, gridWidth, gridHeight) || (onlyWalkable && !gridNodes[cx, cy].walkable)
      ensures ScanState(s, c, onlyWalkable, x, y + 1)
    {
      forall m | m in Cells && Qualifies(m, c, onlyWalkable) && Before(m.x - c.x, m.y - c.y, x, y + 1) ensures m in s {
        assert gridNodes[m.x, m.y] == m;
      }
    }

    /** A collected offset appends the one cell there, which comes after everything collected so far. */
    lemma ScanAppend(s: seq<Node>, c: Node, onlyWalkable: bool, x: int, y: int)
      requires ValidSlots() && -1 <= x <= 1 && -1 <= y <= 1 && ScanState(s, c, onlyWalkable, x, y)
      requires Ring(x, y) && InBounds(c.x + x, c.y + y, gridWidth, gridHeight)
      requires onlyWalkable ==> gridNodes[c.x + x, c.y + y].walkable
      ensures ScanState(s + [gridNodes[c.x + x, c.y + y]], c, onlyWalkable, x, y + 1)
    {
      var t := s + [gridNodes[c.x + x, c.y + y]];
      forall m | m in Cells && Qualifies(m, c, onlyWalkable) && Before(m.x - c.x, m.y - c.y, x, y + 1) ensures m in t {
        if (m.x - c.x, m.y - c.y) != (x, y) {
          assert m in s;
        } else {
          assert m == gridNodes[c.x + x, c.y + y];
        }
      }
    }

    lemma ScanColumnEnd(s: seq<Node>, c: Node, onlyWalkable: bool, x: int)
      requires ScanState(s, c, onlyWalkable, x, 2)
      ensures ScanState(s, c, onlyWalkable, x + 1, -1)
    {
      forall m | m in Cells && Qualifies(m, c, onlyWalkable) && Before(m.x - c.x, m.y - c.y, x + 1, -1) ensures m in s {
        assert Before(m.x - c.x, m.y - c.y, x, 2);
      }
    }

    /** The finished scan: all qualifying cells, in coordinate order, at most eight of them. */
    lemma ScanEnd(s: seq<Node>, c: Node, onlyWalkable: bool)
      requires ScanState(s, c, onlyWalkable, 2, -1)
      ensures forall m :: m in s <==> m in Cells && Chebyshev(m.x, m.y, c.x, c.y) == 1 && (onlyWalkable ==> m.walkable)
      ensures NoDups(s) && |s| <= 8
    {
      ScanEndMembers(s, c, onlyWalkable);
      ScanEndBound(s, c, onlyWalkable);
    }

    lemma ScanEndMembers(s: seq<Node>, c: Node, onlyWalkable: bool)
      requires ScanState(s, c, onlyWalkable, 2, -1)
      ensures forall m :: m in s <==> m in Cells && Chebyshev(m.x, m.y, c.x, c.y) == 1 && (onlyWalkable ==> m.walkable)
    {
      forall m ensures m in s <==> m in Cells && Chebyshev(m.x, m.y, c.x, c.y) == 1 && (onlyWalkable ==> m.walkable) {
        if m in Cells {
          assert Qualifies(m, c, onlyWalkable) <==> Chebyshev(m.x, m.y, c.x, c.y) == 1 && (onlyWalkable ==> m.walkable);
        }
      }
    }

    lemma ScanEndBound(s: seq<Node>, c: Node, onlyWalkable: bool)
      requires ScanState(s, c, onlyWalkable, 2, -1)
      ensures NoDups(s) && |s| <= 8
    {
      var ring := {(c.x - 1, c.y - 1), (c.x - 1, c.y), (c.x - 1, c.y + 1), (c.x, c.y - 1),
                   (c.x, c.y + 1), (c.x + 1, c.y - 1), (c.x + 1, c.y), (c.x + 1, c.y + 1)};
      var cs := Coords(s);
      forall k | 0 <= k < |cs| ensures cs[k] in ring {
        assert Qualifies(s[k], c, onlyWalkable);
      }
      forall i, j | 0 <= i < j < |cs| ensures cs[i] != cs[j] && s[i] != s[j] {
        assert Before(s[i].x, s[i].y, s[j].x, s[j].y);
      }
      NoDupsBounded(cs, ring);
    }

    /**
     * The in-bounds cells at Chebyshev distance 1 to range from currentNode's
     * coordinates: ring after ring outwards, each ring scanned column by column
     * over its (2r+1) x (2r+1) square with the inner square skipped.
     */
    method GetNearestNodesInRange(currentNode: Node, range: int := 1) returns (nearestNodes: seq<Node>)
      requires ValidSlots()
      ensures forall m :: m in nearestNodes <==>
                m in Cells && 1 <= Chebyshev(m.x, m.y, currentNode.x, currentNode.y) <= range
      ensures forall i, j :: 0 <= i < j < |nearestNodes| ==> InRingOrder(nearestNodes[i], nearestNodes[j], currentNode)
      ensures NoDups(nearestNodes)
      ensures range <= 0 ==> nearestNodes == []
    {
      nearestNodes := [];
      var r := 1;
      while r <= range
        invariant 1 <= r && (range >= 1 ==> r <= range + 1) && (range < 1 ==> r == 1)
        invariant RangeState(nearestNodes, currentNode, r, -r, -r)
      {
        nearestNodes := ScanRing(nearestNodes, currentNode, r);
        r := r + 1;
      }
      RangeEnd(nearestNodes, currentNode, r, range);
    }

    /** The middle loop: the columns x = -r .. r of ring r. */
    method ScanRing(s: seq<Node>, currentNode: Node, r: int) returns (t: seq<Node>)
      requires ValidSlots() && 1 <= r && RangeState(s, currentNode, r, -r, -r)
      ensures RangeState(t, currentNode, r + 1, -(r + 1), -(r + 1))
    {
      t := s;
      var x := -r;
      while x <= r
        invariant -r <= x <= r + 1
        invariant RangeState(t, currentNode, r, x, -r)
      {
        t := ScanRingColumn(t, currentNode, r, x);
        x := x + 1;
      }
      RingEnd(t, currentNode, r);
    }

    /** The inner loop: the offsets (x, -r) .. (x, r) of ring r. */
    method ScanRingColumn(s: seq<Node>, currentNode: Node, r: int, x: int) returns (t: seq<Node>)
      requires ValidSlots() && 1 <= r && -r <= x <= r && RangeState(s, currentNode, r, x, -r)
      ensures RangeState(t, currentNode, r, x + 1, -r)
    {
      t := s;
      var y := -r;
      while y <= r
        invariant -r <= y <= r + 1
        invariant RangeState(t, currentNode, r, x, y)
      {
        t := ScanRingOffset(t, currentNode, r, x, y);
        y := y + 1;
      }
      RingColumnEnd(t, currentNode, r, x);
    }

    /** One pass of the inner loop: offsets inside ring r are skipped, in-bounds cells on it appended. */
    method ScanRingOffset(s: seq<Node>, currentNode: Node, r: int, x: int, y: int) returns (t: seq<Node>)
      requires ValidSlots() && 1 <= r && -r <= x <= r && -r <= y <= r && RangeState(s, currentNode, r, x, y)
      ensures RangeState(t, currentNode, r, x, y + 1)
    {
      t := s;
      if y >= 1 - r && y <= r - 1 && x >= 1 - r && x <= r - 1 {
        RingSkip(s, currentNode, r, x, y);
        return;
      }
      var checkX := currentNode.x + x;
      var checkY := currentNode.y + y;
      if checkX >= 0 && checkY >= 0 && checkX < gridWidth && checkY < gridHeight {
        RingAppend(s, currentNode, r, x, y);
        t := s + [gridNodes[checkX, checkY]];
      } else {
        RingSkip(s, currentNode, r, x, y);
      }
    }

    /**
     * The ring scan, standing at offset (x, y) of ring r, has collected in ring
     * order exactly the cells it has passed.
     */
    ghost predicate RangeState(s: seq<Node>, c: Node, r: int, x: int, y: int)
      reads this`Cells
    {
      (forall k :: 0 <= k < |s| ==> s[k] in Cells && Scanned(s[k], c, r, x, y)) &&
      (forall m {:trigger Scanned(m, c, r, x, y)} :: m in Cells && Scanned(m, c, r, x, y) ==> m in s) &&
      (forall i, j :: 0 <= i < j < |s| ==> InRingOrder(s[i], s[j], c))
    }

    /** An offset inside ring r, or outside the grid, has no cell on ring r to collect. */
    lemma RingSkip(s: seq<Node>, c: Node, r: int, x: int, y: int)
      requires ValidSlots() && 1 <= r && -r <= x <= r && -r <= y <= r && RangeState(s, c, r, x, y)
      requires (1 - r <= x <= r - 1 && 1 - r <= y <= r - 1) || !InBounds(c.x + x, c.y + y, gridWidth, gridHeight)
      ensures RangeState(s, c, r, x, y + 1)
    {
      forall m | m in Cells && Scanned(m, c, r, x, y + 1) ensures m in s {
        assert Scanned(m, c, r, x, y);
      }
    }

    /** An in-bounds offset on ring r appends its cell, which comes after everything collected so far. */
    lemma RingAppend(s: seq<Node>, c: Node, r: int, x: int, y: int)
      requires ValidSlots() && 1 <= r && -r <= x <= r && -r <= y <= r && RangeState(s, c, r, x, y)
      requires !(1 - r <= x <= r - 1 && 1 - r <= y <= r - 1) && InBounds(c.x + x, c.y + y, gridWidth, gridHeight)
      ensures RangeState(s + [gridNodes[c.x + x, c.y + y]], c, r, x, y + 1)
    {
      var g := gridNodes[c.x + x, c.y + y];
      var t := s + [g];
      assert Chebyshev(x, y, 0, 0) == r;
      forall m | m in Cells && Scanned(m, c, r, x, y + 1) ensures m in t {
        if (m.x - c.x, m.y - c.y) != (x, y) {
          assert Scanned(m, c, r, x, y);
        } else {
          assert m == g;
        }
      }
      forall k | 0 <= k < |s| ensures InRingOrder(s[k], g, c) {
        assert Scanned(s[k], c, r, x, y);
      }
    }

    lemma RingColumnEnd(s: seq<Node>, c: Node, r: int, x: int)
      requires 1 <= r && RangeState(s, c, r, x, r + 1)
      ensures RangeState(s, c, r, x + 1, -r)
    {
      forall m | m in Cells && Scanned(m, c, r, x + 1, -r) ensures m in s {
        assert Scanned(m, c, r, x, r + 1);
      }
      forall k | 0 <= k < |s| ensures Scanned(s[k], c, r, x + 1, -r) {
        assert Scanned(s[k], c, r, x, r + 1);
      }
    }

    lemma RingEnd(s: seq<Node>, c: Node, r: int)
      requires 1 <= r && RangeState(s, c, r, r + 1, -r)
      ensures RangeState(s, c, r + 1, -(r + 1), -(r + 1))
    {
      forall m | m in Cells && Scanned(m, c, r + 1, -(r + 1), -(r + 1)) ensures m in s {
        assert Scanned(m, c, r, r + 1, -r);
      }
      forall k | 0 <= k < |s| ensures Scanned(s[k], c, r + 1, -(r + 1), -(r + 1)) {
        assert Scanned(s[k], c, r, r + 1, -r);
      }
    }

    /** After the last ring, the scan holds every cell of rings 1 .. range, each once. */
    lemma RangeEnd(s: seq<Node>, c: Node, r: int, range: int)
      requires 1 <= r && (range >= 1 ==> r == range + 1) && (range < 1 ==> r == 1)
      requires RangeState(s, c, r, -r, -r)
      ensures forall m :: m in s <==> m in Cells && 1 <= Chebyshev(m.x, m.y, c.x, c.y) <= range
      ensures NoDups(s)
      ensures range <= 0 ==> s == []
    {
      forall m ensures m in s <==> m in Cells && 1 <= Chebyshev(m.x, m.y, c.x, c.y) <= range {
        if m in Cells {
          assert Scanned(m, c, r, -r, -r) <==> 1 <= Chebyshev(m.x, m.y, c.x, c.y) <= range;
        }
      }
      forall i, j | 0 <= i < j < |s| ensures s[i] != s[j] {
        assert InRingOrder(s[i], s[j], c);
      }
      if s != [] {
        assert s[0] in s;
      }
    }

    /** The cells at the end of a walk of exactly k links from n. */
    ghost function Reach(n: Node, k: nat): (r: set<Node>)
      requires n in Cells && LinksClosed()
      ensures r <= Cells
      reads this`Cells, Cells`nearestNodes
      decreases k, 0
    {
      if k == 0 then {n} else ReachAll(n.nearestNodes, k - 1)
    }

    /** The cells at the end of a walk of exactly k links from some cell of s. */
    ghost function ReachAll(s: seq<Node>, k: nat): (r: set<Node>)
      requires InCells(s, Cells) && LinksClosed()
      ensures r <= Cells
      reads this`Cells, Cells`nearestNodes
      decreases k, 1, |s|
    {
      if s == [] then {} else ReachAll(s[..|s| - 1], k) + Reach(s[|s| - 1], k)
    }

    /**
     * The recursive neighbourhood query: for range 0 the cell itself, otherwise
     * the results for each linked cell with range - 1, merged in order without
     * repeats. It follows links, not coordinates.
     */
    method GetNearestNodesInRange2(currentNode: Node, range: nat := 3) returns (nearestNodes: seq<Node>)
      requires LinksClosed() && currentNode in Cells
      ensures NoDups(nearestNodes)
      ensures forall m :: m in nearestNodes <==> m in Reach(currentNode, range)
      decreases range
    {
      nearestNodes := [];
      if range == 0 {
        nearestNodes := nearestNodes + [currentNode];
        return;
      }
      ghost var nbrs := currentNode.nearestNodes;
      var i := 0;
      while i < |currentNode.nearestNodes|
        invariant 0 <= i <= |nbrs| && nbrs == currentNode.nearestNodes
        invariant NoDups(nearestNodes)
        invariant forall m :: m in nearestNodes <==> m in ReachAll(nbrs[..i], range - 1)
      {
        var node := currentNode.nearestNodes[i];
        // The sets reached so far and from node, fixed before the calls below.
        ghost var R := ReachAll(nbrs[..i], range - 1);
        assert forall m :: m in nearestNodes <==> m in R;
        var sub := GetNearestNodesInRange2(node, range - 1);
        ghost var S := Reach(node, range - 1);
        assert forall m :: m in sub <==> m in S;
        ghost var before := nearestNodes;
        var j := 0;
        while j < |sub|
          invariant 0 <= j <= |sub|
          invariant NoDups(nearestNodes)
          invariant forall m :: m in nearestNodes <==> m in before || m in sub[..j]
        {
          if sub[j] !in nearestNodes {
            NoDupsSnoc(nearestNodes, sub[j]);
            nearestNodes := nearestNodes + [sub[j]];
          }
          assert sub[..j + 1] == sub[..j] + [sub[j]];
          j := j + 1;
        }
        assert sub[..j] == sub;
        assert nbrs[..i + 1][..i] == nbrs[..i];
        assert ReachAll(nbrs[..i + 1], range - 1) == R + S;
        forall m ensures m in nearestNodes <==> m in R + S {
          assert m in nearestNodes <==> m in before || m in sub;
        }
        i := i + 1;
      }
      assert nbrs[..i] == nbrs;
    }

    /** A cell reached from some entry of s is reached from s, and only such cells are. */
    lemma {:induction false} ReachAllMember(s: seq<Node>, k: nat, m: Node) returns (idx: nat)
      requires InCells(s, Cells) && LinksClosed() && m in ReachAll(s, k)
      ensures idx < |s| && m in Reach(s[idx], k)
    {
      var front := s[..|s| - 1];
      if m in Reach(s[|s| - 1], k) {
        idx := |s| - 1;
      } else {
        idx := ReachAllMember(front, k, m);
        assert front[idx] == s[idx];
      }
    }

    lemma {:induction false} ReachAllContains(s: seq<Node>, k: nat, idx: nat)
      requires InCells(s, Cells) && LinksClosed() && idx < |s|
      ensures Reach(s[idx], k) <= ReachAll(s, k)
    {
      if idx < |s| - 1 {
        var front := s[..|s| - 1];
        ReachAllContains(front, k, idx);
        assert front[idx] == s[idx];
      }
    }

    /** One link out reaches exactly the linked cells. */
    lemma {:induction false} ReachAllZero(s: seq<Node>)
      requires InCells(s, Cells) && LinksClosed()
      ensures forall m :: m in ReachAll(s, 0) <==> m in s
    {
      if s != [] {
        var front := s[..|s| - 1];
        ReachAllZero(front);
        assert s == front + [s[|s| - 1]];
      }
    }

    /** On a generated grid, range 1 gives exactly the cells at Chebyshev distance 1. */
    lemma ReachOne(n: Node)
      requires Valid() && n in Cells
      ensures forall m :: m in Reach(n, 1) <==> m in Cells && Chebyshev(m.x, m.y, n.x, n.y) == 1
    {
      NearestAreNeighbours(n);
      ReachAllZero(n.nearestNodes);
    }

    /** Following k links never leaves the grid nor goes further than Chebyshev distance k. */
    lemma {:induction false} ReachWithin(n: Node, k: nat)
      requires Neighbourly() && LinksClosed() && n in Cells
      ensures forall m :: m in Reach(n, k) ==> m in Cells && Chebyshev(m.x, m.y, n.x, n.y) <= k
    {
      if k > 0 {
        forall m | m in Reach(n, k) ensures m in Cells && Chebyshev(m.x, m.y, n.x, n.y) <= k {
          var idx := ReachAllMember(n.nearestNodes, k - 1, m);
          var t := n.nearestNodes[idx];
          ReachWithin(t, k - 1);
          ChebyshevTriangle(m.x, m.y, t.x, t.y, n.x, n.y);
        }
      }
    }

    /**
     * Unlike the ring query, the recursive query can come back to its centre:
     * two links lead from a cell to a neighbour and back.
     */
    lemma ReachReturns(n: Node)
      requires Valid() && n in Cells && n.nearestNodes != []
      ensures n in Reach(n, 2)
    {
      var t := n.nearestNodes[0];
      NearestAreNeighbours(n);
      AdjacencySymmetric(n, t);
      ReachAllZero(t.nearestNodes);
      ReachAllContains(n.nearestNodes, 1, 0);
    }

    /**
     * The first open node, in list order, whose f-cost is minimal: a later node
     * replaces the current choice only when its f-cost is strictly smaller.
     */
    method GetNodeWithMinF() returns (minFNode: Node?)
      ensures minFNode == null <==> openNodes == []
      ensures minFNode != null ==>
                exists i :: 0 <= i < |openNodes| && openNodes[i] == minFNode &&
                            (forall k :: 0 <= k < i ==> openNodes[k].FCost() > minFNode.FCost()) &&
                            (forall k :: 0 <= k < |openNodes| ==> minFNode.FCost() <= openNodes[k].FCost())
    {
      minFNode := null;
      ghost var index := 0;
      var i := 0;
      while i < |openNodes|
        invariant 0 <= i <= |openNodes|
        invariant minFNode == null <==> i == 0
        invariant minFNode != null ==>
                    0 <= index < i && openNodes[index] == minFNode &&
                    (forall k :: 0 <= k < index ==> openNodes[k].FCost() > minFNode.FCost()) &&
                    (forall k :: 0 <= k < i ==> minFNode.FCost() <= openNodes[k].FCost())
      {
        var node := openNodes[i];
        if minFNode == null {
          minFNode, index := node, i;
        } else if node.FCost() < minFNode.FCost() {
          minFNode, index := node, i;
        }
        i := i + 1;
      }
    }

    /**
     * A* from startNode to endNode: repeatedly expands the open cell of least
     * f-cost, and on reaching endNode rebuilds the route from the parent links.
     * The scratch fields are not reset, so the start keeps whatever g-cost and
     * parent an earlier search left it.
     */
    method FindPath(startNode: Node, endNode: Node) returns (result: Option<seq<Node>>)
      requires Neighbourly() && startNode in Cells && endNode in Cells
      modifies this`openNodes, this`closedNodes, Cells`parentNode, Cells`gCost, Cells`hCost
      ensures result.Some? ==> IsWalk(result.value, startNode, endNode, Cells) && NoDups(result.value)
      ensures result.Some? ==> PathCost(result.value) == endNode.gCost - startNode.gCost
      ensures result.None? <==> forall p :: !IsWalk(p, startNode, endNode, Cells)
      ensures startNode == endNode ==> result == Some([startNode])
    {
      openNodes := [startNode];
      closedNodes := [];
      ExploredAtStart(startNode, endNode, Cells);
      while openNodes != []
        invariant Neighbourly() && Explored(openNodes, closedNodes, startNode, endNode, Cells)
        invariant |closedNodes| <= |Cells|
        invariant startNode == endNode ==> openNodes == [startNode]
        decreases |Cells| - |closedNodes|
      {
        var currentNode := GetNodeWithMinF();
        if currentNode == endNode {
          var path := Found(startNode, endNode);
          return Some(path);
        }
        ExpandNode(currentNode, startNode, endNode);
        NoDupsBounded(closedNodes, Cells);
      }
      NoWalk(closedNodes, startNode, endNode, Cells);
      return None;
    }

    /** The goal came off the open list: the route traced back from it walks the grid at its g-cost. */
    method Found(startNode: Node, endNode: Node) returns (path: seq<Node>)
      requires Explored(openNodes, closedNodes, startNode, endNode, Cells) && endNode in openNodes
      ensures IsWalk(path, startNode, endNode, Cells) && NoDups(path)
      ensures PathCost(path) == endNode.gCost - startNode.gCost
      ensures startNode == endNode ==> path == [startNode]
    {
      ReadyToTrace(openNodes, closedNodes, startNode, endNode, Cells);
      path := TracePath(startNode, endNode);
      TraceStepped(path, openNodes, closedNodes, startNode, endNode, Cells);
      ChainIsWalk(path, startNode, endNode, Cells);
      ChainCost(path, Cells);
    }

    /**
     * One round of the search: relaxes every neighbour of currentNode in list
     * order, then moves currentNode from the open to the closed list.
     */
    method ExpandNode(currentNode: Node, ghost startNode: Node, endNode: Node)
      requires Explored(openNodes, closedNodes, startNode, endNode, Cells)
      requires Neighbourly() && currentNode in openNodes && currentNode != endNode
      modifies this`openNodes, this`closedNodes, Cells`parentNode, Cells`gCost, Cells`hCost
      ensures Explored(openNodes, closedNodes, startNode, endNode, Cells)
      ensures closedNodes == old(closedNodes) + [currentNode]
      ensures openNodes == Remove(old(Extended(openNodes, currentNode.nearestNodes, closedNodes)), currentNode)
      ensures forall n :: n in openNodes <==>
                n != currentNode && (n in old(openNodes) || (n in currentNode.nearestNodes && n.walkable && n !in old(closedNodes)))
    {
      StartRelax(openNodes, closedNodes, currentNode, startNode, endNode, Cells);
      assert currentNode in Cells;
      ghost var open0 := openNodes;
      RelaxAll(currentNode, startNode, endNode);
      ExpandFinish(openNodes, open0, closedNodes, currentNode, startNode, endNode, Cells);
      openNodes := Remove(openNodes, currentNode);
      closedNodes := closedNodes + [currentNode];
    }

    /** The loop over the neighbours of currentNode, in list order. */
    method RelaxAll(currentNode: Node, ghost startNode: Node, endNode: Node)
      requires Relaxing(openNodes, closedNodes, currentNode, 0, startNode, endNode, Cells)
      requires forall m :: m in currentNode.nearestNodes ==> m in Cells && Chebyshev(m.x, m.y, currentNode.x, currentNode.y) == 1
      modifies this`openNodes, Cells`parentNode, Cells`gCost, Cells`hCost
      ensures Relaxing(openNodes, closedNodes, currentNode, |currentNode.nearestNodes|, startNode, endNode, Cells)
      ensures Opened(openNodes, old(openNodes), currentNode.nearestNodes, closedNodes)
      ensures openNodes == old(Extended(openNodes, currentNode.nearestNodes, closedNodes))
    {
      ghost var open0, nbrs := openNodes, currentNode.nearestNodes;
      var i := 0;
      while i < |currentNode.nearestNodes|
        invariant Relaxing(openNodes, closedNodes, currentNode, i, startNode, endNode, Cells)
        invariant currentNode.nearestNodes == nbrs
        invariant Opened(openNodes, open0, nbrs[..i], closedNodes)
      {
        RelaxNext(currentNode, i, open0, startNode, endNode);
        i := i + 1;
      }
      assert nbrs[..i] == nbrs;
    }

    /** The loop body of RelaxAll: relaxes neighbour i and keeps the open list extended in order. */
    method RelaxNext(currentNode: Node, i: int, ghost open0: seq<Node>, ghost startNode: Node, endNode: Node)
      requires Relaxing(openNodes, closedNodes, currentNode, i, startNode, endNode, Cells)
      requires 0 <= i < |currentNode.nearestNodes| && Opened(openNodes, open0, currentNode.nearestNodes[..i], closedNodes)
      requires forall m :: m in currentNode.nearestNodes ==> m in Cells && Chebyshev(m.x, m.y, currentNode.x, currentNode.y) == 1
      modifies this`openNodes, Cells`parentNode, Cells`gCost, Cells`hCost
      ensures Relaxing(openNodes, closedNodes, currentNode, i + 1, startNode, endNode, Cells)
      ensures Opened(openNodes, open0, currentNode.nearestNodes[..i + 1], closedNodes)
    {
      var node := currentNode.nearestNodes[i];
      ghost var open1 := openNodes + if node.walkable && node !in closedNodes && node !in openNodes then [node] else [];
      OpenedSnoc(openNodes, open1, open0, currentNode.nearestNodes, i, closedNodes);
      RelaxNeighbour(currentNode, node, i, startNode, endNode);
    }

    /**
     * The loop body over one neighbour: a walkable, unclosed neighbour that is
     * not yet open, or is reached more cheaply through currentNode, gets
     * currentNode as parent, the new g-cost and its heuristic, and is opened.
     */
    method RelaxNeighbour(currentNode: Node, node: Node, ghost i: int, ghost startNode: Node, endNode: Node)
      requires Relaxing(openNodes, closedNodes, currentNode, i, startNode, endNode, Cells)
      requires i < |currentNode.nearestNodes| && node == currentNode.nearestNodes[i]
      requires node in Cells && node != currentNode
      modifies this`openNodes, node`parentNode, node`gCost, node`hCost
      ensures Relaxing(openNodes, closedNodes, currentNode, i + 1, startNode, endNode, Cells)
      ensures var tmpGCost := currentNode.gCost + StepCost(currentNode.x, currentNode.y, node.x, node.y);
              if node.walkable && node !in closedNodes && (old(node.gCost) > tmpGCost || node !in old(openNodes)) then
                node.parentNode == currentNode && node.gCost == tmpGCost &&
                node.hCost == CountHCost(node.x, node.y, endNode.x, endNode.y)
              else
                unchanged(node)
      ensures openNodes == old(openNodes) + if node.walkable && node !in closedNodes && node !in old(openNodes) then [node] else []
    {
      if !node.walkable || node in closedNodes {
        RelaxSkip(openNodes, closedNodes, currentNode, i, startNode, endNode, Cells);
        return;
      }
      var nearGCost := if Abs(currentNode.x - node.x) + Abs(currentNode.y - node.y) == 1 then 10 else 14;
      var tmpGCost := currentNode.gCost + nearGCost;
      if node.gCost > tmpGCost || node !in openNodes {
        Improve(currentNode, node, tmpGCost, i, startNode, endNode);
      } else {
        RelaxSkip(openNodes, closedNodes, currentNode, i, startNode, endNode, Cells);
      }
    }

    /** The update of a neighbour reached more cheaply, or for the first time, through currentNode. */
    method Improve(currentNode: Node, node: Node, tmpGCost: int, ghost i: int, ghost startNode: Node, endNode: Node)
      requires Relaxing(openNodes, closedNodes, currentNode, i, startNode, endNode, Cells)
      requires i < |currentNode.nearestNodes| && node == currentNode.nearestNodes[i]
      requires node in Cells && node != currentNode && node.walkable && node !in closedNodes
      requires tmpGCost == currentNode.gCost + StepCost(currentNode.x, currentNode.y, node.x, node.y)
      modifies this`openNodes, node`parentNode, node`gCost, node`hCost
      ensures Relaxing(openNodes, closedNodes, currentNode, i + 1, startNode, endNode, Cells)
      ensures node.parentNode == currentNode && node.gCost == tmpGCost
      ensures node.hCost == CountHCost(node.x, node.y, endNode.x, endNode.y)
      ensures openNodes == old(openNodes) + (if node in old(openNodes) then [] else [node])
    {
      RelaxFrame(openNodes, closedNodes, currentNode, i, startNode, endNode, Cells);
      ghost var open0 := openNodes;
      node.parentNode := currentNode;
      node.gCost := tmpGCost;
      node.hCost := CountHCost(node.x, node.y, endNode.x, endNode.y);
      if node !in openNodes {
        openNodes := openNodes + [node];
      }
      // Only node changed, and no other tracked cell leans on it.
      forall k | 0 < k < |closedNodes| ensures ChainLink(closedNodes, k, endNode, Cells) {
        assert old(ChainLink(closedNodes, k, endNode, Cells));
      }
      assert Expanding(open0, closedNodes, currentNode, startNode, endNode, Cells);
      forall n | n in open0 && n != startNode && n != currentNode && n != node
        ensures Parented(n, closedNodes + [currentNode], endNode, Cells)
      {
        assert old(Parented(n, closedNodes + [currentNode], endNode, Cells));
      }
      RelaxUpdate(open0, openNodes, closedNodes, currentNode, i, startNode, endNode, Cells);
    }

    /**
     * Follows parent links from endNode back to startNode, then reverses: the
     * route from startNode to endNode. The closed list, whose entries each have
     * an earlier entry as parent, is what makes the walk back reach startNode.
     */
    method TracePath(startNode: Node, endNode: Node) returns (path: seq<Node>)
      requires NoDups(closedNodes) && (closedNodes != [] ==> closedNodes[0] == startNode)
      requires forall i :: 0 < i < |closedNodes| ==> EarlierParent(closedNodes, i)
      requires endNode == startNode || endNode in closedNodes || endNode.parentNode in closedNodes
      ensures |path| >= 1 && path[0] == startNode && path[|path| - 1] == endNode
      ensures forall k :: 0 < k < |path| ==> ParentStep(path, k)
      ensures forall k :: 0 < k < |path| ==> path[k] == endNode || path[k] in closedNodes
      ensures NoDups(path)
      ensures startNode == endNode ==> path == [startNode]
    {
      var trail: seq<Node> := [];
      var node := endNode;
      // r is node's position in the closed list, |closedNodes| while node is endNode outside it.
      ghost var r := if endNode in closedNodes then IndexOf(closedNodes, endNode) else |closedNodes|;
      ghost var ranks: seq<int> := [];
      while node != startNode
        invariant 0 <= r <= |closedNodes|
        invariant r < |closedNodes| ==> closedNodes[r] == node
        invariant r == |closedNodes| ==> node == endNode && endNode !in closedNodes
        invariant r == |closedNodes| && node != startNode ==> endNode.parentNode in closedNodes
        invariant trail == [] ==> node == endNode
        invariant trail != [] ==> trail[0] == endNode && trail[|trail| - 1].parentNode == node && endNode != startNode
        invariant forall k :: 0 < k < |trail| ==> TrailStep(trail, k)
        invariant Ranked(trail, ranks, closedNodes, r, endNode)
        decreases r
      {
        var parent := node.parentNode;
        ghost var j := ParentRank(closedNodes, r, node, startNode);
        TrailSnoc(trail, node);
        RankedSnoc(trail, ranks, closedNodes, r, endNode, node, j);
        trail := trail + [node];
        ranks := ranks + [r];
        node, r := parent, j;
      }
      TraceFinish(trail, ranks, closedNodes, r, startNode, endNode);
      path := Reversed(trail + [startNode]);
    }

    /** Links two cells both ways. */
    method LinkNodes(nodeA: Node, nodeB: Node)
      modifies nodeA`nearestNodes, nodeB`nearestNodes
      ensures nodeA != nodeB ==> nodeA.nearestNodes == old(nodeA.nearestNodes) + [nodeB] &&
                                 nodeB.nearestNodes == old(nodeB.nearestNodes) + [nodeA]
      ensures nodeA == nodeB ==> nodeA.nearestNodes == old(nodeA.nearestNodes) + [nodeA, nodeA]
    {
      nodeA.nearestNodes := nodeA.nearestNodes + [nodeB];
      nodeB.nearestNodes := nodeB.nearestNodes + [nodeA];
    }
  }
}
