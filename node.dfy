/** One grid cell, as in Node.cs: fixed coordinates and world position, its adjacency list and the A* scratch fields. */
module Nodes {

  /** A world-space point; Unity's float vector, with reals for floats. */
  datatype Vector3 = Vector3(x: real, y: real, z: real)

  class Node {
    // Coordinates and position are set once by the constructor and never reassigned.
    const x: int
    const y: int
    const position: Vector3

    var nearestNodes: seq<Node>
    var hCost: int
    var gCost: int
    var walkable: bool
    var parentNode: Node?

    /** The A* priority, derived from the two cost fields. */
    function FCost(): (r: int)
      reads this`hCost, this`gCost
    {
      hCost + gCost
    }

    constructor (x: int, y: int, position: Vector3)
      ensures this.x == x && this.y == y && this.position == position
      ensures nearestNodes == []
      ensures !walkable && gCost == 0 && hCost == 0 && parentNode == null
      ensures FCost() == 0
    {
      // C# gives the remaining fields their defaults: false, 0 and null.
      walkable, gCost, hCost, parentNode := false, 0, 0, null;
      nearestNodes := [];
      this.x := x;
      this.y := y;
      this.position := position;
    }
  }

  /** The grid coordinates of a list of nodes. */
  function Coords(s: seq<Node>): (c: seq<(int, int)>)
    ensures |c| == |s|
    ensures forall k :: 0 <= k < |s| ==> c[k] == (s[k].x, s[k].y)
  {
    if s == [] then [] else [(s[0].x, s[0].y)] + Coords(s[1..])
  }

  lemma CoordsSnoc(s: seq<Node>, n: Node)
    ensures Coords(s + [n]) == Coords(s) + [(n.x, n.y)]
  {
  }

  lemma CoordsAppend(s: seq<Node>, t: seq<Node>)
    ensures Coords(s + t) == Coords(s) + Coords(t)
  {
  }
}
