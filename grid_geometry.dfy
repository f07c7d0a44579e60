/**
 * Integer geometry of the navigation grid (NodesGrid.cs): bounds, Chebyshev
 * distance, the A* step cost and heuristic, and the order in which grid
 * generation links a cell to its eight neighbours.
 */
module GridGeometry {
  import opened Collections

  function Abs(n: int): (r: nat) {
    if n < 0 then -n else n
  }

  function Chebyshev(x1: int, y1: int, x2: int, y2: int): (r: nat) {
    if Abs(x1 - x2) >= Abs(y1 - y2) then Abs(x1 - x2) else Abs(y1 - y2)
  }

  predicate InBounds(x: int, y: int, w: int, h: int) {
    0 <= x < w && 0 <= y < h
  }

  /** Cell (x, y) is visited before (cx, cy) by an x-outer, y-inner scan. */
  predicate Before(x: int, y: int, cx: int, cy: int) {
    x < cx || (x == cx && y < cy)
  }

  /**
   * Offset (dx, dy) is visited before offset (ex, ey) by the ring-by-ring scan:
   * nearer Chebyshev rings first, and within a ring in x-outer, y-inner order.
   */
  predicate RingBefore(dx: int, dy: int, ex: int, ey: int) {
    var d, e := Chebyshev(dx, dy, 0, 0), Chebyshev(ex, ey, 0, 0);
    d < e || (d == e && Before(dx, dy, ex, ey))
  }

  /** The ring scan, standing at offset (x, y) of ring r, has already visited offset (dx, dy). */
  predicate RangeScanned(dx: int, dy: int, r: int, x: int, y: int) {
    var d := Chebyshev(dx, dy, 0, 0);
    1 <= d && (d < r || (d == r && Before(dx, dy, x, y)))
  }

  lemma ChebyshevTriangle(x1: int, y1: int, x2: int, y2: int, x3: int, y3: int)
    ensures Chebyshev(x1, y1, x3, y3) <= Chebyshev(x1, y1, x2, y2) + Chebyshev(x2, y2, x3, y3)
  {
  }

  /** Cost of one move between neighbouring cells. */
  function StepCost(x1: int, y1: int, x2: int, y2: int): (r: int) {
    if Abs(x1 - x2) + Abs(y1 - y2) == 1 then 10 else 14
  }

  /** Between 8-neighbours, a move costs 10 when it is orthogonal and 14 when it is diagonal. */
  lemma StepCostOfNeighbours(x1: int, y1: int, x2: int, y2: int)
    requires Chebyshev(x1, y1, x2, y2) == 1
    ensures StepCost(x1, y1, x2, y2) == 10 <==> (x1 == x2 || y1 == y2)
    ensures StepCost(x1, y1, x2, y2) == 14 <==> (Abs(x1 - x2) == 1 && Abs(y1 - y2) == 1)
    ensures StepCost(x1, y1, x2, y2) == StepCost(x2, y2, x1, y1)
  {
  }

  /** The A* heuristic: ten times the Manhattan distance between the two cells. */
  function CountHCost(x1: int, y1: int, x2: int, y2: int): (r: nat)
    ensures r == 0 <==> (x1 == x2 && y1 == y2)
    ensures 10 * Chebyshev(x1, y1, x2, y2) <= r <= 20 * Chebyshev(x1, y1, x2, y2)
  {
    (Abs(x2 - x1) + Abs(y2 - y1)) * 10
  }

  /**
   * The heuristic can overestimate: one diagonal step costs 14 while the
   * heuristic at its start is 20, so A* with it is not guaranteed to find a
   * cheapest path.
   */
  lemma HeuristicOverestimatesDiagonal(x: int, y: int)
    ensures StepCost(x, y, x + 1, y + 1) == 14
    ensures CountHCost(x, y, x + 1, y + 1) == 20
  {
  }

  function CellIf(a: int, b: int, keep: bool): (r: seq<(int, int)>) {
    if keep then [(a, b)] else []
  }

  /**
   * The coordinates of the neighbours of (x, y) in the order in which grid
   * generation appends them to the cell's list: first the four neighbours that
   * precede the cell in the scan (linked when the cell itself is created),
   * then the four that follow it (linked when each of them is created).
   */
  function LinkOrder(x: int, y: int, w: int, h: int): (r: seq<(int, int)>) {
    PrecedingLinks(x, y, w, h) + FollowingLinks(x, y, w, h)
  }

  function PrecedingLinks(x: int, y: int, w: int, h: int): (r: seq<(int, int)>) {
    CellIf(x - 1, y, InBounds(x - 1, y, w, h)) +
    CellIf(x, y - 1, InBounds(x, y - 1, w, h)) +
    CellIf(x - 1, y - 1, InBounds(x - 1, y - 1, w, h)) +
    CellIf(x - 1, y + 1, InBounds(x - 1, y + 1, w, h))
  }

  function FollowingLinks(x: int, y: int, w: int, h: int): (r: seq<(int, int)>) {
    CellIf(x, y + 1, InBounds(x, y + 1, w, h)) +
    CellIf(x + 1, y - 1, InBounds(x + 1, y - 1, w, h)) +
    CellIf(x + 1, y, InBounds(x + 1, y, w, h)) +
    CellIf(x + 1, y + 1, InBounds(x + 1, y + 1, w, h))
  }

  /** Whether, when the scan is about to create (cx, cy), cell (x, y) is already linked to (a, b). */
  predicate Linked(x: int, y: int, a: int, b: int, w: int, h: int, cx: int, cy: int) {
    Before(x, y, cx, cy) && InBounds(a, b, w, h) && Before(a, b, cx, cy)
  }

  /** The links of (x, y) already made when the scan is about to create (cx, cy), in LinkOrder's order. */
  function LinkedBefore(x: int, y: int, w: int, h: int, cx: int, cy: int): (r: seq<(int, int)>) {
    CellIf(x - 1, y, Linked(x, y, x - 1, y, w, h, cx, cy)) +
    CellIf(x, y - 1, Linked(x, y, x, y - 1, w, h, cx, cy)) +
    CellIf(x - 1, y - 1, Linked(x, y, x - 1, y - 1, w, h, cx, cy)) +
    CellIf(x - 1, y + 1, Linked(x, y, x - 1, y + 1, w, h, cx, cy)) +
    CellIf(x, y + 1, Linked(x, y, x, y + 1, w, h, cx, cy)) +
    CellIf(x + 1, y - 1, Linked(x, y, x + 1, y - 1, w, h, cx, cy)) +
    CellIf(x + 1, y, Linked(x, y, x + 1, y, w, h, cx, cy)) +
    CellIf(x + 1, y + 1, Linked(x, y, x + 1, y + 1, w, h, cx, cy))
  }

  /** The links a new cell makes itself, to its in-bounds neighbours that precede it. */
  function EarlierNeighbours(x: int, y: int, w: int, h: int): (r: seq<(int, int)>) {
    CellIf(x - 1, y, x > 0) +
    CellIf(x, y - 1, y > 0) +
    CellIf(x - 1, y - 1, x > 0 && y > 0) +
    CellIf(x - 1, y + 1, x > 0 && y < h - 1)
  }

  /** The neighbours of (x, y) that a column-major scan visits before it are the four on its left and below it. */
  lemma EarlierAdjacent(i: int, j: int, x: int, y: int)
    requires Before(i, j, x, y)
    ensures Chebyshev(i, j, x, y) == 1 <==>
              (i, j) == (x - 1, y) || (i, j) == (x, y - 1) || (i, j) == (x - 1, y - 1) || (i, j) == (x - 1, y + 1)
  {
  }

  /** Creating cell (x, y) gives it its earlier neighbours and appends it to each of theirs. */
  lemma LinkedStep(i: int, j: int, w: int, h: int, x: int, y: int)
    requires InBounds(x, y, w, h) && InBounds(i, j, w, h)
    ensures (i, j) == (x, y) ==> LinkedBefore(i, j, w, h, x, y) == [] &&
                                 LinkedBefore(i, j, w, h, x, y + 1) == EarlierNeighbours(x, y, w, h)
    ensures Before(i, j, x, y) ==>
      LinkedBefore(i, j, w, h, x, y + 1) ==
      LinkedBefore(i, j, w, h, x, y) + CellIf(x, y, Chebyshev(i, j, x, y) == 1)
  {
    if (i, j) == (x, y) {
      LinkedOwnStep(x, y, w, h);
    } else if Before(i, j, x, y) {
      if i == x - 1 && j == y {
        LinkedStepAt6(i, j, w, h, x, y);
      } else if i == x && j == y - 1 {
        LinkedStepAt4(i, j, w, h, x, y);
      } else if i == x - 1 && j == y - 1 {
        LinkedStepAt7(i, j, w, h, x, y);
      } else if i == x - 1 && j == y + 1 {
        LinkedStepAt5(i, j, w, h, x, y);
      } else {
        LinkedStepNone(i, j, w, h, x, y);
      }
    }
  }

  lemma LinkedOwnStep(x: int, y: int, w: int, h: int)
    requires InBounds(x, y, w, h)
    ensures LinkedBefore(x, y, w, h, x, y) == []
    ensures LinkedBefore(x, y, w, h, x, y + 1) == EarlierNeighbours(x, y, w, h)
  {
    assert !Linked(x, y, x, y + 1, w, h, x, y + 1);
    assert !Linked(x, y, x + 1, y - 1, w, h, x, y + 1);
    assert !Linked(x, y, x + 1, y, w, h, x, y + 1);
    assert !Linked(x, y, x + 1, y + 1, w, h, x, y + 1);
  }

  // The cell created is the fifth, sixth, seventh or eighth entry of LinkOrder(i, j).
  lemma LinkedStepAt4(i: int, j: int, w: int, h: int, x: int, y: int)
    requires InBounds(x, y, w, h) && InBounds(i, j, w, h) && i == x && j == y - 1
    ensures LinkedBefore(i, j, w, h, x, y + 1) == LinkedBefore(i, j, w, h, x, y) + [(x, y)]
  {
    var pre := LinkedBefore(i, j, w, h, x, y);
    assert !Linked(i, j, i + 1, j - 1, w, h, x, y + 1) && !Linked(i, j, i + 1, j, w, h, x, y + 1) && !Linked(i, j, i + 1, j + 1, w, h, x, y + 1);
    assert pre == CellIf(i - 1, j, InBounds(i - 1, j, w, h)) + CellIf(i, j - 1, InBounds(i, j - 1, w, h)) +
                  CellIf(i - 1, j - 1, InBounds(i - 1, j - 1, w, h)) + CellIf(i - 1, j + 1, InBounds(i - 1, j + 1, w, h));
  }

  lemma LinkedStepAt5(i: int, j: int, w: int, h: int, x: int, y: int)
    requires InBounds(x, y, w, h) && InBounds(i, j, w, h) && i == x - 1 && j == y + 1
    ensures LinkedBefore(i, j, w, h, x, y + 1) == LinkedBefore(i, j, w, h, x, y) + [(x, y)]
  {
    var pre := LinkedBefore(i, j, w, h, x, y);
    assert !Linked(i, j, i + 1, j, w, h, x, y + 1) && !Linked(i, j, i + 1, j + 1, w, h, x, y + 1);
    assert pre == CellIf(i - 1, j, InBounds(i - 1, j, w, h)) + CellIf(i, j - 1, InBounds(i, j - 1, w, h)) +
                  CellIf(i - 1, j - 1, InBounds(i - 1, j - 1, w, h)) + CellIf(i - 1, j + 1, InBounds(i - 1, j + 1, w, h)) +
                  CellIf(i, j + 1, InBounds(i, j + 1, w, h));
  }

  lemma LinkedStepAt6(i: int, j: int, w: int, h: int, x: int, y: int)
    requires InBounds(x, y, w, h) && InBounds(i, j, w, h) && i == x - 1 && j == y
    ensures LinkedBefore(i, j, w, h, x, y + 1) == LinkedBefore(i, j, w, h, x, y) + [(x, y)]
  {
    var pre := LinkedBefore(i, j, w, h, x, y);
    assert !Linked(i, j, i + 1, j + 1, w, h, x, y + 1);
    assert pre == CellIf(i - 1, j, InBounds(i - 1, j, w, h)) + CellIf(i, j - 1, InBounds(i, j - 1, w, h)) +
                  CellIf(i - 1, j - 1, InBounds(i - 1, j - 1, w, h)) + CellIf(i - 1, j + 1, InBounds(i - 1, j + 1, w, h)) +
                  CellIf(i, j + 1, InBounds(i, j + 1, w, h)) + CellIf(i + 1, j - 1, InBounds(i + 1, j - 1, w, h));
  }

  lemma LinkedStepAt7(i: int, j: int, w: int, h: int, x: int, y: int)
    requires InBounds(x, y, w, h) && InBounds(i, j, w, h) && i == x - 1 && j == y - 1
    ensures LinkedBefore(i, j, w, h, x, y + 1) == LinkedBefore(i, j, w, h, x, y) + [(x, y)]
  {
  }

  lemma LinkedStepNone(i: int, j: int, w: int, h: int, x: int, y: int)
    requires InBounds(x, y, w, h) && InBounds(i, j, w, h) && Before(i, j, x, y)
    requires !(i == x - 1 && j == y) && !(i == x && j == y - 1) && !(i == x - 1 && j == y - 1) && !(i == x - 1 && j == y + 1)
    ensures Chebyshev(i, j, x, y) != 1
    ensures LinkedBefore(i, j, w, h, x, y + 1) == LinkedBefore(i, j, w, h, x, y)
  {
    assert Linked(i, j, i - 1, j, w, h, x, y + 1) == Linked(i, j, i - 1, j, w, h, x, y);
    assert Linked(i, j, i, j - 1, w, h, x, y + 1) == Linked(i, j, i, j - 1, w, h, x, y);
    assert Linked(i, j, i - 1, j - 1, w, h, x, y + 1) == Linked(i, j, i - 1, j - 1, w, h, x, y);
    assert Linked(i, j, i - 1, j + 1, w, h, x, y + 1) == Linked(i, j, i - 1, j + 1, w, h, x, y);
    assert Linked(i, j, i, j + 1, w, h, x, y + 1) == Linked(i, j, i, j + 1, w, h, x, y);
    assert Linked(i, j, i + 1, j - 1, w, h, x, y + 1) == Linked(i, j, i + 1, j - 1, w, h, x, y);
    assert Linked(i, j, i + 1, j, w, h, x, y + 1) == Linked(i, j, i + 1, j, w, h, x, y);
    assert Linked(i, j, i + 1, j + 1, w, h, x, y + 1) == Linked(i, j, i + 1, j + 1, w, h, x, y);
  }

  /** Finishing a column is the same as starting the next one. */
  lemma LinkedColumnEnd(i: int, j: int, w: int, h: int, x: int)
    requires InBounds(i, j, w, h)
    ensures LinkedBefore(i, j, w, h, x, h) == LinkedBefore(i, j, w, h, x + 1, 0)
    ensures Before(i, j, x, h) == Before(i, j, x + 1, 0)
  {
  }

  /** Once the scan has passed every cell, each cell is linked to exactly LinkOrder. */
  lemma LinkedAtEnd(i: int, j: int, w: int, h: int)
    requires InBounds(i, j, w, h)
    ensures LinkedBefore(i, j, w, h, w, 0) == LinkOrder(i, j, w, h)
  {
    Regroup8(CellIf(i - 1, j, InBounds(i - 1, j, w, h)), CellIf(i, j - 1, InBounds(i, j - 1, w, h)),
             CellIf(i - 1, j - 1, InBounds(i - 1, j - 1, w, h)), CellIf(i - 1, j + 1, InBounds(i - 1, j + 1, w, h)),
             CellIf(i, j + 1, InBounds(i, j + 1, w, h)), CellIf(i + 1, j - 1, InBounds(i + 1, j - 1, w, h)),
             CellIf(i + 1, j, InBounds(i + 1, j, w, h)), CellIf(i + 1, j + 1, InBounds(i + 1, j + 1, w, h)));
  }

  lemma Regroup8<T>(c1: seq<T>, c2: seq<T>, c3: seq<T>, c4: seq<T>, c5: seq<T>, c6: seq<T>, c7: seq<T>, c8: seq<T>)
    ensures c1 + c2 + c3 + c4 + c5 + c6 + c7 + c8 == (c1 + c2 + c3 + c4) + (c5 + c6 + c7 + c8)
  {
    var front := c1 + c2 + c3 + c4;
    assert front + c5 + c6 + c7 + c8 == front + (c5 + c6 + c7 + c8);
  }

  /**
   * LinkOrder lists exactly the in-bounds cells at Chebyshev distance 1, each
   * once; so the adjacency it describes is symmetric.
   */
  lemma LinkOrderIsNeighbourhood(x: int, y: int, w: int, h: int)
    ensures forall p: (int, int) :: p in LinkOrder(x, y, w, h) <==> InBounds(p.0, p.1, w, h) && Chebyshev(p.0, p.1, x, y) == 1
    ensures NoDups(LinkOrder(x, y, w, h))
    ensures |LinkOrder(x, y, w, h)| <= 8
  {
    forall p: (int, int) ensures p in LinkOrder(x, y, w, h) <==> InBounds(p.0, p.1, w, h) && Chebyshev(p.0, p.1, x, y) == 1 {
      LinkOrderMember(x, y, w, h, p.0, p.1);
    }
    LinkOrderNoDups(x, y, w, h);
  }

  lemma LinkOrderMember(x: int, y: int, w: int, h: int, a: int, b: int)
    ensures (a, b) in LinkOrder(x, y, w, h) <==> InBounds(a, b, w, h) && Chebyshev(a, b, x, y) == 1
  {
    var p := (a, b);
    var s1 := CellIf(x - 1, y, InBounds(x - 1, y, w, h));
    var s2 := s1 + CellIf(x, y - 1, InBounds(x, y - 1, w, h));
    var s3 := s2 + CellIf(x - 1, y - 1, InBounds(x - 1, y - 1, w, h));
    var s4 := s3 + CellIf(x - 1, y + 1, InBounds(x - 1, y + 1, w, h));
    var s5 := s4 + CellIf(x, y + 1, InBounds(x, y + 1, w, h));
    var s6 := s5 + CellIf(x + 1, y - 1, InBounds(x + 1, y - 1, w, h));
    var s7 := s6 + CellIf(x + 1, y, InBounds(x + 1, y, w, h));
    var s8 := s7 + CellIf(x + 1, y + 1, InBounds(x + 1, y + 1, w, h));
    Regroup8(CellIf(x - 1, y, InBounds(x - 1, y, w, h)), CellIf(x, y - 1, InBounds(x, y - 1, w, h)),
             CellIf(x - 1, y - 1, InBounds(x - 1, y - 1, w, h)), CellIf(x - 1, y + 1, InBounds(x - 1, y + 1, w, h)),
             CellIf(x, y + 1, InBounds(x, y + 1, w, h)), CellIf(x + 1, y - 1, InBounds(x + 1, y - 1, w, h)),
             CellIf(x + 1, y, InBounds(x + 1, y, w, h)), CellIf(x + 1, y + 1, InBounds(x + 1, y + 1, w, h)));
    assert s8 == LinkOrder(x, y, w, h);
    InAppendCell([], x - 1, y, InBounds(x - 1, y, w, h), p);
    InAppendCell(s1, x, y - 1, InBounds(x, y - 1, w, h), p);
    InAppendCell(s2, x - 1, y - 1, InBounds(x - 1, y - 1, w, h), p);
    InAppendCell(s3, x - 1, y + 1, InBounds(x - 1, y + 1, w, h), p);
    InAppendCell(s4, x, y + 1, InBounds(x, y + 1, w, h), p);
    InAppendCell(s5, x + 1, y - 1, InBounds(x + 1, y - 1, w, h), p);
    InAppendCell(s6, x + 1, y, InBounds(x + 1, y, w, h), p);
    InAppendCell(s7, x + 1, y + 1, InBounds(x + 1, y + 1, w, h), p);
    assert p in s8 <==> InBounds(a, b, w, h) && -1 <= a - x <= 1 && -1 <= b - y <= 1 && (a, b) != (x, y);
  }

  lemma InAppendCell(s: seq<(int, int)>, a: int, b: int, keep: bool, p: (int, int))
    ensures p in s + CellIf(a, b, keep) <==> p in s || (keep && p == (a, b))
  {
  }

  lemma LinkOrderNoDups(x: int, y: int, w: int, h: int)
    ensures NoDups(LinkOrder(x, y, w, h))
    ensures |LinkOrder(x, y, w, h)| <= 8
  {
    PrecedingLinksNoDups(x, y, w, h);
    FollowingLinksNoDups(x, y, w, h);
    NoDupsConcat(PrecedingLinks(x, y, w, h), FollowingLinks(x, y, w, h));
  }

  lemma PrecedingLinksNoDups(x: int, y: int, w: int, h: int)
    ensures NoDups(PrecedingLinks(x, y, w, h)) && |PrecedingLinks(x, y, w, h)| <= 4
    ensures forall p :: p in PrecedingLinks(x, y, w, h) ==> Before(p.0, p.1, x, y)
  {
    FourCellsNoDups(x - 1, y, InBounds(x - 1, y, w, h), x, y - 1, InBounds(x, y - 1, w, h),
                    x - 1, y - 1, InBounds(x - 1, y - 1, w, h), x - 1, y + 1, InBounds(x - 1, y + 1, w, h));
  }

  lemma FollowingLinksNoDups(x: int, y: int, w: int, h: int)
    ensures NoDups(FollowingLinks(x, y, w, h)) && |FollowingLinks(x, y, w, h)| <= 4
    ensures forall p :: p in FollowingLinks(x, y, w, h) ==> !Before(p.0, p.1, x, y)
  {
    FourCellsNoDups(x, y + 1, InBounds(x, y + 1, w, h), x + 1, y - 1, InBounds(x + 1, y - 1, w, h),
                    x + 1, y, InBounds(x + 1, y, w, h), x + 1, y + 1, InBounds(x + 1, y + 1, w, h));
  }

  lemma FourCellsNoDups(a0: int, b0: int, k0: bool, a1: int, b1: int, k1: bool,
                        a2: int, b2: int, k2: bool, a3: int, b3: int, k3: bool)
    requires (a0, b0) != (a1, b1) && (a0, b0) != (a2, b2) && (a0, b0) != (a3, b3)
    requires (a1, b1) != (a2, b2) && (a1, b1) != (a3, b3) && (a2, b2) != (a3, b3)
    ensures NoDups(CellIf(a0, b0, k0) + CellIf(a1, b1, k1) + CellIf(a2, b2, k2) + CellIf(a3, b3, k3))
    ensures |CellIf(a0, b0, k0) + CellIf(a1, b1, k1) + CellIf(a2, b2, k2) + CellIf(a3, b3, k3)| <= 4
  {
    var s1 := CellIf(a0, b0, k0);
    var s2 := s1 + CellIf(a1, b1, k1);
    var s3 := s2 + CellIf(a2, b2, k2);
    InAppendCellAll([], a0, b0, k0);
    InAppendCellAll(s1, a1, b1, k1);
    InAppendCellAll(s2, a2, b2, k2);
    NoDupsAppendCell([], a0, b0, k0);
    NoDupsAppendCell(s1, a1, b1, k1);
    NoDupsAppendCell(s2, a2, b2, k2);
    NoDupsAppendCell(s3, a3, b3, k3);
  }

  lemma InAppendCellAll(s: seq<(int, int)>, a: int, b: int, keep: bool)
    ensures forall p :: p in s + CellIf(a, b, keep) ==> p in s || p == (a, b)
  {
  }

  lemma NoDupsAppendCell(s: seq<(int, int)>, a: int, b: int, keep: bool)
    requires NoDups(s) && (keep ==> (a, b) !in s)
    ensures NoDups(s + CellIf(a, b, keep))
  {
    if keep {
      NoDupsSnoc(s, (a, b));
    }
  }
}
