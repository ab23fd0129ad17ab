/** TotalSafeSquares of ConsoleApp1/Program.cs: a breadth-first flood fill
    from the origin over the square [-limit, limit]², consulting the safety
    index, and the count of cells it marks visited. */
module ReachabilitySearch {
  import opened Coords
  import opened Bounds
  import opened Safety
  import opened Walks
  import opened SafetyIndex

  /** Cells of the square reachable from the origin by safe walks inside it. */
  ghost function ReachSet(limit: nat): set<Coord> {
    set c | c in Box(limit) && Reachable(Square(limit), Origin, c)
  }

  /** All neighbours of the cells of `s`. */
  ghost function Halo(s: set<Coord>): set<Coord> {
    set c, n | c in s && n in Neighbours(c) :: n
  }

  /** What the flood fill marks visited: the reachable cells together with every
      in-bounds neighbour of them, safe or not. */
  ghost function Explored(limit: nat): set<Coord> {
    ReachSet(limit) + (Halo(ReachSet(limit)) * Box(limit))
  }

  /** Every in-bounds neighbour of a cell of `s` is in `v`. */
  ghost predicate ClosedInBox(limit: nat, s: set<Coord>, v: set<Coord>) {
    forall c, n :: c in s && n in Neighbours(c) && InRegion(Square(limit), n) ==> n in v
  }

  /** `reach` holds the origin, lies in the square and is closed under safe
      moves inside it. `ReachSet` is such a set; the searches only rely on
      these three facts about it. */
  ghost predicate SafeClosed(limit: nat, reach: set<Coord>) {
    && Origin in reach
    && (forall c :: c in reach ==> InRegion(Square(limit), c))
    && ClosedUnder(Square(limit), reach, reach)
  }

  lemma ReachSetClosed(limit: nat)
    ensures SafeClosed(limit, ReachSet(limit))
  {
    AxesAreSafe(0, 0);
    JoinsSelf(Square(limit), Origin);
    InBox(Origin, limit);
    assert Origin in ReachSet(limit);
    forall c, n | c in ReachSet(limit) && n in Neighbours(c) && InRegion(Square(limit), n) && Safe(n)
      ensures n in ReachSet(limit)
    {
      InBox(c, limit);
      InBox(n, limit);
      ReachableStep(Square(limit), Origin, c, n);
    }
  }

  /** A set that is closed under safe moves and lies inside `ReachSet`
      is `ReachSet`. */
  lemma ClosedIsReachSet(limit: nat, s: set<Coord>)
    requires Origin in s && s <= ReachSet(limit) && ClosedUnder(Square(limit), s, s)
    ensures s == ReachSet(limit)
  {
    forall c | c in ReachSet(limit)
      ensures c in s
    {
      ClosedSetContainsReachable(Square(limit), s, Origin, c);
    }
  }

  /** The bookkeeping of the as-written flood fill between two dequeues:
      `expanded` holds the cells already dequeued, all inside `reach`. */
  ghost predicate MarkFirstInv(limit: nat, reach: set<Coord>, visited: set<Coord>, queue: seq<Coord>,
                               expanded: set<Coord>) {
    && (forall c :: c in visited ==> InRegion(Square(limit), c))
    && Origin in visited && expanded <= visited && expanded <= reach
    && (forall i :: 0 <= i < |queue| ==> queue[i] in visited && queue[i] in reach)
    && (forall c :: c in visited && Safe(c) ==> c in expanded || c in queue)
    && visited <= {Origin} + Halo(expanded)
  }

  /** The as-written flood fill. `visited.Add` runs before the safety test, so an
      unsafe neighbour of a reached cell is counted although it is never
      expanded. The early return for an unsafe origin is left out: the origin
      is always safe (`AxesAreSafe`). */
  method TotalSafeSquares(limit: nat, idx: Index) returns (count: int, idx': Index)
    requires ValidLimit(limit) && Valid(idx)
    ensures Valid(idx') && Extends(idx, idx')
    ensures count == |Explored(limit)|
    ensures 1 <= count <= (2 * limit + 1) * (2 * limit + 1)
  {
    ghost var reach := ReachSet(limit);
    ReachSetClosed(limit);
    var visited: set<Coord> := {Origin};
    var queue: seq<Coord> := [Origin];
    ghost var expanded: set<Coord> := {};
    idx' := idx;
    InsideBoxBounded(visited, limit);
    while |queue| > 0
      invariant Valid(idx') && Extends(idx, idx')
      invariant MarkFirstInv(limit, reach, visited, queue, expanded)
      invariant |visited| <= (2 * limit + 1) * (2 * limit + 1)
      invariant ClosedInBox(limit, expanded, visited)
      decreases (2 * limit + 1) * (2 * limit + 1) - |visited|, |queue|
    {
      var current := queue[0];
      queue := queue[1..];
      expanded := expanded + {current};
      ghost var before := visited;
      visited, queue, idx' := ExpandMarkFirst(limit, reach, current, visited, queue, idx', expanded);
      InsideBoxBounded(visited, limit);
      if visited != before {
        ProperSubsetSmaller(before, visited);
      }
    }
    count := |visited|;
    FloodResult(limit, expanded, visited);
    InsideBoxBounded(visited, limit);
  }

  /** The `foreach` over the four directions for one dequeued cell. */
  method ExpandMarkFirst(limit: nat, ghost reach: set<Coord>, current: Coord, visited: set<Coord>,
                         queue: seq<Coord>, idx: Index, ghost expanded: set<Coord>)
    returns (visited': set<Coord>, queue': seq<Coord>, idx': Index)
    requires ValidLimit(limit) && Valid(idx) && SafeClosed(limit, reach)
    requires current in expanded && MarkFirstInv(limit, reach, visited, queue, expanded)
    requires ClosedInBox(limit, expanded - {current}, visited)
    ensures Valid(idx') && Extends(idx, idx')
    ensures MarkFirstInv(limit, reach, visited', queue', expanded)
    ensures ClosedInBox(limit, expanded, visited')
    ensures visited <= visited' && (visited' == visited ==> queue' == queue)
  {
    visited', queue', idx' := visited, queue, idx;
    SquareIsCell32(current, limit);
    DirectionsEnumerateNeighbours(FloodDirections, current);
    for i := 0 to 4
      invariant Valid(idx') && Extends(idx, idx')
      invariant MarkFirstInv(limit, reach, visited', queue', expanded)
      invariant Covered(limit, current, i, visited')
      invariant visited <= visited' && (visited' == visited ==> queue' == queue)
    {
      ghost var before := visited';
      visited', queue', idx' := VisitMarkFirst(limit, reach, current, FloodDirections[i],
                                               visited', queue', idx', expanded);
      CoveredStep(limit, current, i, before, visited');
    }
    forall c, n | c in expanded && n in Neighbours(c) && InRegion(Square(limit), n)
      ensures n in visited'
    {
      if c == current {
        assert n == Move(current, FloodDirections[0]) || n == Move(current, FloodDirections[1])
            || n == Move(current, FloodDirections[2]) || n == Move(current, FloodDirections[3]);
      }
    }
  }

  /** One iteration of the `foreach`: bounds test, then `visited.Add`, then the
      cached safety test deciding whether the cell is enqueued. */
  method VisitMarkFirst(limit: nat, ghost reach: set<Coord>, current: Coord, d: Coord,
                        visited: set<Coord>, queue: seq<Coord>, idx: Index, ghost expanded: set<Coord>)
    returns (visited': set<Coord>, queue': seq<Coord>, idx': Index)
    requires ValidLimit(limit) && Valid(idx) && SafeClosed(limit, reach)
    requires current in expanded && Manhattan(Origin, d) == 1
    requires MarkFirstInv(limit, reach, visited, queue, expanded)
    ensures Valid(idx') && Extends(idx, idx')
    ensures MarkFirstInv(limit, reach, visited', queue', expanded)
    ensures InRegion(Square(limit), Move(current, d)) ==> Move(current, d) in visited'
    ensures visited' == visited || visited' == visited + {Move(current, d)}
    ensures visited' == visited ==> queue' == queue
  {
    visited', queue', idx' := visited, queue, idx;
    SquareIsCell32(current, limit);
    var next := Step(current, d);
    StepNeighbour(current, d, limit);
    if OutsideGrid(next, limit) || next in visited {
      return;
    }
    visited' := visited + {next};
    var verdict := CachedSafety(idx, next);
    idx' := verdict.1;
    if verdict.0 {
      queue' := queue + [next];
    }
    MarkFirstAdd(limit, reach, current, next, visited, queue, expanded, verdict.0);
  }

  /** Marking an unmarked in-bounds neighbour of an expanded cell, and queueing
      it when it is safe, keeps `MarkFirstInv`. */
  lemma MarkFirstAdd(limit: nat, reach: set<Coord>, current: Coord, next: Coord, visited: set<Coord>,
                     queue: seq<Coord>, expanded: set<Coord>, safe: bool)
    requires SafeClosed(limit, reach) && current in expanded && MarkFirstInv(limit, reach, visited, queue, expanded)
    requires next in Neighbours(current) && InRegion(Square(limit), next) && safe == Safe(next)
    ensures MarkFirstInv(limit, reach, visited + {next}, if safe then queue + [next] else queue, expanded)
  {
    var visited' := visited + {next};
    var queue' := if safe then queue + [next] else queue;
    InHalo(current, next, expanded);
    assert visited' <= {Origin} + Halo(expanded);
    assert forall c :: c in visited' ==> InRegion(Square(limit), c);
    assert Origin in visited' && expanded <= visited' && expanded <= reach;
    QueuedStillQueued(limit, reach, next, visited, queue, queue', expanded);
  }

  /** The queue facts of `MarkFirstInv` after `next` is marked and, if safe, queued. */
  lemma QueuedStillQueued(limit: nat, reach: set<Coord>, next: Coord, visited: set<Coord>,
                          queue: seq<Coord>, queue': seq<Coord>, expanded: set<Coord>)
    requires forall i :: 0 <= i < |queue| ==> queue[i] in visited && queue[i] in reach
    requires forall c :: c in visited && Safe(c) ==> c in expanded || c in queue
    requires queue' == queue + [next] || (queue' == queue && !Safe(next))
    requires queue' != queue ==> next in reach
    ensures forall i :: 0 <= i < |queue'| ==> queue'[i] in visited + {next} && queue'[i] in reach
    ensures forall c :: c in visited + {next} && Safe(c) ==> c in expanded || c in queue'
  {
    forall i | 0 <= i < |queue'|
      ensures queue'[i] in visited + {next} && queue'[i] in reach
    {
      if i < |queue| {
        assert queue'[i] == queue[i];
      }
    }
    forall c | c in visited + {next} && Safe(c)
      ensures c in expanded || c in queue'
    {
      if c == next {
        assert queue'[|queue'| - 1] == next;
      } else if c !in expanded {
        assert c in queue;
        var i :| 0 <= i < |queue| && queue[i] == c;
        assert queue'[i] == c;
      }
    }
  }

  /** The first `i` directions from `current` lead outside the square or into `visited`. */
  ghost predicate Covered(limit: nat, current: Coord, i: int, visited: set<Coord>)
    requires 0 <= i <= 4
  {
    forall j :: 0 <= j < i ==>
      (InRegion(Square(limit), Move(current, FloodDirections[j])) ==> Move(current, FloodDirections[j]) in visited)
  }

  lemma CoveredStep(limit: nat, current: Coord, i: int, visited: set<Coord>, visited': set<Coord>)
    requires 0 <= i < 4 && Covered(limit, current, i, visited) && visited <= visited'
    requires InRegion(Square(limit), Move(current, FloodDirections[i])) ==> Move(current, FloodDirections[i]) in visited'
    ensures Covered(limit, current, i + 1, visited')
  {
  }

  lemma InHalo(c: Coord, n: Coord, s: set<Coord>)
    requires c in s && n in Neighbours(c)
    ensures n in Halo(s)
  {
  }

  /** Once the queue is empty the visited set is exactly `Explored`. */
  lemma FloodResult(limit: nat, expanded: set<Coord>, visited: set<Coord>)
    requires MarkFirstInv(limit, ReachSet(limit), visited, [], expanded)
    requires ClosedInBox(limit, expanded, visited)
    ensures visited == Explored(limit)
  {
    assert ClosedUnder(Square(limit), expanded, expanded);
    ReachSetClosed(limit);
    ClosedIsReachSet(limit, expanded);
    forall c | c in visited
      ensures c in Explored(limit)
    {
      InBox(c, limit);
      if c != Origin && c !in expanded {
        assert c in Halo(expanded);
      }
    }
    forall c | c in Explored(limit)
      ensures c in visited
    {
      if c !in expanded {
        var p, n :| p in expanded && n in Neighbours(p) && n == c;
        InBox(c, limit);
      }
    }
  }

  /** The bookkeeping of the corrected flood fill: every visited cell is safe,
      lies in `reach`, and has been or will be expanded. */
  ghost predicate CheckFirstInv(limit: nat, reach: set<Coord>, visited: set<Coord>, queue: seq<Coord>,
                                expanded: set<Coord>) {
    && Origin in visited && expanded <= visited && visited <= reach
    && (forall i :: 0 <= i < |queue| ==> queue[i] in visited)
    && (forall c :: c in visited ==> c in expanded || c in queue)
  }

  /** The corrected flood fill: the safety test comes before `visited.Add`, as in
      RobotGrid.cs, so exactly the reachable safe cells are counted. */
  method CountReachableSafe(limit: nat, idx: Index) returns (count: int, idx': Index)
    requires ValidLimit(limit) && Valid(idx)
    ensures Valid(idx') && Extends(idx, idx')
    ensures count == |ReachSet(limit)|
    ensures 1 <= count <= (2 * limit + 1) * (2 * limit + 1)
  {
    ghost var reach := ReachSet(limit);
    ReachSetClosed(limit);
    var visited: set<Coord> := {Origin};
    var queue: seq<Coord> := [Origin];
    ghost var expanded: set<Coord> := {};
    idx' := idx;
    InsideBoxBounded(visited, limit);
    while |queue| > 0
      invariant Valid(idx') && Extends(idx, idx')
      invariant CheckFirstInv(limit, reach, visited, queue, expanded)
      invariant |visited| <= (2 * limit + 1) * (2 * limit + 1)
      invariant ClosedUnder(Square(limit), expanded, visited)
      decreases (2 * limit + 1) * (2 * limit + 1) - |visited|, |queue|
    {
      var current := queue[0];
      queue := queue[1..];
      expanded := expanded + {current};
      ghost var before := visited;
      visited, queue, idx' := ExpandCheckFirst(limit, reach, current, visited, queue, idx', expanded);
      InsideBoxBounded(visited, limit);
      if visited != before {
        ProperSubsetSmaller(before, visited);
      }
    }
    count := |visited|;
    ClosedIsReachSet(limit, visited);
    InsideBoxBounded(visited, limit);
  }

  method ExpandCheckFirst(limit: nat, ghost reach: set<Coord>, current: Coord, visited: set<Coord>,
                          queue: seq<Coord>, idx: Index, ghost expanded: set<Coord>)
    returns (visited': set<Coord>, queue': seq<Coord>, idx': Index)
    requires ValidLimit(limit) && Valid(idx) && SafeClosed(limit, reach)
    requires current in expanded && CheckFirstInv(limit, reach, visited, queue, expanded)
    requires ClosedUnder(Square(limit), expanded - {current}, visited)
    ensures Valid(idx') && Extends(idx, idx')
    ensures CheckFirstInv(limit, reach, visited', queue', expanded)
    ensures ClosedUnder(Square(limit), expanded, visited')
    ensures visited <= visited' && (visited' == visited ==> queue' == queue)
  {
    visited', queue', idx' := visited, queue, idx;
    SquareIsCell32(current, limit);
    DirectionsEnumerateNeighbours(FloodDirections, current);
    for i := 0 to 4
      invariant Valid(idx') && Extends(idx, idx')
      invariant CheckFirstInv(limit, reach, visited', queue', expanded)
      invariant forall j :: 0 <= j < i ==>
                  (InRegion(Square(limit), Move(current, FloodDirections[j])) && Safe(Move(current, FloodDirections[j])) ==>
                   Move(current, FloodDirections[j]) in visited')
      invariant visited <= visited' && (visited' == visited ==> queue' == queue)
    {
      visited', queue', idx' := VisitCheckFirst(limit, reach, current, FloodDirections[i],
                                                visited', queue', idx', expanded);
    }
    forall c, n | c in expanded && n in Neighbours(c) && InRegion(Square(limit), n) && Safe(n)
      ensures n in visited'
    {
      if c == current {
        assert n == Move(current, FloodDirections[0]) || n == Move(current, FloodDirections[1])
            || n == Move(current, FloodDirections[2]) || n == Move(current, FloodDirections[3]);
      }
    }
  }

  /** One iteration of the corrected `foreach`: bounds test, visited test, and
      only then the cached safety test and `visited.Add`. */
  method VisitCheckFirst(limit: nat, ghost reach: set<Coord>, current: Coord, d: Coord,
                         visited: set<Coord>, queue: seq<Coord>, idx: Index, ghost expanded: set<Coord>)
    returns (visited': set<Coord>, queue': seq<Coord>, idx': Index)
    requires ValidLimit(limit) && Valid(idx) && SafeClosed(limit, reach)
    requires current in expanded && Manhattan(Origin, d) == 1
    requires CheckFirstInv(limit, reach, visited, queue, expanded)
    ensures Valid(idx') && Extends(idx, idx')
    ensures CheckFirstInv(limit, reach, visited', queue', expanded)
    ensures InRegion(Square(limit), Move(current, d)) && Safe(Move(current, d)) ==> Move(current, d) in visited'
    ensures visited' == visited || visited' == visited + {Move(current, d)}
    ensures visited' == visited ==> queue' == queue
  {
    visited', queue', idx' := visited, queue, idx;
    SquareIsCell32(current, limit);
    var next := Step(current, d);
    StepNeighbour(current, d, limit);
    if OutsideGrid(next, limit) || next in visited {
      return;
    }
    var verdict := CachedSafety(idx, next);
    idx' := verdict.1;
    if verdict.0 {
      visited' := visited + {next};
      queue' := queue + [next];
    }
  }

  /** What the as-written fill counts on top of the reachable cells: the
      in-bounds neighbours of reachable cells that are not themselves reachable. */
  ghost function Fringe(limit: nat): set<Coord> {
    Explored(limit) - ReachSet(limit)
  }

  /** Every fringe cell is unsafe, and the count splits into the reachable
      cells plus the fringe. */
  lemma FringeIsUnsafe(limit: nat)
    ensures forall c :: c in Fringe(limit) ==> !Safe(c)
    ensures |Explored(limit)| == |ReachSet(limit)| + |Fringe(limit)|
  {
    ReachSetClosed(limit);
    forall c | c in Fringe(limit)
      ensures !Safe(c)
    {
      var p, n :| p in ReachSet(limit) && n in Neighbours(p) && n == c;
      InBox(c, limit);
    }
    assert Explored(limit) == ReachSet(limit) + Fringe(limit);
  }

  /** The straight walk up the y axis from the origin to (0, k). */
  lemma AxisWalk(limit: nat, k: nat)
    requires k <= limit
    ensures Coord(0, k) in ReachSet(limit)
  {
    var w := seq(k + 1, i requires 0 <= i <= k => Coord(0, i));
    forall i | 0 <= i < |w|
      ensures Safe(w[i]) && InRegion(Square(limit), w[i])
    {
      AxesAreSafe(0, i);
    }
    assert IsWalk(Square(limit), w);
    assert Joins(Square(limit), Origin, Coord(0, k), k);
    InBox(Coord(0, k), limit);
  }

  /** From limit 199 on, the as-written fill counts a cell no safe walk reaches:
      (1, 199) is unsafe, as 1 + 9 + 9 = 19, yet it is marked visited from the
      reachable axis cell (0, 199). */
  lemma FringeIsCounted(limit: nat)
    requires limit >= 199
    ensures Coord(1, 199) in Fringe(limit)
    ensures |ReachSet(limit)| < |Explored(limit)|
  {
    var c := Coord(1, 199);
    assert DigitSum(199) == 19 by {
      assert DigitSum(199) == 9 + DigitSum(19);
      assert DigitSum(19) == 9 + DigitSum(1);
    }
    assert !Safe(c);
    AxisWalk(limit, 199);
    assert c in Neighbours(Coord(0, 199));
    InHalo(Coord(0, 199), c, ReachSet(limit));
    InBox(c, limit);
    if c in ReachSet(limit) {
      ReachSetIsSafe(limit, c);
    }
    FringeIsUnsafe(limit);
  }

  /** Cells of `ReachSet` are safe. */
  lemma ReachSetIsSafe(limit: nat, c: Coord)
    requires c in ReachSet(limit)
    ensures Safe(c)
  {
    var n: nat :| Joins(Square(limit), Origin, c, n);
    JoinsEndsSafe(Square(limit), Origin, c, n);
  }

  /** Main's call `TotalSafeSquares()` at GRID_LIMIT = 9999: the count printed
      exceeds the number of safe cells reachable from the origin. */
  method SampleTotal(idx: Index) returns (count: int, idx': Index)
    requires Valid(idx)
    ensures Valid(idx') && Extends(idx, idx')
    ensures count == |Explored(GridLimit)| && |ReachSet(GridLimit)| < count
  {
    count, idx' := TotalSafeSquares(GridLimit, idx);
    FringeIsCounted(GridLimit);
  }

  /** Widening the square never loses a reachable cell, so the corrected count
      never decreases as the grid limit grows. */
  lemma ReachSetMonotone(limit: nat, limit': nat)
    requires limit <= limit'
    ensures ReachSet(limit) <= ReachSet(limit')
    ensures |ReachSet(limit)| <= |ReachSet(limit')|
  {
    forall c | c in ReachSet(limit)
      ensures c in ReachSet(limit')
    {
      var n: nat :| Joins(Square(limit), Origin, c, n);
      JoinsWiden(Square(limit), Square(limit'), Origin, c, n);
      InBox(c, limit);
      InBox(c, limit');
    }
    SubsetSmaller(ReachSet(limit), ReachSet(limit'));
  }

  /** The same for the as-written count: the explored cells of a smaller
      square are explored in every larger one. */
  lemma ExploredMonotone(limit: nat, limit': nat)
    requires limit <= limit'
    ensures Explored(limit) <= Explored(limit')
    ensures |Explored(limit)| <= |Explored(limit')|
  {
    ReachSetMonotone(limit, limit');
    forall c | c in Halo(ReachSet(limit)) * Box(limit)
      ensures c in Explored(limit')
    {
      var p, n :| p in ReachSet(limit) && n in Neighbours(p) && n == c;
      InHalo(p, c, ReachSet(limit'));
      InBox(c, limit);
      InBox(c, limit');
    }
    SubsetSmaller(Explored(limit), Explored(limit'));
  }
}
