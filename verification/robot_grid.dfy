/** The searches of RobotGrid.cs: a breadth-first search and a flood fill over
    the unbounded grid, testing safety before marking a cell visited. Neither
    has a bounds test, so a run is given `fuel`, the number of dequeues it may
    perform; `None` means the fuel ran out. Safety is the 64-bit rule of
    `Safety.Safe` (see `RobotSafety.SafeTextWide`). */
module RobotGrid {
  import opened Coords
  import opened Safety
  import opened Walks
  import opened RobotSafety

  /** A queue element of the breadth-first search. */
  datatype Item = Item(pos: Coord, steps: nat)

  ghost function Cells(q: seq<Item>): set<Coord> {
    set it | it in q :: it.pos
  }

  /** Breadth-first order: step counts never decrease along the queue and
      differ by at most one. */
  ghost predicate Layered(q: seq<Item>) {
    forall i, j :: 0 <= i <= j < |q| ==> q[i].steps <= q[j].steps <= q[i].steps + 1
  }

  /** Every cell seen has been expanded or is still queued. */
  ghost predicate Covers(v: set<Coord>, q: seq<Item>, expanded: set<Coord>) {
    expanded <= v && forall c :: c in v ==> c in expanded || c in Cells(q)
  }

  /** Every queued item is a seen cell at its exact distance from `start`, with
      steps between `m` and `m + 1`. */
  ghost predicate Frontier(start: Coord, v: set<Coord>, q: seq<Item>, m: nat) {
    && (forall i :: 0 <= i < |q| ==> q[i].pos in v && m <= q[i].steps <= m + 1)
    && (forall i :: 0 <= i < |q| ==> IsDistance(Unbounded, start, q[i].pos, q[i].steps))
    && Layered(q)
  }

  /** The loop invariant of the breadth-first search. */
  ghost predicate BfsState(start: Coord, target: Coord, v: set<Coord>, q: seq<Item>, expanded: set<Coord>) {
    && start in v
    && (|q| > 0 ==> Frontier(start, v, q, q[0].steps))
    && Covers(v, q, expanded)
    && ClosedUnder(Unbounded, expanded, v)
    && target !in expanded
  }

  /** `ShortestSafeJourney` of RobotGrid.cs. An unsafe end gives -1; a dequeued
      target gives its step count, which is the length of a shortest safe walk;
      an exhausted queue gives -1, and then no safe walk exists. */
  method ShortestSafeJourney(start: Coord, target: Coord, fuel: nat) returns (r: Option<int>)
    ensures !(Safe(start) && Safe(target)) ==> r == Some(-1)
    ensures Safe(start) && start == target && fuel > 0 ==> r == Some(0)
    ensures r == Some(-1) ==> !Reachable(Unbounded, start, target)
    ensures r != None && r.value != -1 ==> r.value >= 0 && IsDistance(Unbounded, start, target, r.value)
  {
    if !Safe(start) || !Safe(target) {
      ReachableEndsSafe(Unbounded, start, target);
      return Some(-1);
    }
    JoinsSelf(Unbounded, start);
    JoinsAtLeastManhattan(Unbounded, start, start, 0);
    var visited := {start};
    var queue := [Item(start, 0)];
    ghost var expanded: set<Coord> := {};
    var remaining := fuel;
    assert start in Cells(queue);
    assert LowerBound(Unbounded, start, start, 0);
    while |queue| > 0
      invariant BfsState(start, target, visited, queue, expanded)
      invariant start == target ==> remaining == fuel && queue == [Item(start, 0)]
      decreases remaining
    {
      if remaining == 0 {
        return None;
      }
      remaining := remaining - 1;
      var item := queue[0];
      ghost var before := queue;
      queue := queue[1..];
      if item.pos == target {
        return Some(item.steps);
      }
      expanded := expanded + {item.pos};
      forall c | c in visited
        ensures c in expanded || c in Cells(queue)
      {
        if c !in expanded {
          var it :| it in before && it.pos == c;
          assert it != before[0];
          assert it in queue;
        }
      }
      PopKeeps(start, visited, before);
      visited, queue := BfsExpand(start, item, visited, queue, expanded);
      if |queue| > 0 {
        FrontierAtHead(start, visited, queue, item.steps);
      }
    }
    NoWalkOut(start, target, visited, expanded);
    return Some(-1);
  }

  /** An exhausted queue leaves a set closed under safe moves that holds the
      start but not the target. */
  lemma NoWalkOut(start: Coord, target: Coord, v: set<Coord>, expanded: set<Coord>)
    requires BfsState(start, target, v, [], expanded)
    ensures !Reachable(Unbounded, start, target)
  {
    assert v == expanded;
    if Reachable(Unbounded, start, target) {
      ClosedSetContainsReachable(Unbounded, v, start, target);
    }
  }

  /** The loop over the four directions of one dequeued item. */
  method BfsExpand(start: Coord, item: Item, visited: set<Coord>, queue: seq<Item>, ghost expanded: set<Coord>)
    returns (visited': set<Coord>, queue': seq<Item>)
    requires start in visited && item.pos in visited && IsDistance(Unbounded, start, item.pos, item.steps)
    requires Frontier(start, visited, queue, item.steps)
    requires item.pos in expanded && Covers(visited, queue, expanded)
    requires ClosedUnder(Unbounded, expanded - {item.pos}, visited)
    ensures start in visited' && visited <= visited'
    ensures Frontier(start, visited', queue', item.steps)
    ensures Covers(visited', queue', expanded)
    ensures ClosedUnder(Unbounded, expanded, visited')
  {
    visited', queue' := visited, queue;
    for d := 0 to 4
      invariant start in visited' && visited <= visited' && item.pos in visited'
      invariant Frontier(start, visited', queue', item.steps)
      invariant Covers(visited', queue', expanded)
      invariant ClosedUnder(Unbounded, expanded - {item.pos}, visited')
      invariant Handled(Unbounded, FloodDirections, item.pos, d, visited')
    {
      var next := Move(item.pos, FloodDirections[d]);
      ghost var v0 := visited';
      visited', queue' := BfsVisit(start, item, next, visited', queue', expanded);
      assert Handled(Unbounded, FloodDirections, item.pos, d, v0);
    }
    ExpandCloses(item.pos, expanded, visited');
  }

  /** Once every direction of `c` is handled, adding `c` keeps `expanded` closed. */
  lemma ExpandCloses(c: Coord, expanded: set<Coord>, v: set<Coord>)
    requires ClosedUnder(Unbounded, expanded - {c}, v) && Handled(Unbounded, FloodDirections, c, 4, v)
    ensures ClosedUnder(Unbounded, expanded, v)
  {
    DirectionsEnumerateNeighbours(FloodDirections, c);
    forall e, n | e in expanded && n in Neighbours(e) && InRegion(Unbounded, n) && Safe(n)
      ensures n in v
    {
      if e == c {
        assert n == Move(c, FloodDirections[0]) || n == Move(c, FloodDirections[1])
            || n == Move(c, FloodDirections[2]) || n == Move(c, FloodDirections[3]);
      }
    }
  }

  /** One direction: a safe cell not seen yet is marked and queued one step
      further than the item. */
  method BfsVisit(start: Coord, item: Item, next: Coord, visited: set<Coord>, queue: seq<Item>, ghost expanded: set<Coord>)
    returns (visited': set<Coord>, queue': seq<Item>)
    requires start in visited && item.pos in visited && IsDistance(Unbounded, start, item.pos, item.steps)
    requires Frontier(start, visited, queue, item.steps)
    requires item.pos in expanded && Covers(visited, queue, expanded)
    requires ClosedUnder(Unbounded, expanded - {item.pos}, visited)
    requires Adjacent(item.pos, next)
    ensures visited <= visited' && (Safe(next) ==> next in visited')
    ensures Frontier(start, visited', queue', item.steps)
    ensures Covers(visited', queue', expanded)
    ensures ClosedUnder(Unbounded, expanded - {item.pos}, visited')
  {
    visited', queue' := visited, queue;
    if next !in visited && Safe(next) {
      PushDistance(start, item, next, visited, queue, expanded);
      visited' := visited + {next};
      queue' := queue + [Item(next, item.steps + 1)];
      PushKeeps(start, visited, queue, item.steps, next);
      CellsPush(queue, Item(next, item.steps + 1));
    }
  }

  lemma CellsPush(q: seq<Item>, it: Item)
    ensures Cells(q + [it]) == Cells(q) + {it.pos}
  {
    assert forall e :: e in q + [it] <==> e in q || e == it;
  }

  /** Queueing a seen cell at distance `m + 1` keeps the frontier. */
  lemma PushKeeps(start: Coord, v: set<Coord>, q: seq<Item>, m: nat, next: Coord)
    requires Frontier(start, v, q, m)
    requires IsDistance(Unbounded, start, next, m + 1)
    ensures Frontier(start, v + {next}, q + [Item(next, m + 1)], m)
  {
    var q' := q + [Item(next, m + 1)];
    assert forall i :: 0 <= i < |q| ==> q'[i] == q[i];
  }

  /** Taking the head off a breadth-first queue leaves a frontier at the
      head's step count. */
  lemma PopKeeps(start: Coord, v: set<Coord>, q: seq<Item>)
    requires |q| > 0 && Frontier(start, v, q, q[0].steps)
    ensures Frontier(start, v, q[1..], q[0].steps)
  {
    assert forall i :: 0 <= i < |q| - 1 ==> q[1..][i] == q[i + 1];
  }

  /** A frontier at `m` whose head is at `h >= m` is a frontier at `h`. */
  lemma FrontierAtHead(start: Coord, v: set<Coord>, q: seq<Item>, m: nat)
    requires |q| > 0 && Frontier(start, v, q, m)
    ensures Frontier(start, v, q, q[0].steps)
  {
  }

  /** A safe neighbour of the expanded item not seen yet lies one step further
      than the item: the seen cells that are not on the frontier are all
      expanded, so any walk to it crosses the frontier, which is at distance at
      least `item.steps`. */
  lemma PushDistance(start: Coord, item: Item, next: Coord, v: set<Coord>, q: seq<Item>, expanded: set<Coord>)
    requires start in v && item.pos in v && IsDistance(Unbounded, start, item.pos, item.steps)
    requires Frontier(start, v, q, item.steps)
    requires item.pos in expanded && Covers(v, q, expanded)
    requires ClosedUnder(Unbounded, expanded - {item.pos}, v)
    requires next !in v && Safe(next) && Adjacent(item.pos, next)
    ensures IsDistance(Unbounded, start, next, item.steps + 1)
  {
    JoinsExtend(Unbounded, start, item.pos, item.steps, next);
    var f := Cells(q) + {item.pos};
    forall d | d in f
      ensures LowerBound(Unbounded, start, d, item.steps)
    {
      if d != item.pos {
        var it :| it in q && it.pos == d;
        var i :| 0 <= i < |q| && q[i] == it;
        assert IsDistance(Unbounded, start, q[i].pos, q[i].steps);
      }
    }
    assert ClosedUnder(Unbounded, v - f, v);
    OutsideLowerBound(Unbounded, v, f, item.steps, start, next);
  }

  /** The loop invariant of the flood fill: the origin is seen, every seen cell
      is expanded or queued, and expanded cells have all their safe neighbours
      seen. */
  ghost predicate FillState(v: set<Coord>, q: seq<Coord>, expanded: set<Coord>) {
    && Marked(v, q, expanded)
    && expanded <= v
    && ClosedUnder(Unbounded, expanded, v)
  }

  /** The marked cells are safe and reachable, the queue holds marked cells,
      and every marked cell is expanded or queued. */
  ghost predicate Marked(v: set<Coord>, q: seq<Coord>, expanded: set<Coord>) {
    && SafeReached(v)
    && (forall i :: 0 <= i < |q| ==> q[i] in v)
    && (forall c :: c in v ==> c in expanded || c in q)
  }

  /** `v` grew from `visited` only by safe neighbours of `cur`. */
  ghost predicate AddedNear(visited: set<Coord>, v: set<Coord>, cur: Coord) {
    visited <= v && forall c :: c in v && c !in visited ==> Safe(c) && c in Neighbours(cur)
  }

  /** The origin together with safe cells reachable from it: what the fill may
      mark visited, since it tests safety before `visited.Add`. */
  ghost predicate SafeReached(s: set<Coord>) {
    && Origin in s
    && forall c :: c in s ==> Safe(c) && Reachable(Unbounded, Origin, c)
  }

  lemma SafeReachedStart()
    ensures SafeReached({Origin})
  {
    AxesAreSafe(0, 0);
    JoinsSelf(Unbounded, Origin);
  }

  /** Marking a safe neighbour of a marked cell keeps the set reached. */
  lemma SafeReachedAdd(s: set<Coord>, cur: Coord, next: Coord)
    requires SafeReached(s) && cur in s
    requires Safe(next) && next in Neighbours(cur)
    ensures SafeReached(s + {next})
  {
    ReachableStep(Unbounded, Origin, cur, next);
  }

  /** A set of cells holding the origin and every safe neighbour of its cells. */
  ghost predicate OriginClosed(s: set<Coord>) {
    Origin in s && ClosedUnder(Unbounded, s, s)
  }

  /** Queued cells are pairwise distinct and none has been dequeued yet. */
  ghost predicate QueueFresh(q: seq<Coord>, expanded: set<Coord>) {
    && (forall i, j :: 0 <= i < j < |q| ==> q[i] != q[j])
    && (forall i :: 0 <= i < |q| ==> q[i] !in expanded)
  }

  /** `TotalSafeSquares` of RobotGrid.cs. `seen` is `visited.Count` when the
      run stops: the number of marked cells, all of them safe and reachable
      from the origin. A run that spends its fuel has dequeued `fuel`
      distinct cells of that set and marked every safe neighbour of each.
      An answer would be that count for a set that also holds every safe
      neighbour of its cells; `NoFiniteClosedSet` shows there is no such
      finite set, so every run ends with its fuel spent. */
  method TotalSafeSquares(fuel: nat) returns (r: Option<int>, seen: int)
    ensures seen >= 1 && (r != None ==> r.value == seen)
    ensures exists s :: SafeReached(s) && |s| == seen && (r != None ==> OriginClosed(s))
    ensures r == None ==> exists s, e :: SafeReached(s) && |s| == seen && e <= s && |e| == fuel && ClosedUnder(Unbounded, e, s)
  {
    SafeReachedStart();
    var visited := {Origin};
    var queue := [Origin];
    ghost var expanded: set<Coord> := {};
    for step := 0 to fuel
      invariant FillState(visited, queue, expanded) && QueueFresh(queue, expanded)
      invariant |expanded| == step
    {
      if |queue| == 0 {
        break;
      }
      visited, queue, expanded := FillStep(visited, queue, expanded);
    }
    if |queue| > 0 {
      assert SafeReached(visited) && expanded <= visited && |expanded| == fuel && ClosedUnder(Unbounded, expanded, visited);
      return None, |visited|;
    }
    assert SafeReached(visited) && OriginClosed(visited);
    return Some(|visited|), |visited|;
  }

  /** One turn of the fill loop: dequeue the head cell and expand it. */
  method FillStep(visited: set<Coord>, queue: seq<Coord>, ghost expanded: set<Coord>)
    returns (visited': set<Coord>, queue': seq<Coord>, ghost expanded': set<Coord>)
    requires |queue| > 0 && FillState(visited, queue, expanded) && QueueFresh(queue, expanded)
    ensures FillState(visited', queue', expanded') && QueueFresh(queue', expanded')
    ensures visited <= visited' && expanded' == expanded + {queue[0]} && |expanded'| == |expanded| + 1
  {
    var cur := queue[0];
    var rest := queue[1..];
    expanded' := expanded + {cur};
    forall c | c in visited
      ensures c in expanded' || c in rest
    {
      if c !in expanded' {
        var i :| 0 <= i < |queue| && queue[i] == c;
        assert rest[i - 1] == c;
      }
    }
    assert QueueFresh(rest, expanded') by {
      forall i | 0 <= i < |rest|
        ensures rest[i] !in expanded'
      {
        assert rest[i] == queue[i + 1];
      }
    }
    visited', queue' := FillExpand(cur, visited, rest, expanded');
  }

  /** The four directions of one dequeued cell of the flood fill. */
  method FillExpand(cur: Coord, visited: set<Coord>, queue: seq<Coord>, ghost expanded: set<Coord>)
    returns (visited': set<Coord>, queue': seq<Coord>)
    requires Marked(visited, queue, expanded) && cur in expanded && expanded <= visited
    requires ClosedUnder(Unbounded, expanded - {cur}, visited) && QueueFresh(queue, expanded)
    ensures visited <= visited' && FillState(visited', queue', expanded) && QueueFresh(queue', expanded)
    ensures forall c :: c in visited' && c !in visited ==> Safe(c) && c in Neighbours(cur)
  {
    visited', queue' := visited, queue;
    for d := 0 to 4
      invariant Marked(visited', queue', expanded) && AddedNear(visited, visited', cur)
      invariant QueueFresh(queue', expanded)
      invariant ClosedUnder(Unbounded, expanded - {cur}, visited')
      invariant Handled(Unbounded, FloodDirections, cur, d, visited')
    {
      ghost var before := visited';
      visited', queue' := FillVisit(cur, d, visited, visited', queue', expanded);
      assert Handled(Unbounded, FloodDirections, cur, d + 1, visited') by {
        assert before <= visited';
      }
    }
    ExpandCloses(cur, expanded, visited');
  }

  /** One direction of the fill: a safe cell not yet marked is marked and queued. */
  method FillVisit(cur: Coord, d: nat, visited: set<Coord>, v: set<Coord>, q: seq<Coord>, ghost expanded: set<Coord>)
    returns (v': set<Coord>, q': seq<Coord>)
    requires d < 4 && cur in visited
    requires Marked(v, q, expanded) && AddedNear(visited, v, cur)
    requires expanded <= v && QueueFresh(q, expanded)
    ensures Marked(v', q', expanded) && AddedNear(visited, v', cur) && v <= v'
    ensures QueueFresh(q', expanded)
    ensures Safe(Move(cur, FloodDirections[d])) ==> Move(cur, FloodDirections[d]) in v'
  {
    v', q' := v, q;
    var next := Move(cur, FloodDirections[d]);
    if next !in v && Safe(next) {
      DirectionsEnumerateNeighbours(FloodDirections, cur);
      SafeReachedAdd(v, cur, next);
      v' := v + {next};
      q' := q + [next];
      assert q'[|q'| - 1] == next;
    }
  }

  /** Some cell of the y axis at or above the origin is the last one of its
      run inside `v`. */
  lemma {:induction false} AxisGapBelow(v: set<Coord>, i: int)
    requires Origin in v && i >= 0 && Coord(0, i) !in v
    ensures exists j :: 1 <= j <= i && Coord(0, j - 1) in v && Coord(0, j) !in v
    decreases i
  {
    if Coord(0, i - 1) !in v {
      AxisGapBelow(v, i - 1);
    }
  }

  /** A finite set cannot hold the |v| + 1 axis cells (0, 0) .. (0, |v|). */
  lemma AxisGap(v: set<Coord>)
    requires Origin in v
    ensures exists j :: 1 <= j && Coord(0, j - 1) in v && Coord(0, j) !in v
  {
    var column := Grid({0}, Interval(0, |v|));
    RowSize(0, 0, |v|);
    if column <= v {
      SubsetSmaller(column, v);
    }
    var c :| c in column && c !in v;
    AxisGapBelow(v, c.y);
  }

  /** The y axis is all safe and unbounded, so no finite set of cells holding
      the origin contains every safe neighbour of its cells: the flood fill of
      RobotGrid.cs never empties its queue. */
  lemma NoFiniteClosedSet(v: set<Coord>)
    ensures !OriginClosed(v)
  {
    if Origin in v {
      AxisGap(v);
      var j :| 1 <= j && Coord(0, j - 1) in v && Coord(0, j) !in v;
      AxesAreSafe(0, j);
      assert Coord(0, j) in Neighbours(Coord(0, j - 1));
    }
  }

  /** A shortest walk over the whole plane is never longer than a walk the
      bounded bidirectional search can return. */
  lemma BoundedWalkNotShorter(limit: nat, a: Coord, b: Coord, n: nat, d: nat)
    requires Joins(Square(limit), a, b, n) && IsDistance(Unbounded, a, b, d)
    ensures d <= n
  {
    JoinsWiden(Square(limit), Unbounded, a, b, n);
  }

  /** Shortest-walk lengths are unique. */
  lemma DistanceUnique(r: Region, a: Coord, b: Coord, d: nat, e: nat)
    requires IsDistance(r, a, b, d) && IsDistance(r, a, b, e)
    ensures d == e
  {
  }

  /** The two journeys of RobotGrid's Main: (0, 0) to (3, 4) answers 7 unless
      the fuel runs out; (0, 0) to (67, 43) ends on an unsafe cell and answers
      -1. */
  method SampleJourneys(fuel: nat) returns (near: Option<int>, far: Option<int>)
    ensures near == None || near == Some(7)
    ensures far == Some(-1)
  {
    near := ShortestSafeJourney(Origin, Coord(3, 4), fuel);
    SampleJourneyDistance(Unbounded);
    if near != None {
      DistanceUnique(Unbounded, Origin, Coord(3, 4), near.value, 7);
    }
    SampleVerdicts();
    far := ShortestSafeJourney(Origin, Coord(67, 43), fuel);
  }
}
