/** ShortestSafeJourney of ConsoleApp1/Program.cs: a bidirectional best-first
    search between two cells over the square [-limit, limit]². Each side keeps
    a priority queue of (cell, steps) entries ordered by steps plus the
    Manhattan distance to the other end, and a dictionary of the fewest steps
    seen per cell. The search stops at the first dequeued cell that the other
    side has already visited. */
module BidirectionalSearch {
  import opened Coords
  import opened Bounds
  import opened Safety
  import opened Walks
  import opened SafetyIndex

  /** `int.MaxValue`, the value of bestPath while the two sides have not met. */
  const NoPath: int := Int32Max

  /** A queue element: a cell, the steps it was reached with, and its priority. */
  datatype Entry = Entry(pos: Coord, steps: int, priority: int)

  /** Limits whose square, with the two ends added, has at most half of
      int.MaxValue cells. A step count stays below the number of cells its side
      has recorded, so a step count plus one, and the sum of one count from
      each side, stay within int. */
  predicate SearchLimit(limit: nat) {
    ValidLimit(limit) && 2 * ((2 * limit + 1) * (2 * limit + 1) + 2) <= Int32Max
  }

  /** GRID_LIMIT = 9999 is such a limit: whatever the ends, the two sides
      together can record at most int.MaxValue cells. */
  lemma GridLimitSearchable()
    ensures SearchLimit(GridLimit)
    ensures forall start, target :: 2 * |Area(GridLimit, start, target)| <= Int32Max
  {
    forall start, target
      ensures 2 * |Area(GridLimit, start, target)| <= Int32Max
    {
      AreaSize(GridLimit, start, target);
    }
  }

  // ----- The priority queue

  /** Index of the first entry of least priority. */
  function MinIndex(q: seq<Entry>): (k: nat)
    requires |q| > 0
    ensures k < |q|
    ensures forall i :: 0 <= i < |q| ==> q[k].priority <= q[i].priority
    ensures forall i :: 0 <= i < k ==> q[k].priority < q[i].priority
  {
    if |q| == 1 then 0
    else
      var k := MinIndex(q[1..]);
      if q[0].priority <= q[1..][k].priority then 0 else k + 1
  }

  /** `Dequeue`: remove an entry of least priority. Ties go to the entry
      enqueued first. */
  function Dequeue(q: seq<Entry>): (r: (Entry, seq<Entry>))
    requires |q| > 0
    ensures r.0 in q
    ensures forall e :: e in q ==> r.0.priority <= e.priority
    ensures |r.1| == |q| - 1
    ensures multiset(r.1) + multiset{r.0} == multiset(q)
    ensures forall e :: e in r.1 ==> e in q
    ensures forall e :: e in q && e != r.0 ==> e in r.1
  {
    var k := MinIndex(q);
    var rest := q[..k] + q[k + 1..];
    assert q == q[..k] + [q[k]] + q[k + 1..];
    assert forall e :: e in rest ==> e in multiset(q);
    (q[k], rest)
  }

  /** The cells that have an entry in `q`. */
  ghost function Positions(q: seq<Entry>): set<Coord> {
    set e | e in q :: e.pos
  }

  // ----- Invariants of one side

  /** The facts about one side that make its answers sound, for the side
      searching from `o`: every dictionary value and every queued step count is
      the length of a safe walk from `o`, below the number of cells seen; only
      `o` itself lies outside the square or has 0 steps. */
  ghost predicate Sound(limit: nat, o: Coord, v: map<Coord, int>, q: seq<Entry>) {
    && o in v && v[o] == 0
    && (forall c :: c in v ==> 0 <= v[c] < |v.Keys|)
    && (forall c :: c in v && c != o ==> InRegion(Square(limit), c))
    && (forall c :: c in v ==> Joins(Square(limit), o, c, v[c]))
    && (forall e :: e in q ==> e.pos in v && 0 <= e.steps < |v.Keys|)
    && (forall e :: e in q ==> Joins(Square(limit), o, e.pos, e.steps))
    && (forall e :: e in q && e.pos == o ==> e.steps == 0)
  }

  /** Every entry is prioritised by its steps plus the Manhattan distance to `goal`. */
  ghost predicate Prioritised(goal: Coord, q: seq<Entry>) {
    forall e :: e in q ==> e.priority == e.steps + Manhattan(e.pos, goal)
  }

  /** Every cell seen has been expanded or still has an entry queued. */
  ghost predicate Covers(v: map<Coord, int>, q: seq<Entry>, expanded: set<Coord>) {
    && expanded <= v.Keys
    && (forall c :: c in v ==> c in expanded || c in Positions(q))
  }

  /** `Covers`, and every safe in-bounds neighbour of an expanded cell has been seen. */
  ghost predicate Complete(limit: nat, v: map<Coord, int>, q: seq<Entry>, expanded: set<Coord>) {
    Covers(v, q, expanded) && ClosedUnder(Square(limit), expanded, v.Keys)
  }

  /** The dictionary only gains cells and its step counts only decrease. */
  ghost predicate Shrinks(v: map<Coord, int>, v': map<Coord, int>) {
    v.Keys <= v'.Keys && forall c :: c in v ==> v'[c] <= v[c]
  }

  // ----- One side's step

  /** `ProcessNextNode`: dequeue an entry of least priority; if the opposite side
      has seen its cell with a smaller total than `best`, record the total and
      report the meeting; otherwise, unless its steps already reach `best`,
      expand it in the clockwise direction order. */
  method ProcessNextNode(limit: nat, queue: seq<Entry>, visited: map<Coord, int>, opposite: map<Coord, int>,
                         goal: Coord, best: int, idx: Index, ghost o: Coord, ghost expanded: set<Coord>)
    returns (done: bool, cur: Entry, queue': seq<Entry>, visited': map<Coord, int>, best': int, idx': Index,
             ghost expanded': set<Coord>)
    requires ValidLimit(limit) && Valid(idx) && IsCell32(o)
    requires |queue| > 0 && Sound(limit, o, visited, queue) && Prioritised(goal, queue)
    requires Complete(limit, visited, queue, expanded)
    requires forall c :: c in opposite ==> 0 <= opposite[c] < |opposite.Keys|
    requires |visited.Keys| + |opposite.Keys| <= Int32Max
    ensures Valid(idx') && Extends(idx, idx')
    ensures cur in queue && forall e :: e in queue ==> cur.priority <= e.priority
    ensures 0 <= cur.steps < Int32Max
    ensures cur.pos in opposite ==> cur.steps + opposite[cur.pos] < Int32Max
    ensures done <==> cur.pos in opposite && cur.steps + opposite[cur.pos] < best
    ensures best' == if done then cur.steps + opposite[cur.pos] else best
    ensures Sound(limit, o, visited', queue') && Prioritised(goal, queue')
    ensures Shrinks(visited, visited') && (visited' == visited ==> |queue'| < |queue|)
    ensures !done && cur.steps < best ==> expanded' == expanded + {cur.pos}
    ensures !done && cur.steps < best ==> Complete(limit, visited', queue', expanded')
  {
    var popped := Dequeue(queue);
    cur, queue' := popped.0, popped.1;
    visited', best', idx', expanded' := visited, best, idx, expanded;
    if cur.pos in opposite {
      var total := Wrap32(cur.steps + opposite[cur.pos]);
      if total < best {
        best' := total;
        return true, cur, queue', visited', best', idx', expanded';
      }
    }
    done := false;
    if cur.steps >= best {
      return;
    }
    expanded' := expanded + {cur.pos};
    forall c | c in visited
      ensures c in expanded' || c in Positions(queue')
    {
      if c !in expanded {
        var e :| e in queue && e.pos == c;
        if e != cur {
          assert e in queue';
        }
      }
    }
    visited', queue', idx' := ExpandNode(limit, goal, cur, visited, queue', idx, o, expanded');
  }

  /** The `foreach` over the four directions of one expanded entry. */
  method ExpandNode(limit: nat, goal: Coord, cur: Entry, visited: map<Coord, int>, queue: seq<Entry>,
                    idx: Index, ghost o: Coord, ghost expanded: set<Coord>)
    returns (visited': map<Coord, int>, queue': seq<Entry>, idx': Index)
    requires ValidLimit(limit) && Valid(idx) && IsCell32(o)
    requires Sound(limit, o, visited, queue) && Prioritised(goal, queue)
    requires cur.pos in visited && 0 <= cur.steps < |visited.Keys| && Joins(Square(limit), o, cur.pos, cur.steps)
    requires cur.pos == o ==> cur.steps == 0
    requires cur.steps < Int32Max
    requires cur.pos in expanded && Covers(visited, queue, expanded)
    requires ClosedUnder(Square(limit), expanded - {cur.pos}, visited.Keys)
    ensures Valid(idx') && Extends(idx, idx')
    ensures Sound(limit, o, visited', queue') && Prioritised(goal, queue')
    ensures Shrinks(visited, visited') && (visited' == visited ==> queue' == queue)
    ensures Complete(limit, visited', queue', expanded)
  {
    visited', queue', idx' := visited, queue, idx;
    DirectionsEnumerateNeighbours(SearchDirections, cur.pos);
    for i := 0 to 4
      invariant Valid(idx') && Extends(idx, idx')
      invariant Sound(limit, o, visited', queue') && Prioritised(goal, queue')
      invariant Shrinks(visited, visited') && (visited' == visited ==> queue' == queue)
      invariant Covers(visited', queue', expanded)
      invariant |visited.Keys| <= |visited'.Keys|
      invariant Handled(Square(limit), SearchDirections, cur.pos, i, visited'.Keys)
    {
      ghost var before := visited';
      ghost var queued := queue';
      visited', queue', idx' := Visit(limit, goal, cur, SearchDirections[i], visited', queue', idx', o);
      ShrinksTransitive(visited, before, visited');
      HandledStep(Square(limit), SearchDirections, cur.pos, i, before.Keys, visited'.Keys);
      PositionsGrow(queued, queue');
      assert ClosedUnder(Square(limit), expanded - {cur.pos}, visited'.Keys);
    }
    forall c, n | c in expanded && n in Neighbours(c) && InRegion(Square(limit), n) && Safe(n)
      ensures n in visited'
    {
      if c == cur.pos {
        assert n == Move(c, SearchDirections[0]) || n == Move(c, SearchDirections[1])
            || n == Move(c, SearchDirections[2]) || n == Move(c, SearchDirections[3]);
      }
    }
  }

  /** One iteration of the `foreach`: the bounds test, then `Improve`. The
      candidate is recorded at steps + 1 and enqueued with priority steps + 1
      plus its Manhattan distance to `goal` exactly when it lies in the square,
      is safe and improves on its recorded count; otherwise nothing changes. */
  method Visit(limit: nat, goal: Coord, cur: Entry, d: Coord, visited: map<Coord, int>, queue: seq<Entry>,
               idx: Index, ghost o: Coord)
    returns (visited': map<Coord, int>, queue': seq<Entry>, idx': Index)
    requires ValidLimit(limit) && Valid(idx) && IsCell32(o) && Manhattan(Origin, d) == 1
    requires Sound(limit, o, visited, queue) && Prioritised(goal, queue)
    requires cur.pos in visited && 0 <= cur.steps < |visited.Keys| && Joins(Square(limit), o, cur.pos, cur.steps)
    requires cur.pos == o ==> cur.steps == 0
    requires cur.steps < Int32Max
    ensures Valid(idx') && Extends(idx, idx')
    ensures SideKept(limit, o, goal, visited, queue, visited', queue')
    ensures InRegion(Square(limit), Move(cur.pos, d)) && Safe(Move(cur.pos, d)) ==> Move(cur.pos, d) in visited'
    ensures Improved(limit, goal, cur, Move(cur.pos, d), visited, queue, visited', queue')
    ensures var n := Move(cur.pos, d);
      && SameExcept(idx, idx', n)
      && (InRegion(Square(limit), n) && (n !in visited || cur.steps + 1 < visited[n]) ==> n in idx'.safe + idx'.unsafe)
      && (!InRegion(Square(limit), n) || (n in visited && visited[n] <= cur.steps + 1) ==> idx' == idx)
  {
    assert IsCell32(cur.pos) by {
      if cur.pos != o {
        SquareIsCell32(cur.pos, limit);
      }
    }
    var next := Step(cur.pos, d);
    StepNeighbour(cur.pos, d, limit);
    if OutsideGrid(next, limit) {
      assert !InRegion(Square(limit), Move(cur.pos, d));
      return visited, queue, idx;
    }
    assert next == Move(cur.pos, d) && InRegion(Square(limit), next);
    visited', queue', idx' := Improve(limit, goal, cur, next, visited, queue, idx, o);
  }

  /** The rest of one iteration for an in-square candidate `next`: the
      dictionary test, the cached safety test, then the record and enqueue. */
  method Improve(limit: nat, goal: Coord, cur: Entry, next: Coord, visited: map<Coord, int>, queue: seq<Entry>,
                 idx: Index, ghost o: Coord)
    returns (visited': map<Coord, int>, queue': seq<Entry>, idx': Index)
    requires Valid(idx) && Sound(limit, o, visited, queue) && Prioritised(goal, queue)
    requires cur.pos in visited && 0 <= cur.steps < |visited.Keys| && Joins(Square(limit), o, cur.pos, cur.steps)
    requires cur.pos == o ==> cur.steps == 0
    requires cur.steps < Int32Max
    requires InRegion(Square(limit), next) && next in Neighbours(cur.pos)
    ensures Valid(idx') && Extends(idx, idx')
    ensures SideKept(limit, o, goal, visited, queue, visited', queue')
    ensures Safe(next) ==> next in visited'
    ensures Improved(limit, goal, cur, next, visited, queue, visited', queue')
    ensures SameExcept(idx, idx', next)
    ensures next !in visited || cur.steps + 1 < visited[next] ==> next in idx'.safe + idx'.unsafe
    ensures next in visited && visited[next] <= cur.steps + 1 ==> idx' == idx
  {
    assert IsInt32(cur.steps + 1);
    var newSteps := Wrap32(cur.steps + 1);
    assert newSteps == cur.steps + 1;
    if next in visited && visited[next] <= newSteps {
      return visited, queue, idx;
    }
    var verdict := CachedSafety(idx, next);
    idx' := verdict.1;
    if !verdict.0 {
      return visited, queue, idx';
    }
    RecordKeeps(limit, goal, cur, next, visited, queue, o);
    visited' := visited[next := newSteps];
    queue' := queue + [Entry(next, newSteps, newSteps + Manhattan(next, goal))];
  }

  /** The outcome of one direction towards `n`: when `n` lies in the square,
      is safe and is not recorded with at most steps + 1, it is recorded at
      steps + 1 and enqueued with priority steps + 1 plus its Manhattan distance
      to `goal`; otherwise the dictionary and the queue are unchanged. */
  ghost predicate Improved(limit: nat, goal: Coord, cur: Entry, n: Coord, visited: map<Coord, int>,
                           queue: seq<Entry>, visited': map<Coord, int>, queue': seq<Entry>) {
    if InRegion(Square(limit), n) && Safe(n) && (n !in visited || cur.steps + 1 < visited[n]) then
      && visited' == visited[n := cur.steps + 1]
      && queue' == queue + [Entry(n, cur.steps + 1, cur.steps + 1 + Manhattan(n, goal))]
    else
      visited' == visited && queue' == queue
  }

  /** What one direction keeps of a side: its invariants hold, its counts only
      drop, its queue only grows, and every new cell is queued. */
  ghost predicate SideKept(limit: nat, o: Coord, goal: Coord, visited: map<Coord, int>, queue: seq<Entry>,
                           visited': map<Coord, int>, queue': seq<Entry>) {
    && Sound(limit, o, visited', queue') && Prioritised(goal, queue')
    && Shrinks(visited, visited') && (visited' == visited ==> queue' == queue)
    && queue <= queue' && |visited.Keys| <= |visited'.Keys|
    && (forall c :: c in visited' ==> c in visited || c in Positions(queue'))
  }

  /** Recording a safe in-square neighbour at steps + 1, when that improves on
      its recorded count, and enqueueing it keeps one side's invariants. */
  lemma RecordKeeps(limit: nat, goal: Coord, cur: Entry, next: Coord, visited: map<Coord, int>,
                    queue: seq<Entry>, o: Coord)
    requires Sound(limit, o, visited, queue) && Prioritised(goal, queue)
    requires cur.pos in visited && 0 <= cur.steps < |visited.Keys| && Joins(Square(limit), o, cur.pos, cur.steps)
    requires cur.pos == o ==> cur.steps == 0
    requires InRegion(Square(limit), next) && Safe(next) && next in Neighbours(cur.pos)
    requires next !in visited || cur.steps + 1 < visited[next]
    ensures var v' := visited[next := cur.steps + 1];
      var q' := queue + [Entry(next, cur.steps + 1, cur.steps + 1 + Manhattan(next, goal))];
      && Sound(limit, o, v', q') && Prioritised(goal, q')
      && Shrinks(visited, v') && v' != visited && |visited.Keys| <= |v'.Keys|
      && (forall c :: c in v' ==> c in visited || c in Positions(q'))
  {
    JoinsExtend(Square(limit), o, cur.pos, cur.steps, next);
    var entry := Entry(next, cur.steps + 1, cur.steps + 1 + Manhattan(next, goal));
    var q' := queue + [entry];
    assert entry.pos in Positions(q');
  }

  // ----- Helper facts about the invariants

  lemma ShrinksTransitive(a: map<Coord, int>, b: map<Coord, int>, c: map<Coord, int>)
    requires Shrinks(a, b) && Shrinks(b, c)
    ensures Shrinks(a, c)
    ensures c == a ==> b == a
  {
    if c == a {
      assert b.Keys == a.Keys;
      assert forall k :: k in a ==> b[k] == a[k];
    }
  }

  lemma PositionsGrow(q: seq<Entry>, q': seq<Entry>)
    requires q <= q'
    ensures Positions(q) <= Positions(q')
  {
    forall c | c in Positions(q)
      ensures c in Positions(q')
    {
      var e :| e in q && e.pos == c;
      var i :| 0 <= i < |q| && q[i] == e;
      assert q'[i] == e;
    }
  }

  // ----- Termination measure

  /** Each (cell, k) with k at most the cell's step count: it shrinks whenever a
      step count drops. */
  ghost function Pairs(v: map<Coord, int>): set<(Coord, int)> {
    set c, k | c in v && 0 <= k <= v[c] :: (c, k)
  }

  /** A side that only shrinks its dictionary inside `area` never increases the
      number of unseen cells, and when that number stays the same its pairs do
      not grow, and strictly shrink if anything changed. */
  lemma ShrinkProgress(area: set<Coord>, v: map<Coord, int>, v': map<Coord, int>)
    requires Shrinks(v, v') && v'.Keys <= area
    requires forall c :: c in v ==> 0 <= v[c]
    ensures |area - v'.Keys| <= |area - v.Keys|
    ensures |area - v'.Keys| == |area - v.Keys| ==>
              |Pairs(v')| <= |Pairs(v)| && (v' != v ==> |Pairs(v')| < |Pairs(v)|)
  {
    SubsetSmaller(area - v'.Keys, area - v.Keys);
    if |area - v'.Keys| == |area - v.Keys| {
      if area - v'.Keys < area - v.Keys {
        ProperSubsetSmaller(area - v'.Keys, area - v.Keys);
      }
      assert v'.Keys == v.Keys;
      assert Pairs(v') <= Pairs(v);
      SubsetSmaller(Pairs(v'), Pairs(v));
      if v' != v {
        var c :| c in v && v'[c] != v[c];
        assert (c, v[c]) in Pairs(v) - Pairs(v');
        ProperSubsetSmaller(Pairs(v'), Pairs(v));
      }
    }
  }

  /** A sound side's dictionary stays within the square and its own start. */
  lemma SoundInArea(limit: nat, o: Coord, v: map<Coord, int>, q: seq<Entry>, area: set<Coord>)
    requires Sound(limit, o, v, q) && o in area && Box(limit) <= area
    ensures v.Keys <= area
  {
    forall c | c in v && c != o
      ensures c in area
    {
      InBox(c, limit);
    }
  }

  /** The square plus the two ends has at most half of int.MaxValue cells. */
  lemma AreaSize(limit: nat, start: Coord, target: Coord)
    requires SearchLimit(limit)
    ensures 2 * |Area(limit, start, target)| <= Int32Max
  {
    BoxSize(limit);
    assert |{start, target}| <= 2;
  }

  // ----- The search

  /** The cells either side can ever record. */
  ghost function Area(limit: nat, start: Coord, target: Coord): set<Coord> {
    Box(limit) + {start, target}
  }

  /** The loop invariant of the search while bestPath is still int.MaxValue. */
  ghost predicate SearchState(limit: nat, start: Coord, target: Coord,
                              fq: seq<Entry>, fv: map<Coord, int>, fe: set<Coord>,
                              bq: seq<Entry>, bv: map<Coord, int>, be: set<Coord>) {
    && Sound(limit, start, fv, fq) && Prioritised(target, fq)
    && Sound(limit, target, bv, bq) && Prioritised(start, bq)
    && Complete(limit, fv, fq, fe) && Complete(limit, bv, bq, be)
    && target !in fe && start !in be
    && fv.Keys <= Area(limit, start, target) && bv.Keys <= Area(limit, start, target)
    && (start == target ==> fq == [Entry(start, 0, 0)] && bq == [Entry(start, 0, 0)] && bv == map[start := 0])
  }

  /** Within a searchable square the two sides record at most int.MaxValue
      cells together, so every step count is below int.MaxValue and so is the
      sum of a forward and a backward count: the additions of
      `ProcessNextNode` never overflow. */
  lemma StepSumsFit(limit: nat, start: Coord, target: Coord,
                    fq: seq<Entry>, fv: map<Coord, int>, fe: set<Coord>,
                    bq: seq<Entry>, bv: map<Coord, int>, be: set<Coord>)
    requires SearchLimit(limit) && SearchState(limit, start, target, fq, fv, fe, bq, bv, be)
    ensures |fv.Keys| + |bv.Keys| <= Int32Max
    ensures forall e :: e in fq ==> 0 <= e.steps < Int32Max
    ensures forall e :: e in bq ==> 0 <= e.steps < Int32Max
    ensures forall c, d :: c in fv && d in bv ==> 0 <= fv[c] + bv[d] < Int32Max
  {
    AreaFits(limit, start, target, fv, bv);
  }

  /** Two dictionaries within the area of a searchable square hold at most
      int.MaxValue cells together. */
  lemma AreaFits(limit: nat, start: Coord, target: Coord, v: map<Coord, int>, w: map<Coord, int>)
    requires SearchLimit(limit)
    requires v.Keys <= Area(limit, start, target) && w.Keys <= Area(limit, start, target)
    ensures |v.Keys| + |w.Keys| <= Int32Max
  {
    AreaSize(limit, start, target);
    SubsetSmaller(v.Keys, Area(limit, start, target));
    SubsetSmaller(w.Keys, Area(limit, start, target));
  }

  /** Cells neither side has recorded yet. */
  ghost function Unseen(area: set<Coord>, fv: map<Coord, int>, bv: map<Coord, int>): int {
    |area - fv.Keys| + |area - bv.Keys|
  }

  /** The total of both sides' step counts, as pairs. */
  ghost function Weight(fv: map<Coord, int>, bv: map<Coord, int>): int {
    |Pairs(fv)| + |Pairs(bv)|
  }

  /** `ShortestSafeJourney` over the square of the given limit. An unsafe end
      gives -1 and equal safe ends give 0. Any other non-negative answer is the
      length of a safe walk between the ends whose inner cells lie in the
      square, so it is at least their Manhattan distance. When both ends lie in
      the square, -1 means no such walk exists. */
  method Journey(limit: nat, start: Coord, target: Coord, idx: Index) returns (r: int, idx': Index)
    requires SearchLimit(limit) && Valid(idx) && IsCell32(start) && IsCell32(target)
    ensures Valid(idx') && Extends(idx, idx')
    ensures !(Safe(start) && Safe(target)) ==> r == -1
    ensures Safe(start) && Safe(target) && start == target ==> r == 0
    ensures r == -1 || (0 <= r < NoPath && Joins(Square(limit), start, target, r))
    ensures r != -1 ==> Manhattan(start, target) <= r
    ensures r == -1 && InRegion(Square(limit), start) && InRegion(Square(limit), target) ==>
              !Reachable(Square(limit), start, target)
  {
    var verdict := CheckAndCacheSafety(idx, start);
    idx' := verdict.1;
    if !verdict.0 {
      return -1, idx';
    }
    verdict := CheckAndCacheSafety(idx', target);
    idx' := verdict.1;
    if !verdict.0 {
      return -1, idx';
    }
    r, idx' := Search(limit, start, target, idx');
  }

  /** The search proper, between two safe ends. */
  method Search(limit: nat, start: Coord, target: Coord, idx: Index) returns (r: int, idx': Index)
    requires SearchLimit(limit) && Valid(idx) && IsCell32(start) && IsCell32(target)
    requires Safe(start) && Safe(target)
    ensures Valid(idx') && Extends(idx, idx')
    ensures start == target ==> r == 0
    ensures r == -1 || (0 <= r < NoPath && Joins(Square(limit), start, target, r))
    ensures r != -1 ==> Manhattan(start, target) <= r
    ensures r == -1 && InRegion(Square(limit), start) && InRegion(Square(limit), target) ==>
              !Reachable(Square(limit), start, target)
  {
    var forwardQueue := [Entry(start, 0, Manhattan(start, target))];
    var backwardQueue := [Entry(target, 0, Manhattan(target, start))];
    var forwardVisited := map[start := 0];
    var backwardVisited := map[target := 0];
    var best := NoPath;
    ghost var forwardExpanded: set<Coord> := {};
    ghost var backwardExpanded: set<Coord> := {};
    ghost var area := Area(limit, start, target);
    InitialState(limit, start, target);
    idx' := idx;
    var met := false;
    while |forwardQueue| > 0 && |backwardQueue| > 0
      invariant Valid(idx') && Extends(idx, idx')
      invariant best == NoPath
      invariant SearchState(limit, start, target, forwardQueue, forwardVisited, forwardExpanded,
                            backwardQueue, backwardVisited, backwardExpanded)
      decreases Unseen(area, forwardVisited, backwardVisited), Weight(forwardVisited, backwardVisited),
                |forwardQueue| + |backwardQueue|
    {
      met, best, forwardQueue, forwardVisited, backwardQueue, backwardVisited, idx', forwardExpanded,
        backwardExpanded := Round(limit, start, target, forwardQueue, forwardVisited, backwardQueue,
                                  backwardVisited, idx', forwardExpanded, backwardExpanded);
      if met {
        break;
      }
    }
    r := if best == NoPath then -1 else best;
    if !met && InRegion(Square(limit), start) && InRegion(Square(limit), target) {
      NoMeeting(limit, start, target, forwardQueue, forwardVisited, forwardExpanded,
                backwardQueue, backwardVisited, backwardExpanded);
    }
  }

  /** The state after both queues and dictionaries are seeded with their end. */
  lemma InitialState(limit: nat, start: Coord, target: Coord)
    requires Safe(start) && Safe(target)
    ensures SearchState(limit, start, target,
                        [Entry(start, 0, Manhattan(start, target))], map[start := 0], {},
                        [Entry(target, 0, Manhattan(target, start))], map[target := 0], {})
  {
    JoinsSelf(Square(limit), start);
    JoinsSelf(Square(limit), target);
    var fq := [Entry(start, 0, Manhattan(start, target))];
    var bq := [Entry(target, 0, Manhattan(target, start))];
    assert start in Positions(fq);
    assert target in Positions(bq);
  }

  /** A loop that ended with an empty queue and no meeting proves the ends
      unreachable from each other. */
  lemma NoMeeting(limit: nat, start: Coord, target: Coord,
                  fq: seq<Entry>, fv: map<Coord, int>, fe: set<Coord>,
                  bq: seq<Entry>, bv: map<Coord, int>, be: set<Coord>)
    requires SearchState(limit, start, target, fq, fv, fe, bq, bv, be)
    requires |fq| == 0 || |bq| == 0
    requires InRegion(Square(limit), start) && InRegion(Square(limit), target)
    ensures !Reachable(Square(limit), start, target)
  {
    if |fq| == 0 {
      Exhausted(limit, start, target, fv, fe);
    } else {
      Exhausted(limit, target, start, bv, be);
      if Reachable(Square(limit), start, target) {
        var n: nat :| Joins(Square(limit), start, target, n);
        JoinsReverse(Square(limit), start, target, n);
      }
    }
  }

  /** One turn of the loop: a forward step and, unless it met the backward
      side, a backward step. A meeting yields a walk between the ends. Without
      one, the invariant is kept and the search has progressed: fewer unseen
      cells, or else smaller step counts, or else shorter queues. */
  method Round(limit: nat, start: Coord, target: Coord, fq: seq<Entry>, fv: map<Coord, int>,
               bq: seq<Entry>, bv: map<Coord, int>, idx: Index, ghost fe: set<Coord>, ghost be: set<Coord>)
    returns (met: bool, best: int, fq': seq<Entry>, fv': map<Coord, int>, bq': seq<Entry>,
             bv': map<Coord, int>, idx': Index, ghost fe': set<Coord>, ghost be': set<Coord>)
    requires SearchLimit(limit) && Valid(idx) && IsCell32(start) && IsCell32(target)
    requires |fq| > 0 && |bq| > 0 && SearchState(limit, start, target, fq, fv, fe, bq, bv, be)
    ensures Valid(idx') && Extends(idx, idx')
    ensures met ==> 0 <= best < NoPath && Joins(Square(limit), start, target, best)
    ensures met ==> Manhattan(start, target) <= best
    ensures start == target ==> met && best == 0
    ensures !met ==> best == NoPath && SearchState(limit, start, target, fq', fv', fe', bq', bv', be')
    ensures !met ==>
      var area := Area(limit, start, target);
      || Unseen(area, fv', bv') < Unseen(area, fv, bv)
      || (Unseen(area, fv', bv') == Unseen(area, fv, bv) && Weight(fv', bv') < Weight(fv, bv))
      || (Unseen(area, fv', bv') == Unseen(area, fv, bv) && Weight(fv', bv') == Weight(fv, bv)
          && |fq'| + |bq'| < |fq| + |bq|)
  {
    ghost var area := Area(limit, start, target);
    AreaFits(limit, start, target, fv, bv);
    fq', fv', bq', bv', fe', be' := fq, fv, bq, bv, fe, be;
    var cur;
    met, cur, fq', fv', best, idx', fe' :=
      ProcessNextNode(limit, fq, fv, bv, target, NoPath, idx, start, fe);
    if met {
      JoinsMeet(Square(limit), start, target, cur.pos, cur.steps, bv[cur.pos]);
      JoinsAtLeastManhattan(Square(limit), start, target, best);
      return;
    }
    assert cur.pos != target;
    SoundInArea(limit, start, fv', fq', area);
    AreaFits(limit, start, target, bv, fv');
    met, cur, bq', bv', best, idx', be' :=
      ProcessNextNode(limit, bq, bv, fv', start, NoPath, idx', target, be);
    if met {
      JoinsMeet(Square(limit), start, target, cur.pos, fv'[cur.pos], cur.steps);
      JoinsAtLeastManhattan(Square(limit), start, target, best);
      return;
    }
    assert cur.pos != start;
    SoundInArea(limit, target, bv', bq', area);
    ShrinkProgress(area, fv, fv');
    ShrinkProgress(area, bv, bv');
  }

  /** A side whose queue ran dry without expanding the other end has explored a
      set closed under safe moves that misses the other end: that end is out of
      reach. */
  lemma Exhausted(limit: nat, o: Coord, goal: Coord, v: map<Coord, int>, expanded: set<Coord>)
    requires Sound(limit, o, v, []) && Complete(limit, v, [], expanded)
    requires goal !in expanded && InRegion(Square(limit), goal)
    ensures !Reachable(Square(limit), o, goal)
  {
    assert v.Keys == expanded;
    if Reachable(Square(limit), o, goal) {
      ClosedSetContainsReachable(Square(limit), expanded, o, goal);
    }
  }

  /** `ShortestSafeJourney(a, b, x, y)` of Program.cs: the search over the
      square of GRID_LIMIT = 9999 between two int cells. */
  method ShortestSafeJourney(a: int, b: int, x: int, y: int, idx: Index) returns (r: int, idx': Index)
    requires IsInt32(a) && IsInt32(b) && IsInt32(x) && IsInt32(y) && Valid(idx)
    ensures Valid(idx') && Extends(idx, idx')
    ensures !(IsSafe(a, b) && IsSafe(x, y)) ==> r == -1
    ensures IsSafe(a, b) && a == x && b == y ==> r == 0
    ensures r == -1 || (0 <= r < NoPath && Joins(Square(GridLimit), Coord(a, b), Coord(x, y), r))
    ensures r != -1 ==> Manhattan(Coord(a, b), Coord(x, y)) <= r
    ensures r == -1 && InRegion(Square(GridLimit), Coord(a, b)) && InRegion(Square(GridLimit), Coord(x, y)) ==>
              !Reachable(Square(GridLimit), Coord(a, b), Coord(x, y))
  {
    GridLimitSearchable();
    r, idx' := Journey(GridLimit, Coord(a, b), Coord(x, y), idx);
  }

  /** The two journeys of Main: (0, 0) to (3, 4) is found, by a walk no shorter
      than the 7 moves of a shortest one; (0, 0) to (67, 43) ends on an unsafe
      cell and answers -1. */
  method SampleJourneys(idx: Index) returns (near: int, far: int, idx': Index)
    requires Valid(idx)
    ensures Valid(idx') && Extends(idx, idx')
    ensures 7 <= near < NoPath && Joins(Square(GridLimit), Origin, Coord(3, 4), near)
    ensures far == -1
  {
    near, idx' := ShortestSafeJourney(0, 0, 3, 4, idx);
    SampleJourneyDistance(Square(GridLimit));
    far, idx' := ShortestSafeJourney(0, 0, 67, 43, idx');
    SampleVerdicts();
  }
}
