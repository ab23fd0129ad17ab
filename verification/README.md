# Safe coordinates on an integer grid

A robot moves on the integer grid one unit step at a time: up, down, left or right. A cell (x, y) is
*safe* when x or y is zero, or when the decimal digits of |x·y| sum to less than 19. The repository
has two versions of the same three operations.

- `ConsoleApp1/Program.cs` has a digit-sum rule computed in 64-bit arithmetic with an early exit. It
  keeps a two-set cache of verdicts. It counts cells reachable from the origin with a breadth-first
  flood fill over the square [-9999, 9999]². It finds a journey between two cells with a
  bidirectional best-first search over the same square. That search keeps two priority queues
  ordered by steps plus Manhattan distance, and two dictionaries of step counts.
- `RobotGrid.cs` has a digit-sum rule over the decimal text of a 32-bit product. It runs a plain
  flood fill and a plain breadth-first search over the unbounded grid.

The Dafny modules follow that structure:

| module | file | contents |
|---|---|---|
| `Coords` | coords.dfy | cells, unit moves, the two direction orders, squares and their sizes, the Manhattan distance |
| `Bounds` | bounds.dfy | int ranges, unchecked 32-bit addition, the unsigned-cast bounds test |
| `Safety` | safety.dfy | the digit-sum rule and the early-exit loop of Program.cs |
| `Walks` | walks.dfy | safe walks, reachability and shortest-walk lengths, closed sets, the breadth-first layering argument |
| `SafetyIndex` | safety_index.dfy | the SafeCache/UnsafeCache pair as an immutable value threaded through the searches |
| `ReachabilitySearch` | reachability_search.dfy | Program.cs `TotalSafeSquares`, as written and corrected |
| `BidirectionalSearch` | bidirectional_search.dfy | Program.cs `ShortestSafeJourney` and `ProcessNextNode` |
| `RobotSafety` | robot_safety.dfy | RobotGrid.cs `IsSafe`: decimal text, 32-bit wrap-around, `Math.Abs` overflow |
| `RobotGrid` | robot_grid.dfy | RobotGrid.cs `TotalSafeSquares` and `ShortestSafeJourney` over the unbounded grid |

Walks are judged against one definition. A walk is a sequence of safe cells, each one unit move from
the next, whose interior lies in a region. The region is the square of half-width `limit`, or the
whole plane. The ends of a walk may lie outside the square, because the bidirectional search never
bounds-tests its two endpoints. `Joins(r, a, b, n)` says that a walk of exactly `n` moves exists.
`IsDistance(r, a, b, d)` says that `d` is the least such `n`.

The grid limit 9999 is a parameter `limit`. `ValidLimit` keeps `2 * limit` inside the int range.
`SearchLimit` keeps the square, with the two ends added, at no more than half of int.MaxValue cells.
A side's step counts stay below the number of cells it has recorded, so `steps + 1` and
`steps + oppositeSteps` stay within int: the model computes both with 32-bit wrap-around
(`Bounds.Wrap32`) and proves the wrap never happens. `GridLimitSearchable` shows that 9999 meets
both bounds.

## Model

| member | source | states |
|---|---|---|
| Coords.Neighbours | ConsoleApp1/Program.cs:65-68 | the four candidate cells are exactly the cells at Manhattan distance 1 |
| Coords.DirectionsEnumerateNeighbours | ConsoleApp1/Program.cs:153-156 | both direction orders (flood fill and clockwise search) list four unit moves, each to a neighbour |
| Coords.InBox | ConsoleApp1/Program.cs:54 | a cell is in the enumerated square of GRID_LIMIT exactly when both coordinates lie in [-limit, limit] |
| Coords.BoxSize | ConsoleApp1/Program.cs:54 | the square of half-width limit has (2·limit+1)² cells, which bounds every visited set |
| Coords.ManhattanMetric | ConsoleApp1/Program.cs:231-232 | the Manhattan distance is symmetric, zero on a cell and obeys the triangle inequality |
| Coords.ManhattanConsistent | ConsoleApp1/Program.cs:231-232 | one unit move changes the heuristic by at most one (a consistent heuristic) |
| Bounds.ToUInt32 | ConsoleApp1/Program.cs:78-79 | `(uint)v` keeps non-negative values and adds 2^32 to negative ones |
| Bounds.Wrap32 | ConsoleApp1/Program.cs:74-75 | unchecked int addition: identity inside the int range, a shift by 2^32 just outside it |
| Bounds.OutsideLimit | ConsoleApp1/Program.cs:78-79 | the unsigned-cast test on one coordinate holds exactly when it lies outside [-limit, limit], including when `n + limit` overflows |
| Bounds.OutsideGrid | ConsoleApp1/Program.cs:207-208 | the combined test on a cell holds exactly when the cell is outside the square |
| Bounds.StepNeighbour | ConsoleApp1/Program.cs:203-208 | a unit step that passes the bounds test did not wrap, is the mathematical neighbour, and every in-square neighbour passes |
| Safety.ProductFitsInLong | ConsoleApp1/Program.cs:27-31 | the product of two ints and its absolute value fit in a long, so `Math.Abs` cannot throw |
| Safety.IsSafeEarlyExit | ConsoleApp1/Program.cs:22-39 | the digit loop, which stops once the running sum reaches 19, returns the safety rule for every pair of ints |
| Safety.AxesAreSafe | ConsoleApp1/Program.cs:25 | cells on either axis are safe, the origin in particular, so the unsafe-origin return at line 52 never fires |
| Safety.SampleVerdicts | ConsoleApp1/Program.cs:237-240 | the four printed verdicts: (3,4) safe, (67,43) unsafe, (96,-69) safe, (123,456) unsafe |
| Walks.JoinsExtend | ConsoleApp1/Program.cs:212-225 | enqueueing a safe neighbour at steps + 1 extends a walk of `steps` moves by one move |
| Walks.JoinsMeet | ConsoleApp1/Program.cs:189-196 | a forward walk and a backward walk meeting in a cell add up to a walk between the two ends |
| Walks.JoinsAtLeastManhattan | ConsoleApp1/Program.cs:231-232 | no walk is shorter than the Manhattan distance of its ends (the heuristic is admissible) |
| Walks.ClosedSetContainsReachable | RobotGrid.cs:54-69 | a set holding the start and every safe neighbour of its cells contains every reachable cell |
| Walks.OutsideLowerBound | RobotGrid.cs:58-66 | breadth-first layering: if the frontier is at least m moves away, a cell outside the visited set is at least m + 1 moves away |
| Walks.SampleJourneyDistance | ConsoleApp1/Program.cs:245 | a shortest safe walk from (0,0) to (3,4) has 7 moves, in the plane and in every square of half-width at least 4 |
| SafetyIndex.EmptyIsValid | ConsoleApp1/Program.cs:8-9 | the empty caches are consistent with the rule |
| SafetyIndex.CheckAndCacheSafety | ConsoleApp1/Program.cs:107-116 | returns the rule's verdict and records the cell in the matching cache only, keeping both caches consistent |
| SafetyIndex.CachedSafety | ConsoleApp1/Program.cs:89-90 | the cache-first test gives the rule's verdict, only ever grows the caches, and changes nothing but the tested cell |
| ReachabilitySearch.ReachSetClosed | ConsoleApp1/Program.cs:44 | the cells reachable from the origin inside the square hold the origin and every safe in-square neighbour of their cells |
| ReachabilitySearch.ClosedIsReachSet | ConsoleApp1/Program.cs:44 | a closed set of reachable cells holding the origin is the whole reachable set |
| ReachabilitySearch.VisitMarkFirst | ConsoleApp1/Program.cs:74-93 | one direction as written: the bounds test, then `visited.Add` of every new in-square cell, then the cached safety test for the enqueue |
| ReachabilitySearch.ExpandMarkFirst | ConsoleApp1/Program.cs:72-94 | after the four directions every in-square neighbour of the dequeued cell is visited, safe or not |
| ReachabilitySearch.TotalSafeSquares | ConsoleApp1/Program.cs:47-97 | the fill as written terminates and returns the size of the reachable set plus its in-square neighbours, between 1 and (2·limit+1)² |
| ReachabilitySearch.FringeIsUnsafe | ConsoleApp1/Program.cs:85-93 | every cell the fill counts beyond the reachable ones is unsafe; the count splits into reachable plus fringe |
| ReachabilitySearch.FringeIsCounted | ConsoleApp1/Program.cs:85-93 | from limit 199 on, the unsafe cell (1,199) is counted, so the count exceeds the reachable cells |
| ReachabilitySearch.SampleTotal | ConsoleApp1/Program.cs:243 | the total that Main prints, at limit 9999, exceeds the number of reachable safe cells |
| ReachabilitySearch.ExpandCheckFirst | ConsoleApp1/Program.cs:72-94 | the corrected expansion of a dequeued cell: afterwards every safe in-square neighbour of it is visited, the visited set stays inside the reachable set, and the caches only grow |
| ReachabilitySearch.VisitCheckFirst | ConsoleApp1/Program.cs:74-93 | the corrected direction step: a cell is marked visited only after the cached safety test passes |
| ReachabilitySearch.CountReachableSafe | ConsoleApp1/Program.cs:44 | the corrected fill returns exactly the number of safe cells reachable from the origin inside the square |
| ReachabilitySearch.ReachSetMonotone | ConsoleApp1/Program.cs:54 | a larger GRID_LIMIT keeps every reachable cell reachable, so the corrected count never decreases as the limit grows |
| ReachabilitySearch.ExploredMonotone | ConsoleApp1/Program.cs:54 | the same for the cells the as-written fill counts |
| BidirectionalSearch.GridLimitSearchable | ConsoleApp1/Program.cs:134 | GRID_LIMIT = 9999 is a searchable limit: for any two ends, the two sides together can record at most int.MaxValue cells |
| BidirectionalSearch.StepSumsFit | ConsoleApp1/Program.cs:189-211 | in every state of the search, each queued step count is below int.MaxValue and so is the sum of a forward and a backward count, so neither addition overflows |
| BidirectionalSearch.MinIndex | ConsoleApp1/Program.cs:185 | picks an entry of least priority, the earliest among equals |
| BidirectionalSearch.Dequeue | ConsoleApp1/Program.cs:185 | removes one entry of least priority; the rest of the queue is unchanged as a multiset |
| BidirectionalSearch.Visit | ConsoleApp1/Program.cs:204-225 | one direction: a candidate outside the square changes nothing; otherwise, exactly when it is safe and not recorded with at most steps + 1, it is recorded at steps + 1 and enqueued with priority steps + 1 plus its Manhattan distance to the goal, and nothing changes otherwise; the safety caches change only at the candidate, and only once the bounds and dictionary tests pass |
| BidirectionalSearch.Improve | ConsoleApp1/Program.cs:211-225 | for an in-square candidate: the dictionary test skips a count of at most steps + 1 before the cache is consulted, an unsafe cell is skipped, and otherwise the count steps + 1 is recorded and the entry enqueued, keeping the side's invariants; steps + 1, added with 32-bit wrap-around, does not wrap |
| BidirectionalSearch.ExpandNode | ConsoleApp1/Program.cs:202-226 | after the four directions every safe in-square neighbour is seen; step counts only decrease and every queued step count is a walk length |
| BidirectionalSearch.ProcessNextNode | ConsoleApp1/Program.cs:176-229 | dequeues a least-priority entry; reports a meeting exactly when the opposite side saw the cell with a total below bestPath, and then sets bestPath to it; otherwise expands unless steps ≥ bestPath; the total `steps + oppositeSteps`, added with 32-bit wrap-around, is below int.MaxValue and does not wrap |
| BidirectionalSearch.Round | ConsoleApp1/Program.cs:162-171 | a forward then a backward step: a meeting yields a walk between the ends of that length, no shorter than their Manhattan distance |
| BidirectionalSearch.Exhausted | ConsoleApp1/Program.cs:160-173 | a side whose queue ran dry without reaching the other end proves that end unreachable |
| BidirectionalSearch.Search | ConsoleApp1/Program.cs:136-173 | the search terminates; -1 only when the ends are not joined inside the square (for in-square ends), otherwise a walk of the answered length |
| BidirectionalSearch.Journey | ConsoleApp1/Program.cs:128-174 | an unsafe end gives -1, equal safe ends give 0, any other answer is the length of a safe walk in the square, at least the Manhattan distance |
| BidirectionalSearch.ShortestSafeJourney | ConsoleApp1/Program.cs:128-174 | the same at GRID_LIMIT = 9999 for four int coordinates, on the inputs where the source does not throw (see Left out) |
| BidirectionalSearch.SampleJourneys | ConsoleApp1/Program.cs:245-246 | (0,0) to (3,4) answers a walk length of at least 7 and never -1; (0,0) to (67,43) answers -1 |
| RobotSafety.DecimalString | RobotGrid.cs:11 | `ToString()` of a non-negative int is nonempty decimal digits, with a leading zero only for 0 |
| RobotSafety.ParseDecimalString | RobotGrid.cs:11 | reading the text back gives the number |
| RobotSafety.StringOfParse | RobotGrid.cs:11 | every canonical digit string is the text of the number it denotes |
| RobotSafety.CharSumIsDigitSum | RobotGrid.cs:11-12 | summing `c - '0'` over the text gives the decimal digit sum |
| RobotSafety.SafeText | RobotGrid.cs:7-14 | the rule as written: throws exactly when the wrapped product is int.MinValue, otherwise judges the digit sum of the wrapped product |
| RobotSafety.SafeTextAgrees | RobotGrid.cs:7-14 | when the product fits in an int and is not int.MinValue, the text rule equals the arithmetic rule of Program.cs |
| RobotSafety.ProductWrapMisjudges | RobotGrid.cs:9 | (65536, 65536) is judged safe although the digits of 2^32 sum to 58 |
| RobotSafety.AbsOverflowThrows | RobotGrid.cs:11 | (-65536, 32768) makes `Math.Abs` throw |
| RobotSafety.SafeTextWide | RobotGrid.cs:9-13 | with the product widened to long, the text rule is the safety rule for every pair of ints |
| RobotSafety.SampleTextVerdicts | RobotGrid.cs:75-78 | the four printed verdicts of RobotGrid's Main |
| RobotGrid.PushDistance | RobotGrid.cs:62-65 | a newly marked neighbour is enqueued at exactly its shortest-walk distance |
| RobotGrid.BfsVisit | RobotGrid.cs:60-66 | one direction: a safe unseen cell is marked and queued; queued step counts stay exact distances and stay breadth-first ordered |
| RobotGrid.BfsExpand | RobotGrid.cs:58-67 | after the four directions every safe neighbour of the dequeued cell is seen |
| RobotGrid.NoWalkOut | RobotGrid.cs:69 | an exhausted queue proves the target unreachable |
| RobotGrid.ShortestSafeJourney | RobotGrid.cs:44-70 | an unsafe end gives -1; a found target gives its exact shortest-walk distance; -1 after exhaustion means no safe walk exists |
| RobotGrid.SafeReachedAdd | RobotGrid.cs:33-36 | marking a safe neighbour of a marked cell keeps the marked cells to the origin and safe cells reachable from it |
| RobotGrid.FillExpand | RobotGrid.cs:29-38 | only safe neighbours of the dequeued cell are added, afterwards every safe neighbour of it is visited, and the queue gains no repeat and no expanded cell |
| RobotGrid.TotalSafeSquares | RobotGrid.cs:17-41 | `visited.Count` is the size of a set holding the origin and only safe cells reachable from it; an answer is that count, for a set that also holds every safe neighbour of its cells; a run that spends its fuel has dequeued `fuel` distinct cells of the set and marked every safe neighbour of each |
| RobotGrid.FillStep | RobotGrid.cs:26-38 | one turn of the loop dequeues a cell never dequeued before, so each turn expands one more distinct cell; the queue stays free of repeats and every marked cell is expanded or queued |
| RobotGrid.FillVisit | RobotGrid.cs:31-37 | one direction: the neighbour is marked afterwards whenever it is safe, only a safe neighbour of the dequeued cell is ever added, and a cell is queued only if it was not marked before |
| RobotGrid.NoFiniteClosedSet | RobotGrid.cs:26-40 | no such finite set exists (the y axis is safe and unbounded), so the fill never returns |
| RobotGrid.BoundedWalkNotShorter | ConsoleApp1/Program.cs:128-174 | no answer of the bounded bidirectional search is below the plane's shortest distance that RobotGrid's search returns |
| RobotGrid.SampleJourneys | RobotGrid.cs:82-83 | (0,0) to (3,4) answers 7 whenever the search finishes; (0,0) to (67,43) answers -1 |

## Left out

- Console output, `Main` as an entry point, and the `try`/`catch` of Program.cs `TotalSafeSquares` are not modelled. The modelled fill throws nothing, so the catch never fires.
- `EnsureCapacity` and `stackalloc` are performance details without observable effect.
- The static SafeCache/UnsafeCache are modelled as a value that each search receives and returns (`SafetyIndex.Index`), not as shared mutable state.
- GRID_LIMIT is generalised to any `limit` with `ValidLimit` (flood fill) or `SearchLimit` (bidirectional search). The wrappers `BidirectionalSearch.ShortestSafeJourney` and `ReachabilitySearch.SampleTotal` fix it to 9999.
- ReachabilitySearch.TotalSafeSquares: the early `return 0` for an unsafe origin (Program.cs:52) is omitted because the origin is always safe (`Safety.AxesAreSafe`).
- BidirectionalSearch.Journey: the contract states that an answer is the length of a safe walk, at least the Manhattan distance, and that -1 means unreachable. It does not state that the answer is the shortest length, which the method's comment promises. The search stops at the first meeting of the two sides, and that meeting is not in general on a shortest walk. `RobotGrid.BoundedWalkNotShorter` states the direction that does hold.
- BidirectionalSearch.Journey: -1 is proved to mean "unreachable" only when both ends lie in the square. An end outside the square can still be joined through its in-square neighbours, and the contract then says only that a non-negative answer is a walk.
- BidirectionalSearch.MinIndex: .NET's `PriorityQueue` does not promise an order among equal priorities. The model breaks ties towards the earliest entry, and no contract depends on that choice.
- BidirectionalSearch.ShortestSafeJourney: the model does not reproduce the overflow in `ManhattanDistance` (Program.cs:231-232). When a coordinate difference between a cell and the other end wraps to int.MinValue, `Math.Abs` throws OverflowException. From (int.MinValue, 0) to (0, 0), for example, both ends lie on an axis and are safe, and the source throws at the first `Enqueue` (Program.cs:147). The model computes the Manhattan distance without bounds and answers -1 or a walk length there. The same holds for a difference or a priority sum that wraps silently: the model orders the queue by the unwrapped priority.
- RobotGrid.ShortestSafeJourney and RobotGrid.TotalSafeSquares: the loops have no bound in the source. The model gives them `fuel`, the number of dequeues allowed, and `None` means the fuel ran out. Nothing is claimed about how much fuel a finishing search needs.
- RobotGrid.ShortestSafeJourney and RobotGrid.TotalSafeSquares use the 64-bit rule `Safety.Safe` (the corrected `RobotSafety.SafeTextWide`), not the wrapping `SafeText`. They do not model the 32-bit wrap-around of `x + dx` far from the origin either; they work on the unbounded plane.
- RobotGrid.ShortestSafeJourney: the contract does not promise that a reachable target is eventually found, because it does not bound the fuel a reachable target needs. Only an unreachable target can make the source loop forever.
- Program.cs `ShortestSafeJourney`'s comment promises a shortest path, while the code returns the first meeting. The model follows the code.

## Findings

| source | as written | input that shows it | evidently intended | confidence | as-written member | corrected member |
|---|---|---|---|---|---|---|
| ConsoleApp1/Program.cs:85-93 | `visited.Add(next)` runs before the safety test, so every in-square unsafe neighbour of a reachable cell is counted | any limit ≥ 199: (1,199) is unsafe (1+9+9 = 19) yet counted from (0,199) | count only the safe cells reachable from the origin, as the comment at line 44 says | high, not executed | ReachabilitySearch.FringeIsCounted | ReachabilitySearch.CountReachableSafe |
| RobotGrid.cs:9 | `int product = x * y` wraps modulo 2^32 | (65536, 65536): the product wraps to 0 and the cell is judged safe, but 4294967296 has digit sum 58 | compute the product in 64 bits, as Program.cs does | high, not executed | RobotSafety.ProductWrapMisjudges | RobotSafety.SafeTextWide |
| RobotGrid.cs:11 | `Math.Abs(product)` on int.MinValue throws OverflowException | (-65536, 32768): the product is exactly -2^31 | take the absolute value of a 64-bit product, which always exists | high, not executed | RobotSafety.AbsOverflowThrows | RobotSafety.SafeTextWide |
