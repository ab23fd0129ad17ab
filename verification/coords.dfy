/** Grid cells, the four unit moves, the Manhattan heuristic and the square
    search region shared by every search in the model. */
module Coords {

  /** A grid cell; the source keys every set and dictionary by the tuple (int, int). */
  datatype Coord = Coord(x: int, y: int)

  const Origin := Coord(0, 0)

  function Abs(n: int): nat {
    if n < 0 then -n else n
  }

  /** The search heuristic |dx| + |dy|, over unbounded integers. */
  function Manhattan(a: Coord, b: Coord): nat {
    Abs(a.x - b.x) + Abs(a.y - b.y)
  }

  /** Two cells one unit move apart. */
  predicate Adjacent(a: Coord, b: Coord) {
    Manhattan(a, b) == 1
  }

  function Move(c: Coord, d: Coord): Coord {
    Coord(c.x + d.x, c.y + d.y)
  }

  /** The four cells one unit move away from `c`. */
  function Neighbours(c: Coord): (ns: set<Coord>)
    ensures forall n :: n in ns <==> Adjacent(c, n)
  {
    {Coord(c.x, c.y + 1), Coord(c.x, c.y - 1), Coord(c.x + 1, c.y), Coord(c.x - 1, c.y)}
  }

  /** Direction order of both flood fills and of the plain breadth-first search. */
  const FloodDirections: seq<Coord> := [Coord(0, 1), Coord(0, -1), Coord(1, 0), Coord(-1, 0)]

  /** Clockwise direction order of the bidirectional search. */
  const SearchDirections: seq<Coord> := [Coord(1, 0), Coord(0, 1), Coord(-1, 0), Coord(0, -1)]

  /** Both direction lists name the four unit moves, so moving along the
      listed directions reaches exactly the neighbours of a cell. */
  lemma DirectionsEnumerateNeighbours(dirs: seq<Coord>, c: Coord)
    requires dirs == FloodDirections || dirs == SearchDirections
    ensures |dirs| == 4
    ensures forall i :: 0 <= i < 4 ==> Move(c, dirs[i]) in Neighbours(c)
    ensures forall n :: n in Neighbours(c) ==>
              n == Move(c, dirs[0]) || n == Move(c, dirs[1]) || n == Move(c, dirs[2]) || n == Move(c, dirs[3])
  {
  }

  /** The area searches may visit: everything, or the closed square [-limit, limit]². */
  datatype Region = Unbounded | Square(limit: nat)

  predicate InRegion(r: Region, c: Coord) {
    match r
    case Unbounded => true
    case Square(l) => Abs(c.x) <= l && Abs(c.y) <= l
  }

  function Interval(lo: int, hi: int): (s: set<int>)
    ensures forall i :: i in s <==> lo <= i <= hi
    decreases hi - lo
  {
    if hi < lo then {} else Interval(lo, hi - 1) + {hi}
  }

  function Grid(xs: set<int>, ys: set<int>): set<Coord> {
    set x, y | x in xs && y in ys :: Coord(x, y)
  }

  /** The cells of the square region as a finite set. */
  function Box(limit: nat): set<Coord> {
    Grid(Interval(-(limit as int), limit), Interval(-(limit as int), limit))
  }

  /** Membership of the square's cell set is membership of the region. */
  lemma InBox(c: Coord, limit: nat)
    ensures c in Box(limit) <==> InRegion(Square(limit), c)
  {
    if InRegion(Square(limit), c) {
      var xs := Interval(-(limit as int), limit);
      assert c.x in xs && c.y in xs;
      assert c in Grid(xs, xs);
    }
  }

  lemma SubsetSmaller<T>(a: set<T>, b: set<T>)
    requires a <= b
    ensures |a| <= |b|
  {
    assert b == a + (b - a);
  }

  lemma ProperSubsetSmaller<T>(a: set<T>, b: set<T>)
    requires a < b
    ensures |a| < |b|
  {
    assert b == a + (b - a);
  }

  lemma {:induction false} IntervalSize(lo: int, hi: int)
    requires lo <= hi + 1
    ensures |Interval(lo, hi)| == hi - lo + 1
    decreases hi - lo + 1
  {
    if lo <= hi {
      IntervalSize(lo, hi - 1);
    }
  }

  lemma {:induction false} RowSize(x: int, lo: int, hi: int)
    requires lo <= hi + 1
    ensures |Grid({x}, Interval(lo, hi))| == hi - lo + 1
    decreases hi - lo + 1
  {
    if lo <= hi {
      RowSize(x, lo, hi - 1);
      assert Grid({x}, Interval(lo, hi)) == Grid({x}, Interval(lo, hi - 1)) + {Coord(x, hi)};
    } else {
      assert Grid({x}, Interval(lo, hi)) == {};
    }
  }

  lemma GridSplit(lo: int, hi: int, ys: set<int>)
    requires lo <= hi
    ensures Grid(Interval(lo, hi), ys) == Grid(Interval(lo, hi - 1), ys) + Grid({hi}, ys)
    ensures Grid(Interval(lo, hi - 1), ys) !! Grid({hi}, ys)
  {
  }

  lemma MulSucc(a: int, b: int)
    ensures (a + 1) * b == a * b + b
  {
  }

  lemma {:induction false} GridSize(lo: int, hi: int, lo2: int, hi2: int, width: nat)
    requires lo <= hi + 1 && width == hi2 - lo2 + 1
    ensures |Grid(Interval(lo, hi), Interval(lo2, hi2))| == (hi - lo + 1) * width
    decreases hi - lo + 1
  {
    var ys := Interval(lo2, hi2);
    if lo <= hi {
      GridSize(lo, hi - 1, lo2, hi2, width);
      RowSize(hi, lo2, hi2);
      GridSplit(lo, hi, ys);
      var rest, row := Grid(Interval(lo, hi - 1), ys), Grid({hi}, ys);
      assert |rest + row| == |rest| + |row|;
      MulSucc(hi - lo, width);
      assert |Grid(Interval(lo, hi), ys)| == (hi - lo) * width + width;
    } else {
      assert Interval(lo, hi) == {};
      assert Grid({}, ys) == {};
      assert hi - lo + 1 == 0;
    }
  }

  /** The square region [-limit, limit]² holds exactly (2·limit + 1)² cells. */
  lemma BoxSize(limit: nat)
    ensures |Box(limit)| == (2 * limit + 1) * (2 * limit + 1)
  {
    GridSize(-(limit as int), limit, -(limit as int), limit, 2 * limit + 1);
  }

  /** A set of cells of the square region has at most (2·limit + 1)² members. */
  lemma InsideBoxBounded(s: set<Coord>, limit: nat)
    requires forall c :: c in s ==> InRegion(Square(limit), c)
    ensures |s| <= (2 * limit + 1) * (2 * limit + 1)
  {
    SubsetSmaller(s, Box(limit));
    BoxSize(limit);
  }

  /** The Manhattan distance is a metric on the grid. */
  lemma ManhattanMetric(a: Coord, b: Coord, c: Coord)
    ensures Manhattan(a, b) == Manhattan(b, a)
    ensures Manhattan(a, a) == 0
    ensures Manhattan(a, c) <= Manhattan(a, b) + Manhattan(b, c)
  {
  }

  /** Consistency of the heuristic: one unit move changes the distance to any
      goal by at most one. */
  lemma ManhattanConsistent(a: Coord, b: Coord, goal: Coord)
    requires Adjacent(a, b)
    ensures Manhattan(a, goal) <= Manhattan(b, goal) + 1
    ensures Manhattan(b, goal) <= Manhattan(a, goal) + 1
  {
  }
}
