/** Safe walks: sequences of unit moves through safe cells whose interior
    stays inside a region. Both searches are judged against these. */
module Walks {
  import opened Coords
  import opened Safety

  function Last(w: seq<Coord>): Coord
    requires |w| > 0
  {
    w[|w| - 1]
  }

  /** Every cell of `w` is safe, consecutive cells are one unit move apart, and
      every cell strictly between the two ends lies in `r`. The ends are left
      free because the bidirectional search never bounds-tests its endpoints. */
  ghost predicate IsWalk(r: Region, w: seq<Coord>) {
    && |w| > 0
    && (forall i :: 0 <= i < |w| ==> Safe(w[i]))
    && (forall i :: 0 < i < |w| - 1 ==> InRegion(r, w[i]))
    && (forall i :: 0 <= i < |w| - 1 ==> Adjacent(w[i], w[i + 1]))
  }

  /** Some walk in `r` leads from `a` to `b` in exactly `n` unit moves. */
  ghost predicate Joins(r: Region, a: Coord, b: Coord, n: nat) {
    exists w :: IsWalk(r, w) && w[0] == a && Last(w) == b && |w| == n + 1
  }

  ghost predicate Reachable(r: Region, a: Coord, b: Coord) {
    exists n: nat :: Joins(r, a, b, n)
  }

  /** No walk in `r` from `a` to `b` is shorter than `m` moves. */
  ghost predicate LowerBound(r: Region, a: Coord, b: Coord, m: int) {
    forall n: nat :: Joins(r, a, b, n) ==> m <= n
  }

  /** `d` is the length of a shortest walk in `r` from `a` to `b`. */
  ghost predicate IsDistance(r: Region, a: Coord, b: Coord, d: nat) {
    Joins(r, a, b, d) && LowerBound(r, a, b, d)
  }

  lemma JoinsSelf(r: Region, a: Coord)
    requires Safe(a)
    ensures Joins(r, a, a, 0)
  {
    assert IsWalk(r, [a]);
  }

  /** A walk of no moves stays where it started. */
  lemma JoinsNone(r: Region, a: Coord, b: Coord)
    requires Joins(r, a, b, 0)
    ensures a == b && Safe(a)
  {
    var w :| IsWalk(r, w) && w[0] == a && Last(w) == b && |w| == 1;
  }

  lemma JoinsEndsSafe(r: Region, a: Coord, b: Coord, n: nat)
    requires Joins(r, a, b, n)
    ensures Safe(a) && Safe(b)
  {
    var w :| IsWalk(r, w) && w[0] == a && Last(w) == b && |w| == n + 1;
    assert Safe(w[0]) && Safe(w[|w| - 1]);
  }

  lemma ReachableEndsSafe(r: Region, a: Coord, b: Coord)
    ensures Reachable(r, a, b) ==> Safe(a) && Safe(b)
  {
    if Reachable(r, a, b) {
      var n: nat :| Joins(r, a, b, n);
      JoinsEndsSafe(r, a, b, n);
    }
  }

  /** One more unit move onto a safe cell extends a walk, provided the cell
      left behind becomes a legal interior cell. */
  lemma JoinsExtend(r: Region, a: Coord, c: Coord, n: nat, d: Coord)
    requires Joins(r, a, c, n)
    requires n == 0 || InRegion(r, c)
    requires Safe(d) && Adjacent(c, d)
    ensures Joins(r, a, d, n + 1)
  {
    var w :| IsWalk(r, w) && w[0] == a && Last(w) == c && |w| == n + 1;
    var w' := w + [d];
    assert forall i :: 0 <= i < |w| ==> w'[i] == w[i];
    assert IsWalk(r, w');
  }

  /** Reachability inside a region extends by one move from a region cell. */
  lemma ReachableStep(r: Region, a: Coord, c: Coord, d: Coord)
    requires Reachable(r, a, c) && InRegion(r, c)
    requires Safe(d) && Adjacent(c, d)
    ensures Reachable(r, a, d)
  {
    var n: nat :| Joins(r, a, c, n);
    JoinsExtend(r, a, c, n, d);
  }

  function Reverse(w: seq<Coord>): (v: seq<Coord>)
    ensures |v| == |w|
    ensures forall i :: 0 <= i < |w| ==> v[i] == w[|w| - 1 - i]
  {
    if w == [] then [] else Reverse(w[1..]) + [w[0]]
  }

  /** Walks can be followed backwards. */
  lemma JoinsReverse(r: Region, a: Coord, b: Coord, n: nat)
    requires Joins(r, a, b, n)
    ensures Joins(r, b, a, n)
  {
    var w :| IsWalk(r, w) && w[0] == a && Last(w) == b && |w| == n + 1;
    var v := Reverse(w);
    forall i | 0 <= i < |v| - 1
      ensures Adjacent(v[i], v[i + 1])
    {
      assert v[i] == w[|w| - 1 - i] && v[i + 1] == w[|w| - 1 - i - 1];
      assert Adjacent(w[|w| - 2 - i], w[|w| - 2 - i + 1]);
    }
    assert IsWalk(r, v);
  }

  /** Two walks glued at a common cell form one walk, provided the common
      cell is a legal interior cell or one of the walks is empty. */
  lemma JoinsConcat(r: Region, a: Coord, m: Coord, b: Coord, n1: nat, n2: nat)
    requires Joins(r, a, m, n1) && Joins(r, m, b, n2)
    requires n1 == 0 || n2 == 0 || InRegion(r, m)
    ensures Joins(r, a, b, n1 + n2)
  {
    var w1 :| IsWalk(r, w1) && w1[0] == a && Last(w1) == m && |w1| == n1 + 1;
    var w2 :| IsWalk(r, w2) && w2[0] == m && Last(w2) == b && |w2| == n2 + 1;
    var w := w1 + w2[1..];
    assert forall i :: 0 <= i < |w1| ==> w[i] == w1[i];
    assert forall i :: |w1| <= i < |w| ==> w[i] == w2[i - |w1| + 1];
    forall i | 0 <= i < |w| - 1
      ensures Adjacent(w[i], w[i + 1])
    {
      if i < |w1| - 1 {
        assert Adjacent(w1[i], w1[i + 1]);
      } else {
        var j := i - |w1| + 1;
        assert w[i] == w2[j] && w[i + 1] == w2[j + 1];
        assert Adjacent(w2[j], w2[j + 1]);
      }
    }
    assert IsWalk(r, w);
  }

  /** A forward half from `a` and a backward half from `b` meeting at `m`
      make a walk from `a` to `b`. */
  lemma JoinsMeet(r: Region, a: Coord, b: Coord, m: Coord, n1: nat, n2: nat)
    requires Joins(r, a, m, n1) && Joins(r, b, m, n2)
    requires n1 == 0 || n2 == 0 || InRegion(r, m)
    ensures Joins(r, a, b, n1 + n2)
  {
    JoinsReverse(r, b, m, n2);
    JoinsConcat(r, a, m, b, n1, n2);
  }

  /** Every unit move changes the Manhattan distance by at most one, so a
      walk is never shorter than the distance between its ends. */
  lemma {:induction false} WalkAtLeastManhattan(r: Region, w: seq<Coord>)
    requires IsWalk(r, w)
    ensures |w| - 1 >= Manhattan(w[0], Last(w))
    decreases |w|
  {
    if |w| > 1 {
      var p := w[..|w| - 1];
      assert IsWalk(r, p);
      WalkAtLeastManhattan(r, p);
      assert Adjacent(Last(p), Last(w));
    }
  }

  /** The Manhattan heuristic is admissible. */
  lemma JoinsAtLeastManhattan(r: Region, a: Coord, b: Coord, n: nat)
    requires Joins(r, a, b, n)
    ensures Manhattan(a, b) <= n
  {
    var w :| IsWalk(r, w) && w[0] == a && Last(w) == b && |w| == n + 1;
    WalkAtLeastManhattan(r, w);
  }

  predicate SubRegion(r: Region, r': Region) {
    r'.Unbounded? || (r.Square? && r.limit <= r'.limit)
  }

  /** A walk inside a region is a walk inside every larger region. */
  lemma JoinsWiden(r: Region, r': Region, a: Coord, b: Coord, n: nat)
    requires SubRegion(r, r') && Joins(r, a, b, n)
    ensures Joins(r', a, b, n)
  {
    var w :| IsWalk(r, w) && w[0] == a && Last(w) == b && |w| == n + 1;
    assert IsWalk(r', w);
  }

  /** Every safe neighbour in `r` of a cell of `s` belongs to `v`. */
  ghost predicate ClosedUnder(r: Region, s: set<Coord>, v: set<Coord>) {
    forall c, n :: c in s && n in Neighbours(c) && InRegion(r, n) && Safe(n) ==> n in v
  }

  /** A walk that starts in a set closed under safe moves never leaves it. */
  lemma {:induction false} WalkStaysInside(r: Region, v: set<Coord>, w: seq<Coord>)
    requires IsWalk(r, w) && w[0] in v && InRegion(r, Last(w))
    requires ClosedUnder(r, v, v)
    ensures Last(w) in v
    decreases |w|
  {
    if |w| > 1 {
      var p := w[..|w| - 1];
      assert IsWalk(r, p);
      assert Last(p) == w[|w| - 2];
      if |w| > 2 {
        assert InRegion(r, w[|w| - 2]);
        WalkStaysInside(r, v, p);
      }
      assert Adjacent(Last(p), Last(w)) && Safe(Last(w));
    }
  }

  /** Nothing outside a closed set containing `a` is reachable from `a`. */
  lemma ClosedSetContainsReachable(r: Region, v: set<Coord>, a: Coord, c: Coord)
    requires a in v && ClosedUnder(r, v, v)
    requires InRegion(r, c) && Reachable(r, a, c)
    ensures c in v
  {
    var n: nat :| Joins(r, a, c, n);
    var w :| IsWalk(r, w) && w[0] == a && Last(w) == c && |w| == n + 1;
    WalkStaysInside(r, v, w);
  }

  /** The breadth-first layering argument: if every cell of `v` outside the
      frontier `f` has all its safe neighbours in `v`, and no frontier cell is
      reachable from `a` in fewer than `m` moves, then leaving `v` costs at
      least `m + 1` moves. */
  lemma {:induction false} EscapeCost(r: Region, v: set<Coord>, f: set<Coord>, m: int, a: Coord, w: seq<Coord>)
    requires IsWalk(r, w) && w[0] == a && a in v
    requires Last(w) !in v && InRegion(r, Last(w))
    requires f <= v && ClosedUnder(r, v - f, v)
    requires forall c :: c in f ==> LowerBound(r, a, c, m)
    ensures |w| - 1 >= m + 1
    decreases |w|
  {
    var p := w[..|w| - 1];
    assert IsWalk(r, p);
    var c := Last(p);
    assert c == w[|w| - 2] && Adjacent(c, Last(w)) && Safe(Last(w));
    if c !in v {
      assert InRegion(r, c) by {
        assert 0 < |w| - 2;
      }
      EscapeCost(r, v, f, m, a, p);
    } else {
      assert Last(w) in Neighbours(c);
      assert c in f;
      assert Joins(r, a, c, |p| - 1);
    }
  }

  /** The cost bound of `EscapeCost`, stated for every walk at once. */
  lemma OutsideLowerBound(r: Region, v: set<Coord>, f: set<Coord>, m: int, a: Coord, c: Coord)
    requires a in v && c !in v && InRegion(r, c)
    requires f <= v && ClosedUnder(r, v - f, v)
    requires forall d :: d in f ==> LowerBound(r, a, d, m)
    ensures LowerBound(r, a, c, m + 1)
  {
    forall n: nat | Joins(r, a, c, n)
      ensures m + 1 <= n
    {
      var w :| IsWalk(r, w) && w[0] == a && Last(w) == c && |w| == n + 1;
      EscapeCost(r, v, f, m, a, w);
    }
  }

  /** The journey of both Main methods: (0, 0) to (3, 4) takes 7 moves, along
      the x axis and then up x = 3, inside the square of half-width 4 and in the
      whole plane alike. */
  lemma SampleJourneyDistance(r: Region)
    requires r.Unbounded? || r.limit >= 4
    ensures IsDistance(r, Origin, Coord(3, 4), 7)
  {
    SampleWalk(r);
    forall n: nat | Joins(r, Origin, Coord(3, 4), n)
      ensures 7 <= n
    {
      JoinsAtLeastManhattan(r, Origin, Coord(3, 4), n);
    }
  }

  lemma SampleWalk(r: Region)
    requires r.Unbounded? || r.limit >= 4
    ensures Joins(r, Origin, Coord(3, 4), 7)
  {
    AxesAreSafe(3, 0);
    JoinsSelf(r, Origin);
    JoinsExtend(r, Origin, Coord(0, 0), 0, Coord(1, 0));
    JoinsExtend(r, Origin, Coord(1, 0), 1, Coord(2, 0));
    JoinsExtend(r, Origin, Coord(2, 0), 2, Coord(3, 0));
    assert DigitSum(3) == 3;
    JoinsExtend(r, Origin, Coord(3, 0), 3, Coord(3, 1));
    assert DigitSum(6) == 6;
    JoinsExtend(r, Origin, Coord(3, 1), 4, Coord(3, 2));
    assert DigitSum(9) == 9;
    JoinsExtend(r, Origin, Coord(3, 2), 5, Coord(3, 3));
    SampleVerdicts();
    JoinsExtend(r, Origin, Coord(3, 3), 6, Coord(3, 4));
  }

  /** The first `k` directions of `dirs` from `c` lead outside `r`, to an
      unsafe cell, or to a cell of `v`: the progress of a search's loop over
      the directions of one expanded cell. */
  ghost predicate Handled(r: Region, dirs: seq<Coord>, c: Coord, k: int, v: set<Coord>)
    requires 0 <= k <= |dirs|
  {
    forall j :: 0 <= j < k ==> (InRegion(r, Move(c, dirs[j])) && Safe(Move(c, dirs[j])) ==> Move(c, dirs[j]) in v)
  }

  lemma HandledStep(r: Region, dirs: seq<Coord>, c: Coord, k: int, v: set<Coord>, v': set<Coord>)
    requires 0 <= k < |dirs| && Handled(r, dirs, c, k, v) && v <= v'
    requires InRegion(r, Move(c, dirs[k])) && Safe(Move(c, dirs[k])) ==> Move(c, dirs[k]) in v'
    ensures Handled(r, dirs, c, k + 1, v')
  {
  }
}
