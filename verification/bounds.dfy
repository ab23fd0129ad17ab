/** Machine-integer ranges of the source and its unsigned-cast bounds test. */
module Bounds {
  import opened Coords

  const Int32Min: int := -0x8000_0000
  const Int32Max: int := 0x7fff_ffff
  const Int64Min: int := -0x8000_0000_0000_0000
  const Int64Max: int := 0x7fff_ffff_ffff_ffff

  predicate IsInt32(n: int) {
    Int32Min <= n <= Int32Max
  }

  predicate IsInt64(n: int) {
    Int64Min <= n <= Int64Max
  }

  /** The grid limit used by both searches of ConsoleApp1/Program.cs. */
  const GridLimit: nat := 9999

  /** A grid limit for which `2 * limit` and every `n + limit` of a cell next to
      the square stay inside the 32-bit range. */
  predicate ValidLimit(limit: nat) {
    2 * limit + 1 <= Int32Max
  }

  /** The C# conversion `(uint)v` of a 32-bit value: reinterpretation modulo 2^32. */
  function ToUInt32(v: int): (u: nat)
    requires IsInt32(v)
    ensures u < 0x1_0000_0000
    ensures 0 <= v ==> u == v
    ensures v < 0 ==> u == v + 0x1_0000_0000
  {
    v % 0x1_0000_0000
  }

  /** Unchecked 32-bit addition of C#: the mathematical sum wrapped into the int range. */
  function Wrap32(v: int): (w: int)
    ensures IsInt32(w)
    ensures IsInt32(v) ==> w == v
    ensures Int32Max < v <= Int32Max + 0x8000_0000 ==> w == v - 0x1_0000_0000
    ensures Int32Min - 0x8000_0000 <= v < Int32Min ==> w == v + 0x1_0000_0000
  {
    (v - Int32Min) % 0x1_0000_0000 + Int32Min
  }

  /** The test `(uint)(n + limit) > (uint)(2 * limit)` with the sum computed in
      unchecked 32-bit arithmetic: it holds exactly when n lies outside
      [-limit, limit], overflow of `n + limit` included. */
  function OutsideLimit(n: int, limit: nat): (outside: bool)
    requires ValidLimit(limit) && IsInt32(n)
    ensures outside <==> (n < -(limit as int) || limit < n)
  {
    ToUInt32(Wrap32(n + limit)) > ToUInt32(2 * limit)
  }

  /** The combined test on both coordinates of a candidate cell. */
  function OutsideGrid(c: Coord, limit: nat): (outside: bool)
    requires ValidLimit(limit) && IsInt32(c.x) && IsInt32(c.y)
    ensures outside <==> !InRegion(Square(limit), c)
  {
    OutsideLimit(c.x, limit) || OutsideLimit(c.y, limit)
  }

  /** A cell whose coordinates are 32-bit ints. */
  predicate IsCell32(c: Coord) {
    IsInt32(c.x) && IsInt32(c.y)
  }

  /** `(x + dx, y + dy)` in unchecked 32-bit arithmetic. */
  function Step(c: Coord, d: Coord): (n: Coord)
    ensures IsCell32(n)
  {
    Coord(Wrap32(c.x + d.x), Wrap32(c.y + d.y))
  }

  /** The bounds test on a wrapped unit step keeps exactly the neighbours
      inside the square: a step that passes it did not wrap. */
  lemma StepNeighbour(c: Coord, d: Coord, limit: nat)
    requires ValidLimit(limit) && IsCell32(c) && Manhattan(Origin, d) == 1
    ensures InRegion(Square(limit), Step(c, d)) <==> InRegion(Square(limit), Move(c, d))
    ensures InRegion(Square(limit), Step(c, d)) ==> Step(c, d) == Move(c, d)
    ensures Move(c, d) in Neighbours(c)
  {
  }

  /** Cells of the square are 32-bit cells under a valid limit. */
  lemma SquareIsCell32(c: Coord, limit: nat)
    requires ValidLimit(limit) && InRegion(Square(limit), c)
    ensures IsCell32(c)
  {
  }
}
