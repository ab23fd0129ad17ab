/** The safety rule of ConsoleApp1/Program.cs: a cell is safe when either
    coordinate is zero or the decimal digit sum of |x·y| is below 19. */
module Safety {
  import opened Coords
  import opened Bounds

  /** Digit sums of 19 or more make a cell unsafe. */
  const Threshold: nat := 19

  /** Sum of the decimal digits of `n` (0 for 0). */
  function DigitSum(n: nat): nat {
    if n == 0 then 0 else n % 10 + DigitSum(n / 10)
  }

  /** The safety rule, stated without the loop's early exit. */
  predicate IsSafe(x: int, y: int) {
    x == 0 || y == 0 || DigitSum(Abs(x * y)) < Threshold
  }

  predicate Safe(c: Coord) {
    IsSafe(c.x, c.y)
  }

  lemma MulBound(a: nat, b: nat, m: nat)
    requires a <= m && b <= m
    ensures a * b <= m * m
  {
    calc {
      a * b;
    <=  { MulMono(a, b, m); }
      a * m;
    <=  { MulMono(m, a, m); }
      m * m;
    }
  }

  lemma MulMono(k: nat, a: nat, b: nat)
    requires a <= b
    ensures k * a <= k * b
  {
  }

  /** The product of two 32-bit ints is computed in 64 bits without overflow,
      and its absolute value is representable, so `Math.Abs` cannot throw. */
  lemma ProductFitsInLong(x: int, y: int)
    requires IsInt32(x) && IsInt32(y)
    ensures IsInt64(x * y) && IsInt64(Abs(x * y))
  {
    MulBound(Abs(x), Abs(y), 0x8000_0000);
    assert Abs(x * y) == Abs(x) * Abs(y);
  }

  /** The arithmetic loop with its early exit: once the running sum reaches the
      threshold the remaining digits are skipped. The exit never changes the verdict. */
  method IsSafeEarlyExit(x: int, y: int) returns (safe: bool)
    requires IsInt32(x) && IsInt32(y)
    ensures safe == IsSafe(x, y)
  {
    if x == 0 || y == 0 {
      return true;
    }
    ProductFitsInLong(x, y);
    var product: int := x * y;
    var sum: int := 0;
    product := Abs(product);
    while product > 0 && sum < Threshold
      invariant product >= 0
      invariant sum >= 0
      invariant sum + DigitSum(product) == DigitSum(Abs(x * y))
      decreases product
    {
      sum := sum + product % 10;
      product := product / 10;
    }
    return sum < Threshold;
  }

  /** Both axes are safe, in particular the origin the flood fill starts from. */
  lemma AxesAreSafe(x: int, y: int)
    ensures IsSafe(x, 0) && IsSafe(0, y)
    ensures Safe(Origin)
  {
  }

  /** Removing the last decimal digit `d` of `n = 10·q + d`. */
  lemma Peel(n: nat, q: nat, d: nat)
    requires n == 10 * q + d && d < 10
    ensures DigitSum(n) == d + DigitSum(q)
  {
    assert n / 10 == q && n % 10 == d;
  }

  /** The sample verdicts printed by the demonstration entry point. */
  lemma SampleVerdicts()
    ensures IsSafe(3, 4)
    ensures !IsSafe(67, 43)
    ensures IsSafe(96, -69)
    ensures !IsSafe(123, 456)
  {
    Peel(12, 1, 2);
    Peel(1, 0, 1);
    Peel(2881, 288, 1);
    Peel(288, 28, 8);
    Peel(28, 2, 8);
    Peel(2, 0, 2);
    Peel(6624, 662, 4);
    Peel(662, 66, 2);
    Peel(66, 6, 6);
    Peel(6, 0, 6);
    Peel(56088, 5608, 8);
    Peel(5608, 560, 8);
    Peel(560, 56, 0);
    Peel(56, 5, 6);
    Peel(5, 0, 5);
  }
}
