/** The safety rule of RobotGrid.cs, which sums the characters of the decimal
    text of |x·y| where the product is computed in 32-bit int arithmetic. */
module RobotSafety {
  import opened Coords
  import opened Bounds
  import opened Safety

  datatype Option<T> = None | Some(value: T)

  predicate IsDigitChar(c: char) {
    '0' <= c <= '9'
  }

  /** `c - '0'` for a digit character. */
  function DigitValue(c: char): (d: nat)
    requires IsDigitChar(c)
    ensures d < 10
  {
    c as int - '0' as int
  }

  /** The character of a decimal digit. */
  function DigitChar(d: nat): (c: char)
    requires d < 10
    ensures IsDigitChar(c) && c as int - '0' as int == d
  {
    ('0' as int + d) as char
  }

  /** The text `ToString()` produces for a non-negative int: decimal digits,
      without sign and without leading zeros. */
  function DecimalString(n: nat): (s: string)
    ensures |s| > 0
    ensures forall i :: 0 <= i < |s| ==> IsDigitChar(s[i])
    ensures s[0] == '0' <==> n == 0
    decreases n
  {
    if n < 10 then [DigitChar(n)] else DecimalString(n / 10) + [DigitChar(n % 10)]
  }

  /** `sum += c - '0'` over every character. */
  function CharSum(s: string): int {
    if |s| == 0 then 0 else CharSum(s[..|s| - 1]) + (s[|s| - 1] as int - '0' as int)
  }

  /** The value a string of decimal digits denotes. */
  function ParseDecimal(s: string): nat
    requires forall i :: 0 <= i < |s| ==> IsDigitChar(s[i])
  {
    if |s| == 0 then 0 else ParseDecimal(s[..|s| - 1]) * 10 + DigitValue(s[|s| - 1])
  }

  /** A well-formed decimal text: nonempty digits, no leading zero unless it is "0". */
  predicate Canonical(s: string) {
    && |s| > 0
    && (forall i :: 0 <= i < |s| ==> IsDigitChar(s[i]))
    && (s[0] == '0' ==> |s| == 1)
  }

  /** Summing the characters of the text gives the digit sum of the number. */
  lemma {:induction false} CharSumIsDigitSum(n: nat)
    ensures CharSum(DecimalString(n)) == DigitSum(n)
    decreases n
  {
    if n >= 10 {
      var s := DecimalString(n);
      assert s[..|s| - 1] == DecimalString(n / 10);
      CharSumIsDigitSum(n / 10);
    }
  }

  /** Reading the text back gives the number. */
  lemma {:induction false} ParseDecimalString(n: nat)
    ensures ParseDecimal(DecimalString(n)) == n
    decreases n
  {
    if n >= 10 {
      var s := DecimalString(n);
      assert s[..|s| - 1] == DecimalString(n / 10);
      ParseDecimalString(n / 10);
    }
  }

  lemma {:induction false} ParseBelow(s: string)
    requires forall i :: 0 <= i < |s| ==> IsDigitChar(s[i])
    requires |s| > 1 && s[0] != '0'
    ensures ParseDecimal(s) >= 10
    decreases |s|
  {
    var p := s[..|s| - 1];
    if |p| > 1 {
      ParseBelow(p);
    } else {
      assert p == [s[0]];
      assert ParseDecimal(p) == ParseDecimal([]) * 10 + DigitValue(s[0]);
    }
  }

  /** Every canonical text is the text of the number it denotes. */
  lemma {:induction false} StringOfParse(s: string)
    requires Canonical(s)
    ensures DecimalString(ParseDecimal(s)) == s
    decreases |s|
  {
    var n := ParseDecimal(s);
    var p := s[..|s| - 1];
    if |s| == 1 {
      assert ParseDecimal(s) == ParseDecimal([]) * 10 + DigitValue(s[0]);
      assert DecimalString(n) == [DigitChar(n)];
    } else {
      assert p[0] == s[0];
      ParseBelow(s);
      StringOfParse(p);
      assert n / 10 == ParseDecimal(p) && n % 10 == DigitValue(s[|s| - 1]);
      assert DecimalString(n) == DecimalString(n / 10) + [DigitChar(n % 10)];
      assert s == p + [s[|s| - 1]];
    }
  }

  /** RobotGrid's IsSafe as written: `int product = x * y` wraps modulo 2^32,
      `Math.Abs` throws on int.MinValue (`None`), and the digits of the text of
      the absolute value are summed. The axes need no special case: a zero
      product prints as "0". */
  function SafeText(x: int, y: int): (r: Option<bool>)
    requires IsInt32(x) && IsInt32(y)
    ensures r == None <==> Wrap32(x * y) == Int32Min
    ensures r != None ==> r.value == (DigitSum(Abs(Wrap32(x * y))) < Threshold)
  {
    var product := Wrap32(x * y);
    if product == Int32Min then None
    else
      CharSumIsDigitSum(Abs(product));
      Some(CharSum(DecimalString(Abs(product))) < Threshold)
  }

  /** When the product fits in an int and is not int.MinValue, the text rule
      and the arithmetic rule of Program.cs agree. */
  lemma SafeTextAgrees(x: int, y: int)
    requires IsInt32(x) && IsInt32(y) && IsInt32(x * y) && x * y != Int32Min
    ensures SafeText(x, y) == Some(IsSafe(x, y))
  {
  }

  /** The product 65536 · 65536 = 2^32 wraps to 0, so the cell is judged safe,
      although the digits of 4294967296 sum to 58. */
  lemma ProductWrapMisjudges()
    ensures SafeText(65536, 65536) == Some(true)
    ensures !IsSafe(65536, 65536)
  {
    assert 65536 * 65536 == 4294967296;
    assert Wrap32(4294967296) == 0;
    DigitSumOfTwoTo32();
  }

  lemma DigitSumOfTwoTo32()
    ensures DigitSum(4294967296) == 58
  {
    Peel(4294967296, 429496729, 6);
    Peel(429496729, 42949672, 9);
    Peel(42949672, 4294967, 2);
    Peel(4294967, 429496, 7);
    Peel(429496, 42949, 6);
    Peel(42949, 4294, 9);
    Peel(4294, 429, 4);
    Peel(429, 42, 9);
    Peel(42, 4, 2);
    Peel(4, 0, 4);
  }

  /** The product -65536 · 32768 is exactly int.MinValue, whose absolute value
      `Math.Abs` cannot represent: the call throws instead of answering. */
  lemma AbsOverflowThrows()
    ensures SafeText(-65536, 32768) == None
  {
  }

  /** The rule with the product widened to 64 bits, as Program.cs computes it:
      the absolute value always exists and the verdict is the safety rule for
      every pair of ints. */
  function SafeTextWide(x: int, y: int): (r: bool)
    requires IsInt32(x) && IsInt32(y)
    ensures r == IsSafe(x, y)
  {
    var product := x * y;
    ProductFitsInLong(x, y);
    CharSumIsDigitSum(Abs(product));
    assert x == 0 || y == 0 ==> Abs(product) == 0;
    CharSum(DecimalString(Abs(product))) < Threshold
  }

  /** The four verdicts printed by RobotGrid's Main: their products fit in an
      int, so the text rule answers as the arithmetic one. */
  lemma SampleTextVerdicts()
    ensures SafeText(3, 4) == Some(true)
    ensures SafeText(67, 43) == Some(false)
    ensures SafeText(96, -69) == Some(true)
    ensures SafeText(123, 456) == Some(false)
  {
    SampleVerdicts();
    SafeTextAgrees(3, 4);
    SafeTextAgrees(67, 43);
    SafeTextAgrees(96, -69);
    SafeTextAgrees(123, 456);
  }
}
