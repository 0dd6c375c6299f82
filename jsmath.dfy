/** The JavaScript number operations the converter uses, over exact reals. */
module JsMath {

  /** True when x has no fractional part. */
  predicate IsInteger(x: real)
  {
    x == x.Floor as real
  }

  /** An integer converted to a real is an integer. */
  lemma IntegerIsInteger(n: int)
    ensures IsInteger(n as real)
  {
  }

  /** `Math.abs`. */
  function Abs(x: real): (r: real)
    ensures r >= 0.0
    ensures r == x || r == -x
  {
    if x < 0.0 then -x else x
  }

  /** `Math.floor`: the largest integer not above x. */
  function Floor(x: real): (r: int)
    ensures r as real <= x < r as real + 1.0
  {
    x.Floor
  }

  /** `Math.round`: the nearest integer, halves rounding up (towards positive
      infinity), so `Round(-2.5) == -2`. */
  function Round(x: real): (r: int)
    ensures r as real - 0.5 <= x < r as real + 0.5
  {
    Floor(x + 0.5)
  }

  /** `x % 1`: the fractional part, with the sign of the dividend, as the
      JavaScript remainder truncates towards zero. */
  function Rem1(x: real): (r: real)
    ensures -1.0 < r < 1.0
    ensures x >= 0.0 ==> r >= 0.0
    ensures x <= 0.0 ==> r <= 0.0
    ensures IsInteger(x - r)
  {
    if x >= 0.0 then
      var n := Floor(x);
      assert x - (x - n as real) == n as real;
      IntegerIsInteger(n);
      x - n as real
    else
      var n := Floor(-x);
      assert x - (x + n as real) == (-n) as real;
      IntegerIsInteger(-n);
      x + n as real
  }

  /** The nearest integer is the integer itself. */
  lemma RoundOfInteger(n: int)
    ensures Round(n as real) == n
  {
  }
}
