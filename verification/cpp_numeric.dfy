/** C++ integer and conversion semantics the rest of the model relies on:
    `/` and `%` on `int` truncate toward zero, and `static_cast<int>` of a
    `double` drops the fractional part (toward zero, not toward minus infinity).
    Dafny's own `/` and `%` are Euclidean, so both are written out here. */
module CppNumeric {

  /** `a / b` in C++ for a positive divisor: the quotient rounded toward zero. */
  function CDiv(a: int, b: int): (q: int)
    requires b > 0
    ensures a >= 0 ==> 0 <= b * q <= a < b * q + b
    ensures a < 0 ==> b * q - b < a <= b * q <= 0
  {
    EuclideanDivision(if a >= 0 then a else -a, b);
    if a >= 0 then a / b else -((-a) / b)
  }

  /** Dafny's division of a non-negative dividend brackets it between two multiples of `b`. */
  lemma EuclideanDivision(a: int, b: int)
    requires a >= 0 && b > 0
    ensures 0 <= b * (a / b) <= a < b * (a / b) + b
  {
    var q, r := a / b, a % b;
    assert a == b * q + r && 0 <= r < b;
  }

  /** `a % b` in C++ for a positive divisor: the remainder takes the sign of `a`. */
  function CRem(a: int, b: int): (r: int)
    requires b > 0
    ensures a == b * CDiv(a, b) + r
    ensures a >= 0 ==> 0 <= r < b
    ensures a < 0 ==> -b < r <= 0
  {
    a - b * CDiv(a, b)
  }

  /** `static_cast<int>(x)`: truncation toward zero. The two ensures pin the
      result down uniquely; the int32 overflow of the cast is not modelled. */
  function TruncToInt(x: real): (n: int)
    ensures x >= 0.0 ==> 0.0 <= n as real <= x < n as real + 1.0
    ensures x < 0.0 ==> n as real - 1.0 < x <= n as real <= 0.0
  {
    if x >= 0.0 then x.Floor else -((-x).Floor)
  }

  /** Truncation is monotone, so a monotone real map stays monotone once cast. */
  lemma TruncMonotone(x: real, y: real)
    requires x <= y
    ensures TruncToInt(x) <= TruncToInt(y)
  {
  }

  /** A pre-cast value strictly between -1 and 0 lands on pixel 0, not -1. */
  lemma TruncSmallNegativeIsZero(x: real)
    requires -1.0 < x < 0.0
    ensures TruncToInt(x) == 0
  {
  }

  /** An integral value passes through the cast unchanged. */
  lemma TruncOfInteger(n: int)
    ensures TruncToInt(n as real) == n
  {
  }
}
