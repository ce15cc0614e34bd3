/** C++ integer division and remainder: the quotient is truncated toward zero
    and the remainder takes the sign of the dividend (Dafny's / and % are
    Euclidean instead). */
module CppInt {
  function TruncDiv(a: int, b: int): (q: int)
    requires b > 0
    ensures a >= 0 ==> 0 <= q && b * q <= a < b * q + b
    ensures a < 0 ==> q <= 0 && b * q - b < a <= b * q
  {
    EuclideanBounds(a, b);
    EuclideanBounds(-a, b);
    if a >= 0 then a / b else -((-a) / b)
  }

  /** For a non-negative dividend, Euclidean division already truncates. */
  lemma EuclideanBounds(a: int, b: int)
    requires b > 0
    ensures a >= 0 ==> 0 <= a / b && b * (a / b) <= a < b * (a / b) + b
  {
    var q, r := a / b, a % b;
    assert a == b * q + r && 0 <= r < b;
    if q < 0 {
      assert b * q <= -b;
    }
  }

  function TruncMod(a: int, b: int): (r: int)
    requires b > 0
    ensures a == b * TruncDiv(a, b) + r
    ensures a >= 0 ==> 0 <= r < b
    ensures a < 0 ==> -b < r <= 0
  {
    if a >= 0 then a % b else -((-a) % b)
  }

  /** Truncation is symmetric: negating the dividend negates the quotient.
      (Floor division, as in Python, does not have this property.) */
  lemma TruncDivNegate(a: int, b: int)
    requires b > 0
    ensures TruncDiv(-a, b) == -TruncDiv(a, b)
  {
  }
}
