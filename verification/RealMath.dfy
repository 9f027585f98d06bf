/** Facts about exact reals. */
module RealMath {

  function Abs(x: real): real { if x < 0.0 then -x else x }

  lemma PositiveProduct(x: real, y: real)
    requires x > 0.0 && y > 0.0
    ensures x * y > 0.0
  {
  }

  lemma QuotientSign(x: real, d: real)
    requires x >= 0.0 && d > 0.0
    ensures x / d >= 0.0 && (x / d == 0.0 <==> x == 0.0)
  {
    assert x / d * d == x;
    if x / d < 0.0 { PositiveProduct(-(x / d), d); }
  }
}
