/** The few facts of nonlinear arithmetic that the solver needs spelled out. */
module Arith {

  lemma DivModUnique(x: int, q: int, r: int, d: int)
    requires d > 0 && 0 <= r < d && x == q * d + r
    ensures x / d == q && x % d == r
  {
    var e := x / d - q;
    assert x == (x / d) * d + x % d;
    assert e * d == r - x % d;
    assert (e >= 1 ==> e * d >= d) && (e <= -1 ==> e * d <= -d);
  }

  lemma MulSwap(a: int, b: int, x: int, y: int)
    ensures (a * b) * (x * y) == (a * x) * (b * y)
  {
    assert b * (x * y) == x * (b * y);
    assert (a * b) * (x * y) == a * (b * (x * y));
    assert (a * x) * (b * y) == a * (x * (b * y));
  }
}
