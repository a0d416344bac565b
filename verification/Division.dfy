// Division with remainder.
module Division {

  lemma AtLeast(a: int, d: int)
    requires a >= 1 && d > 0
    ensures a * d >= d
  {
  }

  /** A quotient and a remainder in range are the quotient and the remainder. */
  lemma DivUnique(x: int, d: int, q: int, r: int)
    requires 0 < d && x == q * d + r && 0 <= r < d
    ensures x / d == q && x % d == r
  {
    var p, e := x / d, x % d;
    assert x == p * d + e;
    assert (p - q) * d == r - e;
    if p > q {
      AtLeast(p - q, d);
    } else if p < q {
      AtLeast(q - p, d);
    }
  }

  lemma AddMultiple(x: int, q: int, d: int)
    requires 0 < d
    ensures (x + q * d) % d == x % d
  {
    assert x == x / d * d + x % d;
    assert x + q * d == (x / d + q) * d + x % d;
    DivUnique(x + q * d, d, x / d + q, x % d);
  }
}
