/** Integer arithmetic the solver is only given one step at a time. */
module Integers {
  lemma MulNonNegative(x: int, y: int)
    requires 0 <= x && 0 <= y
    ensures 0 <= x * y
  {
  }

  lemma MulLe(x: int, y: int, z: int)
    requires 0 <= x && y <= z
    ensures x * y <= x * z
  {
    MulNonNegative(x, z - y);
    assert x * (z - y) == x * z - x * y;
  }

  lemma Commute(x: int, y: int)
    ensures x * y == y * x
  {
  }

  lemma Foil(a: int, s: int, b: int, t: int)
    ensures (a + s) * (b + t) == a * b + a * t + b * s + s * t
  {
  }

  lemma DivModUnique(x: int, d: int, q: int, r: int)
    requires d > 0 && x == d * q + r && 0 <= r < d
    ensures x / d == q && x % d == r
  {
    var e := x / d - q;
    assert d * (x / d) + x % d == x;
    assert d * e == r - x % d by {
      assert d * e == d * (x / d) - d * q;
    }
    if e >= 1 {
      MulLe(d, 1, e);
    } else if e <= -1 {
      MulLe(d, e, -1);
    }
  }

  lemma Regroup(p: int, q: int, d: int, r: int)
    ensures (q * d + r) * p == (p * q) * d + p * r
  {
  }

  lemma Distribute(p: int, q: int)
    ensures p * (q - 1) == p * q - p
  {
  }

  lemma SumTimes(x: int, y: int, p: int)
    ensures (x + y) * p == x * p + y * p
  {
  }
}
