/** Powers, and numbers that leave the same remainder. */
module Congruences {
  import opened Integers

  function Pow(b: int, e: nat): int
  {
    if e == 0 then 1 else b * Pow(b, e - 1)
  }

  lemma {:induction false} PowAdd(b: int, j: nat, k: nat)
    ensures Pow(b, j + k) == Pow(b, j) * Pow(b, k)
  {
    if j > 0 {
      PowAdd(b, j - 1, k);
      Associate(b, Pow(b, j - 1), Pow(b, k));
    }
  }

  lemma Associate(x: int, y: int, z: int)
    ensures (x * y) * z == x * (y * z)
  {
  }

  lemma {:induction false} PowNegative(b: int, e: nat)
    ensures Pow(-b, e) == if e % 2 == 0 then Pow(b, e) else -Pow(b, e)
  {
    if e > 0 {
      PowNegative(b, e - 1);
      assert (-b) * -Pow(b, e - 1) == b * Pow(b, e - 1);
      assert (-b) * Pow(b, e - 1) == -(b * Pow(b, e - 1));
    }
  }

  predicate Congruent(a: int, b: int, m: int)
    requires m >= 1
  {
    a % m == b % m
  }

  lemma FromMultiple(a: int, b: int, m: int, k: int)
    requires m >= 1 && a == b + m * k
    ensures Congruent(a, b, m)
  {
    SumTimes(b / m, k, m);
    Commute(b / m + k, m);
    Commute(b / m, m);
    Commute(k, m);
    DivModUnique(a, m, b / m + k, b % m);
  }

  lemma ToMultiple(a: int, b: int, m: int) returns (k: int)
    requires m >= 1 && Congruent(a, b, m)
    ensures a == b + m * k
  {
    k := a / m - b / m;
    assert a == m * (a / m) + a % m && b == m * (b / m) + b % m;
    assert m * k == m * (a / m) - m * (b / m);
  }

  lemma Product(a: int, a': int, b: int, b': int, m: int)
    requires m >= 1 && Congruent(a, a', m) && Congruent(b, b', m)
    ensures Congruent(a * b, a' * b', m)
  {
    var k1 := ToMultiple(a, a', m);
    var k2 := ToMultiple(b, b', m);
    Foil(a', m * k1, b', m * k2);
    Collect(a', b', m, k1, k2);
    FromMultiple(a * b, a' * b', m, a' * k2 + b' * k1 + (m * k1) * k2);
  }

  lemma Collect(a: int, b: int, m: int, k1: int, k2: int)
    ensures a * (m * k2) + b * (m * k1) + (m * k1) * (m * k2) == m * (a * k2 + b * k1 + (m * k1) * k2)
  {
    assert a * (m * k2) == m * (a * k2);
    assert b * (m * k1) == m * (b * k1);
    Associate(m * k1, m, k2);
    assert (m * k1) * (m * k2) == m * ((m * k1) * k2);
  }

  /** A factor that has an inverse can be dropped. */
  lemma Cancel(x: int, y: int, r: int, inverse: int, m: int)
    requires m >= 1 && Congruent(r * inverse, 1, m) && Congruent(x * r, y * r, m)
    ensures Congruent(x, y, m)
  {
    Product(x * r, y * r, inverse, inverse, m);
    Associate(x, r, inverse);
    Associate(y, r, inverse);
    Product(x, x, r * inverse, 1, m);
    Product(y, y, r * inverse, 1, m);
  }

  // Reduction of a product to a residue.

  /**
    Division: remainders by m. Montgomery: numbers below r that stand for their r-th part
    modulo m; neg is the negated inverse of m modulo r.
   */
  datatype Reducer = Division(m: nat) | Montgomery(m: nat, r: nat, neg: nat)

  predicate Usable(d: Reducer)
  {
    && d.m >= 1
    && (d.Montgomery? ==> d.r > d.m && (d.m * d.neg + 1) % d.r == 0)
  }

  function RadixOf(d: Reducer): nat
  {
    if d.Division? then 1 else d.r
  }

  /** A residue is a number below this. */
  function Bound(d: Reducer): nat
  {
    if d.Division? then d.m else d.r
  }

  function Redc(t: int, m: int, r: int, neg: int): int
    requires r >= 1
  {
    var q := (t * neg) % r;
    var s := (t + q * m) / r;
    if s >= r then s - m else s
  }

  function Reduce(d: Reducer, t: nat): int
    requires Usable(d)
  {
    if d.Division? then t % d.m else Redc(t, d.m, d.r, d.neg)
  }

  /** The Montgomery sum is a multiple of r. */
  lemma RedcExact(t: int, m: int, r: int, neg: int)
    requires r >= 1 && (m * neg + 1) % r == 0
    ensures (t + (t * neg) % r * m) % r == 0
  {
    var q := (t * neg) % r;
    ModTwice(t * neg, r);
    Product(q, t * neg, m, m, r);
    var k := ToMultiple(q * m, (t * neg) * m, r);
    var j := (m * neg + 1) / r;
    RedcMultiple(t, m, r, neg, q * m, k, j);
    DivModUnique(t + q * m, r, t * j + k, 0);
  }

  lemma RedcMultiple(t: int, m: int, r: int, neg: int, x: int, k: int, j: int)
    requires m * neg + 1 == r * j && x == (t * neg) * m + r * k
    ensures t + x == r * (t * j + k)
  {
    assert (t * neg) * m == t * (m * neg);
    assert t * (m * neg) == t * (r * j) - t;
    assert t * (r * j) == r * (t * j);
    assert r * (t * j + k) == r * (t * j) + r * k;
  }

  lemma ModTwice(x: int, r: int)
    requires r >= 1
    ensures (x % r) % r == x % r
  {
    DivModUnique(x % r, r, 0, x % r);
  }

  lemma ReduceMeaning(d: Reducer, t: nat)
    requires Usable(d) && (d.Montgomery? ==> t < d.r * d.r)
    ensures 0 <= Reduce(d, t) < Bound(d)
    ensures Congruent(Reduce(d, t) * RadixOf(d), t, d.m)
    ensures d.Montgomery? && t < d.r ==> Reduce(d, t) <= d.m
  {
    if d.Division? {
      ModTwice(t, d.m);
    } else {
      RedcExact(t, d.m, d.r, d.neg);
      RedcValue(t, d.m, d.r, (t * d.neg) % d.r);
    }
  }

  lemma RedcValue(t: nat, m: int, r: int, q: int)
    requires 1 <= m < r && t < r * r && 0 <= q < r && (t + q * m) % r == 0
    ensures var s := (t + q * m) / r; var u := if s >= r then s - m else s;
      0 <= u < r && Congruent(u * r, t, m) && (t < r ==> u <= m)
  {
    var s := (t + q * m) / r;
    Commute(r, s);
    Commute(q, m);
    RedcRange(t, m, r, q, s);
    RedcSame(t, m, r, q, s);
  }

  lemma RedcRange(t: int, m: int, r: int, q: int, s: int)
    requires 1 <= m < r && 0 <= t < r * r && 0 <= q < r && r * s == t + m * q
    ensures 0 <= s < r + m && (t < r ==> s <= m)
  {
    MulNonNegative(m, q);
    MulLe(m, q, r - 1);
    Distribute(m, r);
    Commute(m, r);
    if s < 0 {
      MulLe(r, s, -1);
    }
    if s >= r + m {
      MulLe(r, r + m, s);
      SumTimes(r, m, r);
      Commute(r, r + m);
    }
    if t < r && s >= m + 1 {
      MulLe(r, m + 1, s);
      SumTimes(m, 1, r);
      Commute(r, m + 1);
    }
  }

  lemma RedcSame(t: int, m: int, r: int, q: int, s: int)
    requires m >= 1 && r * s == t + m * q
    ensures Congruent(s * r, t, m) && Congruent((s - m) * r, t, m)
  {
    Commute(r, s);
    FromMultiple(s * r, t, m, q);
    SumTimes(s, -m, r);
    TwoMultiples(m, q, r);
    FromMultiple((s - m) * r, t, m, q - r);
  }

  lemma TwoMultiples(m: int, q: int, r: int)
    ensures m * q + -m * r == m * (q - r)
  {
  }

  /** x stands for the power b^k. */
  ghost predicate Stands(d: Reducer, x: int, b: int, k: nat)
    requires Usable(d)
  {
    0 <= x < Bound(d) && Congruent(x, Pow(b, k) * RadixOf(d), d.m)
  }

  lemma StandsProduct(d: Reducer, x: int, y: int, b: int, j: nat, k: nat)
    requires Usable(d) && Stands(d, x, b, j) && Stands(d, y, b, k)
    ensures 0 <= x * y && Stands(d, Reduce(d, x * y), b, j + k)
  {
    hide Reduce, Usable, Congruent;
    var r, m, p, q := RadixOf(d), d.m, Pow(b, j), Pow(b, k);
    MulNonNegative(x, y);
    if d.Montgomery? { SquareBound(x, y, d.r); }
    Positive(d);
    ReduceMeaning(d, x * y);
    PowAdd(b, j, k);
    Product(x, p * r, y, q * r, m);
    var z := Reduce(d, x * y);
    Transitive(z * r, x * y, (p * r) * (q * r), m);
    FourFactors(p, q, r);
    var inverse := RadixInverse(d);
    Cancel(z, (p * q) * r, r, inverse, m);
  }

  lemma Positive(d: Reducer)
    requires Usable(d)
    ensures d.m >= 1
  {
  }

  lemma Transitive(a: int, b: int, c: int, m: int)
    requires m >= 1 && Congruent(a, b, m) && Congruent(b, c, m)
    ensures Congruent(a, c, m)
  {
  }

  lemma FourFactors(p: int, q: int, r: int)
    ensures (p * r) * (q * r) == ((p * q) * r) * r
  {
    assert (p * r) * (q * r) == p * (r * (q * r));
    assert r * (q * r) == (q * r) * r;
    Associate(p, q * r, r);
    Associate(p, q, r);
  }

  lemma SquareBound(x: int, y: int, r: int)
    requires 0 <= x < r && 0 <= y < r
    ensures x * y < r * r
  {
    MulLe(x, y, r);
    MulLe(r, x, r - 1);
    Commute(x, r);
    Distribute(r, r);
  }

  lemma RadixInverse(d: Reducer) returns (inverse: int)
    requires Usable(d)
    ensures Congruent(RadixOf(d) * inverse, 1, d.m)
  {
    if d.Division? {
      inverse := 1;
    } else {
      inverse := (d.m * d.neg + 1) / d.r;
      assert d.m * d.neg + 1 == d.r * inverse;
      FromMultiple(d.r * inverse, 1, d.m, d.neg);
    }
  }
}
