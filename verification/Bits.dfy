/** Bit operations on natural numbers, and the shifts of NATURAL_32. */
module Bits {
  import opened Integers
  import opened Limbs

  function Pow2(n: nat): (p: nat)
    ensures p >= 1
  {
    if n == 0 then 1 else 2 * Pow2(n - 1)
  }

  lemma {:induction false} Pow2Add(m: nat, n: nat)
    ensures Pow2(m + n) == Pow2(m) * Pow2(n)
  {
    if m > 0 {
      Pow2Add(m - 1, n);
      var x, y := Pow2(m - 1), Pow2(n);
      assert (2 * x) * y == 2 * (x * y);
    }
  }

  lemma Pow2Limb()
    ensures Pow2(32) == 0x1_0000_0000
  {
    assert Pow2(8) == 256;
    assert Pow2(16) == 65536;
    assert Pow2(24) == 0x100_0000;
  }

  function Or(x: nat, y: nat): nat
  {
    if x == 0 && y == 0 then 0
    else (if x % 2 == 1 || y % 2 == 1 then 1 else 0) + 2 * Or(x / 2, y / 2)
  }

  function And(x: nat, y: nat): nat
  {
    if x == 0 || y == 0 then 0
    else (if x % 2 == 1 && y % 2 == 1 then 1 else 0) + 2 * And(x / 2, y / 2)
  }

  function Xor(x: nat, y: nat): nat
  {
    if x == 0 && y == 0 then 0
    else (x + y) % 2 + 2 * Xor(x / 2, y / 2)
  }

  lemma {:induction false} OrZero(y: nat)
    ensures Or(0, y) == y && Or(y, 0) == y
  {
    if y > 0 {
      OrZero(y / 2);
    }
  }

  /** Or of numbers with no common bit positions is their sum. */
  lemma {:induction false} OrDisjoint(h: nat, l: nat, c: nat)
    requires l < Pow2(c)
    ensures Pow2(c) * h >= 0 && Or(Pow2(c) * h, l) == Pow2(c) * h + l
  {
    if c == 0 {
      OrZero(h);
    } else {
      OrDisjoint(h, l / 2, c - 1);
      Twice(Pow2(c - 1), h);
      OrStep(Pow2(c - 1) * h, l);
    }
  }

  lemma Twice(p: int, h: int)
    ensures (2 * p) * h == 2 * (p * h)
  {
  }

  lemma OrStep(k: nat, l: nat)
    ensures Or(2 * k, l) == l % 2 + 2 * Or(k, l / 2)
  {
    assert (2 * k) / 2 == k && (2 * k) % 2 == 0;
  }

  lemma {:induction false} AndMask(x: nat, c: nat)
    ensures And(x, Pow2(c) - 1) == x % Pow2(c)
  {
    hide And, Pow2;
    AndZero(x, Pow2(c) - 1);
    Pow2Unfolded(c);
    if c == 0 {
    } else if x == 0 {
      DivModUnique(0, Pow2(c), 0, 0);
    } else {
      AndMask(x / 2, c - 1);
      AndStep(x, Pow2(c - 1));
      HalfMod(x, Pow2(c - 1));
    }
  }

  lemma Pow2Unfolded(c: nat)
    ensures Pow2(c) == if c == 0 then 1 else 2 * Pow2(c - 1)
  {
  }

  lemma AndZero(x: nat, m: nat)
    ensures And(x, 0) == 0 && And(0, m) == 0
  {
  }

  lemma AndStep(x: nat, p: nat)
    requires x > 0 && p >= 1
    ensures And(x, 2 * p - 1) == x % 2 + 2 * And(x / 2, p - 1)
  {
    assert (2 * p - 1) / 2 == p - 1 && (2 * p - 1) % 2 == 1;
  }

  lemma HalfMod(x: nat, p: nat)
    requires p >= 1
    ensures x % (2 * p) == x % 2 + 2 * ((x / 2) % p)
  {
    var q, r := (x / 2) / p, (x / 2) % p;
    assert x / 2 == p * q + r;
    assert x == (2 * p) * q + (x % 2 + 2 * r) by {
      assert (2 * p) * q == 2 * (p * q);
    }
    DivModUnique(x, 2 * p, q, x % 2 + 2 * r);
  }

  lemma HalfThen(x: int, p: int)
    requires p >= 1
    ensures x / (2 * p) == (x / 2) / p
  {
    var q, r := (x / 2) / p, (x / 2) % p;
    assert x / 2 == p * q + r;
    Twice(p, q);
    DivModUnique(x, 2 * p, q, 2 * r + x % 2);
  }

  // NATURAL_32 |<< and |>>.

  function Shl(x: Limb, c: nat): Limb
  {
    var r: int := (x * Pow2(c)) % 0x1_0000_0000;
    r
  }

  function Shr(x: Limb, c: nat): Limb
  {
    ShrBound(x, Pow2(c));
    x / Pow2(c)
  }

  lemma ShrBound(x: int, p: int)
    requires x >= 0 && p >= 1
    ensures 0 <= x / p <= x
  {
    assert x == p * (x / p) + x % p;
    if x / p < 0 { MulLe(p, x / p, -1); }
    if x / p > 0 { MulLe(x / p, 1, p); }
  }

  /** A limb shifted left by c splits into what stays and what is shifted out. */
  lemma ShiftParts(x: Limb, c: nat)
    requires 1 <= c <= 31
    ensures x * Pow2(c) == Shl(x, c) + 0x1_0000_0000 * Shr(x, 32 - c)
    ensures Shr(x, 32 - c) < Pow2(c)
    ensures Shl(x, c) == Pow2(c) * (x % Pow2(32 - c))
  {
    hide Pow2;
    var p, q := Pow2(c), Pow2(32 - c);
    Pow2Add(c, 32 - c);
    Pow2Limb();
    SplitWord(x, p, q);
    DivModUnique(x * p, 0x1_0000_0000, x / q, p * (x % q));
  }

  lemma SplitWord(x: int, p: int, q: int)
    requires 0 <= x < 0x1_0000_0000 && p >= 1 && q >= 1 && p * q == 0x1_0000_0000
    ensures x * p == 0x1_0000_0000 * (x / q) + p * (x % q)
    ensures 0 <= p * (x % q) <= 0x1_0000_0000 - p
    ensures x / q < p
  {
    var d, r := x / q, x % q;
    assert x == q * d + r;
    Regroup(p, q, d, r);
    MulNonNegative(p, r);
    MulLe(p, r, q - 1);
    Distribute(p, q);
    Commute(p, q);
    if d >= p {
      MulLe(q, p, d);
    }
  }

  /** The two parts of a shifted double word meet in one limb by bit_or. */
  lemma ShiftedJoin(high: Limb, low: Limb, c: nat)
    requires 1 <= c <= 31
    ensures Or(Shl(high, c), Shr(low, 32 - c)) == Shl(high, c) + Shr(low, 32 - c) < 0x1_0000_0000
  {
    hide Pow2;
    ShiftParts(high, c);
    ShiftParts(low, c);
    OrDisjoint(high % Pow2(32 - c), Shr(low, 32 - c), c);
    Pow2Add(c, 32 - c);
    Pow2Limb();
    SplitWord(high, Pow2(c), Pow2(32 - c));
  }

  /** floor(x / 2^i) */
  function Down(x: int, i: nat): (r: int)
    ensures x >= 0 ==> r >= 0
    decreases i
  {
    if i == 0 then x else Down(x / 2, i - 1)
  }

  lemma {:induction false} DownAdd(x: int, i: nat, j: nat)
    ensures Down(Down(x, i), j) == Down(x, i + j)
    decreases i
  {
    if i > 0 {
      DownAdd(x / 2, i - 1, j);
    }
  }

  lemma {:induction false} DownDivides(x: int, i: nat)
    ensures Down(x, i) == x / Pow2(i)
    decreases i
  {
    if i > 0 {
      DownDivides(x / 2, i - 1);
      HalfThen(x, Pow2(i - 1));
    }
  }

  lemma {:induction false} Pow2OfLimbs(k: nat)
    ensures Pow2(32 * k) == Shift(1, k)
  {
    if k > 0 {
      Pow2OfLimbs(k - 1);
      Pow2Add(32, 32 * (k - 1));
      Pow2Limb();
      ShiftCons(1, k - 1);
    }
  }

  lemma MinusTimes(p: int, x: int)
    ensures p * (-x) == -(p * x) && p * (-x - 1) == -(p * x) - p
  {
  }

  /** Above position 32k there are the limbs from k on; the negative number lends 1 to the bits below. */
  lemma {:induction false} LimbsAbove(s: seq<Limb>, k: nat)
    requires k <= |s|
    ensures Down(Val(s), 32 * k) == Val(s[k..])
    ensures Down(-Val(s), 32 * k) == -Val(s[k..]) - (if Val(s[..k]) > 0 then 1 else 0)
  {
    hide Val, Pow2, Shift;
    ValSplit(s, k);
    ValBound(s[..k]);
    Pow2OfLimbs(k);
    DownDivides(Val(s), 32 * k);
    DownDivides(-Val(s), 32 * k);
    var p, low, top := Pow2(32 * k), Val(s[..k]), Val(s[k..]);
    ShiftMul(top, 1, k);
    Commute(top, p);
    DivModUnique(Val(s), p, top, low);
    MinusTimes(p, top);
    if low > 0 {
      DivModUnique(-Val(s), p, -top - 1, p - low);
    } else {
      DivModUnique(-Val(s), p, -top, 0);
    }
  }
}
