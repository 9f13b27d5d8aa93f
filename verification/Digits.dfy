/** Digit strings and the numbers they denote. */
module Digits {
  import opened Integers
  import opened Limbs
  import opened Congruences
  import opened Radix

  lemma DigitsSnoc(b: int, ds: seq<Octet>, d: Octet)
    ensures DigitsValue(b, ds + [d]) == DigitsValue(b, ds) * b + d
  {
    assert (ds + [d])[..|ds|] == ds;
  }

  lemma {:induction false} DigitsAppend(b: int, x: seq<Octet>, y: seq<Octet>)
    ensures DigitsValue(b, x + y) == DigitsValue(b, x) * Pow(b, |y|) + DigitsValue(b, y)
    decreases |y|
  {
    if y == [] {
      assert x + y == x;
    } else {
      var z, d := y[..|y| - 1], y[|y| - 1];
      assert x + y == (x + z) + [d] && y == z + [d];
      DigitsSnoc(b, x + z, d);
      DigitsSnoc(b, z, d);
      DigitsAppend(b, x, z);
      var v, p := DigitsValue(b, x), Pow(b, |z|);
      SumTimes(v * p, DigitsValue(b, z), b);
      Associate(v, p, b);
      Commute(p, b);
    }
  }

  lemma DigitsNone(b: int)
    ensures DigitsValue(b, []) == 0 && Pow(b, 0) == 1 && DigitString(b, [])
  {
  }

  lemma DigitsOne(b: int, d: Octet)
    ensures DigitsValue(b, [d]) == d && Pow(b, 1) == b
  {
    DigitsNone(b);
    DigitsSnoc(b, [], d);
    assert [] + [d] == [d] && 0 * b == 0;
    assert Pow(b, 1) == b * Pow(b, 0);
  }

  lemma {:induction false} PowPositive(b: int, k: nat)
    requires b >= 1
    ensures Pow(b, k) >= 1
  {
    if k > 0 {
      PowPositive(b, k - 1);
      MulLe(b, 1, Pow(b, k - 1));
    }
  }

  /** Digits below b denote a number below b^n. */
  lemma {:induction false} DigitsBound(b: int, ds: seq<Octet>)
    requires b >= 1 && DigitString(b, ds)
    ensures 0 <= DigitsValue(b, ds) < Pow(b, |ds|)
    decreases |ds|
  {
    if ds != [] {
      var z, d := ds[..|ds| - 1], ds[|ds| - 1];
      DigitsBound(b, z);
      var v, p := DigitsValue(b, z), Pow(b, |z|);
      MulNonNegative(v, b);
      MulLe(b, v, p - 1);
      Commute(b, v);
      Distribute(b, p);
    }
  }

  /** Equally many digits with equal values are equal. */
  lemma {:induction false} DigitsInjective(b: int, x: seq<Octet>, y: seq<Octet>)
    requires b >= 2 && DigitString(b, x) && DigitString(b, y) && |x| == |y| && DigitsValue(b, x) == DigitsValue(b, y)
    ensures x == y
    decreases |x|
  {
    if x != [] {
      var n := |x| - 1;
      var u, v := DigitsValue(b, x[..n]), DigitsValue(b, y[..n]);
      Commute(b, u);
      Commute(b, v);
      DivModUnique(DigitsValue(b, x), b, u, x[n]);
      DivModUnique(DigitsValue(b, y), b, v, y[n]);
      DigitsInjective(b, x[..n], y[..n]);
      assert x == x[..n] + [x[n]] && y == y[..n] + [y[n]];
    }
  }

  /** A digit string that does not begin with zero is as short as possible. */
  lemma LeadingDigit(b: int, ds: seq<Octet>)
    requires b >= 2 && DigitString(b, ds) && ds != [] && ds[0] != 0
    ensures DigitsValue(b, ds) >= Pow(b, |ds| - 1)
  {
    var rest := ds[1..];
    assert ds == [ds[0]] + rest;
    DigitsAppend(b, [ds[0]], rest);
    DigitsOne(b, ds[0]);
    DigitsBound(b, rest);
    PowPositive(b, |rest|);
    MulLe(Pow(b, |rest|), 1, ds[0]);
    Commute(Pow(b, |rest|), ds[0]);
  }

  lemma {:induction false} PowMonotone(b: int, j: nat, k: nat)
    requires b >= 1 && j <= k
    ensures Pow(b, j) <= Pow(b, k)
  {
    PowAdd(b, j, k - j);
    PowPositive(b, j);
    PowPositive(b, k - j);
    MulLe(Pow(b, j), 1, Pow(b, k - j));
  }

  /** Two digit strings without leading zeros that denote the same number are equal. */
  lemma DigitsUnique(b: int, x: seq<Octet>, y: seq<Octet>)
    requires b >= 2 && DigitString(b, x) && DigitString(b, y) && DigitsValue(b, x) == DigitsValue(b, y)
    requires (x != [] ==> x[0] != 0) && (y != [] ==> y[0] != 0)
    ensures x == y
  {
    if |x| == |y| {
      DigitsInjective(b, x, y);
    } else {
      var long, short := if |x| > |y| then x else y, if |x| > |y| then y else x;
      LeadingDigit(b, long);
      DigitsBound(b, short);
      PowMonotone(b, |short|, |long| - 1);
    }
  }

  lemma {:induction false} PowBase(b: int, c: int, k: nat)
    requires 0 <= b <= c
    ensures 0 <= Pow(b, k) <= Pow(c, k)
  {
    if k > 0 {
      PowBase(b, c, k - 1);
      MulNonNegative(b, Pow(b, k - 1));
      MulLe(b, Pow(b, k - 1), Pow(c, k - 1));
      MulLe(Pow(c, k - 1), b, c);
      Commute(Pow(c, k - 1), b);
      Commute(Pow(c, k - 1), c);
    }
  }

  /** 610 digits are enough for 29 limbs in every base from 3 on. */
  lemma BufferLargeEnough(b: int, k: nat, n: int)
    requires b >= 3 && Pow(b, k) <= n < Shift(1, 29)
    ensures k < 600
  {
    if k >= 600 {
      PowMonotone(b, 600, k);
      PowBase(3, b, 600);
      ThreesOutgrowLimbs(30);
      ShiftCons(1, 29);
      TwoToThe30();
    }
  }

  lemma TwoToThe30()
    ensures Pow(2, 30) == 0x4000_0000
  {
    assert Pow(2, 10) == 0x400;
    PowAdd(2, 10, 10);
    PowAdd(2, 20, 10);
  }

  /** Twenty base-3 digits and one bit hold a limb. */
  lemma {:induction false} ThreesOutgrowLimbs(k: nat)
    ensures Pow(3, 20 * k) * Pow(2, k) >= Shift(1, k)
  {
    if k > 0 {
      ThreesOutgrowLimbs(k - 1);
      PowAdd(3, 20, 20 * (k - 1));
      assert Pow(3, 20) == 3486784401 by { assert Pow(3, 10) == 59049; }
      var x, y := Pow(3, 20 * (k - 1)), Pow(2, k - 1);
      ShiftCons(1, k - 1);
      ShiftLess(0, 1, k - 1);
      ShiftZero(k - 1);
      assert (3486784401 * x) * (2 * y) == 6973568802 * (x * y);
    } else {
      assert Pow(3, 0) * Pow(2, 0) == 1;
    }
  }
}
