/** Division of two words by one: by halves, and without branches by a precomputed reciprocal. */
module WordDivision {
  import opened Integers
  import opened Limbs
  import opened Bits

  predicate Normalized(d: Limb)
  {
    d >= 0x8000_0000
  }

  /** floor((B^2 - 1) / d) - B */
  function Inverse(d: Limb): int
    requires Normalized(d)
  {
    0xffff_ffff_ffff_ffff / d - 0x1_0000_0000
  }

  lemma InverseBound(d: Limb)
    requires Normalized(d)
    ensures 0 <= Inverse(d) <= 0xffff_ffff
    ensures (Inverse(d) + 0x1_0000_0000) * d <= 0xffff_ffff_ffff_ffff < (Inverse(d) + 0x1_0000_0000) * d + d
  {
    var m := 0xffff_ffff_ffff_ffff / d;
    assert 0xffff_ffff_ffff_ffff == d * m + 0xffff_ffff_ffff_ffff % d;
    Commute(m, d);
    if m >= 0x2_0000_0000 {
      MulLe(d, 0x2_0000_0000, m);
    }
    if m < 0x1_0000_0000 {
      MulLe(d, m, 0xffff_ffff);
    }
  }

  // Numbers of two words.

  /** add_ssaaaa: the sum of two double words, wrapping. */
  method AddSsaaaa(ah: Limb, al: Limb, bh: Limb, bl: Limb) returns (sh: Limb, sl: Limb)
    ensures exists k: int :: 0 <= k <= 1 && Double(sh, sl) + 0x1_0000_0000_0000_0000 * k == Double(ah, al) + Double(bh, bl)
  {
    sl := Plus(al, bl);
    sh := Plus(Plus(ah, bh), Bit(sl < al));
    ghost var s: int := Double(ah, al) + Double(bh, bl);
    if s < 0x1_0000_0000_0000_0000 {
      assert Double(sh, sl) + 0x1_0000_0000_0000_0000 * 0 == s;
    } else {
      assert Double(sh, sl) + 0x1_0000_0000_0000_0000 * 1 == s;
    }
  }

  /** sub_ddmmss: the difference of two double words, wrapping. */
  method SubDdmmss(ah: Limb, al: Limb, bh: Limb, bl: Limb) returns (sh: Limb, sl: Limb)
    ensures Double(sh, sl) == if Double(ah, al) >= Double(bh, bl) then Double(ah, al) - Double(bh, bl)
                              else Double(ah, al) - Double(bh, bl) + 0x1_0000_0000_0000_0000
  {
    sl := Minus(al, bl);
    sh := Minus(Minus(ah, bh), Bit(al < bl));
  }

  function Double(h: Limb, l: Limb): int
  {
    (h as int) * 0x1_0000_0000 + l
  }

  /** limb_highbit_to_mask */
  function HighbitToMask(limb: Limb): Limb
  {
    if limb >= 0x8000_0000 then 0xffff_ffff else 0
  }

  lemma AndWithMask(m: Limb, d: Limb)
    requires m == 0 || m == 0xffff_ffff
    ensures And(m, d) == And(d, m) == if m == 0 then 0 else d
  {
    AndCommutes(m, d);
    if m != 0 {
      AndMask(d, 32);
      Pow2Limb();
    }
  }

  lemma {:induction false} AndCommutes(x: nat, y: nat)
    ensures And(x, y) == And(y, x)
  {
    if x != 0 && y != 0 {
      AndCommutes(x / 2, y / 2);
    }
  }

  /**
    The estimate of the reciprocal division: with n1 the top bit of nl, the high word of
    di * (nh + n1) + nh * B + nl + n1 * (d - B) is the quotient or one less.
   */
  lemma ReciprocalEstimate(nh: int, nl: int, d: int, di: int, n1: int, x: int, xh: int, xl: int)
    requires 0x8000_0000 <= d < 0x1_0000_0000 && 0 <= nh < d && 0 <= nl < 0x1_0000_0000
    requires n1 == if nl >= 0x8000_0000 then 1 else 0
    requires (di + 0x1_0000_0000) * d <= 0xffff_ffff_ffff_ffff < (di + 0x1_0000_0000) * d + d
    requires x == di * (nh + n1) + nh * 0x1_0000_0000 + (if n1 == 1 then nl + d - 0x1_0000_0000 else nl)
    requires x == 0x1_0000_0000 * xh + xl && 0 <= xl < 0x1_0000_0000
    ensures 0 <= nh * 0x1_0000_0000 + nl - xh * d < 2 * d
  {
    var k := 0x1_0000_0000_0000_0000 - (di + 0x1_0000_0000) * d;
    var c := 0x1_0000_0000 - d;
    var n := nh * 0x1_0000_0000 + nl;
    var e := 0x1_0000_0000 * n - d * x;
    EstimateError(nh, nl, d, di, n1, x, k, c);
    ErrorBound(nh, nl, d, n1, k, c, e);
    var r := n - xh * d;
    assert 0x1_0000_0000 * r == e + d * xl by {
      assert d * x == 0x1_0000_0000 * (xh * d) + d * xl by {
        assert d * (0x1_0000_0000 * xh + xl) == 0x1_0000_0000 * (xh * d) + d * xl;
      }
    }
    MulNonNegative(d, xl);
    MulLe(d, xl, 0xffff_ffff);
  }

  lemma EstimateError(nh: int, nl: int, d: int, di: int, n1: int, x: int, k: int, c: int)
    requires n1 == 0 || n1 == 1
    requires k == 0x1_0000_0000_0000_0000 - (di + 0x1_0000_0000) * d && c == 0x1_0000_0000 - d
    requires x == di * (nh + n1) + nh * 0x1_0000_0000 + (if n1 == 1 then nl + d - 0x1_0000_0000 else nl)
    ensures 0x1_0000_0000 * (nh * 0x1_0000_0000 + nl) - d * x ==
            (if n1 == 1 then c * (nl - c) else c * nl) + k * (nh + n1)
  {
    var s, y := nh + n1, if n1 == 1 then nl - c else nl;
    // d * di == B*B - B*d - k
    assert d * x == (d * di) * s + (nh * d) * 0x1_0000_0000 + d * y by {
      assert d * (di * s) == (d * di) * s;
      assert d * (nh * 0x1_0000_0000) == (nh * d) * 0x1_0000_0000;
      assert d * (di * s + nh * 0x1_0000_0000 + y) == d * (di * s) + d * (nh * 0x1_0000_0000) + d * y;
    }
    assert d * di == 0x1_0000_0000 * c - k by {
      assert (di + 0x1_0000_0000) * d == d * di + 0x1_0000_0000 * d;
    }
    assert (0x1_0000_0000 * c - k) * s == 0x1_0000_0000 * (c * s) - k * s;
    assert c * s == c * nh + c * n1;
    assert c * nh == 0x1_0000_0000 * nh - nh * d;
    assert d * y == 0x1_0000_0000 * y - c * y;
  }

  lemma ErrorBound(nh: int, nl: int, d: int, n1: int, k: int, c: int, e: int)
    requires 0x8000_0000 <= d < 0x1_0000_0000 && 0 <= nh < d && 0 <= nl < 0x1_0000_0000
    requires n1 == if nl >= 0x8000_0000 then 1 else 0
    requires 1 <= k <= d && c == 0x1_0000_0000 - d
    requires e == (if n1 == 1 then c * (nl - c) else c * nl) + k * (nh + n1)
    ensures 0 <= e < 0x1_0000_0000 * d
  {
    assert c * d + d * d == 0x1_0000_0000 * d;
    MulNonNegative(k, nh + n1);
    if n1 == 1 {
      MulNonNegative(c, nl - c);
      MulLe(c, nl - c, d - 1);
      assert c * (d - 1) == c * d - c;
      MulLe(k, nh + 1, d);
      Commute(k, d);
      MulLe(d, k, d);
    } else {
      MulNonNegative(c, nl);
      MulLe(c, nl, d - 1);
      assert c * (d - 1) == c * d - c;
      MulLe(k, nh, d);
      Commute(k, d);
      MulLe(d, k, d);
    }
  }

  /**
    udiv_qrnnd_preinv: quotient and remainder of nh * B + nl by a normalized d, given its reciprocal.
    All words wrap; the only selection between two candidates is a masked addition.
   */
  method UdivQrnndPreinv(nh: Limb, nl: Limb, d: Limb, di: Limb) returns (q: Limb, r: Limb)
    requires Normalized(d) && nh < d && di == Inverse(d)
    ensures Double(nh, nl) == (q as int) * d + r && r < d
  {
    hide And, Hi, Lo;
    var nmask := HighbitToMask(nl);
    AndWithMask(nmask, d);
    var masked: Limb := And(nmask, d);
    var nadj := Plus(nl, masked);
    var n2 := Minus(nh, nmask);
    var xh, xl := Hi(di, n2), Lo(di, n2);
    HiLo(di, n2);
    ghost var n1 := if nl >= 0x8000_0000 then 1 else 0;
    ghost var x: int := (di as int) * n2 + Double(nh, nadj);
    EstimateFits(nh, nl, d, di, n1, x);
    xh, xl := AddSsaaaa(xh, xl, nh, nadj);
    ghost var e: int := xh;
    assert x == Double(xh, xl);
    ReciprocalEstimate(nh, nl, d, di, n1, x, xh, xl);
    var q1 := Minus(0xffff_ffff, xh);
    ghost var rest: int := Double(nh, nl) - e * d;
    ComplementTimes(e, d);
    xh, xl := Hi(q1, d), Lo(q1, d);
    HiLo(q1, d);
    xh, xl := AddSsaaaa(xh, xl, nh, nl);
    assert Double(xh, xl) == 0x1_0000_0000 * d + rest - d;
    xh := Minus(xh, d);
    AndWithMask(xh, d);
    masked := And(d, xh);
    r := Plus(xl, masked);
    q := Minus(xh, q1);
    QuotientSelected(nh, nl, d, e, rest, q);
  }

  lemma EstimateFits(nh: Limb, nl: Limb, d: Limb, di: Limb, n1: int, x: int)
    requires Normalized(d) && nh < d && di == Inverse(d)
    requires n1 == if nl >= 0x8000_0000 then 1 else 0
    requires x == (di as int) * (nh + n1) + (nh as int) * 0x1_0000_0000 + (if n1 == 1 then (nl as int) + d - 0x1_0000_0000 else nl)
    ensures 0 <= x < 0x1_0000_0000_0000_0000
    ensures (di + 0x1_0000_0000) * d <= 0xffff_ffff_ffff_ffff < (di + 0x1_0000_0000) * d + d
  {
    InverseBound(d);
    var h, l := x / 0x1_0000_0000, x % 0x1_0000_0000;
    MulNonNegative(di, nh + n1);
    ReciprocalEstimate(nh, nl, d, di, n1, x, h, l);
    if h >= 0x1_0000_0000 {
      Commute(h, d);
      MulLe(d, 0x1_0000_0000, h);
    }
  }

  lemma ComplementTimes(e: int, d: int)
    ensures (0xffff_ffff - e) * d == 0x1_0000_0000 * d - d - e * d
  {
  }

  lemma QuotientSelected(nh: Limb, nl: Limb, d: Limb, e: int, rest: int, q: Limb)
    requires Normalized(d) && nh < d && 0 <= e <= 0xffff_ffff
    requires rest == Double(nh, nl) - e * d && 0 <= rest < 2 * d
    requires rest < d ==> q == e
    requires rest >= d ==> q == (if e == 0xffff_ffff then 0 else e + 1)
    ensures Double(nh, nl) == (q as int) * d + if rest < d then rest else rest - d
  {
    if rest >= d {
      assert (e + 1) * d == e * d + d;
      if e == 0xffff_ffff {
        Commute(e + 1, d);
        assert false;
      }
    }
  }

  /**
    The half-word step of udiv_qrnnd, which occurs twice in it: one quotient half-word with at most
    two corrections, the second only when the first did not carry.
   */
  method HalfStep(n1: Limb, half: Limb, d: Limb, d1: Limb, d0: Limb) returns (q: Limb, r: Limb)
    requires Normalized(d) && n1 < d && half < 0x1_0000
    requires d1 == d / 0x1_0000 && d0 == d % 0x1_0000
    ensures (n1 as int) * 0x1_0000 + half == (q as int) * d + r && r < d && q < 0x1_0000
  {
    hide Or;
    var m;
    q, r, m := TrialHalf(n1, d, d1, d0);
    Pow2OfHalf();
    OrDisjoint(r, half, 16);
    r := Or((r as int) * 0x1_0000, half);
    ghost var k;
    q, r, k := CorrectHalf(q, r, m, d);
    StepsDown(q, k, d);
    HalfQuotientBound(n1, half, q, d, r);
  }

  /** Quotient and remainder by the high half of the divisor, and the product with the low half. */
  method TrialHalf(n1: Limb, d: Limb, d1: Limb, d0: Limb) returns (q: Limb, r: Limb, m: Limb)
    requires Normalized(d) && n1 < d && d1 == d / 0x1_0000 && d0 == d % 0x1_0000
    ensures r < d1 < 0x1_0000 && (q >= 1 || m == 0) && (q >= 2 || m < d)
    ensures (n1 as int) * 0x1_0000 == (q as int) * d + (r as int) * 0x1_0000 - m
  {
    var n: int, e: int := n1, d1;
    var t := n / e;
    TrialQuotient(n1, d, d1, d0, t);
    q := t;
    r := n - t * e;
    m := t * d0;
  }

  /** The corrections of a half-word step; k counts them. */
  method CorrectHalf(q0: Limb, r0: Limb, m: Limb, d: Limb) returns (q: Limb, r: Limb, ghost k: int)
    requires Normalized(d) && r0 < d && (q0 >= 1 || m == 0) && (q0 >= 2 || m < d)
    ensures 0 <= k <= 2 && q == q0 - k && r < d
    ensures r == (r0 as int) + (if k == 0 then 0 else if k == 1 then d as int else 2 * (d as int)) - m
  {
    q, r, k := q0, r0, 0;
    if r < m {
      q, k := q - 1, 1;
      r := Plus(r, d);
      if r >= d {
        if r < m {
          q, k := q - 1, 2;
          r := Plus(r, d);
        }
      }
    }
    r := Minus(r, m);
  }

  lemma StepsDown(q: int, k: int, d: int)
    requires 0 <= k <= 2
    ensures (q + k) * d == q * d + if k == 0 then 0 else if k == 1 then d else 2 * d
  {
  }

  lemma TrialQuotient(n1: int, d: int, d1: int, d0: int, q: int)
    requires 0x8000_0000 <= d < 0x1_0000_0000 && 0 <= n1 < d
    requires d1 == d / 0x1_0000 && d0 == d % 0x1_0000 && d1 > 0 && q == n1 / d1
    ensures 0 <= q <= 0x1_0001 && 0 <= q * d0 < 0x1_0000_0000 && (q >= 1 || q * d0 == 0) && (q >= 2 || q * d0 < d)
    ensures n1 - q * d1 == n1 % d1 && 0 <= n1 % d1 < d1 < 0x1_0000
    ensures n1 * 0x1_0000 - q * d == (n1 % d1) * 0x1_0000 - q * d0
  {
    assert n1 == d1 * q + n1 % d1;
    assert q * d == q * d1 * 0x1_0000 + q * d0 by {
      assert d == d1 * 0x1_0000 + d0;
      assert q * (d1 * 0x1_0000 + d0) == q * d1 * 0x1_0000 + q * d0;
    }
    Commute(q, d1);
    if q >= 0x1_0002 {
      MulLe(d1, 0x1_0002, q);
    }
    if q < 0 {
      MulLe(d1, q, -1);
    }
    MulNonNegative(q, d0);
    MulLe(q, d0, 0xffff);
    if q <= 1 {
      assert q == 0 || q == 1;
    }
  }

  lemma Pow2OfHalf()
    ensures Pow2(16) == 0x1_0000
  {
    assert Pow2(8) == 256;
  }

  lemma HalfQuotientBound(n1: int, half: int, q: int, d: int, r: int)
    requires 0 <= n1 < d && 0 <= half < 0x1_0000 && 0 <= q && 0 <= r && d > 0
    requires n1 * 0x1_0000 + half == q * d + r
    ensures q < 0x1_0000
  {
    if q >= 0x1_0000 {
      Commute(q, d);
      MulLe(d, 0x1_0000, q);
    }
  }

  /** udiv_qrnnd: two words by one, half a word at a time. */
  method UdivQrnnd(n1: Limb, n0: Limb, d: Limb) returns (q: Limb, r: Limb)
    requires Normalized(d) && n1 < d
    ensures Double(n1, n0) == (q as int) * d + r && r < d
  {
    hide And, Or;
    Pow2OfHalf();
    AndMask(d, 16);
    AndMask(n0, 16);
    var d1: Limb := Shr(d, 16);
    var d0: Limb := And(d, 0xffff);
    var q1, r1 := HalfStep(n1, Shr(n0, 16), d, d1, d0);
    var q0, r0 := HalfStep(r1, And(n0, 0xffff), d, d1, d0);
    OrDisjoint(q1, q0, 16);
    q := Or(q1 * 0x1_0000, q0);
    r := r0;
    assert ((q1 as int) * 0x1_0000 + q0) * d == ((q1 as int) * d) * 0x1_0000 + (q0 as int) * d;
  }

  /** limb_inverse: (B^2 - 1) / d - B is (d' * B + B - 1) / d for the complement d' of d. */
  method LimbInverse(d: Limb) returns (inverse: Limb)
    requires Normalized(d)
    ensures inverse == Inverse(d)
  {
    var r;
    inverse, r := UdivQrnnd(0xffff_ffff - d, 0xffff_ffff, d);
    ghost var i: int := inverse;
    assert 0xffff_ffff_ffff_ffff == d * (i + 0x1_0000_0000) + r by {
      assert d * (i + 0x1_0000_0000) == i * d + d * 0x1_0000_0000;
    }
    DivModUnique(0xffff_ffff_ffff_ffff, d, i + 0x1_0000_0000, r);
  }
}
