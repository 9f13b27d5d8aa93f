/** Schoolbook division of limb vectors by a normalized divisor of more than two limbs. */
module SchoolbookDivision {
  import opened Integers
  import opened Limbs
  import opened WordDivision
  import opened SpecialArithmetic

  // A quotient digit from the three top limbs of the remainder and the two top limbs of the divisor.

  /**
    The estimate q from the two top limbs, with the product d1 * q, before and after the one
    pre-correction. rx is the carry of the corrected partial remainder.
   */
  method EstimateDigit(nx: Limb, n1: Limb, r0: Limb, dx: Limb, d1: Limb, dxinv: Limb)
    returns (q: Limb, rx: Limb, r1: Limb, p1: Limb, p0: Limb)
    requires Normalized(dx) && nx < dx && dxinv == Inverse(dx)
    ensures rx <= 1 && Double(p1, p0) == (d1 as int) * q
    ensures Double(nx, n1) == (q as int) * dx + Double(rx, r1)
    ensures -Double(dx, d1) + 0xffff_ffff <= Double(rx, r1) * 0x1_0000_0000 + r0 - Double(p1, p0) < Double(dx, d1)
  {
    hide Hi, Lo;
    q, r1 := UdivQrnndPreinv(nx, n1, dx, dxinv);
    p1, p0 := Hi(d1, q), Lo(d1, q);
    HiLo(d1, q);
    MulBound(d1, q);
    DigitProduct(d1, q, dx);
    q, rx, r1, p1, p0 := PreCorrect(q, r1, r0, p1, p0, dx, d1);
  }

  /** The one correction of the digit before the low limbs are looked at. */
  method PreCorrect(q0: Limb, s1: Limb, r0: Limb, h: Limb, l: Limb, dx: Limb, d1: Limb)
    returns (q: Limb, rx: Limb, r1: Limb, p1: Limb, p0: Limb)
    requires Double(h, l) > 0 ==> q0 >= 1 && Double(h, l) >= d1
    ensures if Double(s1, r0) < Double(h, l)
            then q == q0 - 1 && rx <= 1 && Double(rx, r1) == (s1 as int) + dx && Double(p1, p0) == Double(h, l) - d1
            else q == q0 && rx == 0 && r1 == s1 && p1 == h && p0 == l
  {
    q, rx, r1, p1, p0 := q0, 0, s1, h, l;
    if r1 < p1 || (r1 == p1 && r0 < p0) {
      p1 := Minus(p1, Bit(p0 < d1));
      p0 := Minus(p0, d1);
      q := q - 1;
      r1 := Plus(r1, dx);
      rx := Bit(r1 < dx);
    }
  }

  lemma DigitProduct(d1: int, q: int, dx: int)
    requires 0 <= q && 0 <= d1
    ensures d1 * q > 0 ==> q >= 1 && d1 * q >= d1
    ensures d1 * (q - 1) == d1 * q - d1 && (q - 1) * dx == q * dx - dx
  {
    if q >= 1 {
      MulLe(d1, 1, q);
    }
  }

  /**
    The digit and the top of the remainder: rx:r1:r0 holds nx:n1:n0 - q * dx:d1, which is
    negative exactly when the wrapping limb rx is B - 1.
   */
  method QuotientDigit(nx: Limb, n1: Limb, n0: Limb, dx: Limb, d1: Limb, dxinv: Limb)
    returns (q: Limb, rx: Limb, r1: Limb, r0: Limb, ghost t: int)
    requires Normalized(dx) && nx < dx && dxinv == Inverse(dx)
    ensures t == Double(nx, n1) * 0x1_0000_0000 + n0 - (q as int) * Double(dx, d1)
    ensures -Double(dx, d1) + 0xffff_ffff <= t < Double(dx, d1)
    ensures (rx == 0 && t == Double(r1, r0)) || (rx == 0xffff_ffff && t == Double(r1, r0) - 0x1_0000_0000_0000_0000)
  {
    var p1, p0;
    q, rx, r1, p1, p0 := EstimateDigit(nx, n1, n0, dx, d1, dxinv);
    r0 := n0;
    t := Double(rx, r1) * 0x1_0000_0000 + r0 - Double(p1, p0);
    DigitTimes(q, dx, d1);
    ProductTop(d1, q, p1, p0);
    p1 := Plus(p1, Bit(r0 < p0));
    rx := Minus(rx, Bit(r1 < p1));
    r1 := Minus(r1, p1);
    r0 := Minus(r0, p0);
  }

  lemma DigitTimes(q: int, dx: int, d1: int)
    ensures q * (dx * 0x1_0000_0000 + d1) == (q * dx) * 0x1_0000_0000 + d1 * q
  {
  }

  lemma ProductTop(d1: Limb, q: Limb, p1: Limb, p0: Limb)
    requires Double(p1, p0) == (d1 as int) * q
    ensures p1 <= 0xffff_fffe
  {
    MulBound(d1, q);
  }

  // The digit on the whole vectors.

  lemma TopTwo(s: seq<Limb>, n: nat)
    requires |s| == n + 2
    ensures Val(s) == Val(s[..n]) + Shift(Double(s[n + 1], s[n]), n)
  {
    ValSplit(s, n);
    assert s[n..] == [s[n], s[n + 1]];
    ValTwo(s[n], s[n + 1]);
  }

  lemma TopThree(s: seq<Limb>, n: nat)
    requires |s| == n + 3
    ensures Val(s) == Val(s[..n]) + Shift(Double(s[n + 2], s[n + 1]) * 0x1_0000_0000 + s[n], n)
  {
    ValSplit(s, n);
    assert s[n..] == [s[n]] + s[n + 1..];
    assert s[n + 1..] == [s[n + 1], s[n + 2]];
    ValTwo(s[n + 1], s[n + 2]);
    ConsVal(s[n], s[n + 1..]);
  }

  /** What submul_1 on the low limbs and the borrow through the two top limbs have computed. */
  lemma DigitSubtracted(w: seq<Limb>, d: seq<Limb>, q: int, t: int, n: nat,
                        low: seq<Limb>, cy: int, r1: Limb, r0: Limb, k: int)
    requires |w| == n + 3 && |d| == n + 2 && |low| == n && 0 <= q <= 0xffff_ffff
    requires t == Double(w[n + 2], w[n + 1]) * 0x1_0000_0000 + w[n] - q * Double(d[n + 1], d[n])
    requires -Double(d[n + 1], d[n]) + 0xffff_ffff <= t < Double(d[n + 1], d[n])
    requires Val(low) - Shift(cy, n) == Val(w[..n]) - Val(d[..n]) * q
    requires Double(r1, r0) + 0x1_0000_0000_0000_0000 * k == t - cy
    ensures Val(low + [r0, r1]) + Shift(k, n + 2) == Val(w) - q * Val(d)
    ensures -Val(d) <= Val(w) - q * Val(d) < Val(d)
  {
    hide Val, Shift;
    TopTwo(d, n);
    TopThree(w, n);
    var dd, ww, dl := Double(d[n + 1], d[n]), Double(w[n + 2], w[n + 1]) * 0x1_0000_0000 + w[n], Val(d[..n]);
    assert (low + [r0, r1])[..n] == low;
    TopTwo(low + [r0, r1], n);
    ShiftTwo(k);
    ShiftShift(k, 2, n);
    ShiftAdd(Double(r1, r0), 0x1_0000_0000_0000_0000 * k, n);
    ShiftAdd(t, -cy, n);
    ShiftAdd(cy, -cy, n);
    ShiftZero(n);
    SumTimes(dl, Shift(dd, n), q);
    Commute(dl + Shift(dd, n), q);
    Commute(q, Shift(dd, n));
    ShiftMul(q, dd, n);
    ShiftAdd(t, q * dd, n);
    assert Val(w) - q * Val(d) == Shift(t, n) + Val(w[..n]) - dl * q;
    ValBound(w[..n]);
    ValBound(d[..n]);
    DigitBounds(Val(w[..n]), dl, dd, q, t, n);
  }

  lemma DigitBounds(wl: int, dl: int, dd: int, q: int, t: int, n: nat)
    requires 0 <= q <= 0xffff_ffff && -dd + 0xffff_ffff <= t < dd
    requires 0 <= wl < Shift(1, n) && 0 <= dl < Shift(1, n)
    ensures -(dl + Shift(dd, n)) <= Shift(t, n) + wl - dl * q < dl + Shift(dd, n)
  {
    hide Shift;
    var b := Shift(1, n);
    MulNonNegative(dl, q);
    Commute(dl, q);
    MulLe(q, dl, b);
    ShiftMul(q, 1, n);
    ShiftLess(q, 0xffff_ffff, n);
    ShiftLess(0xffff_ffff, q, n);
    ShiftAdd(t, 1, n);
    ShiftLess(dd, t + 1, n);
    ShiftAdd(t, dd, n);
    ShiftLess(t + dd, 0xffff_ffff, n);
  }

  /** A remainder that came out negative has the divisor added back, once. */
  method AddBack(op1: array<Limb>, p: nat, op2: array<Limb>, o2: nat, dn: nat, q: Limb, negative: bool, ghost k: int, ghost t: int)
    returns (q': Limb)
    requires Slice(op1, p, dn) && Slice(op2, o2, dn) && Apart(op1, p, dn, op2, o2, dn)
    requires Val(op1[p..p + dn]) + Shift(k, dn) == t && -Val(op2[o2..o2 + dn]) <= t < Val(op2[o2..o2 + dn])
    requires (negative <==> k != 0) && (t < 0 ==> q >= 1)
    modifies op1
    ensures q' == if t < 0 then q - 1 else q
    ensures Val(op1[p..p + dn]) == if t < 0 then t + Val(old(op2[o2..o2 + dn])) else t
    ensures forall j :: 0 <= j < p || p + dn <= j < op1.Length ==> op1[j] == old(op1[j])
  {
    hide Val, Shift;
    q' := q;
    ghost var d := op2[o2..o2 + dn];
    SignOfRemainder(op1[p..p + dn], d, k, t);
    if negative {
      var junk := AddN(op1, p, op1, p, op2, o2, dn);
      BackInRange(op1[p..p + dn], d, junk, k, t);
      q' := q' - 1;
    }
  }

  lemma SignOfRemainder(s: seq<Limb>, d: seq<Limb>, k: int, t: int)
    requires |s| == |d| && Val(s) + Shift(k, |s|) == t && -Val(d) <= t < Val(d)
    ensures if t < 0 then k == -1 else k == 0 && t == Val(s)
  {
    hide Val, Shift;
    ValBound(s);
    ValBound(d);
    ShiftZero(|s|);
    ShiftNegate(1, |s|);
    ShiftNegate(2, |s|);
    ShiftAdd(1, 1, |s|);
    if k >= 1 { ShiftLess(k, 1, |s|); }
    if k <= -2 { ShiftLess(-2, k, |s|); }
  }

  lemma BackInRange(s: seq<Limb>, d: seq<Limb>, c: int, k: int, t: int)
    requires |s| == |d| && 0 <= c <= 1 && k == -1 && -Val(d) <= t < 0
    requires Val(s) + Shift(c, |s|) == t - Shift(k, |s|) + Val(d)
    ensures Val(s) == t + Val(d)
  {
    hide Val, Shift;
    ValBound(s);
    ValBound(d);
    ShiftZero(|s|);
    ShiftNegate(1, |s|);
  }

  ghost predicate Divisor(op2: array<Limb>, o2: nat, dn: nat, dx: Limb, d1: Limb, dxinv: Limb)
    reads op2
  {
    && dn > 2 && Slice(op2, o2, dn) && dx == op2[o2 + dn - 1] && d1 == op2[o2 + dn - 2]
    && Normalized(dx) && dxinv == Inverse(dx)
  }

  /** One quotient digit when the top limbs differ. */
  method StepLess(op1: array<Limb>, p: nat, op2: array<Limb>, o2: nat, dn: nat, dx: Limb, d1: Limb, dxinv: Limb)
    returns (q: Limb)
    requires Divisor(op2, o2, dn, dx, d1, dxinv) && Slice(op1, p, dn + 1) && Apart(op1, p, dn + 1, op2, o2, dn)
    requires op1[p + dn] < dx
    modifies op1
    ensures Val(old(op1[p..p + dn + 1])) == q * Val(old(op2[o2..o2 + dn])) + Val(op1[p..p + dn])
    ensures Val(op1[p..p + dn]) < Val(old(op2[o2..o2 + dn]))
    ensures forall j :: 0 <= j < p || p + dn <= j < op1.Length ==> op1[j] == old(op1[j])
  {
    hide Val, Shift, Inverse;
    ghost var w, d := op1[p..p + dn + 1], op2[o2..o2 + dn];
    ghost var n := dn - 2;
    var rx, r1, r0;
    ghost var t;
    q, rx, r1, r0, t := QuotientDigit(op1[p + dn], op1[p + dn - 1], op1[p + dn - 2], dx, d1, dxinv);
    assert w[..n] == op1[p..p + n] && d[..n] == op2[o2..o2 + n];
    var cy := SubMul1(op1, p, op2, o2, dn - 2, q);
    ghost var low := op1[p..p + n];
    var cy1 := Bit(r0 < cy);
    r0 := Minus(r0, cy);
    var cy2 := Bit(r1 < cy1);
    r1 := Minus(r1, cy1);
    op1[p + dn - 1] := r1;
    op1[p + dn - 2] := r0;
    ghost var k := 0 - Bit(rx != 0) as int - cy2 as int;
    DigitSubtracted(w, d, q, t, n, low, cy, r1, r0, k);
    assert op1[p..p + dn] == low + [r0, r1];
    assert op2[o2..o2 + dn] == d;
    ValBound(w);
    FinishDigit(Val(w), Val(d), q);
    NoDoubleBorrow(low + [r0, r1], d, k, Val(w) - q * Val(d));
    q := AddBack(op1, p, op2, o2, dn, q, cy2 != rx, k, Val(w) - q * Val(d));
  }

  lemma NoDoubleBorrow(s: seq<Limb>, d: seq<Limb>, k: int, t: int)
    requires |s| == |d| && Val(s) + Shift(k, |s|) == t && -Val(d) <= t < Val(d)
    ensures k == 0 || k == -1
  {
    SignOfRemainder(s, d, k, t);
  }

  /** A negative remainder needs a positive digit, and one divisor back means one digit less. */
  lemma FinishDigit(w: int, d: int, q: int)
    requires w >= 0 && q >= 0
    ensures w - q * d < 0 ==> q >= 1
    ensures (q - 1) * d == q * d - d
  {
    if q == 0 {
      assert q * d == 0;
    }
  }

  /** Equal top limbs: the digit B - 1 is right or one too large. */
  lemma EqualTop(w: seq<Limb>, d: seq<Limb>, low: seq<Limb>, cy: int, n: nat) returns (t: int)
    requires |w| == n + 1 && |d| == n >= 1 && |low| == n && w[n] == d[n - 1] && Normalized(d[n - 1])
    requires Val(w[1..]) < Val(d)
    requires Val(low) - Shift(cy, n) == Val(w[..n]) - Val(d) * 0xffff_ffff
    ensures t == Val(w) - 0xffff_ffff * Val(d) && -Val(d) <= t < Val(d)
    ensures Val(low) + Shift(w[n] - cy, n) == t
  {
    hide Val, Shift;
    var x: int := w[n];
    t := Val(w) - 0xffff_ffff * Val(d);
    ValTake(w, n);
    assert w[..n + 1] == w;
    ShiftAdd(x - cy, cy, n);
    ConsVal(w[0], w[1..]);
    assert w == [w[0]] + w[1..];
    ValTake(d, n - 1);
    assert d[..n] == d;
    ValBound(w[..n]);
    ValBound(d[..n - 1]);
    ShiftAdd(x, 1, n - 1);
    ShiftCons(x, n - 1);
    ShiftCons(1, n - 1);
    HalfBase(x, n - 1);
  }

  lemma HalfBase(x: int, n: nat)
    requires x >= 0x8000_0000
    ensures 2 * Shift(x, n) >= 0x1_0000_0000 * Shift(1, n)
  {
    ShiftMul(2, x, n);
    ShiftMul(0x1_0000_0000, 1, n);
    ShiftLess(2 * x, 0x1_0000_0000, n);
  }

  /** One quotient digit when the top limbs are equal. */
  method StepEqual(op1: array<Limb>, p: nat, op2: array<Limb>, o2: nat, dn: nat, dx: Limb, d1: Limb, dxinv: Limb)
    returns (q: Limb)
    requires Divisor(op2, o2, dn, dx, d1, dxinv) && Slice(op1, p, dn + 1) && Apart(op1, p, dn + 1, op2, o2, dn)
    requires op1[p + dn] == dx && Val(op1[p..p + dn + 1][1..]) < Val(op2[o2..o2 + dn])
    modifies op1
    ensures Val(old(op1[p..p + dn + 1])) == q * Val(old(op2[o2..o2 + dn])) + Val(op1[p..p + dn])
    ensures Val(op1[p..p + dn]) < Val(old(op2[o2..o2 + dn]))
    ensures forall j :: 0 <= j < p || p + dn <= j < op1.Length ==> op1[j] == old(op1[j])
  {
    hide Val, Shift, Inverse;
    ghost var w, d := op1[p..p + dn + 1], op2[o2..o2 + dn];
    var nx := op1[p + dn];
    q := 0xffff_ffff;
    assert w[..dn] == op1[p..p + dn];
    var cy := SubMul1(op1, p, op2, o2, dn, q);
    ghost var low := op1[p..p + dn];
    ghost var t := EqualTop(w, d, low, cy, dn);
    assert op2[o2..o2 + dn] == d;
    ValBound(w);
    FinishDigit(Val(w), Val(d), q);
    q := AddBack(op1, p, op2, o2, dn, q, nx != cy, nx as int - cy as int, t);
  }

  /** N = (qh * B^qn + Q) * D + R after one more digit q below the digits Q. */
  lemma DigitJoined(n: seq<Limb>, i: nat, x: int, d: int, r: int, w: int, q: int, r': int)
    requires i < |n| && Val(n[i + 1..]) == x * d + r
    requires w == n[i] + 0x1_0000_0000 * r && w == q * d + r'
    ensures Val(n[i..]) == (0x1_0000_0000 * x + q) * d + r'
  {
    hide Val;
    assert n[i..] == [n[i]] + n[i + 1..];
    ConsVal(n[i], n[i + 1..]);
    SumTimes(0x1_0000_0000 * x, q, d);
    assert (0x1_0000_0000 * x) * d == 0x1_0000_0000 * (x * d);
  }

  /** The number of the quotient: the digits Q below the limb qh. */
  function Quotient(qh: Limb, digits: seq<Limb>): int
  {
    Val(digits) + Shift(qh, |digits|)
  }

  lemma QuotientCons(qh: Limb, q: Limb, digits: seq<Limb>)
    ensures Quotient(qh, [q] + digits) == 0x1_0000_0000 * Quotient(qh, digits) + q
  {
    ConsVal(q, digits);
    ShiftCons(qh, |digits|);
  }

  /** The possible first subtraction, which leaves a remainder below the divisor. */
  method FirstDigit(op1: array<Limb>, p: nat, op2: array<Limb>, o2: nat, dn: nat, dx: Limb) returns (qh: Limb)
    requires dn > 2 && Slice(op2, o2, dn) && dx == op2[o2 + dn - 1] && Normalized(dx)
    requires Slice(op1, p, dn) && Apart(op1, p, dn, op2, o2, dn)
    modifies op1
    ensures qh <= 1 && Val(op1[p..p + dn]) < Val(old(op2[o2..o2 + dn]))
    ensures Val(old(op1[p..p + dn])) == qh * Val(old(op2[o2..o2 + dn])) + Val(op1[p..p + dn])
    ensures forall j :: 0 <= j < p || p + dn <= j < op1.Length ==> op1[j] == old(op1[j])
  {
    hide Val, Shift;
    ghost var u, d := op1[p..p + dn], op2[o2..o2 + dn];
    assert u[..dn - 1] == op1[p..p + (dn - 1)] && d[..dn - 1] == op2[o2..o2 + (dn - 1)];
    assert u[..dn] == u && d[..dn] == d;
    TopLimbDecides(u, d, dn - 1);
    TwiceDivisor(u, d);
    qh := 0;
    var n0 := op1[p + dn - 1];
    if n0 >= dx {
      var c := 1;
      if n0 <= dx {
        c := Cmp(op1, p, op2, o2, dn - 1);
      }
      if c >= 0 {
        var junk := SubN(op1, p, op1, p, op2, o2, dn);
        NoBorrow(op1[p..p + dn], junk, Val(u) - Val(d));
        qh := 1;
      }
    }
  }

  lemma TwiceDivisor(u: seq<Limb>, d: seq<Limb>)
    requires |u| == |d| >= 1 && Normalized(d[|d| - 1])
    ensures Val(u) < 2 * Val(d)
  {
    hide Val, Shift;
    var n := |d| - 1;
    ValBound(u);
    ValTake(d, n);
    assert d[..n + 1] == d;
    ValBound(d[..n]);
    HalfBase(d[n], n);
    ShiftCons(1, n);
  }

  /**
    target := quotient digits of op1 by op2, remainder left in the low dn limbs of op1;
    the result is the quotient digit above the target.
   */
  method SbDivremMN(target: array<Limb>, to: nat, op1: array<Limb>, o1: nat, nn: nat, op2: array<Limb>, o2: nat, dn: nat)
    returns (qh: Limb)
    requires dn > 2 && nn >= dn && Slice(op2, o2, dn) && Normalized(op2[o2 + dn - 1])
    requires Slice(op1, o1, nn) && Slice(target, to, nn - dn)
    requires Apart(op1, o1, nn, op2, o2, dn) && target != op1 && target != op2
    modifies target, op1
    ensures qh <= 1 && Val(op1[o1..o1 + dn]) < Val(old(op2[o2..o2 + dn]))
    ensures Val(old(op1[o1..o1 + nn])) ==
            Quotient(qh, target[to..to + (nn - dn)]) * Val(old(op2[o2..o2 + dn])) + Val(op1[o1..o1 + dn])
    ensures forall j :: 0 <= j < to || to + (nn - dn) <= j < target.Length ==> target[j] == old(target[j])
    ensures forall j :: 0 <= j < o1 || o1 + nn <= j < op1.Length ==> op1[j] == old(op1[j])
  {
    hide Val, Shift, Inverse, Quotient;
    ghost var n, d := op1[o1..o1 + nn], op2[o2..o2 + dn];
    var qn := nn - dn;
    var p := o1 + qn;
    var dx, d1 := op2[o2 + dn - 1], op2[o2 + dn - 2];
    assert n[qn..] == op1[p..p + dn];
    qh := FirstDigit(op1, p, op2, o2, dn, dx);
    var dxinv := LimbInverse(dx);
    NoDigits(qh);
    Digits(target, to, op1, p, op2, o2, dn, dx, d1, dxinv, n, d, qh, nn);
  }

  /** The digit loop. */
  method Digits(target: array<Limb>, to: nat, op1: array<Limb>, p0: nat, op2: array<Limb>, o2: nat, dn: nat,
                dx: Limb, d1: Limb, dxinv: Limb, ghost n: seq<Limb>, ghost d: seq<Limb>, ghost qh: Limb, nn: nat)
    requires Divisor(op2, o2, dn, dx, d1, dxinv) && nn >= dn && |n| == nn
    requires p0 >= nn - dn && Slice(op1, p0 - (nn - dn), nn) && Slice(target, to, nn - dn)
    requires Apart(op1, p0 - (nn - dn), nn, op2, o2, dn) && target != op1 && target != op2
    requires op2[o2..o2 + dn] == d && Val(op1[p0..p0 + dn]) < Val(d)
    requires forall k :: 0 <= k < nn - dn ==> op1[p0 - (nn - dn) + k] == n[k]
    requires Val(n[nn - dn..]) == Quotient(qh, []) * Val(d) + Val(op1[p0..p0 + dn])
    modifies target, op1
    ensures Val(op1[p0 - (nn - dn)..p0 - (nn - dn) + dn]) < Val(d) && op2[o2..o2 + dn] == d
    ensures Val(n) == Quotient(qh, target[to..to + (nn - dn)]) * Val(d) + Val(op1[p0 - (nn - dn)..p0 - (nn - dn) + dn])
    ensures forall j :: 0 <= j < to || to + (nn - dn) <= j < target.Length ==> target[j] == old(target[j])
    ensures forall j :: 0 <= j < p0 - (nn - dn) || p0 + dn <= j < op1.Length ==> op1[j] == old(op1[j])
  {
    hide Val, Shift, Inverse, Quotient;
    var qn := nn - dn;
    ghost var digits: seq<Limb> := [];
    ghost var x: int := Quotient(qh, []);
    var p := p0;
    var i := qn;
    while i > 0
      invariant 0 <= i <= qn && p == p0 - qn + i && digits == target[to + i..to + qn]
      invariant op2[o2..o2 + dn] == d
      invariant Val(op1[p..p + dn]) < Val(d)
      invariant x == Quotient(qh, digits)
      invariant Val(n[i..]) == x * Val(d) + Val(op1[p..p + dn])
      invariant forall j :: 0 <= j < to || to + qn <= j < target.Length ==> target[j] == old(target[j])
      invariant forall j :: 0 <= j < p || p0 + dn <= j < op1.Length ==> op1[j] == old(op1[j])
    {
      digits, x := NextDigit(target, to + i - 1, to + qn, op1, p, op2, o2, dn, dx, d1, dxinv, n, i, d, qh, digits, x);
      i := i - 1;
      p := p - 1;
    }
    assert n[0..] == n;
  }

  /** A step of the digit loop seen on the whole numerator n, whose limbs from i + 1 up are done. */
  method NextDigit(target: array<Limb>, ti: nat, ghost end: nat, op1: array<Limb>, p0: nat, op2: array<Limb>, o2: nat, dn: nat,
                   dx: Limb, d1: Limb, dxinv: Limb, ghost n: seq<Limb>, ghost i: nat, ghost d: seq<Limb>,
                   ghost qh: Limb, ghost digits: seq<Limb>, ghost x: int)
    returns (ghost digits': seq<Limb>, ghost x': int)
    requires Divisor(op2, o2, dn, dx, d1, dxinv)
    requires p0 >= 1 && Slice(op1, p0 - 1, dn + 1) && Apart(op1, p0 - 1, dn + 1, op2, o2, dn)
    requires op2[o2..o2 + dn] == d && Val(op1[p0..p0 + dn]) < Val(d)
    requires 1 <= i <= |n| && op1[p0 - 1] == n[i - 1] && Val(n[i..]) == x * Val(d) + Val(op1[p0..p0 + dn])
    requires ti < end <= target.Length && digits == target[ti + 1..end] && x == Quotient(qh, digits)
    requires target != op1 && target != op2
    modifies target, op1
    ensures forall j :: 0 <= j < target.Length && j != ti ==> target[j] == old(target[j])
    ensures digits' == target[ti..end] && x' == Quotient(qh, digits') && Val(n[i - 1..]) == x' * Val(d) + Val(op1[p0 - 1..p0 - 1 + dn])
    ensures Val(op1[p0 - 1..p0 - 1 + dn]) < Val(d) && op2[o2..o2 + dn] == d
    ensures forall j :: 0 <= j < p0 - 1 || p0 - 1 + dn <= j < op1.Length ==> op1[j] == old(op1[j])
  {
    hide Val, Shift, Inverse, Quotient;
    var p := p0 - 1;

    ghost var r := Val(op1[p0..p0 + dn]);
    var q := DivideStep(op1, p, op2, o2, dn, dx, d1, dxinv);
    DigitJoined(n, i - 1, x, Val(d), r, n[i - 1] + 0x1_0000_0000 * r, q, Val(op1[p..p + dn]));
    x' := 0x1_0000_0000 * x + q;
    QuotientCons(qh, q, digits);
    ghost var rest := op1[p..p + dn];
    target[ti] := q;
    assert op1[p..p + dn] == rest;
    digits' := [q] + digits;
    assert target[ti + 1..end] == digits;
    assert target[ti..end] == [target[ti]] + target[ti + 1..end];
  }

  lemma NoDigits(qh: Limb)
    ensures Quotient(qh, []) == qh
  {
  }

  /** The body of the digit loop. */
  method DivideStep(op1: array<Limb>, p: nat, op2: array<Limb>, o2: nat, dn: nat, dx: Limb, d1: Limb, dxinv: Limb)
    returns (q: Limb)
    requires Divisor(op2, o2, dn, dx, d1, dxinv) && Slice(op1, p, dn + 1) && Apart(op1, p, dn + 1, op2, o2, dn)
    requires Val(op1[p + 1..p + 1 + dn]) < Val(op2[o2..o2 + dn])
    modifies op1
    ensures old(op1[p] + 0x1_0000_0000 * Val(op1[p + 1..p + 1 + dn])) ==
            q * Val(old(op2[o2..o2 + dn])) + Val(op1[p..p + dn])
    ensures Val(op1[p..p + dn]) < Val(old(op2[o2..o2 + dn]))
    ensures forall j :: 0 <= j < p || p + dn <= j < op1.Length ==> op1[j] == old(op1[j])
  {
    hide Val, Shift, Inverse;
    ghost var w, d := op1[p..p + dn + 1], op2[o2..o2 + dn];
    assert w[1..] == op1[p + 1..p + 1 + dn];
    assert w == [w[0]] + w[1..];
    ConsVal(w[0], w[1..]);
    var nx := op1[p + dn];
    TopAtMost(w[1..], d);
    if nx == dx {
      q := StepEqual(op1, p, op2, o2, dn, dx, d1, dxinv);
    } else {
      q := StepLess(op1, p, op2, o2, dn, dx, d1, dxinv);
    }
  }

  lemma TopAtMost(r: seq<Limb>, d: seq<Limb>)
    requires |r| == |d| >= 1 && Val(r) < Val(d)
    ensures r[|r| - 1] <= d[|d| - 1]
  {
    TopLimbDecides(r, d, |r| - 1);
    assert r[..|r|] == r && d[..|d|] == d;
  }
}
