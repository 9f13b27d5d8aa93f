/** Divide-and-conquer division: 2n limbs by n through 3-by-2 steps on halves. */
module RecursiveDivision {
  import opened Integers
  import opened Limbs
  import opened WordDivision
  import opened SpecialArithmetic
  import opened Karatsuba
  import opened SchoolbookDivision

  /** Quotient, remainder, divisor and scratch live in different arrays. */
  predicate Distinct(target: array<Limb>, op1: array<Limb>, op2: array<Limb>, scratch: array<Limb>)
  {
    target != op1 && target != op2 && op1 != op2 && scratch != target && scratch != op1 && scratch != op2
  }

  lemma NegativeIffBorrow(s: seq<Limb>, cc: int, t: int)
    requires Val(s) - Shift(cc, |s|) == t && cc >= 0
    ensures cc == 0 <==> t >= 0
  {
    hide Val, Shift;
    ValBound(s);
    ShiftZero(|s|);
    if cc > 1 { ShiftLess(1, cc, |s|); }
  }

  /** The quotient less 1, with the borrow taken from the limb above. */
  lemma QuotientLess(qh: Limb, digits: seq<Limb>, digits': seq<Limb>, b: Limb, d: int, t: int)
    requires |digits| == |digits'| && b <= 1 && d > 0
    requires Val(digits') - Shift(b, |digits|) == Val(digits) - 1
    requires Quotient(qh, digits) * d + t >= 0 && t < 0
    ensures qh >= b && Quotient(qh - b, digits') == Quotient(qh, digits) - 1
    ensures Quotient(qh - b, digits') * d + (t + d) == Quotient(qh, digits) * d + t
  {
    hide Val, Shift;
    var n, x := |digits|, Quotient(qh, digits);
    if x <= 0 {
      Commute(x, d);
      MulLe(d, x, 0);
    }
    ValBound(digits);
    ValBound(digits');
    ShiftZero(n);
    ShiftAdd((qh as int) - b, b, n);
    FinishOneLess(x, d);
  }

  lemma FinishOneLess(x: int, d: int)
    ensures (x - 1) * d + d == x * d
  {
  }

  /**
    The cc loop: while the remainder is negative the quotient loses 1 and the divisor is added back.
    t is the remainder belonging to the current quotient.
   */
  method CorrectQuotient(target: array<Limb>, tq: nat, qn: nat, op1: array<Limb>, p: nat, op2: array<Limb>, o2: nat, dn: nat,
                         qhl0: Limb, cc0: Limb, ghost num: int, ghost t0: int)
    returns (qhl: Limb)
    requires qn >= 1 && dn >= 1 && Slice(target, tq, qn) && Slice(op1, p, dn) && Slice(op2, o2, dn)
    requires target != op1 && target != op2 && op1 != op2
    requires Val(op1[p..p + dn]) - Shift(cc0, dn) == t0 && num >= 0
    requires num == Quotient(qhl0, target[tq..tq + qn]) * Val(op2[o2..o2 + dn]) + t0
    requires t0 < Val(op2[o2..o2 + dn]) && Val(op2[o2..o2 + dn]) > 0
    modifies target, op1
    ensures num == Quotient(qhl, target[tq..tq + qn]) * Val(op2[o2..o2 + dn]) + Val(op1[p..p + dn])
    ensures Val(op1[p..p + dn]) < Val(op2[o2..o2 + dn])
    ensures forall j :: 0 <= j < tq || tq + qn <= j < target.Length ==> target[j] == old(target[j])
    ensures forall j :: 0 <= j < p || p + dn <= j < op1.Length ==> op1[j] == old(op1[j])
  {
    hide Val, Shift, Quotient;
    ghost var d := Val(op2[o2..o2 + dn]);
    qhl := qhl0;
    var cc := cc0;
    ghost var t := t0;
    NegativeIffBorrow(op1[p..p + dn], cc, t);
    while cc != 0
      invariant Val(op1[p..p + dn]) - Shift(cc, dn) == t && t < d && (cc == 0 <==> t >= 0)
      invariant num == Quotient(qhl, target[tq..tq + qn]) * d + t
      invariant forall j :: 0 <= j < tq || tq + qn <= j < target.Length ==> target[j] == old(target[j])
      invariant forall j :: 0 <= j < p || p + dn <= j < op1.Length ==> op1[j] == old(op1[j])
      decreases d - t
    {
      qhl, cc := CorrectOnce(target, tq, qn, op1, p, op2, o2, dn, qhl, cc, num, t);
      t := t + d;
    }
    ShiftZero(dn);
  }

  method CorrectOnce(target: array<Limb>, tq: nat, qn: nat, op1: array<Limb>, p: nat, op2: array<Limb>, o2: nat, dn: nat,
                     qhl0: Limb, cc0: Limb, ghost num: int, ghost t: int)
    returns (qhl: Limb, cc: Limb)
    requires qn >= 1 && dn >= 1 && Slice(target, tq, qn) && Slice(op1, p, dn) && Slice(op2, o2, dn)
    requires target != op1 && target != op2 && op1 != op2
    requires cc0 >= 1 && Val(op1[p..p + dn]) - Shift(cc0, dn) == t && t < 0 && num >= 0
    requires num == Quotient(qhl0, target[tq..tq + qn]) * Val(op2[o2..o2 + dn]) + t && Val(op2[o2..o2 + dn]) > 0
    modifies target, op1
    ensures Val(op1[p..p + dn]) - Shift(cc, dn) == t + Val(op2[o2..o2 + dn])
    ensures cc == 0 <==> t + Val(op2[o2..o2 + dn]) >= 0
    ensures num == Quotient(qhl, target[tq..tq + qn]) * Val(op2[o2..o2 + dn]) + (t + Val(op2[o2..o2 + dn]))
    ensures forall j :: 0 <= j < tq || tq + qn <= j < target.Length ==> target[j] == old(target[j])
    ensures forall j :: 0 <= j < p || p + dn <= j < op1.Length ==> op1[j] == old(op1[j])
  {
    hide Val, Shift, Quotient;
    ghost var digits, d := target[tq..tq + qn], Val(op2[o2..o2 + dn]);
    var b := Sub1(target, tq, target, tq, qn, 1);
    ghost var digits' := target[tq..tq + qn];
    QuotientLess(qhl0, digits, digits', b, d, t);
    qhl := qhl0 - b;
    var carry := AddN(op1, p, op1, p, op2, o2, dn);
    cc := cc0 - carry;
    ShiftAdd(cc, carry, dn);
    NegativeIffBorrow(op1[p..p + dn], cc, t + d);
    assert target[tq..tq + qn] == digits';
  }

  /** Dividing by the high half of D first: what is left of N when that quotient is charged to all of D. */
  lemma HalfDivided(l: int, hi: int, n: nat, q: int, dh: int, dl: int, r1: int)
    requires hi == q * dh + r1
    ensures l + Shift(hi, n) == q * (dl + Shift(dh, n)) + (l + Shift(r1, n) - q * dl)
  {
    hide Shift;
    ShiftAdd(q * dh, r1, n);
    ShiftMul(q, dh, n);
    Commute(q, dl + Shift(dh, n));
    SumTimes(dl, Shift(dh, n), q);
    Commute(dl, q);
    Commute(Shift(dh, n), q);
  }

  /** That remainder is below D, and the quotient charged is below 2 * B^n. */
  lemma PartialBelow(l: int, r1: int, n: nat, q: int, dh: int, dl: int)
    requires 0 <= l < Shift(1, n) && r1 < dh && q >= 0 && dl >= 0
    ensures l + Shift(r1, n) - q * dl < dl + Shift(dh, n)
  {
    hide Shift;
    MulNonNegative(q, dl);
    ShiftAdd(r1, 1, n);
    ShiftLess(dh, r1 + 1, n);
  }

  lemma QuotientNonNegative(qh: Limb, digits: seq<Limb>)
    ensures Quotient(qh, digits) >= 0
  {
    ValBound(digits);
    ShiftZero(|digits|);
    if qh > 0 { ShiftLess(0, qh, |digits|); }
  }

  /** A normalized divisor is positive, and a numerator of twice its length has a quotient limb of at most 1 on top. */
  lemma TopLimbAtMostOne(num: int, qh: Limb, digits: seq<Limb>, d: seq<Limb>, r: int)
    requires |d| >= 1 && Normalized(d[|d| - 1]) && num == Quotient(qh, digits) * Val(d) + r && r >= 0
    requires num < Shift(1, |digits| + |d|)
    ensures qh <= 1
  {
    hide Val, Shift;
    ValBound(digits);
    var k, x := |digits|, Quotient(qh, digits);
    DivisorHalf(d);
    if qh >= 2 {
      if qh > 2 { ShiftLess(2, qh, k); }
      Commute(x, Val(d));
      MulLe(Val(d), Shift(2, k), x);
      ShiftMul(Val(d), 2, k);
      ShiftLess(Val(d) * 2, Shift(1, |d|), k);
      ShiftShift(1, |d|, k);
    }
  }

  lemma DivisorHalf(d: seq<Limb>)
    requires |d| >= 1 && Normalized(d[|d| - 1])
    ensures Val(d) > 0 && 2 * Val(d) >= Shift(1, |d|)
  {
    hide Val, Shift;
    var n := |d| - 1;
    ValTake(d, n);
    assert d[..n + 1] == d;
    ValBound(d[..n]);
    HalfBase(d[n], n);
    ShiftCons(1, n);
    ShiftLess(0, 1, n);
    ShiftZero(n);
  }

  /** Charging the half quotient to the low half of the divisor: product, subtraction, borrow. */
  method ChargeLowHalf(target: array<Limb>, to: nat, op1: array<Limb>, o1: nat, op2: array<Limb>, o2: nat, n: nat,
                       scratch: array<Limb>, so: nat, qhl: Limb)
    returns (cc: Limb)
    requires 1 <= n < 0x8000_0000 && qhl <= 1 && Distinct(target, op1, op2, scratch)
    requires Slice(target, to, n) && Slice(op1, o1, 2 * n) && Slice(op2, o2, n) && Slice(scratch, so, 2 * n)
    modifies op1, scratch
    ensures cc <= 2
    ensures Val(op1[o1..o1 + 2 * n]) - Shift(cc, 2 * n) ==
            Val(old(op1[o1..o1 + 2 * n])) - Quotient(qhl, target[to..to + n]) * Val(op2[o2..o2 + n])
    ensures forall j :: 0 <= j < o1 || o1 + 2 * n <= j < op1.Length ==> op1[j] == old(op1[j])
  {
    hide Val, Shift;
    ghost var q, dl := target[to..to + n], op2[o2..o2 + n];
    MulN(scratch, so, target, to, op2, o2, n);
    cc := SubN(op1, o1, op1, o1, scratch, so, 2 * n);
    QuotientTimes(qhl, q, Val(dl));
    if qhl != 0 {
      cc := SubtractHigh(op1, o1, op2, o2, n, cc);
    } else {
      ShiftZero(n);
    }
  }

  lemma QuotientTimes(qhl: Limb, q: seq<Limb>, d: int)
    requires qhl <= 1
    ensures Quotient(qhl, q) * d == Val(q) * d + if qhl == 0 then 0 else Shift(d, |q|)
  {
    hide Val, Shift;
    ShiftZero(|q|);
    if qhl == 1 {
      SumTimes(Val(q), Shift(1, |q|), d);
      ShiftMul(d, 1, |q|);
      Commute(d, Shift(1, |q|));
    }
  }

  method SubtractHigh(op1: array<Limb>, o1: nat, op2: array<Limb>, o2: nat, n: nat, cc0: Limb) returns (cc: Limb)
    requires Slice(op1, o1, 2 * n) && Slice(op2, o2, n) && op1 != op2 && cc0 <= 1
    modifies op1
    ensures cc <= 2
    ensures Val(op1[o1..o1 + 2 * n]) - Shift(cc, 2 * n) ==
            Val(old(op1[o1..o1 + 2 * n])) - Shift(cc0, 2 * n) - Shift(Val(op2[o2..o2 + n]), n)
    ensures forall j :: 0 <= j < o1 || o1 + 2 * n <= j < op1.Length ==> op1[j] == old(op1[j])
  {
    hide Val, Shift;
    ghost var low := op1[o1..o1 + n];
    TwoHalves(op1, o1, n);
    ghost var high := Val(op1[o1 + n..o1 + n + n]);
    var carry := SubN(op1, o1 + n, op1, o1 + n, op2, o2, n);
    assert op1[o1..o1 + n] == low;
    TwoHalves(op1, o1, n);
    cc := cc0 + carry;
    ShiftAdd(cc0, carry, 2 * n);
    ShiftShift(carry, n, n);
    ShiftAdd(Val(op1[o1 + n..o1 + n + n]), Val(op2[o2..o2 + n]), n);
    ShiftAdd(high, Shift(carry, n), n);
  }

  lemma TwoHalves(a: array<Limb>, o: nat, n: nat)
    requires Slice(a, o, 2 * n)
    ensures Val(a[o..o + 2 * n]) == Val(a[o..o + n]) + Shift(Val(a[o + n..o + n + n]), n)
  {
    var t := a[o..o + 2 * n];
    assert t[..n] == a[o..o + n] && t[n..] == a[o + n..o + n + n];
    ValSplit(t, n);
  }

  lemma LowAndHigh(a: array<Limb>, o: nat, n: nat, m: nat)
    requires Slice(a, o, n + m)
    ensures Val(a[o..o + (n + m)]) == Val(a[o..o + n]) + Shift(Val(a[o + n..o + n + m]), n)
  {
    var t := a[o..o + (n + m)];
    assert t[..n] == a[o..o + n] && t[n..] == a[o + n..o + n + m];
    ValSplit(t, n);
  }

  /** 2n limbs by the n limbs of the divisor's high half, schoolbook below 96 limbs. */
  method DivideHigh(target: array<Limb>, to: nat, op1: array<Limb>, p: nat, op2: array<Limb>, o2: nat, n: nat,
                    scratch: array<Limb>, so: nat)
    returns (qhl: Limb)
    requires 3 <= n < 0x8000_0000 && Distinct(target, op1, op2, scratch)
    requires Slice(target, to, n) && Slice(op1, p, 2 * n) && Slice(op2, o2, n) && Slice(scratch, so, n)
    requires Normalized(op2[o2 + n - 1])
    modifies target, op1, scratch
    ensures qhl <= 1 && Val(op1[p..p + n]) < Val(op2[o2..o2 + n])
    ensures Val(old(op1[p..p + 2 * n])) == Quotient(qhl, target[to..to + n]) * Val(op2[o2..o2 + n]) + Val(op1[p..p + n])
    ensures forall j :: 0 <= j < to || to + n <= j < target.Length ==> target[j] == old(target[j])
    ensures forall j :: 0 <= j < p || p + 2 * n <= j < op1.Length ==> op1[j] == old(op1[j])
    decreases n, 1
  {
    hide Val, Shift, Quotient;
    if n < 96 {
      qhl := SbDivremMN(target, to, op1, p, 2 * n, op2, o2, n);
    } else {
      qhl := DcDiv2By1(target, to, op1, p, op2, o2, n, scratch, so);
    }
  }

  /** What is left of N when the quotient of the high parts is charged to all of D, and that it stays below D. */
  lemma PartCharged(low: seq<Limb>, hi: int, q: int, dh: int, dl: seq<Limb>, r1: int, n: nat)
    requires |low| == n && |dl| == n && hi == q * dh + r1 && r1 < dh && q >= 0
    ensures Val(low) + Shift(hi, n) == q * (Val(dl) + Shift(dh, n)) + (Val(low) + Shift(r1, n) - q * Val(dl))
    ensures Val(low) + Shift(r1, n) - q * Val(dl) < Val(dl) + Shift(dh, n)
  {
    hide Val, Shift;
    ValBound(low);
    ValBound(dl);
    HalfDivided(Val(low), hi, n, q, dh, Val(dl), r1);
    PartialBelow(Val(low), r1, n, q, dh, Val(dl));
  }

  /** The high 2n limbs divided by the high half of D and the low half charged: a remainder t that may be negative. */
  method DivideAndCharge(target: array<Limb>, to: nat, op1: array<Limb>, o1: nat, op2: array<Limb>, o2: nat, n: nat,
                         scratch: array<Limb>, so: nat)
    returns (qhl: Limb, cc: Limb, ghost t: int)
    requires 3 <= n < 0x8000_0000 && Distinct(target, op1, op2, scratch)
    requires Slice(target, to, n) && Slice(op1, o1, 3 * n) && Slice(op2, o2, 2 * n) && Slice(scratch, so, 2 * n)
    requires Normalized(op2[o2 + 2 * n - 1])
    modifies target, op1, scratch
    ensures Val(old(op1[o1..o1 + 3 * n])) == Quotient(qhl, target[to..to + n]) * Val(op2[o2..o2 + 2 * n]) + t
    ensures t < Val(op2[o2..o2 + 2 * n]) && Val(op1[o1..o1 + 2 * n]) - Shift(cc, 2 * n) == t
    ensures forall j :: 0 <= j < to || to + n <= j < target.Length ==> target[j] == old(target[j])
    ensures forall j :: 0 <= j < o1 || o1 + 3 * n <= j < op1.Length ==> op1[j] == old(op1[j])
    decreases n, 2
  {
    hide Val, Shift, Quotient;
    ghost var low, dl := op1[o1..o1 + n], op2[o2..o2 + n];
    LowAndHigh(op1, o1, n, 2 * n);
    TwoHalves(op2, o2, n);
    ghost var hi, dh := Val(op1[o1 + n..o1 + n + 2 * n]), Val(op2[o2 + n..o2 + n + n]);
    qhl := DivideHigh(target, to, op1, o1 + n, op2, o2 + n, n, scratch, so);
    ghost var r1, q := Val(op1[o1 + n..o1 + n + n]), Quotient(qhl, target[to..to + n]);
    assert op1[o1..o1 + n] == low;
    TwoHalves(op1, o1, n);
    QuotientNonNegative(qhl, target[to..to + n]);
    PartCharged(low, hi, q, dh, dl, r1, n);
    t := Val(low) + Shift(r1, n) - q * Val(dl);
    cc := ChargeLowHalf(target, to, op1, o1, op2, o2, n, scratch, so, qhl);
  }

  /** 3n limbs by 2n limbs: the quotient has n limbs and a top limb, the remainder stays in the low 2n limbs. */
  method DcDiv3By2(target: array<Limb>, to: nat, op1: array<Limb>, o1: nat, op2: array<Limb>, o2: nat, n: nat,
                   scratch: array<Limb>, so: nat)
    returns (qhl: Limb)
    requires 3 <= n < 0x8000_0000 && Distinct(target, op1, op2, scratch)
    requires Slice(target, to, n) && Slice(op1, o1, 3 * n) && Slice(op2, o2, 2 * n) && Slice(scratch, so, 2 * n)
    requires Normalized(op2[o2 + 2 * n - 1])
    modifies target, op1, scratch
    ensures qhl <= 1 && Val(op1[o1..o1 + 2 * n]) < Val(op2[o2..o2 + 2 * n])
    ensures Val(old(op1[o1..o1 + 3 * n])) ==
            Quotient(qhl, target[to..to + n]) * Val(op2[o2..o2 + 2 * n]) + Val(op1[o1..o1 + 2 * n])
    ensures forall j :: 0 <= j < to || to + n <= j < target.Length ==> target[j] == old(target[j])
    ensures forall j :: 0 <= j < o1 || o1 + 3 * n <= j < op1.Length ==> op1[j] == old(op1[j])
    decreases n, 3
  {
    hide Val, Shift, Quotient;
    ghost var num := Val(op1[o1..o1 + 3 * n]);
    ValBound(op1[o1..o1 + 3 * n]);
    var cc;
    ghost var t;
    qhl, cc, t := DivideAndCharge(target, to, op1, o1, op2, o2, n, scratch, so);
    DivisorHalf(op2[o2..o2 + 2 * n]);
    qhl := CorrectQuotient(target, to, n, op1, o1, op2, o2, 2 * n, qhl, cc, num, t);
    ValBound(op1[o1..o1 + 2 * n]);
    TopLimbAtMostOne(num, qhl, target[to..to + n], op2[o2..o2 + 2 * n], Val(op1[o1..o1 + 2 * n]));
  }

  /** The same for the numbers: low part, high part before and after the carry dr, top limb before and after. */
  lemma CarriedParts(lo: int, hi: int, hi': int, dr: int, c: int, qh: int, k: nat, m: nat)
    requires hi' + Shift(c, m) == hi + dr
    ensures lo + Shift(hi', k) + Shift(qh + c, k + m) == lo + Shift(dr, k) + Shift(hi + Shift(qh, m), k)
  {
    hide Shift;
    ShiftShift(qh + c, m, k);
    ShiftAdd(qh, c, m);
    ShiftAdd(hi', Shift(qh + c, m), k);
    ShiftAdd(dr, hi + Shift(qh, m), k);
  }

  /** The quotient of the high part placed above the quotient of the low part, whose top limb is carried into it. */
  lemma QuotientsJoined(qh: Limb, hi: seq<Limb>, hi': seq<Limb>, c: Limb, dr: Limb, lo: seq<Limb>)
    requires |hi| == |hi'| && c <= 1 && qh <= 1 && Val(hi') + Shift(c, |hi|) == Val(hi) + dr
    ensures Quotient(qh + c, lo + hi') == Quotient(dr, lo) + Shift(Quotient(qh, hi), |lo|)
  {
    hide Val, Shift, Quotient;
    assert |lo + hi'| == |lo| + |hi|;
    QuotientParts(qh + c, lo + hi');
    assert Quotient(qh + c, lo + hi') == Val(lo + hi') + Shift((qh as int) + c, |lo| + |hi|);
    QuotientParts(dr, lo);
    QuotientParts(qh, hi);
    ValAppend(lo, hi');
    CarriedParts(Val(lo), Val(hi), Val(hi'), dr, c, qh, |lo|, |hi|);
  }

  lemma QuotientParts(q: Limb, s: seq<Limb>)
    ensures Quotient(q, s) == Val(s) + Shift(q, |s|)
  {
  }

  lemma NumeratorJoined(l: int, n1: int, k: nat, x1: int, r1: int, x2: int, r2: int, d: int)
    requires n1 == x1 * d + r1 && l + Shift(r1, k) == x2 * d + r2
    ensures l + Shift(n1, k) == (x2 + Shift(x1, k)) * d + r2
  {
    hide Shift;
    ShiftAdd(x1 * d, r1, k);
    ShiftMul(d, x1, k);
    Commute(d, x1);
    Commute(d, Shift(x1, k));
    SumTimes(x2, Shift(x1, k), d);
  }

  /** 4k limbs by 2k limbs in two 3-by-2 steps. */
  method DivideHalves(target: array<Limb>, to: nat, op1: array<Limb>, o1: nat, op2: array<Limb>, o2: nat, k: nat,
                      scratch: array<Limb>, so: nat)
    returns (qhl: Limb)
    requires 3 <= k < 0x8000_0000 && Distinct(target, op1, op2, scratch)
    requires Slice(target, to, 2 * k) && Slice(op1, o1, 4 * k) && Slice(op2, o2, 2 * k) && Slice(scratch, so, 2 * k)
    requires Normalized(op2[o2 + 2 * k - 1])
    modifies target, op1, scratch
    ensures qhl <= 1 && Val(op1[o1..o1 + 2 * k]) < Val(op2[o2..o2 + 2 * k])
    ensures Val(old(op1[o1..o1 + 4 * k])) ==
            Quotient(qhl, target[to..to + 2 * k]) * Val(op2[o2..o2 + 2 * k]) + Val(op1[o1..o1 + 2 * k])
    ensures forall j :: 0 <= j < to || to + 2 * k <= j < target.Length ==> target[j] == old(target[j])
    ensures forall j :: 0 <= j < o1 || o1 + 4 * k <= j < op1.Length ==> op1[j] == old(op1[j])
    decreases k, 4
  {
    hide Val, Shift, Quotient;
    ghost var num, low := op1[o1..o1 + 4 * k], op1[o1..o1 + k];
    ghost var d := Val(op2[o2..o2 + 2 * k]);
    LowAndHigh(op1, o1, k, 3 * k);
    ghost var n1 := Val(op1[o1 + k..o1 + k + 3 * k]);
    qhl := DcDiv3By2(target, to + k, op1, o1 + k, op2, o2, k, scratch, so);
    ghost var hi, r1 := target[to + k..to + k + k], Val(op1[o1 + k..o1 + k + 2 * k]);
    assert op1[o1..o1 + k] == low;
    LowAndHigh(op1, o1, k, 2 * k);
    var div_result := DcDiv3By2(target, to, op1, o1, op2, o2, k, scratch, so);
    ghost var lo := target[to..to + k];
    assert target[to + k..to + k + k] == hi;
    var carry := Add1(target, to + k, target, to + k, k, div_result);
    ghost var hi' := target[to + k..to + k + k];
    assert target[to..to + 2 * k] == lo + hi';
    QuotientsJoined(qhl, hi, hi', carry, div_result, lo);
    ghost var r2 := Val(op1[o1..o1 + 2 * k]);
    NumeratorJoined(Val(low), n1, k, Quotient(qhl, hi), r1, Quotient(div_result, lo), r2, d);
    qhl := qhl + carry;
    ValBound(num);
    ValBound(op1[o1..o1 + 2 * k]);
    TopLimbAtMostOne(Val(num), qhl, lo + hi', op2[o2..o2 + 2 * k], r2);
  }

  /** Odd case: the quotient charged to the lowest limb of the divisor, on m + 1 limbs of remainder. */
  method ChargeLowLimb(target: array<Limb>, tq: nat, op1: array<Limb>, p: nat, m: nat, d0: Limb, qhl: Limb) returns (cc: Limb)
    requires m >= 1 && qhl <= 1 && target != op1 && Slice(target, tq, m) && Slice(op1, p, m + 1)
    modifies op1
    ensures cc <= 2
    ensures Val(op1[p..p + (m + 1)]) - Shift(cc, m + 1) ==
            Val(old(op1[p..p + (m + 1)])) - Quotient(qhl, target[tq..tq + m]) * d0
    ensures forall j :: 0 <= j < p || p + (m + 1) <= j < op1.Length ==> op1[j] == old(op1[j])
  {
    hide Val, Shift, Quotient;
    ghost var q, low, top := target[tq..tq + m], op1[p..p + m], op1[p + m];
    assert op1[p..p + (m + 1)] == low + [top];
    cc := SubMul1(op1, p, target, tq, m, d0);
    ghost var low', c1 := op1[p..p + m], cc;
    assert op1[p + m..p + m + 1] == [top];
    ValOne(top);
    cc := Sub1(op1, p + m, op1, p + m, 1, cc);
    ghost var mid := op1[p + m];
    assert op1[p + m..p + m + 1] == [mid];
    ValOne(mid);
    ShiftOne(cc);
    if qhl != 0 {
      var c := Sub1(op1, p + m, op1, p + m, 1, d0);
      assert op1[p + m..p + m + 1] == [op1[p + m]];
      ValOne(op1[p + m]);
      ShiftOne(c);
      cc := cc + c;
    }
    ShiftOne(cc);
    ShiftZero(m);
    assert op1[p..p + m] == low';
    assert op1[p..p + (m + 1)] == low' + [op1[p + m]];
    QuotientTimes(qhl, q, d0);
    LimbCharged(low, top, low', op1[p + m], c1, cc, m, Val(q) * d0, if qhl == 0 then 0 else d0);
  }

  lemma LimbCharged(low: seq<Limb>, top: Limb, low': seq<Limb>, top': Limb, c1: int, cc: int, m: nat, x: int, y: int)
    requires |low| == |low'| == m && Val(low') - Shift(c1, m) == Val(low) - x
    requires top' - Shift(cc, 1) == top - c1 - y
    ensures Val(low' + [top']) - Shift(cc, m + 1) == Val(low + [top]) - (x + Shift(y, m))
  {
    hide Val, Shift;
    ValSnoc(low, top);
    ValSnoc(low', top');
    ShiftOne(cc);
    ShiftShift(cc, 1, m);
    ShiftAdd(c1, y, m);
    ShiftAdd((top as int) - c1 - y, c1 + y, m);
    ShiftAdd((top as int) - c1 - y, Shift(cc, 1), m);
  }

  lemma OneAndRest(a: array<Limb>, o: nat, m: nat)
    requires Slice(a, o, 1 + m)
    ensures Val(a[o..o + (1 + m)]) == a[o] + Shift(Val(a[o + 1..o + 1 + m]), 1)
  {
    LowAndHigh(a, o, 1, m);
    assert a[o..o + 1] == [a[o]];
    ValOne(a[o]);
  }

  /** Odd case, first part: the numerator without its lowest limb, 2n - 1 limbs, by n limbs. */
  method DivideButLowest(target: array<Limb>, tc: nat, op1: array<Limb>, p: nat, op2: array<Limb>, o2: nat, k: nat,
                         scratch: array<Limb>, so: nat)
    returns (qhl: Limb)
    requires 3 <= k < 0x8000_0000 && Distinct(target, op1, op2, scratch)
    requires Slice(target, tc, 2 * k) && Slice(op1, p, 4 * k + 1) && Slice(op2, o2, 2 * k + 1) && Slice(scratch, so, 2 * k)
    requires Normalized(op2[o2 + 2 * k])
    modifies target, op1, scratch
    ensures qhl <= 1 && Val(op1[p..p + (2 * k + 1)]) < Val(op2[o2..o2 + (2 * k + 1)])
    ensures Val(old(op1[p..p + (1 + 4 * k)])) ==
            Quotient(qhl, target[tc..tc + 2 * k]) * Val(op2[o2..o2 + (2 * k + 1)]) + Val(op1[p..p + (2 * k + 1)])
    ensures forall j :: 0 <= j < tc || tc + 2 * k <= j < target.Length ==> target[j] == old(target[j])
    ensures forall j :: 0 <= j < p || p + (4 * k + 1) <= j < op1.Length ==> op1[j] == old(op1[j])
    decreases k, 5
  {
    hide Val, Shift, Quotient;
    ghost var num, n1: int, d0: int := op1[p..p + (1 + 4 * k)], op1[p], op2[o2];
    OneAndRest(op1, p, 4 * k);
    OneAndRest(op2, o2, 2 * k);
    assert op2[o2..o2 + (1 + 2 * k)] == op2[o2..o2 + (2 * k + 1)];
    ghost var hi, dh := Val(op1[p + 1..p + 1 + 4 * k]), Val(op2[o2 + 1..o2 + 1 + 2 * k]);
    qhl := DivideHalves(target, tc, op1, p + 1, op2, o2 + 1, k, scratch, so);
    ghost var r1, q := Val(op1[p + 1..p + 1 + 2 * k]), Quotient(qhl, target[tc..tc + 2 * k]);
    OneAndRest(op1, p, 2 * k);
    assert op1[p..p + (1 + 2 * k)] == op1[p..p + (2 * k + 1)];
    var cc := ChargeLowLimb(target, tc, op1, p, 2 * k, op2[o2], qhl);
    HalfDivided(n1, hi, 1, q, dh, d0, r1);
    ShiftOne(1);
    QuotientNonNegative(qhl, target[tc..tc + 2 * k]);
    PartialBelow(n1, r1, 1, q, dh, d0);
    ValBound(num);
    ghost var d := op2[o2..o2 + (2 * k + 1)];
    DivisorHalf(d);
    qhl := CorrectQuotient(target, tc, 2 * k, op1, p, op2, o2, 2 * k + 1, qhl, cc, Val(num), n1 + Shift(r1, 1) - q * d0);
    ValBound(op1[p..p + (2 * k + 1)]);
    TopLimbAtMostOne(Val(num), qhl, target[tc..tc + 2 * k], d, Val(op1[p..p + (2 * k + 1)]));
  }

  /** 2n limbs by n limbs, n >= 6: quotient of n limbs and a top limb, remainder in the low n limbs. */
  method DcDiv2By1(target: array<Limb>, to: nat, op1: array<Limb>, o1: nat, op2: array<Limb>, o2: nat, n: nat,
                   scratch: array<Limb>, so: nat)
    returns (qhl: Limb)
    requires 6 <= n < 0x8000_0000 && Distinct(target, op1, op2, scratch)
    requires Slice(target, to, n) && Slice(op1, o1, 2 * n) && Slice(op2, o2, n) && Slice(scratch, so, n)
    requires Normalized(op2[o2 + n - 1])
    modifies target, op1, scratch
    ensures qhl <= 1 && Val(op1[o1..o1 + n]) < Val(op2[o2..o2 + n])
    ensures Val(old(op1[o1..o1 + 2 * n])) ==
            Quotient(qhl, target[to..to + n]) * Val(op2[o2..o2 + n]) + Val(op1[o1..o1 + n])
    ensures forall j :: 0 <= j < to || to + n <= j < target.Length ==> target[j] == old(target[j])
    ensures forall j :: 0 <= j < o1 || o1 + 2 * n <= j < op1.Length ==> op1[j] == old(op1[j])
    decreases n, 0
  {
    hide Val, Shift, Quotient;
    var n2 := n / 2;
    if n % 2 != 0 {
      assert n == 2 * n2 + 1 && 2 * n == 1 + (1 + 4 * n2);
      qhl := DivideOdd(target, to, op1, o1, op2, o2, n2, scratch, so);
    } else {
      assert n == 2 * n2 && 2 * n == 4 * n2;
      qhl := DivideHalves(target, to, op1, o1, op2, o2, n2, scratch, so);
    }
  }

  /** Odd case: all but the lowest limb first, then one schoolbook digit. */
  method DivideOdd(target: array<Limb>, to: nat, op1: array<Limb>, o1: nat, op2: array<Limb>, o2: nat, k: nat,
                   scratch: array<Limb>, so: nat)
    returns (qhl: Limb)
    requires 3 <= k < 0x8000_0000 && Distinct(target, op1, op2, scratch)
    requires Slice(target, to, 2 * k + 1) && Slice(op1, o1, 1 + (1 + 4 * k)) && Slice(op2, o2, 2 * k + 1)
    requires Slice(scratch, so, 2 * k) && Normalized(op2[o2 + 2 * k])
    modifies target, op1, scratch
    ensures qhl <= 1 && Val(op1[o1..o1 + (2 * k + 1)]) < Val(op2[o2..o2 + (2 * k + 1)])
    ensures Val(old(op1[o1..o1 + (1 + (1 + 4 * k))])) ==
            Quotient(qhl, target[to..to + (2 * k + 1)]) * Val(op2[o2..o2 + (2 * k + 1)]) + Val(op1[o1..o1 + (2 * k + 1)])
    ensures forall j :: 0 <= j < to || to + (2 * k + 1) <= j < target.Length ==> target[j] == old(target[j])
    ensures forall j :: 0 <= j < o1 || o1 + (1 + (1 + 4 * k)) <= j < op1.Length ==> op1[j] == old(op1[j])
    decreases k, 6
  {
    hide Val, Shift, Quotient;
    ghost var num, n0: int := op1[o1..o1 + (1 + (1 + 4 * k))], op1[o1];
    ghost var d := op2[o2..o2 + (2 * k + 1)];
    OneAndRest(op1, o1, 1 + 4 * k);
    ghost var n1 := Val(op1[o1 + 1..o1 + 1 + (1 + 4 * k)]);
    qhl := DivideButLowest(target, to + 1, op1, o1 + 1, op2, o2, k, scratch, so);
    ghost var hi, r1 := target[to + 1..to + 1 + 2 * k], Val(op1[o1 + 1..o1 + 1 + (2 * k + 1)]);
    OneAndRest(op1, o1, 2 * k + 1);
    assert op1[o1..o1 + (1 + (2 * k + 1))] == op1[o1..o1 + (2 * k + 2)];
    var div_result := SbDivremMN(target, to, op1, o1, 2 * k + 2, op2, o2, 2 * k + 1);
    ghost var lo := target[to..to + 1];
    assert target[to..to + ((2 * k + 2) - (2 * k + 1))] == lo;
    assert target[to + 1..to + 1 + 2 * k] == hi;
    var carry := Add1(target, to + 1, target, to + 1, 2 * k, div_result);
    ghost var hi' := target[to + 1..to + 1 + 2 * k];
    assert target[to..to + (2 * k + 1)] == lo + hi';
    QuotientsJoined(qhl, hi, hi', carry, div_result, lo);
    ghost var r2 := Val(op1[o1..o1 + (2 * k + 1)]);
    NumeratorJoined(n0, n1, 1, Quotient(qhl, hi), r1, Quotient(div_result, lo), r2, Val(d));
    qhl := qhl + carry;
    ValBound(num);
    ValBound(op1[o1..o1 + (2 * k + 1)]);
    TopLimbAtMostOne(Val(num), qhl, lo + hi', d, r2);
  }

  /** dc_divrem_n: with a fresh scratch of n limbs. */
  method DcDivremN(target: array<Limb>, to: nat, op1: array<Limb>, o1: nat, op2: array<Limb>, o2: nat, n: nat)
    returns (qhl: Limb)
    requires 6 <= n < 0x8000_0000 && target != op1 && target != op2 && op1 != op2
    requires Slice(target, to, n) && Slice(op1, o1, 2 * n) && Slice(op2, o2, n) && Normalized(op2[o2 + n - 1])
    modifies target, op1
    ensures qhl <= 1 && Val(op1[o1..o1 + n]) < Val(op2[o2..o2 + n])
    ensures Val(old(op1[o1..o1 + 2 * n])) ==
            Quotient(qhl, target[to..to + n]) * Val(op2[o2..o2 + n]) + Val(op1[o1..o1 + n])
    ensures forall j :: 0 <= j < to || to + n <= j < target.Length ==> target[j] == old(target[j])
    ensures forall j :: 0 <= j < o1 || o1 + 2 * n <= j < op1.Length ==> op1[j] == old(op1[j])
  {
    hide Val, Shift, Quotient;
    var scratch := new Limb[n](_ => 0);
    qhl := DcDiv2By1(target, to, op1, o1, op2, o2, n, scratch, 0);
  }
}
