/** Division by any divisor: normalize, divide, denormalize the remainder. */
module TruncatingDivision {
  import opened Integers
  import opened Limbs
  import opened Bits
  import opened SpecialLogic
  import opened WordDivision
  import opened SpecialArithmetic
  import opened SchoolbookDivision
  import opened TwoLimbDivision

  /** Scaling numerator and divisor by p scales the remainder by p and leaves the quotient. */
  lemma Denormalized(n: int, d: int, p: int, q: int, r': int) returns (r: int)
    requires p >= 1 && n * p == q * (d * p) + r' && 0 <= r' < d * p
    ensures r' == r * p && n == q * d + r && 0 <= r < d
  {
    r := n - q * d;
    assert q * (d * p) == (q * d) * p;
    assert (n - q * d) * p == n * p - (q * d) * p;
    if r < 0 {
      Commute(r, p);
      MulLe(p, r, -1);
    }
    if r >= d {
      Commute(r, p);
      Commute(d, p);
      MulLe(p, d, r);
    }
  }

  /** The count that brings the top bit of a non-zero limb up. */
  lemma NormalizingShift(x: Limb)
    requires 0 < x < 0x8000_0000
    ensures 1 <= LeadingZeros(x) <= 31
    ensures Normalized(Shl(x, LeadingZeros(x))) && Shl(x, LeadingZeros(x)) == x * Pow2(LeadingZeros(x))
  {
    hide LeadingZerosFrom;
    Pow2Limb();
    LeadingZerosMeaning(x, 32);
    var c := LeadingZeros(x);
    assert Pow2(32) == 2 * Pow2(31);
    ShlOf(x, c);
  }

  lemma ShlOf(x: Limb, c: nat)
    requires 1 <= c <= 31 && Pow2(32 - c - 1) <= x < Pow2(32 - c)
    ensures Shl(x, c) == x * Pow2(c) && 0x8000_0000 <= Shl(x, c)
  {
    var p, q := Pow2(c), Pow2(32 - c - 1);
    Pow2Add(c, 32 - c - 1);
    Pow2Add(c, 32 - c);
    Pow2Limb();
    assert Pow2(32) == 2 * Pow2(31);
    Commute(x, p);
    MulLe(p, q, x);
    MulLe(p, x, Pow2(32 - c) - 1);
    Distribute(p, Pow2(32 - c));
    DivModUnique(x * p, 0x1_0000_0000, 0, x * p);
  }

  /** A quotient limb that is dropped is 0 when the numerator is too small for it. */
  lemma DroppedLimbIsZero(qh: Limb, digits: seq<Limb>, n: int, d: int, r: int)
    requires n == Quotient(qh, digits) * d + r && 0 <= r && 0 <= d
    requires n < Shift(d, |digits|)
    ensures qh == 0 && Quotient(qh, digits) == Val(digits)
  {
    hide Val, Shift;
    ValBound(digits);
    ShiftZero(|digits|);
    if qh > 0 {
      ShiftMul(d, 1, |digits|);
      if qh > 1 { ShiftLess(1, qh, |digits|); }
      var x := Quotient(qh, digits);
      Commute(x, d);
      MulLe(d, Shift(1, |digits|), x);
    }
  }

  lemma QuotientSnoc(qh: Limb, digits: seq<Limb>)
    ensures Quotient(qh, digits) == Val(digits + [qh])
  {
    ValSnoc(digits, qh);
  }

  // Two-limb divisors.

  lemma ShiftedDivisor(h: Limb, l: Limb, c: nat)
    requires 1 <= c <= 31 && Shl(h, c) == h * Pow2(c)
    ensures Or(Shl(h, c), Shr(l, 32 - c)) < 0x1_0000_0000
    ensures Double(Or(Shl(h, c), Shr(l, 32 - c)), Shl(l, c)) == Double(h, l) * Pow2(c)
  {
    hide Pow2, Or, Shl, Shr;
    ShiftedJoin(h, l, c);
    ShiftParts(l, c);
    var p, x: int, y: int := Pow2(c), h, l;
    SumTimes(x * 0x1_0000_0000, y, p);
    assert (x * 0x1_0000_0000) * p == (x * p) * 0x1_0000_0000;
  }

  lemma ShiftedBack(h: Limb, l: Limb, c: nat, v: int)
    requires 1 <= c <= 31 && Double(h, l) == v * Pow2(c)
    ensures Or(Shr(l, c), Shl(h, 32 - c)) < 0x1_0000_0000
    ensures Double(Shr(h, c), Or(Shr(l, c), Shl(h, 32 - c))) == v
  {
    hide Or;
    ShiftedJoin(h, l, 32 - c);
    OrCommutes(Shr(l, c), Shl(h, 32 - c));
    ShiftParts(h, 32 - c);
    Pow2Add(c, 32 - c);
    Pow2Limb();
    WordsBack(h, l, Pow2(c), Pow2(32 - c), v, Shr(h, c), Shl(h, 32 - c));
  }

  lemma WordsBack(h: int, l: int, p: int, q: int, v: int, hi: int, lo: int)
    requires p >= 1 && l >= 0 && p * q == 0x1_0000_0000 && h * q == lo + 0x1_0000_0000 * hi
    requires h * 0x1_0000_0000 + l == v * p
    ensures hi * 0x1_0000_0000 + lo + l / p == v
  {
    var x := h * q;
    assert p * x == h * 0x1_0000_0000 by {
      assert p * (h * q) == h * (p * q);
    }
    assert l == p * (v - x) by {
      Commute(v, p);
      assert p * (v - x) == p * v - p * x;
    }
    DivModUnique(l, p, v - x, 0);
  }

  /** tdiv_qr_two_case */
  method TdivQrTwoCase(target: array<Limb>, to: nat, remainder: array<Limb>, ro: nat,
                       numerator: array<Limb>, no: nat, nn: nat, denominator: array<Limb>, dno: nat)
    requires nn >= 2 && Slice(numerator, no, nn) && Slice(denominator, dno, 2) && denominator[dno + 1] != 0
    requires Slice(target, to, nn - 1) && Slice(remainder, ro, 2) && Apart(target, to, nn - 1, remainder, ro, 2)
    modifies target, remainder
    ensures Val(remainder[ro..ro + 2]) < old(Val(denominator[dno..dno + 2]))
    ensures old(Val(numerator[no..no + nn])) ==
            Val(target[to..to + (nn - 1)]) * old(Val(denominator[dno..dno + 2])) + Val(remainder[ro..ro + 2])
    ensures forall j :: 0 <= j < target.Length && !(to <= j < to + (nn - 1)) && !(target == remainder && ro <= j < ro + 2) ==>
      target[j] == old(target[j])
    ensures forall j :: 0 <= j < remainder.Length && !(ro <= j < ro + 2) && !(remainder == target && to <= j < to + (nn - 1)) ==>
      remainder[j] == old(remainder[j])
  {
    hide Val, Shift, Pow2, Shl, Shr, Or, LeadingZeros, Quotient;
    ghost var n := Val(numerator[no..no + nn]);
    var h, l := denominator[dno + 1], denominator[dno];
    assert denominator[dno..dno + 2] == [l, h];
    ValTwo(l, h);
    var r1, r0;
    if h < 0x8000_0000 {
      r1, r0 := TwoCaseShifted(target, to, numerator, no, nn, h, l);
    } else {
      r1, r0 := TwoCasePlain(target, to, numerator, no, nn, denominator, dno);
    }
    ghost var q := target[to..to + (nn - 1)];
    remainder[ro] := r0;
    remainder[ro + 1] := r1;
    assert remainder[ro..ro + 2] == [r0, r1];
    ValTwo(r0, r1);
    assert target[to..to + (nn - 1)] == q;
  }

  method TwoCasePlain(target: array<Limb>, to: nat, numerator: array<Limb>, no: nat, nn: nat, denominator: array<Limb>, dno: nat)
    returns (r1: Limb, r0: Limb)
    requires nn >= 2 && Slice(numerator, no, nn) && Slice(denominator, dno, 2) && Normalized(denominator[dno + 1])
    requires Slice(target, to, nn - 1)
    modifies target
    ensures Double(r1, r0) < old(Double(denominator[dno + 1], denominator[dno]))
    ensures old(Val(numerator[no..no + nn])) ==
            Val(target[to..to + (nn - 1)]) * old(Double(denominator[dno + 1], denominator[dno])) + Double(r1, r0)
    ensures forall j :: 0 <= j < to || to + (nn - 1) <= j < target.Length ==> target[j] == old(target[j])
  {
    hide Val, Shift, Quotient;
    var n2p := new Limb[nn](_ => 0);
    CopyData(n2p, 0, numerator, no, nn);
    var qhl := Divrem2(target, to, n2p, 0, nn, denominator, dno);
    ghost var digits := target[to..to + (nn - 2)];
    target[to + nn - 2] := qhl;
    assert target[to..to + (nn - 1)] == digits + [qhl];
    QuotientSnoc(qhl, digits);
    r1, r0 := n2p[1], n2p[0];
  }

  method TwoCaseShifted(target: array<Limb>, to: nat, numerator: array<Limb>, no: nat, nn: nat, h: Limb, l: Limb)
    returns (r1: Limb, r0: Limb)
    requires nn >= 2 && Slice(numerator, no, nn) && 0 < h < 0x8000_0000 && Slice(target, to, nn - 1)
    modifies target
    ensures Double(r1, r0) < Double(h, l)
    ensures old(Val(numerator[no..no + nn])) == Val(target[to..to + (nn - 1)]) * Double(h, l) + Double(r1, r0)
    ensures forall j :: 0 <= j < to || to + (nn - 1) <= j < target.Length ==> target[j] == old(target[j])
  {
    hide Val, Shift, Quotient, Pow2, Shl, Shr, Or, LeadingZeros;
    ghost var n := Val(numerator[no..no + nn]);
    var cnt := LeadingZeros(h);
    NormalizingShift(h);
    ShiftedDivisor(h, l, cnt);
    var d2p := new Limb[2](_ => 0);
    d2p[1] := Or(Shl(h, cnt), Shr(l, 32 - cnt));
    d2p[0] := Shl(l, cnt);
    var n2p := new Limb[nn + 1](_ => 0);
    var cy := LShift(n2p, 0, numerator, no, nn, cnt);
    n2p[nn] := cy;
    ghost var np := n * Pow2(cnt);
    ghost var d := Double(d2p[1], d2p[0]);
    var m := if cy != 0 then nn + 1 else nn;
    ShiftedNumerator(n2p[0..0 + nn], cy, np);
    assert n2p[0..0 + (nn + 1)] == n2p[0..0 + nn] + [cy];
    assert Val(n2p[0..0 + m]) == np;
    CarrySmall(cy, cnt);
    JoinNormalized(h, l, cnt);
    r1, r0 := ShiftedDivision(target, to, n2p, nn, m, d2p, n, np, Double(h, l), cnt);
  }

  lemma ShiftedNumerator(s: seq<Limb>, cy: Limb, np: int)
    requires Val(s) + Shift(cy, |s|) == np
    ensures Val(s + [cy]) == np && (cy == 0 ==> Val(s) == np)
  {
    hide Val, Shift;
    ValSnoc(s, cy);
    ShiftZero(|s|);
  }

  lemma CarrySmall(cy: Limb, c: nat)
    requires 1 <= c <= 31 && cy < Pow2(c)
    ensures cy < 0x8000_0000
  {
    Pow2Add(c, 31 - c);
    Pow2Limb();
    assert Pow2(32) == 2 * Pow2(31);
    MulLe(Pow2(c), 1, Pow2(31 - c));
  }

  lemma JoinNormalized(h: Limb, l: Limb, c: nat)
    requires 1 <= c <= 31 && Normalized(Shl(h, c))
    ensures Or(Shl(h, c), Shr(l, 32 - c)) >= 0x8000_0000
  {
    ShiftedJoin(h, l, c);
  }

  /** The division proper on m limbs of shifted numerator; a quotient limb that would not fit is 0. */
  method ShiftedDivision(target: array<Limb>, to: nat, n2p: array<Limb>, nn: nat, m: nat, d2p: array<Limb>,
                         ghost n: int, ghost np: int, ghost d: int, cnt: nat)
    returns (r1: Limb, r0: Limb)
    requires nn >= 2 && n2p.Length == nn + 1 && d2p.Length == 2 && Normalized(d2p[1]) && 1 <= cnt <= 31
    requires Slice(target, to, nn - 1) && target != n2p && target != d2p && n2p != d2p
    requires np == n * Pow2(cnt) && Double(d2p[1], d2p[0]) == d * Pow2(cnt)
    requires m == (if n2p[nn] != 0 then nn + 1 else nn) && Val(n2p[0..0 + m]) == np && n2p[nn] < 0x8000_0000
    modifies target, n2p
    ensures n == Val(target[to..to + (nn - 1)]) * d + Double(r1, r0) && Double(r1, r0) < d
    ensures forall j :: 0 <= j < to || to + (nn - 1) <= j < target.Length ==> target[j] == old(target[j])
  {
    hide Val, Shift, Quotient, Pow2, Shl, Shr, Or;
    ghost var dp := Double(d2p[1], d2p[0]);
    var cy := n2p[nn];
    if cy != 0 {
      NumeratorSmall(n2p[0..0 + m], nn, dp);
    }
    var qhl := Divrem2(target, to, n2p, 0, m, d2p, 0);
    ghost var digits := target[to..to + (m - 2)];
    ghost var rp := Double(n2p[1], n2p[0]);
    if cy == 0 {
      target[to + nn - 2] := qhl;
      assert target[to..to + (nn - 1)] == digits + [qhl];
      QuotientSnoc(qhl, digits);
    } else {
      DroppedLimbIsZero(qhl, digits, np, dp, rp);
    }
    ghost var r := Denormalized(n, d, Pow2(cnt), Val(target[to..to + (nn - 1)]), rp);
    ShiftedBack(n2p[1], n2p[0], cnt, r);
    r0 := Or(Shr(n2p[0], cnt), Shl(n2p[1], 32 - cnt));
    r1 := Shr(n2p[1], cnt);
  }

  lemma NumeratorSmall(s: seq<Limb>, nn: nat, d: int)
    requires |s| == nn + 1 && nn >= 1 && s[nn] < 0x8000_0000 && d >= 0x8000_0000_0000_0000
    ensures Val(s) < Shift(d, nn - 1)
  {
    hide Val, Shift;
    ValTake(s, nn);
    assert s[..nn + 1] == s;
    ValBound(s[..nn]);
    ShiftAdd(s[nn], 1, nn);
    ShiftShift((s[nn] as int) + 1, 1, nn - 1);
    ShiftOne((s[nn] as int) + 1);
    ShiftLess(d, 0x1_0000_0000 * ((s[nn] as int) + 1), nn - 1);
  }

  // Divisors of 3 to 95 limbs.

  /** The quotient has at most m - dn limbs, m being the count corrected by the comparison of the top limbs. */
  lemma QuotientLength(num: seq<Limb>, den: seq<Limb>, m: nat)
    requires |num| >= |den| >= 1 && den[|den| - 1] != 0
    requires m == |num| + if num[|num| - 1] >= den[|den| - 1] then 1 else 0
    ensures Val(num) < Shift(Val(den), m - |den|)
  {
    hide Val, Shift;
    var nn, dn := |num|, |den|;
    var k := nn - dn;
    if m == nn {
      var hi := num[k..];
      TopLimbDecides(hi, den, dn - 1);
      assert hi[..dn] == hi && den[..dn] == den;
      ValSplit(num, k);
      ValBound(num[..k]);
      ShiftAdd(Val(hi), 1, k);
      ShiftLess(Val(den), Val(hi) + 1, k);
    } else {
      ValBound(num);
      ValTake(den, dn - 1);
      assert den[..dn] == den;
      ValBound(den[..dn - 1]);
      ShiftLess(den[dn - 1], 1, dn - 1);
      ShiftLess(Val(den), Shift(1, dn - 1), k + 1);
      ShiftShift(1, dn - 1, k + 1);
    }
  }

  lemma ScaledBound(n: int, d: int, p: int, k: nat)
    requires n < Shift(d, k) && p >= 1
    ensures n * p < Shift(d * p, k)
  {
    hide Shift;
    ShiftMul(p, d, k);
    Commute(p, d);
    Commute(n, p);
    MulLe(p, n + 1, Shift(d, k));
    assert p * (n + 1) == p * n + p;
  }

  /** The schoolbook division of the scaled numbers on m limbs; the limb above the quotient is 0 and dropped. */
  method ScaledDivision(target: array<Limb>, to: nat, n2p: array<Limb>, nn: nat, m: nat,
                        d2p: array<Limb>, d2o: nat, dn: nat, ghost n: int, ghost d: int, ghost p: int)
    returns (ghost r: int)
    requires dn > 2 && nn >= dn && n2p.Length == nn + 1 && (m == nn || m == nn + 1)
    requires Slice(d2p, d2o, dn) && Normalized(d2p[d2o + dn - 1]) && Slice(target, to, nn - dn + 1)
    requires target != n2p && target != d2p && n2p != d2p && target[to + nn - dn] == 0
    requires p >= 1 && Val(n2p[0..0 + m]) == n * p && Val(d2p[d2o..d2o + dn]) == d * p && n < Shift(d, m - dn)
    modifies target, n2p
    ensures 0 <= r < d && n == Val(target[to..to + (nn - dn + 1)]) * d + r && Val(n2p[0..0 + dn]) == r * p
    ensures forall j :: 0 <= j < to || to + (nn - dn + 1) <= j < target.Length ==> target[j] == old(target[j])
  {
    hide Val, Shift, Quotient;
    ScaledBound(n, d, p, m - dn);
    var junk := SbDivremMN(target, to, n2p, 0, m, d2p, d2o, dn);
    ghost var digits := target[to..to + (m - dn)];
    ghost var rp := Val(n2p[0..0 + dn]);
    ValBound(n2p[0..0 + dn]);
    DroppedLimbIsZero(junk, digits, n * p, d * p, rp);
    if m == nn {
      assert target[to..to + (nn - dn + 1)] == digits + [0];
      ValSnoc(digits, 0);
      ShiftZero(|digits|);
    }
    r := Denormalized(n, d, p, Val(digits), rp);
  }

  /** tdiv_qr_large_numerator for 3 to 95 divisor limbs, a divisor whose top bit is clear. */
  method LargeShifted(target: array<Limb>, to: nat, remainder: array<Limb>, ro: nat, numerator: array<Limb>, no: nat, nn: nat,
                      denominator: array<Limb>, dno: nat, dn: nat, m: nat)
    requires 2 < dn && nn >= dn && Slice(numerator, no, nn) && Slice(denominator, dno, dn)
    requires 0 < denominator[dno + dn - 1] < 0x8000_0000
    requires m == nn + if numerator[no + nn - 1] >= denominator[dno + dn - 1] then 1 else 0
    requires Slice(target, to, nn - dn + 1) && target[to + nn - dn] == 0 && Slice(remainder, 0, dn) && target != remainder
    modifies target, remainder
    ensures 0 <= Val(remainder[..dn]) < old(Val(denominator[dno..dno + dn]))
    ensures old(Val(numerator[no..no + nn])) ==
            Val(target[to..to + (nn - dn + 1)]) * old(Val(denominator[dno..dno + dn])) + Val(remainder[..dn])
    ensures forall j :: 0 <= j < to || to + (nn - dn + 1) <= j < target.Length ==> target[j] == old(target[j])
    ensures forall j :: dn <= j < remainder.Length ==> remainder[j] == old(remainder[j])
  {
    hide Val, Shift, Pow2, LeadingZeros, Shl;
    ghost var n, d := numerator[no..no + nn], denominator[dno..dno + dn];
    QuotientLength(n, d, m);
    var cnt := LeadingZeros(denominator[dno + dn - 1]);
    NormalizingShift(denominator[dno + dn - 1]);
    var d2p := new Limb[dn](_ => 0);
    var n2p := new Limb[nn + 1](_ => 0);
    ScaleBoth(d2p, n2p, numerator, no, nn, denominator, dno, dn, cnt, m);
    ghost var r := ScaledDivision(target, to, n2p, nn, m, d2p, 0, dn, Val(n), Val(d), Pow2(cnt));
    ghost var q := target[to..to + (nn - dn + 1)];
    var junk := RShift(remainder, ro, n2p, 0, dn, cnt);
    RShiftExact(remainder[..dn], r * Pow2(cnt), r, cnt, junk);
    assert target[to..to + (nn - dn + 1)] == q;
  }

  /** Both operands shifted left by cnt. */
  method ScaleBoth(d2p: array<Limb>, n2p: array<Limb>, numerator: array<Limb>, no: nat, nn: nat,
                   denominator: array<Limb>, dno: nat, dn: nat, cnt: nat, ghost m: nat)
    requires 2 < dn && nn >= dn && Slice(numerator, no, nn) && Slice(denominator, dno, dn) && 1 <= cnt <= 31
    requires d2p.Length == dn && n2p.Length == nn + 1 && d2p != n2p
    requires d2p != numerator && d2p != denominator && n2p != numerator && n2p != denominator
    requires Normalized(Shl(denominator[dno + dn - 1], cnt))
    requires Shl(denominator[dno + dn - 1], cnt) == denominator[dno + dn - 1] * Pow2(cnt)
    requires (m == nn || m == nn + 1) && Val(numerator[no..no + nn]) < Shift(Val(denominator[dno..dno + dn]), m - dn)
    modifies d2p, n2p
    ensures Normalized(d2p[dn - 1]) && Val(d2p[0..0 + dn]) == Val(denominator[dno..dno + dn]) * Pow2(cnt)
    ensures Val(n2p[0..0 + m]) == Val(numerator[no..no + nn]) * Pow2(cnt)
  {
    hide Val, Shift, Pow2, Shl;
    ghost var n, d := numerator[no..no + nn], denominator[dno..dno + dn];
    var junk := LShift(d2p, 0, denominator, dno, dn, cnt);
    NothingShiftedOut(d, d2p[0..0 + dn], junk, cnt);
    ghost var ds := d2p[0..0 + dn];
    var cy := LShift(n2p, 0, numerator, no, nn, cnt);
    ghost var s := n2p[0..0 + nn];
    n2p[nn] := cy;
    assert n2p[0..0 + (nn + 1)] == s + [cy] && n2p[0..0 + nn] == s;
    assert d2p[0..0 + dn] == ds;
    ScaledBound(Val(n), Val(d), Pow2(cnt), m - dn);
    NumeratorLimbs(s, cy, Val(n) * Pow2(cnt), ds, m);
  }

  lemma NumeratorLimbs(s: seq<Limb>, cy: Limb, np: int, ds: seq<Limb>, m: nat)
    requires Val(s) + Shift(cy, |s|) == np && |ds| <= |s| && (m == |s| || m == |s| + 1)
    requires np < Shift(Val(ds), m - |ds|)
    ensures if m == |s| then Val(s) == np else Val(s + [cy]) == np
  {
    hide Val, Shift;
    ValSnoc(s, cy);
    ShiftZero(|s|);
    if m == |s| && cy > 0 {
      ValBound(s);
      ValBound(ds);
      ShiftLess(Val(ds), Shift(1, |ds|), |s| - |ds|);
      ShiftShift(1, |ds|, |s| - |ds|);
      if cy > 1 { ShiftLess(1, cy, |s|); }
    }
  }

  /** The divisor keeps its length when it is normalized. */
  lemma NothingShiftedOut(d: seq<Limb>, s: seq<Limb>, carry: Limb, c: nat)
    requires |d| == |s| >= 1 && 1 <= c <= 31 && Val(s) + Shift(carry, |s|) == Val(d) * Pow2(c)
    requires Normalized(Shl(d[|d| - 1], c)) && Shl(d[|d| - 1], c) == d[|d| - 1] * Pow2(c)
    ensures Val(s) == Val(d) * Pow2(c) && Normalized(s[|s| - 1])
  {
    hide Val, Shift, Pow2, Shl;
    var n, y := |d| - 1, (d[|d| - 1] as int) * Pow2(c);
    ShiftedValue(d, c, y);
    ValBound(s);
    ShiftZero(|s|);
    if carry > 1 { ShiftLess(1, carry, |s|); }
    ValTake(s, n);
    assert s[..n + 1] == s;
    ValBound(s[..n]);
    ShiftAdd(s[n], 1, n);
    ShiftLess(y, (s[n] as int) + 1, n);
  }

  lemma ShiftedValue(d: seq<Limb>, c: nat, y: int)
    requires |d| >= 1 && 1 <= c <= 31 && y == (d[|d| - 1] as int) * Pow2(c) && Shl(d[|d| - 1], c) == y
    ensures Shift(y, |d| - 1) <= Val(d) * Pow2(c) < Shift(1, |d|)
  {
    hide Val, Shift, Pow2, Shl;
    var n, x: int, p := |d| - 1, d[|d| - 1], Pow2(c);
    var low := Val(d[..n]);
    ValTake(d, n);
    assert d[..n + 1] == d;
    ValBound(d[..n]);
    SumTimes(low, Shift(x, n), p);
    ShiftMul(p, x, n);
    Commute(p, x);
    Commute(p, Shift(x, n));
    Commute(low, p);
    MulNonNegative(p, low);
    MulLe(p, low + 1, Shift(1, n));
    assert p * (low + 1) == p * low + p;
    ShiftMul(p, 1, n);
    ShiftAdd(y, p, n);
    TopAfterShift(d, c);
    ShiftLess(0x1_0000_0000, y + p, n);
    ShiftShift(1, 1, n);
    ShiftOne(1);
  }

  lemma TopAfterShift(d: seq<Limb>, c: nat)
    requires |d| >= 1 && 1 <= c <= 31 && Shl(d[|d| - 1], c) == d[|d| - 1] * Pow2(c)
    ensures (d[|d| - 1] as int) * Pow2(c) + Pow2(c) <= 0x1_0000_0000
  {
    hide Pow2;
    ShiftParts(d[|d| - 1], c);
    Pow2Add(c, 32 - c);
    Pow2Limb();
    SplitWord(d[|d| - 1], Pow2(c), Pow2(32 - c));
    Commute(d[|d| - 1], Pow2(c));
  }

  /** The same for a divisor that is normalized already. */
  method LargePlain(target: array<Limb>, to: nat, remainder: array<Limb>, ro: nat, numerator: array<Limb>, no: nat, nn: nat,
                    denominator: array<Limb>, dno: nat, dn: nat, m: nat)
    requires 2 < dn && nn >= dn && Slice(numerator, no, nn) && Slice(denominator, dno, dn)
    requires Normalized(denominator[dno + dn - 1])
    requires m == nn + if numerator[no + nn - 1] >= denominator[dno + dn - 1] then 1 else 0
    requires Slice(target, to, nn - dn + 1) && target[to + nn - dn] == 0 && Slice(remainder, ro, dn) && target != remainder
    requires target != denominator
    modifies target, remainder
    ensures Val(remainder[ro..ro + dn]) < old(Val(denominator[dno..dno + dn]))
    ensures old(Val(numerator[no..no + nn])) ==
            Val(target[to..to + (nn - dn + 1)]) * old(Val(denominator[dno..dno + dn])) + Val(remainder[ro..ro + dn])
    ensures forall j :: 0 <= j < to || to + (nn - dn + 1) <= j < target.Length ==> target[j] == old(target[j])
    ensures forall j :: 0 <= j < ro || ro + dn <= j < remainder.Length ==> remainder[j] == old(remainder[j])
  {
    hide Val, Shift;
    ghost var n, d := numerator[no..no + nn], denominator[dno..dno + dn];
    QuotientLength(n, d, m);
    var n2p := new Limb[nn + 1](_ => 0);
    CopyData(n2p, 0, numerator, no, nn);
    n2p[nn] := 0;
    assert n2p[0..0 + nn] == n && n2p[0..0 + (nn + 1)] == n + [0];
    ValSnoc(n, 0);
    ShiftZero(nn);
    assert denominator[dno..dno + dn] == d;
    ghost var r := ScaledDivision(target, to, n2p, nn, m, denominator, dno, dn, Val(n), Val(d), 1);
    ghost var q, rest := target[to..to + (nn - dn + 1)], n2p[0..0 + dn];
    CopyData(remainder, ro, n2p, 0, dn);
    assert target[to..to + (nn - dn + 1)] == q;
  }

  /**
    tdiv_qr_large_numerator, schoolbook branch. The remainder of a shifted division comes from
    rshift and therefore lands at index 0 of the remainder array whatever its offset.
   */
  method TdivQrLargeNumerator(target: array<Limb>, to: nat, remainder: array<Limb>, ro: nat,
                              numerator: array<Limb>, no: nat, nn: nat, denominator: array<Limb>, dno: nat, dn: nat, adjust: nat)
    returns (ghost at: nat)
    requires 2 < dn < 96 && nn >= dn && Slice(numerator, no, nn) && Slice(denominator, dno, dn)
    requires denominator[dno + dn - 1] != 0
    requires adjust == if numerator[no + nn - 1] >= denominator[dno + dn - 1] then 1 else 0
    requires Slice(target, to, nn - dn + 1) && Slice(remainder, 0, dn) && Slice(remainder, ro, dn)
    requires target != remainder && target != numerator && target != denominator
    modifies target, remainder
    ensures at == if old(denominator[dno + dn - 1]) < 0x8000_0000 then 0 else ro
    ensures Slice(remainder, at, dn) && Val(remainder[at..at + dn]) < old(Val(denominator[dno..dno + dn]))
    ensures old(Val(numerator[no..no + nn])) ==
            Val(target[to..to + (nn - dn + 1)]) * old(Val(denominator[dno..dno + dn])) + Val(remainder[at..at + dn])
    ensures forall j :: 0 <= j < to || to + (nn - dn + 1) <= j < target.Length ==> target[j] == old(target[j])
    ensures forall j :: 0 <= j < at || at + dn <= j < remainder.Length ==> remainder[j] == old(remainder[j])
  {
    hide Val, Shift;
    target[to + nn - dn] := 0;
    if denominator[dno + dn - 1] < 0x8000_0000 {
      at := 0;
      LargeShifted(target, to, remainder, ro, numerator, no, nn, denominator, dno, dn, nn + adjust);
      assert remainder[0..0 + dn] == remainder[..dn];
    } else {
      at := ro;
      LargePlain(target, to, remainder, ro, numerator, no, nn, denominator, dno, dn, nn + adjust);
    }
  }
}
