/** Division by a normalized divisor of two limbs, kept in two words. */
module TwoLimbDivision {
  import opened Integers
  import opened Limbs
  import opened WordDivision
  import opened SchoolbookDivision

  lemma OneLessTimes(q: int, d: int)
    ensures (q - 1) * d == q * d - d
  {
  }

  lemma PositiveFactor(q: int, d: int)
    requires q >= 0 && d >= 0
    ensures q * d > 0 ==> q >= 1 && q * d >= d
  {
    if q >= 1 {
      Commute(q, d);
      MulLe(d, 1, q);
    }
  }

  /** One less in the digit, d0 less in its product. */
  method OneLess(q: Limb, h: Limb, l: Limb, d1: Limb, d0: Limb) returns (q': Limb, p1: Limb, p0: Limb)
    requires Double(h, l) == (q as int) * d0 && Double(h, l) > 0
    ensures q' == q - 1 && Double(p1, p0) == (q' as int) * d0 && Double(p1, p0) == Double(h, l) - d0
    ensures (q' as int) * Double(d1, d0) == (q as int) * Double(d1, d0) - Double(d1, d0)
  {
    PositiveFactor(q, d0);
    OneLessTimes(q, d0);
    OneLessTimes(q, Double(d1, d0));
    q' := q - 1;
    p1, p0 := SubDdmmss(h, l, 0, d0);
  }

  /**
    The retry loop: t is the remainder that the digit q would leave, p1:p0 = q * d0.
    A digit that is too large loses 1 until the partial remainder carries or is large enough.
   */
  method Retry(q0: Limb, r0: Limb, h: Limb, l: Limb, n2: Limb, d1: Limb, d0: Limb)
    returns (q: Limb, n1: Limb, n0: Limb)
    requires Normalized(d1) && Double(h, l) == (q0 as int) * d0
    requires Double(r0, n2) - Double(h, l) < Double(d1, d0)
    ensures q <= q0 && Double(n1, n0) < Double(d1, d0)
    ensures (q as int) * Double(d1, d0) + Double(n1, n0) ==
            (q0 as int) * Double(d1, d0) + Double(r0, n2) - Double(h, l)
  {
    q := q0;
    var r: Limb, p1: Limb, p0: Limb := r0, h, l;
    var retry := true;
    ghost var t := Double(r0, n2) - Double(h, l);
    while retry
      invariant q <= q0 && Double(p1, p0) == (q as int) * d0
      invariant t == Double(r, n2) - Double(p1, p0) || (!retry && t == Double(r, n2) - Double(p1, p0) + 0x1_0000_0000_0000_0000)
      invariant t < Double(d1, d0) && (!retry ==> t >= 0)
      invariant (q as int) * Double(d1, d0) + t == (q0 as int) * Double(d1, d0) + Double(r0, n2) - Double(h, l)
      decreases q, retry
    {
      if p1 > r || (p1 == r && p0 > n2) {
        t := t + Double(d1, d0);
        q, p1, p0 := OneLess(q, p1, p0, d1, d0);
        r := Plus(r, d1);
        retry := r >= d1;
      } else {
        retry := false;
      }
    }
    n1, n0 := SubDdmmss(r, n2, p1, p0);
  }

  /** One quotient digit of n1:n0:n2 by d1:d0. */
  method TwoLimbDigit(n1: Limb, n0: Limb, n2: Limb, d1: Limb, d0: Limb, d1inv: Limb)
    returns (q: Limb, r1: Limb, r0: Limb)
    requires Normalized(d1) && d1inv == Inverse(d1) && Double(n1, n0) < Double(d1, d0)
    ensures Double(n1, n0) * 0x1_0000_0000 + n2 == (q as int) * Double(d1, d0) + Double(r1, r0)
    ensures Double(r1, r0) < Double(d1, d0)
  {
    hide Inverse, Hi, Lo;
    var r;
    if n1 == d1 {
      q := 0xffff_ffff;
      r := Plus(n0, d1);
      if r < d1 {
        r1, r0 := AddSsaaaa(Minus(r, d0), n2, 0, d0);
      } else {
        r1 := Minus(d0, Bit(d0 != 0));
        r0 := Minus(0, d0);
        q, r1, r0 := Retry(q, r, r1, r0, n2, d1, d0);
      }
    } else {
      q, r := UdivQrnndPreinv(n1, n0, d1, d1inv);
      r1, r0 := Hi(d0, q), Lo(d0, q);
      HiLo(d0, q);
      Commute(d0, q);
      DigitTimes(q, d1, d0);
      Commute(q, d0);
      q, r1, r0 := Retry(q, r, r1, r0, n2, d1, d0);
    }
  }

  /** The two-word remainder after one more digit. */
  lemma DigitJoined2(n: seq<Limb>, i: nat, x: int, d: int, r: int, q: int, r': int, qh: Limb, digits: seq<Limb>) returns (x': int)
    requires 1 <= i <= |n| && Val(n[i..]) == x * d + r && x == Quotient(qh, digits)
    requires r * 0x1_0000_0000 + n[i - 1] == q * d + r' && 0 <= q < 0x1_0000_0000
    ensures x' == Quotient(qh, [q] + digits) && Val(n[i - 1..]) == x' * d + r'
  {
    hide Val, Quotient;
    DigitJoined(n, i - 1, x, d, r, r * 0x1_0000_0000 + n[i - 1], q, r');
    QuotientCons(qh, q, digits);
    x' := 0x1_0000_0000 * x + q;
  }

  /** divrem_2: quotient digits into the target, remainder into the low two limbs of op1. */
  method Divrem2(target: array<Limb>, to: nat, op1: array<Limb>, o1: nat, n: nat, op2: array<Limb>, o2: nat)
    returns (qh: Limb)
    requires n >= 2 && Slice(op2, o2, 2) && Normalized(op2[o2 + 1])
    requires Slice(op1, o1, n) && Slice(target, to, n - 2)
    requires target != op1
    modifies target, op1
    ensures qh <= 1 && Double(op1[o1 + 1], op1[o1]) < old(Double(op2[o2 + 1], op2[o2]))
    ensures old(Val(op1[o1..o1 + n])) ==
            Quotient(qh, target[to..to + (n - 2)]) * old(Double(op2[o2 + 1], op2[o2])) + Double(op1[o1 + 1], op1[o1])
    ensures forall j :: 0 <= j < to || to + (n - 2) <= j < target.Length ==> target[j] == old(target[j])
    ensures forall j :: 0 <= j < o1 || o1 + 2 <= j < op1.Length ==> op1[j] == old(op1[j])
  {
    hide Val, Shift, Inverse, Quotient;
    ghost var u := op1[o1..o1 + n];
    var d1, d0 := op2[o2 + 1], op2[o2];
    var n1: Limb, n0: Limb := op1[o1 + n - 1], op1[o1 + n - 2];
    TopTwoLimbs(u, n - 2);
    qh := 0;
    if n1 >= d1 && (n1 > d1 || n0 >= d0) {
      n1, n0 := SubDdmmss(n1, n0, d1, d0);
      qh := 1;
    }
    ghost var x;
    n1, n0, x := DigitLoop2(target, to, op1, o1, n, d1, d0, n1, n0, qh, u);
    ghost var digits := target[to..to + (n - 2)];
    op1[o1 + 1] := n1;
    op1[o1] := n0;
    assert target[to..to + (n - 2)] == digits;
  }

  /** One quotient digit, stored at index p. */
  method NextDigit2(target: array<Limb>, p: nat, ghost end: nat, low: Limb, d1: Limb, d0: Limb, d1inv: Limb, h: Limb, l: Limb,
                    ghost qh: Limb, ghost u: seq<Limb>, ghost i: nat, ghost x0: int, ghost digits0: seq<Limb>)
    returns (n1: Limb, n0: Limb, ghost x: int, ghost digits: seq<Limb>)
    requires p < end <= target.Length && digits0 == target[p + 1..end] && 1 <= i <= |u| && low == u[i - 1] && Normalized(d1) && d1inv == Inverse(d1)
    requires Double(h, l) < Double(d1, d0) && x0 == Quotient(qh, digits0)
    requires Val(u[i..]) == x0 * Double(d1, d0) + Double(h, l)
    modifies target
    ensures digits == target[p..end] && Double(n1, n0) < Double(d1, d0) && x == Quotient(qh, digits)
    ensures Val(u[i - 1..]) == x * Double(d1, d0) + Double(n1, n0)
    ensures forall j :: 0 <= j < target.Length && j != p ==> target[j] == old(target[j])
  {
    hide Val, Shift, Inverse, Quotient;
    var q;
    q, n1, n0 := TwoLimbDigit(h, l, low, d1, d0, d1inv);
    x := DigitJoined2(u, i, x0, Double(d1, d0), Double(h, l), q, Double(n1, n0), qh, digits0);
    target[p] := q;
    digits := [q] + digits0;
    assert target[p + 1..end] == digits0;
    assert target[p..end] == [target[p]] + target[p + 1..end];
  }

  method DigitLoop2(target: array<Limb>, to: nat, op1: array<Limb>, o1: nat, n: nat, d1: Limb, d0: Limb,
                    h: Limb, l: Limb, ghost qh: Limb, ghost u: seq<Limb>)
    returns (n1: Limb, n0: Limb, ghost x: int)
    requires n >= 2 && Normalized(d1) && Slice(op1, o1, n) && Slice(target, to, n - 2) && target != op1
    requires op1[o1..o1 + n] == u && Double(h, l) < Double(d1, d0)
    requires Val(u[n - 2..]) == qh * Double(d1, d0) + Double(h, l)
    modifies target
    ensures Double(n1, n0) < Double(d1, d0) && x == Quotient(qh, target[to..to + (n - 2)])
    ensures Val(u) == x * Double(d1, d0) + Double(n1, n0)
    ensures forall j :: 0 <= j < to || to + (n - 2) <= j < target.Length ==> target[j] == old(target[j])
  {
    hide Val, Shift, Inverse, Quotient;
    var d1inv := LimbInverse(d1);
    ghost var d := Double(d1, d0);
    ghost var digits: seq<Limb> := [];
    NoDigits(qh);
    x := qh;
    n1, n0 := h, l;
    var i := n - 2;
    while i > 0
      invariant 0 <= i <= n - 2 && digits == target[to + i..to + (n - 2)]
      invariant Double(n1, n0) < d && x == Quotient(qh, digits)
      invariant Val(u[i..]) == x * d + Double(n1, n0)
      invariant forall j :: 0 <= j < to || to + (n - 2) <= j < target.Length ==> target[j] == old(target[j])
    {
      n1, n0, x, digits := NextDigit2(target, to + i - 1, to + (n - 2), op1[o1 + i - 1], d1, d0, d1inv, n1, n0, qh, u, i, x, digits);
      i := i - 1;
    }
    assert u[0..] == u;
  }

  lemma TopTwoLimbs(u: seq<Limb>, n: nat)
    requires |u| == n + 2
    ensures Val(u[n..]) == Double(u[n + 1], u[n])
  {
    assert u[n..] == [u[n], u[n + 1]];
    ValTwo(u[n], u[n + 1]);
  }
}
