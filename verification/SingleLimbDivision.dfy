/** preinv_divrem_1: division by one limb with a precomputed reciprocal, with fraction limbs. */
module SingleLimbDivision {
  import opened Integers
  import opened Limbs
  import opened Bits
  import opened SpecialLogic
  import opened WordDivision

  /** The integer limbs u, shifted by c bits, have been divided down to limb i: the quotient q and remainder r. */
  ghost predicate Divided(u: seq<Limb>, i: nat, c: nat, d: int, q: seq<Limb>, r: int)
  {
    i <= |u| && 0 <= r < d && Val(u[i..]) * Pow2(c) == d * Val(q) + r
  }

  /** The same, with limb i itself only used for the bits that its shift pushes out. */
  ghost predicate Pending(u: seq<Limb>, i: nat, c: nat, d: int, q: seq<Limb>, r: int)
  {
    i < |u| && 0 <= r < d && Val(u[i..]) * Pow2(c) == 0x1_0000_0000 * (d * Val(q) + r) + Shl(u[i], c)
  }

  lemma DivisorBits(d: Limb, c: nat)
    requires d > 0 && c == LeadingZeros(d)
    ensures c <= 31 && 0x8000_0000 <= d * Pow2(c) < 0x1_0000_0000 && Shl(d, c) == d * Pow2(c) && d * Pow2(c) >= Pow2(c)
  {
    hide Pow2;
    Pow2Limb();
    LeadingZerosMeaning(d, 32);
    var p := Pow2(c);
    Pow2Add(31 - c, c);
    Pow2Add(32 - c, c);
    Pow2Add(1, 31);
    assert Pow2(1) == 2 by { Pow2Unfolded(1); Pow2Unfolded(0); }
    MulLe(p, Pow2(31 - c), d);
    MulLe(p, d, Pow2(32 - c) - 1);
    MulLe(p, 1, d);
    Distribute(p, Pow2(32 - c));
    Commute(p, Pow2(31 - c));
    Commute(p, Pow2(32 - c));
    Commute(p, d);
    DivModUnique(d * p, 0x1_0000_0000, 0, d * p);
  }

  /** One more quotient limb below q. */
  lemma QuotientGrows(d: int, q: seq<Limb>, r: int, low: int, ql: Limb, r': int)
    requires r * 0x1_0000_0000 + low == (ql as int) * d + r'
    ensures 0x1_0000_0000 * (d * Val(q) + r) + low == d * Val([ql] + q) + r'
  {
    hide Val;
    ConsVal(ql, q);
    var v, x := Val(q), ql as int;
    assert d * (x + 0x1_0000_0000 * v) == x * d + 0x1_0000_0000 * (d * v);
  }

  lemma NextLimb(u: seq<Limb>, i: nat, c: nat)
    requires i + 1 < |u| && 1 <= c <= 31
    ensures Val(u[i..]) * Pow2(c) == Shl(u[i], c) + 0x1_0000_0000 * (Shr(u[i], 32 - c) + Val(u[i + 1..]) * Pow2(c))
  {
    hide Val, Pow2, Shl, Shr;
    assert u[i..] == [u[i]] + u[i + 1..];
    ConsVal(u[i], u[i + 1..]);
    ShiftParts(u[i], c);
    FirstLimbTimes(u[i], Val(u[i + 1..]), Pow2(c));
  }

  /** The limb that the shifted numerator has above the pending limb. */
  lemma ShiftedStep(u: seq<Limb>, i: nat, c: nat, d: int, q: seq<Limb>, r: int, ql: Limb, r': int)
    requires i + 1 < |u| && 1 <= c <= 31 && Pending(u, i + 1, c, d, q, r)
    requires Or(Shl(u[i + 1], c), Shr(u[i], 32 - c)) < 0x1_0000_0000
    requires r * 0x1_0000_0000 + Or(Shl(u[i + 1], c), Shr(u[i], 32 - c)) == (ql as int) * d + r' && 0 <= r' < d
    ensures Pending(u, i, c, d, [ql] + q, r')
  {
    hide Val, Pow2, Shl, Shr, Or;
    NextLimb(u, i, c);
    ShiftedJoin(u[i + 1], u[i], c);
    QuotientGrows(d, q, r, Or(Shl(u[i + 1], c), Shr(u[i], 32 - c)), ql, r');
  }

  lemma LastShiftedStep(u: seq<Limb>, c: nat, d: int, q: seq<Limb>, r: int, ql: Limb, r': int)
    requires Pending(u, 0, c, d, q, r)
    requires r * 0x1_0000_0000 + Shl(u[0], c) == (ql as int) * d + r' && 0 <= r' < d
    ensures Divided(u, 0, c, d, [ql] + q, r')
  {
    hide Val, Pow2, Shl;
    QuotientGrows(d, q, r, Shl(u[0], c), ql, r');
  }

  lemma PlainStep(u: seq<Limb>, i: nat, d: int, q: seq<Limb>, r: int, ql: Limb, r': int)
    requires i + 1 <= |u| && Divided(u, i + 1, 0, d, q, r)
    requires r * 0x1_0000_0000 + u[i] == (ql as int) * d + r' && 0 <= r' < d
    ensures Divided(u, i, 0, d, [ql] + q, r')
  {
    hide Val;
    QuotientGrows(d, q, r, u[i], ql, r');
    assert u[i..] == [u[i]] + u[i + 1..];
    ConsVal(u[i], u[i + 1..]);
  }

  /** A fraction limb. */
  lemma FractionStep(n: int, k: nat, d: int, q: seq<Limb>, r: int, ql: Limb, r': int)
    requires Shift(n, k) == d * Val(q) + r
    requires r * 0x1_0000_0000 + 0 == (ql as int) * d + r'
    ensures Shift(n, k + 1) == d * Val([ql] + q) + r'
  {
    hide Val;
    ShiftCons(n, k);
    QuotientGrows(d, q, r, 0, ql, r');
  }

  /** The quotient limbs already written end at index top. */
  ghost predicate Written(qp: array<Limb>, next: int, q: seq<Limb>)
    reads qp
  {
    0 <= next + 1 && next + 1 + |q| <= qp.Length && qp[next + 1..next + 1 + |q|] == q
  }

  method WriteLimb(qp: array<Limb>, next: int, ql: Limb, ghost q: seq<Limb>)
    requires 0 <= next && Written(qp, next, q)
    modifies qp
    ensures Written(qp, next - 1, [ql] + q)
    ensures forall j :: 0 <= j < qp.Length && j != next ==> qp[j] == old(qp[j])
  {
    qp[next] := ql;
    assert qp[next..next + 1 + |q|] == [ql] + qp[next + 1..next + 1 + |q|];
  }

  /** The integer part when the divisor is already normalized. */
  method DividePlain(qp: array<Limb>, top: nat, ap: array<Limb>, ao: nat, size: nat, d: Limb, dinv: Limb)
    returns (r: Limb, ghost q: seq<Limb>)
    requires size >= 1 && Slice(ap, ao, size) && size <= top + 1 && top < qp.Length && Normalized(d) && dinv == Inverse(d)
    requires qp != ap || top + 1 == ao + size
    modifies qp
    ensures |q| == size && Written(qp, top - size, q) && Divided(old(ap[ao..ao + size]), 0, 0, d, q, r)
    ensures forall j :: 0 <= j <= top - size || top < j < qp.Length ==> qp[j] == old(qp[j])
  {
    hide Val, Inverse, Divided, Pow2;
    ghost var u := ap[ao..ao + size];
    r := ap[ao + size - 1];
    var qhigh := Bit(r >= d);
    if qhigh != 0 {
      r := r - d;
    }
    PlainStart(u, d, qhigh, r);
    q := [];
    assert qp[top + 1..top + 1] == [];
    WriteLimb(qp, top, qhigh, q);
    r, q := PlainBelow(qp, top - 1, ap, ao, size - 1, d, dinv, r, [qhigh], u);
  }

  /** Down from limb left - 1. */
  method PlainBelow(qp: array<Limb>, next0: int, ap: array<Limb>, ao: nat, left: nat, d: Limb, dinv: Limb,
      r0: Limb, ghost q0: seq<Limb>, ghost u: seq<Limb>)
    returns (r: Limb, ghost q: seq<Limb>)
    requires left <= |u| && Slice(ap, ao, |u|) && left <= next0 + 1 && Written(qp, next0, q0)
    requires Normalized(d) && dinv == Inverse(d) && Divided(u, left, 0, d, q0, r0) && r0 < d
    requires forall k :: 0 <= k < left ==> ap[ao + k] == u[k]
    requires qp != ap || next0 + 1 == ao + left
    modifies qp
    ensures |q| == |q0| + left && Written(qp, next0 - left, q) && Divided(u, 0, 0, d, q, r)
    ensures forall j :: 0 <= j <= next0 - left || next0 < j < qp.Length ==> qp[j] == old(qp[j])
  {
    hide Val, Inverse, Divided, Pow2;
    r, q := r0, q0;
    var next := next0;
    var i: int := left - 1;
    while i >= 0
      invariant -1 <= i < left && next == next0 - left + i + 1 && |q| == |q0| + left - 1 - i
      invariant Written(qp, next, q) && Divided(u, i + 1, 0, d, q, r) && r < d
      invariant forall k :: 0 <= k <= i ==> ap[ao + k] == u[k]
      invariant forall j :: 0 <= j <= next || next0 < j < qp.Length ==> qp[j] == old(qp[j])
    {
      r, q := PlainDigit(qp, next, d, dinv, ap[ao + i], r, q, u, i);
      next := next - 1;
      i := i - 1;
    }
  }

  /** One quotient limb of the numerator as it stands. */
  method PlainDigit(qp: array<Limb>, next: nat, d: Limb, dinv: Limb, n0: Limb, r0: Limb, ghost q0: seq<Limb>, ghost u: seq<Limb>, ghost i: nat)
    returns (r: Limb, ghost q: seq<Limb>)
    requires Normalized(d) && dinv == Inverse(d) && Written(qp, next, q0) && r0 < d
    requires i + 1 <= |u| && n0 == u[i] && Divided(u, i + 1, 0, d, q0, r0)
    modifies qp
    ensures |q| == |q0| + 1 && Written(qp, next - 1, q) && Divided(u, i, 0, d, q, r) && r < d
    ensures forall j :: 0 <= j < qp.Length && j != next ==> qp[j] == old(qp[j])
  {
    hide Val, Inverse, Divided, Pow2;
    var ql;
    ql, r := UdivQrnndPreinv(r0, n0, d, dinv);
    PlainStep(u, i, d, q0, r0, ql, r);
    WriteLimb(qp, next, ql, q0);
    q := [ql] + q0;
  }

  lemma PlainStart(u: seq<Limb>, d: int, qhigh: Limb, r: int)
    requires u != [] && 0 <= r < d && u[|u| - 1] == (if qhigh == 0 then 0 else d) + r && qhigh <= 1
    ensures Divided(u, |u| - 1, 0, d, [qhigh], r)
  {
    assert u[|u| - 1..] == [u[|u| - 1]];
    ValOne(u[|u| - 1]);
    ValOne(qhigh);
  }

  /** The integer part when the divisor has to be shifted. */
  method DivideShifted(qp: array<Limb>, top: nat, ap: array<Limb>, ao: nat, size: nat, dUnnorm: Limb, d: Limb, dinv: Limb, shift: nat)
    returns (r: Limb, ghost q: seq<Limb>)
    requires size >= 1 && Slice(ap, ao, size) && size <= top + 1 && top < qp.Length && Normalized(d) && dinv == Inverse(d)
    requires 1 <= shift <= 31 && d == dUnnorm * Pow2(shift)
    requires qp != ap || top + 1 == ao + size
    modifies qp
    ensures |q| == size && Written(qp, top - size, q) && Divided(old(ap[ao..ao + size]), 0, shift, d, q, r)
    ensures forall j :: 0 <= j <= top - size || top < j < qp.Length ==> qp[j] == old(qp[j])
  {
    hide Val, Inverse, Divided, Pending, Pow2, Shl, Shr, Or;
    ghost var u := ap[ao..ao + size];
    var ahigh := ap[ao + size - 1];
    var next: int := top;
    var left := size;
    r := 0;
    q := [];
    assert qp[top + 1..top + 1] == [];
    if ahigh < dUnnorm {
      r := Shl(ahigh, shift);
      ShortTop(u, shift, dUnnorm, d);
      WriteLimb(qp, next, 0, q);
      q := [0];
      next := next - 1;
      left := left - 1;
      if left == 0 {
        return;
      }
    }
    var n1 := ap[ao + left - 1];
    StartPending(u, left - 1, shift, dUnnorm, d);
    r := Or(r, Shr(n1, 32 - shift));
    r, q := DivideBelow(qp, next, ap, ao, left, d, dinv, shift, r, q, u);
  }

  /** Down from the pending limb left - 1. */
  method DivideBelow(qp: array<Limb>, next0: nat, ap: array<Limb>, ao: nat, left: nat, d: Limb, dinv: Limb, shift: nat,
      r0: Limb, ghost q0: seq<Limb>, ghost u: seq<Limb>)
    returns (r: Limb, ghost q: seq<Limb>)
    requires 1 <= left <= |u| && Slice(ap, ao, |u|) && left <= next0 + 1 && Written(qp, next0, q0)
    requires Normalized(d) && dinv == Inverse(d) && 1 <= shift <= 31
    requires Pending(u, left - 1, shift, d, q0, r0) && r0 < d
    requires forall k :: 0 <= k < left ==> ap[ao + k] == u[k]
    requires qp != ap || next0 + 1 == ao + left
    modifies qp
    ensures |q| == |q0| + left && Written(qp, next0 - left, q) && Divided(u, 0, shift, d, q, r)
    ensures forall j :: 0 <= j <= next0 - left || next0 < j < qp.Length ==> qp[j] == old(qp[j])
  {
    hide Val, Inverse, Divided, Pending, Pow2, Shl, Shr, Or;
    var n1 := ap[ao + left - 1];
    var next: int := next0;
    r, q := r0, q0;
    var i: int := left - 2;
    while i >= 0
      invariant -1 <= i <= left - 2 && next == next0 - left + i + 2 && |q| == |q0| + left - 2 - i && n1 == u[i + 1]
      invariant Written(qp, next, q) && Pending(u, i + 1, shift, d, q, r) && r < d
      invariant forall k :: 0 <= k <= i ==> ap[ao + k] == u[k]
      invariant forall j :: 0 <= j <= next || next0 < j < qp.Length ==> qp[j] == old(qp[j])
    {
      var n0 := ap[ao + i];
      r, q := ShiftedDigit(qp, next, d, dinv, shift, n1, n0, r, q, u, i);
      next := next - 1;
      n1 := n0;
      i := i - 1;
    }
    r, q := LastDigit(qp, next, d, dinv, shift, n1, r, q, u);
  }

  /** The last quotient limb, with nothing shifted in. */
  method LastDigit(qp: array<Limb>, next: nat, d: Limb, dinv: Limb, shift: nat, n1: Limb, r0: Limb, ghost q0: seq<Limb>, ghost u: seq<Limb>)
    returns (r: Limb, ghost q: seq<Limb>)
    requires Normalized(d) && dinv == Inverse(d) && Written(qp, next, q0) && r0 < d
    requires u != [] && n1 == u[0] && Pending(u, 0, shift, d, q0, r0)
    modifies qp
    ensures |q| == |q0| + 1 && Written(qp, next - 1, q) && Divided(u, 0, shift, d, q, r)
    ensures forall j :: 0 <= j < qp.Length && j != next ==> qp[j] == old(qp[j])
  {
    hide Val, Inverse, Pow2, Shl;
    var ql;
    ql, r := UdivQrnndPreinv(r0, Shl(n1, shift), d, dinv);
    LastShiftedStep(u, shift, d, q0, r0, ql, r);
    WriteLimb(qp, next, ql, q0);
    q := [ql] + q0;
  }

  /** One quotient limb of the shifted numerator. */
  method ShiftedDigit(qp: array<Limb>, next: nat, d: Limb, dinv: Limb, shift: nat, n1: Limb, n0: Limb,
      r0: Limb, ghost q0: seq<Limb>, ghost u: seq<Limb>, ghost i: nat)
    returns (r: Limb, ghost q: seq<Limb>)
    requires Normalized(d) && dinv == Inverse(d) && 1 <= shift <= 31 && Written(qp, next, q0)
    requires i + 1 < |u| && n1 == u[i + 1] && n0 == u[i] && Pending(u, i + 1, shift, d, q0, r0)
    modifies qp
    ensures |q| == |q0| + 1 && Written(qp, next - 1, q) && Pending(u, i, shift, d, q, r) && r < d
    ensures forall j :: 0 <= j < qp.Length && j != next ==> qp[j] == old(qp[j])
  {
    hide Val, Inverse, Pow2, Shl, Shr, Or;
    ShiftedJoin(n1, n0, shift);
    var nl: Limb := Or(Shl(n1, shift), Shr(n0, 32 - shift));
    var ql;
    ql, r := UdivQrnndPreinv(r0, nl, d, dinv);
    ShiftedStep(u, i, shift, d, q0, r0, ql, r);
    WriteLimb(qp, next, ql, q0);
    q := [ql] + q0;
  }

  /** A top limb below the divisor is a remainder as it stands. */
  lemma ShortTop(u: seq<Limb>, c: nat, dUnnorm: Limb, d: Limb)
    requires u != [] && u[|u| - 1] < dUnnorm && 1 <= c <= 31 && d == dUnnorm * Pow2(c)
    ensures Shl(u[|u| - 1], c) == u[|u| - 1] * Pow2(c) <= d - Pow2(c)
    ensures |u| == 1 ==> Divided(u, 0, c, d, [0], Shl(u[0], c))
  {
    hide Pow2;
    var x, p := u[|u| - 1] as int, Pow2(c);
    MulLe(p, x + 1, dUnnorm);
    Commute(p, dUnnorm);
    assert p * (x + 1) == x * p + p;
    MulNonNegative(x, p);
    DivModUnique(x * p, 0x1_0000_0000, 0, x * p);
    if |u| == 1 {
      assert u[0..] == [u[0]];
      ValOne(u[0]);
      ValOne(0);
    }
  }

  /** Where the loop starts: either above a top limb below the divisor, or at the top. */
  lemma StartPending(u: seq<Limb>, i: nat, c: nat, dUnnorm: Limb, d: Limb)
    requires u != [] && 1 <= c <= 31 && d == dUnnorm * Pow2(c) && dUnnorm >= 1
    requires i == if u[|u| - 1] < dUnnorm then |u| - 2 else |u| - 1
    ensures var r := if u[|u| - 1] < dUnnorm then Shl(u[|u| - 1], c) else 0;
      var q: seq<Limb> := if u[|u| - 1] < dUnnorm then [0] else [];
      && Or(r, Shr(u[i], 32 - c)) < 0x1_0000_0000 && Or(r, Shr(u[i], 32 - c)) < d && Pending(u, i, c, d, q, Or(r, Shr(u[i], 32 - c)))
  {
    hide Pow2, Shl, Shr, Or, Val;
    var x := u[|u| - 1];
    ShiftParts(u[i], c);
    assert u[i..] == [u[i]] + u[i + 1..];
    ConsVal(u[i], u[i + 1..]);
    FirstLimbTimes(u[i], Val(u[i + 1..]), Pow2(c));
    if x < dUnnorm {
      ShortTop(u, c, dUnnorm, d);
      ShiftedJoin(x, u[i], c);
      assert u[i + 1..] == [x];
      ValOne(x);
      ValOne(0);
      assert d * 0 == 0;
    } else {
      assert u[i + 1..] == [];
      ValNone(u);
      OrZero(Shr(u[i], 32 - c));
      MulLe(Pow2(c), 1, dUnnorm);
      Commute(Pow2(c), dUnnorm);
      assert 0 * Pow2(c) == 0 && d * 0 == 0;
    }
  }

  /** Quotient limbs below the point. */
  method DivideFraction(qp: array<Limb>, qo: nat, xsize: nat, size: nat, d: Limb, dinv: Limb, r0: Limb, ghost q0: seq<Limb>, ghost n: int)
    returns (r: Limb, ghost q: seq<Limb>)
    requires Slice(qp, qo, size + xsize) && Normalized(d) && dinv == Inverse(d)
    requires r0 < d && |q0| == size && n == d * Val(q0) + r0 && Written(qp, qo + xsize - 1, q0)
    modifies qp
    ensures qp[qo..qo + size + xsize] == q && r < d && Shift(n, xsize) == d * Val(q) + r
    ensures forall j :: 0 <= j < qo || qo + size + xsize <= j < qp.Length ==> qp[j] == old(qp[j])
  {
    hide Val, Inverse, Shift;
    r, q := r0, q0;
    var next := qo + xsize - 1;
    var i := 0;
    assert Shift(n, 0) == n by { ShiftNone(n); }
    while i < xsize
      invariant 0 <= i <= xsize && next == qo + xsize - 1 - i && |q| == size + i
      invariant Written(qp, next, q) && r < d && Shift(n, i) == d * Val(q) + r
      invariant forall j :: 0 <= j < qo || qo + size + xsize <= j < qp.Length ==> qp[j] == old(qp[j])
    {
      var ql, r' := UdivQrnndPreinv(r, 0, d, dinv);
      FractionStep(n, i, d, q, r, ql, r');
      WriteLimb(qp, next, ql, q);
      q := [ql] + q;
      r := r';
      next := next - 1;
      i := i + 1;
    }
  }

  lemma ShiftNone(n: int)
    ensures Shift(n, 0) == n
  {
  }

  /**
    Quotient and remainder of the numerator followed by xsize zero limbs. The quotient may take
    the numerator's place when the two end at the same index.
   */
  method PreinvDivrem1(qp: array<Limb>, qo: nat, xsize: nat, ap: array<Limb>, ao: nat, size: nat, dUnnorm: Limb, dinv: Limb, shift: nat)
    returns (remainder: Limb)
    requires size >= 1 && dUnnorm != 0 && Slice(qp, qo, size + xsize) && Slice(ap, ao, size)
    requires shift == LeadingZeros(dUnnorm) && Normalized(Shl(dUnnorm, shift)) && dinv == Inverse(Shl(dUnnorm, shift))
    requires qp != ap || qo + xsize == ao
    modifies qp
    ensures remainder < dUnnorm
    ensures Shift(Val(old(ap[ao..ao + size])), xsize) == dUnnorm * Val(qp[qo..qo + size + xsize]) + remainder
    ensures forall j :: 0 <= j < qo || qo + size + xsize <= j < qp.Length ==> qp[j] == old(qp[j])
  {
    hide Val, Inverse, Shift, Pow2, Shl, Shr;
    ghost var u := ap[ao..ao + size];
    assert u[0..] == u;
    DivisorBits(dUnnorm, shift);
    var d := Shl(dUnnorm, shift);
    var top := qo + (size + xsize - 1);
    var r: Limb;
    ghost var q: seq<Limb>;
    if shift == 0 {
      r, q := DividePlain(qp, top, ap, ao, size, d, dinv);
    } else {
      r, q := DivideShifted(qp, top, ap, ao, size, dUnnorm, d, dinv, shift);
    }
    ghost var n := Val(u) * Pow2(shift);
    r, q := DivideFraction(qp, qo, xsize, size, d, dinv, r, q, n);
    Unshifted(Val(u), xsize, dUnnorm, shift, Val(q), r);
    remainder := Shr(r, shift);
  }

  /** The shift of numerator and divisor is a shift of the remainder only. */
  lemma Unshifted(n: int, k: nat, dUnnorm: int, c: nat, q: int, r: Limb)
    requires dUnnorm > 0 && Shift(n * Pow2(c), k) == (dUnnorm * Pow2(c)) * q + r && r < dUnnorm * Pow2(c)
    ensures Shr(r, c) < dUnnorm && Shift(n, k) == dUnnorm * q + Shr(r, c)
  {
    hide Pow2;
    var p := Pow2(c);
    ShiftMul(p, n, k);
    Commute(p, n);
    var m := Shift(n, k) - dUnnorm * q;
    assert (dUnnorm * p) * q == p * (dUnnorm * q);
    assert p * m == p * Shift(n, k) - p * (dUnnorm * q);
    DivModUnique(r, p, m, 0);
    Commute(dUnnorm, p);
    if m >= dUnnorm {
      MulLe(p, dUnnorm, m);
    }
  }
}
