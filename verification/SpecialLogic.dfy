/** Shifts of limb vectors by less than a limb. */
module SpecialLogic {
  import opened Integers
  import opened Limbs
  import opened Bits

  /**
    target := op1 * 2^count on n limbs, from the top; carry is what is shifted out.
    The limb that is still waiting for its low bits is `high`.
   */
  method LShift(target: array<Limb>, to: nat, op1: array<Limb>, o1: nat, n: nat, count: nat) returns (carry: Limb)
    requires n >= 1 && 1 <= count <= 31 && Slice(target, to, n) && Slice(op1, o1, n)
    requires target != op1 || to == o1
    modifies target
    ensures carry < Pow2(count)
    ensures Val(target[to..to + n]) + Shift(carry, n) == Val(old(op1[o1..o1 + n])) * Pow2(count)
    ensures forall j :: 0 <= j < to || to + n <= j < target.Length ==> target[j] == old(target[j])
  {
    hide Val, Shift, Pow2, Shl, Shr, Or, LShiftSoFar;
    ghost var u := op1[o1..o1 + n];
    var tnc := 32 - count;
    var low := op1[o1 + n - 1];
    carry := Shr(low, tnc);
    var high := Shl(low, count);
    var i := n - 1;
    ghost var r: seq<Limb> := [];
    LShiftStart(u, count);
    while i != 0
      invariant 0 <= i < n && |r| == n - 1 - i
      invariant forall k :: 0 <= k < |r| ==> target[to + i + 1 + k] == r[k]
      invariant forall k :: 0 <= k < i ==> op1[o1 + k] == u[k]
      invariant LShiftSoFar(u, i, count, r, high, carry)
      invariant forall j :: 0 <= j < to || to + n <= j < target.Length ==> target[j] == old(target[j])
    {
      low := op1[o1 + i - 1];
      ShiftedJoinTop(u, i, count, r, high, carry, low);
      var t: Limb := Or(high, Shr(low, tnc));
      target[to + i] := t;
      r := [t] + r;
      high := Shl(low, count);
      i := i - 1;
    }
    target[to] := high;
    assert target[to..to + n] == [high] + r;
    LShiftEnd(u, count, r, high, carry);
  }

  /** What is known when limb i is pending: the limbs above it are final. */
  ghost predicate LShiftSoFar(u: seq<Limb>, i: nat, c: nat, r: seq<Limb>, high: Limb, carry: Limb)
  {
    && 1 <= c <= 31 && i < |u| && |r| == |u| - 1 - i && carry < Pow2(c)
    && high == Shl(u[i], c)
    && high + 0x1_0000_0000 * Val(r) + Shift(carry, |u| - i) == Val(u[i..]) * Pow2(c)
  }

  lemma LShiftStart(u: seq<Limb>, c: nat)
    requires |u| >= 1 && 1 <= c <= 31
    ensures LShiftSoFar(u, |u| - 1, c, [], Shl(u[|u| - 1], c), Shr(u[|u| - 1], 32 - c))
  {
    hide Pow2, Shl, Shr;
    var x := u[|u| - 1];
    ShiftParts(x, c);
    assert u[|u| - 1..] == [x];
    ValOne(x);
    ShiftOne(Shr(x, 32 - c));
  }

  lemma ShiftedJoinTop(u: seq<Limb>, i: nat, c: nat, r: seq<Limb>, high: Limb, carry: Limb, low: Limb)
    requires LShiftSoFar(u, i, c, r, high, carry) && i >= 1 && low == u[i - 1]
    ensures Or(high, Shr(low, 32 - c)) < 0x1_0000_0000
    ensures LShiftSoFar(u, i - 1, c, [Or(high, Shr(low, 32 - c))] + r, Shl(low, c), carry)
  {
    hide Pow2, Shl, Shr, Or;
    ShiftedJoin(u[i], low, c);
    ShiftParts(low, c);
    assert u[i - 1..] == [low] + u[i..];
    var p, s, x := Pow2(c), Val(u[i..]), low as int;
    FirstLimbTimes(x, s, p);
    ConsVal(low, u[i..]);
    ConsVal(Or(high, Shr(low, 32 - c)), r);
    ShiftCons(carry, |u| - i);
  }

  lemma FirstLimbTimes(x: int, s: int, p: int)
    ensures (x + 0x1_0000_0000 * s) * p == x * p + 0x1_0000_0000 * (s * p)
  {
  }

  lemma LShiftEnd(u: seq<Limb>, c: nat, r: seq<Limb>, high: Limb, carry: Limb)
    requires |u| >= 1 && LShiftSoFar(u, 0, c, r, high, carry)
    ensures Val([high] + r) + Shift(carry, |u|) == Val(u) * Pow2(c) && carry < Pow2(c)
  {
    hide Pow2, Shl, Val, Shift;
    assert u[0..] == u;
    ConsVal(high, r);
  }

  /**
    op1 / 2^count, written from index 0 of the target: the routine never uses its target offset.
    The carry is the limb below the result.
   */
  method RShift(target: array<Limb>, to: nat, op1: array<Limb>, o1: nat, n: nat, count: nat) returns (carry: Limb)
    requires n >= 1 && 1 <= count <= 31 && Slice(target, 0, n) && Slice(op1, o1, n)
    modifies target
    ensures 0x1_0000_0000 * Val(target[..n]) + carry == Val(old(op1[o1..o1 + n])) * Pow2(32 - count)
    ensures forall j :: n <= j < target.Length ==> target[j] == old(target[j])
    ensures RShifted(old(target[..]), target[..], old(op1[o1..o1 + n]), count, carry)
  {
    hide Val, Shift, Pow2, Shl, Shr, Or;
    ghost var u := op1[o1..o1 + n];
    var tnc := 32 - count;
    var high := op1[o1];
    carry := Shl(high, tnc);
    var low := Shr(high, count);
    var cursor := 0;
    var i := n - 1;
    ghost var r: seq<Limb> := [];
    RShiftStart(u, count);
    while i != 0
      invariant 0 <= i < n && cursor == n - 1 - i == |r|
      invariant forall k :: 0 <= k < cursor ==> target[k] == r[k]
      invariant forall k :: cursor < k < n ==> op1[o1 + k] == u[k]
      invariant RShiftSoFar(u, cursor, count, r, low, carry)
      invariant forall j :: n <= j < target.Length ==> target[j] == old(target[j])
    {
      high := op1[o1 + cursor + 1];
      RShiftStep(u, cursor, count, r, low, carry, high);
      var t: Limb := Or(low, Shl(high, tnc));
      target[cursor] := t;
      r := r + [t];
      cursor := cursor + 1;
      low := Shr(high, count);
      i := i - 1;
    }
    target[cursor] := low;
    assert target[..n] == r + [low] && target[..][..n] == target[..n];
    RShiftEnd(u, count, r, low, carry);
  }

  /** The limbs t hold u / 2^c, and carry is the limb below them. */
  ghost predicate Quotients(t: seq<Limb>, u: seq<Limb>, c: nat, carry: Limb)
    requires c <= 32
  {
    0x1_0000_0000 * Val(t) + carry == Val(u) * Pow2(32 - c)
  }

  /** What rshift makes of the target, whatever the offset that it is given. */
  ghost predicate RShifted(before: seq<Limb>, after: seq<Limb>, u: seq<Limb>, c: nat, carry: Limb)
    requires c <= 32
  {
    && |before| == |after| >= |u| && Quotients(after[..|u|], u, c, carry)
    && forall j :: |u| <= j < |after| ==> after[j] == before[j]
  }

  /** The result is in the n limbs at offset to, for all operands and whatever the target held. */
  ghost predicate StandsAtOffset(n: nat, c: nat, to: nat)
    requires c <= 32
  {
    forall before: seq<Limb>, after: seq<Limb>, u: seq<Limb>, carry: Limb ::
      |u| == n && to + n <= |before| && RShifted(before, after, u, c, carry) ==> Quotients(after[to..to + n], u, c, carry)
  }

  /** The result stands where it was asked for exactly when the offset is 0; else the topmost limb asked for is not written. */
  lemma RShiftMissesOffset(n: nat, c: nat, to: nat)
    requires n >= 1 && 1 <= c <= 31
    ensures StandsAtOffset(n, c, to) <==> to == 0
  {
    if to > 0 {
      hide Val, Pow2;
      var u: seq<Limb> := seq(n, _ => 0);
      var before: seq<Limb> := seq(to + n, _ => 1);
      var after := u + before[n..];
      ZerosHoldNothing(u);
      assert after[..n] == u && 0 * Pow2(32 - c) == 0;
      assert forall j :: n <= j < |after| ==> after[j] == before[n..][j - n] == before[j];
      var t := after[to..to + n];
      assert t[n - 1] == after[to + n - 1] == before[to + n - 1] == 1;
      TopLimbCounts(t);
      assert RShifted(before, after, u, c, 0);
      assert !Quotients(t, u, c, 0);
    } else {
      hide Quotients;
    }
  }

  lemma {:induction false} ZerosHoldNothing(u: seq<Limb>)
    requires forall i :: 0 <= i < |u| ==> u[i] == 0
    ensures Val(u) == 0
    decreases |u|
  {
    if u != [] {
      ZerosHoldNothing(u[1..]);
    }
  }

  lemma TopLimbCounts(t: seq<Limb>)
    requires t != [] && t[|t| - 1] == 1
    ensures Val(t) > 0
  {
    hide Val, Shift;
    var n := |t| - 1;
    ValTake(t, n);
    assert t[..n + 1] == t;
    ValBound(t[..n]);
    Longer(0, n);
  }

  ghost predicate RShiftSoFar(u: seq<Limb>, i: nat, c: nat, r: seq<Limb>, low: Limb, carry: Limb)
  {
    && 1 <= c <= 31 && i < |u| && |r| == i
    && low == Shr(u[i], c)
    && carry + 0x1_0000_0000 * Val(r) + Shift(low, i + 1) == Val(u[..i + 1]) * Pow2(32 - c)
  }

  lemma RShiftStart(u: seq<Limb>, c: nat)
    requires |u| >= 1 && 1 <= c <= 31
    ensures RShiftSoFar(u, 0, c, [], Shr(u[0], c), Shl(u[0], 32 - c))
  {
    hide Pow2, Shl, Shr;
    ShiftParts(u[0], 32 - c);
    assert u[..1] == [u[0]];
    ValOne(u[0]);
    ShiftOne(Shr(u[0], c));
  }

  lemma RShiftStep(u: seq<Limb>, i: nat, c: nat, r: seq<Limb>, low: Limb, carry: Limb, high: Limb)
    requires RShiftSoFar(u, i, c, r, low, carry) && i + 1 < |u| && high == u[i + 1]
    ensures Or(low, Shl(high, 32 - c)) < 0x1_0000_0000
    ensures RShiftSoFar(u, i + 1, c, r + [Or(low, Shl(high, 32 - c))], Shr(high, c), carry)
  {
    hide Pow2, Shl, Shr, Or, Val, Shift;
    ShiftedJoin(high, u[i], 32 - c);
    OrCommutes(low, Shl(high, 32 - c));
    var t: Limb := low + Shl(high, 32 - c);
    ShiftParts(high, 32 - c);
    ValSnoc(r, t);
    ShiftCons(t, i);
    ShiftAdd(low, Shl(high, 32 - c), i + 1);
    ValTake(u, i + 1);
    var p, x := Pow2(32 - c), high as int;
    ShiftMul(p, x, i + 1);
    Commute(p, x);
    Commute(p, Shift(x, i + 1));
    SumTimes(Val(u[..i + 1]), Shift(x, i + 1), p);
    CarryStep(Shl(high, 32 - c), Shr(high, c), x * p, i + 1);
  }

  lemma {:induction false} OrCommutes(x: nat, y: nat)
    ensures Or(x, y) == Or(y, x)
  {
    if x != 0 || y != 0 {
      OrCommutes(x / 2, y / 2);
    }
  }

  lemma RShiftEnd(u: seq<Limb>, c: nat, r: seq<Limb>, low: Limb, carry: Limb)
    requires |u| >= 1 && RShiftSoFar(u, |u| - 1, c, r, low, carry)
    ensures 0x1_0000_0000 * Val(r + [low]) + carry == Val(u) * Pow2(32 - c)
  {
    hide Pow2, Shr, Val, Shift;
    assert u[..|u|] == u;
    ValSnoc(r, low);
    ShiftCons(low, |r|);
  }

  /** Shifting right what is a multiple of 2^count divides it exactly and shifts nothing out. */
  lemma RShiftExact(t: seq<Limb>, u: int, v: int, c: nat, carry: Limb)
    requires 1 <= c <= 31 && 0x1_0000_0000 * Val(t) + carry == u * Pow2(32 - c)
    requires u == v * Pow2(c)
    ensures Val(t) == v && carry == 0
  {
    hide Pow2, Val;
    var p, q := Pow2(c), Pow2(32 - c);
    Pow2Add(c, 32 - c);
    Pow2Limb();
    assert u * q == v * (p * q);
  }

  // leading_zeros

  function LeadingZeros(x: Limb): (n: nat)
    ensures n <= 32
  {
    LeadingZerosFrom(x, 32)
  }

  function LeadingZerosFrom(x: nat, bits: nat): (n: nat)
    ensures n <= bits
  {
    if bits == 0 || x >= Pow2(bits - 1) then 0 else 1 + LeadingZerosFrom(x, bits - 1)
  }

  lemma {:induction false} LeadingZerosMeaning(x: nat, bits: nat)
    requires x < Pow2(bits)
    ensures var n := LeadingZerosFrom(x, bits);
            (x == 0 ==> n == bits) && (x > 0 ==> n < bits && Pow2(bits - n - 1) <= x < Pow2(bits - n))
  {
    if bits > 0 && x < Pow2(bits - 1) {
      LeadingZerosMeaning(x, bits - 1);
    }
  }
}
