/** The two's-complement view of signed numbers: bit_test, bit_one_complement and bit_xor. */
module TwosComplement {
  import opened Integers
  import opened Limbs
  import opened Bits
  import opened SpecialArithmetic
  import opened IntegerX
  import opened SignedArithmetic

  /** Bit i of the infinite two's complement of x. */
  predicate BitOf(x: int, i: nat)
  {
    Down(x, i) % 2 == 1
  }

  /** Low bits do not depend on what is above them. */
  lemma {:induction false} LowBits(x: int, y: int, k: int, n: nat, j: nat)
    requires j < n && x == y + Pow2(n) * k
    ensures BitOf(x, j) == BitOf(y, j)
    decreases n
  {
    Twice(Pow2(n - 1), k);
    HalfPlusEven(y, Pow2(n - 1) * k);
    if j > 0 {
      LowBits(x / 2, y / 2, k, n - 1, j - 1);
    }
  }

  lemma HalfPlusEven(y: int, z: int)
    ensures (y + 2 * z) / 2 == y / 2 + z && (y + 2 * z) % 2 == y % 2
  {
  }

  /** Beyond the limbs there is only the sign. */
  lemma {:induction false} SignBits(x: int, i: nat)
    requires -(Pow2(i) as int) <= x < Pow2(i)
    ensures BitOf(x, i) <==> x < 0
    decreases i
  {
    if i > 0 {
      SignBits(x / 2, i - 1);
    }
  }

  /** bit_test */
  method BitTest(op: Integer, bitIndex: nat) returns (result: bool)
    requires op.Valid()
    ensures result <==> BitOf(op.Value(), bitIndex)
  {
    hide Val, Down, Pow2, BitOf, Shift;
    var absSize := Abs(op.count);
    var limbIndex := bitIndex / 32;
    ghost var s := op.item[..absSize];
    if limbIndex >= absSize {
      BeyondLimbs(s, bitIndex);
      CountSign(op);
      return op.count < 0;
    }
    var p := limbIndex;
    var limb := op.item[p];
    ValNone(s);
    if op.count < 0 {
      limb := Minus(0, limb);
      while p != 0
        invariant 0 <= p <= limbIndex
        invariant p > 0 ==> limb == Minus(0, op.item[limbIndex]) && Val(s[..p]) == Val(s[..limbIndex])
        invariant p == 0 ==> limb == NegatedLimb(s, limbIndex)
        decreases p
      {
        p := p - 1;
        ValTake(s, p);
        ValBound(s[..p]);
        if op.item[p] != 0 {
          limb := Minus(limb, 1);
          ShiftLess(0, op.item[p], p);
          ShiftZero(p);
          p := 0;
        } else {
          ShiftZero(p);
        }
      }
    }
    LimbDecides(s, limbIndex, bitIndex, op.count < 0, limb);
    result := LimbBit(limb, bitIndex % 32);
  }

  /** A limb of the two's complement of -Val(s). */
  function NegatedLimb(s: seq<Limb>, k: nat): Limb
    requires k < |s|
  {
    var m := Minus(0, s[k]);
    if Val(s[..k]) > 0 then Minus(m, 1) else m
  }

  function LimbBit(x: Limb, j: nat): bool
  {
    Shr(x, j) % 2 == 1
  }

  lemma BeyondLimbs(s: seq<Limb>, i: nat)
    requires i / 32 >= |s|
    ensures BitOf(Val(s), i) == false
    ensures BitOf(-Val(s), i) <==> Val(s) > 0
  {
    hide Val, Pow2;
    ValBound(s);
    Pow2OfLimbs(|s|);
    Pow2Add(32 * |s|, i - 32 * |s|);
    MulLe(Pow2(32 * |s|), 1, Pow2(i - 32 * |s|));
    SignBits(Val(s), i);
    SignBits(-Val(s), i);
  }

  lemma LimbDecides(s: seq<Limb>, k: nat, i: nat, negative: bool, limb: Limb)
    requires k == i / 32 < |s| && limb == if negative then NegatedLimb(s, k) else s[k]
    ensures LimbBit(limb, i % 32) <==> BitOf(if negative then -Val(s) else Val(s), i)
  {
    hide Val, Pow2, Down, BitOf, NegatedLimb;
    var j := i % 32;
    var x := if negative then -Val(s) else Val(s);
    DownAdd(x, 32 * k, j);
    LimbsAbove(s, k);
    assert s[k..] == [s[k]] + s[k + 1..];
    ConsVal(s[k], s[k + 1..]);
    Pow2Limb();
    var above := LimbAndAbove(s, k, negative, limb);
    LowBits(Down(x, 32 * k), limb, above, 32, j);
    DownDivides(limb, j);
    BitMeaning(x, 32 * k, j, limb);
  }

  lemma BitMeaning(x: int, i: nat, j: nat, limb: Limb)
    requires Down(Down(x, i), j) == Down(x, i + j) && Down(limb, j) == limb / Pow2(j)
    requires BitOf(Down(x, i), j) == BitOf(limb, j)
    ensures LimbBit(limb, j) <==> BitOf(x, i + j)
  {
    hide Down, Pow2;
  }

  /** The limb is what is there modulo B. */
  lemma LimbAndAbove(s: seq<Limb>, k: nat, negative: bool, limb: Limb) returns (above: int)
    requires k < |s| && limb == if negative then NegatedLimb(s, k) else s[k]
    requires Val(s[k..]) == s[k] + 0x1_0000_0000 * Val(s[k + 1..])
    ensures limb + 0x1_0000_0000 * above ==
      if negative then -Val(s[k..]) - (if Val(s[..k]) > 0 then 1 else 0) else Val(s[k..])
  {
    hide Val;
    var top, x := Val(s[k + 1..]), s[k] as int;
    if negative {
      var less := if Val(s[..k]) > 0 then 1 else 0;
      above := if x + less > 0 then -top - 1 else -top;
    } else {
      above := top;
    }
  }

  // bit_one_complement

  /** The one's complement flips every bit. */
  lemma {:induction false} ComplementFlips(x: int, i: nat)
    ensures BitOf(-x - 1, i) == !BitOf(x, i)
    decreases i
  {
    if i > 0 {
      ComplementFlips(x / 2, i - 1);
      assert (-x - 1) / 2 == -(x / 2) - 1;
    }
  }

  /** bit_one_complement: all bits flipped, which is -x - 1. */
  method BitOneComplement(target: Integer, op: Integer)
    requires target.Valid() && op.Valid() && Separate(target, op)
    modifies target, target.item
    ensures target.Valid() && (target.item == old(target.item) || fresh(target.item))
    ensures target.Value() == -old(op.Value()) - 1
    ensures forall i: nat :: BitOf(target.Value(), i) == !BitOf(old(op.Value()), i)
  {
    hide Val, Shift, BitOf, Signed;
    var size := op.count;
    ghost var s, x := op.item[..], op.Value();
    SignedLimbs(op.item, s, size);
    if size >= 0 {
      target.Resize(size + 1);
      SignedLimbs(op.item, s, size);
      size := PlusOneNegated(target.item, op.item, size);
    } else {
      target.Resize(-size);
      SignedLimbs(op.item, s, size);
      size := MinusOneNegated(target.item, op.item, -size);
    }
    target.count := size;
    forall i: nat ensures BitOf(-x - 1, i) == !BitOf(x, i) {
      ComplementFlips(x, i);
    }
  }

  /** The complement of a number that is not negative. */
  method PlusOneNegated(wp: array<Limb>, up: array<Limb>, n: nat) returns (size: int)
    requires n < wp.Length && Normal(up, n)
    modifies wp
    ensures Normal(wp, size) && Signed(wp, size) == -old(Signed(up, n)) - 1
  {
    hide Val, Shift;
    size := n;
    ghost var u := up[..n];
    if size == 0 {
      wp[0] := 1;
      size := -1;
      SmallValues(u, wp);
    } else {
      assert up[0..0 + n] == u;
      var cy := Add1(wp, 0, up, 0, n, 1);
      ghost var w := wp[..n];
      assert wp[0..0 + n] == w;
      TopKept(u, w, 1);
      if cy != 0 {
        wp[size] := cy;
        assert wp[..n] == w && wp[..n + 1] == w + [cy];
        ValSnoc(w, cy);
        size := size + 1;
      } else {
        ShiftZero(n);
      }
      size := -size;
    }
  }

  /** The complement of minus a positive number. */
  method MinusOneNegated(wp: array<Limb>, up: array<Limb>, n: nat) returns (size: int)
    requires 1 <= n <= wp.Length && Normal(up, -(n as int))
    modifies wp
    ensures Normal(wp, size) && Signed(wp, size) == -old(Signed(up, -(n as int))) - 1
  {
    hide Val, Shift;
    ghost var u := up[..n];
    assert up[0..0 + n] == u;
    var junk := Sub1(wp, 0, up, 0, n, 1);
    ghost var w := wp[..n];
    assert wp[0..0 + n] == w;
    OneLess(u, w, junk);
    size := n;
    if wp[size - 1] == 0 {
      size := size - 1;
      assert wp[..size] == w[..size];
    }
  }

  lemma SmallValues(s: seq<Limb>, a: array<Limb>)
    requires a.Length >= 1 && a[0] == 1 && s == []
    ensures Val(s) == 0 && Val(a[..1]) == 1
  {
    assert a[..1] == [1];
    ValOne(1);
  }

  /** One less than a normalized number: no borrow, and at most the top limb becomes zero. */
  lemma OneLess(u: seq<Limb>, w: seq<Limb>, borrow: Limb)
    requires u != [] && |w| == |u| && u[|u| - 1] != 0 && borrow <= 1 && Val(w) - Shift(borrow, |w|) == Val(u) - 1
    ensures Val(w) == Val(u) - 1
    ensures w[|w| - 1] == 0 ==> Val(w[..|w| - 1]) == Val(w) && (|w| >= 2 ==> w[|w| - 2] != 0)
  {
    hide Val, Shift;
    var n := |u| - 1;
    MoreLimbs(u, []);
    ValNone(u);
    NoBorrow(w, borrow, Val(u) - 1);
    TopSplit(w);
    TopSplit(u);
    if n >= 1 {
      TopMissing(w[..n]);
    }
  }

  /** A zero top limb leaves a number well below the next power of B. */
  lemma TopMissing(w: seq<Limb>)
    requires w != []
    ensures w[|w| - 1] == 0 ==> Val(w) + 1 < Shift(1, |w|)
  {
    hide Val, Shift;
    var n := |w| - 1;
    TopSplit(w);
    ShiftCons(1, n);
  }

  // bit_xor

  /** What is left of x when its sign bits are taken away. */
  function Unsigned(x: int): nat
  {
    if x < 0 then -x - 1 else x
  }

  function BitXor(x: int, y: int): int
  {
    var m: int := Xor(Unsigned(x), Unsigned(y));
    if (x < 0) != (y < 0) then -m - 1 else m
  }

  lemma {:induction false} XorBit(a: nat, b: nat, i: nat)
    ensures BitOf(Xor(a, b), i) == (BitOf(a, i) != BitOf(b, i))
    decreases i
  {
    var m := Xor(a, b);
    XorHalf(a, b);
    if i > 0 {
      XorBit(a / 2, b / 2, i - 1);
    }
  }

  lemma XorHalf(a: nat, b: nat)
    ensures Xor(a, b) % 2 == (a + b) % 2 && Xor(a, b) / 2 == Xor(a / 2, b / 2)
  {
    XorUnfolded(a, b);
    hide Xor;
    DivModUnique(Xor(a, b), 2, Xor(a / 2, b / 2), (a + b) % 2);
  }

  lemma XorUnfolded(a: nat, b: nat)
    ensures Xor(a, b) == (a + b) % 2 + 2 * Xor(a / 2, b / 2)
  {
  }

  /** Bit by bit, for any signs. */
  lemma BitXorBits(x: int, y: int, i: nat)
    ensures BitOf(BitXor(x, y), i) == (BitOf(x, i) != BitOf(y, i))
  {
    hide BitOf, Xor;
    var a, b := Unsigned(x), Unsigned(y);
    XorBit(a, b, i);
    ComplementFlips(x, i);
    ComplementFlips(y, i);
    ComplementFlips(Xor(a, b), i);
  }

  /** The numbers above and below bit n are combined separately. */
  lemma {:induction false} XorSplit(a: nat, b: nat, v: nat, w: nat, n: nat)
    requires a < Pow2(n) && b < Pow2(n)
    ensures Pow2(n) * v >= 0 && Pow2(n) * w >= 0 && Xor(a, b) < Pow2(n)
    ensures Xor(a + Pow2(n) * v, b + Pow2(n) * w) == Xor(a, b) + Pow2(n) * Xor(v, w)
    decreases n
  {
    hide Pow2, Xor;
    Pow2Unfolded(n);
    if n == 0 {
      XorNothing(0);
    } else {
      XorSplit(a / 2, b / 2, v, w, n - 1);
      var p := Pow2(n - 1);
      Twice(p, v);
      Twice(p, w);
      Twice(p, Xor(v, w));
      XorStep(a, b, p * v, p * w, p * Xor(v, w));
      XorUnfolded(a, b);
    }
  }

  lemma XorStep(a: nat, b: nat, v: nat, w: nat, x: nat)
    requires Xor(a / 2 + v, b / 2 + w) == Xor(a / 2, b / 2) + x
    ensures Xor(a + 2 * v, b + 2 * w) == Xor(a, b) + 2 * x
  {
    hide Xor;
    XorUnfolded(a, b);
    XorUnfolded(a + 2 * v, b + 2 * w);
    HalfSum(a, v);
    HalfSum(b, w);
  }

  lemma HalfSum(a: nat, x: int)
    ensures (a + 2 * x) / 2 == a / 2 + x && (a + 2 * x) % 2 == a % 2
  {
  }

  lemma {:induction false} XorNothing(a: nat)
    ensures Xor(a, 0) == a && Xor(0, a) == a
    decreases a
  {
    if a > 0 {
      XorNothing(a / 2);
    }
  }

  function XorLimb(x: Limb, y: Limb): Limb
  {
    Pow2Limb();
    XorSplit(x, y, 0, 0, 32);
    Xor(x, y)
  }

  /** Limb by limb; the longer vector goes on alone. */
  function XorLimbs(u: seq<Limb>, v: seq<Limb>): (r: seq<Limb>)
    ensures |r| == if |u| > |v| then |u| else |v|
  {
    if u == [] then v else if v == [] then u else [XorLimb(u[0], v[0])] + XorLimbs(u[1..], v[1..])
  }

  lemma {:induction false} XorLimbsAt(u: seq<Limb>, v: seq<Limb>, i: nat)
    requires i < |u| || i < |v|
    ensures XorLimbs(u, v)[i] == if i >= |u| then v[i] else if i >= |v| then u[i] else XorLimb(u[i], v[i])
    decreases i
  {
    if u != [] && v != [] && i > 0 {
      XorLimbsAt(u[1..], v[1..], i - 1);
    }
  }

  lemma {:induction false} XorLimbsValue(u: seq<Limb>, v: seq<Limb>)
    ensures Val(u) >= 0 && Val(v) >= 0 && Val(XorLimbs(u, v)) == Xor(Val(u), Val(v))
    decreases |u|
  {
    hide Xor, Pow2;
    ValBound(u);
    ValBound(v);
    if u == [] {
      XorNothing(Val(v));
    } else if v == [] {
      XorNothing(Val(u));
    } else {
      XorLimbsValue(u[1..], v[1..]);
      Pow2Limb();
      XorSplit(u[0], v[0], Val(u[1..]), Val(v[1..]), 32);
      ConsVal(XorLimb(u[0], v[0]), XorLimbs(u[1..], v[1..]));
    }
  }

  /** bit_xor of special_logic.e: upwards, then the rest of the longer operand. */
  method XorUp(wp: array<Limb>, up: array<Limb>, n1: nat, vp: array<Limb>, n2: nat)
    requires n1 <= up.Length && n2 <= vp.Length && n1 <= wp.Length && n2 <= wp.Length
    modifies wp
    ensures wp[..(if n1 > n2 then n1 else n2)] == old(XorLimbs(up[..n1], vp[..n2]))
  {
    hide XorLimbs, XorLimb;
    ghost var u, v := up[..n1], vp[..n2];
    ghost var x := XorLimbs(u, v);
    var cursor := 0;
    var min := if n1 < n2 then n1 else n2;
    while cursor < min
      invariant 0 <= cursor <= min
      invariant forall k :: 0 <= k < cursor ==> wp[k] == x[k]
      invariant forall k :: cursor <= k < n1 ==> up[k] == u[k]
      invariant forall k :: cursor <= k < n2 ==> vp[k] == v[k]
    {
      XorLimbsAt(u, v, cursor);
      wp[cursor] := XorLimb(up[cursor], vp[cursor]);
      cursor := cursor + 1;
    }
    CopyTail(wp, up, n1, vp, n2, u, v);
  }

  /** The limbs that only the longer operand has. */
  method CopyTail(wp: array<Limb>, up: array<Limb>, n1: nat, vp: array<Limb>, n2: nat, ghost u: seq<Limb>, ghost v: seq<Limb>)
    requires n1 <= up.Length && n2 <= vp.Length && n1 <= wp.Length && n2 <= wp.Length && |u| == n1 && |v| == n2
    requires n1 > n2 ==> up[n2..n1] == u[n2..]
    requires n2 > n1 ==> vp[n1..n2] == v[n1..]
    modifies wp
    ensures forall k :: 0 <= k < n1 && k < n2 ==> wp[k] == old(wp[k])
    ensures forall k :: (0 <= n1 <= k < n2) || (0 <= n2 <= k < n1) ==> wp[k] == XorLimbs(u, v)[k]
  {
    hide XorLimb, XorLimbs;
    forall k | (n1 <= k < n2) || (n2 <= k < n1) ensures XorLimbs(u, v)[k] == if k >= n1 then v[k] else u[k] {
      XorLimbsAt(u, v, k);
    }
    if n1 > n2 {
      assert forall k :: n2 <= k < n1 ==> up[k] == up[n2..n1][k - n2] == u[k];
      CopyData(wp, n2, up, n2, n1 - n2);
      assert forall k :: n2 <= k < n1 ==> wp[k] == wp[n2..n2 + (n1 - n2)][k - n2];
    } else if n2 > n1 {
      assert forall k :: n1 <= k < n2 ==> vp[k] == vp[n1..n2][k - n1] == v[k];
      CopyData(wp, n1, vp, n1, n2 - n1);
      assert forall k :: n1 <= k < n2 ==> wp[k] == wp[n1..n1 + (n2 - n1)][k - n1];
    }
  }

  /** The loops of integer_x_logic.e: the rest of the longer operand first, then downwards. */
  method XorDown(wp: array<Limb>, up: array<Limb>, n1: nat, vp: array<Limb>, n2: nat)
    requires n1 <= up.Length && n2 <= vp.Length && n1 <= wp.Length && n2 <= wp.Length
    modifies wp
    ensures wp[..(if n1 > n2 then n1 else n2)] == old(XorLimbs(up[..n1], vp[..n2]))
  {
    hide XorLimbs, XorLimb;
    ghost var u, v := up[..n1], vp[..n2];
    ghost var x := XorLimbs(u, v);
    CopyTail(wp, up, n1, vp, n2, u, v);
    var min := if n1 > n2 then n2 else n1;
    var i := min - 1;
    while i >= 0
      invariant -1 <= i < min
      invariant forall k :: i < k < n1 || i < k < n2 ==> wp[k] == x[k]
      invariant forall k :: 0 <= k <= i ==> up[k] == u[k] && vp[k] == v[k]
    {
      XorLimbsAt(u, v, i);
      wp[i] := XorLimb(up[i], vp[i]);
      i := i - 1;
    }
  }

  /** One less than a magnitude, in an array of its own. */
  method LessOne(up: array<Limb>, n: nat) returns (opx: array<Limb>)
    requires 1 <= n && Normal(up, -(n as int))
    ensures fresh(opx) && opx.Length == n && Val(opx[..n]) == Unsigned(Signed(up, -(n as int)))
  {
    hide Val, Shift;
    opx := new Limb[n](_ => 0);
    ghost var u := up[..n];
    assert up[0..0 + n] == u;
    var junk := Sub1(opx, 0, up, 0, n, 1);
    assert opx[0..0 + n] == opx[..n];
    OneLess(u, opx[..n], junk);
    MoreLimbs(u, []);
    ValNone(u);
  }

  /** bit_xor for operands of any signs; the result may be one of the operands. */
  method BitXorIntegers(res: Integer, op1: Integer, op2: Integer)
    requires res.Valid() && op1.Valid() && op2.Valid()
    requires Separate(res, op1) && Separate(res, op2) && Separate(op1, op2)
    modifies res, res.item
    ensures res.Valid() && (res.item == old(res.item) || fresh(res.item))
    ensures res.Value() == BitXor(old(op1.Value()), old(op2.Value()))
    ensures forall i: nat :: BitOf(res.Value(), i) == (BitOf(old(op1.Value()), i) != BitOf(old(op2.Value()), i))
  {
    hide Val, Shift, BitOf, BitXor, Xor;
    ghost var x, y := op1.Value(), op2.Value();
    if op1.count >= 0 {
      if op2.count >= 0 {
        XorBothPositive(res, op1, op2);
      } else {
        XorMixed(res, op1, op2);
      }
    } else {
      if op2.count < 0 {
        XorBothNegative(res, op1, op2);
      } else {
        XorMixed(res, op2, op1);
        BitXorCommutes(x, y);
      }
    }
    forall i: nat ensures BitOf(BitXor(x, y), i) == (BitOf(x, i) != BitOf(y, i)) {
      BitXorBits(x, y, i);
    }
  }

  lemma BitXorCommutes(x: int, y: int)
    ensures BitXor(x, y) == BitXor(y, x)
  {
    XorCommutes(Unsigned(x), Unsigned(y));
  }

  lemma {:induction false} XorCommutes(a: nat, b: nat)
    ensures Xor(a, b) == Xor(b, a)
    decreases a + b
  {
    if a > 0 || b > 0 {
      XorCommutes(a / 2, b / 2);
    }
  }

  method XorBothPositive(res: Integer, op1: Integer, op2: Integer)
    requires res.Valid() && op1.Valid() && op2.Valid() && op1.count >= 0 && op2.count >= 0
    requires Separate(res, op1) && Separate(res, op2) && Separate(op1, op2)
    modifies res, res.item
    ensures res.Valid() && (res.item == old(res.item) || fresh(res.item))
    ensures res.Value() == BitXor(old(op1.Value()), old(op2.Value()))
  {
    hide Val, Shift, Xor, XorLimbs, Signed;
    var n1, n2 := op1.count, op2.count;
    CountSign(op1);
    CountSign(op2);
    ghost var s, t := op1.item[..], op2.item[..];
    SignedLimbs(op1.item, s, n1);
    SignedLimbs(op2.item, t, n2);
    res.Resize(if n1 > n2 then n1 else n2);
    SignedLimbs(op1.item, s, n1);
    SignedLimbs(op2.item, t, n2);
    var resSize := XorMagnitudes(res.item, op1.item, n1, op2.item, n2);
    Negated(res.item, resSize);
    res.count := resSize;
  }

  method XorMagnitudes(wp: array<Limb>, up: array<Limb>, n1: nat, vp: array<Limb>, n2: nat) returns (size: nat)
    requires Normal(up, n1) && Normal(vp, n2) && n1 <= wp.Length && n2 <= wp.Length
    modifies wp
    ensures Normal(wp, size) && old(Signed(up, n1)) >= 0 && old(Signed(vp, n2)) >= 0
    ensures Signed(wp, size) == Xor(old(Signed(up, n1)), old(Signed(vp, n2)))
  {
    hide Val, Shift, Xor, XorLimbs;
    ghost var u, v := up[..n1], vp[..n2];
    XorUp(wp, up, n1, vp, n2);
    XorLimbsValue(u, v);
    var all := if n1 > n2 then n1 else n2;
    size := Normalize(wp, 0, all);
    Sliced(wp, size, all);
  }

  lemma Sliced(a: array<Limb>, n: nat, m: nat)
    requires n <= a.Length && m <= a.Length
    ensures a[0..0 + n] == a[..n] && a[0..0 + m] == a[..m]
  {
  }

  method XorBothNegative(res: Integer, op1: Integer, op2: Integer)
    requires res.Valid() && op1.Valid() && op2.Valid() && op1.count < 0 && op2.count < 0
    requires Separate(res, op1) && Separate(res, op2) && Separate(op1, op2)
    modifies res, res.item
    ensures res.Valid() && (res.item == old(res.item) || fresh(res.item))
    ensures res.Value() == BitXor(old(op1.Value()), old(op2.Value()))
  {
    hide Val, Shift, Xor, XorLimbs, Signed;
    var n1, n2 := -op1.count, -op2.count;
    CountSign(op1);
    CountSign(op2);
    var p1 := LessOne(op1.item, n1);
    var p2 := LessOne(op2.item, n2);
    ghost var u, v := p1[..n1], p2[..n2];
    var resAlloc := if n1 > n2 then n1 else n2;
    res.Resize(resAlloc);
    XorDown(res.item, p1, n1, p2, n2);
    XorLimbsValue(u, v);
    var resSize := Normalize(res.item, 0, resAlloc);
    Sliced(res.item, resSize, resAlloc);
    Negated(res.item, resSize);
    res.count := resSize;
  }

  /** A number that is not negative with a negative one. */
  method XorMixed(res: Integer, op1: Integer, op2: Integer)
    requires res.Valid() && op1.Valid() && op2.Valid() && op1.count >= 0 && op2.count < 0
    requires Separate(res, op1) && Separate(res, op2) && Separate(op1, op2)
    modifies res, res.item
    ensures res.Valid() && (res.item == old(res.item) || fresh(res.item))
    ensures res.Value() == BitXor(old(op1.Value()), old(op2.Value()))
  {
    hide Val, Shift, Xor, XorLimbs, Signed;
    var n1, n2 := op1.count, -op2.count;
    CountSign(op1);
    CountSign(op2);
    ghost var x, y := op1.Value(), op2.Value();
    var p1 := op1.item;
    Negated(p1, n1);
    var p2 := LessOne(op2.item, n2);
    ghost var u, v := p1[..n1], p2[..n2];
    var resSize := if n1 > n2 then n1 else n2;
    res.Resize(resSize + 1);
    assert p1[..n1] == u;
    XorDown(res.item, p1, n1, p2, n2);
    XorLimbsValue(u, v);
    resSize := PlusOne(res.item, resSize);
    res.count := -resSize;
    Negated(res.item, resSize);
  }

  /** Adds one and drops leading zero limbs. */
  method PlusOne(wp: array<Limb>, n: nat) returns (size: nat)
    requires 1 <= n < wp.Length
    modifies wp
    ensures Normal(wp, size) && Val(wp[..size]) == old(Val(wp[..n])) + 1
  {
    hide Val, Shift;
    assert wp[0..0 + n] == wp[..n];
    size := n;
    var cy := Add1(wp, 0, wp, 0, n, 1);
    ghost var w := wp[..n];
    assert wp[0..0 + n] == w;
    if cy != 0 {
      wp[size] := cy;
      assert wp[..n] == w && wp[..n + 1] == w + [cy];
      ValSnoc(w, cy);
      size := size + 1;
    } else {
      ShiftZero(n);
    }
    ghost var all := size;
    size := Normalize(wp, 0, size);
    Sliced(wp, size, all);
  }
}
