/** Karatsuba multiplication in place, with a workspace. */
module Karatsuba {
  import opened Integers
  import opened Limbs
  import opened Bits
  import opened SpecialArithmetic
  import opened Multiplication

  /** Limbs of workspace that the recursion on n limbs really uses. */
  function Workspace(n: nat): nat
  {
    if n < 2 then 0
    else 2 * ((n + 1) / 2) + if (n + 1) / 2 < 32 then 0 else Workspace((n + 1) / 2)
  }

  lemma WorkspaceStep(n: nat, m: nat, k: nat)
    requires n >= 2 && k == n / 2 && m == n - k
    ensures Workspace(n) == 2 * m + if m < 32 then 0 else Workspace(m)
  {
    assert m == (n + 1) / 2;
  }

  lemma {:induction false} WorkspaceMonotone(n: nat)
    ensures Workspace(n) <= Workspace(n + 1)
  {
    if n >= 2 && n % 2 == 0 {
      WorkspaceMonotone(n / 2);
      assert (n + 1) / 2 == n / 2 && (n + 2) / 2 == n / 2 + 1;
    }
  }

  function Log2Up(n: nat): nat
  {
    if n < 2 then 0 else 1 + Log2Up((n + 1) / 2)
  }

  lemma {:induction false} WorkspaceBound(n: nat)
    ensures Workspace(n) <= 2 * n + 2 * Log2Up(n)
  {
    if n >= 2 {
      WorkspaceBound((n + 1) / 2);
    }
  }

  lemma {:induction false} Log2UpBound(n: nat, k: nat)
    requires n <= Pow2(k)
    ensures Log2Up(n) <= k
  {
    if n >= 2 {
      Log2UpBound((n + 1) / 2, k - 1);
    }
  }

  /** mul_n allocates 2n + 64 limbs of workspace; that is enough for every n below 2^31. */
  lemma WorkspaceFits(n: nat)
    requires n < 0x8000_0000
    ensures Workspace(n) <= 2 * n + 64
  {
    WorkspaceBound(n);
    assert Pow2(31) == 0x8000_0000 by {
      assert Pow2(8) == 256;
      assert Pow2(16) == 65536;
      assert Pow2(24) == 0x100_0000;
    }
    Log2UpBound(n, 31);
  }

  /** |X0 - X1| on m limbs, where the halves are compared from the top before they are subtracted. */
  method HalfDifference(target: array<Limb>, to: nat, x: array<Limb>, x0: nat, x1: nat, m: nat) returns (neg: bool)
    requires m >= 1 && Slice(target, to, m) && Slice(x, x0, m) && Slice(x, x1, m)
    requires Apart(target, to, m, x, x0, m) && Apart(target, to, m, x, x1, m)
    modifies target
    ensures neg <==> Val(old(x[x0..x0 + m])) < Val(old(x[x1..x1 + m]))
    ensures neg ==> Val(target[to..to + m]) == Val(old(x[x1..x1 + m])) - Val(old(x[x0..x0 + m]))
    ensures !neg ==> Val(target[to..to + m]) == Val(old(x[x0..x0 + m])) - Val(old(x[x1..x1 + m]))
    ensures forall j :: 0 <= j < to || to + m <= j < target.Length ==> target[j] == old(target[j])
  {
    hide Val, Shift;
    ghost var u, v := x[x0..x0 + m], x[x1..x1 + m];
    var w0, w1 := CompareHalves(x, x0, x1, m);
    neg := w0 < w1;
    var carry;
    if neg {
      carry := SubN(target, to, x, x1, x, x0, m);
    } else {
      carry := SubN(target, to, x, x0, x, x1, m);
    }
    NoBorrow(target[to..to + m], carry, if neg then Val(v) - Val(u) else Val(u) - Val(v));
  }

  /** The two limbs that decide the comparison (equal limbs when the halves are equal). */
  method CompareHalves(x: array<Limb>, x0: nat, x1: nat, m: nat) returns (w0: Limb, w1: Limb)
    requires m >= 1 && Slice(x, x0, m) && Slice(x, x1, m)
    ensures w0 < w1 <==> Val(x[x0..x0 + m]) < Val(x[x1..x1 + m])
  {
    hide Val, Shift;
    ghost var u, v := x[x0..x0 + m], x[x1..x1 + m];
    var i := m;
    w1 := 0;
    w0 := w1;
    assert u[..m] == u && v[..m] == v;
    while !(w0 != w1 || i == 0)
      invariant 0 <= i <= m
      invariant w0 == w1 ==> Val(u) - Val(v) == Val(u[..i]) - Val(v[..i])
      invariant w0 < w1 ==> Val(u) < Val(v)
      invariant w0 > w1 ==> Val(u) > Val(v)
    {
      i := i - 1;
      w0, w1 := x[x0 + i], x[x1 + i];
      TopLimbDecides(u, v, i);
    }
  }

  /** |X0 - X1| on m + 1 limbs, where X0 has m + 1 limbs and X1 the m limbs above it. */
  method OddDifference(target: array<Limb>, to: nat, x: array<Limb>, x0: nat, m: nat) returns (neg: bool)
    requires m >= 1 && Slice(target, to, m + 1) && Slice(x, x0, 2 * m + 1)
    requires Apart(target, to, m + 1, x, x0, 2 * m + 1)
    modifies target
    ensures neg <==> Val(old(x[x0..x0 + m + 1])) < Val(old(x[x0 + m + 1..x0 + m + 1 + m]))
    ensures Val(target[to..to + m + 1]) == Distance(Val(old(x[x0..x0 + m + 1])), Val(old(x[x0 + m + 1..x0 + m + 1 + m])))
    ensures forall j :: 0 <= j < to || to + m + 1 <= j < target.Length ==> target[j] == old(target[j])
  {
    hide Val, Shift;
    ghost var u, v := x[x0..x0 + m + 1], x[x0 + m + 1..x0 + m + 1 + m];
    assert u[..m] == x[x0..x0 + m];
    var w := x[x0 + m];
    ghost var top := w;
    ghost var borrow: int := 0;
    neg := false;
    if w != 0 {
      var carry := SubN(target, to, x, x0, x, x0 + m + 1, m);
      borrow := carry;
      w := Minus(w, carry);
    } else {
      neg := HalfDifference(target, to, x, x0, x0 + m + 1, m);
    }
    ghost var low := target[to..to + m];
    target[to + m] := w;
    assert target[to..to + m + 1] == low + [w];
    WideDifference(u, v, m, low, borrow, w, neg);
  }

  function Distance(x: int, y: int): int
  {
    if x < y then y - x else x - y
  }

  lemma WideDifference(u: seq<Limb>, v: seq<Limb>, m: nat, low: seq<Limb>, borrow: int, w: Limb, neg: bool)
    requires |u| == m + 1 && |v| == m && |low| == m
    requires u[m] == 0 ==> w == 0 && (neg <==> Val(u[..m]) < Val(v)) && Val(low) == Distance(Val(u[..m]), Val(v))
    requires u[m] != 0 ==> !neg && w == u[m] - borrow && Val(low) - Shift(borrow, m) == Val(u[..m]) - Val(v)
    ensures neg <==> Val(u) < Val(v)
    ensures Val(low + [w]) == Distance(Val(u), Val(v))
  {
    hide Val, Shift;
    ValTake(u, m);
    assert u[..m + 1] == u;
    ValSnoc(low, w);
    ShiftZero(m);
    ValBound(v);
    ValBound(u[..m]);
    if u[m] != 0 {
      TopMinusBorrow(w, borrow, u[m], m);
    }
  }

  lemma TopMinusBorrow(w: int, borrow: int, top: int, m: nat)
    requires w == top - borrow && top >= 1
    ensures Shift(w, m) + Shift(borrow, m) == Shift(top, m) && Shift(top, m) >= Shift(1, m)
  {
    ShiftAdd(w, borrow, m);
    ShiftLess(top, 1, m);
  }

  // The middle product M = A0*B1 + A1*B0 is A0*B0 + A1*B1 -/+ |A0-A1|*|B0-B1|.

  function Middle(l: int, h: int, p: int, neg: bool): int
  {
    if neg then l + h + p else l + h - p
  }

  /** Even case: M is left as w:ws, w being the limb above the workspace slice. */
  method EvenMiddle(target: array<Limb>, to: nat, ws: array<Limb>, wo: nat, n: nat, neg: bool) returns (w: Limb)
    requires Slice(target, to, 2 * n) && Slice(ws, wo, n) && Apart(ws, wo, n, target, to, 2 * n)
    requires Middle(Val(target[to..to + n]), Val(target[to + n..to + n + n]), Val(ws[wo..wo + n]), neg) >= 0
    modifies ws
    ensures w <= 2
    ensures Val(ws[wo..wo + n]) + Shift(w, n) ==
            old(Middle(Val(target[to..to + n]), Val(target[to + n..to + n + n]), Val(ws[wo..wo + n]), neg))
    ensures forall j :: 0 <= j < wo || wo + n <= j < ws.Length ==> ws[j] == old(ws[j])
  {
    hide Val, Shift;
    ghost var h := target[to + n..to + n + n];
    var carry := CombineLow(target, to, ws, wo, n, neg);
    ghost var k: int := if neg then carry else 0 - (carry as int);
    w := if neg then carry else Minus(0, carry);
    ghost var f := ws[wo..wo + n];
    assert target[to + n..to + n + n] == h;
    carry := AddN(ws, wo, target, to + n, ws, wo, n);
    w := Plus(w, carry);
    ShiftAdd(k, carry, n);
    NonNegativeTop(ws[wo..wo + n], k + carry);
  }

  /** First addition or subtraction: ws := target +/- ws. */
  method CombineLow(target: array<Limb>, to: nat, ws: array<Limb>, wo: nat, n: nat, neg: bool) returns (carry: Limb)
    requires Slice(target, to, n) && Slice(ws, wo, n) && Apart(ws, wo, n, target, to, n)
    modifies ws
    ensures carry <= 1
    ensures Val(ws[wo..wo + n]) + Shift(if neg then carry else 0 - (carry as int), n) ==
            Middle(Val(old(target[to..to + n])), 0, Val(old(ws[wo..wo + n])), neg)
    ensures forall j :: 0 <= j < wo || wo + n <= j < ws.Length ==> ws[j] == old(ws[j])
  {
    hide Val, Shift;
    if neg {
      carry := AddN(ws, wo, target, to, ws, wo, n);
    } else {
      carry := SubN(ws, wo, target, to, ws, wo, n);
      ShiftNegate(carry, n);
    }
  }

  lemma NonNegativeTop(s: seq<Limb>, k: int)
    requires Val(s) + Shift(k, |s|) >= 0
    ensures k >= 0
  {
    ValBound(s);
    if k < 0 {
      ShiftNegate(1, |s|);
      if k < -1 { ShiftLess(k, -1, |s|); }
    }
  }

  lemma TwoMore(a: array<Limb>, o: nat, m: nat)
    requires Slice(a, o, m + 2)
    ensures a[o..o + m + 2] == a[o..o + m] + [a[o + m], a[o + m + 1]]
  {
  }

  /** Odd case, second addition: the carry runs through the two limbs above the high product. */
  method AddHighProduct(target: array<Limb>, ho: nat, ws: array<Limb>, wo: nat, m: nat) returns (ghost k: int)
    requires Slice(target, ho, m) && Slice(ws, wo, m + 2) && Apart(ws, wo, m + 2, target, ho, m)
    modifies ws
    ensures Val(ws[wo..wo + m + 2]) + Shift(k, m + 2) == Val(old(ws[wo..wo + m + 2])) + Val(old(target[ho..ho + m]))
    ensures forall j :: 0 <= j < wo || wo + m + 2 <= j < ws.Length ==> ws[j] == old(ws[j])
  {
    hide Val, Shift;
    ghost var u := ws[wo..wo + m + 2];
    assert u[..m] == ws[wo..wo + m];
    var c := AddN(ws, wo, target, ho, ws, wo, m);
    ghost var lo := ws[wo..wo + m];
    if c != 0 {
      var xlimb := Plus(ws[wo + m], 1);
      ws[wo + m] := xlimb;
      if xlimb == 0 {
        ws[wo + m + 1] := Plus(ws[wo + m + 1], 1);
      }
    }
    assert ws[wo..wo + m] == lo;
    TwoMore(ws, wo, m);
    k := TwoLimbCarry(u, m, lo, c, ws[wo + m], ws[wo + m + 1], Val(old(target[ho..ho + m])));
  }

  lemma TwoLimbCarry(u: seq<Limb>, m: nat, lo: seq<Limb>, c: Limb, x: Limb, y: Limb, h: int) returns (k: int)
    requires |u| == m + 2 && |lo| == m && c <= 1
    requires Val(lo) + Shift(c, m) == h + Val(u[..m])
    requires x == Plus(u[m], c) && y == Plus(u[m + 1], Bit(c == 1 && x == 0))
    ensures Val(lo + [x, y]) + Shift(k, m + 2) == Val(u) + h
  {
    hide Val, Shift;
    var a: int, b: int, x': int, y': int := u[m], u[m + 1], x, y;
    k := if y' < b then 1 else 0;
    assert x' + 0x1_0000_0000 * (y' + 0x1_0000_0000 * k) == a + 0x1_0000_0000 * b + c;
    assert u[m..] == [u[m], u[m + 1]];
    ValSplit(u, m);
    ValAppend(lo, [x, y]);
    ValTwo(u[m], u[m + 1]);
    ValTwo(x, y);
    ShiftShift(k, 2, m);
    ShiftTwo(k);
    ShiftAdd(Val([x, y]), Shift(k, 2), m);
    ShiftAdd(Val(u[m..]), c, m);
  }

  /** Odd case: M fits the workspace slice, so the additions and the subtraction may wrap on the way. */
  method OddMiddle(target: array<Limb>, to: nat, ws: array<Limb>, wo: nat, n: nat, neg: bool)
    requires n >= 1 && Slice(target, to, 2 * n) && Slice(ws, wo, n + 1) && Apart(ws, wo, n + 1, target, to, 2 * n)
    requires 0 <= Middle(Val(target[to..to + n + 1]), Val(target[to + n + 1..to + n + 1 + (n - 1)]), Val(ws[wo..wo + n + 1]), neg)
               < Shift(1, n + 1)
    modifies ws
    ensures Val(ws[wo..wo + n + 1]) ==
            old(Middle(Val(target[to..to + n + 1]), Val(target[to + n + 1..to + n + 1 + (n - 1)]), Val(ws[wo..wo + n + 1]), neg))
    ensures forall j :: 0 <= j < wo || wo + n + 1 <= j < ws.Length ==> ws[j] == old(ws[j])
  {
    hide Val, Shift;
    ghost var l, h, p := Val(target[to..to + n + 1]), target[to + n + 1..to + n + 1 + (n - 1)], Val(ws[wo..wo + n + 1]);
    var carry := CombineLow(target, to, ws, wo, n + 1, neg);
    ghost var k: int := if neg then carry else 0 - (carry as int);
    ghost var f := Val(ws[wo..wo + n + 1]);
    assert f + Shift(k, n + 1) == Middle(l, 0, p, neg);
    assert target[to + n + 1..to + n + 1 + (n - 1)] == h;
    ghost var k2 := AddHighProduct(target, to + n + 1, ws, wo, n - 1);
    ghost var s := ws[wo..wo + n + 1];
    assert Val(s) + Shift(k2, n + 1) == f + Val(h);
    ShiftAdd(k, k2, n + 1);
    SameResidue(s, k + k2, Middle(l, Val(h), p, neg));
  }

  lemma SameResidue(s: seq<Limb>, k: int, m: int)
    requires Val(s) + Shift(k, |s|) == m && 0 <= m < Shift(1, |s|)
    ensures Val(s) == m
  {
    hide Val, Shift;
    ValBound(s);
    ShiftZero(|s|);
    ShiftNegate(1, |s|);
    ShiftLess(k, 1, |s|);
    ShiftLess(-1, k, |s|);
  }

  /** Adds w0:ws at limb `at` of the product; what is carried out of it runs upwards inside the product. */
  method AddAt(target: array<Limb>, to: nat, size: nat, at: nat, ws: array<Limb>, wo: nat, len: nat, w0: Limb)
    requires at + len <= size && Slice(target, to, size) && Slice(ws, wo, len) && Apart(target, to, size, ws, wo, len)
    requires w0 <= 2
    requires Val(target[to..to + size]) + Shift(Val(ws[wo..wo + len]) + Shift(w0, len), at) < Shift(1, size)
    modifies target
    ensures Val(target[to..to + size]) ==
            old(Val(target[to..to + size]) + Shift(Val(ws[wo..wo + len]) + Shift(w0, len), at))
    ensures forall j :: 0 <= j < to || to + size <= j < target.Length ==> target[j] == old(target[j])
  {
    hide Val, Shift;
    var carry := AddInside(target, to, size, at, ws, wo, len, w0);
    var w := w0 + carry;
    if w != 0 {
      CarryOut(target, to, size, at + len, w);
    } else {
      ShiftZero(at + len);
    }
  }

  method AddInside(target: array<Limb>, to: nat, size: nat, at: nat, ws: array<Limb>, wo: nat, len: nat, ghost w0: Limb)
    returns (carry: Limb)
    requires at + len <= size && Slice(target, to, size) && Slice(ws, wo, len) && Apart(target, to, size, ws, wo, len)
    modifies target
    ensures carry <= 1
    ensures Val(target[to..to + size]) + Shift((carry as int) + w0, at + len) ==
            old(Val(target[to..to + size]) + Shift(Val(ws[wo..wo + len]) + Shift(w0, len), at))
    ensures forall j :: 0 <= j < to || to + size <= j < target.Length ==> target[j] == old(target[j])
  {
    hide Val, Shift;
    ghost var t, f := target[to..to + size], Val(ws[wo..wo + len]);
    assert t[at..][..len] == target[to + at..to + at + len];
    carry := AddN(target, to + at, target, to + at, ws, wo, len);
    ghost var mid := target[to + at..to + at + len];
    ThreeParts(target[to..to + size], t, at, mid);
    MiddleAdded(t, at, len, mid, f, carry, w0);
  }

  /** A carry w out of limb i - 1 runs upwards inside the product. */
  method CarryOut(target: array<Limb>, to: nat, size: nat, i: nat, w: Limb)
    requires i <= size && Slice(target, to, size) && w >= 1
    requires Val(target[to..to + size]) + Shift(w, i) < Shift(1, size)
    modifies target
    ensures Val(target[to..to + size]) == Val(old(target[to..to + size])) + Shift(w, i)
    ensures forall j :: 0 <= j < to || to + size <= j < target.Length ==> target[j] == old(target[j])
  {
    hide Val, Shift;
    ghost var t := target[to..to + size];
    RoomAbove(t, i, w);
    assert target[to + i..to + i + (size - i)] == t[i..];
    IncrU(target, to + i, w, size - i);
    ghost var hi := target[to + i..to + i + (size - i)];
    assert target[to..to + size] == t[..i] + hi;
    ValSplit(t, i);
    ValAppend(t[..i], hi);
    ShiftAdd(Val(t[i..]), w, i);
  }

  /** s is t with mid in place of what t holds from index at. */
  lemma ThreeParts(s: seq<Limb>, t: seq<Limb>, at: nat, mid: seq<Limb>)
    requires |s| == |t| && at + |mid| <= |t|
    requires forall j :: 0 <= j < at || at + |mid| <= j < |t| ==> s[j] == t[j]
    requires forall j :: 0 <= j < |mid| ==> s[at + j] == mid[j]
    ensures s == t[..at] + (mid + t[at + |mid|..])
  {
    assert s[at..at + |mid|] == mid;
    assert s[..at] == t[..at] && s[at + |mid|..] == t[at + |mid|..];
  }

  lemma MiddleAdded(t: seq<Limb>, at: nat, len: nat, mid: seq<Limb>, f: int, carry: int, w0: int)
    requires at + len <= |t| && |mid| == len
    requires Val(mid) + Shift(carry, len) == Val(t[at..][..len]) + f
    ensures Val(t[..at] + (mid + t[at + len..])) + Shift(carry + w0, at + len) == Val(t) + Shift(f + Shift(w0, len), at)
  {
    hide Val, Shift;
    var hi := t[at + len..];
    assert t[at..][len..] == hi;
    ValSplit(t, at);
    ValSplit(t[at..], len);
    ValAppend(t[..at], mid + hi);
    ValAppend(mid, hi);
    ShiftShift(carry + w0, len, at);
    ShiftAdd(carry, w0, len);
    ShiftAdd(Val(mid + hi), Shift(carry + w0, len), at);
    ShiftAdd(Val(t[at..]), f + Shift(w0, len), at);
  }

  lemma RoomAbove(t: seq<Limb>, i: nat, w: int)
    requires i <= |t| && w >= 1
    requires Val(t) + Shift(w, i) < Shift(1, |t|)
    ensures i < |t| && Val(t[i..]) + w < Shift(1, |t| - i)
  {
    ValSplit(t, i);
    ValBound(t[..i]);
    ValBound(t);
    ShiftAdd(Val(t[i..]), w, i);
    ShiftShift(1, |t| - i, i);
    ShiftLess(Val(t[i..]) + w, Shift(1, |t| - i), i);
    ValBound(t[i..]);
  }

  // The parts of the recursion.

  /** Of array x nothing changes but the limbs that a product into t with workspace w may write. */
  twostate predicate Framed(x: array<Limb>, t: array<Limb>, to: int, tn: int, w: array<Limb>, wo: int, wn: int)
    reads x
  {
    forall j :: 0 <= j < x.Length && !(x == t && to <= j < to + tn) && !(x == w && wo <= j < wo + wn) ==>
      x[j] == old(x[j])
  }

  /** From the three products to the product of the whole: m + k limbs split into m and k. */
  method CombineOdd(target: array<Limb>, to: nat, m: nat, k: nat, ws: array<Limb>, wo: nat, neg: bool,
                    ghost l: int, ghost h: int, ghost p: int, ghost mid: int)
    requires k >= 1 && m == k + 1 && Slice(target, to, 2 * (m + k))
    requires Slice(ws, wo, 2 * m) && Apart(target, to, 2 * (m + k), ws, wo, 2 * m)
    requires Number(target, to, 2 * m, l) && Number(target, to + 2 * m, 2 * k, h)
    requires Number(ws, wo, 2 * m, p) && mid == Middle(l, h, p, neg)
    requires 0 <= mid < Shift(1, m + k + 1) && l + Shift(h, 2 * m) + Shift(mid, m) < Shift(1, 2 * (m + k))
    modifies target, ws
    ensures Val(target[to..to + 2 * (m + k)]) == l + Shift(h, 2 * m) + Shift(mid, m)
    ensures Framed(target, target, to, 2 * (m + k), ws, wo, 2 * m) && Framed(ws, target, to, 2 * (m + k), ws, wo, 2 * m)
  {
    hide Val, Shift;
    var n := m + k;
    assert n + 1 == 2 * m && n - 1 == 2 * k;
    ghost var t := target[to..to + 2 * n];
    TwoParts(target, to, n + 1, n - 1);
    OddMiddle(target, to, ws, wo, n, neg);
    assert target[to..to + 2 * n] == t;
    ShiftZero(n + 1);
    AddAt(target, to, 2 * n, m, ws, wo, n + 1, 0);
  }

  method CombineEven(target: array<Limb>, to: nat, m: nat, ws: array<Limb>, wo: nat, neg: bool,
                     ghost l: int, ghost h: int, ghost p: int, ghost mid: int)
    requires m >= 1 && Slice(target, to, 2 * (m + m))
    requires Slice(ws, wo, 2 * m) && Apart(target, to, 2 * (m + m), ws, wo, 2 * m)
    requires Val(target[to..to + 2 * m]) == l && Val(target[to + 2 * m..to + 2 * m + 2 * m]) == h
    requires Val(ws[wo..wo + 2 * m]) == p && mid == Middle(l, h, p, neg)
    requires 0 <= mid && l + Shift(h, 2 * m) + Shift(mid, m) < Shift(1, 2 * (m + m))
    modifies target, ws
    ensures Val(target[to..to + 2 * (m + m)]) == l + Shift(h, 2 * m) + Shift(mid, m)
    ensures Framed(target, target, to, 2 * (m + m), ws, wo, 2 * m) && Framed(ws, target, to, 2 * (m + m), ws, wo, 2 * m)
  {
    hide Val, Shift;
    var n := m + m;
    ghost var t := target[to..to + 2 * n];
    TwoParts(target, to, n, n);
    var w := EvenMiddle(target, to, ws, wo, n, neg);
    assert target[to..to + 2 * n] == t;
    AddAt(target, to, 2 * n, m, ws, wo, n, w);
  }

  lemma TwoParts(a: array<Limb>, o: nat, x: nat, y: nat)
    requires Slice(a, o, x + y)
    ensures Val(a[o..o + (x + y)]) == Val(a[o..o + x]) + Shift(Val(a[o + x..o + x + y]), x)
  {
    var t := a[o..o + (x + y)];
    assert t[..x] == a[o..o + x] && t[x..] == a[o + x..o + x + y];
    ValSplit(t, x);
  }

  /** Where the arguments of a recursion step lie: m + k limbs of each operand. */
  ghost predicate Layout(target: array<Limb>, to: nat, a: array<Limb>, ao: nat, b: array<Limb>, bo: nat,
                         m: nat, k: nat, ws: array<Limb>, wo: nat, wn: nat)
  {
    && Slice(target, to, 2 * (m + k)) && Slice(a, ao, m + k) && Slice(b, bo, m + k) && Slice(ws, wo, wn)
    && Apart(target, to, 2 * (m + k), a, ao, m + k) && Apart(target, to, 2 * (m + k), b, bo, m + k)
    && Apart(target, to, 2 * (m + k), ws, wo, wn) && Apart(a, ao, m + k, ws, wo, wn) && Apart(b, bo, m + k, ws, wo, wn)
    && 1 <= k <= m <= k + 1 && wn >= 2 * m + if m < 32 then 0 else Workspace(m)
  }

  /** The numbers in the halves of an operand. */
  ghost predicate Halves(a: array<Limb>, ao: nat, m: nat, k: nat, a0: int, a1: int)
    requires Slice(a, ao, m + k)
    reads a
  {
    Val(a[ao..ao + (m + k)][..m]) == a0 && Val(a[ao..ao + (m + k)][m..]) == a1
  }

  lemma HalfSlices(a: array<Limb>, ao: nat, m: nat, k: nat)
    requires Slice(a, ao, m + k)
    ensures a[ao..ao + (m + k)][..m] == a[ao..ao + m]
    ensures a[ao..ao + (m + k)][m..] == a[ao + m..ao + m + k]
  {
  }

  /** Half-differences of both operands; neg tells whether their product is to be taken negative. */
  method Differences(target: array<Limb>, to: nat, a: array<Limb>, ao: nat, b: array<Limb>, bo: nat,
                     m: nat, k: nat, ghost a0: int, ghost b0: int, ghost a1: int, ghost b1: int)
    returns (neg: bool)
    requires 1 <= k <= m <= k + 1 && Slice(target, to, 2 * m) && Slice(a, ao, m + k) && Slice(b, bo, m + k)
    requires Apart(target, to, 2 * m, a, ao, m + k) && Apart(target, to, 2 * m, b, bo, m + k)
    requires Halves(a, ao, m, k, a0, a1) && Halves(b, bo, m, k, b0, b1)
    modifies target
    ensures Halves(target, to, m, m, Distance(a0, a1), Distance(b0, b1))
    ensures neg <==> (a0 < a1) != (b0 < b1)
    ensures Halves(a, ao, m, k, a0, a1) && Halves(b, bo, m, k, b0, b1)
    ensures forall j :: 0 <= j < to || to + 2 * m <= j < target.Length ==> target[j] == old(target[j])
  {
    hide Val, Shift;
    ghost var sa, sb := a[ao..ao + (m + k)], b[bo..bo + (m + k)];
    var signA := Difference(target, to, a, ao, m, k, a0, a1);
    assert b[bo..bo + (m + k)] == sb;
    ghost var d := target[to..to + m];
    var signB := Difference(target, to + m, b, bo, m, k, b0, b1);
    assert target[to..to + m] == d;
    assert a[ao..ao + (m + k)] == sa && b[bo..bo + (m + k)] == sb;
    HalfSlices(target, to, m, m);
    neg := signA != signB;
  }

  method Difference(target: array<Limb>, to: nat, a: array<Limb>, ao: nat, m: nat, k: nat, ghost a0: int, ghost a1: int)
    returns (neg: bool)
    requires 1 <= k <= m <= k + 1 && Slice(target, to, m) && Slice(a, ao, m + k) && Apart(target, to, m, a, ao, m + k)
    requires Halves(a, ao, m, k, a0, a1)
    modifies target
    ensures Val(target[to..to + m]) == Distance(a0, a1)
    ensures neg <==> a0 < a1
    ensures forall j :: 0 <= j < to || to + m <= j < target.Length ==> target[j] == old(target[j])
  {
    hide Val, Shift;
    HalfSlices(a, ao, m, k);
    if k < m {
      neg := OddDifference(target, to, a, ao, k);
    } else {
      neg := HalfDifference(target, to, a, ao, ao + m, m);
    }
  }

  /** The slice holds the number x. */
  ghost predicate Number(a: array<Limb>, o: nat, n: nat, x: int)
    reads a
  {
    Slice(a, o, n) && Val(a[o..o + n]) == x
  }

  /** A slice whose number is to survive a product. */
  datatype Kept = Kept(a: array<Limb>, o: nat, n: nat, x: int)

  ghost predicate Clear(s: Kept, t: array<Limb>, to: nat, tn: nat, w: array<Limb>, wo: nat, wn: nat)
  {
    Slice(s.a, s.o, s.n) && Apart(t, to, tn, s.a, s.o, s.n) && Apart(s.a, s.o, s.n, w, wo, wn)
  }

  /** Target, operands and workspace of a product of n limbs by n limbs. */
  predicate Placed(target: array<Limb>, to: nat, a: array<Limb>, ao: nat, b: array<Limb>, bo: nat,
                   n: nat, ws: array<Limb>, wo: nat, wn: int)
  {
    && Slice(target, to, 2 * n) && Slice(a, ao, n) && Slice(b, bo, n) && Slice(ws, wo, wn)
    && Apart(target, to, 2 * n, a, ao, n) && Apart(target, to, 2 * n, b, bo, n) && Apart(target, to, 2 * n, ws, wo, wn)
    && Apart(a, ao, n, ws, wo, wn) && Apart(b, bo, n, ws, wo, wn)
  }

  lemma NumbersInHalves(a: array<Limb>, ao: nat, m: nat, k: nat, a0: int, a1: int)
    requires Slice(a, ao, m + k) && Halves(a, ao, m, k, a0, a1)
    ensures Number(a, ao, m, a0) && Number(a, ao + m, k, a1)
  {
    HalfSlices(a, ao, m, k);
  }

  lemma HalvesHeld(a: array<Limb>, ao: nat, m: nat, k: nat)
    requires Slice(a, ao, m + k)
    ensures Halves(a, ao, m, k, Val(a[ao..ao + (m + k)][..m]), Val(a[ao..ao + (m + k)][m..]))
  {
  }

  method Product(target: array<Limb>, to: nat, a: array<Limb>, ao: nat, b: array<Limb>, bo: nat,
                 n: nat, ws: array<Limb>, wo: nat, ghost wn: nat, base: bool)
    requires n >= 1 && (base || (n >= 2 && wn >= Workspace(n)))
    requires Placed(target, to, a, ao, b, bo, n, ws, wo, wn)
    modifies target, ws
    ensures Val(target[to..to + 2 * n]) == Val(old(a[ao..ao + n])) * Val(old(b[bo..bo + n]))
    ensures Framed(target, target, to, 2 * n, ws, wo, wn)
    ensures Framed(ws, target, to, 2 * n, ws, wo, wn)
    decreases n, 3
  {
    if base {
      MulBasecase(target, to, a, ao, n, b, bo, n);
    } else {
      KaraMulN(target, to, a, ao, b, bo, n, ws, wo, wn);
    }
  }

  /** A product of the numbers x and y, and two numbers that it does not touch. */
  method ProductKeeping(target: array<Limb>, to: nat, a: array<Limb>, ao: nat, b: array<Limb>, bo: nat,
                        n: nat, ws: array<Limb>, wo: nat, ghost wn: nat, base: bool, ghost x: int, ghost y: int,
                        ghost p: Kept, ghost q: Kept)
    requires n >= 1 && (base || (n >= 2 && wn >= Workspace(n)))
    requires Placed(target, to, a, ao, b, bo, n, ws, wo, wn) && Number(a, ao, n, x) && Number(b, bo, n, y)
    requires Clear(p, target, to, 2 * n, ws, wo, wn) && Number(p.a, p.o, p.n, p.x)
    requires Clear(q, target, to, 2 * n, ws, wo, wn) && Number(q.a, q.o, q.n, q.x)
    modifies target, ws
    ensures Number(target, to, 2 * n, x * y) && Number(p.a, p.o, p.n, p.x) && Number(q.a, q.o, q.n, q.x)
    ensures Framed(target, target, to, 2 * n, ws, wo, wn)
    ensures Framed(ws, target, to, 2 * n, ws, wo, wn)
    decreases n, 4
  {
    hide Val, Shift, Workspace;
    ghost var pl, ql := p.a[p.o..p.o + p.n], q.a[q.o..q.o + q.n];
    Product(target, to, a, ao, b, bo, n, ws, wo, wn, base);
    assert p.a[p.o..p.o + p.n] == pl && q.a[q.o..q.o + q.n] == ql;
  }

  /** The same with four numbers. */
  method ProductBeside(target: array<Limb>, to: nat, a: array<Limb>, ao: nat, b: array<Limb>, bo: nat,
                       n: nat, ws: array<Limb>, wo: nat, ghost wn: nat, base: bool, ghost x: int, ghost y: int,
                       ghost p: Kept, ghost q: Kept, ghost r: Kept, ghost s: Kept)
    requires n >= 1 && (base || (n >= 2 && wn >= Workspace(n)))
    requires Placed(target, to, a, ao, b, bo, n, ws, wo, wn) && Number(a, ao, n, x) && Number(b, bo, n, y)
    requires Clear(p, target, to, 2 * n, ws, wo, wn) && Number(p.a, p.o, p.n, p.x)
    requires Clear(q, target, to, 2 * n, ws, wo, wn) && Number(q.a, q.o, q.n, q.x)
    requires Clear(r, target, to, 2 * n, ws, wo, wn) && Number(r.a, r.o, r.n, r.x)
    requires Clear(s, target, to, 2 * n, ws, wo, wn) && Number(s.a, s.o, s.n, s.x)
    modifies target, ws
    ensures Number(target, to, 2 * n, x * y)
    ensures Number(p.a, p.o, p.n, p.x) && Number(q.a, q.o, q.n, q.x) && Number(r.a, r.o, r.n, r.x) && Number(s.a, s.o, s.n, s.x)
    ensures Framed(target, target, to, 2 * n, ws, wo, wn)
    ensures Framed(ws, target, to, 2 * n, ws, wo, wn)
    decreases n, 5
  {
    ghost var rl, sl := r.a[r.o..r.o + r.n], s.a[s.o..s.o + s.n];
    StillNumber(r, rl);
    StillNumber(s, sl);
    hide Val, Shift, Workspace, Placed, Number;
    ProductKeeping(target, to, a, ao, b, bo, n, ws, wo, wn, base, x, y, p, q);
    assert r.a[r.o..r.o + r.n] == rl && s.a[s.o..s.o + s.n] == sl;
    StillNumber(r, rl);
    StillNumber(s, sl);
  }

  lemma StillNumber(k: Kept, limbs: seq<Limb>)
    requires Slice(k.a, k.o, k.n) && k.a[k.o..k.o + k.n] == limbs
    ensures Number(k.a, k.o, k.n, k.x) <==> Val(limbs) == k.x
  {
  }

  /** Where the three products of the halves find room in the layout of the whole product. */
  lemma HalvesPlaced(target: array<Limb>, to: nat, a: array<Limb>, ao: nat, b: array<Limb>, bo: nat,
                     m: nat, k: nat, ws: array<Limb>, wo: nat, wn: nat)
    requires Layout(target, to, a, ao, b, bo, m, k, ws, wo, wn)
    ensures wn >= 2 * m && (m >= 32 ==> wn - 2 * m >= Workspace(m)) && (k >= 32 ==> wn - 2 * m >= Workspace(k))
    ensures Placed(ws, wo, target, to, target, to + m, m, ws, wo + 2 * m, wn - 2 * m)
    ensures Placed(target, to, a, ao, b, bo, m, ws, wo + 2 * m, wn - 2 * m)
    ensures Placed(target, to + 2 * m, a, ao + m, b, bo + m, k, ws, wo + 2 * m, wn - 2 * m)
  {
    WorkspaceMonotone(k);
    hide Workspace;
  }

  /** No half is touched while the product of the differences or of the lower halves is written. */
  lemma HalvesClear(target: array<Limb>, to: nat, a: array<Limb>, ao: nat, b: array<Limb>, bo: nat,
                    m: nat, k: nat, ws: array<Limb>, wo: nat, wn: nat, x: int)
    requires Layout(target, to, a, ao, b, bo, m, k, ws, wo, wn)
    ensures Clear(Kept(a, ao, m, x), ws, wo, 2 * m, ws, wo + 2 * m, wn - 2 * m)
    ensures Clear(Kept(b, bo, m, x), ws, wo, 2 * m, ws, wo + 2 * m, wn - 2 * m)
    ensures Clear(Kept(a, ao + m, k, x), ws, wo, 2 * m, ws, wo + 2 * m, wn - 2 * m)
    ensures Clear(Kept(b, bo + m, k, x), ws, wo, 2 * m, ws, wo + 2 * m, wn - 2 * m)
    ensures Clear(Kept(a, ao + m, k, x), target, to, 2 * m, ws, wo + 2 * m, wn - 2 * m)
    ensures Clear(Kept(b, bo + m, k, x), target, to, 2 * m, ws, wo + 2 * m, wn - 2 * m)
    ensures Clear(Kept(ws, wo, 2 * m, x), target, to, 2 * m, ws, wo + 2 * m, wn - 2 * m)
    ensures Clear(Kept(ws, wo, 2 * m, x), target, to + 2 * m, 2 * k, ws, wo + 2 * m, wn - 2 * m)
    ensures Clear(Kept(target, to, 2 * m, x), target, to + 2 * m, 2 * k, ws, wo + 2 * m, wn - 2 * m)
  {
    hide Workspace;
  }

  method DifferenceProduct(target: array<Limb>, to: nat, a: array<Limb>, ao: nat, b: array<Limb>, bo: nat,
                           m: nat, k: nat, ws: array<Limb>, wo: nat, ghost wn: nat,
                           ghost da: int, ghost db: int, ghost a0: int, ghost b0: int, ghost a1: int, ghost b1: int)
    requires Layout(target, to, a, ao, b, bo, m, k, ws, wo, wn)
    requires Number(target, to, m, da) && Number(target, to + m, m, db)
    requires Number(a, ao, m, a0) && Number(b, bo, m, b0) && Number(a, ao + m, k, a1) && Number(b, bo + m, k, b1)
    modifies ws
    ensures Number(ws, wo, 2 * m, da * db)
    ensures Number(a, ao, m, a0) && Number(b, bo, m, b0) && Number(a, ao + m, k, a1) && Number(b, bo + m, k, b1)
    ensures Framed(ws, target, to, 2 * (m + k), ws, wo, wn)
    decreases m + k, 0
  {
    HalvesPlaced(target, to, a, ao, b, bo, m, k, ws, wo, wn);
    HalvesClear(target, to, a, ao, b, bo, m, k, ws, wo, wn, a0);
    HalvesClear(target, to, a, ao, b, bo, m, k, ws, wo, wn, b0);
    HalvesClear(target, to, a, ao, b, bo, m, k, ws, wo, wn, a1);
    HalvesClear(target, to, a, ao, b, bo, m, k, ws, wo, wn, b1);
    hide Val, Shift, Workspace, Layout, Placed, Clear, Number;
    ProductBeside(ws, wo, target, to, target, to + m, m, ws, wo + 2 * m, wn - 2 * m, k < 32 && m < 32, da, db,
                  Kept(a, ao, m, a0), Kept(b, bo, m, b0), Kept(a, ao + m, k, a1), Kept(b, bo + m, k, b1));
  }

  method LowProduct(target: array<Limb>, to: nat, a: array<Limb>, ao: nat, b: array<Limb>, bo: nat,
                    m: nat, k: nat, ws: array<Limb>, wo: nat, ghost wn: nat,
                    ghost p: int, ghost a0: int, ghost b0: int, ghost a1: int, ghost b1: int)
    requires Layout(target, to, a, ao, b, bo, m, k, ws, wo, wn)
    requires Number(ws, wo, 2 * m, p) && Number(a, ao, m, a0) && Number(b, bo, m, b0)
    requires Number(a, ao + m, k, a1) && Number(b, bo + m, k, b1)
    modifies target, ws
    ensures Number(ws, wo, 2 * m, p) && Number(target, to, 2 * m, a0 * b0)
    ensures Number(a, ao + m, k, a1) && Number(b, bo + m, k, b1)
    ensures Framed(target, target, to, 2 * (m + k), ws, wo, wn)
    ensures Framed(ws, target, to, 2 * (m + k), ws, wo, wn)
    decreases m + k, 0
  {
    HalvesPlaced(target, to, a, ao, b, bo, m, k, ws, wo, wn);
    HalvesClear(target, to, a, ao, b, bo, m, k, ws, wo, wn, p);
    HalvesClear(target, to, a, ao, b, bo, m, k, ws, wo, wn, a1);
    HalvesClear(target, to, a, ao, b, bo, m, k, ws, wo, wn, b1);
    hide Val, Shift, Workspace, Layout, Placed, Clear, Number;
    ghost var w := Kept(ws, wo, 2 * m, p);
    ProductBeside(target, to, a, ao, b, bo, m, ws, wo + 2 * m, wn - 2 * m, k < 32 && m < 32, a0, b0,
                  w, w, Kept(a, ao + m, k, a1), Kept(b, bo + m, k, b1));
  }

  method HighProduct(target: array<Limb>, to: nat, a: array<Limb>, ao: nat, b: array<Limb>, bo: nat,
                     m: nat, k: nat, ws: array<Limb>, wo: nat, ghost wn: nat,
                     ghost p: int, ghost l: int, ghost a1: int, ghost b1: int)
    requires Layout(target, to, a, ao, b, bo, m, k, ws, wo, wn)
    requires Number(ws, wo, 2 * m, p) && Number(target, to, 2 * m, l)
    requires Number(a, ao + m, k, a1) && Number(b, bo + m, k, b1)
    modifies target, ws
    ensures Number(ws, wo, 2 * m, p) && Number(target, to, 2 * m, l) && Number(target, to + 2 * m, 2 * k, a1 * b1)
    ensures Framed(target, target, to, 2 * (m + k), ws, wo, wn)
    ensures Framed(ws, target, to, 2 * (m + k), ws, wo, wn)
    decreases m + k, 0
  {
    HalvesPlaced(target, to, a, ao, b, bo, m, k, ws, wo, wn);
    HalvesClear(target, to, a, ao, b, bo, m, k, ws, wo, wn, p);
    HalvesClear(target, to, a, ao, b, bo, m, k, ws, wo, wn, l);
    hide Val, Shift, Workspace, Layout, Placed, Clear, Number;
    ghost var w, t := Kept(ws, wo, 2 * m, p), Kept(target, to, 2 * m, l);
    ProductKeeping(target, to + 2 * m, a, ao + m, b, bo + m, k, ws, wo + 2 * m, wn - 2 * m, k < 32, a1, b1, w, t);
  }

  /**
    Three products of the halves; a product of fewer than 32 limbs is done by rows.
    The ghost numbers are those the operand slices hold on entry.
   */
  method Products(target: array<Limb>, to: nat, a: array<Limb>, ao: nat, b: array<Limb>, bo: nat,
                  m: nat, k: nat, ws: array<Limb>, wo: nat, ghost wn: nat,
                  ghost da: int, ghost db: int, ghost a0: int, ghost b0: int, ghost a1: int, ghost b1: int)
    requires Layout(target, to, a, ao, b, bo, m, k, ws, wo, wn)
    requires Number(target, to, m, da) && Number(target, to + m, m, db)
    requires Number(a, ao, m, a0) && Number(b, bo, m, b0) && Number(a, ao + m, k, a1) && Number(b, bo + m, k, b1)
    modifies target, ws
    ensures Number(ws, wo, 2 * m, da * db)
    ensures Number(target, to, 2 * m, a0 * b0) && Number(target, to + 2 * m, 2 * k, a1 * b1)
    ensures Framed(target, target, to, 2 * (m + k), ws, wo, wn)
    ensures Framed(ws, target, to, 2 * (m + k), ws, wo, wn)
    decreases m + k, 1
  {
    hide Val, Shift, Workspace, Layout, Number;
    DifferenceProduct(target, to, a, ao, b, bo, m, k, ws, wo, wn, da, db, a0, b0, a1, b1);
    LowProduct(target, to, a, ao, b, bo, m, k, ws, wo, wn, da * db, a0, b0, a1, b1);
    HighProduct(target, to, a, ao, b, bo, m, k, ws, wo, wn, da * db, a0 * b0, a1, b1);
  }

  /** target := a * b on 2n limbs, destroying the workspace. */
  method KaraMulN(target: array<Limb>, to: nat, a: array<Limb>, ao: nat, b: array<Limb>, bo: nat,
                  n: nat, ws: array<Limb>, wo: nat, ghost wn: nat)
    requires n >= 2 && wn >= Workspace(n)
    requires Placed(target, to, a, ao, b, bo, n, ws, wo, wn)
    modifies target, ws
    ensures Val(target[to..to + 2 * n]) == Val(old(a[ao..ao + n])) * Val(old(b[bo..bo + n]))
    ensures Framed(target, target, to, 2 * n, ws, wo, wn)
    ensures Framed(ws, target, to, 2 * n, ws, wo, wn)
    decreases n, 2
  {
    hide Val, Shift, Workspace, Halves, Number, Distance, Middle;
    var k := n / 2;
    var m := n - k;
    WorkspaceStep(n, m, k);
    assert n == m + k;
    HalvesHeld(a, ao, m, k);
    HalvesHeld(b, bo, m, k);
    ghost var u, v := a[ao..ao + (m + k)], b[bo..bo + (m + k)];
    ghost var a0, a1, b0, b1 := Val(u[..m]), Val(u[m..]), Val(v[..m]), Val(v[m..]);
    var neg := Differences(target, to, a, ao, b, bo, m, k, a0, b0, a1, b1);
    ghost var da, db := Distance(a0, a1), Distance(b0, b1);
    ghost var l, h, p, mid := KaratsubaIdentity(u, v, m, neg, da, db);
    NumbersInHalves(target, to, m, m, da, db);
    NumbersInHalves(a, ao, m, k, a0, a1);
    NumbersInHalves(b, bo, m, k, b0, b1);
    Products(target, to, a, ao, b, bo, m, k, ws, wo, wn, da, db, a0, b0, a1, b1);
    Combine(target, to, m, k, ws, wo, wn, neg, l, h, p, mid);
  }

  /** From the three products to the product, for odd and for even sizes. */
  method Combine(target: array<Limb>, to: nat, m: nat, k: nat, ws: array<Limb>, wo: nat, ghost wn: nat, neg: bool,
                 ghost l: int, ghost h: int, ghost p: int, ghost mid: int)
    requires 1 <= k <= m <= k + 1 && Slice(target, to, 2 * (m + k)) && Slice(ws, wo, wn) && wn >= 2 * m
    requires Apart(target, to, 2 * (m + k), ws, wo, wn)
    requires Number(target, to, 2 * m, l) && Number(target, to + 2 * m, 2 * k, h)
    requires Number(ws, wo, 2 * m, p) && mid == Middle(l, h, p, neg)
    requires 0 <= mid < Shift(1, m + k + 1) && l + Shift(h, 2 * m) + Shift(mid, m) < Shift(1, 2 * (m + k))
    modifies target, ws
    ensures Val(target[to..to + 2 * (m + k)]) == l + Shift(h, 2 * m) + Shift(mid, m)
    ensures Framed(target, target, to, 2 * (m + k), ws, wo, wn) && Framed(ws, target, to, 2 * (m + k), ws, wo, wn)
  {
    hide Val, Shift, Middle;
    if (m + k) % 2 != 0 {
      CombineOdd(target, to, m, k, ws, wo, neg, l, h, p, mid);
    } else {
      CombineEven(target, to, m, ws, wo, neg, l, h, p, mid);
    }
  }

  lemma KaratsubaIdentity(u: seq<Limb>, v: seq<Limb>, m: nat, neg: bool, da: int, db: int)
    returns (l: int, h: int, p: int, mid: int)
    requires |u| == |v| && m <= |u| <= 2 * m
    requires neg <==> (Val(u[..m]) < Val(u[m..])) != (Val(v[..m]) < Val(v[m..]))
    requires da == Distance(Val(u[..m]), Val(u[m..])) && db == Distance(Val(v[..m]), Val(v[m..]))
    ensures l == Val(u[..m]) * Val(v[..m]) && h == Val(u[m..]) * Val(v[m..]) && p == da * db
    ensures mid == Middle(l, h, p, neg)
    ensures 0 <= mid < Shift(1, |u| + 1)
    ensures l + Shift(h, 2 * m) + Shift(mid, m) == Val(u) * Val(v) < Shift(1, 2 * |u|)
  {
    hide Val, Shift;
    var a0, a1, b0, b1 := Val(u[..m]), Val(u[m..]), Val(v[..m]), Val(v[m..]);
    l, h, p, mid := a0 * b0, a1 * b1, da * db, a0 * b1 + a1 * b0;
    DistanceProduct(a0, a1, b0, b1, neg);
    ValBound(u[..m]);
    ValBound(u[m..]);
    ValBound(v[..m]);
    ValBound(v[m..]);
    ProductBound(a0, b1, m, |u| - m);
    ProductBound(b0, a1, m, |u| - m);
    ShiftAdd(1, 1, |u|);
    ShiftLess(2, 0x1_0000_0000, |u|);
    ShiftShift(1, 1, |u|);
    ShiftOne(1);
    ValSplit(u, m);
    ValSplit(v, m);
    SplitProduct(a0, a1, b0, b1, m);
    ValBound(u);
    ValBound(v);
    ProductBound(Val(u), Val(v), |u|, |u|);
  }

  lemma DistanceProduct(a0: int, a1: int, b0: int, b1: int, neg: bool)
    requires neg <==> (a0 < a1) != (b0 < b1)
    ensures Middle(a0 * b0, a1 * b1, Distance(a0, a1) * Distance(b0, b1), neg) == a0 * b1 + a1 * b0
  {
    assert (a0 - a1) * (b0 - b1) == a0 * b0 - a0 * b1 - a1 * b0 + a1 * b1;
    assert (a1 - a0) * (b0 - b1) == -((a0 - a1) * (b0 - b1));
    assert (a0 - a1) * (b1 - b0) == -((a0 - a1) * (b0 - b1));
    assert (a1 - a0) * (b1 - b0) == (a0 - a1) * (b0 - b1);
  }

  lemma ProductBound(x: int, y: int, m: nat, n: nat)
    requires 0 <= x < Shift(1, m) && 0 <= y < Shift(1, n)
    ensures 0 <= x * y < Shift(1, m + n)
  {
    MulNonNegative(x, y);
    MulLe(x, y, Shift(1, n));
    ShiftMul(x, 1, n);
    ShiftLess(x, Shift(1, m), n);
    ShiftShift(1, m, n);
  }

  lemma SplitProduct(a0: int, a1: int, b0: int, b1: int, m: nat)
    ensures (a0 + Shift(a1, m)) * (b0 + Shift(b1, m)) ==
            a0 * b0 + Shift(a1 * b1, 2 * m) + Shift(a0 * b1 + a1 * b0, m)
  {
    hide Val, Shift;
    var s, t := Shift(a1, m), Shift(b1, m);
    Foil(a0, s, b0, t);
    ShiftMul(a0, b1, m);
    ShiftMul(b0, a1, m);
    ShiftAdd(a0 * b1, a1 * b0, m);
    ShiftedProduct(a1, b1, m);
  }

  lemma ShiftedProduct(x: int, y: int, m: nat)
    ensures Shift(x, m) * Shift(y, m) == Shift(x * y, 2 * m)
  {
    hide Val, Shift;
    var s := Shift(x, m);
    ShiftMul(s, y, m);
    ShiftMul(y, x, m);
    Commute(s, y);
    Commute(y, x);
    ShiftShift(y * x, m, m);
  }

  /** target := op1 * op2 on 2n limbs; from 32 limbs on by Karatsuba with a fresh workspace. */
  method MulN(target: array<Limb>, to: nat, op1: array<Limb>, o1: nat, op2: array<Limb>, o2: nat, n: nat)
    requires 1 <= n < 0x8000_0000
    requires Slice(target, to, 2 * n) && Slice(op1, o1, n) && Slice(op2, o2, n)
    requires Apart(target, to, 2 * n, op1, o1, n) && Apart(target, to, 2 * n, op2, o2, n)
    modifies target
    ensures Val(target[to..to + 2 * n]) == Val(old(op1[o1..o1 + n])) * Val(old(op2[o2..o2 + n]))
    ensures forall j :: 0 <= j < to || to + 2 * n <= j < target.Length ==> target[j] == old(target[j])
  {
    hide Val, Shift, Workspace;
    if n < 32 {
      MulBasecase(target, to, op1, o1, n, op2, o2, n);
    } else {
      var ws := new Limb[2 * n + 64](_ => 0);
      WorkspaceFits(n);
      KaraMulN(target, to, op1, o1, op2, o2, n, ws, 0, 2 * n + 64);
    }
  }
}
