/** sqr_basecase: the square of a limb vector from its triangle of products and its diagonal. */
module Squaring {
  import opened Integers
  import opened Limbs
  import opened Bits
  import opened SpecialLogic
  import opened Multiplication
  import opened Karatsuba

  /** The squares of the first k limbs at their places. */
  function Diagonal(u: seq<Limb>, k: nat): int
    requires k <= |u|
  {
    if k == 0 then 0
    else
      var x: int := u[k - 1];
      Diagonal(u, k - 1) + Shift(x * x, 2 * (k - 1))
  }

  /** The products u[r] * u[s] for r < k, r < s, one limb below their places. */
  function Triangle(u: seq<Limb>, k: nat): int
    requires k <= |u|
  {
    if k == 0 then 0
    else
      var x: int := u[k - 1];
      Triangle(u, k - 1) + Shift(Val(u[k..]) * x, 2 * (k - 1))
  }

  /** Peeling k limbs off a square: their squares, twice their products with what follows, the rest squared. */
  lemma {:induction false} SquarePeeled(u: seq<Limb>, k: nat)
    requires k <= |u|
    ensures Val(u) * Val(u) ==
            Diagonal(u, k) + Shift(2 * Triangle(u, k), 1) + Shift(Val(u[k..]) * Val(u[k..]), 2 * k)
  {
    if k == 0 {
      assert u[0..] == u;
      ShiftOne(0);
    } else {
      SquarePeeled(u, k - 1);
      var x: int, v := u[k - 1] as int, Val(u[k..]);
      assert u[k - 1..] == [u[k - 1]] + u[k..];
      ConsVal(u[k - 1], u[k..]);
      PeelOne(x, v, 2 * (k - 1));
      var t, s := Triangle(u, k - 1), Shift(v * x, 2 * (k - 1));
      assert Triangle(u, k) == t + s;
      ShiftAdd(2 * t, 2 * s, 1);
    }
  }

  lemma PeelOne(x: int, v: int, i: nat)
    ensures Shift((x + 0x1_0000_0000 * v) * (x + 0x1_0000_0000 * v), i) ==
            Shift(x * x, i) + Shift(2 * Shift(v * x, i), 1) + Shift(v * v, i + 2)
  {
    hide Shift;
    var y := 0x1_0000_0000 * v;
    Foil(x, y, x, y);
    Commute(x, y);
    BaseTimes(v, x);
    BaseTimes(v, y);
    BaseTimesRight(v, v);
    var p, q := v * x, v * v;
    assert (x + y) * (x + y) == x * x + (0x1_0000_0000 * (2 * p) + 0x1_0000_0000 * (0x1_0000_0000 * q));
    ShiftAdd(x * x, 0x1_0000_0000 * (2 * p) + 0x1_0000_0000 * (0x1_0000_0000 * q), i);
    ShiftAdd(0x1_0000_0000 * (2 * p), 0x1_0000_0000 * (0x1_0000_0000 * q), i);
    ShiftOne(2 * p);
    ShiftTwo(q);
    ShiftShift(2 * p, 1, i);
    ShiftShift(q, 2, i);
    ShiftAdd(p, p, i);
    ShiftShift(2 * p, i, 1);
  }

  lemma BaseTimes(v: int, x: int)
    ensures (0x1_0000_0000 * v) * x == 0x1_0000_0000 * (v * x)
  {
  }

  lemma BaseTimesRight(v: int, x: int)
    ensures v * (0x1_0000_0000 * x) == 0x1_0000_0000 * (v * x)
  {
  }

  /** A square is its diagonal plus twice its triangle. */
  lemma SquareOf(u: seq<Limb>)
    requires |u| >= 1
    ensures Val(u) * Val(u) == Diagonal(u, |u|) + Shift(2 * Triangle(u, |u| - 1), 1)
  {
    var n := |u|;
    SquarePeeled(u, n - 1);
    assert u[n - 1..] == [u[n - 1]];
    ValOne(u[n - 1]);
  }

  lemma {:induction false} DiagonalTail(u: seq<Limb>, k: nat)
    requires 1 <= k <= |u|
    ensures Diagonal(u, k) == (u[0] as int) * u[0] + Shift(Diagonal(u[1..], k - 1), 2)
  {
    if k == 1 {
      ShiftZero(2);
    } else {
      DiagonalTail(u, k - 1);
      var x: int := u[k - 1];
      assert u[1..][k - 2] == u[k - 1];
      ShiftAdd(Diagonal(u[1..], k - 2), Shift(x * x, 2 * (k - 2)), 2);
      ShiftShift(x * x, 2 * (k - 2), 2);
    }
  }

  /** The squares of the limbs of op1, side by side. */
  method SqrDiagonal(target: array<Limb>, to: nat, op1: array<Limb>, o1: nat, n: nat)
    requires Slice(target, to, 2 * n) && Slice(op1, o1, n) && Apart(target, to, 2 * n, op1, o1, n)
    modifies target
    ensures Val(target[to..to + 2 * n]) == Diagonal(old(op1[o1..o1 + n]), n)
    ensures forall j :: 0 <= j < to || to + 2 * n <= j < target.Length ==> target[j] == old(target[j])
  {
    hide Val, Shift, Diagonal;
    ghost var u := op1[o1..o1 + n];
    ghost var r: seq<Limb> := [];
    var i := 0;
    DiagonalStart(u);
    while i < n
      invariant 0 <= i <= n && |r| == 2 * i
      invariant forall k :: 0 <= k < 2 * i ==> target[to + k] == r[k]
      invariant forall k :: 0 <= k < n ==> op1[o1 + k] == u[k]
      invariant Val(r) == Diagonal(u, i)
      invariant forall j :: 0 <= j < to || to + 2 * n <= j < target.Length ==> target[j] == old(target[j])
    {
      var ul := op1[o1 + i];
      DiagonalStep(u, i, r);
      target[to + 2 * i + 1] := Hi(ul, ul);
      target[to + 2 * i] := Lo(ul, ul);
      r := r + [Lo(ul, ul), Hi(ul, ul)];
      i := i + 1;
    }
    assert target[to..to + 2 * n] == r;
  }

  lemma DiagonalStart(u: seq<Limb>)
    ensures Val([]) == Diagonal(u, 0)
  {
  }

  lemma DiagonalStep(u: seq<Limb>, i: nat, r: seq<Limb>)
    requires i < |u| && |r| == 2 * i && Val(r) == Diagonal(u, i)
    ensures Val(r + [Lo(u[i], u[i]), Hi(u[i], u[i])]) == Diagonal(u, i + 1)
  {
    hide Shift, Val, Hi, Lo;
    var ul := u[i];
    HiLo(ul, ul);
    ValAppend(r, [Lo(ul, ul), Hi(ul, ul)]);
    ValTwo(Lo(ul, ul), Hi(ul, ul));
  }

  /** Rows of the triangle: row r is u[r] times the limbs above it, added at limb 2r. */
  method TriangleRows(tp: array<Limb>, op1: array<Limb>, o1: nat, n: nat)
    requires n >= 2 && Slice(op1, o1, n) && tp != op1 && Slice(tp, 0, 2 * n - 2)
    modifies tp
    ensures Val(tp[..2 * n - 2]) == Triangle(op1[o1..o1 + n], n - 1)
    ensures forall j :: 2 * n - 2 <= j < tp.Length ==> tp[j] == old(tp[j])
  {
    hide Val, Shift, Triangle;
    ghost var u := op1[o1..o1 + n];
    assert op1[o1 + 1..o1 + 1 + (n - 1)] == u[1..];
    MulFirstRow(tp, 0, op1, o1 + 1, n - 1, op1[o1]);
    TriangleFirst(u);
    var i := 2;
    while i < n
      invariant 2 <= i <= n
      invariant Val(tp[0..0 + (n - i) + (2 * i - 2)]) == Triangle(u, i - 1)
      invariant forall j :: 2 * n - 2 <= j < tp.Length ==> tp[j] == old(tp[j])
    {
      assert op1[o1 + i..o1 + i + (n - i)] == u[i..];
      TriangleNext(u, i);
      MulRow(tp, 0, op1, o1 + i, n - i, 2 * i - 2, op1[o1 + i - 1]);
      i := i + 1;
    }
  }

  lemma TriangleFirst(u: seq<Limb>)
    requires |u| >= 2
    ensures Triangle(u, 1) == Val(u[1..]) * u[0]
  {
  }

  lemma TriangleNext(u: seq<Limb>, i: nat)
    requires 2 <= i < |u|
    ensures Triangle(u, i) == Triangle(u, i - 1) + Shift(Val(u[i..]) * u[i - 1], 2 * i - 2)
  {
  }

  /** Twice the triangle, in an array of its own, with what is shifted out of its 2n - 2 limbs. */
  method DoubledTriangle(op1: array<Limb>, o1: nat, n: nat) returns (tarr: array<Limb>, cy: Limb)
    requires 2 <= n <= 65 && Slice(op1, o1, n)
    ensures fresh(tarr) && tarr.Length == 128 && cy <= 1
    ensures Val(tarr[0..0 + (2 * n - 2)]) + Shift(cy, 2 * n - 2) == 2 * Triangle(op1[o1..o1 + n], n - 1)
  {
    hide Val, Shift, Triangle, Pow2;
    tarr := new Limb[128](_ => 0);
    TriangleRows(tarr, op1, o1, n);
    assert tarr[0..0 + (2 * n - 2)] == tarr[..2 * n - 2];
    cy := LShift(tarr, 0, tarr, 0, 2 * n - 2, 1);
    TwoIsPow2();
  }

  /** target := op1 * op1 on 2n limbs: diagonal, then twice the triangle one limb up. */
  method SqrBasecase(target: array<Limb>, to: nat, op1: array<Limb>, o1: nat, n: nat)
    requires 1 <= n <= 65
    requires Slice(target, to, 2 * n) && Slice(op1, o1, n) && Apart(target, to, 2 * n, op1, o1, n)
    modifies target
    ensures Val(target[to..to + 2 * n]) == old(Val(op1[o1..o1 + n]) * Val(op1[o1..o1 + n]))
    ensures forall j :: 0 <= j < to || to + 2 * n <= j < target.Length ==> target[j] == old(target[j])
  {
    hide Val, Shift, Diagonal, Triangle, Pow2;
    ghost var u := op1[o1..o1 + n];
    SquareOf(u);
    var ul := op1[o1];
    target[to + 1] := Hi(ul, ul);
    target[to] := Lo(ul, ul);
    if n == 1 {
      FirstSquare(target[to..to + 2], u);
      TriangleEmpty(u);
    } else {
      assert op1[o1..o1 + n] == u;
      var tarr, cy := DoubledTriangle(op1, o1, n);
      RestOfDiagonal(target, to, op1, o1, n, u);
      SquareFits(u);
      var carry := AddInside(target, to, 2 * n, 1, tarr, 0, 2 * n - 2, cy);
      cy := cy + carry;
      AddTopLimb(target, to, 2 * n, cy);
    }
  }

  lemma FirstSquare(t: seq<Limb>, u: seq<Limb>)
    requires |u| >= 1 && t == [Lo(u[0], u[0]), Hi(u[0], u[0])]
    ensures Val(t) == (u[0] as int) * u[0] && (|u| == 1 ==> Val(t) == Diagonal(u, 1))
  {
    HiLo(u[0], u[0]);
    ValTwo(t[0], t[1]);
  }

  method RestOfDiagonal(target: array<Limb>, to: nat, op1: array<Limb>, o1: nat, n: nat, ghost u: seq<Limb>)
    requires n >= 2 && Slice(target, to, 2 * n) && Slice(op1, o1, n) && Apart(target, to, 2 * n, op1, o1, n)
    requires u == op1[o1..o1 + n] && target[to..to + 2] == [Lo(u[0], u[0]), Hi(u[0], u[0])]
    modifies target
    ensures Val(target[to..to + 2 * n]) == Diagonal(u, n)
    ensures forall j :: 0 <= j < to || to + 2 * n <= j < target.Length ==> target[j] == old(target[j])
  {
    hide Val, Shift, Diagonal;
    ghost var t := target[to..to + 2];
    FirstSquare(t, u);
    assert op1[o1 + 1..o1 + 1 + (n - 1)] == u[1..];
    SqrDiagonal(target, to + 2, op1, o1 + 1, n - 1);
    ghost var r := target[to + 2..to + 2 + 2 * (n - 1)];
    assert target[to..to + 2 * n] == t + r;
    ValAppend(t, r);
    DiagonalTail(u, n);
  }

  /** The last carry goes into the top limb, which has room for it. */
  method AddTopLimb(target: array<Limb>, to: nat, n: nat, cy: Limb)
    requires n >= 1 && Slice(target, to, n)
    requires Val(target[to..to + n]) + Shift(cy, n - 1) < Shift(1, n)
    modifies target
    ensures Val(target[to..to + n]) == Val(old(target[to..to + n])) + Shift(cy, n - 1)
    ensures forall j :: 0 <= j < to || to + n <= j < target.Length ==> target[j] == old(target[j])
  {
    hide Val, Shift;
    ghost var t := target[to..to + n];
    TopLimbRoom(t, cy);
    target[to + n - 1] := Plus(target[to + n - 1], cy);
    assert target[to..to + n] == t[..n - 1] + [target[to + n - 1]];
    ValSnoc(t[..n - 1], target[to + n - 1]);
  }

  lemma TopLimbRoom(t: seq<Limb>, cy: Limb)
    requires |t| >= 1 && Val(t) + Shift(cy, |t| - 1) < Shift(1, |t|)
    ensures (t[|t| - 1] as int) + cy < 0x1_0000_0000
    ensures Val(t) + Shift(cy, |t| - 1) == Val(t[..|t| - 1]) + Shift((t[|t| - 1] as int) + cy, |t| - 1)
  {
    hide Val, Shift;
    var n, x: int := |t| - 1, t[|t| - 1];
    ValTake(t, n);
    assert t[..n + 1] == t;
    ShiftAdd(x, cy, n);
    ValBound(t[..n]);
    ShiftShift(1, 1, n);
    ShiftOne(1);
    ShiftLess(x + cy, 0x1_0000_0000, n);
  }

  lemma TriangleEmpty(u: seq<Limb>)
    requires |u| == 1
    ensures Shift(2 * Triangle(u, 0), 1) == 0
  {
  }

  lemma TwoIsPow2()
    ensures Pow2(1) == 2
  {
  }

  lemma SquareFits(u: seq<Limb>)
    ensures Val(u) * Val(u) < Shift(1, 2 * |u|)
  {
    hide Val, Shift;
    ValBound(u);
    ProductBound(Val(u), Val(u), |u|, |u|);
  }
}
