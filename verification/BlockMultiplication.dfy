/** Multiplication by a short operand, 500 limbs of the long one at a time. */
module BlockMultiplication {
  import opened Integers
  import opened Limbs
  import opened SpecialArithmetic
  import opened Multiplication

  /** One block: target := block * op2 + tp, where tp is what the block below left on top. */
  method MulBlock(target: array<Limb>, to: nat, op1: array<Limb>, o1: nat, len: nat,
                  op2: array<Limb>, o2: nat, n2: nat, tp: array<Limb>)
    requires len >= 1 && n2 >= 1 && Slice(target, to, len + n2)
    requires Slice(op1, o1, len) && Slice(op2, o2, n2) && Slice(tp, 0, n2) && tp != target
    requires Apart(target, to, len + n2, op1, o1, len) && Apart(target, to, len + n2, op2, o2, n2)
    modifies target
    ensures Val(target[to..to + len + n2]) ==
            Val(old(op1[o1..o1 + len])) * Val(old(op2[o2..o2 + n2])) + Val(old(tp[..n2]))
    ensures forall j :: 0 <= j < to || to + len + n2 <= j < target.Length ==> target[j] == old(target[j])
  {
    hide Val, Shift;
    ghost var u, v, w := op1[o1..o1 + len], op2[o2..o2 + n2], tp[..n2];
    if len > n2 {
      MulBasecase(target, to, op1, o1, len, op2, o2, n2);
    } else {
      MulBasecase(target, to, op2, o2, n2, op1, o1, len);
      Commute(Val(u), Val(v));
    }
    assert target[to..to + len + n2] == target[to..to + n2 + len];
    BlockFits(u, v, w);
    AddTriangle(target, to, len, tp, n2);
  }

  /** add_n of the saved limbs, then incr_u with the carry. */
  method AddTriangle(target: array<Limb>, to: nat, len: nat, tp: array<Limb>, n2: nat)
    requires len >= 1 && Slice(target, to, n2 + len) && Slice(tp, 0, n2) && tp != target
    requires Val(target[to..to + n2 + len]) + Val(tp[..n2]) < Shift(1, n2 + len)
    modifies target
    ensures Val(target[to..to + n2 + len]) == Val(old(target[to..to + n2 + len])) + Val(old(tp[..n2]))
    ensures forall j :: 0 <= j < to || to + n2 + len <= j < target.Length ==> target[j] == old(target[j])
  {
    hide Val, Shift;
    ghost var t, w := target[to..to + n2 + len], tp[..n2];
    assert t[..n2] == target[to..to + n2] && t[n2..] == target[to + n2..to + n2 + len];
    assert tp[0..0 + n2] == w;
    var cy := AddN(target, to, target, to, tp, 0, n2);
    ghost var low := target[to..to + n2];
    assert target[to + n2..to + n2 + len] == t[n2..];
    TriangleCarry(t, n2, low, cy, Val(w));
    IncrU(target, to + n2, cy, len);
    ghost var high := target[to + n2..to + n2 + len];
    assert target[to..to + n2 + len] == low + high;
    ValAppend(low, high);
    ShiftAdd(Val(t[n2..]), cy, n2);
  }

  lemma TriangleCarry(t: seq<Limb>, n2: nat, low: seq<Limb>, cy: int, w: int)
    requires n2 <= |t| && |low| == n2 && cy >= 0
    requires Val(low) + Shift(cy, n2) == Val(t[..n2]) + w
    requires Val(t) + w < Shift(1, |t|)
    ensures Val(t[n2..]) + cy < Shift(1, |t| - n2)
    ensures Val(low) + Shift(Val(t[n2..]), n2) + Shift(cy, n2) == Val(t) + w
  {
    hide Val, Shift;
    ValSplit(t, n2);
    ValBound(low);
    ShiftAdd(Val(t[n2..]), cy, n2);
    ShiftShift(1, |t| - n2, n2);
    ShiftLess(Val(t[n2..]) + cy, Shift(1, |t| - n2), n2);
  }

  lemma BlockFits(u: seq<Limb>, v: seq<Limb>, w: seq<Limb>)
    requires |w| == |v|
    ensures Val(u) * Val(v) + Val(w) < Shift(1, |v| + |u|)
  {
    hide Val, Shift;
    ValBound(u);
    ValBound(v);
    ValBound(w);
    var x, y, p, q := Val(u), Val(v), Shift(1, |u|), Shift(1, |v|);
    MulLe(x, y, q - 1);
    MulLe(q - 1, x, p - 1);
    Commute(x, q - 1);
    Foil(q, -1, p, -1);
    ShiftMul(p, 1, |v|);
    ShiftShift(1, |u|, |v|);
    Commute(p, q);
  }

  /** The product of the first d limbs: d final limbs and n2 limbs on top of them. */
  lemma BlockDone(u: seq<Limb>, d: nat, len: nat, v: int, low: seq<Limb>, w: int, t: seq<Limb>)
    requires d + len <= |u| && |low| == d && len <= |t|
    requires Val(low) + Shift(w, d) == Val(u[..d]) * v
    requires Val(t) == Val(u[d..d + len]) * v + w
    ensures Val(low + t[..len]) + Shift(Val(t[len..]), d + len) == Val(u[..d + len]) * v
    ensures Val(low + t) == Val(u[..d + len]) * v
  {
    hide Val, Shift;
    var a, b := Val(u[..d]), Val(u[d..d + len]);
    assert u[..d + len] == u[..d] + u[d..d + len];
    ValAppend(u[..d], u[d..d + len]);
    ValAppend(low, t);
    ValSplit(t, len);
    ValAppend(low, t[..len]);
    ShiftShift(Val(t[len..]), len, d);
    ShiftAdd(Val(t[..len]), Shift(Val(t[len..]), len), d);
    ShiftAdd(b * v, w, d);
    ShiftMul(v, b, d);
    Commute(v, b);
    Commute(v, Shift(b, d));
    SumTimes(a, Shift(b, d), v);
  }

  /** target := op1 * op2 where op1 has more than 500 limbs and op2 fewer than 32; carry is the top limb. */
  method MulBlocks(target: array<Limb>, to: nat, op1: array<Limb>, o1: nat, n1: nat,
                   op2: array<Limb>, o2: nat, n2: nat) returns (carry: Limb)
    requires n1 > 500 && 1 <= n2 < 32
    requires Slice(target, to, n1 + n2) && Slice(op1, o1, n1) && Slice(op2, o2, n2)
    requires Apart(target, to, n1 + n2, op1, o1, n1) && Apart(target, to, n1 + n2, op2, o2, n2)
    modifies target
    ensures Val(target[to..to + n1 + n2]) == Val(old(op1[o1..o1 + n1])) * Val(old(op2[o2..o2 + n2]))
    ensures carry == target[to + n1 + n2 - 1]
    ensures forall j :: 0 <= j < to || to + n1 + n2 <= j < target.Length ==> target[j] == old(target[j])
  {
    hide Val, Shift;
    ghost var u, v := op1[o1..o1 + n1], op2[o2..o2 + n2];
    var tp := new Limb[32](_ => 0);
    ghost var low := FirstBlock(target, to, op1, o1, op2, o2, n2, tp, u, v);
    var d := 500;
    while n1 - d > 500
      invariant 500 <= d < n1 && |low| == d
      invariant forall k :: 0 <= k < d ==> target[to + k] == low[k]
      invariant Val(low) + Shift(Val(tp[..n2]), d) == Val(u[..d]) * Val(v)
      invariant forall k :: 0 <= k < n1 ==> op1[o1 + k] == u[k]
      invariant forall k :: 0 <= k < n2 ==> op2[o2 + k] == v[k]
      invariant forall j :: 0 <= j < to || to + n1 + n2 <= j < target.Length ==> target[j] == old(target[j])
    {
      low := NextBlock(target, to, op1, o1, op2, o2, n2, tp, d, u, v, low);
      d := d + 500;
    }
    assert op1[o1..o1 + n1] == u;
    assert op1[o1..o1 + n1][d..] == op1[o1 + d..o1 + d + (n1 - d)];
    assert u[d..d + (n1 - d)] == u[d..];
    assert op2[o2..o2 + n2] == v;
    ghost var w := Val(tp[..n2]);
    MulBlock(target, to + d, op1, o1 + d, n1 - d, op2, o2, n2, tp);
    ghost var t := target[to + d..to + d + (n1 - d) + n2];
    BlockDone(u, d, n1 - d, Val(v), low, w, t);
    assert target[to..to + n1 + n2] == low + t;
    assert u[..n1] == u;
    carry := target[to + n1 + n2 - 1];
  }

  /** The first 500 limbs, and the high triangle of their product saved in tp. */
  method FirstBlock(target: array<Limb>, to: nat, op1: array<Limb>, o1: nat, op2: array<Limb>, o2: nat, n2: nat,
                    tp: array<Limb>, ghost u: seq<Limb>, ghost v: seq<Limb>)
    returns (ghost low: seq<Limb>)
    requires 1 <= n2 < 32 && tp.Length == 32 && tp != target && tp != op1 && tp != op2
    requires 500 < |u| && |v| == n2
    requires Slice(target, to, |u| + n2) && Slice(op1, o1, |u|) && Slice(op2, o2, n2)
    requires Apart(target, to, |u| + n2, op1, o1, |u|) && Apart(target, to, |u| + n2, op2, o2, n2)
    requires op1[o1..o1 + |u|] == u && op2[o2..o2 + n2] == v
    modifies target, tp
    ensures |low| == 500
    ensures forall k :: 0 <= k < 500 ==> target[to + k] == low[k]
    ensures Val(low) + Shift(Val(tp[..n2]), 500) == Val(u[..500]) * Val(v)
    ensures forall j :: 0 <= j < to || to + |u| + n2 <= j < target.Length ==> target[j] == old(target[j])
  {
    hide Val, Shift;
    assert op1[o1..o1 + 500] == u[0..0 + 500];
    MulBasecase(target, to, op1, o1, 500, op2, o2, n2);
    ghost var t := target[to..to + 500 + n2];
    CopyData(tp, 0, target, to + 500, n2);
    assert tp[..n2] == tp[0..0 + n2] == t[500..];
    ValNone(u);
    NothingBelow(u, v);
    BlockDone(u, 0, 500, Val(v), [], 0, t);
    low := [] + t[..500];
  }

  lemma NothingBelow(u: seq<Limb>, v: seq<Limb>)
    ensures Val([]) + Shift(0, 0) == Val(u[..0]) * Val(v)
  {
  }

  /** One turn of the block loop, with the high triangle saved in tp for the next one. */
  method NextBlock(target: array<Limb>, to: nat, op1: array<Limb>, o1: nat, op2: array<Limb>, o2: nat, n2: nat,
                   tp: array<Limb>, d: nat, ghost u: seq<Limb>, ghost v: seq<Limb>, ghost low: seq<Limb>)
    returns (ghost low': seq<Limb>)
    requires 1 <= n2 < 32 && tp.Length == 32 && tp != target && tp != op1 && tp != op2
    requires d + 500 < |u| && |v| == n2 && |low| == d
    requires Slice(target, to, |u| + n2) && Slice(op1, o1, |u|) && Slice(op2, o2, n2)
    requires Apart(target, to, |u| + n2, op1, o1, |u|) && Apart(target, to, |u| + n2, op2, o2, n2)
    requires forall k :: 0 <= k < d ==> target[to + k] == low[k]
    requires Val(low) + Shift(Val(tp[..n2]), d) == Val(u[..d]) * Val(v)
    requires forall k :: 0 <= k < |u| ==> op1[o1 + k] == u[k]
    requires forall k :: 0 <= k < n2 ==> op2[o2 + k] == v[k]
    modifies target, tp
    ensures |low'| == d + 500
    ensures forall k :: 0 <= k < d + 500 ==> target[to + k] == low'[k]
    ensures Val(low') + Shift(Val(tp[..n2]), d + 500) == Val(u[..d + 500]) * Val(v)
    ensures forall j :: 0 <= j < to || to + |u| + n2 <= j < target.Length ==> target[j] == old(target[j])
  {
    hide Val, Shift;
    assert op1[o1 + d..o1 + d + 500] == u[d..d + 500];
    assert op2[o2..o2 + n2] == v;
    ghost var w := Val(tp[..n2]);
    MulBlock(target, to + d, op1, o1 + d, 500, op2, o2, n2, tp);
    ghost var t := target[to + d..to + d + 500 + n2];
    CopyData(tp, 0, target, to + d + 500, n2);
    assert tp[..n2] == tp[0..0 + n2] == t[500..];
    BlockDone(u, d, 500, Val(v), low, w, t);
    low' := low + t[..500];
  }
}
