/** mul_basecase: the schoolbook product of two limb vectors. */
module Multiplication {
  import opened Limbs
  import opened SpecialArithmetic

  /** Row c of the schoolbook product: p added at limb c of a partial product t. */
  lemma RowAdded(t: seq<Limb>, c: nat, p: int, row: seq<Limb>, top: Limb)
    requires c <= |t| && |row| == |t| - c
    requires Val(row) + Shift(top, |row|) == p + Val(t[c..])
    ensures Val(t[..c] + (row + [top])) == Val(t) + Shift(p, c)
  {
    hide Val, Shift;
    ValSplit(t, c);
    ValAppend(t[..c], row + [top]);
    ValSnoc(row, top);
    ShiftAdd(p, Val(t[c..]), c);
  }

  lemma RowsSoFar(u: int, v: seq<Limb>, c: nat, t: int)
    requires c < |v| && t == u * Val(v[..c])
    ensures t + Shift(u * v[c], c) == u * Val(v[..c + 1])
  {
    hide Val, Shift;
    ValTake(v, c);
    var x: int := v[c];
    ShiftMul(u, x, c);
    assert u * (Val(v[..c]) + Shift(x, c)) == u * Val(v[..c]) + u * Shift(x, c);
  }

  /** target := op1 * op2 on n1 + n2 limbs, row by row. */
  method MulBasecase(target: array<Limb>, to: nat, op1: array<Limb>, o1: nat, n1: nat,
                     op2: array<Limb>, o2: nat, n2: nat)
    requires n1 >= n2 >= 1
    requires Slice(target, to, n1 + n2) && Slice(op1, o1, n1) && Slice(op2, o2, n2)
    requires Apart(target, to, n1 + n2, op1, o1, n1) && Apart(target, to, n1 + n2, op2, o2, n2)
    modifies target
    ensures Val(target[to..to + n1 + n2]) == Val(old(op1[o1..o1 + n1])) * Val(old(op2[o2..o2 + n2]))
    ensures forall j :: 0 <= j < to || to + n1 + n2 <= j < target.Length ==> target[j] == old(target[j])
  {
    hide Val, Shift;
    ghost var u, v := op1[o1..o1 + n1], op2[o2..o2 + n2];
    MulFirstRow(target, to, op1, o1, n1, op2[o2]);
    ValPrefixOne(v);
    var cursor := 1;
    ghost var p := Val(u);
    while n2 != cursor
      invariant 1 <= cursor <= n2
      invariant Val(target[to..to + n1 + cursor]) == p * Val(v[..cursor])
      invariant forall j :: 0 <= j < n1 ==> op1[o1 + j] == u[j]
      invariant forall j :: 0 <= j < n2 ==> op2[o2 + j] == v[j]
      invariant forall j :: 0 <= j < to || to + n1 + n2 <= j < target.Length ==> target[j] == old(target[j])
    {
      RowsSoFar(p, v, cursor, Val(target[to..to + n1 + cursor]));
      assert op1[o1..o1 + n1] == u;
      MulRow(target, to, op1, o1, n1, cursor, op2[o2 + cursor]);
      cursor := cursor + 1;
    }
    assert v[..n2] == v;
  }

  lemma ValPrefixOne(v: seq<Limb>)
    requires |v| >= 1
    ensures Val(v[..1]) == v[0]
  {
    assert v[..1] == [v[0]];
    ValOne(v[0]);
  }

  /** The first row: mul_1, then the carry stored above it. */
  method MulFirstRow(target: array<Limb>, to: nat, op1: array<Limb>, o1: nat, n1: nat, vl: Limb)
    requires Slice(target, to, n1 + 1) && Slice(op1, o1, n1) && Apart(target, to, n1 + 1, op1, o1, n1)
    modifies target
    ensures Val(target[to..to + n1 + 1]) == Val(old(op1[o1..o1 + n1])) * vl
    ensures forall j :: 0 <= j < to || to + n1 + 1 <= j < target.Length ==> target[j] == old(target[j])
  {
    hide Val, Shift;
    var carry := Mul1(target, to, op1, o1, n1, vl);
    target[to + n1] := carry;
    assert target[to..to + n1 + 1] == target[to..to + n1] + [carry];
    ValSnoc(target[to..to + n1], carry);
  }

  /** One further row: addmul_1 at limb cursor, then the carry stored above it. */
  method MulRow(target: array<Limb>, to: nat, op1: array<Limb>, o1: nat, n1: nat, cursor: nat, vl: Limb)
    requires Slice(target, to, n1 + cursor + 1) && Slice(op1, o1, n1)
    requires Apart(target, to, n1 + cursor + 1, op1, o1, n1)
    modifies target
    ensures Val(target[to..to + n1 + cursor + 1]) ==
            Val(old(target[to..to + n1 + cursor])) + Shift(Val(old(op1[o1..o1 + n1])) * vl, cursor)
    ensures forall j :: 0 <= j < to || to + n1 + cursor + 1 <= j < target.Length ==> target[j] == old(target[j])
  {
    hide Val, Shift;
    ghost var u, t := op1[o1..o1 + n1], target[to..to + n1 + cursor];
    assert t[cursor..] == target[to + cursor..to + cursor + n1];
    var carry := AddMul1(target, to + cursor, op1, o1, n1, vl);
    target[to + n1 + cursor] := carry;
    ghost var row := target[to + cursor..to + cursor + n1];
    assert target[to..to + n1 + cursor + 1] == t[..cursor] + (row + [carry]);
    RowAdded(t, cursor, Val(u) * vl, row, carry);
  }
}
