/**
  The word-by-word kernels: carry loops over array slices, in place.

  A kernel's contract says what number its target slice holds afterwards, the carry that leaves
  the slice, and that no other limb of the target changes.
 */
module SpecialArithmetic {
  import opened Limbs

  // One step of each carry loop, on the values.

  lemma AddStep(u: seq<Limb>, v: seq<Limb>, i: nat, c: int, r: seq<Limb>, rl: Limb, c': int)
    requires i < |u| && i < |v| && |r| == i
    requires Val(r) + Shift(c, i) == Val(u[..i]) + Val(v[..i])
    requires rl + 0x1_0000_0000 * c' == (u[i] as int) + v[i] + c
    ensures Val(r + [rl]) + Shift(c', i + 1) == Val(u[..i + 1]) + Val(v[..i + 1])
  {
    hide Val, Shift;
    var x: int, y: int := u[i], v[i];
    CarryStep(rl, c', x + y + c, i);
    ShiftAdd(x + y, c, i);
    ShiftAdd(x, y, i);
    ValTake(u, i);
    ValTake(v, i);
    ValSnoc(r, rl);
  }

  /** One step of u * m + w, where the partial result is r and the carry is c. */
  lemma MulAddStep(u: seq<Limb>, w: seq<Limb>, m: int, i: nat, c: int, r: seq<Limb>, rl: Limb, c': int)
    requires i < |u| && i < |w| && |r| == i
    requires Val(r) + Shift(c, i) == Val(u[..i]) * m + Val(w[..i])
    requires rl + 0x1_0000_0000 * c' == (u[i] as int) * m + c + w[i]
    ensures Val(r + [rl]) + Shift(c', i + 1) == Val(u[..i + 1]) * m + Val(w[..i + 1])
  {
    hide Val, Shift;
    var x: int, y: int := u[i], w[i];
    CarryStep(rl, c', x * m + c + y, i);
    ShiftAdd(x * m + c, y, i);
    ShiftAdd(x * m, c, i);
    ShiftMul(m, x, i);
    ValTake(u, i);
    ValTake(w, i);
    ValSnoc(r, rl);
    assert Val(u[..i + 1]) * m == Val(u[..i]) * m + m * Shift(x, i);
  }

  /** The word arithmetic of one add_n step: a wrapped sum is smaller than either operand. */
  method AddWord(ul: Limb, vl: Limb, carry: Limb) returns (rl: Limb, c: Limb)
    requires carry <= 1
    ensures c <= 1 && rl + 0x1_0000_0000 * c == (ul as int) + vl + carry
  {
    hide Val, Shift;
    var sl := Plus(ul, vl);
    var cy1 := Bit(sl < ul);
    rl := Plus(sl, carry);
    var cy2 := Bit(rl < sl);
    c := Bit(cy1 == 1 || cy2 == 1);
  }

  /** The word arithmetic of one sub_n step: a wrapped difference is larger than its left operand. */
  method SubWord(ul: Limb, vl: Limb, carry: Limb) returns (rl: Limb, c: Limb)
    requires carry <= 1
    ensures c <= 1 && ul + 0x1_0000_0000 * c == (rl as int) + vl + carry
  {
    hide Val, Shift;
    var sl := Minus(ul, vl);
    var cy1 := Bit(sl > ul);
    rl := Minus(sl, carry);
    var cy2 := Bit(rl > sl);
    c := Bit(cy1 == 1 || cy2 == 1);
  }

  /** target := op1 + op2 on n limbs. */
  method AddN(target: array<Limb>, to: nat, op1: array<Limb>, o1: nat, op2: array<Limb>, o2: nat, n: nat)
    returns (carry: Limb)
    requires Slice(target, to, n) && Slice(op1, o1, n) && Slice(op2, o2, n)
    requires Upward(target, to, op1, o1, n) && Upward(target, to, op2, o2, n)
    modifies target
    ensures carry <= 1
    ensures Val(target[to..to + n]) + Shift(carry, n) == Val(old(op1[o1..o1 + n])) + Val(old(op2[o2..o2 + n]))
    ensures forall j :: 0 <= j < to || to + n <= j < target.Length ==> target[j] == old(target[j])
  {
    hide Val, Shift;
    carry := 0;
    var cursor := 0;
    ghost var u, v := op1[o1..o1 + n], op2[o2..o2 + n];
    ValNone(u);
    ValNone(v);
    ghost var r: seq<Limb> := [];
    while cursor != n
      invariant 0 <= cursor <= n && carry <= 1 && |r| == cursor
      invariant forall k :: 0 <= k < cursor ==> target[to + k] == r[k]
      invariant Val(r) + Shift(carry, cursor) == Val(u[..cursor]) + Val(v[..cursor])
      invariant forall j :: cursor <= j < n ==> op1[o1 + j] == u[j] && op2[o2 + j] == v[j]
      invariant forall j :: 0 <= j < to || to + n <= j < target.Length ==> target[j] == old(target[j])
    {
      var ul, vl := op1[o1 + cursor], op2[o2 + cursor];
      var rl, c := AddWord(ul, vl, carry);
      AddStep(u, v, cursor, carry, r, rl, c);
      carry := c;
      target[to + cursor] := rl;
      r := r + [rl];
      cursor := cursor + 1;
    }
    assert target[to..to + n] == r;
    assert u[..n] == u && v[..n] == v;
  }

  /** target := op1 - op2 on n limbs; the carry is the borrow. */
  method SubN(target: array<Limb>, to: nat, op1: array<Limb>, o1: nat, op2: array<Limb>, o2: nat, n: nat)
    returns (carry: Limb)
    requires Slice(target, to, n) && Slice(op1, o1, n) && Slice(op2, o2, n)
    requires Upward(target, to, op1, o1, n) && Upward(target, to, op2, o2, n)
    modifies target
    ensures carry <= 1
    ensures Val(target[to..to + n]) - Shift(carry, n) == Val(old(op1[o1..o1 + n])) - Val(old(op2[o2..o2 + n]))
    ensures forall j :: 0 <= j < to || to + n <= j < target.Length ==> target[j] == old(target[j])
  {
    hide Val, Shift;
    carry := 0;
    var cursor := 0;
    ghost var u, v := op1[o1..o1 + n], op2[o2..o2 + n];
    ValNone(u);
    ValNone(v);
    ghost var r: seq<Limb> := [];
    while cursor != n
      invariant 0 <= cursor <= n && carry <= 1 && |r| == cursor
      invariant forall k :: 0 <= k < cursor ==> target[to + k] == r[k]
      invariant Val(u[..cursor]) + Shift(carry, cursor) == Val(r) + Val(v[..cursor])
      invariant forall j :: cursor <= j < n ==> op1[o1 + j] == u[j] && op2[o2 + j] == v[j]
      invariant forall j :: 0 <= j < to || to + n <= j < target.Length ==> target[j] == old(target[j])
    {
      var ul, vl := op1[o1 + cursor], op2[o2 + cursor];
      var rl, c := SubWord(ul, vl, carry);
      SubStep(u, v, cursor, carry, r, rl, c);
      carry := c;
      target[to + cursor] := rl;
      r := r + [rl];
      cursor := cursor + 1;
    }
    assert target[to..to + n] == r;
    assert u[..n] == u && v[..n] == v;
  }

  lemma SubStep(u: seq<Limb>, v: seq<Limb>, i: nat, c: int, r: seq<Limb>, rl: Limb, c': int)
    requires i < |u| && i < |v| && |r| == i
    requires Val(u[..i]) + Shift(c, i) == Val(r) + Val(v[..i])
    requires u[i] + 0x1_0000_0000 * c' == rl + v[i] + c
    ensures Val(u[..i + 1]) + Shift(c', i + 1) == Val(r + [rl]) + Val(v[..i + 1])
  {
    hide Val, Shift;
    var x: int, y: int, z: int := u[i], v[i], rl;
    CarryStep(x, c', z + y + c, i);
    ShiftAdd(z + y, c, i);
    ShiftAdd(z, y, i);
    ValTake(u, i);
    ValTake(v, i);
    ValSnoc(r, rl);
  }

  /** target := op1 * vl on n limbs. */
  method Mul1(target: array<Limb>, to: nat, op1: array<Limb>, o1: nat, n: nat, vl: Limb) returns (carry: Limb)
    requires Slice(target, to, n) && Slice(op1, o1, n) && Upward(target, to, op1, o1, n)
    modifies target
    ensures Val(target[to..to + n]) + Shift(carry, n) == Val(old(op1[o1..o1 + n])) * vl
    ensures forall j :: 0 <= j < to || to + n <= j < target.Length ==> target[j] == old(target[j])
  {
    hide Val, Shift;
    carry := 0;
    var cursor := 0;
    ghost var u := op1[o1..o1 + n];
    ValNone(u);
    ghost var r: seq<Limb> := [];
    while cursor != n
      invariant 0 <= cursor <= n && |r| == cursor
      invariant forall k :: 0 <= k < cursor ==> target[to + k] == r[k]
      invariant Val(r) + Shift(carry, cursor) == Val(u[..cursor]) * vl
      invariant forall j :: cursor <= j < n ==> op1[o1 + j] == u[j]
      invariant forall j :: 0 <= j < to || to + n <= j < target.Length ==> target[j] == old(target[j])
    {
      var ul := op1[o1 + cursor];
      var hpl, lpl := Hi(ul, vl), Lo(ul, vl);
      HiLo(ul, vl);
      lpl := Plus(lpl, carry);
      var c := Plus(Bit(lpl < carry), hpl);
      MulStep(u, vl, cursor, carry, r, lpl, c);
      carry := c;
      target[to + cursor] := lpl;
      r := r + [lpl];
      cursor := cursor + 1;
    }
    assert target[to..to + n] == r;
    assert u[..n] == u;
  }

  lemma MulStep(u: seq<Limb>, m: int, i: nat, c: int, r: seq<Limb>, rl: Limb, c': int)
    requires i < |u| && |r| == i
    requires Val(r) + Shift(c, i) == Val(u[..i]) * m
    requires rl + 0x1_0000_0000 * c' == (u[i] as int) * m + c
    ensures Val(r + [rl]) + Shift(c', i + 1) == Val(u[..i + 1]) * m
  {
    hide Val, Shift;
    var x: int := u[i];
    CarryStep(rl, c', x * m + c, i);
    ShiftAdd(x * m, c, i);
    ShiftMul(m, x, i);
    ValTake(u, i);
    ValSnoc(r, rl);
    assert Val(u[..i + 1]) * m == Val(u[..i]) * m + m * Shift(x, i);
  }

  /** target := target + op1 * vl on n limbs. */
  method AddMul1(target: array<Limb>, to: nat, op1: array<Limb>, o1: nat, n: nat, vl: Limb) returns (carry: Limb)
    requires Slice(target, to, n) && Slice(op1, o1, n) && Upward(target, to, op1, o1, n)
    modifies target
    ensures Val(target[to..to + n]) + Shift(carry, n) == Val(old(op1[o1..o1 + n])) * vl + Val(old(target[to..to + n]))
    ensures forall j :: 0 <= j < to || to + n <= j < target.Length ==> target[j] == old(target[j])
  {
    hide Val, Shift;
    carry := 0;
    var cursor := 0;
    ghost var u, w := op1[o1..o1 + n], target[to..to + n];
    ValNone(u);
    ValNone(w);
    ghost var r: seq<Limb> := [];
    while n - cursor != 0
      invariant 0 <= cursor <= n && |r| == cursor
      invariant forall k :: 0 <= k < cursor ==> target[to + k] == r[k]
      invariant Val(r) + Shift(carry, cursor) == Val(u[..cursor]) * vl + Val(w[..cursor])
      invariant forall j :: cursor <= j < n ==> op1[o1 + j] == u[j] && target[to + j] == w[j]
      invariant forall j :: 0 <= j < to || to + n <= j < target.Length ==> target[j] == old(target[j])
    {
      var ul := op1[o1 + cursor];
      var hpl, lpl := Hi(ul, vl), Lo(ul, vl);
      var rl := target[to + cursor];
      var lo, c := AddMulWord(ul, vl, hpl, lpl, carry, rl);
      MulAddStep(u, w, vl, cursor, carry, r, lo, c);
      carry := c;
      target[to + cursor] := lo;
      r := r + [lo];
      cursor := cursor + 1;
    }
    assert target[to..to + n] == r;
    assert u[..n] == u && w[..n] == w;
  }

  /** The word arithmetic of one addmul_1 step; no carry is lost. */
  method AddMulWord(ul: Limb, vl: Limb, hpl: Limb, lpl: Limb, carry: Limb, rl: Limb) returns (lo: Limb, c: Limb)
    requires hpl == Hi(ul, vl) && lpl == Lo(ul, vl)
    ensures lo + 0x1_0000_0000 * c == (ul as int) * vl + carry + rl
  {
    hide Val, Shift;
    HiLo(ul, vl);
    lo := Plus(lpl, carry);
    c := Plus(Bit(lo < carry), hpl);
    ghost var p: int := lo + 0x1_0000_0000 * c;
    assert p == ul * vl + carry;
    MulBound(ul, vl);
    lo := Plus(rl, lo);
    c := Plus(c, Bit(lo < rl));
  }

  /** target := target - op1 * op2 on n limbs; the carry is the borrow. */
  method SubMul1(target: array<Limb>, to: nat, op1: array<Limb>, o1: nat, n: nat, op2: Limb) returns (carry: Limb)
    requires Slice(target, to, n) && Slice(op1, o1, n) && Upward(target, to, op1, o1, n)
    modifies target
    ensures Val(target[to..to + n]) - Shift(carry, n) == Val(old(target[to..to + n])) - Val(old(op1[o1..o1 + n])) * op2
    ensures forall j :: 0 <= j < to || to + n <= j < target.Length ==> target[j] == old(target[j])
  {
    hide Val, Shift;
    carry := 0;
    var cursor := 0;
    ghost var u, w := op1[o1..o1 + n], target[to..to + n];
    ValNone(u);
    ValNone(w);
    ghost var r: seq<Limb> := [];
    while cursor < n
      invariant 0 <= cursor <= n && |r| == cursor
      invariant forall k :: 0 <= k < cursor ==> target[to + k] == r[k]
      invariant Val(w[..cursor]) + Shift(carry, cursor) == Val(u[..cursor]) * op2 + Val(r)
      invariant forall j :: cursor <= j < n ==> op1[o1 + j] == u[j] && target[to + j] == w[j]
      invariant forall j :: 0 <= j < to || to + n <= j < target.Length ==> target[j] == old(target[j])
    {
      var ul := op1[o1 + cursor];
      var hpl, lpl := Hi(ul, op2), Lo(ul, op2);
      var rl := target[to + cursor];
      var lo, c := SubMulWord(ul, op2, hpl, lpl, carry, rl);
      MulSubStep(u, w, op2, cursor, carry, r, lo, c);
      carry := c;
      target[to + cursor] := lo;
      r := r + [lo];
      cursor := cursor + 1;
    }
    assert target[to..to + n] == r;
    assert u[..n] == u && w[..n] == w;
  }

  /** The word arithmetic of one submul_1 step; no borrow is lost. */
  method SubMulWord(ul: Limb, vl: Limb, hpl: Limb, lpl: Limb, carry: Limb, rl: Limb) returns (lo: Limb, c: Limb)
    requires hpl == Hi(ul, vl) && lpl == Lo(ul, vl)
    ensures rl + 0x1_0000_0000 * c == (ul as int) * vl + carry + lo
  {
    hide Val, Shift;
    HiLo(ul, vl);
    var l := Plus(lpl, carry);
    c := Plus(Bit(l < carry), hpl);
    ghost var p: int := l + 0x1_0000_0000 * c;
    assert p == ul * vl + carry;
    MulBound(ul, vl);
    lo := Minus(rl, l);
    c := Plus(c, Bit(lo > rl));
  }

  lemma MulSubStep(u: seq<Limb>, w: seq<Limb>, m: int, i: nat, c: int, r: seq<Limb>, rl: Limb, c': int)
    requires i < |u| && i < |w| && |r| == i
    requires Val(w[..i]) + Shift(c, i) == Val(u[..i]) * m + Val(r)
    requires w[i] + 0x1_0000_0000 * c' == (u[i] as int) * m + c + rl
    ensures Val(w[..i + 1]) + Shift(c', i + 1) == Val(u[..i + 1]) * m + Val(r + [rl])
  {
    hide Val, Shift;
    var x: int, y: int, z: int := u[i], w[i], rl;
    CarryStep(y, c', x * m + c + z, i);
    ShiftAdd(x * m + c, z, i);
    ShiftAdd(x * m, c, i);
    ShiftMul(m, x, i);
    ValTake(u, i);
    ValTake(w, i);
    ValSnoc(r, rl);
    assert Val(u[..i + 1]) * m == Val(u[..i]) * m + m * Shift(x, i);
  }

  /** Once the carry has died out the remaining limbs are those of the operand. */
  lemma TailCopied(u: seq<Limb>, r: seq<Limb>, i: nat, x: int)
    requires i <= |u| && |r| == i
    requires Val(r) == Val(u[..i]) + x
    ensures Val(r + u[i..]) == Val(u) + x
  {
    hide Val, Shift;
    ValAppend(r, u[i..]);
    ValSplit(u, i);
  }

  /** Adding 1 to limb i: it wraps to 0 exactly when the carry goes on. */
  lemma IncrementStep(u: seq<Limb>, i: nat, r: seq<Limb>, x: int, l: Limb)
    requires i < |u| && |r| == i
    requires Val(r) + Shift(1, i) == Val(u[..i]) + x
    requires l == Plus(u[i], 1)
    ensures Val(r + [l]) + Shift(if l == 0 then 1 else 0, i + 1) == Val(u[..i + 1]) + x
  {
    hide Val, Shift;
    var y: int, z: int := u[i], l;
    CarryStep(z, if l == 0 then 1 else 0, y + 1, i);
    ShiftAdd(y, 1, i);
    ValTake(u, i);
    ValSnoc(r, l);
  }

  /** Taking 1 from limb i: it was 0 exactly when the borrow goes on. */
  lemma DecrementStep(u: seq<Limb>, i: nat, r: seq<Limb>, x: int, l: Limb)
    requires i < |u| && |r| == i
    requires Val(r) - Shift(1, i) == Val(u[..i]) - x
    requires l == Minus(u[i], 1)
    ensures Val(r + [l]) - Shift(if u[i] == 0 then 1 else 0, i + 1) == Val(u[..i + 1]) - x
  {
    hide Val, Shift;
    var y: int, z: int := u[i], l;
    CarryStep(y, if u[i] == 0 then 1 else 0, z + 1, i);
    ShiftAdd(z, 1, i);
    ValTake(u, i);
    ValSnoc(r, l);
  }

  /** target := op1 + op2 for a single limb op2. */
  method Add1(target: array<Limb>, to: nat, op1: array<Limb>, o1: nat, size: nat, op2: Limb) returns (carry: Limb)
    requires size >= 1 && Slice(target, to, size) && Slice(op1, o1, size)
    requires target != op1 || to == o1
    modifies target
    ensures carry <= 1
    ensures Val(target[to..to + size]) + Shift(carry, size) == Val(old(op1[o1..o1 + size])) + op2
    ensures forall j :: 0 <= j < to || to + size <= j < target.Length ==> target[j] == old(target[j])
  {
    hide Val, Shift;
    ghost var u := op1[o1..o1 + size];
    var r := Plus(op1[o1], op2);
    FirstLimb(u, op2, r);
    target[to] := r;
    var i := 1;
    ghost var s: seq<Limb> := [r];
    if r < op2 {
      i, r, s := RippleUp(target, to, op1, o1, 1, size, u, s, op2);
      CopyRest(target, to, op1, o1, i, size, u, s);
      carry := Bit(i == size && r == 0);
    } else {
      CopyUnlessSame(target, to, op1, o1, 1, size, u, s);
      carry := 0;
    }
    AddRest(u, s, i, op2, carry);
  }

  /** The carry loop: adds 1 from limb start upwards until a limb does not wrap or the operand ends. */
  method RippleUp(target: array<Limb>, to: nat, op1: array<Limb>, o1: nat, start: nat, size: nat,
                  ghost u: seq<Limb>, ghost s0: seq<Limb>, ghost x: int)
    returns (i: nat, r: Limb, ghost s: seq<Limb>)
    requires Slice(target, to, size) && Slice(op1, o1, size) && start <= size
    requires target != op1 || to == o1
    requires |u| == size && |s0| == start
    requires forall k :: 0 <= k < start ==> target[to + k] == s0[k]
    requires forall k :: start <= k < size ==> op1[o1 + k] == u[k]
    requires Val(s0) + Shift(1, start) == Val(u[..start]) + x
    modifies target
    ensures start <= i <= size && |s| == i && (r != 0 || i == size)
    ensures forall k :: 0 <= k < i ==> target[to + k] == s[k]
    ensures forall k :: i <= k < size ==> op1[o1 + k] == u[k]
    ensures Val(s) + Shift(Bit(r == 0), i) == Val(u[..i]) + x
    ensures forall j :: 0 <= j < to || to + size <= j < target.Length ==> target[j] == old(target[j])
  {
    hide Val, Shift;
    i, r, s := start, 0, s0;
    while i < size && r == 0
      invariant start <= i <= size && |s| == i
      invariant forall k :: 0 <= k < i ==> target[to + k] == s[k]
      invariant forall k :: i <= k < size ==> op1[o1 + k] == u[k]
      invariant Val(s) + Shift(Bit(r == 0), i) == Val(u[..i]) + x
      invariant forall j :: 0 <= j < to || to + size <= j < target.Length ==> target[j] == old(target[j])
    {
      r := Plus(op1[o1 + i], 1);
      IncrementStep(u, i, s, x, r);
      target[to + i] := r;
      s := s + [r];
      i := i + 1;
    }
  }

  lemma AddRest(u: seq<Limb>, s: seq<Limb>, i: nat, x: int, c: Limb)
    requires i <= |u| && |s| == i
    requires Val(s) + Shift(c, i) == Val(u[..i]) + x
    requires c == 0 || i == |u|
    ensures Val(s + u[i..]) + Shift(c, |u|) == Val(u) + x
  {
    hide Val, Shift;
    ShiftZero(|u|);
    ShiftZero(i);
    if c == 0 {
      TailCopied(u, s, i, x);
    } else {
      assert u[..i] == u && s + u[i..] == s;
    }
  }

  lemma FirstLimb(u: seq<Limb>, op2: Limb, r: Limb)
    requires |u| >= 1 && r == Plus(u[0], op2)
    ensures Val([r]) + Shift(Bit(r < op2), 1) == Val(u[..1]) + op2
  {
    assert u[..1] == [u[0]];
    ValOne(u[0]);
    ValOne(r);
  }

  /** SPECIAL.copy_data: as if through a buffer. */
  method CopyData(target: array<Limb>, to: nat, source: array<Limb>, so: nat, n: nat)
    requires Slice(target, to, n) && Slice(source, so, n)
    modifies target
    ensures target[to..to + n] == old(source[so..so + n])
    ensures forall j :: 0 <= j < to || to + n <= j < target.Length ==> target[j] == old(target[j])
  {
    hide Val, Shift;
    forall j | 0 <= j < n {
      target[to + j] := source[so + j];
    }
  }

  /** Copying limbs i and up behind the limbs s already written. */
  method CopyRest(target: array<Limb>, to: nat, op1: array<Limb>, o1: nat, i: nat, size: nat,
                  ghost u: seq<Limb>, ghost s: seq<Limb>)
    requires Slice(target, to, size) && Slice(op1, o1, size) && i <= size
    requires |u| == size && |s| == i
    requires forall k :: 0 <= k < i ==> target[to + k] == s[k]
    requires forall k :: i <= k < size ==> op1[o1 + k] == u[k]
    modifies target
    ensures target[to..to + size] == s + u[i..]
    ensures forall j :: 0 <= j < to || to + size <= j < target.Length ==> target[j] == old(target[j])
  {
    hide Val, Shift;
    CopyData(target, to + i, op1, o1 + i, size - i);
    assert target[to..to + i] == s;
    assert target[to + i..to + i + (size - i)] == u[i..];
    assert target[to..to + size] == target[to..to + i] + target[to + i..to + i + (size - i)];
  }

  /** As CopyRest, but in place there is nothing to copy. */
  method CopyUnlessSame(target: array<Limb>, to: nat, op1: array<Limb>, o1: nat, i: nat, size: nat,
                        ghost u: seq<Limb>, ghost s: seq<Limb>)
    requires Slice(target, to, size) && Slice(op1, o1, size) && i <= size
    requires target != op1 || to == o1
    requires |u| == size && |s| == i
    requires forall k :: 0 <= k < i ==> target[to + k] == s[k]
    requires forall k :: i <= k < size ==> op1[o1 + k] == u[k]
    modifies target
    ensures target[to..to + size] == s + u[i..]
    ensures forall j :: 0 <= j < to || to + size <= j < target.Length ==> target[j] == old(target[j])
  {
    hide Val, Shift;
    if target != op1 {
      CopyRest(target, to, op1, o1, i, size, u, s);
    }
  }

  /** target := op1 - op2 for a single limb op2; the carry is the borrow. */
  method Sub1(target: array<Limb>, to: nat, op1: array<Limb>, o1: nat, size: nat, op2: Limb) returns (carry: Limb)
    requires size >= 1 && Slice(target, to, size) && Slice(op1, o1, size)
    requires target != op1 || to == o1
    modifies target
    ensures carry <= 1
    ensures Val(target[to..to + size]) - Shift(carry, size) == Val(old(op1[o1..o1 + size])) - op2
    ensures forall j :: 0 <= j < to || to + size <= j < target.Length ==> target[j] == old(target[j])
  {
    hide Val, Shift;
    ghost var u := op1[o1..o1 + size];
    var x := op1[o1];
    var r := Minus(x, op2);
    FirstLimbDown(u, op2, r);
    target[to] := r;
    var i := 1;
    ghost var s: seq<Limb> := [r];
    if x < op2 {
      i, x, s := RippleDown(target, to, op1, o1, 1, size, u, s, op2);
      carry := Bit(x == 0);
    } else {
      carry := 0;
    }
    CopyUnlessSame(target, to, op1, o1, i, size, u, s);
    SubRest(u, s, i, op2, carry);
  }

  /** The borrow loop: takes 1 from limb start upwards until a limb was not 0 or the operand ends. */
  method RippleDown(target: array<Limb>, to: nat, op1: array<Limb>, o1: nat, start: nat, size: nat,
                    ghost u: seq<Limb>, ghost s0: seq<Limb>, ghost d: int)
    returns (i: nat, x: Limb, ghost s: seq<Limb>)
    requires Slice(target, to, size) && Slice(op1, o1, size) && start <= size
    requires target != op1 || to == o1
    requires |u| == size && |s0| == start
    requires forall k :: 0 <= k < start ==> target[to + k] == s0[k]
    requires forall k :: start <= k < size ==> op1[o1 + k] == u[k]
    requires Val(s0) - Shift(1, start) == Val(u[..start]) - d
    modifies target
    ensures start <= i <= size && |s| == i && (x != 0 || i == size)
    ensures forall k :: 0 <= k < i ==> target[to + k] == s[k]
    ensures forall k :: i <= k < size ==> op1[o1 + k] == u[k]
    ensures Val(s) - Shift(Bit(x == 0), i) == Val(u[..i]) - d
    ensures forall j :: 0 <= j < to || to + size <= j < target.Length ==> target[j] == old(target[j])
  {
    hide Val, Shift;
    i, x, s := start, 0, s0;
    while i < size && x == 0
      invariant start <= i <= size && |s| == i
      invariant forall k :: 0 <= k < i ==> target[to + k] == s[k]
      invariant forall k :: i <= k < size ==> op1[o1 + k] == u[k]
      invariant Val(s) - Shift(Bit(x == 0), i) == Val(u[..i]) - d
      invariant forall j :: 0 <= j < to || to + size <= j < target.Length ==> target[j] == old(target[j])
    {
      x := op1[o1 + i];
      var r := Minus(x, 1);
      DecrementStep(u, i, s, d, r);
      target[to + i] := r;
      s := s + [r];
      i := i + 1;
    }
  }

  lemma SubRest(u: seq<Limb>, s: seq<Limb>, i: nat, x: int, c: Limb)
    requires i <= |u| && |s| == i
    requires Val(s) - Shift(c, i) == Val(u[..i]) - x
    requires c == 0 || i == |u|
    ensures Val(s + u[i..]) - Shift(c, |u|) == Val(u) - x
  {
    hide Val, Shift;
    ShiftZero(|u|);
    ShiftZero(i);
    if c == 0 {
      TailCopied(u, s, i, -x);
    } else {
      assert u[..i] == u && s + u[i..] == s;
    }
  }

  lemma FirstLimbDown(u: seq<Limb>, op2: Limb, r: Limb)
    requires |u| >= 1 && r == Minus(u[0], op2)
    ensures Val([r]) - Shift(Bit(u[0] < op2), 1) == Val(u[..1]) - op2
  {
    assert u[..1] == [u[0]];
    ValOne(u[0]);
    ValOne(r);
  }

  /** target := op1 + op2 where op2 has no more limbs than op1. */
  method Add(target: array<Limb>, to: nat, op1: array<Limb>, o1: nat, n1: nat, op2: array<Limb>, o2: nat, n2: nat)
    returns (carry: Limb)
    requires n1 >= n2
    requires Slice(target, to, n1) && Slice(op1, o1, n1) && Slice(op2, o2, n2)
    requires (target != op1 || to == o1) && Upward(target, to, op2, o2, n2)
    modifies target
    ensures carry <= 1
    ensures Val(target[to..to + n1]) + Shift(carry, n1) == Val(old(op1[o1..o1 + n1])) + Val(old(op2[o2..o2 + n2]))
    ensures forall j :: 0 <= j < to || to + n1 <= j < target.Length ==> target[j] == old(target[j])
  {
    hide Val, Shift;
    ghost var u, v := op1[o1..o1 + n1], op2[o2..o2 + n2];
    var i := n2;
    carry := AddN(target, to, op1, o1, op2, o2, i);
    ghost var s := target[to..to + i];
    assert forall k :: i <= k < n1 ==> op1[o1 + k] == u[k];
    assert op1[o1 + i..o1 + n1] == u[i..];
    assert old(op1[o1..o1 + n2]) == u[..n2];
    if carry != 0 {
      var x;
      i, x, s := RippleUp(target, to, op1, o1, i, n1, u, s, Val(v));
      carry := Bit(x == 0);
    }
    CopyUnlessSame(target, to, op1, o1, i, n1, u, s);
    AddRest(u, s, i, Val(v), carry);
  }

  /** target := op1 - op2 where op2 has no more limbs than op1; the carry is the borrow. */
  method Sub(target: array<Limb>, to: nat, op1: array<Limb>, o1: nat, n1: nat, op2: array<Limb>, o2: nat, n2: nat)
    returns (carry: Limb)
    requires n1 >= n2
    requires Slice(target, to, n1) && Slice(op1, o1, n1) && Slice(op2, o2, n2)
    requires (target != op1 || to == o1) && Upward(target, to, op2, o2, n2)
    modifies target
    ensures carry <= 1
    ensures Val(target[to..to + n1]) - Shift(carry, n1) == Val(old(op1[o1..o1 + n1])) - Val(old(op2[o2..o2 + n2]))
    ensures forall j :: 0 <= j < to || to + n1 <= j < target.Length ==> target[j] == old(target[j])
  {
    hide Val, Shift;
    ghost var u, v := op1[o1..o1 + n1], op2[o2..o2 + n2];
    var i := n2;
    carry := SubN(target, to, op1, o1, op2, o2, i);
    ghost var s := target[to..to + i];
    assert forall k :: i <= k < n1 ==> op1[o1 + k] == u[k];
    assert op1[o1 + i..o1 + n1] == u[i..];
    assert old(op1[o1..o1 + n2]) == u[..n2];
    if carry != 0 {
      var x;
      i, x, s := RippleDown(target, to, op1, o1, i, n1, u, s, Val(v));
      carry := Bit(x == 0);
    }
    CopyUnlessSame(target, to, op1, o1, i, n1, u, s);
    SubRest(u, s, i, Val(v), carry);
  }

  /**
    Adds incr in place and lets the carry run; n is the number of limbs the sum is known to fit in.
    The loop has no bound of its own: that it never leaves those limbs is what is proved.
   */
  method IncrU(target: array<Limb>, to: nat, incr: Limb, ghost n: nat)
    requires n >= 1 && Slice(target, to, n)
    requires Val(target[to..to + n]) + incr < Shift(1, n)
    modifies target
    ensures Val(target[to..to + n]) == Val(old(target[to..to + n])) + incr
    ensures forall j :: 0 <= j < to || to + n <= j < target.Length ==> target[j] == old(target[j])
  {
    hide Val, Shift;
    ghost var u := target[to..to + n];
    var x := Plus(target[to], incr);
    FirstLimb(u, incr, x);
    target[to] := x;
    ghost var i, s := 1, [x];
    if x < incr {
      var cursor := to + 1;
      x := 0;
      while x == 0
        invariant 1 <= i <= n && cursor == to + i && |s| == i
        invariant forall k :: 0 <= k < i ==> target[to + k] == s[k]
        invariant forall k :: i <= k < n ==> target[to + k] == u[k]
        invariant Val(s) + Shift(Bit(x == 0), i) == Val(u[..i]) + incr
        invariant forall j :: 0 <= j < to || to + n <= j < target.Length ==> target[j] == old(target[j])
        decreases n - i
      {
        StillInside(u, s, i, incr);
        x := Plus(target[cursor], 1);
        IncrementStep(u, i, s, incr, x);
        target[cursor] := x;
        s := s + [x];
        i := i + 1;
        cursor := cursor + 1;
      }
    }
    assert target[to..to + n] == s + u[i..];
    ShiftZero(i);
    TailCopied(u, s, i, incr);
  }

  lemma StillInside(u: seq<Limb>, s: seq<Limb>, i: nat, x: int)
    requires i <= |u| && |s| == i
    requires Val(s) + Shift(1, i) == Val(u[..i]) + x
    requires Val(u) + x < Shift(1, |u|)
    ensures i != |u|
  {
    ValBound(s);
    assert u[..|u|] == u;
  }

  /** Comparison from the most significant limb. */
  method Cmp(op1: array<Limb>, o1: nat, op2: array<Limb>, o2: nat, size: nat) returns (result: int)
    requires Slice(op1, o1, size) && Slice(op2, o2, size)
    ensures result == 0 || result == 1 || result == -1
    ensures result < 0 <==> Val(op1[o1..o1 + size]) < Val(op2[o2..o2 + size])
    ensures result > 0 <==> Val(op1[o1..o1 + size]) > Val(op2[o2..o2 + size])
  {
    hide Val, Shift;
    result := 0;
    var i := size - 1;
    ghost var u, v := op1[o1..o1 + size], op2[o2..o2 + size];
    assert u[..size] == u && v[..size] == v;
    while i >= 0 && result == 0
      invariant -1 <= i < size
      invariant result == 0 ==> Val(u) - Val(v) == Val(u[..i + 1]) - Val(v[..i + 1])
      invariant result == 0 || result == 1 || result == -1
      invariant result < 0 ==> Val(u) < Val(v)
      invariant result > 0 ==> Val(u) > Val(v)
    {
      var x, y := op1[o1 + i], op2[o2 + i];
      TopLimbDecides(u, v, i);
      if x != y {
        result := if x > y then 1 else -1;
      }
      i := i - 1;
    }
  }

  lemma TopLimbDecides(u: seq<Limb>, v: seq<Limb>, i: nat)
    requires i < |u| == |v|
    ensures u[i] == v[i] ==> Val(u[..i + 1]) - Val(v[..i + 1]) == Val(u[..i]) - Val(v[..i])
    ensures u[i] < v[i] ==> Val(u[..i + 1]) < Val(v[..i + 1])
    ensures u[i] > v[i] ==> Val(u[..i + 1]) > Val(v[..i + 1])
  {
    hide Val, Shift;
    ValTake(u, i);
    ValTake(v, i);
    ValBound(u[..i]);
    ValBound(v[..i]);
    var x: int, y: int := u[i], v[i];
    if x < y {
      TopLimbGap(x, y, i);
    } else if y < x {
      TopLimbGap(y, x, i);
    }
  }

  lemma TopLimbGap(x: int, y: int, i: nat)
    requires x < y
    ensures Shift(x, i) + Shift(1, i) <= Shift(y, i)
  {
    ShiftAdd(x, 1, i);
    if x + 1 < y {
      ShiftLess(x + 1, y, i);
    }
  }

  /** Drops leading zero limbs. */
  method Normalize(op1: array<Limb>, o1: nat, n: nat) returns (result: nat)
    requires Slice(op1, o1, n)
    ensures result <= n && Val(op1[o1..o1 + result]) == Val(op1[o1..o1 + n])
    ensures result == 0 || op1[o1 + result - 1] != 0
  {
    hide Val, Shift;
    result := n;
    while result > 0 && op1[o1 + result - 1] == 0
      invariant result <= n && Val(op1[o1..o1 + result]) == Val(op1[o1..o1 + n])
    {
      ghost var s := op1[o1..o1 + result];
      ValTake(s, result - 1);
      ShiftZero(result - 1);
      assert s[..result] == s && s[..result - 1] == op1[o1..o1 + (result - 1)];
      result := result - 1;
    }
  }
}
