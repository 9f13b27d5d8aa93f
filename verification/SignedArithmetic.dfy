/** add and sub of INTEGER_X. */
module SignedArithmetic {
  import opened Limbs
  import opened SpecialArithmetic
  import opened IntegerX

  /** The magnitudes are added: one limb more when there is a carry. */
  method AddMagnitudes(wp: array<Limb>, up: array<Limb>, n1: nat, vp: array<Limb>, n2: nat) returns (wsize: nat)
    requires n1 >= n2 && n1 < wp.Length && Normal(up, n1) && Normal(vp, n2)
    modifies wp
    ensures Normal(wp, wsize) && Val(wp[..wsize]) == old(Val(up[..n1]) + Val(vp[..n2])) && (wsize == 0 <==> n1 == 0)
  {
    hide Val, Shift;
    ghost var u, v := up[..n1], vp[..n2];
    assert up[0..0 + n1] == u && vp[0..0 + n2] == v;
    var cyLimb := Add(wp, 0, up, 0, n1, vp, 0, n2);
    ghost var w := wp[..n1];
    assert wp[0..0 + n1] == w;
    ValBound(v);
    wp[n1] := cyLimb;
    assert wp[..n1] == w && wp[..n1 + 1] == w + [cyLimb];
    ValSnoc(w, cyLimb);
    ShiftZero(n1);
    TopKept(u, w, Val(v));
    wsize := n1 + cyLimb;
  }

  /** The top limb and the rest. */
  lemma TopSplit(s: seq<Limb>)
    requires s != []
    ensures var n := |s| - 1;
      && 0 <= Val(s[..n]) < Shift(1, n)
      && (s[n] == 0 ==> Val(s) == Val(s[..n]))
      && (s[n] != 0 ==> Val(s) >= Shift(1, n))
  {
    hide Val, Shift;
    var n := |s| - 1;
    ValBound(s[..n]);
    assert s == s[..n] + [s[n]];
    ValSnoc(s[..n], s[n]);
    ShiftZero(n);
    ShiftLess(s[n], 1, n);
  }

  /** A sum on as many limbs as its first part has a top limb that is not zero. */
  lemma TopKept(u: seq<Limb>, w: seq<Limb>, x: int)
    requires |u| == |w| && x >= 0 && (u != [] ==> u[|u| - 1] != 0)
    ensures u != [] && Val(w) == Val(u) + x ==> w[|w| - 1] != 0
  {
    hide Val, Shift;
    if u != [] {
      TopSplit(u);
      TopSplit(w);
    }
  }

  /** The smaller magnitude is subtracted from the larger one. */
  method SubMagnitudes(wp: array<Limb>, up: array<Limb>, n1: nat, vp: array<Limb>, n2: nat) returns (wsize: nat)
    requires n1 >= n2 && n1 <= wp.Length && n1 <= up.Length && n2 <= vp.Length && Val(up[..n1]) >= Val(vp[..n2])
    modifies wp
    ensures Normal(wp, wsize) && Val(wp[..wsize]) == old(Val(up[..n1]) - Val(vp[..n2]))
  {
    hide Val, Shift;
    ghost var u, v := up[..n1], vp[..n2];
    assert up[0..0 + n1] == u && vp[0..0 + n2] == v;
    var junk: Limb;
    if n1 != n2 {
      junk := Sub(wp, 0, up, 0, n1, vp, 0, n2);
    } else {
      junk := SubN(wp, 0, up, 0, vp, 0, n1);
    }
    ghost var w := wp[..n1];
    assert wp[0..0 + n1] == w;
    NoBorrow(w, junk, Val(u) - Val(v));
    wsize := Normalize(wp, 0, n1);
    assert wp[0..0 + wsize] == wp[..wsize];
  }

  /** A magnitude with more limbs is larger. */
  lemma MoreLimbs(a: seq<Limb>, b: seq<Limb>)
    requires |a| > |b| && a[|a| - 1] != 0
    ensures Val(a) > Val(b)
  {
    hide Val, Shift;
    TopSplit(a);
    ValBound(b);
    Longer(|b|, |a| - 1);
  }

  /** The common part: the operand with more limbs comes first. */
  method Combine(wp: array<Limb>, up: array<Limb>, usize: int, vp: array<Limb>, vsize: int) returns (wsize: int)
    requires Abs(usize) >= Abs(vsize) && Abs(usize) < wp.Length && Normal(up, usize) && Normal(vp, vsize)
    modifies wp
    ensures Normal(wp, wsize) && Signed(wp, wsize) == old(Signed(up, usize) + Signed(vp, vsize))
  {
    hide Val, Shift;
    var n1, n2 := Abs(usize), Abs(vsize);
    ghost var u, v := up[..n1], vp[..n2];
    ValBound(u);
    ValBound(v);
    if (usize < 0) != (vsize < 0) {
      if n1 != n2 {
        MoreLimbs(u, v);
        wsize := SubMagnitudes(wp, up, n1, vp, n2);
        Negated(wp, wsize);
        if usize < 0 {
          wsize := -wsize;
        }
      } else {
        assert up[0..0 + n1] == u && vp[0..0 + n1] == v;
        var order := Cmp(up, 0, vp, 0, n1);
        if order < 0 {
          wsize := SubMagnitudes(wp, vp, n1, up, n1);
          Negated(wp, wsize);
          if usize >= 0 {
            wsize := -wsize;
          }
        } else {
          wsize := SubMagnitudes(wp, up, n1, vp, n1);
          Negated(wp, wsize);
          if usize < 0 {
            wsize := -wsize;
          }
        }
      }
    } else {
      wsize := AddMagnitudes(wp, up, n1, vp, n2);
      Negated(wp, wsize);
      if usize < 0 {
        wsize := -wsize;
      }
    }
  }

  lemma Negated(a: array<Limb>, size: int)
    requires size >= 0 && Normal(a, size)
    ensures Normal(a, -size) && Signed(a, -size) == -Signed(a, size) && Signed(a, size) == Val(a[..size])
  {
    if size == 0 {
      assert a[..0] == [];
    }
  }

  lemma SameMagnitude(a: array<Limb>, count: int, size: int)
    requires Normal(a, count) && Abs(size) == Abs(count)
    ensures Normal(a, size) && (size == -count ==> Signed(a, size) == -Signed(a, count))
  {
    if count == 0 {
      assert a[..0] == [];
    }
  }

  /** A signed number depends only on the limbs that Resize keeps. */
  lemma SignedLimbs(a: array<Limb>, s: seq<Limb>, size: int)
    requires |s| <= a.Length && a[..|s|] == s && Abs(size) <= |s|
    ensures Normal(a, size) <==> (size != 0 ==> s[Abs(size) - 1] != 0)
    ensures Signed(a, size) == if size < 0 then -Val(s[..-size]) else Val(s[..size])
  {
    assert a[..Abs(size)] == s[..Abs(size)];
  }

  /** op1 plus a number with the magnitude of op2 and the size vsize; any of the three may be the same object. */
  method AddSized(target: Integer, op1: Integer, op2: Integer, vsize: int)
    requires target.Valid() && op1.Valid() && op2.Valid() && Abs(vsize) == Abs(op2.count)
    requires Separate(target, op1) && Separate(target, op2) && Separate(op1, op2)
    modifies target, target.item
    ensures target.Valid() && (target.item == old(target.item) || fresh(target.item))
    ensures target.Value() == old(op1.Value() + Signed(op2.item, vsize))
  {
    hide Val, Signed;
    var x, y, xsize, ysize := op1, op2, op1.count, vsize;
    SameMagnitude(op2.item, op2.count, vsize);
    if Abs(xsize) < Abs(ysize) {
      x, y, xsize, ysize := y, x, ysize, xsize;
    }
    ghost var xs, ys := x.item[..], y.item[..];
    SignedLimbs(x.item, xs, xsize);
    SignedLimbs(y.item, ys, ysize);
    target.Resize(Abs(xsize) + 1);
    SignedLimbs(x.item, xs, xsize);
    SignedLimbs(y.item, ys, ysize);
    var wsize := Combine(target.item, x.item, xsize, y.item, ysize);
    target.count := wsize;
  }

  /** target := op1 + op2 */
  method AddIntegers(target: Integer, op1: Integer, op2: Integer)
    requires target.Valid() && op1.Valid() && op2.Valid()
    requires Separate(target, op1) && Separate(target, op2) && Separate(op1, op2)
    modifies target, target.item
    ensures target.Valid() && (target.item == old(target.item) || fresh(target.item))
    ensures target.Value() == old(op1.Value() + op2.Value())
  {
    hide Val, Signed, Normal;
    AddSized(target, op1, op2, op2.count);
  }

  /** target := op1 - op2 */
  method SubIntegers(target: Integer, op1: Integer, op2: Integer)
    requires target.Valid() && op1.Valid() && op2.Valid()
    requires Separate(target, op1) && Separate(target, op2) && Separate(op1, op2)
    modifies target, target.item
    ensures target.Valid() && (target.item == old(target.item) || fresh(target.item))
    ensures target.Value() == old(op1.Value() - op2.Value())
  {
    hide Val, Signed, Normal;
    SameMagnitude(op2.item, op2.count, -op2.count);
    AddSized(target, op1, op2, -op2.count);
  }

  /** The sign of the count is the sign of the value, and zero has count zero. */
  lemma CountSign(x: Integer)
    requires x.Valid()
    ensures (x.count > 0 <==> x.Value() > 0) && (x.count < 0 <==> x.Value() < 0)
  {
    if x.count != 0 {
      MoreLimbs(x.item[..Abs(x.count)], []);
    } else {
      assert x.item[..0] == [];
    }
  }
}
