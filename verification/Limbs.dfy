/**
  Limb vectors: little-endian sequences of 32-bit words and the number they hold.

  Everything is phrased with Shift(x, n) = x * 2^(32n) instead of an explicit power, because a
  multiplication by a literal keeps the carry arguments linear.
 */
module Limbs {
  import opened Integers

  /** NATURAL_32. */
  type Limb = x: int | 0 <= x < 0x1_0000_0000

  /** x * B^n */
  function Shift(x: int, n: nat): int
  {
    if n == 0 then x else 0x1_0000_0000 * Shift(x, n - 1)
  }

  /** The number held by the limbs of s, least significant limb first. */
  function Val(s: seq<Limb>): int
  {
    if s == [] then 0 else s[0] + 0x1_0000_0000 * Val(s[1..])
  }

  lemma {:induction false} ShiftAdd(x: int, y: int, n: nat)
    ensures Shift(x + y, n) == Shift(x, n) + Shift(y, n)
  {
    if n > 0 {
      ShiftAdd(x, y, n - 1);
    }
  }

  lemma {:induction false} ShiftShift(x: int, m: nat, n: nat)
    ensures Shift(Shift(x, m), n) == Shift(x, m + n)
  {
    if n > 0 {
      ShiftShift(x, m, n - 1);
    }
  }

  lemma {:induction false} ShiftMul(x: int, y: int, n: nat)
    ensures Shift(x * y, n) == x * Shift(y, n)
  {
    if n > 0 {
      ShiftMul(x, y, n - 1);
    }
  }

  lemma {:induction false} ShiftZero(n: nat)
    ensures Shift(0, n) == 0
  {
    if n > 0 {
      ShiftZero(n - 1);
    }
  }

  lemma ShiftOne(x: int)
    ensures Shift(x, 1) == 0x1_0000_0000 * x
  {
  }

  lemma ShiftTwo(x: int)
    ensures Shift(x, 2) == 0x1_0000_0000 * (0x1_0000_0000 * x)
  {
    assert Shift(x, 1) == 0x1_0000_0000 * x;
  }

  lemma ShiftCons(x: int, n: nat)
    ensures Shift(x, n + 1) == 0x1_0000_0000 * Shift(x, n)
  {
  }

  lemma ShiftNegate(x: int, n: nat)
    ensures Shift(-x, n) == -Shift(x, n)
  {
    ShiftAdd(x, -x, n);
    ShiftZero(n);
  }

  lemma {:induction false} ShiftLess(x: int, y: int, n: nat)
    ensures x < y <==> Shift(x, n) < Shift(y, n)
  {
    if n > 0 {
      ShiftLess(x, y, n - 1);
    }
  }

  lemma ShiftOrder(x: int, y: int, n: nat)
    requires x <= y
    ensures Shift(x, n) <= Shift(y, n)
  {
    ShiftLess(y, x, n);
  }

  lemma {:induction false} ValAppend(a: seq<Limb>, b: seq<Limb>)
    ensures Val(a + b) == Val(a) + Shift(Val(b), |a|)
  {
    if a == [] {
      assert a + b == b;
    } else {
      ValAppend(a[1..], b);
      assert (a + b)[1..] == a[1..] + b;
    }
  }

  /** Where the carry loops start. */
  lemma ValNone(s: seq<Limb>)
    ensures Val([]) == 0 && Val(s[..0]) == 0 && Shift(0, 0) == 0
  {
  }

  lemma ValOne(x: Limb)
    ensures Val([x]) == x
  {
    assert [x][1..] == [];
  }

  lemma ValSnoc(s: seq<Limb>, x: Limb)
    ensures Val(s + [x]) == Val(s) + Shift(x, |s|)
  {
    ValAppend(s, [x]);
    ValOne(x);
  }

  lemma ValTwo(x: Limb, y: Limb)
    ensures Val([x, y]) == x + 0x1_0000_0000 * y
  {
    assert [x, y][1..] == [y];
    ValOne(y);
  }

  lemma ConsVal(x: Limb, s: seq<Limb>)
    ensures Val([x] + s) == x + 0x1_0000_0000 * Val(s)
  {
    assert ([x] + s)[1..] == s;
  }

  /** A prefix grows by its next limb. */
  lemma ValTake(s: seq<Limb>, i: nat)
    requires i < |s|
    ensures Val(s[..i + 1]) == Val(s[..i]) + Shift(s[i], i)
  {
    assert s[..i + 1] == s[..i] + [s[i]];
    ValSnoc(s[..i], s[i]);
  }

  /** A slice splits at any point. */
  lemma ValSplit(s: seq<Limb>, i: nat)
    requires i <= |s|
    ensures Val(s) == Val(s[..i]) + Shift(Val(s[i..]), i)
  {
    assert s == s[..i] + s[i..];
    ValAppend(s[..i], s[i..]);
  }

  lemma {:induction false} ValBound(s: seq<Limb>)
    ensures 0 <= Val(s) < Shift(1, |s|)
  {
    if s != [] {
      ValBound(s[1..]);
    }
  }

  /** Equal numbers on equally many limbs are equal limb by limb. */
  lemma {:induction false} ValInjective(s: seq<Limb>, t: seq<Limb>)
    requires |s| == |t| && Val(s) == Val(t)
    ensures s == t
  {
    if s != [] {
      var x: int, y: int := s[0], t[0];
      assert x - y == 0x1_0000_0000 * (Val(t[1..]) - Val(s[1..]));
      ValInjective(s[1..], t[1..]);
      assert s == [s[0]] + s[1..] && t == [t[0]] + t[1..];
    }
  }

  /** One limb of a carry chain: r is kept at position n, c moves to position n + 1. */
  lemma CarryStep(r: int, c: int, s: int, n: nat)
    requires r + 0x1_0000_0000 * c == s
    ensures Shift(r, n) + Shift(c, n + 1) == Shift(s, n)
  {
    ShiftAdd(r, 0x1_0000_0000 * c, n);
    ShiftShift(c, 1, n);
  }

  // NATURAL_32 arithmetic wraps.

  function Plus(x: Limb, y: Limb): Limb
  {
    var s: int := x + y;
    if s < 0x1_0000_0000 then s else s - 0x1_0000_0000
  }

  function Minus(x: Limb, y: Limb): Limb
  {
    var s: int := x - y;
    if s >= 0 then s else s + 0x1_0000_0000
  }

  function Bit(b: bool): Limb
  {
    if b then 1 else 0
  }

  // umul_ppmm: the two words of a product.

  function Hi(x: Limb, y: Limb): (h: Limb)
    ensures h <= 0xffff_fffe
  {
    MulBound(x, y);
    (x * y) / 0x1_0000_0000
  }

  function Lo(x: Limb, y: Limb): Limb
  {
    var r: int := (x * y) % 0x1_0000_0000;
    r
  }

  lemma MulBound(x: Limb, y: Limb)
    ensures 0 <= x * y <= 0xffff_ffff * 0xffff_ffff
  {
    MulLe(x, y, 0xffff_ffff);
    MulNonNegative(x, y);
    var z: int := x;
    assert z * 0xffff_ffff <= 0xffff_ffff * 0xffff_ffff;
  }

  lemma HiLo(x: Limb, y: Limb)
    ensures Lo(x, y) + 0x1_0000_0000 * Hi(x, y) == x * y
  {
  }

  // Array slices.

  predicate Slice(a: array<Limb>, off: int, n: int)
  {
    0 <= off && 0 <= n && off + n <= a.Length
  }

  /** Slices that share no limb. */
  predicate Apart(x: array<Limb>, xo: int, xn: int, y: array<Limb>, yo: int, yn: int)
  {
    x != y || xo + xn <= yo || yo + yn <= xo
  }

  /** A target that may be written from low to high while the operand is read in the same order. */
  predicate Upward(t: array<Limb>, to: int, a: array<Limb>, ao: int, n: int)
  {
    t != a || to <= ao || ao + n <= to
  }

  /** A difference that is not negative leaves no borrow. */
  lemma NoBorrow(t: seq<Limb>, carry: Limb, d: int)
    requires carry <= 1 && Val(t) - Shift(carry, |t|) == d && d >= 0
    ensures carry == 0 && Val(t) == d
  {
    ValBound(t);
    ShiftZero(|t|);
  }

  /** B^j grows with j. */
  lemma {:induction false} Longer(j: nat, k: nat)
    requires j <= k
    ensures 1 <= Shift(1, j) <= Shift(1, k)
  {
    if j < k {
      Longer(j, k - 1);
      ShiftCons(1, k - 1);
    } else {
      ShiftLess(0, 1, j);
      ShiftZero(j);
    }
  }
}
