/** sb_get_str and the power-of-two branch of get_str: a number as digits. */
module Printing {
  import opened Integers
  import opened Limbs
  import opened Bits
  import opened SpecialLogic
  import opened SpecialArithmetic
  import opened WordDivision
  import opened SingleLimbDivision
  import opened Congruences
  import opened Radix
  import opened Digits
  import opened ModularPower

  /**
    frac / B is just above rest / scale: the top digit of rest is the integer part of
    frac * b / B, and what remains is again just above. slack < B.
   */
  predicate JustAbove(frac: int, rest: int, scale: int, slack: int)
  {
    0 <= rest < scale && rest * 0x1_0000_0000 < frac * scale <= rest * 0x1_0000_0000 + slack
  }

  lemma DigitExtracted(frac: int, rest: int, b: int, scale: int, slack: int, digit: int, frac': int)
    requires b >= 1 && scale >= 1 && 0 <= slack < 0x1_0000_0000 && JustAbove(frac, rest, b * scale, slack)
    requires frac * b == 0x1_0000_0000 * digit + frac' && 0 <= frac' < 0x1_0000_0000
    ensures digit == rest / scale && 0 <= digit < b && JustAbove(frac', rest % scale, scale, slack)
  {
    var q, r := rest / scale, rest % scale;
    assert rest == scale * q + r;
    var x := frac' * scale;
    MulNonNegative(frac', scale);
    MulLe(scale, frac', 0xffff_ffff);
    Commute(scale, frac');
    Associate(frac, b, scale);
    assert (0x1_0000_0000 * digit + frac') * scale == 0x1_0000_0000 * (scale * digit) + x;
    Distribute(scale, q);
    Distribute(scale, q + 1);
    if digit >= q + 1 {
      MulLe(scale, q + 1, digit);
    }
    if digit <= q - 1 {
      MulLe(scale, digit, q - 1);
    }
    QuotientBelow(rest, scale, b);
  }

  lemma QuotientBelow(x: int, d: int, b: int)
    requires d >= 1 && 0 <= x < b * d
    ensures 0 <= x / d < b
  {
    assert x == d * (x / d) + x % d;
    Commute(b, d);
    if x / d >= b { MulLe(d, b, x / d); }
    if x / d < 0 { MulLe(d, x / d, -1); }
  }

  /** The inner loop: c digits of r from the fraction of r / b^c, made one unit too large. */
  method FractionDigits(buf: array<Octet>, s: nat, c: nat, base: nat, frac0: Limb, ghost r: int)
    requires s + c <= buf.Length && 2 <= base <= 62 && Pow(base, c) < 0x1_0000_0000
    requires JustAbove(frac0, r, Pow(base, c), Pow(base, c))
    modifies buf
    ensures DigitString(base, buf[s..s + c]) && DigitsValue(base, buf[s..s + c]) == r
    ensures forall j :: 0 <= j < s || s + c <= j < buf.Length ==> buf[j] == old(buf[j])
  {
    hide Pow, DigitsValue, Hi, Lo;
    var frac := frac0;
    ghost var rest := r;
    ghost var ds: seq<Octet> := [];
    var i := c;
    var at := s;
    DigitsNone(base);
    while i != 0
      invariant 0 <= i <= c && at == s + c - i && |ds| == c - i && buf[s..at] == ds
      invariant DigitString(base, ds) && JustAbove(frac, rest, Pow(base, i), Pow(base, c))
      invariant r == DigitsValue(base, ds) * Pow(base, i) + rest
      invariant forall j :: 0 <= j < s || s + c <= j < buf.Length ==> buf[j] == old(buf[j])
    {
      var digit, frac' := Hi(frac, base), Lo(frac, base);
      HiLo(frac, base);
      PowUnfolded(base, i);
      PowPositive(base, i - 1);
      PowPositive(base, c);
      DigitExtracted(frac, rest, base, Pow(base, i - 1), Pow(base, c), digit, frac');
      buf[at] := digit;
      NextDigit(base, ds, digit, rest, Pow(base, i - 1));
      assert buf[s..at + 1] == ds + [buf[at]];
      ds := ds + [digit];
      rest := rest % Pow(base, i - 1);
      frac := frac';
      at := at + 1;
      i := i - 1;
    }
  }

  lemma PowUnfolded(b: int, i: nat)
    requires i >= 1
    ensures Pow(b, i) == b * Pow(b, i - 1)
  {
  }

  lemma NextDigit(b: int, ds: seq<Octet>, digit: Octet, rest: int, scale: int)
    requires scale >= 1 && digit == rest / scale
    ensures DigitsValue(b, ds) * (b * scale) + rest == DigitsValue(b, ds + [digit]) * scale + rest % scale
  {
    hide DigitsValue;
    DigitsSnoc(b, ds, digit);
    var v := DigitsValue(b, ds);
    assert rest == scale * digit + rest % scale;
    Associate(v, b, scale);
    SumTimes(v * b, digit, scale);
    Commute(digit, scale);
  }

  /** The remainder of a division by the big base, as a fraction limb increased by one. */
  lemma FractionOfRemainder(n: int, d: int, f: Limb, q: seq<Limb>, rem: int)
    requires 0 < d < 0x1_0000_0000 && n >= 0 && 0 <= rem < d && 0x1_0000_0000 * n == d * Val([f] + q) + rem
    ensures f < 0xffff_ffff && JustAbove(f + 1, n - d * Val(q), d, d)
  {
    hide Val;
    ConsVal(f, q);
    var v, x := Val(q), f as int;
    assert d * (x + 0x1_0000_0000 * v) == x * d + 0x1_0000_0000 * (d * v);
    SumTimes(x, 1, d);
    MulNonNegative(x, d);
    MulLe(d, x, 0xffff_ffff);
    Commute(d, x);
  }

  /** The quotient of a number of n >= 2 limbs by less than B has n - 1 or n limbs. */
  lemma QuotientSize(u: seq<Limb>, d: int, q: seq<Limb>, r: int)
    requires |u| >= 2 && u[|u| - 1] != 0 && |q| == |u| && 0 < d < 0x1_0000_0000
    requires Val(u) == d * Val(q) + r && 0 <= r < d
    ensures q[|q| - 1] != 0 || q[|q| - 2] != 0
  {
    hide Val, Shift;
    var n := |u|;
    if q[n - 1] == 0 && q[n - 2] == 0 {
      assert q == q[..n - 2] + [0, 0];
      ValAppend(q[..n - 2], [0, 0]);
      ValTwo(0, 0);
      ShiftZero(n - 2);
      ValBound(q[..n - 2]);
      NormalizedBound(u);
      ShiftCons(1, n - 2);
      var v, t := Val(q), Shift(1, n - 2);
      MulLe(d, v, t - 1);
      MulLe(t, d, 0xffff_ffff);
      Commute(d, t);
      Distribute(d, t);
      assert false;
    }
  }

  lemma NormalizedBound(u: seq<Limb>)
    requires u != [] && u[|u| - 1] != 0
    ensures Val(u) >= Shift(1, |u| - 1) >= 1
  {
    hide Val;
    var n := |u| - 1;
    assert u == u[..n] + [u[n]];
    ValSnoc(u[..n], u[n]);
    ValBound(u[..n]);
    if u[n] > 1 { ShiftLess(1, u[n], n); }
    ShiftLess(0, 1, n);
    ShiftZero(n);
  }

  /** What has been printed from index s on, and what is still to be printed, make n. */
  ghost predicate Printed(b: int, rest: int, ds: seq<Octet>, n: int)
  {
    DigitString(b, ds) && rest >= 0 && n == rest * Pow(b, |ds|) + DigitsValue(b, ds)
  }

  lemma MorePrinted(b: int, rest: int, front: seq<Octet>, ds: seq<Octet>, n: int, q: int)
    requires b >= 1 && Printed(b, rest, ds, n) && DigitString(b, front) && q >= 0
    requires rest == q * Pow(b, |front|) + DigitsValue(b, front)
    ensures Printed(b, q, front + ds, n)
  {
    hide Pow, DigitsValue, DigitString;
    DigitStringAppend(b, front, ds);
    DigitsAppend(b, front, ds);
    PowAdd(b, |front|, |ds|);
    var p, t := Pow(b, |front|), Pow(b, |ds|);
    PartsJoined(rest, q, p, DigitsValue(b, front), t);
  }

  lemma DigitStringAppend(b: int, x: seq<Octet>, y: seq<Octet>)
    requires DigitString(b, x) && DigitString(b, y)
    ensures DigitString(b, x + y)
  {
  }

  lemma PartsJoined(rest: int, q: int, p: int, y: int, t: int)
    requires rest == q * p + y
    ensures rest * t == q * (p * t) + y * t
  {
    SumTimes(q * p, y, t);
    Associate(q, p, t);
  }

  /** There is room for k more digits while at least b^k is still to be printed. */
  lemma RoomLeft(b: int, rest: int, ds: seq<Octet>, n: int, k: nat)
    requires b >= 3 && Printed(b, rest, ds, n) && n < Shift(1, 29) && rest >= Pow(b, k)
    ensures |ds| + k < 600
  {
    hide Pow, DigitsValue, Shift;
    DigitsBound(b, ds);
    PowAdd(b, k, |ds|);
    PowPositive(b, |ds|);
    MulLe(Pow(b, |ds|), Pow(b, k), rest);
    Commute(Pow(b, |ds|), rest);
    Commute(Pow(b, |ds|), Pow(b, k));
    BufferLargeEnough(b, k + |ds|, n);
  }

  /** One group of digits: the remainder by the big base, from its fraction limb. */
  method NextGroup(rp: array<Limb>, n: nat, buf: array<Octet>, s: nat, base: nat, ghost n0: int) returns (n': nat, s': nat)
    requires 3 <= base <= 62 && !PowerOfTwo(base)
    requires rp.Length == 30 && 2 <= n <= 29 && rp[n] != 0 && buf.Length == 610 && s <= 610
    requires Printed(base, Val(rp[1..1 + n]), buf[s..], n0) && n0 < Shift(1, 29)
    modifies rp, buf
    ensures 1 <= n' <= n && rp[n'] != 0 && s' <= 610
    ensures Printed(base, Val(rp[1..1 + n']), buf[s'..], n0)
    ensures 0 <= Val(rp[1..1 + n']) < old(Val(rp[1..1 + n]))
  {
    hide Val, Shift, Pow, Pow2, DigitsValue, Printed, BigBase, BigBaseInverted, CharsPerLimb, Inverse, Shl;
    var charsPerLimb, bigBase, bigBaseInverted := CharsPerLimb(base), BigBase(base), BigBaseInverted(base);
    TablesGood(base);
    var normalizationSteps := LeadingZeros(bigBase);
    ghost var u, ds := rp[1..1 + n], buf[s..];
    NormalizedBound(u);
    ShiftAtLeast(n - 1);
    RoomLeft(base, Val(u), ds, n0, charsPerLimb);
    var junk := PreinvDivrem1(rp, 0, 1, rp, 1, n, bigBase, bigBaseInverted, normalizationSteps);
    ghost var q := rp[1..1 + n];
    assert rp[0..0 + n + 1] == [rp[0]] + q;
    ShiftOne(Val(u));
    FractionOfRemainder(Val(u), bigBase, rp[0], q, junk);
    QuotientSize(u, bigBase, q, Val(u) - bigBase * Val(q));
    n' := n - if rp[n] == 0 then 1 else 0;
    DropTop(q, n');
    assert rp[1..1 + n'] == q[..n'];
    PowUnfolded(base, charsPerLimb);
    PowPositive(base, charsPerLimb - 1);
    MulLe(base, 1, Pow(base, charsPerLimb - 1));
    QuotientSmaller(Val(u), bigBase, q);
    var frac := rp[0] + 1;
    s' := s - charsPerLimb;
    FractionDigits(buf, s', charsPerLimb, base, frac, Val(u) - bigBase * Val(q));
    assert buf[s'..] == buf[s'..s] + ds;
    Commute(bigBase, Val(q));
    MorePrinted(base, Val(u), buf[s'..s], ds, n0, Val(q));
  }

  lemma ShiftAtLeast(k: nat)
    ensures k >= 1 ==> Shift(1, k) >= 0x1_0000_0000
  {
    if k >= 1 {
      ShiftCons(1, k - 1);
      ShiftLess(0, 1, k - 1);
      ShiftZero(k - 1);
    }
  }

  lemma DropTop(q: seq<Limb>, n: nat)
    requires n <= |q| <= n + 1 && (|q| == n + 1 ==> q[n] == 0)
    ensures Val(q[..n]) == Val(q)
  {
    if |q| == n + 1 {
      assert q[..n + 1] == q;
      ValTake(q, n);
      ShiftZero(n);
    } else {
      assert q[..n] == q;
    }
  }

  lemma QuotientSmaller(x: int, d: int, q: seq<Limb>)
    requires x >= 1 && d >= 2 && d * Val(q) <= x
    ensures 0 <= Val(q) < x
  {
    ValBound(q);
    if Val(q) >= 1 {
      MulLe(Val(q), 2, d);
      Commute(d, Val(q));
    }
  }

  /** The last limb, one digit at a time. */
  method LastLimb(ul0: Limb, buf: array<Octet>, s0: nat, base: nat, ghost n0: int) returns (s: nat)
    requires 3 <= base <= 62 && ul0 > 0 && buf.Length == 610 && s0 <= 610
    requires Printed(base, ul0, buf[s0..], n0) && n0 < Shift(1, 29)
    modifies buf
    ensures s < 610 && buf[s] != 0 && DigitString(base, buf[s..]) && DigitsValue(base, buf[s..]) == n0
  {
    hide Shift, Pow, DigitsValue, Printed;
    var ul: nat := ul0;
    s := s0;
    while ul != 0
      invariant s <= 610 && Printed(base, ul, buf[s..], n0)
      invariant ul == 0 ==> s < 610 && buf[s] != 0
      decreases ul
    {
      ghost var ds := buf[s..];
      DigitsNone(base);
      RoomLeft(base, ul, ds, n0, 0);
      var q, rl: Octet := ul / base, ul % base;
      s := s - 1;
      buf[s] := rl;
      assert buf[s..] == [buf[s]] + ds;
      DigitsOne(base, rl);
      OneDigit(ul, base);
      MorePrinted(base, ul, [rl], ds, n0, q);
      ul := q;
    }
    AllPrinted(base, buf[s..], n0);
  }

  lemma OneDigit(x: int, b: int)
    requires x > 0 && b >= 2
    ensures x == x / b * b + x % b && 0 <= x / b < x && (x / b == 0 ==> x % b != 0)
  {
    assert x == b * (x / b) + x % b;
    Commute(b, x / b);
    if x / b >= 1 { MulLe(x / b, 2, b); }
    if x / b < 0 { MulLe(b, x / b, -1); }
  }

  lemma AllPrinted(b: int, ds: seq<Octet>, n: int)
    requires Printed(b, 0, ds, n)
    ensures DigitString(b, ds) && DigitsValue(b, ds) == n
  {
  }

  /** There is room behind `to` for as many digits as n has in base b. */
  ghost predicate RoomFor(length: int, to: nat, b: int, n: int)
  {
    forall k: nat :: Pow(b, k) <= n ==> to + k < length
  }

  /**
    sb_get_str: the digits of a number of 1 to 29 limbs, padded with zeros to len digits.
   */
  method SbGetStr(target: array<Octet>, to: nat, len: nat, op1: array<Limb>, o1: nat, n: nat, base: nat) returns (count: nat)
    requires 3 <= base <= 62 && !PowerOfTwo(base) && 1 <= n <= 29 && Slice(op1, o1, n) && op1[o1 + n - 1] != 0
    requires RoomFor(target.Length, to, base, Val(op1[o1..o1 + n])) && to + len <= target.Length
    modifies target
    ensures count >= len && to + count <= target.Length && DigitString(base, target[to..to + count])
    ensures DigitsValue(base, target[to..to + count]) == Val(op1[o1..o1 + n])
    ensures count > len ==> target[to] != 0
    ensures forall j :: 0 <= j < to || to + count <= j < target.Length ==> target[j] == old(target[j])
  {
    hide Val, Shift, Pow, DigitsValue, Printed, RoomFor;
    var buf := new Octet[610](_ => 0);
    var rp := new Limb[30](_ => 0);
    CopyData(rp, 1, op1, o1, n);
    ghost var n0 := Val(op1[o1..o1 + n]);
    SizeBound(op1[o1..o1 + n]);
    var s: nat := 610;
    var left := n;
    NothingPrinted(base, n0);
    assert buf[610..] == [];
    assert rp[left] == op1[o1 + n - 1] by { assert rp[1..1 + n][n - 1] == op1[o1..o1 + n][n - 1]; }
    while left > 1
      invariant 1 <= left <= 29 && rp[left] != 0 && s <= 610
      invariant Printed(base, Val(rp[1..1 + left]), buf[s..], n0) && target[..] == old(target[..])
      decreases Val(rp[1..1 + left])
    {
      left, s := NextGroup(rp, left, buf, s, base, n0);
    }
    assert rp[1..2] == [rp[1]];
    ValOne(rp[1]);
    s := LastLimb(rp[1], buf, s, base, n0);
    count := CopyDigits(target, to, len, buf, s, base);
  }

  lemma SizeBound(u: seq<Limb>)
    requires 1 <= |u| <= 29
    ensures 0 <= Val(u) < Shift(1, 29)
  {
    ValBound(u);
    Longer(|u|, 29);
  }

  lemma NothingPrinted(b: int, n: int)
    requires n >= 0
    ensures Printed(b, n, [], n)
  {
    DigitsNone(b);
  }

  lemma NoneTimes(x: int, y: int)
    requires x == 0
    ensures x * y == 0
  {
  }

  /** Padding, and the digits of the buffer behind it. */
  method CopyDigits(target: array<Octet>, to: nat, len0: nat, buf: array<Octet>, s: nat, base: nat) returns (count: nat)
    requires base >= 2 && buf != target && s < buf.Length && DigitString(base, buf[s..]) && buf[s] != 0
    requires to + len0 <= target.Length && RoomFor(target.Length, to, base, DigitsValue(base, buf[s..]))
    modifies target
    ensures count >= len0 && to + count <= target.Length && DigitString(base, target[to..to + count])
    ensures DigitsValue(base, target[to..to + count]) == DigitsValue(base, buf[s..])
    ensures count > len0 ==> target[to] != 0
    ensures forall j :: 0 <= j < to || to + count <= j < target.Length ==> target[j] == old(target[j])
  {
    hide Pow, DigitsValue;
    ghost var ds := buf[s..];
    LeadingDigit(base, ds);
    var l := buf.Length - s;
    var at, len := to, len0;
    ghost var out: seq<Octet> := [];
    DigitsNone(base);
    while l < len
      invariant len <= len0 && at == to + |out| && |out| == len0 - len && (len < len0 ==> l <= len)
      invariant at <= target.Length && target[to..at] == out && DigitsValue(base, out) == 0 && DigitString(base, out)
      invariant forall j :: 0 <= j < to || at <= j < target.Length ==> target[j] == old(target[j])
    {
      target[at] := 0;
      DigitsSnoc(base, out, 0);
      assert target[to..at + 1] == out + [target[at]];
      assert 0 * base == 0;
      out := out + [0];
      at := at + 1;
      len := len - 1;
    }
    assert to + |ds| <= target.Length;
    forall k | 0 <= k < l {
      target[at + k] := buf[s + k];
    }
    at := at + l;
    count := at - to;
    assert target[to..at] == out + ds && buf[s..] == ds;
    DigitsAppend(base, out, ds);
    NoneTimes(DigitsValue(base, out), Pow(base, |ds|));
  }

  // The power-of-two branch.

  /** The digits printed so far are the bits of n above position p. */
  ghost predicate TopDigits(base: int, ds: seq<Octet>, n: nat, p: nat)
  {
    DigitString(base, ds) && DigitsValue(base, ds) == Down(n, p)
  }

  /** One digit of k bits joins the digits printed so far. */
  lemma TopDigitsGrow(base: int, ds: seq<Octet>, n: nat, p: nat, k: nat, digit: Octet)
    requires k <= p && base == Pow2(k) && TopDigits(base, ds, n, p) && digit == Down(n, p - k) % Pow2(k)
    ensures TopDigits(base, ds + [digit], n, p - k)
  {
    hide DigitsValue, Down, Pow2;
    WindowMoves(n, p, k);
    DigitsSnoc(base, ds, digit);
    Commute(DigitsValue(base, ds), base);
  }

  /** A digit that straddles limbs i and i + 1, put together from two masked pieces. */
  lemma StraddlingDigit(s: seq<Limb>, i: nat, sh: nat, k: nat)
    requires i + 1 < |s| && 1 <= 32 - sh <= k <= 5
    ensures var n0 := And(Shl(s[i + 1], 32 - sh), Pow2(k) - 1);
      var digit := Or(n0, Shr(s[i], sh));
      Val(s) >= 0 && digit < 0x1_0000_0000 && digit == Down(Val(s), 32 * i + sh) % Pow2(k)
  {
    hide Pow2, Shr, Shl, Down, Val, Or, And;
    var j := 32 - sh;
    CrossingWindow(s, i, sh, k);
    ShiftedJoin(s[i + 1], s[i], j);
    ShiftParts(s[i + 1], j);
    ShiftParts(s[i], j);
    MaskWindow(Shl(s[i + 1], j), k);
    Pow2Add(j, k - j);
    var p, m := Pow2(j), Pow2(k);
    var h := s[i + 1] % Pow2(32 - j);
    Masked(h, Shr(s[i], sh), p, Pow2(k - j));
    OrDisjoint(h % Pow2(k - j), Shr(s[i], sh), j);
  }

  /** Masking p h to the size p t, and adding what lies below p. */
  lemma Masked(h: int, low: int, p: int, t: int)
    requires h >= 0 && 0 <= low < p && t >= 1
    ensures (p * h) % (p * t) == p * (h % t)
    ensures (p * h + low) % (p * t) == p * (h % t) + low < p * t
  {
    var q, r := h / t, h % t;
    assert h == t * q + r;
    assert p * (t * q + r) == (p * t) * q + p * r;
    MulNonNegative(p, r);
    MulLe(p, r, t - 1);
    Distribute(p, t);
    MulLe(p, 1, t);
    DivModUnique(p * h, p * t, q, p * r);
    DivModUnique(p * h + low, p * t, q, p * r + low);
  }

  /** A digit inside one limb; in the top limb it may reach above it. */
  lemma PlainDigit(s: seq<Limb>, i: nat, sh: nat, k: nat)
    requires i < |s| && sh <= 31 && 1 <= k <= 5 && (sh + k <= 32 || i == |s| - 1)
    ensures var digit := And(Shr(s[i], sh), Pow2(k) - 1);
      Val(s) >= 0 && digit == Down(Val(s), 32 * i + sh) % Pow2(k) < Pow2(k)
  {
    hide Pow2, Shr, Down, Val, And;
    ValBound(s);
    AndMask(Shr(s[i], sh), k);
    if sh + k <= 32 {
      PlainWindow(s, i, sh, k);
    } else {
      DownAt(s, i, sh);
      assert s[i + 1..] == [];
      ValNone(s);
    }
  }

  /** The next digit has room, and it is not zero when it is the first. */
  lemma NextDigitFits(base: int, ds: seq<Octet>, n: nat, p: nat, k: nat)
    requires k >= 1 && k <= p && base == Pow2(k) && TopDigits(base, ds, n, p) && n >= 1 && (ds != [] ==> ds[0] != 0)
    ensures Pow(base, |ds|) <= n
  {
    hide DigitsValue, Down, Pow2, Pow;
    Pow2Unfolded(k);
    DigitsNone(base);
    if ds != [] {
      LeadingDigit(base, ds);
      PowUnfolded(base, |ds|);
      DownDivides(n, p);
      Pow2Add(k, p - k);
      var v, q := DigitsValue(base, ds), Pow2(p);
      assert n == q * v + n % q;
      MulLe(base, 1, Pow2(p - k));
      MulNonNegative(base, v);
      MulLe(v, base, q);
      MulLe(base, Pow(base, |ds| - 1), v);
      Commute(v, base);
      Commute(v, q);
    }
  }

  /** The bits of a number with a known top limb. */
  lemma NumberOfBits(s: seq<Limb>, zeros: nat)
    requires s != [] && s[|s| - 1] > 0 && zeros == LeadingZeros(s[|s| - 1])
    ensures var bits := 32 * |s| - zeros;
      zeros <= 31 && Val(s) >= 1 && Down(Val(s), bits - 1) == 1 && Down(Val(s), bits) == 0
  {
    hide Pow2, Down, Val, Shr;
    var i := |s| - 1;
    ModulusBound(s);
    TopLimb(s, zeros);
    DownAt(s, i, 31 - zeros);
    assert s[i + 1..] == [];
    ValNone(s);
    Pow2Unfolded(32 - zeros);
    DivModUnique(s[i], Pow2(31 - zeros), 1, s[i] - Pow2(31 - zeros));
    ShrIs(s[i], 31 - zeros);
    DownHalves(Val(s), 32 * |s| - zeros - 1);
  }

  lemma ShrIs(x: Limb, c: nat)
    ensures Shr(x, c) == x / Pow2(c)
  {
  }

  lemma DownHalves(n: nat, p: nat)
    ensures Down(n, p + 1) == Down(n, p) / 2
  {
    DownAdd(n, p, 1);
    assert Down(Down(n, p), 1) == Down(Down(n, p) / 2, 0);
  }

  lemma {:induction false} DownOrder(n: nat, p: nat, q: nat)
    requires p <= q && Down(n, q) >= 1
    ensures Down(n, p) >= 1
    decreases q - p
  {
    if p < q {
      DownHalves(n, q - 1);
      DownOrder(n, p, q - 1);
    }
  }

  /** State of the digit loop: ds are the digits above bit p, and m digits are still to come. */
  ghost predicate Printing2(target: array<Octet>, to: nat, s: nat, base: int, k: nat, n: nat, p: int, ds: seq<Octet>, m: int)
    reads target
  {
    && to + |ds| == s <= target.Length && target[to..s] == ds
    && m >= 0 && p == k * m && TopDigits(base, ds, n, p)
    && (ds != [] ==> ds[0] != 0) && (ds == [] ==> m >= 1 && Down(n, p - k) >= 1)
  }

  /** Stores one digit of k bits. */
  method PutDigit(target: array<Octet>, to: nat, s: nat, base: nat, k: nat, digit: Octet,
      ghost n: nat, ghost p: nat, ghost ds: seq<Octet>, ghost m: nat)
    requires 1 <= k <= 5 && base == Pow2(k) && m >= 1 && Printing2(target, to, s, base, k, n, p, ds, m) && p >= k
    requires n >= 1 && digit == Down(n, p - k) % Pow2(k) && RoomFor(target.Length, to, base, n)
    modifies target
    ensures Printing2(target, to, s + 1, base, k, n, p - k, ds + [digit], m - 1)
    ensures forall j :: 0 <= j < target.Length && j != s ==> target[j] == old(target[j])
  {
    hide DigitsValue, Down, Pow2, Pow, TopDigits;
    NextDigitFits(base, ds, n, p, k);
    assert s < target.Length;
    TopDigitsGrow(base, ds, n, p, k, digit);
    if ds == [] {
      FirstDigit(base, n, p, k, digit);
    }
    target[s] := digit;
    assert target[to..s + 1] == ds + [target[s]];
    Distribute(k, m);
  }

  lemma FirstDigit(base: int, n: nat, p: nat, k: nat, digit: Octet)
    requires k <= p && base == Pow2(k) && TopDigits(base, [], n, p) && Down(n, p - k) >= 1 && digit == Down(n, p - k) % Pow2(k)
    ensures digit != 0
  {
    hide Down, Pow2, DigitsValue;
    DigitsNone(base);
    WindowMoves(n, p, k);
  }

  /** The inner loop: the digits that begin in limb n1. */
  method PlainDigits(target: array<Octet>, to: nat, s0: nat, base: nat, k: nat, n1: Limb, bitPos0: int,
      ghost u: seq<Limb>, ghost i: nat, ghost ds0: seq<Octet>, ghost m0: nat)
    returns (s: nat, bitPos: int, ghost ds: seq<Octet>, ghost m: nat)
    requires 1 <= k <= 5 && base == Pow2(k) && i < |u| && n1 == u[i] && Val(u) >= 1
    requires 0 <= bitPos0 && bitPos0 <= 31 + k && (bitPos0 <= 32 || i == |u| - 1)
    requires Printing2(target, to, s0, base, k, Val(u), 32 * i + bitPos0, ds0, m0)
    requires RoomFor(target.Length, to, base, Val(u))
    modifies target
    ensures s0 <= s && 0 <= bitPos + k && bitPos < 0 && Printing2(target, to, s, base, k, Val(u), 32 * i + bitPos + k, ds, m)
    ensures forall j :: 0 <= j < to || s <= j < target.Length ==> target[j] == old(target[j])
  {
    hide DigitsValue, Down, Pow2, Pow, TopDigits, Val, RoomFor, And, Shr;
    s, bitPos, ds, m := s0, bitPos0 - k, ds0, m0;
    while bitPos >= 0
      invariant 0 <= bitPos + k <= bitPos0 && s0 <= s
      invariant Printing2(target, to, s, base, k, Val(u), 32 * i + bitPos + k, ds, m)
      invariant forall j :: 0 <= j < to || s <= j < target.Length ==> target[j] == old(target[j])
      decreases bitPos
    {
      MaskWindow(Shr(n1, bitPos), k);
      PlainDigit(u, i, bitPos, k);
      SmallBase(k);
      var digit: Octet := And(Shr(n1, bitPos), Shl(1, k) - 1);
      SomeLeft(k, m, 32 * i + bitPos + k);
      PutDigit(target, to, s, base, k, digit, Val(u), 32 * i + bitPos + k, ds, m);
      ds, m := ds + [digit], m - 1;
      s := s + 1;
      bitPos := bitPos - k;
    }
  }

  lemma SomeLeft(k: nat, m: nat, p: int)
    requires k >= 1 && p >= k && p == k * m
    ensures m >= 1
  {
  }

  lemma SmallBase(k: nat)
    requires 1 <= k <= 5
    ensures Pow2(k) <= 32
  {
    assert Pow2(5) == 32 && Pow2(4) == 16 && Pow2(3) == 8 && Pow2(2) == 4 && Pow2(1) == 2;
  }

  /** The digit whose bits lie in two limbs, n1 above n0. */
  method JoinedDigit(target: array<Octet>, to: nat, s0: nat, base: nat, k: nat, n1: Limb, n0: Limb, bitPos0: int,
      ghost u: seq<Limb>, ghost i: nat, ghost ds0: seq<Octet>, ghost m0: nat)
    returns (s: nat, bitPos: int, ghost ds: seq<Octet>, ghost m: nat)
    requires 1 <= k <= 5 && base == Pow2(k) && i + 1 < |u| && n1 == u[i + 1] && n0 == u[i] && Val(u) >= 1
    requires bitPos0 < 0 <= bitPos0 + k && Printing2(target, to, s0, base, k, Val(u), 32 * (i + 1) + bitPos0 + k, ds0, m0)
    requires RoomFor(target.Length, to, base, Val(u))
    modifies target
    ensures s == s0 + 1 && bitPos == bitPos0 + 32 && Printing2(target, to, s, base, k, Val(u), 32 * i + bitPos, ds, m)
    ensures forall j :: 0 <= j < target.Length && j != s0 ==> target[j] == old(target[j])
  {
    hide DigitsValue, Down, Pow2, Pow, TopDigits, Val, RoomFor, And, Shr, Shl, Or;
    MaskWindow(Shl(n1, -bitPos0), k);
    StraddlingDigit(u, i, bitPos0 + 32, k);
    SmallBase(k);
    bitPos := bitPos0 + 32;
    var digit: Octet := Or(And(Shl(n1, -bitPos0), Shl(1, k) - 1), Shr(n0, bitPos));
    SomeLeft(k, m0, 32 * i + bitPos + k);
    PutDigit(target, to, s0, base, k, digit, Val(u), 32 * i + bitPos + k, ds0, m0);
    s, ds, m := s0 + 1, ds0 + [digit], m0 - 1;
  }

  /** get_str for a base that is a power of two, any number of limbs. */
  method GetStrPow2(target: array<Octet>, to: nat, base: nat, op1: array<Limb>, o1: nat, n: nat) returns (count: nat)
    requires 2 <= base <= 62 && PowerOfTwo(base) && n >= 1 && Slice(op1, o1, n) && op1[o1 + n - 1] != 0
    requires RoomFor(target.Length, to, base, Val(op1[o1..o1 + n]))
    modifies target
    ensures 1 <= count && to + count <= target.Length && DigitString(base, target[to..to + count])
    ensures DigitsValue(base, target[to..to + count]) == Val(op1[o1..o1 + n]) && target[to] != 0
    ensures forall j :: 0 <= j < to || to + count <= j < target.Length ==> target[j] == old(target[j])
  {
    hide DigitsValue, Down, Pow2, Pow, TopDigits, Val, RoomFor, And, Shr, Shl, Or, BigBase;
    ghost var u := op1[o1..o1 + n];
    DigitBits(base);
    var k: nat := BigBase(base);
    var s := to;
    var n1 := op1[o1 + n - 1];
    var zeros := LeadingZeros(n1);
    NumberOfBits(u, zeros);
    var bits := 32 * n - zeros;
    var extra := bits % k;
    if extra != 0 {
      bits := bits + k - extra;
    }
    SomeRoom(target.Length, to, base, Val(u));
    ghost var ds, m := StartDigits(target, to, base, k, u, zeros, bits);
    var bitPos: int := bits - (n - 1) * 32;
    var i: int := n - 1;
    while i >= 0
      invariant -1 <= i <= n - 1 && to <= s
      invariant i >= 0 ==> n1 == u[i] && 0 <= bitPos <= 31 + k && (bitPos <= 32 || i == n - 1)
      invariant i >= 0 ==> Printing2(target, to, s, base, k, Val(u), 32 * i + bitPos, ds, m)
      invariant i < 0 ==> Printing2(target, to, s, base, k, Val(u), 0, ds, m)
      invariant forall j :: 0 <= j < to || s <= j < target.Length ==> target[j] == old(target[j])
      decreases i
    {
      s, bitPos, ds, m := PlainDigits(target, to, s, base, k, n1, bitPos, u, i, ds, m);
      i := i - 1;
      if i >= 0 {
        s, bitPos, ds, m := JoinedDigit(target, to, s, base, k, n1, op1[o1 + i], bitPos, u, i, ds, m);
        n1 := op1[o1 + i];
      } else {
        NoneLeft(k, m, bitPos + k);
      }
    }
    DownAll(Val(u));
    LastDigits(base, ds, Val(u));
    count := s - to;
  }

  lemma NoneLeft(k: nat, m: nat, p: int)
    requires k >= 1 && 0 <= p < k && p == k * m
    ensures p == 0
  {
    if m >= 1 { MulLe(k, 1, m); }
  }

  lemma LastDigits(base: int, ds: seq<Octet>, n: nat)
    requires TopDigits(base, ds, n, 0)
    ensures DigitString(base, ds) && DigitsValue(base, ds) == n
  {
  }

  lemma SomeRoom(length: int, to: nat, b: int, n: int)
    requires n >= 1 && RoomFor(length, to, b, n)
    ensures to < length
  {
    DigitsNone(b);
  }

  /** Before the first digit. */
  lemma StartDigits(target: array<Octet>, to: nat, base: int, k: nat, u: seq<Limb>, zeros: nat, bits: int)
    returns (ds: seq<Octet>, m: nat)
    requires 1 <= k <= 5 && to <= target.Length && u != [] && u[|u| - 1] > 0 && zeros == LeadingZeros(u[|u| - 1])
    requires var all := 32 * |u| - zeros; bits == if all % k == 0 then all else all + k - all % k
    ensures Val(u) >= 0 && ds == [] && Printing2(target, to, to, base, k, Val(u), bits, ds, m)
    ensures bits <= 32 * |u| - zeros + k - 1 && bits >= 32 * |u| - zeros
  {
    hide Down, Pow2, DigitsValue, Val;
    NumberOfBits(u, zeros);
    var n, all := Val(u), 32 * |u| - zeros;
    ds := [];
    DigitsNone(base);
    RoundedUp(all, k);
    m := (all + k - 1) / k;
    DownOrder(n, bits - k, all - 1);
    NothingAbove(n, all, bits);
  }

  lemma RoundedUp(all: nat, k: nat)
    requires 1 <= k <= 5 && all >= 1
    ensures var bits := if all % k == 0 then all else all + k - all % k;
      bits == k * ((all + k - 1) / k) && all <= bits < all + k && (all + k - 1) / k >= 1
  {
    var q, r := all / k, all % k;
    assert all == k * q + r;
    if r == 0 {
      DivModUnique(all + k - 1, k, q, k - 1);
    } else {
      assert k * (q + 1) == k * q + k;
      DivModUnique(all + k - 1, k, q + 1, r - 1);
    }
  }

  lemma {:induction false} NothingAbove(n: nat, p: nat, q: nat)
    requires p <= q && Down(n, p) == 0
    ensures Down(n, q) == 0
    decreases q
  {
    if p < q {
      NothingAbove(n, p, q - 1);
      DownHalves(n, q - 1);
    }
  }

  /** get_str: any number in a power-of-two base, up to 29 limbs in another. */
  method GetStr(target: array<Octet>, to: nat, base: nat, op1: array<Limb>, o1: nat, n: nat) returns (count: nat)
    requires 2 <= base <= 62 && Slice(op1, o1, n) && (n > 0 ==> op1[o1 + n - 1] != 0) && (PowerOfTwo(base) || n < 30)
    requires to < target.Length && RoomFor(target.Length, to, base, Val(op1[o1..o1 + n]))
    modifies target
    ensures 1 <= count && to + count <= target.Length && DigitString(base, target[to..to + count])
    ensures DigitsValue(base, target[to..to + count]) == Val(op1[o1..o1 + n])
    ensures target[to] != 0 <==> n > 0
    ensures n == 0 ==> count == 1
    ensures forall j :: 0 <= j < to || to + count <= j < target.Length ==> target[j] == old(target[j])
  {
    hide DigitsValue, Val, RoomFor;
    if n == 0 {
      target[to] := 0;
      count := 1;
      assert target[to..to + 1] == [0];
      DigitsOne(base, 0);
      ValNone(op1[o1..o1]);
      assert op1[o1..o1 + n] == [];
    } else if PowerOfTwo(base) {
      count := GetStrPow2(target, to, base, op1, o1, n);
    } else {
      NormalizedBound(op1[o1..o1 + n]);
      count := SbGetStr(target, to, 0, op1, o1, n, base);
      EmptyIsZero(base, target[to..to + count]);
    }
  }

  lemma EmptyIsZero(b: int, ds: seq<Octet>)
    requires DigitsValue(b, ds) >= 1
    ensures ds != []
  {
  }
}
