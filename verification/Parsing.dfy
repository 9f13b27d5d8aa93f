/** set_str: digits as a number, and the round trip with the printer. */
module Parsing {
  import opened Integers
  import opened Limbs
  import opened Bits
  import opened SpecialLogic
  import opened SpecialArithmetic
  import opened Congruences
  import opened Radix
  import opened Digits
  import opened Printing

  /** The limbs below size hold n, without a leading zero limb. */
  ghost predicate Holds(target: array<Limb>, to: nat, size: nat, n: int)
    reads target
  {
    Slice(target, to, size) && Val(target[to..to + size]) == n && (size > 0 ==> target[to + size - 1] != 0)
  }

  lemma ZeroTimes(m: int, d: int)
    ensures 0 * m + d == d
  {
  }

  /** n := n * m + d in place, growing by at most one limb. */
  method MultiplyAdd(target: array<Limb>, to: nat, size0: nat, m: Limb, d: Limb, ghost n: int) returns (size: nat)
    requires Holds(target, to, size0, n) && m >= 1 && to + size0 < target.Length
    modifies target
    ensures size0 <= size <= size0 + 1 && Holds(target, to, size, n * m + d)
    ensures forall j :: 0 <= j < to || to + size0 + 1 <= j < target.Length ==> target[j] == old(target[j])
  {
    hide Val, Shift;
    size := size0;
    ghost var u := target[to..to + size];
    if size == 0 {
      ValNone(u);
      assert u == [] && n == 0;
      ZeroTimes(m, d);
      if d != 0 {
        target[to] := d;
        size := 1;
        assert target[to..to + 1] == [d];
        ValOne(d);
      }
    } else {
      var cyLimb := Mul1(target, to, target, to, size, m);
      ghost var low := Val(target[to..to + size]);
      var carry := Add1(target, to, target, to, size, d);
      ghost var s := target[to..to + size];
      CarriesFit(u, m, d, low, cyLimb, s, carry);
      cyLimb := cyLimb + carry;
      if cyLimb != 0 {
        target[to + size] := cyLimb;
        assert target[to..to + size + 1] == s + [cyLimb];
        ValSnoc(s, cyLimb);
        size := size + 1;
      }
    }
  }

  /** The two carries make one limb, and without them the top limb stays. */
  lemma CarriesFit(u: seq<Limb>, m: Limb, d: Limb, low: int, c1: Limb, s: seq<Limb>, c2: Limb)
    requires u != [] && u[|u| - 1] != 0 && m >= 1 && |s| == |u| && c2 <= 1
    requires low + Shift(c1, |u|) == Val(u) * m && Val(s) + Shift(c2, |u|) == low + d
    ensures (c1 as int) + c2 < 0x1_0000_0000
    ensures Val(s) + Shift((c1 as int) + c2, |u|) == Val(u) * m + d
    ensures (c1 as int) + c2 == 0 ==> s[|s| - 1] != 0
  {
    hide Val, Shift;
    var n := |u|;
    ShiftAdd(c1, c2, n);
    ValBound(u);
    ValBound(s);
    NormalizedBound(u);
    var c := (c1 as int) + c2;
    var one := Shift(1, n);
    MulLe(m, Val(u), one - 1);
    Commute(m, Val(u));
    Distribute(m, one);
    MulLe(one, m, 0xffff_ffff);
    Commute(m, one);
    ShiftShift(1, 1, n);
    ShiftOne(1);
    ShiftCons(1, n);
    Longer(1, n);
    ShiftLess(c, 0x1_0000_0000, n);
    ShiftZero(n);
    MulLe(Val(u), 1, m);
    TopZeroSmall(s);
  }

  lemma TopZeroSmall(s: seq<Limb>)
    requires s != []
    ensures s[|s| - 1] == 0 ==> Val(s) < Shift(1, |s| - 1)
  {
    var n := |s| - 1;
    ValBound(s[..n]);
    ShiftZero(n);
    assert s == s[..n] + [s[n]];
    ValSnoc(s[..n], s[n]);
  }

  lemma SubString(b: int, ds: seq<Octet>, i: nat, j: nat)
    requires i <= j <= |ds| && DigitString(b, ds)
    ensures DigitString(b, ds[i..j])
  {
  }

  /** The next `len` digits as one limb, most significant first. */
  method ReadGroup(str: array<Octet>, at: nat, len: nat, base: nat, limit: nat) returns (resDigit: Limb, power: Limb)
    requires 1 <= len <= limit && at + len <= str.Length && 3 <= base <= 62 && Pow(base, limit) < 0x1_0000_0000
    requires DigitString(base, str[at..at + len])
    ensures resDigit == DigitsValue(base, str[at..at + len]) && power == Pow(base, len) && power >= 1
  {
    hide DigitsValue, Pow;
    resDigit := str[at];
    var p := at + 1;
    power := base;
    assert str[at..p] == [str[at]];
    DigitsOne(base, str[at]);
    var j := len - 1;
    while j > 0
      invariant 0 <= j <= len - 1 && p == at + len - j
      invariant resDigit == DigitsValue(base, str[at..p]) && power == Pow(base, p - at)
    {
      assert str[at..p + 1] == str[at..p] + [str[p]];
      DigitsSnoc(base, str[at..p], str[p]);
      assert str[at..at + len][..p + 1 - at] == str[at..p + 1];
      SubString(base, str[at..at + len], 0, p + 1 - at);
      DigitsBound(base, str[at..p + 1]);
      PowUnfolded(base, p + 1 - at);
      Commute(base, Pow(base, p - at));
      PowMonotone(base, p + 1 - at, limit);
      PowPositive(base, p + 1 - at);
      resDigit := resDigit * base + str[p];
      power := power * base;
      p := p + 1;
      j := j - 1;
    }
    PowPositive(base, len);
  }

  /** Groups of c digits, the last one perhaps shorter. */
  function GroupCount(len: nat, c: nat): nat
    requires c >= 1
  {
    (len + c - 1) / c
  }

  predicate GroupEnd(i: int, c: nat, groups: nat)
  {
    i == c * (groups + 1)
  }

  /** A full group of digits: a multiplication by the big base, and an addition. */
  method FullGroup(target: array<Limb>, to: nat, size0: nat, str: array<Octet>, so: nat, at: nat, len: nat, base: nat)
    returns (size: nat)
    requires 3 <= base <= 62 && !PowerOfTwo(base) && so <= at && at + CharsPerLimb(base) <= so + len <= str.Length
    requires DigitString(base, str[so..so + len]) && to + size0 < target.Length
    requires Holds(target, to, size0, DigitsValue(base, str[so..at]))
    modifies target
    ensures size0 <= size <= size0 + 1 && Holds(target, to, size, DigitsValue(base, str[so..at + CharsPerLimb(base)]))
    ensures forall j :: 0 <= j < to || to + size0 + 1 <= j < target.Length ==> target[j] == old(target[j])
  {
    hide DigitsValue, Pow, Val, BigBase, BigBaseInverted, CharsPerLimb, Holds;
    var charsPerLimb := CharsPerLimb(base);
    TablesGood(base);
    Piece(base, str, so, at, charsPerLimb, len);
    var resDigit, _ := ReadGroup(str, at, charsPerLimb, base, charsPerLimb);
    size := MultiplyAdd(target, to, size0, BigBase(base), resDigit, DigitsValue(base, str[so..at]));
  }

  /** set_str in a base that is not a power of two. */
  method SetStrDigits(target: array<Limb>, to: nat, str: array<Octet>, so: nat, len: nat, base: nat) returns (size: nat)
    requires 3 <= base <= 62 && !PowerOfTwo(base) && len >= 1 && so + len <= str.Length
    requires DigitString(base, str[so..so + len]) && to + GroupCount(len, CharsPerLimb(base)) <= target.Length
    modifies target
    ensures Holds(target, to, size, DigitsValue(base, str[so..so + len]))
    ensures forall j :: 0 <= j < to || to + GroupCount(len, CharsPerLimb(base)) <= j < target.Length ==> target[j] == old(target[j])
  {
    hide DigitsValue, Pow, Val, BigBase, BigBaseInverted, CharsPerLimb, Holds, GroupCount, GroupEnd;
    var charsPerLimb := CharsPerLimb(base);
    TablesGood(base);
    size := 0;
    var at := so;
    ghost var groups := 0;
    NothingRead(target, to, base, str[so..at]);
    var i := charsPerLimb;
    FirstGroup(charsPerLimb);
    while i < len
      invariant i >= charsPerLimb && GroupEnd(i, charsPerLimb, groups) && at == so + i - charsPerLimb && at < so + len && size <= groups
      invariant Holds(target, to, size, DigitsValue(base, str[so..at]))
      invariant forall j :: 0 <= j < to || to + groups <= j < target.Length ==> target[j] == old(target[j])
    {
      Groups(i, groups, charsPerLimb, len);
      size := FullGroup(target, to, size, str, so, at, len, base);
      at := at + charsPerLimb;
      groups := groups + 1;
      i := i + charsPerLimb;
    }
    Groups(i, groups, charsPerLimb, len);
    var last := len - (i - charsPerLimb);
    Piece(base, str, so, at, last, len);
    var resDigit, power := ReadGroup(str, at, last, base, charsPerLimb);
    size := MultiplyAdd(target, to, size, power, resDigit, DigitsValue(base, str[so..at]));
  }

  lemma OneMore(c: nat, g: nat)
    ensures c * (g + 1) == c * g + c
  {
  }

  lemma NothingRead(target: array<Limb>, to: nat, b: int, ds: seq<Octet>)
    requires to <= target.Length && ds == []
    ensures Holds(target, to, 0, DigitsValue(b, ds))
  {
    assert target[to..to + 0] == [];
  }

  lemma FirstGroup(c: nat)
    ensures GroupEnd(c, c, 0)
  {
  }

  /** There is a limb for every group, also for the last one. */
  lemma Groups(i: int, groups: nat, c: nat, len: nat)
    requires c >= 1 && GroupEnd(i, c, groups) && i - c < len
    ensures groups + 1 <= GroupCount(len, c) && GroupEnd(i + c, c, groups + 1)
  {
    var q := (len + c - 1) / c;
    assert len + c - 1 == c * q + (len + c - 1) % c;
    Distribute(c, groups + 1);
    OneMore(c, groups + 1);
    if q <= groups { MulLe(c, q, groups); }
  }

  /** The k digits at index at. */
  lemma Piece(b: int, str: array<Octet>, so: nat, at: nat, k: nat, len: nat)
    requires so <= at && at + k <= so + len <= str.Length && DigitString(b, str[so..so + len])
    ensures DigitString(b, str[at..at + k])
    ensures DigitsValue(b, str[so..at + k]) == DigitsValue(b, str[so..at]) * Pow(b, k) + DigitsValue(b, str[at..at + k])
  {
    hide DigitsValue, Pow;
    var ds := str[so..so + len];
    assert str[at..at + k] == ds[at - so..at - so + k];
    SubString(b, ds, at - so, at - so + k);
    assert str[so..at + k] == str[so..at] + str[at..at + k];
    DigitsAppend(b, str[so..at], str[at..at + k]);
  }

  // The power-of-two branch, from the last digit to the first.

  /** The last t digits of ds are in the limbs below size and the partial limb res of pos bits. */
  ghost predicate Packed(target: array<Limb>, to: nat, size: nat, res: Limb, pos: int, base: int, k: nat, ds: seq<Octet>, t: int)
    reads target
  {
    && Slice(target, to, size) && 0 <= t <= |ds| && 0 <= pos <= 31 && res < Pow2(pos) && pos + 32 * size == k * t
    && Val(target[to..to + size]) + Shift(res, size) == DigitsValue(base, ds[|ds| - t..])
  }

  /** One more digit in front of what is packed. */
  method PackDigit(target: array<Limb>, to: nat, size0: nat, res0: Limb, pos0: nat, base: nat, k: nat, digit: Octet,
      ghost ds: seq<Octet>, ghost t: nat)
    returns (size: nat, res: Limb, pos: nat)
    requires 1 <= k <= 5 && base == Pow2(k) && t < |ds| && digit == ds[|ds| - 1 - t] && digit < base
    requires Packed(target, to, size0, res0, pos0, base, k, ds, t) && to + size0 < target.Length
    modifies target
    ensures Packed(target, to, size, res, pos, base, k, ds, t + 1)
    ensures digit != 0 ==> res != 0 || TopNonZero(target, to, size)
    ensures forall j :: 0 <= j < to || to + size0 + 1 <= j < target.Length ==> target[j] == old(target[j])
  {
    hide DigitsValue, Pow2, Val, Shift, Or, Shl, Shr;
    ghost var low := target[to..to + size0];
    DigitPlaced(base, k, ds, t, digit, size0, pos0);
    JoinPartial(digit, res0, pos0, k);
    ShiftAdd(res0, digit * Pow2(pos0), size0);
    size, pos := size0, pos0;
    res := Or(res0, Shl(digit, pos));
    OneMore(k, t);
    pos := pos + k;
    if pos >= 32 {
      target[to + size] := res;
      assert target[to..to + size + 1] == low + [res];
      ValSnoc(low, res);
      size := size + 1;
      pos := pos - 32;
      res := Shr(digit, k - pos);
      CarryStep((res0 as int) + Shl(digit, pos0), res, res0 + digit * Pow2(pos0), size0);
    }
    assert target[to..to + size0] == low;
  }

  /** What a further digit adds. */
  lemma DigitPlaced(base: int, k: nat, ds: seq<Octet>, t: nat, digit: Octet, size: nat, pos: nat)
    requires k >= 1 && base == Pow2(k) && t < |ds| && digit == ds[|ds| - 1 - t] && pos + 32 * size == k * t
    ensures DigitsValue(base, ds[|ds| - (t + 1)..]) == Shift(digit * Pow2(pos), size) + DigitsValue(base, ds[|ds| - t..])
  {
    hide DigitsValue, Pow2, Shift;
    var rest := ds[|ds| - t..];
    assert ds[|ds| - (t + 1)..] == [digit] + rest;
    DigitsAppend(base, [digit], rest);
    DigitsOne(base, digit);
    PowOfPow2(k, t);
    Pow2Limbs(pos, size);
    ShiftMul(digit, Pow2(pos), size);
  }

  lemma {:induction false} PowOfPow2(k: nat, t: nat)
    ensures Pow(Pow2(k), t) == Pow2(k * t)
  {
    if t > 0 {
      PowOfPow2(k, t - 1);
      OneMore(k, t - 1);
      Pow2Add(k, k * (t - 1));
    }
  }

  lemma {:induction false} Pow2Limbs(pos: nat, size: nat)
    ensures Pow2(pos + 32 * size) == Shift(Pow2(pos), size)
  {
    if size > 0 {
      Pow2Limbs(pos, size - 1);
      Pow2Add(32, pos + 32 * (size - 1));
      Pow2Limb();
      ShiftCons(Pow2(pos), size - 1);
    }
  }

  /** The digit and the partial limb share no bit; beyond bit 32 the digit goes on in the next limb. */
  lemma JoinPartial(digit: Octet, res: Limb, pos: nat, k: nat)
    requires 1 <= k <= 5 && digit < Pow2(k) && pos <= 31 && res < Pow2(pos)
    ensures Or(res, Shl(digit, pos)) == (res as int) + Shl(digit, pos) < 0x1_0000_0000
    ensures pos + k < 32 ==> Shl(digit, pos) == digit * Pow2(pos) && (res as int) + Shl(digit, pos) < Pow2(pos + k)
    ensures pos + k >= 32 ==>
      && digit * Pow2(pos) == Shl(digit, pos) + 0x1_0000_0000 * Shr(digit, 32 - pos)
      && Shr(digit, 32 - pos) < Pow2(pos + k - 32)
    ensures digit != 0 ==> (res as int) + Shl(digit, pos) != 0 || (pos + k >= 32 && Shr(digit, 32 - pos) != 0)
  {
    hide Pow2, Or, Shl, Shr;
    OrCommutes(res, Shl(digit, pos));
    SmallBase(k);
    Pow2Limb();
    Pow2Add(pos, 32 - pos);
    if pos == 0 {
      ShlNothing(digit);
      Pow2Unfolded(0);
      OrZero(Shl(digit, pos));
    } else {
      ShiftParts(digit, pos);
      OrDisjoint(digit % Pow2(32 - pos), res, pos);
      SplitWord(digit, Pow2(pos), Pow2(32 - pos));
      if pos + k < 32 {
        Pow2Add(k, 32 - pos - k);
        Pow2Add(pos, k);
        Small(digit, Pow2(k), Pow2(32 - pos - k), Pow2(pos), res);
      } else {
        Pow2Add(32 - pos, pos + k - 32);
        HighPart(digit, Pow2(32 - pos), Pow2(pos + k - 32));
      }
      if digit != 0 {
        MulLe(Pow2(pos), 1, digit);
        Commute(Pow2(pos), digit);
      }
    }
  }

  lemma ShlNothing(x: Limb)
    ensures Shl(x, 0) == x && x * Pow2(0) == x
  {
  }

  lemma Small(x: int, b: int, t: int, p: int, res: int)
    requires 0 <= x < b && t >= 1 && 0 <= res < p
    ensures x % (b * t) == x && x * p + res < p * b
  {
    MulLe(b, 1, t);
    DivModUnique(x, b * t, 0, x);
    MulLe(p, x, b - 1);
    Commute(p, x);
    Distribute(p, b);
  }

  lemma HighPart(x: int, q: int, t: int)
    requires 0 <= x < q * t && q >= 1
    ensures x / q < t
  {
    Commute(q, t);
    QuotientBelow(x, q, t);
  }

  /**
    set_str in a base that is a power of two. The result is normalized if and only if the number reaches
    into the topmost limb that its digits fill, and always when the first digit is not zero.
   */
  method SetStrPow2(target: array<Limb>, to: nat, str: array<Octet>, so: nat, len: nat, base: nat) returns (size: nat)
    requires 2 <= base <= 62 && PowerOfTwo(base) && so + len <= str.Length && DigitString(base, str[so..so + len])
    requires to + (BigBase(base) * len + 31) / 32 <= target.Length
    modifies target
    ensures Slice(target, to, size) && Val(target[to..to + size]) == DigitsValue(base, str[so..so + len])
    ensures len > 0 && str[so] != 0 ==> Holds(target, to, size, DigitsValue(base, str[so..so + len])) && size > 0
    ensures var n := DigitsValue(base, str[so..so + len]);
      Holds(target, to, size, n) <==> FillsLimbs(BigBase(base) * len, n)
    ensures forall j :: 0 <= j < to || to + (BigBase(base) * len + 31) / 32 <= j < target.Length ==> target[j] == old(target[j])
  {
    hide DigitsValue, Pow2, Val, Shift, BigBase, Packed;
    DigitBits(base);
    var k: nat := BigBase(base);
    ghost var ds := str[so..so + len];
    ghost var room := (k * len + 31) / 32;
    size := 0;
    var resDigit: Limb := 0;
    var nextBitpos: nat := 0;
    NothingPacked(target, to, base, k, ds);
    var s: int := so + len - 1;
    while s >= so
      invariant so - 1 <= s < so + len
      invariant Packed(target, to, size, resDigit, nextBitpos, base, k, ds, so + len - 1 - s)
      invariant s < so && len > 0 && str[so] != 0 ==> resDigit != 0 || TopNonZero(target, to, size)
      invariant forall j :: 0 <= j < to || to + room <= j < target.Length ==> target[j] == old(target[j])
    {
      ghost var t: nat := so + len - 1 - s;
      LimbRoom(target, to, size, resDigit, nextBitpos, base, k, ds, t);
      assert str[s] == ds[|ds| - 1 - t];
      size, resDigit, nextBitpos := PackDigit(target, to, size, resDigit, nextBitpos, base, k, str[s], ds, t);
      s := s - 1;
    }
    size := LastLimbOut(target, to, size, resDigit, nextBitpos, base, k, ds);
  }

  ghost predicate TopNonZero(target: array<Limb>, to: nat, size: nat)
    reads target
  {
    size > 0 && to + size <= target.Length && target[to + size - 1] != 0
  }

  /** The partial limb that is left, unless it is zero. */
  method LastLimbOut(target: array<Limb>, to: nat, size0: nat, resDigit: Limb, ghost pos: nat, ghost base: int, ghost k: nat, ghost ds: seq<Octet>)
    returns (size: nat)
    requires k >= 1 && Packed(target, to, size0, resDigit, pos, base, k, ds, |ds|) && to + (k * |ds| + 31) / 32 <= target.Length
    modifies target
    ensures Slice(target, to, size) && Val(target[to..to + size]) == DigitsValue(base, ds)
    ensures resDigit != 0 || old(TopNonZero(target, to, size0)) ==> TopNonZero(target, to, size)
    ensures Holds(target, to, size, DigitsValue(base, ds)) <==> FillsLimbs(k * |ds|, DigitsValue(base, ds))
    ensures forall j :: 0 <= j < to || to + (k * |ds| + 31) / 32 <= j < target.Length ==> target[j] == old(target[j])
  {
    hide DigitsValue, Pow2, Val, Shift;
    size := size0;
    ghost var low := target[to..to + size];
    assert ds[|ds| - |ds|..] == ds;
    WholeLimbs(k * |ds|, low, resDigit, pos);
    if resDigit != 0 {
      LastRoom(k, |ds|, size, pos, resDigit);
      target[to + size] := resDigit;
      assert target[to..to + size + 1] == low + [resDigit];
      ValSnoc(low, resDigit);
      size := size + 1;
    } else {
      ShiftZero(size);
    }
  }

  /** Digits of so many bits reach into the topmost limb that they fill. */
  predicate FillsLimbs(bits: nat, n: int)
  {
    bits < 32 || n >= Shift(1, bits / 32 - 1)
  }

  /** Full limbs and a partial one: when no leading zero limb is left. */
  lemma WholeLimbs(bits: nat, low: seq<Limb>, res: Limb, pos: nat)
    requires pos <= 31 && pos + 32 * |low| == bits
    ensures FillsLimbs(bits, Val(low) + Shift(res, |low|)) <==> res != 0 || low == [] || low[|low| - 1] != 0
  {
    hide Val, Shift;
    var n := |low|;
    DivModUnique(bits, 32, n, pos);
    ValBound(low);
    ShiftZero(n);
    if res != 0 {
      ShiftLess(res, 1, n);
      if n > 0 {
        Longer(n - 1, n);
      }
    } else if n > 0 {
      TopZeroSmall(low);
      if low[n - 1] != 0 {
        NormalizedBound(low);
      }
    }
  }

  lemma NothingPacked(target: array<Limb>, to: nat, base: int, k: nat, ds: seq<Octet>)
    requires to <= target.Length
    ensures Packed(target, to, 0, 0, 0, base, k, ds, 0)
  {
    assert target[to..to + 0] == [] && ds[|ds| - 0..] == [];
    ShiftZero(0);
  }

  lemma LimbRoom(target: array<Limb>, to: nat, size: nat, res: Limb, pos: nat, base: int, k: nat, ds: seq<Octet>, t: nat)
    requires k >= 1 && t < |ds| && Packed(target, to, size, res, pos, base, k, ds, t)
    ensures size < (k * |ds| + 31) / 32
  {
    MulLe(k, t + 1, |ds|);
    OneMore(k, t);
  }

  lemma LastRoom(k: nat, len: nat, size: nat, pos: nat, res: Limb)
    requires pos + 32 * size == k * len && 0 < res < Pow2(pos)
    ensures size < (k * len + 31) / 32
  {
    Pow2Unfolded(0);
  }

  /**
    Zeros in front of the digits leave the number as it is but fill limbs of their own: whenever they
    make up two limbs, a leading zero limb stays.
   */
  lemma ZerosLeaveZeroLimb(base: int, zeros: seq<Octet>, ds: seq<Octet>)
    requires 2 <= base <= 62 && PowerOfTwo(base) && DigitString(base, ds)
    requires (forall i :: 0 <= i < |zeros| ==> zeros[i] == 0) && BigBase(base) * |zeros| >= 64
    ensures DigitsValue(base, zeros + ds) == DigitsValue(base, ds)
    ensures !FillsLimbs(BigBase(base) * |zeros + ds|, DigitsValue(base, zeros + ds))
  {
    hide DigitsValue, BigBase, Pow, Pow2, Shift;
    ZerosDenoteZero(base, zeros);
    DigitsAppend(base, zeros, ds);
    DigitsBound(base, ds);
    DigitBits(base);
    var k: nat := BigBase(base);
    PowOfPow2(k, |ds|);
    SumTimes(|zeros|, |ds|, k);
    Commute(|zeros|, k);
    Commute(|ds|, k);
    Commute(|zeros + ds|, k);
    MulNonNegative(k, |ds|);
    BitsInLimbs(k * |ds|);
    Longer(k * |ds| / 32 + 1, (k * |zeros| + k * |ds|) / 32 - 1);
  }

  lemma {:induction false} ZerosDenoteZero(base: int, zeros: seq<Octet>)
    requires forall i :: 0 <= i < |zeros| ==> zeros[i] == 0
    ensures DigitsValue(base, zeros) == 0
    decreases |zeros|
  {
    if zeros != [] {
      ZerosDenoteZero(base, zeros[..|zeros| - 1]);
    }
  }

  lemma BitsInLimbs(bits: nat)
    ensures Pow2(bits) <= Shift(1, bits / 32 + 1)
  {
    hide Pow2, Shift;
    var pos, size := bits % 32, bits / 32;
    Pow2Limbs(pos, size);
    Pow2Add(pos, 32 - pos);
    Pow2Limb();
    MulLe(Pow2(pos), 1, Pow2(32 - pos));
    ShiftOrder(Pow2(pos), 0x1_0000_0000, size);
    ShiftCons(1, size);
    ShiftMul(0x1_0000_0000, 1, size);
  }

  // The round trip.

  /** set_str for either kind of base. */
  method SetStr(target: array<Limb>, to: nat, str: array<Octet>, so: nat, len: nat, base: nat) returns (size: nat)
    requires 2 <= base <= 62 && len >= 1 && so + len <= str.Length && DigitString(base, str[so..so + len])
    requires to + Room(base, len) <= target.Length
    modifies target
    ensures Slice(target, to, size) && Val(target[to..to + size]) == DigitsValue(base, str[so..so + len])
    ensures str[so] != 0 || !PowerOfTwo(base) ==> Holds(target, to, size, DigitsValue(base, str[so..so + len]))
    ensures forall j :: 0 <= j < to || to + Room(base, len) <= j < target.Length ==> target[j] == old(target[j])
  {
    hide DigitsValue, Val, BigBase, CharsPerLimb;
    if PowerOfTwo(base) {
      size := SetStrPow2(target, to, str, so, len, base);
    } else {
      size := SetStrDigits(target, to, str, so, len, base);
    }
  }

  /** Limbs that set_str may write. */
  function Room(base: int, len: nat): int
    requires 2 <= base <= 62
  {
    if PowerOfTwo(base) then (BigBase(base) * len + 31) / 32 else GroupCount(len, CharsPerLimb(base))
  }

  /** Normalized limb vectors that hold the same number are equal. */
  lemma NormalizedUnique(s: seq<Limb>, t: seq<Limb>)
    requires Val(s) == Val(t) && (s != [] ==> s[|s| - 1] != 0) && (t != [] ==> t[|t| - 1] != 0)
    ensures s == t
  {
    hide Val, Shift;
    ValBound(s);
    ValBound(t);
    if |s| == |t| {
      ValInjective(s, t);
    } else {
      var long, short := if |s| > |t| then s else t, if |s| > |t| then t else s;
      NormalizedBound(long);
      Longer(|short|, |long| - 1);
    }
  }

  /** Printing a normalized number and parsing the digits gives the same limbs and the same count. */
  method PrintAndParse(op1: array<Limb>, o1: nat, n: nat, base: nat, str: array<Octet>, target: array<Limb>) returns (size: nat)
    requires 2 <= base <= 62 && n >= 1 && Slice(op1, o1, n) && op1[o1 + n - 1] != 0 && (PowerOfTwo(base) || n < 30)
    requires RoomFor(str.Length, 0, base, Val(op1[o1..o1 + n])) && str.Length >= 1
    requires target != op1 && target.Length >= Room(base, str.Length)
    modifies str, target
    ensures size == n <= target.Length && target[..n] == old(op1[o1..o1 + n])
  {
    hide Val, DigitsValue, RoomFor, Room;
    var count := GetStr(str, 0, base, op1, o1, n);
    RoomGrows(base, count, str.Length);
    size := SetStr(target, 0, str, 0, count, base);
    assert target[0..0 + size] == target[..size];
    NormalizedUnique(target[..size], op1[o1..o1 + n]);
  }

  lemma RoomGrows(base: int, j: nat, k: nat)
    requires 2 <= base <= 62 && j <= k
    ensures Room(base, j) <= Room(base, k)
  {
    hide BigBase, CharsPerLimb;
    MulLe(BigBase(base), j, k);
    DivOrder(j + CharsPerLimb(base) - 1, k + CharsPerLimb(base) - 1, CharsPerLimb(base));
  }

  lemma DivOrder(x: nat, y: nat, c: nat)
    requires x <= y && c >= 1
    ensures x / c <= y / c
  {
    assert x == c * (x / c) + x % c && y == c * (y / c) + y % c;
    if x / c > y / c { MulLe(c, y / c + 1, x / c); Distribute(c, y / c + 1); }
  }

  /** Parsing digits that do not begin with zero and printing the number gives the same digits. */
  method ParseAndPrint(str: array<Octet>, len: nat, base: nat, limbs: array<Limb>, out: array<Octet>) returns (count: nat)
    requires 2 <= base <= 62 && 1 <= len <= str.Length && DigitString(base, str[..len]) && str[0] != 0
    requires PowerOfTwo(base) || DigitsValue(base, str[..len]) < Shift(1, 29)
    requires limbs.Length >= Room(base, len) && out != str && out.Length >= 1 && RoomFor(out.Length, 0, base, DigitsValue(base, str[..len]))
    modifies limbs, out
    ensures count == len <= out.Length && out[..len] == str[..len]
  {
    hide Val, DigitsValue, RoomFor, Room, Shift, Pow;
    ghost var ds := str[..len];
    assert str[0..0 + len] == ds;
    var size := SetStr(limbs, 0, str, 0, len, base);
    LeadingDigit(base, ds);
    PowPositive(base, len - 1);
    HeldSize(limbs[..size], base, ds);
    assert limbs[0..0 + size] == limbs[..size];
    count := GetStr(out, 0, base, limbs, 0, size);
    assert out[0..0 + count] == out[..count];
    DigitsUnique(base, out[..count], ds);
  }

  /** How many limbs a positive number below B^29 has. */
  lemma HeldSize(s: seq<Limb>, b: int, ds: seq<Octet>)
    requires (s != [] ==> s[|s| - 1] != 0) && Val(s) == DigitsValue(b, ds) >= 1
    ensures s != [] && (DigitsValue(b, ds) < Shift(1, 29) ==> |s| < 30)
  {
    hide DigitsValue, Shift;
    NormalizedBound(s);
    if |s| >= 30 {
      Longer(29, |s| - 1);
    }
  }
}
