/**
  powm: sliding-window exponentiation, with residues in place of their limb buffers; the
  exponent is scanned limb by limb and bit by bit as in the original.
 */
module ModularPower {
  import opened Integers
  import opened Limbs
  import opened Bits
  import opened SpecialLogic
  import opened Congruences

  /** One limb x below w: bits move down from w into what is left of x. */
  lemma DownInLimb(x: Limb, w: nat, sh: nat)
    requires sh <= 31
    ensures Down(x + 0x1_0000_0000 * w, sh) == Shr(x, sh) + Pow2(32 - sh) * w
  {
    hide Pow2, Down;
    DownDivides(x + 0x1_0000_0000 * w, sh);
    Pow2Add(sh, 32 - sh);
    Pow2Limb();
    var p, q := Pow2(sh), Pow2(32 - sh);
    JoinDown(x, w, p, q, x / p, x % p);
  }

  /** The bits of e above bit 32i + sh, seen from limb i. */
  lemma DownAt(s: seq<Limb>, i: nat, sh: nat)
    requires i < |s| && sh <= 31
    ensures Val(s) >= 0 && Val(s[i + 1..]) >= 0
    ensures Down(Val(s), 32 * i + sh) == Shr(s[i], sh) + Pow2(32 - sh) * Val(s[i + 1..])
  {
    hide Pow2, Down, Val, Shr;
    ValBound(s);
    ValBound(s[i + 1..]);
    LimbsAbove(s, i);
    DownAdd(Val(s), 32 * i, sh);
    assert s[i..] == [s[i]] + s[i + 1..];
    ConsVal(s[i], s[i + 1..]);
    DownInLimb(s[i], Val(s[i + 1..]), sh);
  }

  lemma JoinDown(x: int, w: int, p: int, q: int, h: int, l: int)
    requires p >= 1 && p * q == 0x1_0000_0000 && x == p * h + l && 0 <= l < p
    ensures (x + 0x1_0000_0000 * w) / p == h + q * w
  {
    assert (p * q) * w == p * (q * w);
    assert p * (h + q * w) == p * h + p * (q * w);
    DivModUnique(x + 0x1_0000_0000 * w, p, h + q * w, l);
  }

  lemma ModMultiple(x: int, m: int, k: int)
    requires m >= 1
    ensures (x + m * k) % m == x % m
  {
    FromMultiple(x + m * k, x, m, k);
  }

  /** A window of l bits inside limb i. */
  lemma PlainWindow(s: seq<Limb>, i: nat, sh: nat, l: nat)
    requires i < |s| && sh + l <= 32 && sh <= 31
    ensures Val(s) >= 0 && Down(Val(s), 32 * i + sh) % Pow2(l) == Shr(s[i], sh) % Pow2(l)
  {
    hide Pow2, Shr, Down, Val;
    DownAt(s, i, sh);
    Pow2Add(l, 32 - sh - l);
    var w := Val(s[i + 1..]);
    Associate(Pow2(l), Pow2(32 - sh - l), w);
    ModMultiple(Shr(s[i], sh), Pow2(l), Pow2(32 - sh - l) * w);
  }

  /** A window of l bits whose upper bits come from limb i + 1. */
  lemma CrossingWindow(s: seq<Limb>, i: nat, sh: nat, l: nat)
    requires i + 1 < |s| && 1 <= 32 - sh <= l <= 31
    ensures var c := Or(Shl(s[i + 1], 32 - sh), Shr(s[i], sh));
      Val(s) >= 0 && c < 0x1_0000_0000 && Down(Val(s), 32 * i + sh) % Pow2(l) == c % Pow2(l)
  {
    hide Pow2, Shr, Shl, Down, Val, Or;
    var k := 32 - sh;
    DownAt(s, i, sh);
    ShiftedJoin(s[i + 1], s[i], k);
    ShiftParts(s[i + 1], k);
    assert s[i + 1..] == [s[i + 1]] + s[i + 2..];
    ConsVal(s[i + 1], s[i + 2..]);
    var w := Val(s[i + 2..]);
    Pow2Add(l, 32 - l);
    Pow2Limb();
    var x, y := Shr(s[i], sh) as int, s[i + 1] as int;
    CrossingParts(x, y, w, Pow2(k), Pow2(l), Pow2(32 - l), Shl(s[i + 1], k), Shr(s[i + 1], 32 - k));
  }

  lemma CrossingParts(x: int, y: int, w: int, p: int, m: int, n: int, low: int, out: int)
    requires m >= 1 && m * n == 0x1_0000_0000 && y * p == low + 0x1_0000_0000 * out
    ensures (x + p * (y + 0x1_0000_0000 * w)) % m == (low + x) % m
  {
    assert p * (y + 0x1_0000_0000 * w) == y * p + 0x1_0000_0000 * (p * w);
    assert (m * n) * (out + p * w) == m * (n * (out + p * w));
    ModMultiple(x + low, m, n * (out + p * w));
  }

  /** A window of l bits moves from below the high part into it. */
  lemma WindowMoves(e: nat, p: nat, l: nat)
    requires l <= p
    ensures Down(e, p - l) == Pow2(l) * Down(e, p) + Down(e, p - l) % Pow2(l)
  {
    hide Pow2, Down;
    DownAdd(e, p - l, l);
    DownDivides(Down(e, p - l), l);
  }

  // The scan.

  /** The bits of the exponent not yet used; a negative sh means that none are left. */
  function Position(i: int, sh: int): int
  {
    32 * i + if sh < 0 then 0 else sh
  }

  ghost predicate Scanning(i: int, sh: int, en: int)
  {
    0 <= i < en && sh <= 31 && (sh < 0 ==> i == 0)
  }

  /** The number in the first en limbs. */
  function Number(e: array<Limb>, en: nat): (v: int)
    requires en <= e.Length
    reads e
    ensures v >= 0
  {
    ValBound(e[..en]);
    Val(e[..en])
  }

  method FetchWindow(e: array<Limb>, en: nat, i0: int, sh0: int, smallK: nat) returns (i: int, sh: int, l: nat, c: Limb)
    requires en <= e.Length && Scanning(i0, sh0, en) && !(i0 <= 0 && sh0 <= 0) && 1 <= smallK <= 10
    ensures Scanning(i, sh, en) && 1 <= l <= smallK && c < Pow2(l)
    ensures Position(i, sh) == Position(i0, sh0) - l
    ensures Down(Number(e, en), Position(i, sh)) == Pow2(l) * Down(Number(e, en), Position(i0, sh0)) + c
  {
    hide Down, Pow2, Val, Shl, Shr, Or, And;
    i, sh, l := i0, sh0, smallK;
    ghost var s := e[..en];
    ValBound(s);
    c := e[i];
    sh := sh - l;
    if sh < 0 {
      if i > 0 {
        i := i - 1;
        c := Shl(c, -sh);
        sh := sh + 32;
        CrossingWindow(s, i, sh, l);
        c := Or(c, Shr(e[i], sh));
      } else {
        l := l + sh;
        PlainWindow(s, 0, 0, l);
        ShrNothing(c);
      }
    } else {
      PlainWindow(s, i, sh, l);
      c := Shr(c, sh);
    }
    MaskWindow(c, l);
    c := And(c, Shl(1, l) - 1);
    WindowMoves(Val(s), Position(i0, sh0), l);
  }

  lemma ShrNothing(c: Limb)
    ensures Shr(c, 0) == c
  {
  }

  lemma MaskWindow(c: Limb, l: nat)
    requires 1 <= l <= 10
    ensures Shl(1, l) == Pow2(l) && And(c, Shl(1, l) - 1) == c % Pow2(l) < Pow2(l) <= 1024
  {
    hide And;
    SmallPow2(l);
    assert 1 * Pow2(l) == Pow2(l);
    AndMask(c, l);
  }

  lemma {:induction false} SmallPow2(l: nat)
    requires l <= 10
    ensures Pow2(l) <= 1024 && Pow2(l) * Pow2(10 - l) == 1024
  {
    Pow2Add(l, 10 - l);
    assert Pow2(10) == 1024 by { assert Pow2(5) == 32; }
    MulLe(Pow2(l), 1, Pow2(10 - l));
  }

  /** The next bit of the exponent joins the window. */
  method NextBit(e: array<Limb>, en: nat, i0: int, sh0: int, c0: Limb) returns (i: int, sh: int, c: Limb)
    requires en <= e.Length && Scanning(i0, sh0, en) && !(i0 <= 0 && sh0 <= 0) && c0 < 1024
    ensures Scanning(i, sh, en) && Position(i, sh) == Position(i0, sh0) - 1
    ensures 2 * c0 <= c <= 2 * c0 + 1
    ensures Down(Number(e, en), Position(i, sh)) == 2 * Down(Number(e, en), Position(i0, sh0)) + (c - 2 * c0)
  {
    hide Down, Pow2, Val, Shr, And;
    i, sh := i0, sh0;
    ghost var s := e[..en];
    ValBound(s);
    OneBit(c0);
    if sh != 0 {
      sh := sh - 1;
      LowBit(Shr(e[i], sh));
      c := Shl(c0, 1) + And(Shr(e[i], sh), 1);
    } else {
      i := i - 1;
      sh := 31;
      TopBit(e[i]);
      c := Shl(c0, 1) + Shr(e[i], sh);
    }
    PlainWindow(s, i, sh, 1);
    WindowMoves(Val(s), Position(i0, sh0), 1);
  }

  lemma OneBit(c: Limb)
    requires c < 1024
    ensures Pow2(1) == 2 && Shl(c, 1) == 2 * c
  {
  }

  lemma LowBit(x: Limb)
    ensures And(x, 1) == x % 2
  {
    AndMask(x, 1);
  }

  lemma TopBit(x: Limb)
    ensures Shr(x, 31) < 2
  {
    hide Pow2;
    Pow2Add(31, 1);
    Pow2Limb();
    assert Pow2(1) == 2 by { OneBit(0); }
    assert Pow2(31) == 0x8000_0000;
  }

  // Residues.

  method SquareTimes(d: Reducer, x0: int, j: nat, ghost b: int, ghost k: nat) returns (x: int)
    requires Usable(d) && Stands(d, x0, b, k)
    ensures Pow2(j) * k >= 0 && Stands(d, x, b, Pow2(j) * k)
  {
    hide Stands, Reduce;
    x := x0;
    var n := j - 1;
    ghost var done := 0;
    while n >= 0
      invariant n == j - 1 - done && 0 <= done <= j
      invariant Pow2(done) * k >= 0 && Stands(d, x, b, Pow2(done) * k)
    {
      StandsProduct(d, x, x, b, Pow2(done) * k, Pow2(done) * k);
      Associate(2, Pow2(done), k);
      x := Reduce(d, x * x);
      n := n - 1;
      done := done + 1;
    }
  }

  /** c = 2^j (2q + 1) */
  method StripZeros(c0: Limb) returns (c: Limb, j: nat)
    requires c0 > 0
    ensures c % 2 == 1 && c0 == Pow2(j) * c && 1 <= c <= c0
  {
    c, j := c0, 0;
    while c % 2 == 0
      invariant c > 0 && c0 == Pow2(j) * c && c <= c0
      decreases c
    {
      Associate(Pow2(j), 2, c / 2);
      c := c / 2;
      j := j + 1;
    }
  }

  ghost predicate Table(d: Reducer, gp: array<int>, n: int, b: int)
    requires Usable(d) && 0 <= n <= gp.Length
    reads gp
  {
    forall t :: 0 <= t < n ==> Stands(d, gp[t], b, 2 * t + 1)
  }

  /** The odd powers b, b^3, b^5, ... */
  method OddPowers(d: Reducer, first: int, bigK: nat, ghost b: int) returns (gp: array<int>)
    requires Usable(d) && Stands(d, first, b, 1) && bigK >= 2
    ensures fresh(gp) && gp.Length == bigK / 2 && Table(d, gp, bigK / 2, b)
  {
    hide Stands, Reduce;
    gp := new int[bigK / 2];
    gp[0] := first;
    StandsProduct(d, first, first, b, 1, 1);
    var xp := Reduce(d, gp[0] * gp[0]);
    var i := 1;
    while i < bigK / 2
      invariant 1 <= i <= bigK / 2 && Stands(d, xp, b, 2)
      invariant Table(d, gp, i, b)
    {
      StandsProduct(d, gp[i - 1], xp, b, 2 * (i - 1) + 1, 2);
      gp[i] := Reduce(d, gp[i - 1] * xp);
      i := i + 1;
    }
  }

  /** Times the odd power c of the table. */
  method TableProduct(d: Reducer, gp: array<int>, x0: int, c: nat, ghost b: int, ghost k: nat) returns (x: int)
    requires Usable(d) && Stands(d, x0, b, k) && c % 2 == 1 && c / 2 < gp.Length && Table(d, gp, gp.Length, b)
    ensures Stands(d, x, b, k + c)
  {
    hide Stands, Reduce;
    StandsProduct(d, x0, gp[c / 2], b, k, c);
    x := Reduce(d, x0 * gp[c / 2]);
  }

  /** A window of l bits with value c is worked into the power. */
  method ApplyWindow(d: Reducer, gp: array<int>, x0: int, c0: Limb, l0: nat, ghost b: int, ghost k: nat) returns (x: int)
    requires Usable(d) && Stands(d, x0, b, k) && 1 <= l0 && c0 < Pow2(l0)
    requires gp.Length >= Pow2(l0 - 1) && Table(d, gp, gp.Length, b)
    ensures Pow2(l0) * k >= 0 && Stands(d, x, b, Pow2(l0) * k + c0)
  {
    hide Stands, Reduce, Table, Pow2;
    var j: nat;
    if c0 != 0 {
      var c;
      c, j := StripZeros(c0);
      WindowParts(c0, c, j, l0);
      var l := l0 - j;
      x := SquareTimes(d, x0, l, b, k);
      x := TableProduct(d, gp, x, c, b, Pow2(l) * k);
      Pow2Add(j, l);
      WindowExponent(Pow2(j), Pow2(l), k, c);
      x := SquareTimes(d, x, j, b, Pow2(l) * k + c);
    } else {
      j := l0;
      x := SquareTimes(d, x0, j, b, k);
    }
  }

  lemma WindowExponent(p: int, q: int, k: int, c: int)
    ensures p * (q * k + c) == (p * q) * k + p * c
  {
    Associate(p, q, k);
  }

  lemma WindowParts(c0: nat, c: nat, j: nat, l: nat)
    requires c0 == Pow2(j) * c && c % 2 == 1 && c0 < Pow2(l) && l >= 1
    ensures j < l && c / 2 < Pow2(l - 1)
  {
    MulLe(Pow2(j), 1, c);
    Pow2Less(j, l);
    MulLe(c, 1, Pow2(j));
    Commute(c, Pow2(j));
  }

  lemma {:induction false} Pow2Less(j: nat, l: nat)
    requires Pow2(j) < Pow2(l)
    ensures j < l
  {
    if l > 0 && j > 0 {
      Pow2Less(j - 1, l - 1);
    }
  }

  // The whole power.

  /** Window width and its power of two for an exponent of enb bits. */
  method WindowWidth(enb: nat) returns (smallK: nat, bigK: nat)
    ensures 1 <= smallK <= 10 && bigK == Pow2(smallK)
  {
    smallK, bigK := 1, 2;
    while !(smallK == 10 || 2 * enb <= bigK * (2 + smallK * (3 + smallK)))
      invariant 1 <= smallK <= 10 && bigK == Pow2(smallK)
      decreases 10 - smallK
    {
      smallK := smallK + 1;
      bigK := bigK * 2;
    }
  }

  /** The topmost window; it is never zero. */
  method FetchFirst(e: array<Limb>, en: nat, smallK: nat, eZeroCnt: nat) returns (i: int, sh: int, c: Limb)
    requires 1 <= en <= e.Length && e[en - 1] > 0 && eZeroCnt == LeadingZeros(e[en - 1]) && 1 <= smallK <= 10
    ensures Scanning(i, sh, en) && 0 < c < Pow2(smallK)
    ensures Position(i, sh) >= 0 && Down(Number(e, en), Position(i, sh)) == c
  {
    hide Down, Pow2, Val, Shl, Shr, Or;
    ghost var s := e[..en];
    TopLimb(s, eZeroCnt);
    i := en - 1;
    c := e[i];
    sh := 32 - eZeroCnt;
    sh := sh - smallK;
    if sh < 0 {
      if i > 0 {
        FirstCrossing(s, i, sh + smallK, smallK);
        i := i - 1;
        c := Shl(c, -sh);
        sh := sh + 32;
        c := Or(c, Shr(e[i], sh));
      } else {
        FirstShort(s, 32 - eZeroCnt, smallK);
      }
    } else {
      FirstPlain(s, sh, smallK);
      c := Shr(c, sh);
    }
  }

  lemma TopLimb(s: seq<Limb>, zeros: nat)
    requires s != [] && s[|s| - 1] > 0 && zeros == LeadingZeros(s[|s| - 1])
    ensures zeros <= 31 && Pow2(31 - zeros) <= s[|s| - 1] < Pow2(32 - zeros)
  {
    hide Pow2;
    Pow2Limb();
    LeadingZerosMeaning(s[|s| - 1], 32);
  }

  lemma FirstPlain(s: seq<Limb>, sh: nat, k: nat)
    requires s != [] && sh + k <= 32 && 1 <= k <= 10 && Pow2(sh + k - 1) <= s[|s| - 1] < Pow2(sh + k)
    ensures var i := |s| - 1; Val(s) >= 0 && Down(Val(s), 32 * i + sh) == Shr(s[i], sh) && 0 < Shr(s[i], sh) < Pow2(k)
  {
    hide Pow2, Down, Val;
    var i := |s| - 1;
    DownAt(s, i, sh);
    assert s[i + 1..] == [];
    ValNone(s);
    Pow2Add(sh, k);
    Pow2Add(sh, k - 1);
    StrictlyBetween(s[i], Pow2(sh), Pow2(k - 1), Pow2(k));
  }

  lemma StrictlyBetween(x: int, p: int, low: int, high: int)
    requires p >= 1 && p * low <= x < p * high && low >= 1
    ensures 0 < x / p < high
  {
    var h := x / p;
    assert x == p * h + x % p;
    if h <= 0 { MulLe(p, h, 0); MulLe(p, 1, low); }
    if h >= high { MulLe(p, high, h); }
  }

  lemma FirstShort(s: seq<Limb>, bits: nat, k: nat)
    requires |s| == 1 && 1 <= bits < k <= 10 && s[0] < Pow2(bits)
    ensures Val(s) >= 0 && Down(Val(s), 0) == s[0] && s[0] < Pow2(k)
  {
    assert s == [s[0]];
    ValOne(s[0]);
    Pow2Add(bits, k - bits);
    MulLe(Pow2(bits), 1, Pow2(k - bits));
  }

  lemma FirstCrossing(s: seq<Limb>, i: nat, bits: nat, k: nat)
    requires |s| == i + 1 && i >= 1 && 1 <= bits < k <= 10 && 1 <= s[i] < Pow2(bits)
    ensures var sh := bits - k + 32; var c := Or(Shl(s[i], 32 - sh), Shr(s[i - 1], sh));
      Val(s) >= 0 && 0 < c < 0x1_0000_0000 && Down(Val(s), 32 * (i - 1) + sh) == c < Pow2(k)
  {
    hide Pow2, Down, Val, Shl, Shr, Or;
    var sh := bits - k + 32;
    DownAt(s, i - 1, sh);
    assert s[i..] == [s[i]];
    ValOne(s[i]);
    ShiftedJoin(s[i], s[i - 1], k - bits);
    ShiftParts(s[i], k - bits);
    ShiftParts(s[i - 1], k - bits);
    Pow2Add(bits, k - bits);
    Pow2Add(k - bits, 32 - (k - bits));
    Pow2Limb();
    SmallPow2(k);
    FitsAbove(s[i], Pow2(bits), Pow2(k - bits), Shr(s[i - 1], sh), Shl(s[i], k - bits), Shr(s[i], 32 - (k - bits)));
  }

  lemma FitsAbove(x: int, m: int, p: int, low: int, left: int, out: int)
    requires 1 <= x < m && p >= 1 && m * p <= 1024 && 0 <= low < p
    requires x * p == left + 0x1_0000_0000 * out && out >= 0 && left >= 0
    ensures left == p * x && 0 < left + low < m * p
  {
    Commute(x, p);
    MulLe(p, 1, x);
    MulLe(p, x, m - 1);
    Distribute(p, m);
    Commute(p, m);
  }

  /** The sliding window over the whole exponent: base^e in residues. */
  method SlideWindows(d: Reducer, first: int, e: array<Limb>, en: nat, ghost b: int) returns (x: int)
    requires Usable(d) && Stands(d, first, b, 1)
    requires 1 <= en <= e.Length && e[en - 1] > 0
    ensures Stands(d, x, b, Number(e, en))
  {
    hide Stands, Reduce, Pow2, Down, Val, Table, Number;
    var eZeroCnt := LeadingZeros(e[en - 1]);
    TopLimb(e[..en], eZeroCnt);
    var smallK, bigK := WindowWidth(en * 32 - eZeroCnt);
    Pow2Half(smallK);
    var gp := OddPowers(d, first, bigK, b);
    var i, sh, c := FetchFirst(e, en, smallK, eZeroCnt);
    ghost var ex := Number(e, en);
    x := FirstPower(d, gp, c, smallK, b);
    while !(i <= 0 && sh <= 0)
      invariant Scanning(i, sh, en) && Position(i, sh) >= 0 && Number(e, en) == ex
      invariant Table(d, gp, gp.Length, b)
      invariant Stands(d, x, b, Down(ex, Position(i, sh)))
      decreases Position(i, sh)
    {
      x, i, sh := NextPower(d, gp, e, en, x, i, sh, smallK, b);
    }
    DownAll(ex);
  }

  lemma DownAll(e: nat)
    ensures Down(e, 0) == e
  {
  }

  lemma Pow2Half(k: nat)
    requires k >= 1
    ensures Pow2(k) / 2 == Pow2(k - 1) && Pow2(k) >= 2
  {
  }

  method FirstPower(d: Reducer, gp: array<int>, c0: Limb, smallK: nat, ghost b: int) returns (x: int)
    requires Usable(d) && 0 < c0 < Pow2(smallK) && smallK >= 1
    requires gp.Length == Pow2(smallK - 1) && Table(d, gp, gp.Length, b)
    ensures Stands(d, x, b, c0)
  {
    hide Stands;
    var c, j := StripZeros(c0);
    WindowParts(c0, c, j, smallK);
    x := SquareTimes(d, gp[c / 2], j, b, c);
  }

  /** While the window begins with a zero bit, square and take in the next bit instead. */
  method SlideBits(d: Reducer, e: array<Limb>, en: nat, x0: int, i0: int, sh0: int, c0: Limb, l: nat, ghost b: int, ghost k0: nat)
    returns (x: int, i: int, sh: int, c: Limb, ghost k: nat)
    requires Usable(d) && en <= e.Length && Scanning(i0, sh0, en) && 1 <= l <= 10 && c0 < Pow2(l)
    requires Stands(d, x0, b, k0) && Down(Number(e, en), Position(i0, sh0)) == Pow2(l) * k0 + c0
    ensures Scanning(i, sh, en) && 0 <= Position(i, sh) <= Position(i0, sh0) && c < Pow2(l)
    ensures Stands(d, x, b, k) && Down(Number(e, en), Position(i, sh)) == Pow2(l) * k + c
    ensures Shr(c, l - 1) != 0 || (i <= 0 && sh <= 0)
  {
    hide Stands, Reduce, Pow2, Down, Number;
    SmallPow2(l);
    Pow2Positive(l);
    x, i, sh, c, k := x0, i0, sh0, c0, k0;
    while !(Shr(c, l - 1) != 0 || (i <= 0 && sh <= 0))
      invariant Scanning(i, sh, en) && 0 <= Position(i, sh) <= Position(i0, sh0) && c < Pow2(l)
      invariant Stands(d, x, b, k)
      invariant Down(Number(e, en), Position(i, sh)) == Pow2(l) * k + c
      decreases Position(i, sh)
    {
      TopClear(c, l);
      StandsProduct(d, x, x, b, k, k);
      x := Reduce(d, x * x);
      i, sh, c := NextBit(e, en, i, sh, c);
      DoubleTimes(Pow2(l), k);
      k := k + k;
    }
  }

  lemma DoubleTimes(p: int, k: int)
    ensures p * (k + k) == 2 * (p * k)
  {
  }

  /** One round of the main loop. */
  method NextPower(d: Reducer, gp: array<int>, e: array<Limb>, en: nat, x0: int, i0: int, sh0: int, smallK: nat, ghost b: int)
    returns (x: int, i: int, sh: int)
    requires Usable(d) && en <= e.Length && 1 <= smallK <= 10
    requires gp.Length == Pow2(smallK - 1) && Table(d, gp, gp.Length, b)
    requires Scanning(i0, sh0, en) && !(i0 <= 0 && sh0 <= 0)
    requires Stands(d, x0, b, Down(Number(e, en), Position(i0, sh0)))
    ensures Scanning(i, sh, en) && 0 <= Position(i, sh) < Position(i0, sh0)
    ensures Stands(d, x, b, Down(Number(e, en), Position(i, sh)))
  {
    hide Stands, Reduce, Pow2, Down, Table, Number;
    ghost var ex := Number(e, en);
    ghost var k := Down(ex, Position(i0, sh0));
    var l, c;
    i, sh, l, c := FetchWindow(e, en, i0, sh0, smallK);
    SmallerTable(l, smallK);
    x, i, sh, c, k := SlideBits(d, e, en, x0, i, sh, c, l, b, k);
    x := ApplyWindow(d, gp, x, c, l, b, k);
  }

  lemma Pow2Positive(l: nat)
    requires l >= 1
    ensures Pow2(l) == 2 * Pow2(l - 1)
  {
  }

  lemma SmallerTable(l: nat, k: nat)
    requires 1 <= l <= k
    ensures Pow2(l - 1) <= Pow2(k - 1)
  {
    Pow2Add(l - 1, k - l);
    MulLe(Pow2(l - 1), 1, Pow2(k - l));
  }

  lemma TopClear(c: Limb, l: nat)
    requires 1 <= l && Shr(c, l - 1) == 0
    ensures c < Pow2(l - 1)
  {
    hide Pow2;
    var p := Pow2(l - 1);
    assert c == p * (c / p) + c % p;
  }

  /** m shifted until its top bit is set, or as it is for Montgomery reduction. */
  function ReducerFor(m: nat, mn: nat, zeros: nat, neg: nat): Reducer
  {
    if UseRedc(m, mn) then Montgomery(m, Radix(mn), neg) else Division(m * Pow2(zeros))
  }

  predicate UseRedc(m: nat, mn: nat)
  {
    mn < 170 && m % 2 != 0
  }

  /** B^n */
  function Radix(n: nat): (r: int)
    ensures r >= 1
  {
    ShiftLess(0, 1, n);
    ShiftZero(n);
    Shift(1, n)
  }

  ghost predicate Invertible(m: nat, mn: nat, neg: nat)
  {
    UseRedc(m, mn) ==> (m * neg + 1) % Radix(mn) == 0
  }

  /**
    base to the power e modulo m, for m in the limbs of mp. neg is minus the inverse of m
    modulo B^mn, for the modulus that Montgomery reduction is used for.
   */
  method PowM(base: int, e: array<Limb>, en: nat, mp: array<Limb>, mn: nat, neg: nat) returns (r: int)
    requires en <= e.Length && (en > 0 ==> e[en - 1] > 0)
    requires 1 <= mn <= mp.Length && mp[mn - 1] > 0
    requires Invertible(Number(mp, mn), mn, neg)
    ensures Number(mp, mn) >= 1 && r == Pow(base, Number(e, en)) % Number(mp, mn)
  {
    hide Stands, Reduce, Pow, Val, Shift, Pow2, Usable, ReducerFor, Invertible, Radix;
    var m: nat := Number(mp, mn);
    ModulusBound(mp[..mn]);
    if en == 0 {
      PowerZero(base, e[..en], mp[..mn]);
      return if mn == 1 && mp[0] == 1 then 0 else 1;
    }
    var zeros := LeadingZeros(mp[mn - 1]);
    var b := if base < 0 then -base else base;
    var d := ReducerFor(m, mn, zeros, neg);
    ReducerUsable(m, mn, zeros, neg);
    var first := if d.Montgomery? then (b % m * d.r) % m else b % d.m;
    FirstStands(d, b, first);
    var x := SlideWindows(d, first, e, en, b);
    r := FromResidue(d, x, m, zeros, b, Number(e, en));
    LowLimbParity(e[..en]);
    AdjustSign(base, Number(e, en), m, r);
    if e[0] % 2 != 0 && base < 0 && r != 0 {
      r := m - r;
    }
  }

  /** The power itself from its residue. */
  method FromResidue(d: Reducer, x: int, m: nat, zeros: nat, ghost b: int, ghost k: nat) returns (r: int)
    requires m >= 1 && Usable(d) && Stands(d, x, b, k)
    requires d.m == if d.Montgomery? then m else m * Pow2(zeros)
    ensures r == Pow(b, k) % m
  {
    hide Reduce, Pow, Pow2;
    if d.Montgomery? {
      r := Reduce(d, x);
      LastReduction(d, x, b, k);
      if r >= m {
        r := r - m;
      }
      LastSubtraction(Reduce(d, x), Pow(b, k), m);
    } else {
      r := x;
      ShiftedRemainder(x, Pow(b, k), m, Pow2(zeros));
      if zeros != 0 {
        r := ((x * Pow2(zeros)) % d.m) / Pow2(zeros);
      } else {
        NoShift(m);
      }
    }
  }

  lemma NoShift(m: int)
    ensures Pow2(0) == 1 && m * Pow2(0) == m
  {
  }

  lemma LastReduction(d: Reducer, x: int, b: int, k: nat)
    requires Usable(d) && d.Montgomery? && Stands(d, x, b, k)
    ensures 0 <= Reduce(d, x) <= d.m && Congruent(Reduce(d, x), Pow(b, k), d.m)
  {
    hide Reduce, Pow;
    Commute(d.r, d.r);
    MulLe(d.r, 1, d.r);
    ReduceMeaning(d, x);
    var inverse := RadixInverse(d);
    Transitive(Reduce(d, x) * d.r, x, Pow(b, k) * d.r, d.m);
    Cancel(Reduce(d, x), Pow(b, k), d.r, inverse, d.m);
  }

  lemma LastSubtraction(x: int, p: int, m: int)
    requires m >= 1 && 0 <= x <= m && Congruent(x, p, m)
    ensures (if x >= m then x - m else x) == p % m
  {
    if x == m {
      DivModUnique(x, m, 1, 0);
    } else {
      DivModUnique(x, m, 0, x);
    }
  }

  /** A remainder by a multiple m q of m, brought down to a remainder by m. */
  lemma ShiftedRemainder(x: int, p: int, m: int, q: int)
    requires m >= 1 && q >= 1 && m * q >= 1 && 0 <= x < m * q && Congruent(x, p * 1, m * q)
    ensures ((x * q) % (m * q)) / q == p % m
    ensures q == 1 ==> x == p % m
  {
    var k := ToMultiple(x, p, m * q);
    Associate(m, q, k);
    FromMultiple(x, p, m, q * k);
    var h, l := x / m, x % m;
    assert x == m * h + l;
    assert x * q == (m * q) * h + l * q;
    MulNonNegative(l, q);
    MulLe(q, l, m - 1);
    Commute(q, l);
    Commute(q, m);
    Distribute(q, m);
    DivModUnique(x * q, m * q, h, l * q);
    DivModUnique(l * q, q, l, 0);
    if q == 1 {
      DivModUnique(x, m, 0, x);
    }
  }

  lemma ModulusBound(s: seq<Limb>)
    requires s != [] && s[|s| - 1] > 0
    ensures 1 <= Val(s) < Radix(|s|)
  {
    ValBound(s);
    var n := |s| - 1;
    ValBound(s[..n]);
    assert s == s[..n] + [s[n]];
    ValSnoc(s[..n], s[n]);
    ShiftLess(0, s[n], n);
    ShiftZero(n);
  }

  lemma ReducerUsable(m: nat, mn: nat, zeros: nat, neg: nat)
    requires 1 <= m < Radix(mn) && Invertible(m, mn, neg)
    ensures var d := ReducerFor(m, mn, zeros, neg);
      Usable(d) && d.m == if d.Montgomery? then m else m * Pow2(zeros)
  {
    MulLe(m, 1, Pow2(zeros));
  }

  lemma FirstStands(d: Reducer, b: nat, first: int)
    requires Usable(d) && first == if d.Montgomery? then (b % d.m * d.r) % d.m else b % d.m
    ensures Stands(d, first, b, 1)
  {
    assert Pow(b, 1) == b * 1;
    ModTwice(b, d.m);
    if d.Montgomery? {
      ModTwice(b % d.m * d.r, d.m);
      Product(b % d.m, b, d.r, d.r, d.m);
    }
  }

  lemma PowerZero(b: int, e: seq<Limb>, s: seq<Limb>)
    requires e == [] && s != [] && s[|s| - 1] > 0
    ensures Val(s) >= 1 && Pow(b, Val(e)) % Val(s) == if |s| == 1 && s[0] == 1 then 0 else 1
  {
    ModulusBound(s);
    assert Val(s) == 1 ==> |s| == 1 && s[0] == 1 by {
      var n := |s| - 1;
      if n > 0 {
        assert s == s[..n] + [s[n]];
        ValSnoc(s[..n], s[n]);
        ValBound(s[..n]);
        ShiftCons(s[n], n - 1);
        ShiftLess(0, s[n], n - 1);
        ShiftZero(n - 1);
      } else {
        assert s == [s[0]];
        ValOne(s[0]);
      }
    }
    if |s| == 1 {
      assert s == [s[0]];
      ValOne(s[0]);
    }
    DivModUnique(1, Val(s), if Val(s) == 1 then 1 else 0, if Val(s) == 1 then 0 else 1);
  }

  lemma LowLimbParity(s: seq<Limb>)
    requires s != []
    ensures Val(s) % 2 == s[0] % 2
  {
    var v := Val(s[1..]);
    assert Val(s) == s[0] + 0x1_0000_0000 * v;
    hide Val;
    DivModUnique(Val(s), 2, s[0] / 2 + 0x8000_0000 * v, s[0] % 2);
  }

  /** An odd power of a negative base. */
  lemma AdjustSign(base: int, k: nat, m: int, r: int)
    requires m >= 1 && r == Pow(if base < 0 then -base else base, k) % m
    ensures Pow(base, k) % m == if k % 2 != 0 && base < 0 && r != 0 then m - r else r
  {
    if base < 0 {
      PowNegative(-base, k);
      var p := Pow(-base, k);
      if k % 2 != 0 {
        assert p == m * (p / m) + r;
        if r == 0 {
          assert m * -(p / m) == -(m * (p / m));
          DivModUnique(-p, m, -(p / m), 0);
        } else {
          assert m * (-(p / m) - 1) == -(m * (p / m)) - m;
          DivModUnique(-p, m, -(p / m) - 1, m - r);
        }
      }
    }
  }

  // powm_ui: an exponent of one limb.

  /** A double-length result is only divided when it may reach the modulus. */
  function Shorten(t: nat, mn: nat, d: nat): nat
    requires mn >= 1 && d >= 1
  {
    if t < Radix(mn - 1) then t else t % d
  }

  method PowMUi(base: int, el: Limb, mp: array<Limb>, mn: nat) returns (r: int)
    requires 1 <= mn <= mp.Length && mp[mn - 1] > 0
    ensures Number(mp, mn) >= 1 && r == Pow(base, el) % Number(mp, mn)
  {
    hide Pow, Val, Shift, Pow2, Radix, Shl, Shorten, Down, Congruent;
    var m: nat := Number(mp, mn);
    ModulusBound(mp[..mn]);
    if el == 0 {
      assert Val([]) == 0 by { ValNone([]); }
      PowerZero(base, [], mp[..mn]);
      return if mn == 1 && mp[0] == 1 then 0 else 1;
    }
    var zeros := LeadingZeros(mp[mn - 1]);
    TopLimb(mp[..mn], zeros);
    var d := m * Pow2(zeros);
    ShiftedModulus(mp[..mn], zeros);
    var size: nat := if base < 0 then -base else base;
    var b := if size >= Radix(mn) then size % d else size;
    SameRemainder(size, d);
    if b == 0 {
      PowOfMultiple(size, el, d);
      RemainderDown(0, Pow(size, el), m, Pow2(zeros));
      r := 0;
    } else {
      var x := BinaryScan(b, el, mn, d);
      PowCongruent(b, size, el, d);
      Transitive(x, Pow(b, el), Pow(size, el), d);
      r := ShiftBack(x, m, zeros, mn, Pow(size, el));
    }
    AdjustSign(base, el, m, r);
    if el % 2 != 0 && base < 0 && r != 0 {
      r := m - r;
    }
  }

  /** The binary scan from the bit below the topmost one. */
  method BinaryScan(b: nat, el: Limb, mn: nat, d: nat) returns (x: nat)
    requires el > 0 && mn >= 1 && Radix(mn - 1) <= d && b < Radix(mn) && d < Radix(mn) <= 2 * d
    ensures x < d && Congruent(x, Pow(b, el), d)
  {
    hide Pow, Radix, Shl, Pow2, Down, Congruent, Shorten;
    x := b;
    var c := LeadingZeros(el);
    TopBitOf(el);
    var e := Shl(Shl(el, c), 1);
    c := 31 - c;
    PowerOne(b);
    DownAll(el);
    Reflexive(b, d);
    if c == 0 && x >= Radix(mn - 1) && x >= d {
      x := x - d;
      MinusModulus(x, b, d);
      return;
    }
    while c != 0
      invariant 0 <= c <= 31 && e == Shl(el, 32 - c)
      invariant Congruent(x, Pow(b, Down(el, c)), d)
      invariant (c == 31 - LeadingZeros(el) && x == b && (c == 0 ==> x < d)) || x < d
    {
      ScanBit(el, c);
      ShortenMeaning(x * x, mn, d);
      Squared(x, b, Down(el, c), d);
      x := Shorten(x * x, mn, d);
      if e >= 0x8000_0000 {
        ShortenMeaning(x * b, mn, d);
        TimesBase(x, b, 2 * Down(el, c), d);
        x := Shorten(x * b, mn, d);
      }
      e := Shl(e, 1);
      c := c - 1;
    }
    DownAll(el);
  }

  lemma ShiftedModulus(s: seq<Limb>, zeros: nat)
    requires s != [] && s[|s| - 1] > 0 && zeros == LeadingZeros(s[|s| - 1])
    ensures var d := Val(s) * Pow2(zeros);
      Val(s) >= 1 && 1 <= Radix(|s| - 1) <= d < Radix(|s|) <= 2 * d
  {
    hide Pow2, Val;
    var n := |s| - 1;
    TopLimb(s, zeros);
    var t, p, q := s[n] as int, Pow2(zeros), Pow2(31 - zeros);
    ModulusBound(s);
    Pow2Positive(32 - zeros);
    Pow2Add(31 - zeros, zeros);
    Pow2Add(1, 31);
    OneBit(0);
    Pow2Limb();
    ShiftedBounds(s, p);
    MulLe(p, q, t);
    MulLe(p, t + 1, 2 * q);
    Ends(p, q, t);
    ShiftOrder(t * p + p, 0x1_0000_0000, n);
    ShiftOrder(0x8000_0000, t * p, n);
    ShiftShift(1, 1, n);
    ShiftOne(1);
    ShiftAdd(0x8000_0000, 0x8000_0000, n);
    ShiftOrder(1, t * p, n);
  }

  /** The top limb decides where a multiple lies. */
  lemma ShiftedBounds(s: seq<Limb>, p: int)
    requires s != [] && p >= 1
    ensures var n := |s| - 1; var t := s[n] as int;
      Shift(t * p, n) <= Val(s) * p < Shift(t * p + p, n)
  {
    hide Val;
    var n := |s| - 1;
    var t := s[n] as int;
    ValBound(s[..n]);
    assert s == s[..n] + [s[n]];
    ValSnoc(s[..n], s[n]);
    SumTimes(Val(s[..n]), Shift(t, n), p);
    ShiftMul(p, t, n);
    Commute(p, Shift(t, n));
    Commute(p, t);
    MulNonNegative(Val(s[..n]), p);
    MulLe(p, Val(s[..n]), Shift(1, n) - 1);
    Commute(p, Val(s[..n]));
    Distribute(p, Shift(1, n));
    ShiftMul(p, 1, n);
    ShiftAdd(t * p, p, n);
  }

  lemma Ends(p: int, q: int, t: int)
    requires q * p == 0x8000_0000 && p * q <= p * t && p * (t + 1) <= p * (2 * q)
    ensures t * p >= 0x8000_0000 && t * p + p <= 0x1_0000_0000
  {
    assert p * (2 * q) == 2 * (q * p);
    assert p * (t + 1) == t * p + p;
  }

  lemma SameRemainder(size: nat, d: nat)
    requires d >= 1
    ensures Congruent(size % d, size, d)
  {
    ModTwice(size, d);
  }

  lemma {:induction false} PowCongruent(b: int, c: int, k: nat, d: nat)
    requires d >= 1 && Congruent(b, c, d)
    ensures Congruent(Pow(b, k), Pow(c, k), d)
  {
    if k > 0 {
      PowCongruent(b, c, k - 1, d);
      Product(b, c, Pow(b, k - 1), Pow(c, k - 1), d);
    }
  }

  lemma PowOfMultiple(size: nat, k: nat, d: nat)
    requires d >= 1 && k >= 1 && Congruent(0, size, d)
    ensures Congruent(0, Pow(size, k), d)
  {
    PowCongruent(0, size, k, d);
  }

  lemma RemainderDown(x: int, p: int, m: int, q: int)
    requires m >= 1 && q >= 1 && m * q >= 1 && Congruent(x, p, m * q)
    ensures Congruent(x, p, m)
  {
    var k := ToMultiple(x, p, m * q);
    Associate(m, q, k);
    FromMultiple(x, p, m, q * k);
  }

  lemma ShortenMeaning(t: nat, mn: nat, d: nat)
    requires mn >= 1 && 1 <= Radix(mn - 1) <= d
    ensures Shorten(t, mn, d) == t % d < d
  {
    hide Radix;
    if t < Radix(mn - 1) {
      DivModUnique(t, d, 0, t);
    }
  }

  /** The normalizing shift of the modulus is taken back. */
  method ShiftBack(x: nat, m: nat, zeros: nat, mn: nat, ghost p: int) returns (r: int)
    requires m >= 1 && mn >= 1 && 1 <= Radix(mn - 1) <= m * Pow2(zeros)
    requires x < m * Pow2(zeros) && Congruent(x, p, m * Pow2(zeros))
    ensures r == p % m
  {
    hide Pow2, Radix, Shorten;
    ShiftedRemainder(x, p, m, Pow2(zeros));
    ShortenMeaning(x * Pow2(zeros), mn, m * Pow2(zeros));
    if zeros != 0 {
      r := Shorten(x * Pow2(zeros), mn, m * Pow2(zeros)) / Pow2(zeros);
    } else {
      NoShift(m);
      r := x;
    }
  }

  lemma ShlTwice(x: Limb, c: nat)
    ensures Shl(Shl(x, c), 1) == Shl(x, c + 1)
  {
    hide Pow2;
    Pow2Positive(c + 1);
    OneBit(0);
    var y := x * Pow2(c);
    assert x * (2 * Pow2(c)) == 2 * y;
    DoubleRemainder(y);
  }

  lemma DoubleRemainder(y: int)
    ensures (y % 0x1_0000_0000 * 2) % 0x1_0000_0000 == (2 * y) % 0x1_0000_0000
  {
    var q, r := y / 0x1_0000_0000, y % 0x1_0000_0000;
    var over := if 2 * r >= 0x1_0000_0000 then 1 else 0;
    DivModUnique(2 * r, 0x1_0000_0000, over, 2 * r - 0x1_0000_0000 * over);
    DivModUnique(2 * y, 0x1_0000_0000, 2 * q + over, 2 * r - 0x1_0000_0000 * over);
  }

  lemma TopBitOf(el: Limb)
    requires el > 0
    ensures var z := LeadingZeros(el);
      z <= 31 && Shl(Shl(el, z), 1) == Shl(el, z + 1) && Down(el, 31 - z) == 1
  {
    hide Pow2;
    var z := LeadingZeros(el);
    TopLimb([el], z);
    ShlTwice(el, z);
    DownDivides(el, 31 - z);
    Pow2Positive(32 - z);
    DivModUnique(el, Pow2(31 - z), 1, el - Pow2(31 - z));
  }

  lemma ScanBit(el: Limb, c: nat)
    requires 1 <= c <= 31
    ensures Down(el, c - 1) == 2 * Down(el, c) + if Shl(el, 32 - c) >= 0x8000_0000 then 1 else 0
    ensures Shl(Shl(el, 32 - c), 1) == Shl(el, 32 - (c - 1))
  {
    hide Pow2, Down, Shr;
    ShlTwice(el, 32 - c);
    WindowMoves(el, c, 1);
    OneBit(0);
    DownDivides(el, c - 1);
    ShiftParts(el, 32 - c);
    Pow2Positive(c);
    Pow2Add(32 - c, c - 1);
    Pow2Add(31, 1);
    Pow2Limb();
    HalvesOf(el, Pow2(c - 1), Pow2(32 - c));
  }

  lemma HalvesOf(x: int, p: int, q: int)
    requires p >= 1 && q >= 1 && q * p == 0x8000_0000 && x >= 0
    ensures q * (x % (2 * p)) >= 0x8000_0000 <==> (x / p) % 2 == 1
  {
    var h, l := x / p, x % p;
    var k, bit := h / 2, h % 2;
    assert x == p * h + l;
    assert p * h == (2 * p) * k + p * bit;
    MulNonNegative(p, bit);
    DivModUnique(x, 2 * p, k, p * bit + l);
    if bit == 1 {
      MulLe(q, p, p + l);
    } else {
      MulLe(q, l, p - 1);
      Distribute(q, p);
    }
  }

  lemma Reflexive(x: int, d: int)
    requires d >= 1
    ensures Congruent(x, x, d)
  {
  }

  lemma PowerOne(b: int)
    ensures Pow(b, 1) == b
  {
    assert Pow(b, 1) == b * Pow(b, 0);
  }

  lemma MinusModulus(x: int, b: int, d: int)
    requires d >= 1 && x == b - d
    ensures Congruent(x, b, d)
  {
    FromMultiple(x, b, d, -1);
  }

  lemma Squared(x: int, b: int, k: nat, d: int)
    requires d >= 1 && Congruent(x, Pow(b, k), d)
    ensures Congruent((x * x) % d, Pow(b, 2 * k), d)
  {
    hide Pow;
    Product(x, Pow(b, k), x, Pow(b, k), d);
    PowAdd(b, k, k);
    ModTwice(x * x, d);
  }

  lemma TimesBase(x: int, b: int, k: nat, d: int)
    requires d >= 1 && Congruent(x, Pow(b, k), d)
    ensures Congruent((x * b) % d, Pow(b, k + 1), d)
  {
    Product(x, Pow(b, k), b, b, d);
    Commute(b, Pow(b, k));
    ModTwice(x * b, d);
  }
}
