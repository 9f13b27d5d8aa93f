/** Name-value pairs (FastCGI Specification, section 3.4): what ReadParams makes of any encoding of any list. */
module FcgiPairs {
  import opened FcgiWire

  /** A pair with the choice, for each length below 128, of the one-byte or the four-byte form. */
  datatype Spelled = Spelled(pair: Pair, longName: bool, longValue: bool)

  predicate Spellable(p: Spelled)
  {
    && |p.pair.name| < 0x8000_0000 && (p.longName || |p.pair.name| < 128)
    && |p.pair.value| < 0x8000_0000 && (p.longValue || |p.pair.value| < 128)
  }

  function EncodeLength(n: nat, long: bool): (s: seq<Byte>)
    requires n < 0x8000_0000 && (long || n < 128)
    ensures |s| == if long then 4 else 1
  {
    if long then [128 + n / 0x100_0000, n / 0x1_0000 % 256, n / 0x100 % 256, n % 256] else [n]
  }

  function EncodePair(p: Spelled): (s: seq<Byte>)
    requires Spellable(p)
    ensures |s| >= 2 + |p.pair.name| + |p.pair.value|
  {
    EncodeLength(|p.pair.name|, p.longName) + EncodeLength(|p.pair.value|, p.longValue) + p.pair.name + p.pair.value
  }

  predicate AllSpellable(ps: seq<Spelled>)
  {
    forall i :: 0 <= i < |ps| ==> Spellable(ps[i])
  }

  function EncodePairs(ps: seq<Spelled>): seq<Byte>
    requires AllSpellable(ps)
  {
    if ps == [] then [] else EncodePair(ps[0]) + EncodePairs(ps[1..])
  }

  function Plain(ps: seq<Spelled>): (s: seq<Pair>)
    ensures |s| == |ps|
  {
    if ps == [] then [] else [ps[0].pair] + Plain(ps[1..])
  }

  lemma LengthRoundTrip(n: nat, long: bool, rest: seq<Byte>)
    requires n < 0x8000_0000 && (long || n < 128)
    ensures DecodeLength(EncodeLength(n, long) + rest) == Length(n, rest)
  {
    var s := EncodeLength(n, long) + rest;
    if long {
      assert s[0] == 128 + n / 0x100_0000 && s[1] == n / 0x1_0000 % 256 && s[2] == n / 0x100 % 256 && s[3] == n % 256;
      assert s[4..] == rest;
      FourBytes(n);
    } else {
      assert s[1..] == rest;
    }
  }

  /** The encoding of a pair, byte by byte: the length of the name, that of the value, the name, the value. */
  lemma PairOnWire(p: Spelled)
    requires Spellable(p)
    ensures var s, nl := EncodePair(p), if p.longName then 4 else 1;
      var vl := nl + if p.longValue then 4 else 1;
      && |s| == vl + |p.pair.name| + |p.pair.value| && s[vl..vl + |p.pair.name|] == p.pair.name && s[vl + |p.pair.name|..] == p.pair.value
      && LengthOnWire(s[..nl], |p.pair.name|) && LengthOnWire(s[nl..vl], |p.pair.value|)
  {
    hide EncodeLength;
    var nl, vl := EncodeLength(|p.pair.name|, p.longName), EncodeLength(|p.pair.value|, p.longValue);
    LengthSpelled(|p.pair.name|, p.longName);
    LengthSpelled(|p.pair.value|, p.longValue);
    assert EncodePair(p)[..|nl|] == nl && EncodePair(p)[|nl|..|nl| + |vl|] == vl;
  }

  /** One byte below 128, or four with the top bit set. */
  predicate LengthOnWire(b: seq<Byte>, n: int)
  {
    (|b| == 1 && b[0] == n < 128) || (|b| == 4 && BigEndian(b) == 0x8000_0000 + n)
  }

  lemma LengthSpelled(n: nat, long: bool)
    requires n < 0x8000_0000 && (long || n < 128)
    ensures LengthOnWire(EncodeLength(n, long), n)
  {
    if long {
      FourBytes(n);
    }
  }

  /** Less than a whole length. */
  lemma LengthTruncated(n: nat, long: bool, k: nat)
    requires n < 0x8000_0000 && (long || n < 128) && k < |EncodeLength(n, long)|
    ensures DecodeLength(EncodeLength(n, long)[..k]).NoLength?
  {
  }

  lemma TextsApart(name: seq<Byte>, value: seq<Byte>, rest: seq<Byte>)
    ensures var body := name + value + rest;
      body[..|name|] == name && body[|name|..|name| + |value|] == value && body[|name| + |value|..] == rest
  {
  }

  lemma PairRoundTrip(p: Spelled, rest: seq<Byte>)
    requires Spellable(p)
    ensures DecodePair(EncodePair(p) + rest) == OnePair(p.pair, rest)
  {
    hide DecodeLength, EncodeLength;
    var nl, vl := EncodeLength(|p.pair.name|, p.longName), EncodeLength(|p.pair.value|, p.longValue);
    var body := p.pair.name + p.pair.value + rest;
    assert EncodePair(p) + rest == nl + (vl + body);
    LengthRoundTrip(|p.pair.name|, p.longName, vl + body);
    LengthRoundTrip(|p.pair.value|, p.longValue, body);
    TextsApart(p.pair.name, p.pair.value, rest);
  }

  /** Less than a whole pair. */
  lemma PairTruncated(p: Spelled, k: nat)
    requires Spellable(p) && k < |EncodePair(p)|
    ensures DecodePair(EncodePair(p)[..k]).NoPair?
  {
    hide DecodeLength, EncodeLength;
    var nl, vl := EncodeLength(|p.pair.name|, p.longName), EncodeLength(|p.pair.value|, p.longValue);
    var body := p.pair.name + p.pair.value;
    var s := EncodePair(p)[..k];
    assert EncodePair(p) == nl + (vl + body);
    if k < |nl| {
      assert s == nl[..k];
      LengthTruncated(|p.pair.name|, p.longName, k);
    } else {
      var k' := k - |nl|;
      assert s == nl + (vl + body)[..k'];
      LengthRoundTrip(|p.pair.name|, p.longName, (vl + body)[..k']);
      if k' < |vl| {
        assert (vl + body)[..k'] == vl[..k'];
        LengthTruncated(|p.pair.value|, p.longValue, k');
      } else {
        assert (vl + body)[..k'] == vl + body[..k' - |vl|];
        LengthRoundTrip(|p.pair.value|, p.longValue, body[..k' - |vl|]);
      }
    }
  }

  /** Whole pairs, and then w. */
  lemma {:induction false} PairsThen(ps: seq<Spelled>, w: seq<Byte>)
    requires AllSpellable(ps)
    ensures var d := DecodePairs(w); DecodePairs(EncodePairs(ps) + w) == Decoded(Plain(ps) + d.pairs, d.complete)
    decreases |ps|
  {
    hide DecodePair, EncodePair;
    if ps == [] {
      assert EncodePairs(ps) + w == w;
      assert [] + DecodePairs(w).pairs == DecodePairs(w).pairs;
    } else {
      var later := EncodePairs(ps[1..]) + w;
      assert EncodePairs(ps) + w == EncodePair(ps[0]) + later;
      PairRoundTrip(ps[0], later);
      PairsThen(ps[1..], w);
      assert [ps[0].pair] + (Plain(ps[1..]) + DecodePairs(w).pairs) == Plain(ps) + DecodePairs(w).pairs;
    }
  }

  lemma PairsRoundTrip(ps: seq<Spelled>)
    requires AllSpellable(ps)
    ensures DecodePairs(EncodePairs(ps)) == Decoded(Plain(ps), true)
  {
    PairsThen(ps, []);
    assert EncodePairs(ps) + [] == EncodePairs(ps) && Plain(ps) + [] == Plain(ps);
  }

  /** Bytes that end inside a pair: the pairs before it are kept, and the decoding is not complete. */
  lemma PairsTruncated(ps: seq<Spelled>, p: Spelled, k: nat)
    requires AllSpellable(ps) && Spellable(p) && 0 < k < |EncodePair(p)|
    ensures DecodePairs(EncodePairs(ps) + EncodePair(p)[..k]) == Decoded(Plain(ps), false)
  {
    PairsThen(ps, EncodePair(p)[..k]);
    PairTruncated(p, k);
    assert Plain(ps) + [] == Plain(ps);
  }
}
