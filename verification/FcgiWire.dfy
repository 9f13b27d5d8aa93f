/**
  The FastCGI byte stream: records (FastCGI Specification, section 3.3), name-value pairs
  (section 3.4), and what a reader with given control state makes of the bytes still to come.
 */
module FcgiWire {

  type Byte = x: int | 0 <= x < 256

  const VERSION_1: Byte := 1
  const HEADER_LEN: nat := 8
  const MAX_LENGTH: nat := 0xffff

  // Record types.
  const BEGIN_REQUEST: Byte := 1
  const END_REQUEST: Byte := 3
  const PARAMS: Byte := 4
  const STDIN: Byte := 5
  const STDOUT: Byte := 6
  const STDERR: Byte := 7
  const GET_VALUES: Byte := 9
  const UNKNOWN_TYPE: Byte := 11

  // FCGX error codes.
  const UNSUPPORTED_VERSION: int := -2
  const PROTOCOL_ERROR: int := -3
  const PARAMS_ERROR: int := -4

  /** A record as sent; the padding bytes are arbitrary. */
  datatype Record = Record(typ: Byte, id: nat, content: seq<Byte>, padding: seq<Byte>)

  predicate WellFormed(r: Record)
  {
    r.id <= 0xffff && |r.content| <= MAX_LENGTH && |r.padding| <= 255
  }

  /** MakeHeader */
  function Header(typ: Byte, id: nat, contentLen: nat, paddingLen: nat): (h: seq<Byte>)
    requires id <= 0xffff && contentLen <= MAX_LENGTH && paddingLen <= 255
    ensures |h| == HEADER_LEN
  {
    [VERSION_1, typ, id / 256, id % 256, contentLen / 256, contentLen % 256, paddingLen, 0]
  }

  function Encode(r: Record): (s: seq<Byte>)
    requires WellFormed(r)
    ensures |s| == HEADER_LEN + |r.content| + |r.padding|
  {
    Header(r.typ, r.id, |r.content|, |r.padding|) + r.content + r.padding
  }

  function EncodeAll(rs: seq<Record>): seq<Byte>
    requires forall i :: 0 <= i < |rs| ==> WellFormed(rs[i])
  {
    if rs == [] then [] else Encode(rs[0]) + EncodeAll(rs[1..])
  }

  const REQUEST_COMPLETE: Byte := 0
  const CANT_MPX_CONN: Byte := 1

  /** MakeEndRequestBody; the status is taken byte by byte from its 32-bit two's complement. */
  function EndRequestBody(appStatus: int, protocolStatus: Byte): (b: seq<Byte>)
    ensures |b| == 8
  {
    var s := appStatus % 0x1_0000_0000;
    [s / 0x100_0000 % 256, s / 0x1_0000 % 256, s / 0x100 % 256, s % 256, protocolStatus, 0, 0, 0]
  }

  function EndRequest(id: nat, appStatus: int, protocolStatus: Byte): (r: Record)
    requires id <= 0xffff
    ensures WellFormed(r)
  {
    Record(END_REQUEST, id, EndRequestBody(appStatus, protocolStatus), [])
  }

  /** The answer to a BEGIN_REQUEST while another request is open. */
  function Refusal(id: nat): seq<Byte>
    requires id <= 0xffff
  {
    Encode(EndRequest(id, 0, CANT_MPX_CONN))
  }

  /** The answer to a management record other than GET_VALUES. */
  function UnknownType(typ: Byte): (r: Record)
    ensures WellFormed(r)
  {
    Record(UNKNOWN_TYPE, 0, [typ, 0, 0, 0, 0, 0, 0, 0], [])
  }

  function UnknownAnswer(typ: Byte): seq<Byte>
  {
    Encode(UnknownType(typ))
  }

  // The fields of a received header.

  function RequestIdOf(h: seq<Byte>): (id: nat)
    requires |h| == HEADER_LEN
    ensures id <= 0xffff
  {
    (h[2] as int) * 256 + h[3]
  }

  function ContentLenOf(h: seq<Byte>): nat
    requires |h| == HEADER_LEN
  {
    (h[4] as int) * 256 + h[5]
  }

  lemma HeaderFields(typ: Byte, id: nat, contentLen: nat, paddingLen: nat)
    requires id <= 0xffff && contentLen <= MAX_LENGTH && paddingLen <= 255
    ensures var h := Header(typ, id, contentLen, paddingLen);
            && h[0] == 1 && h[1] == typ && RequestIdOf(h) == id && ContentLenOf(h) == contentLen && h[6] == paddingLen && h[7] == 0
            && (h[2] as int) * 256 + h[3] == id && (h[4] as int) * 256 + h[5] == contentLen
  {
  }

  // What the answers are on the wire, byte by byte.

  /** A number of four bytes, most significant byte first. */
  function BigEndian(b: seq<Byte>): int
    requires |b| == 4
  {
    (((b[0] as int) * 256 + b[1]) * 256 + b[2]) * 256 + b[3]
  }

  /** The sixteen bytes of an END_REQUEST record: type 3, the id, eight bytes of content, the status in four of them, and p. */
  predicate EndsOnWire(b: seq<Byte>, id: nat, status: int, p: int)
  {
    && |b| == 16 && b[0] == 1 && b[1] == 3 && (b[2] as int) * 256 + b[3] == id && b[4..8] == [0, 8, 0, 0]
    && BigEndian(b[8..12]) == status % 0x1_0000_0000 && b[12] == p && b[13..] == [0, 0, 0]
  }

  lemma EndRequestOnWire(id: nat, status: int, p: Byte)
    requires id <= 0xffff
    ensures EndsOnWire(Encode(EndRequest(id, status, p)), id, status, p)
  {
    var b, s := Encode(EndRequest(id, status, p)), status % 0x1_0000_0000;
    FourBytes(s);
    assert s / 0x100_0000 % 256 == s / 0x100_0000;
    assert b[8..12] == [s / 0x100_0000 % 256, s / 0x1_0000 % 256, s / 0x100 % 256, s % 256];
  }

  lemma FourBytes(n: nat)
    ensures n / 0x100_0000 * 0x100_0000 + n / 0x1_0000 % 256 * 0x1_0000 + n / 0x100 % 256 * 0x100 + n % 256 == n
  {
    var a := n / 0x100;
    var b := a / 0x100;
    assert b == n / 0x1_0000 && b / 0x100 == n / 0x100_0000;
    assert n == 0x100 * a + n % 256 && a == 0x100 * b + a % 256 && b == 0x100 * (b / 0x100) + b % 256;
  }

  /** A refusal is an END_REQUEST of status 0 and protocol status 1. */
  lemma RefusalOnWire(id: nat)
    requires id <= 0xffff
    ensures EndsOnWire(Refusal(id), id, 0, 1)
  {
    EndRequestOnWire(id, 0, CANT_MPX_CONN);
  }

  /** Type 11, id 0, and eight bytes of content that begin with the type that is not understood. */
  lemma UnknownOnWire(typ: Byte)
    ensures UnknownAnswer(typ) == [1, 11, 0, 0, 0, 8, 0, 0, typ, 0, 0, 0, 0, 0, 0, 0]
  {
  }

  // Name-value pairs.

  datatype Pair = Pair(name: seq<Byte>, value: seq<Byte>)

  datatype Decoded = Decoded(pairs: seq<Pair>, complete: bool)

  datatype Length = NoLength | Length(n: nat, rest: seq<Byte>)

  function DecodeLength(s: seq<Byte>): (l: Length)
    ensures l.Length? ==> |l.rest| < |s|
  {
    if s == [] then NoLength
    else if s[0] < 0x80 then Length(s[0], s[1..])
    else if |s| < 4 then NoLength
    else Length(((s[0] as int) - 0x80) * 0x100_0000 + (s[1] as int) * 0x1_0000 + (s[2] as int) * 0x100 + s[3], s[4..])
  }

  datatype OnePair = NoPair | OnePair(pair: Pair, rest: seq<Byte>)

  function DecodePair(s: seq<Byte>): (l: OnePair)
    ensures l.OnePair? ==> |l.rest| < |s|
  {
    var nl := DecodeLength(s);
    if nl.NoLength? then NoPair
    else
      var vl := DecodeLength(nl.rest);
      if vl.NoLength? || |vl.rest| < nl.n + vl.n then NoPair
      else OnePair(Pair(vl.rest[..nl.n], vl.rest[nl.n..nl.n + vl.n]), vl.rest[nl.n + vl.n..])
  }

  /** All complete pairs, and whether the bytes end at the boundary of a pair. */
  function DecodePairs(s: seq<Byte>): Decoded
    decreases |s|
  {
    if s == [] then Decoded([], true)
    else
      var first := DecodePair(s);
      if first.NoPair? then Decoded([], false)
      else
        var later := DecodePairs(first.rest);
        Decoded([first.pair] + later.pairs, later.complete)
  }

  const EQUALS: Byte := 61

  /** A standard environment entry. */
  function NameValue(p: Pair): seq<Byte>
  {
    p.name + [EQUALS] + p.value
  }

  function NameValues(ps: seq<Pair>): (s: seq<seq<Byte>>)
    ensures |s| == |ps| && forall i :: 0 <= i < |ps| ==> s[i] == NameValue(ps[i])
  {
    seq(|ps|, i requires 0 <= i < |ps| => NameValue(ps[i]))
  }

  // What becomes of the unread bytes.

  /** The reader's position inside a record. */
  datatype Control = Control(contentLen: nat, paddingLen: nat, skip: bool, eorStop: bool)

  /** What the reader looks for; begun: the request has been accepted. */
  datatype Target = Target(typ: int, id: nat, begun: bool)

  datatype Ending =
    | EndOfStream(rest: seq<Byte>, padding: nat)                          // the empty record of the stream
    | EndOfRecord(rest: seq<Byte>, skip: bool)                            // the end of a record read under eorStop
    | BeginSeen(rest: seq<Byte>, padding: nat, newId: nat, role: nat, keep: bool)
    | Failed(code: int)

  /** The content delivered to the client, why delivery ends, and the bytes sent in answer by then. */
  datatype Outcome = Outcome(data: seq<Byte>, ending: Ending, answers: seq<Byte> := [])

  function Delivering(front: seq<Byte>, o: Outcome): Outcome
  {
    o.(data := front + o.data)
  }

  /** With something sent before. */
  function Answering(sent: seq<Byte>, o: Outcome): (r: Outcome)
    ensures r.data == o.data && r.ending == o.ending && (o.answers == [] ==> r.answers == sent)
  {
    o.(answers := if sent == [] then o.answers else if o.answers == [] then sent else sent + o.answers)
  }

  lemma AnswersAdded(sent: seq<Byte>, o: Outcome)
    ensures Answering(sent, o).answers == sent + o.answers
  {
  }

  lemma AnsweringTwice(a: seq<Byte>, b: seq<Byte>, o: Outcome)
    ensures Answering(a, Answering(b, o)) == Answering(a + b, o)
  {
    if o.answers == [] {
      assert a + [] == a;
    } else {
      assert a + (b + o.answers) == (a + b) + o.answers;
    }
  }

  /** A fill starts by reading when nothing is buffered, so it fails on an exhausted connection. */
  function Fill(u: seq<Byte>, c: Control, t: Target): (o: Outcome)
    ensures o.ending.EndOfRecord? ==> c.eorStop && |o.ending.rest| <= |u|
    ensures c.eorStop ==> o.answers == []
    ensures o.ending.Failed? ==> o.ending.code < 0
    ensures o.ending.BeginSeen? ==> 1 <= o.ending.newId <= 0xffff
    decreases |u|, 1
  {
    if u == [] then Outcome([], Failed(PROTOCOL_ERROR)) else Go(u, c, t)
  }

  /** The unread bytes u under control state c. */
  function Go(u: seq<Byte>, c: Control, t: Target): (o: Outcome)
    ensures o.ending.EndOfRecord? ==> c.eorStop && |o.ending.rest| <= |u|
    ensures c.eorStop ==> o.answers == []
    ensures o.ending.Failed? ==> o.ending.code < 0
    ensures o.ending.BeginSeen? ==> 1 <= o.ending.newId <= 0xffff
    decreases |u|, 0
  {
    if c.contentLen > 0 then
      if |u| < c.contentLen then Outcome(if c.skip then [] else u, Failed(PROTOCOL_ERROR))
      else
        var c' := c.(contentLen := 0, skip := false);
        if c.skip then Go(u[c.contentLen..], c', t)
        else Delivering(u[..c.contentLen], Fill(u[c.contentLen..], c', t))
    else if c.paddingLen > 0 then
      if |u| < c.paddingLen then Outcome([], Failed(PROTOCOL_ERROR))
      else Go(u[c.paddingLen..], c.(paddingLen := 0), t)
    else if c.eorStop then Outcome([], EndOfRecord(u, c.skip))
    else if |u| < HEADER_LEN then Outcome([], Failed(PROTOCOL_ERROR))
    else Interpret(u[..HEADER_LEN], u[HEADER_LEN..], c.skip, t)
  }

  /** A complete header h, with r behind it. */
  function Interpret(h: seq<Byte>, r: seq<Byte>, skip: bool, t: Target): (o: Outcome)
    requires |h| == HEADER_LEN
    ensures !o.ending.EndOfRecord?
    ensures o.ending.Failed? ==> o.ending.code < 0
    ensures o.ending.BeginSeen? ==> 1 <= o.ending.newId <= 0xffff
    decreases |r|, 2
  {
    var id, len, pad: nat := RequestIdOf(h), ContentLenOf(h), h[6];
    if h[0] != VERSION_1 then Outcome([], Failed(UNSUPPORTED_VERSION))
    else if h[1] == BEGIN_REQUEST then
      if id == 0 || len != 8 then Outcome([], Failed(PROTOCOL_ERROR))
      else if t.begun then Answering(Refusal(id), Fill(r, Control(len, pad, true, false), t))
      else if skip || |r| < 8 then Outcome([], Failed(PROTOCOL_ERROR))
      else Outcome([], BeginSeen(r[8..], pad, id, (r[0] as int) * 256 + r[1], r[2] % 2 == 1))
    else if id == 0 then
      if h[1] == GET_VALUES then
        var body := Fill(r, Control(len, pad, skip, true), t);
        if !body.ending.EndOfRecord? then Outcome([], Failed(if body.ending.Failed? then body.ending.code else PROTOCOL_ERROR))
        else if !DecodePairs(body.data).complete then Outcome([], Failed(PARAMS_ERROR))
        else Fill(body.ending.rest, Control(0, 0, body.ending.skip, false), t)
      else Answering(UnknownAnswer(h[1]), Fill(r, Control(len, pad, skip, false), t))
    else if id != t.id then Fill(r, Control(len, pad, true, false), t)
    else if h[1] != t.typ then Outcome([], Failed(PROTOCOL_ERROR))
    else if len == 0 then Outcome([], EndOfStream(r, pad))
    else Fill(r, Control(len, pad, skip, false), t)
  }

  // The same outcome however the bytes are split.

  lemma TakeInParts(u: seq<Byte>, k: nat, m: nat, later: seq<Byte>)
    requires k <= m <= |u|
    ensures u[k..][m - k..] == u[m..] && u[..m] + later == u[..k] + (u[k..][..m - k] + later)
  {
    assert u[..m] == u[..k] + u[k..][..m - k];
  }

  lemma DeliverPart(u: seq<Byte>, c: Control, t: Target, k: nat)
    requires 1 <= k <= |u| && k <= c.contentLen && !c.skip
    ensures Go(u, c, t) == Delivering(u[..k], Fill(u[k..], c.(contentLen := c.contentLen - k), t))
  {
    if k < c.contentLen {
      if |u| < c.contentLen {
        assert u == u[..k] + u[k..];
      } else {
        TakeInParts(u, k, c.contentLen, Fill(u[c.contentLen..], c.(contentLen := 0), t).data);
      }
    }
  }

  lemma SkipPart(u: seq<Byte>, c: Control, t: Target, k: nat)
    requires 1 <= k <= |u| && k <= c.contentLen && c.skip
    ensures Go(u, c, t) == Go(u[k..], c.(contentLen := c.contentLen - k, skip := k < c.contentLen), t)
  {
    if k < c.contentLen && c.contentLen <= |u| {
      assert u[k..][c.contentLen - k..] == u[c.contentLen..];
    }
  }

  lemma PaddingPart(u: seq<Byte>, c: Control, t: Target, k: nat)
    requires k <= |u| && k <= c.paddingLen && c.contentLen == 0 && c.paddingLen > 0
    ensures Go(u, c, t) == Go(u[k..], c.(paddingLen := c.paddingLen - k), t)
  {
    if k < c.paddingLen && c.paddingLen <= |u| {
      assert u[k..][c.paddingLen - k..] == u[c.paddingLen..];
    }
  }

  /** Bytes of a header already taken into the header buffer. */
  lemma HeaderPart(hdr: seq<Byte>, u: seq<Byte>, c: Control, t: Target)
    requires c.contentLen == 0 && c.paddingLen == 0 && !c.eorStop && |hdr + u| >= HEADER_LEN
    ensures Go(hdr + u, c, t) == Interpret((hdr + u)[..HEADER_LEN], (hdr + u)[HEADER_LEN..], c.skip, t)
  {
  }
}
