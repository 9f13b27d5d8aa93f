/** What writers make of the bytes put into them: the framing, as functions on values. */
module FcgiFraming {
  import opened FcgiWire
  import opened FcgiReader

  function Zeros(n: nat): (s: seq<Byte>)
    ensures |s| == n && forall i :: 0 <= i < n ==> s[i] == 0
  {
    seq(n, i => 0)
  }

  /** A data record, padded with zeros to a multiple of 8. */
  function DataRecord(typ: Byte, id: nat, content: seq<Byte>): (r: Record)
    requires id <= 0xffff && |content| <= MAX_LENGTH
    ensures WellFormed(r)
  {
    Record(typ, id, content, Zeros(AlignInt8(|content|) - |content|))
  }

  function DataRecords(typ: Byte, id: nat, chunks: seq<seq<Byte>>): (rs: seq<Record>)
    requires id <= 0xffff && forall i :: 0 <= i < |chunks| ==> |chunks[i]| <= MAX_LENGTH
    ensures |rs| == |chunks| && forall i :: 0 <= i < |rs| ==> rs[i] == DataRecord(typ, id, chunks[i])
  {
    seq(|chunks|, i requires 0 <= i < |chunks| => DataRecord(typ, id, chunks[i]))
  }

  // Cutting bytes into chunks.

  datatype Spilled = Spilled(chunks: seq<seq<Byte>>, pending: seq<Byte>)

  /** A full buffer is emptied only when one more byte has to go in. */
  function Spill(pending: seq<Byte>, s: seq<Byte>, cap: nat): (r: Spilled)
    requires |pending| <= cap && cap >= 1
    ensures |r.pending| <= cap && forall i :: 0 <= i < |r.chunks| ==> |r.chunks[i]| == cap
    decreases |s|, |pending|
  {
    if |pending| + |s| <= cap then Spilled([], pending + s)
    else
      var room := cap - |pending|;
      var later := Spill([], s[room..], cap);
      Spilled([pending + s[..room]] + later.chunks, later.pending)
  }

  function Concat(chunks: seq<seq<Byte>>): seq<Byte>
  {
    if chunks == [] then [] else chunks[0] + Concat(chunks[1..])
  }

  lemma Nothing(s: seq<Byte>)
    ensures [] + s == s
  {
  }

  lemma Rejoin(pending: seq<Byte>, s: seq<Byte>, room: nat, sent: seq<Byte>, left: seq<Byte>)
    requires room <= |s| && sent + left == s[room..]
    ensures ((pending + s[..room]) + sent) + left == pending + s
  {
    assert ((pending + s[..room]) + sent) + left == (pending + s[..room]) + (sent + left);
    assert (pending + s[..room]) + s[room..] == pending + s;
  }

  lemma ConcatCons(first: seq<Byte>, later: seq<seq<Byte>>)
    ensures Concat([first] + later) == first + Concat(later)
  {
    assert ([first] + later)[1..] == later;
  }

  lemma ConcatNone()
    ensures Concat([]) == []
  {
  }

  /** No byte is lost, invented or reordered. */
  lemma {:induction false} SpillKeepsBytes(pending: seq<Byte>, s: seq<Byte>, cap: nat)
    requires |pending| <= cap && cap >= 1
    ensures var r := Spill(pending, s, cap); Concat(r.chunks) + r.pending == pending + s
    decreases |s|, |pending|
  {
    hide Concat;
    Nothing(pending + s);
    ConcatNone();
    if |pending| + |s| > cap {
      var room := cap - |pending|;
      SpillKeepsBytes([], s[room..], cap);
      var later := Spill([], s[room..], cap);
      ConcatCons(pending + s[..room], later.chunks);
      Nothing(s[room..]);
      Rejoin(pending, s, room, Concat(later.chunks), later.pending);
    }
  }

  /** Putting a and then b is putting a + b: record boundaries do not depend on the calls. */
  lemma {:induction false} SpillSplit(pending: seq<Byte>, a: seq<Byte>, b: seq<Byte>, cap: nat)
    requires |pending| <= cap && cap >= 1
    ensures var first := Spill(pending, a, cap);
      var second := Spill(first.pending, b, cap);
      Spill(pending, a + b, cap) == Spilled(first.chunks + second.chunks, second.pending)
    decreases |a|, |pending|
  {
    var first := Spill(pending, a, cap);
    var second := Spill(first.pending, b, cap);
    if |pending| + |a| > cap {
      var room := cap - |pending|;
      SpillSplit([], a[room..], b, cap);
      assert (a + b)[..room] == a[..room] && (a + b)[room..] == a[room..] + b;
      var later := Spill([], a[room..], cap);
      assert [pending + a[..room]] + (later.chunks + second.chunks) == first.chunks + second.chunks;
    } else if |pending| + |a| + |b| <= cap {
      assert [] + second.chunks == second.chunks;
      assert pending + (a + b) == (pending + a) + b;
    } else {
      var room := cap - |pending|;
      assert (a + b)[..room] == a + b[..room - |a|] && (a + b)[room..] == b[room - |a|..];
      assert pending + (a + b)[..room] == (pending + a) + b[..room - |a|];
      assert [] + second.chunks == second.chunks;
    }
  }

  lemma SpillRoom(pending: seq<Byte>, s: seq<Byte>, m: nat, cap: nat)
    requires |pending| <= cap && cap >= 1 && m <= |s|
    ensures |pending| + m <= cap ==> Spill(pending, s, cap) == Spill(pending + s[..m], s[m..], cap)
    ensures |pending| + |s| <= cap ==> Spill(pending, s, cap) == Spilled([], pending + s)
  {
    if |pending| + m <= cap {
      if |pending| + |s| <= cap {
        assert pending + s == (pending + s[..m]) + s[m..];
      } else {
        var room := cap - |pending|;
        assert pending + s[..room] == (pending + s[..m]) + s[m..][..room - m];
        assert s[room..] == s[m..][room - m..];
      }
    }
  }

  lemma SpillFull(pending: seq<Byte>, s: seq<Byte>, cap: nat)
    requires |pending| == cap && cap >= 1 && s != []
    ensures var later := Spill([], s, cap); Spill(pending, s, cap) == Spilled([pending] + later.chunks, later.pending)
  {
    assert pending + s[..0] == pending && s[0..] == s;
  }

  // One writer.

  /** The abstract value of a writer; cap: the content bytes that fit into its buffer. */
  datatype View = View(typ: Byte, cap: nat, pending: seq<Byte>, written: bool, closed: bool)

  predicate Sound(v: View)
  {
    1 <= v.cap <= MAX_LENGTH && |v.pending| <= v.cap && (v.closed ==> v.pending == [])
  }

  datatype Effect = Effect(view: View, records: seq<Record>)

  function PutEffect(v: View, id: nat, s: seq<Byte>): (e: Effect)
    requires Sound(v) && id <= 0xffff
    ensures Sound(e.view)
  {
    if v.closed then Effect(v, [])
    else
      var r := Spill(v.pending, s, v.cap);
      Effect(v.(pending := r.pending, written := v.written || r.chunks != []), DataRecords(v.typ, id, r.chunks))
  }

  function FlushEffect(v: View, id: nat): (e: Effect)
    requires Sound(v) && id <= 0xffff
    ensures Sound(e.view)
  {
    if v.closed || v.pending == [] then Effect(v, [])
    else Effect(v.(pending := [], written := true), [DataRecord(v.typ, id, v.pending)])
  }

  /** Needless: the empty record of a stderr to which nothing was ever put. */
  predicate Silent(v: View)
  {
    v.typ == STDERR && v.pending == [] && !v.written
  }

  /** The records behind the data. */
  function LastRecords(v: View, id: nat, last: bool, appStatus: int): (rs: seq<Record>)
    requires id <= 0xffff
    ensures forall i :: 0 <= i < |rs| ==> WellFormed(rs[i])
  {
    (if Silent(v) then [] else [Record(v.typ, id, [], [])])
    + (if last then [EndRequest(id, appStatus, REQUEST_COMPLETE)] else [])
  }

  function CloseRecords(v: View, id: nat, last: bool, appStatus: int): (rs: seq<Record>)
    requires Sound(v) && id <= 0xffff
    ensures forall i :: 0 <= i < |rs| ==> WellFormed(rs[i])
  {
    (if v.pending == [] then [] else [DataRecord(v.typ, id, v.pending)]) + LastRecords(v, id, last, appStatus)
  }

  function CloseEffect(v: View, id: nat, last: bool, appStatus: int): (e: Effect)
    requires Sound(v) && id <= 0xffff
    ensures Sound(e.view)
  {
    if v.closed then Effect(v, [])
    else
      var records := CloseRecords(v, id, last, appStatus);
      Effect(v.(pending := [], written := v.written || records != [], closed := true), records)
  }

  lemma {:induction false} EncodeAppend(a: seq<Record>, b: seq<Record>)
    requires forall i :: 0 <= i < |a| ==> WellFormed(a[i])
    requires forall i :: 0 <= i < |b| ==> WellFormed(b[i])
    ensures forall i :: 0 <= i < |a + b| ==> WellFormed((a + b)[i])
    ensures EncodeAll(a + b) == EncodeAll(a) + EncodeAll(b)
    decreases |a|
  {
    hide Encode, WellFormed;
    if a == [] {
      assert a + b == b;
    } else {
      assert (a + b)[1..] == a[1..] + b;
      EncodeAppend(a[1..], b);
      assert Encode(a[0]) + (EncodeAll(a[1..]) + EncodeAll(b)) == EncodeAll(a) + EncodeAll(b);
    }
  }

  lemma MoreRecords(typ: Byte, id: nat, chunks: seq<seq<Byte>>, chunk: seq<Byte>)
    requires id <= 0xffff && |chunk| <= MAX_LENGTH && forall i :: 0 <= i < |chunks| ==> |chunks[i]| <= MAX_LENGTH
    ensures EncodeAll(DataRecords(typ, id, chunks + [chunk])) ==
      EncodeAll(DataRecords(typ, id, chunks)) + Encode(DataRecord(typ, id, chunk))
    ensures EncodeAll([DataRecord(typ, id, chunk)]) == Encode(DataRecord(typ, id, chunk))
  {
    hide Encode;
    var r := DataRecord(typ, id, chunk);
    assert DataRecords(typ, id, chunks + [chunk]) == DataRecords(typ, id, chunks) + [r];
    EncodeAppend(DataRecords(typ, id, chunks), [r]);
    EncodeOne(r);
  }

  lemma EncodeOne(r: Record)
    requires WellFormed(r)
    ensures EncodeAll([r]) == Encode(r)
  {
    hide Encode, WellFormed;
    assert [r][1..] == [];
    assert EncodeAll([r]) == Encode(r) + EncodeAll([]);
    assert Encode(r) + [] == Encode(r);
  }

  lemma LastBytes(v: View, id: nat, last: bool, appStatus: int)
    requires id <= 0xffff
    ensures EncodeAll(LastRecords(v, id, last, appStatus)) ==
      (if Silent(v) then [] else Header(v.typ, id, 0, 0))
      + (if last then Encode(EndRequest(id, appStatus, REQUEST_COMPLETE)) else [])
  {
    var eof := Record(v.typ, id, [], []);
    var end := EndRequest(id, appStatus, REQUEST_COMPLETE);
    assert Encode(eof) == Header(v.typ, id, 0, 0);
    EncodeOne(eof);
    EncodeOne(end);
    EncodeAppend(if Silent(v) then [] else [eof], if last then [end] else []);
  }

  lemma CloseBytes(v: View, id: nat, last: bool, appStatus: int)
    requires Sound(v) && id <= 0xffff
    ensures EncodeAll(CloseRecords(v, id, last, appStatus)) ==
      (if v.pending == [] then [] else Encode(DataRecord(v.typ, id, v.pending)))
      + EncodeAll(LastRecords(v, id, last, appStatus))
  {
    hide Encode, LastRecords, WellFormed;
    if v.pending != [] {
      EncodeOne(DataRecord(v.typ, id, v.pending));
      EncodeAppend([DataRecord(v.typ, id, v.pending)], LastRecords(v, id, last, appStatus));
    } else {
      assert [] + LastRecords(v, id, last, appStatus) == LastRecords(v, id, last, appStatus);
    }
  }

  // Reading the framing back (FastCGI Specification, section 3.3).

  datatype Parsed = Parsed(records: seq<Record>, complete: bool)

  function Parse(u: seq<Byte>): Parsed
    decreases |u|
  {
    if u == [] then Parsed([], true)
    else if |u| < HEADER_LEN || u[0] != VERSION_1 then Parsed([], false)
    else
      var h := u[..HEADER_LEN];
      var len, pad: nat := ContentLenOf(h), h[6];
      if |u| < HEADER_LEN + len + pad then Parsed([], false)
      else
        var later := Parse(u[HEADER_LEN + len + pad..]);
        var r := Record(h[1], RequestIdOf(h), u[HEADER_LEN..HEADER_LEN + len], u[HEADER_LEN + len..HEADER_LEN + len + pad]);
        Parsed([r] + later.records, later.complete)
  }

  lemma ParseOne(r: Record, rest: seq<Byte>)
    requires WellFormed(r)
    ensures Parse(Encode(r) + rest) == Parsed([r] + Parse(rest).records, Parse(rest).complete)
  {
    var u := Encode(r) + rest;
    EncodedParts(r, rest);
    HeaderFields(r.typ, r.id, |r.content|, |r.padding|);
    assert u[0] == u[..HEADER_LEN][0];
  }

  lemma EncodedParts(r: Record, rest: seq<Byte>)
    requires WellFormed(r)
    ensures var u, behind := Encode(r) + rest, HEADER_LEN + |r.content|;
      && u[..HEADER_LEN] == Header(r.typ, r.id, |r.content|, |r.padding|)
      && u[HEADER_LEN..behind] == r.content && u[behind..behind + |r.padding|] == r.padding
      && u[behind + |r.padding|..] == rest
  {
  }

  /** The records can be read back from their bytes. */
  lemma {:induction false} ParseRoundTrip(rs: seq<Record>)
    requires forall i :: 0 <= i < |rs| ==> WellFormed(rs[i])
    ensures Parse(EncodeAll(rs)) == Parsed(rs, true)
    decreases |rs|
  {
    if rs != [] {
      hide Encode, WellFormed, Parse;
      assert EncodeAll(rs) == Encode(rs[0]) + EncodeAll(rs[1..]);
      ParseOne(rs[0], EncodeAll(rs[1..]));
      ParseRoundTrip(rs[1..]);
      hide EncodeAll;
      assert rs == [rs[0]] + rs[1..];
    }
  }
}
