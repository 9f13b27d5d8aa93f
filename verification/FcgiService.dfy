/** Whole runs of the writers: framing, round trip, and the END_REQUEST record. */
module FcgiService {
  import opened FcgiWire
  import opened FcgiConnection
  import opened FcgiReader
  import opened FcgiFraming
  import opened FcgiStreams
  import opened FcgiWriter

  // One writer.

  datatype Act = Put(s: seq<Byte>) | Flush | Close

  function ActEffect(v: View, id: nat, a: Act): (e: Effect)
    requires Sound(v) && id <= 0xffff
    ensures Sound(e.view) && forall i :: 0 <= i < |e.records| ==> WellFormed(e.records[i])
  {
    match a
    case Put(s) => PutEffect(v, id, s)
    case Flush => FlushEffect(v, id)
    case Close => CloseEffect(v, id, false, 0)
  }

  function Run(v: View, id: nat, acts: seq<Act>): (e: Effect)
    requires Sound(v) && id <= 0xffff
    ensures Sound(e.view)
    decreases |acts|
  {
    if acts == [] then Effect(v, [])
    else
      var first := ActEffect(v, id, acts[0]);
      var later := Run(first.view, id, acts[1..]);
      Effect(later.view, first.records + later.records)
  }

  /** The bytes put before the first close. */
  function Input(acts: seq<Act>): seq<Byte>
  {
    if acts == [] || acts[0].Close? then []
    else (if acts[0].Put? then acts[0].s else []) + Input(acts[1..])
  }

  predicate Closes(acts: seq<Act>)
  {
    exists i :: 0 <= i < |acts| && acts[i].Close?
  }

  function Contents(rs: seq<Record>): seq<Byte>
  {
    if rs == [] then [] else rs[0].content + Contents(rs[1..])
  }

  /** A data record as section 3.3 of the FastCGI Specification recommends it: a multiple of 8 bytes, with fewer than 8 of padding. */
  predicate DataFrame(r: Record, typ: Byte, id: nat)
  {
    && WellFormed(r) && r.typ == typ && r.id == id && r.content != []
    && |Encode(r)| % 8 == 0 && |r.padding| < 8 && (forall i :: 0 <= i < |r.padding| ==> r.padding[i] == 0)
  }

  /** The bytes of a record that a writer sends: version 1, the type, the id, the lengths, and then the content. */
  lemma FrameOnWire(r: Record, typ: Byte, id: nat)
    requires DataFrame(r, typ, id)
    ensures var b := Encode(r);
      && b[0] == 1 && b[1] == typ && (b[2] as int) * 256 + b[3] == id && (b[4] as int) * 256 + b[5] == |r.content|
      && b[6] == |r.padding| && b[7] == 0 && b[8..8 + |r.content|] == r.content && b[8 + |r.content|..] == r.padding
  {
    HeaderFields(typ, id, |r.content|, |r.padding|);
  }

  /** The record that ends a stream is eight bytes. */
  lemma EmptyOnWire(typ: Byte, id: nat)
    requires id <= 0xffff
    ensures Encode(Record(typ, id, [], [])) == [1, typ, id / 256, id % 256, 0, 0, 0, 0]
  {
  }

  predicate DataFrames(rs: seq<Record>, typ: Byte, id: nat)
  {
    forall i :: 0 <= i < |rs| ==> DataFrame(rs[i], typ, id)
  }

  /** The record that ends the stream; a stderr to which nothing was put has none. */
  function Ends(typ: Byte, id: nat, input: seq<Byte>): seq<Record>
  {
    if typ == 7 && input == [] then [] else [Record(typ, id, [], [])]
  }

  lemma {:induction false} ContentsAppend(a: seq<Record>, b: seq<Record>)
    ensures Contents(a + b) == Contents(a) + Contents(b)
    decreases |a|
  {
    if a == [] {
      assert a + b == b;
    } else {
      assert (a + b)[1..] == a[1..] + b;
      ContentsAppend(a[1..], b);
      assert a[0].content + (Contents(a[1..]) + Contents(b)) == Contents(a) + Contents(b);
    }
  }

  lemma {:induction false} ContentsOfData(typ: Byte, id: nat, chunks: seq<seq<Byte>>)
    requires id <= 0xffff && forall i :: 0 <= i < |chunks| ==> |chunks[i]| <= MAX_LENGTH
    ensures Contents(DataRecords(typ, id, chunks)) == Concat(chunks)
    decreases |chunks|
  {
    if chunks != [] {
      assert DataRecords(typ, id, chunks)[1..] == DataRecords(typ, id, chunks[1..]);
      ContentsOfData(typ, id, chunks[1..]);
    }
  }

  lemma DataRecordFrames(typ: Byte, id: nat, content: seq<Byte>)
    requires id <= 0xffff && 1 <= |content| <= MAX_LENGTH
    ensures DataFrame(DataRecord(typ, id, content), typ, id)
  {
  }

  /** A put or flush on an open writer sends whole data records, and loses nothing. */
  lemma OpenEffect(v: View, id: nat, a: Act)
    requires Sound(v) && id <= 0xffff && !v.closed && !a.Close?
    ensures var e := ActEffect(v, id, a);
      && e.view == v.(pending := e.view.pending, written := v.written || e.records != [])
      && DataFrames(e.records, v.typ, id)
      && Contents(e.records) + e.view.pending == v.pending + (if a.Put? then a.s else [])
      && if a.Flush? then e.view.pending == [] && |e.records| <= 1
         else forall i :: 0 <= i < |e.records| ==> |e.records[i].content| == v.cap
  {
    hide Spill, Encode;
    var e := ActEffect(v, id, a);
    if a.Put? {
      var r := Spill(v.pending, a.s, v.cap);
      SpillKeepsBytes(v.pending, a.s, v.cap);
      ContentsOfData(v.typ, id, r.chunks);
      forall i | 0 <= i < |r.chunks| ensures DataFrame(e.records[i], v.typ, id) {
        DataRecordFrames(v.typ, id, r.chunks[i]);
      }
    } else if v.pending != [] {
      DataRecordFrames(v.typ, id, v.pending);
      assert e.records[1..] == [];
      assert Contents(e.records) == v.pending + [];
    }
  }

  lemma {:induction false} ClosedRun(v: View, id: nat, acts: seq<Act>)
    requires Sound(v) && id <= 0xffff && v.closed
    ensures Run(v, id, acts) == Effect(v, [])
    decreases |acts|
  {
    if acts != [] {
      ClosedRun(v, id, acts[1..]);
    }
  }

  /** While it is open. */
  lemma {:induction false} OpenRun(v: View, id: nat, acts: seq<Act>)
    requires Sound(v) && id <= 0xffff && !v.closed && !Closes(acts)
    ensures var e := Run(v, id, acts);
      && e.view == v.(pending := e.view.pending, written := v.written || e.records != [])
      && DataFrames(e.records, v.typ, id)
      && Contents(e.records) + e.view.pending == v.pending + Input(acts)
    decreases |acts|
  {
    hide ActEffect, DataFrame, Sound;
    if acts == [] {
      assert Contents([]) + v.pending == v.pending + [];
    } else {
      var a, first := acts[0], ActEffect(v, id, acts[0]);
      assert !a.Close?;
      OpenEffect(v, id, a);
      assert !Closes(acts[1..]) by {
        assert forall i :: 0 <= i < |acts[1..]| ==> acts[1..][i] == acts[i + 1];
      }
      OpenRun(first.view, id, acts[1..]);
      var later := Run(first.view, id, acts[1..]);
      ContentsAppend(first.records, later.records);
      BytesKept(Contents(first.records), first.view.pending, v.pending, if a.Put? then a.s else [],
              Contents(later.records), later.view.pending, Input(acts[1..]));
    }
  }

  /** Behind a flush everything that has been put is sent. */
  lemma FlushSendsAll(v: View, id: nat, acts: seq<Act>)
    requires Sound(v) && id <= 0xffff && !v.closed && !Closes(acts)
    ensures var e := Run(v, id, acts + [Flush]);
      e.view.pending == [] && DataFrames(e.records, v.typ, id) && Contents(e.records) == v.pending + Input(acts)
  {
    hide ActEffect, DataFrame, Contents, Input, Sound;
    var e := Run(v, id, acts);
    OpenRun(v, id, acts);
    OpenEffect(e.view, id, Flush);
    RunAppend(v, id, acts, [Flush]);
    var f := ActEffect(e.view, id, Flush);
    assert [Flush][1..] == [];
    assert Run(e.view, id, [Flush]) == Effect(f.view, f.records + []);
    assert f.records + [] == f.records;
    ContentsAppend(e.records, f.records);
    FlushedBytes(Contents(e.records), Contents(f.records), e.view.pending, v.pending + Input(acts));
  }

  lemma FlushedBytes(sent: seq<Byte>, last: seq<Byte>, pending: seq<Byte>, all: seq<Byte>)
    requires sent + pending == all && last + [] == pending + []
    ensures sent + last == all
  {
    assert last + [] == last && pending + [] == pending;
  }

  /** Two steps that keep the bytes keep them together. */
  lemma BytesKept(sent: seq<Byte>, mid: seq<Byte>, start: seq<Byte>, put: seq<Byte>,
                sent': seq<Byte>, end: seq<Byte>, put': seq<Byte>)
    requires sent + mid == start + put && sent' + end == mid + put'
    ensures (sent + sent') + end == start + (put + put')
  {
    assert (sent + sent') + end == sent + (sent' + end) == (sent + mid) + put' == (start + put) + put';
  }

  /** Splitting a run in two. */
  lemma {:induction false} RunAppend(v: View, id: nat, a: seq<Act>, b: seq<Act>)
    requires Sound(v) && id <= 0xffff
    ensures var first := Run(v, id, a);
      var later := Run(first.view, id, b);
      Run(v, id, a + b) == Effect(later.view, first.records + later.records)
    decreases |a|
  {
    hide ActEffect;
    if a == [] {
      assert a + b == b;
      assert [] + Run(v, id, b).records == Run(v, id, b).records;
    } else {
      assert (a + b)[1..] == a[1..] + b;
      var e := ActEffect(v, id, a[0]);
      RunAppend(e.view, id, a[1..], b);
      var first := Run(e.view, id, a[1..]);
      var later := Run(first.view, id, b);
      assert e.records + (first.records + later.records) == (e.records + first.records) + later.records;
    }
  }

  /** The close itself. */
  lemma CloseFrames(v: View, id: nat) returns (tail: seq<Record>)
    requires Sound(v) && id <= 0xffff && !v.closed
    ensures CloseEffect(v, id, false, 0).view.closed
    ensures CloseEffect(v, id, false, 0).records == tail + (if Silent(v) then [] else [Record(v.typ, id, [], [])])
    ensures DataFrames(tail, v.typ, id) && Contents(tail) == v.pending
  {
    hide Encode;
    tail := if v.pending == [] then [] else [DataRecord(v.typ, id, v.pending)];
    if v.pending != [] {
      DataRecordFrames(v.typ, id, v.pending);
      assert tail[1..] == [];
      assert Contents(tail) == v.pending + [];
    }
    var last := if Silent(v) then [] else [Record(v.typ, id, [], [])];
    assert last + [] == last;
  }

  /**
    Framing: a run of a fresh writer that closes it sends data records whose contents are the
    bytes put before the close, then the one record that ends the stream, then nothing.
   */
  lemma Framing(v: View, id: nat, acts: seq<Act>, later: seq<Act>) returns (data: seq<Record>)
    requires Sound(v) && id <= 0xffff && v.pending == [] && !v.written && !v.closed && !Closes(acts)
    ensures Run(v, id, acts + [Close] + later).records == data + Ends(v.typ, id, Input(acts))
    ensures DataFrames(data, v.typ, id) && Contents(data) == Input(acts)
  {
    hide Encode, Sound, CloseEffect, DataFrame, Input, Run, Contents;
    var e := Run(v, id, acts);
    OpenRun(v, id, acts);
    assert [] + Input(acts) == Input(acts);
    var tail := CloseFrames(e.view, id);
    data := e.records + tail;
    ContentsAppend(e.records, tail);
    SomethingPut(e.records, v.typ, id);
    CloseRun(v, id, acts, later);
    RecordsAssociate(e.records, tail, Ends(v.typ, id, Input(acts)));
  }

  lemma CloseRun(v: View, id: nat, acts: seq<Act>, later: seq<Act>)
    requires Sound(v) && id <= 0xffff && !Run(v, id, acts).view.closed
    ensures var e := Run(v, id, acts);
      Run(v, id, acts + [Close] + later).records == e.records + CloseEffect(e.view, id, false, 0).records
  {
    hide CloseRecords;
    var e := Run(v, id, acts);
    RunAppend(v, id, acts, [Close] + later);
    assert acts + [Close] + later == acts + ([Close] + later);
    assert ([Close] + later)[1..] == later;
    var closed := CloseEffect(e.view, id, false, 0);
    ClosedRun(closed.view, id, later);
    assert closed.records + [] == closed.records;
  }

  lemma RecordsAssociate(a: seq<Record>, b: seq<Record>, c: seq<Record>)
    ensures a + (b + c) == (a + b) + c
  {
  }

  lemma SomethingPut(rs: seq<Record>, typ: Byte, id: nat)
    requires DataFrames(rs, typ, id)
    ensures Contents(rs) == [] <==> rs == []
  {
    if rs != [] {
      assert DataFrame(rs[0], typ, id);
    }
  }

  /** Without flushes the records depend on the bytes put, not on the calls that put them. */
  lemma {:induction false} BoundariesIndependent(v: View, id: nat, acts: seq<Act>)
    requires Sound(v) && id <= 0xffff && !v.closed && forall i :: 0 <= i < |acts| ==> acts[i].Put?
    ensures Run(v, id, acts) == PutEffect(v, id, Input(acts))
    decreases |acts|
  {
    if acts == [] {
      assert DataRecords(v.typ, id, []) == [] && v.pending + [] == v.pending;
    } else {
      assert acts[0].Put?;
      var s, first := acts[0].s, PutEffect(v, id, acts[0].s);
      BoundariesIndependent(first.view, id, acts[1..]);
      PutTwice(v, id, s, Input(acts[1..]));
    }
  }

  lemma PutTwice(v: View, id: nat, a: seq<Byte>, b: seq<Byte>)
    requires Sound(v) && id <= 0xffff && !v.closed
    ensures var first := PutEffect(v, id, a);
      var second := PutEffect(first.view, id, b);
      PutEffect(v, id, a + b) == Effect(second.view, first.records + second.records)
  {
    hide Spill;
    SpillSplit(v.pending, a, b, v.cap);
    var r1 := Spill(v.pending, a, v.cap);
    var r2 := Spill(r1.pending, b, v.cap);
    assert DataRecords(v.typ, id, r1.chunks + r2.chunks) == DataRecords(v.typ, id, r1.chunks) + DataRecords(v.typ, id, r2.chunks);
  }

  // From writer to reader.

  lemma {:induction false} FramesAreStream(rs: seq<Record>, t: Target)
    requires 0 <= t.typ < 256 && DataFrames(rs, t.typ, t.id)
    ensures AllLegal(rs, t) && Delivered(rs, false, t) == Contents(rs)
    ensures t.typ != BEGIN_REQUEST as int && t.id != 0 ==> AnswersTo(rs) == []
    decreases |rs|
  {
    hide Encode;
    if rs != [] {
      assert DataFrame(rs[0], t.typ, t.id);
      assert forall i :: 0 <= i < |rs[1..]| ==> rs[1..][i] == rs[i + 1];
      FramesAreStream(rs[1..], t);
      forall i | 0 <= i < |rs| ensures Legal(rs[i], t) {
        assert DataFrame(rs[i], t.typ, t.id);
      }
    }
  }

  /**
    Round trip: what a closed writer has sent, read by a reader of its type and request in
    whatever pieces, gives the bytes that were put, and then the end of the stream; later
    bytes v of the connection are untouched.
   */
  lemma RoundTrip(w: View, id: nat, acts: seq<Act>, later: seq<Act>, v: seq<Byte>)
    requires Sound(w) && 1 <= id <= 0xffff && w.pending == [] && !w.written && !w.closed && !Closes(acts)
    requires w.typ != 1 && !(w.typ == 7 && Input(acts) == [])
    ensures var rs := Run(w, id, acts + [Close] + later).records;
      && (forall i :: 0 <= i < |rs| ==> WellFormed(rs[i]))
      && Fill(EncodeAll(rs) + v, Between(false), Target(w.typ, id, true)) == Outcome(Input(acts), EndOfStream(v, 0))
  {
    hide Go, Fill, Interpret, Run;
    var data := Framing(w, id, acts, later);
    var t, end := Target(w.typ, id, true), Record(w.typ, id, [], []);
    FramesAreStream(data, t);
    Demultiplexed(data, end, t, v);
    assert forall i :: 0 <= i < |data| ==> DataFrame(data[i], w.typ, id);
    EncodeAppend(data, [end]);
    EncodeOne(end);
    assert (EncodeAll(data) + Encode(end)) + v == EncodeAll(data) + (Encode(end) + v);
    assert [] + v == v;
  }

  lemma NothingDelivered(o: Outcome)
    ensures Delivering([], o) == o
  {
    assert [] + o.data == o.data;
  }

  /** The first n bytes of o taken; or all of it, when there are fewer. */
  lemma PieceDelivered(front: seq<Byte>, o: Outcome, n: nat)
    ensures Delivering(front, o) == o.(data := front + o.data)
    ensures n <= |o.data| ==> Delivering(front, o) == Delivering(front + o.data[..n], o.(data := o.data[n..]))
  {
    if n <= |o.data| {
      assert front + o.data == (front + o.data[..n]) + o.data[n..];
    }
  }

  /**
    A client that reads the whole stream in pieces of any positive size: it gets the data that
    the unread bytes of the connection hold, the stream comes to their ending, and they are answered.
   */
  method ReadToEnd(reader: Reader, size: int) returns (data: seq<Byte>)
    requires reader.Valid() && !reader.isClosed && (reader.eorStop || reader.req.isBeginProcessed) && size > 0
    modifies reader, reader.buff, reader.req, reader.req.ipc
    ensures reader.Valid() && reader.isClosed
    ensures var o := old(reader.Pending());
      data == o.data && reader.Ended(o.ending) && reader.req.ipc.sent == o.answers
  {
    hide Go, Fill, Interpret, Delivering, Reader.Future, Reader.Ended, Reader.BodyLeft, Reader.State, Reader.Unread;
    ghost var f := reader.Future();
    data := [];
    NothingDelivered(f);
    while true
      invariant reader.Valid() && !reader.isClosed && (reader.eorStop || reader.req.isBeginProcessed)
      invariant Delivering(data, reader.Future()) == f
      decreases |reader.Future().data|
    {
      ghost var o := reader.Future();
      PieceDelivered(data, o, size);
      var piece := reader.GetStr(size);
      data := data + piece;
      if |piece| < size {
        return;
      }
    }
  }
}
