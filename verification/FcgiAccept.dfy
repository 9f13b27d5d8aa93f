/** Accepting a request: the BEGIN_REQUEST record, then the parameters. */
module FcgiAccept {
  import opened FcgiWire
  import opened FcgiConnection
  import opened FcgiReader
  import opened FcgiFraming
  import opened FcgiStreams
  import opened FcgiPairs
  import opened FcgiWriter

  const RESPONDER: nat := 1
  const AUTHORIZER: nat := 2
  const FILTER: nat := 3

  const BUFFER: int := 8192

  /** The bytes of an ASCII string. */
  function Bytes(s: string): (b: seq<Byte>)
    ensures |b| == |s| && forall i :: 0 <= i < |s| && s[i] as int < 128 ==> b[i] == s[i] as int
  {
    seq(|s|, i requires 0 <= i < |s| => s[i] as int % 256)
  }

  function RoleEntry(role: nat): seq<Byte>
  {
    if role == RESPONDER then Bytes("FCGI_ROLE=RESPONDER")
    else if role == AUTHORIZER then Bytes("FCGI_ROLE=AUTHORIZER")
    else if role == FILTER then Bytes("FCGI_ROLE=FILTER")
    else []
  }

  /** What FCGX_GetParam finds under FCGI_ROLE tells the role number. */
  predicate RoleShown(environment: seq<seq<Byte>>, role: int)
  {
    var v := Lookup(environment, Bytes("FCGI_ROLE"));
    && (v == Str(Bytes("RESPONDER")) <==> role == 1) && (v == Str(Bytes("AUTHORIZER")) <==> role == 2)
    && (v == Str(Bytes("FILTER")) <==> role == 3) && 1 <= role <= 3
  }

  lemma BytesAppend(s: string, t: string)
    ensures Bytes(s + t) == Bytes(s) + Bytes(t)
  {
  }

  function RoleName(role: nat): seq<Byte>
  {
    if role == RESPONDER then Bytes("RESPONDER") else if role == AUTHORIZER then Bytes("AUTHORIZER") else Bytes("FILTER")
  }

  lemma RoleIsPair(role: nat)
    requires RESPONDER <= role <= FILTER
    ensures RoleEntry(role) == NameValue(Pair(Bytes("FCGI_ROLE"), RoleName(role))) && NoEquals(Bytes("FCGI_ROLE"))
  {
    hide Bytes;
    BytesAppend("FCGI_ROLE", "=RESPONDER");
    BytesAppend("FCGI_ROLE", "=AUTHORIZER");
    BytesAppend("FCGI_ROLE", "=FILTER");
    BytesAppend("=", "RESPONDER");
    BytesAppend("=", "AUTHORIZER");
    BytesAppend("=", "FILTER");
    assert "FCGI_ROLE" + "=RESPONDER" == "FCGI_ROLE=RESPONDER" && "=" + "RESPONDER" == "=RESPONDER";
    assert "FCGI_ROLE" + "=AUTHORIZER" == "FCGI_ROLE=AUTHORIZER" && "=" + "AUTHORIZER" == "=AUTHORIZER";
    assert "FCGI_ROLE" + "=FILTER" == "FCGI_ROLE=FILTER" && "=" + "FILTER" == "=FILTER";
    assert Bytes("=") == [EQUALS];
  }

  /** The role entry hides nothing but a parameter called FCGI_ROLE. */
  lemma RoleFirst(role: nat, rest: seq<seq<Byte>>, name: seq<Byte>)
    requires 1 <= role <= 3 && NoEquals(name)
    ensures RoleShown([RoleEntry(role)] + rest, role)
    ensures name != Bytes("FCGI_ROLE") ==> Lookup([RoleEntry(role)] + rest, name) == Lookup(rest, name)
  {
    hide Bytes, RoleEntry;
    RoleIsPair(role);
    var p, env := Pair(Bytes("FCGI_ROLE"), RoleName(role)), [RoleEntry(role)] + rest;
    assert env[0] == RoleEntry(role) && env[1..] == rest;
    BindsItsName(p, p.name);
    BindsItsName(p, name);
    assert |Bytes("RESPONDER")| == 9 && |Bytes("AUTHORIZER")| == 10 && |Bytes("FILTER")| == 6;
  }

  /** What a fresh connection with the bytes u leads to; ending: how the parameter stream ended; answers: what is sent meanwhile. */
  datatype Admission =
    | Refused
    | Admitted(id: nat, role: nat, keep: bool, environment: seq<seq<Byte>>, ending: Ending, answers: seq<Byte>)

  function Admit(u: seq<Byte>, previousId: nat): (a: Admission)
    ensures a.Admitted? ==> 1 <= a.id <= 0xffff
  {
    AdmitAfter(Fill(u, Between(false), Target(0, previousId, false)))
  }

  /** first: what has been found up to the BEGIN_REQUEST record. */
  function AdmitAfter(first: Outcome): (a: Admission)
    requires first.ending.BeginSeen? ==> 1 <= first.ending.newId <= 0xffff
    ensures a.Admitted? ==> 1 <= a.id <= 0xffff
  {
    var begin := first.ending;
    if first.data != [] || !begin.BeginSeen? || !(RESPONDER <= begin.role <= FILTER) then Refused
    else
      var params := Fill(begin.rest, Between(false), Target(PARAMS, begin.newId, true));
      var d := DecodePairs(params.data);
      if !d.complete then Refused
      else
        Admitted(begin.newId, begin.role, begin.keep, [RoleEntry(begin.role)] + NameValues(d.pairs), params.ending,
                 first.answers + params.answers)
  }

  /** The fill that is to find the BEGIN_REQUEST record. */
  method FillToBegin(req: Request, aligned: bool) returns (reader: Reader)
    modifies req`requestId, req`role, req`isBeginProcessed, req`keepConnection, req.ipc
    ensures fresh(reader) && fresh(reader.buff) && reader.req == req && reader.Valid0()
    ensures var first := old(Fill(req.ipc.inbox, Between(false), Target(0, req.requestId, false)));
      && (req.isBeginProcessed <==> first.data == [] && first.ending.BeginSeen?)
      && (req.isBeginProcessed ==> reader.Valid() && reader.Accepted(first.ending) && req.ipc.sent == old(req.ipc.sent) + first.answers)
  {
    hide Fill, Go, Interpret;
    ghost var u, previousId := req.ipc.inbox, req.requestId;
    req.isBeginProcessed := false;
    reader := new Reader(req, BUFFER, 0, aligned);
    assert reader.State() == Between(false);
    AnswersAdded(req.ipc.sent, Fill(u, Between(false), Target(0, previousId, false)));
    reader.FillBuff();
  }

  /** The role entry, and the parameters of an accepted request. */
  method ReadEnvironment(reader: Reader, params: Params) returns (ok: bool)
    requires reader.Valid() && reader.fcgiErrno == 0 && params.Valid() && params.Contents() == [] && reader.req.isBeginProcessed
    modifies reader, reader.buff, reader.req`requestId, reader.req`role, reader.req`isBeginProcessed, reader.req`keepConnection
    modifies reader.req.ipc, params, params.vec
    ensures reader.Valid() && params.Valid() && (params.vec == old(params.vec) || fresh(params.vec))
    ensures reader.req.requestId == old(reader.req.requestId) && reader.req.role == old(reader.req.role)
    ensures reader.req.keepConnection == old(reader.req.keepConnection) && reader.req.isBeginProcessed
    ensures var role := old(reader.req.role);
      var f := old(Fill(reader.Unread(), Between(false), Target(PARAMS, reader.req.requestId, true)));
      var d := DecodePairs(f.data);
      && (ok <==> RESPONDER <= role <= FILTER && d.complete)
      && (ok ==>
        && params.Contents() == [RoleEntry(role)] + NameValues(d.pairs)
        && (reader.fcgiErrno == 0 <==> !f.ending.Failed?) && reader.Ended(f.ending)
        && reader.req.ipc.sent == old(reader.req.ipc.sent) + f.answers)
  {
    hide Fill, Go, Interpret, Answering, DecodePairs, RoleEntry;
    var role := reader.req.role;
    if role != RESPONDER && role != AUTHORIZER && role != FILTER {
      return false;
    }
    params.PutParam(RoleEntry(role));
    reader.SetReaderType(PARAMS);
    AnswersAdded(reader.req.ipc.sent, Fill(reader.Unread(), Between(false), Target(PARAMS, reader.req.requestId, true)));
    var result := reader.ReadParams(params);
    ok := result >= 0;
  }

  /** The reader and the parameters of an accepted request. */
  method AcceptInput(req: Request, aligned: bool) returns (ok: bool, reader: Reader, params: Params)
    modifies req`requestId, req`role, req`isBeginProcessed, req`keepConnection, req.ipc
    ensures fresh(reader) && fresh(reader.buff) && reader.req == req && fresh(params) && fresh(params.vec)
    ensures params.Valid() && reader.Valid0()
    ensures var a := old(Admit(req.ipc.inbox, req.requestId));
      && (ok <==> a.Admitted?)
      && (ok ==>
        && req.requestId == a.id && req.role == a.role && req.keepConnection == a.keep && req.isBeginProcessed
        && params.Contents() == a.environment && req.ipc.sent == old(req.ipc.sent) + a.answers
        && reader.typ == 5 && !reader.isClosed
        && (reader.fcgiErrno == 0 <==> a.ending.EndOfStream?)
        && (a.ending.EndOfStream? ==>
          && reader.Valid() && reader.Unread() == a.ending.rest
          && reader.Future() == Answering(req.ipc.sent, Fill(a.ending.rest, Between(false), Target(5, a.id, true)))))
  {
    hide Fill, Go, Interpret, Answering, DecodePairs;
    ok := false;
    ghost var sent, first := req.ipc.sent, Fill(req.ipc.inbox, Between(false), Target(0, req.requestId, false));
    reader := FillToBegin(req, aligned);
    params := new Params(30);
    if !req.isBeginProcessed {
      return;
    }
    ghost var begun := req.ipc.sent;
    ok := ReadEnvironment(reader, params);
    SentInTwo(sent, first.answers, begun, req.ipc.sent);
    if ok {
      reader.SetReaderType(STDIN);
    }
  }

  lemma SentInTwo(sent: seq<Byte>, first: seq<Byte>, begun: seq<Byte>, end: seq<Byte>)
    requires begun == sent + first
    ensures forall later :: end == begun + later ==> end == sent + (first + later)
  {
    forall later | end == begun + later ensures end == sent + (first + later) {
      assert (sent + first) + later == sent + (first + later);
    }
  }

  /** The two writers of an accepted request. */
  method NewWriters(req: Request) returns (out: Writer, err: Writer)
    requires req.requestId <= 0xffff
    modifies req`nWriters
    ensures fresh(out) && fresh(out.buff) && fresh(err) && fresh(err.buff) && out != err && out.buff != err.buff
    ensures out.Valid() && out.req == req && err.Valid() && err.req == req && req.nWriters == 2
    ensures out.View() == FcgiFraming.View.View(6, out.buff.Length - HEADER_LEN, [], false, false)
    ensures err.View() == FcgiFraming.View.View(7, err.buff.Length - HEADER_LEN, [], false, false)
    ensures 8184 <= out.buff.Length <= 8192 && 504 <= err.buff.Length <= 512
  {
    var alignedOut, alignedErr: bool := *, *;
    out := new Writer(req, BUFFER, STDOUT, alignedOut);
    err := new Writer(req, 512, STDERR, alignedErr);
    req.nWriters := 2;
  }

  /** One round of FCGX_Accept_r on an open connection. */
  method AcceptRequest(req: Request, aligned: bool)
    returns (ok: bool, reader: Reader, params: Params, out: Writer?, err: Writer?)
    modifies req, req.ipc
    ensures fresh(reader) && fresh(reader.buff) && reader.req == req && fresh(params) && fresh(params.vec)
    ensures params.Valid() && reader.Valid0() && req.appStatus == old(req.appStatus)
    ensures var a := old(Admit(req.ipc.inbox, req.requestId));
      && (ok <==> a.Admitted?)
      && (ok ==>
        && req.requestId == a.id <= 0xffff && req.role == a.role && req.keepConnection == a.keep && req.isBeginProcessed
        && params.Contents() == a.environment && req.ipc.sent == old(req.ipc.sent) + a.answers
        && reader.typ == 5 && !reader.isClosed
        && (reader.fcgiErrno == 0 <==> a.ending.EndOfStream?)
        && (a.ending.EndOfStream? ==>
          && reader.Valid() && reader.Unread() == a.ending.rest
          && reader.Future() == Answering(req.ipc.sent, Fill(a.ending.rest, Between(false), Target(5, a.id, true)))))
    ensures ok ==>
      && out != null && err != null && fresh(out) && fresh(out.buff) && fresh(err) && fresh(err.buff)
      && out != err && out.buff != err.buff && out.req == req && err.req == req && out.Valid() && err.Valid()
      && out.View() == FcgiFraming.View.View(6, out.buff.Length - HEADER_LEN, [], false, false)
      && err.View() == FcgiFraming.View.View(7, err.buff.Length - HEADER_LEN, [], false, false)
      && req.nWriters == 2
    ensures ok ==> RoleShown(params.Contents(), req.role)
  {
    hide Fill, Go, Interpret, Answering, DecodePairs, RoleShown;
    AdmittedRole(req.ipc.inbox, req.requestId);
    ok, reader, params := AcceptInput(req, aligned);
    out, err := null, null;
    if ok {
      out, err := NewWriters(req);
    }
  }

  lemma AdmittedRole(u: seq<Byte>, previousId: nat)
    ensures var a := Admit(u, previousId); a.Admitted? ==> RoleShown(a.environment, a.role)
  {
    hide Fill, RoleEntry, RoleShown, NameValues;
    var begin := Fill(u, Between(false), Target(0, previousId, false)).ending;
    if begin.BeginSeen? && RESPONDER <= begin.role <= FILTER {
      var data := Fill(begin.rest, Between(false), Target(PARAMS, begin.newId, true)).data;
      RoleFirst(begin.role, NameValues(DecodePairs(data).pairs), []);
    }
  }

  predicate BeginShape(r: Record)
  {
    WellFormed(r) && r.typ == 1 && r.id != 0 && |r.content| == 8
  }

  predicate BeginRecord(r: Record)
  {
    BeginShape(r) && 1 <= RoleIn(r) <= 3
  }

  function RoleIn(r: Record): nat
    requires |r.content| == 8
  {
    (r.content[0] as int) * 256 + r.content[1]
  }

  /** A BEGIN_REQUEST record begins the request, unless the skip flag is pending. */
  lemma BeginFound(begin: Record, w: seq<Byte>, skip: bool, previousId: nat)
    requires BeginShape(begin)
    ensures Fill(Encode(begin) + w, Between(skip), Target(0, previousId, false)) ==
      if skip then Outcome([], Failed(-3))
      else Outcome([], BeginSeen(begin.padding + w, |begin.padding|, begin.id, RoleIn(begin), begin.content[2] % 2 == 1))
  {
    hide Go, Fill;
    var t := Target(0, previousId, false);
    RecordHeader(begin, skip, t, w);
    HeaderFields(begin.typ, begin.id, 8, |begin.padding|);
    var rest := begin.content + begin.padding + w;
    assert rest[8..] == begin.padding + w;
    assert rest[0] == begin.content[0] && rest[1] == begin.content[1] && rest[2] == begin.content[2];
  }

  /** A connection that ends inside the content of the BEGIN_REQUEST record, or before it. */
  lemma BeginCut(begin: Record, k: nat, skip: bool, previousId: nat)
    requires BeginShape(begin) && k < 16
    ensures Fill(Encode(begin)[..k], Between(skip), Target(0, previousId, false)) == Outcome([], Failed(-3))
  {
    var u, t := Encode(begin)[..k], Target(0, previousId, false);
    if k >= 8 {
      hide Go, Fill;
      assert u[..8] == Header(begin.typ, begin.id, 8, |begin.padding|);
      HeaderFields(begin.typ, begin.id, 8, |begin.padding|);
      HeaderDecides(u, skip, t);
    } else {
      hide Interpret;
    }
  }

  /** A role other than 1, 2 or 3 is refused. */
  lemma UnknownRoleRefused(begin: Record, w: seq<Byte>, previousId: nat)
    requires BeginShape(begin) && !(1 <= RoleIn(begin) <= 3)
    ensures Admit(Encode(begin) + w, previousId).Refused?
  {
    hide Fill;
    BeginFound(begin, w, false, previousId);
  }

  // Before the BEGIN_REQUEST record.

  /** Records of other requests and management records, while no request has begun. */
  predicate Early(before: seq<Record>, previousId: nat)
  {
    AllPassable(before, Target(0, previousId, false))
  }

  /** No content of an unknown management record comes through, and no skip is pending. */
  predicate Quiet(before: seq<Record>, previousId: nat)
  {
    var t := Target(0, previousId, false);
    !Leaks(before, false, t) && !SkipBehindAll(before, false, t)
  }

  lemma {:induction false} NothingLeaked(rs: seq<Record>, skip: bool, t: Target)
    requires AllPassable(rs, t) && !t.begun
    ensures Delivered(rs, skip, t) == [] <==> !Leaks(rs, skip, t)
    decreases |rs|
  {
    if rs != [] {
      assert forall i :: 0 <= i < |rs[1..]| ==> rs[1..][i] == rs[i + 1];
      NothingLeaked(rs[1..], SkipBehind(rs[0], skip, t), t);
    }
  }

  /** An admission with something sent before. */
  function AnsweredBefore(answers: seq<Byte>, a: Admission): Admission
  {
    if a.Admitted? then a.(answers := answers + a.answers) else a
  }

  /** What early records do to the admission of whatever follows. */
  lemma AdmitBehind(before: seq<Record>, u: seq<Byte>, previousId: nat)
    requires Early(before, previousId)
    ensures Leaks(before, false, Target(0, previousId, false)) ==> Admit(EncodeAll(before) + u, previousId).Refused?
    ensures Quiet(before, previousId) ==>
      Admit(EncodeAll(before) + u, previousId) == AnsweredBefore(AnswersTo(before), Admit(u, previousId))
  {
    hide Fill, AdmitAfter, AnswersTo, Delivered, Answering, Encode, AnsweredBefore;
    var t := Target(0, previousId, false);
    RecordsStep(before, false, t, u);
    NothingLeaked(before, false, t);
    AdmitAnswered(AnswersTo(before), Delivered(before, false, t), Fill(u, Between(SkipBehindAll(before, false, t)), t));
  }

  lemma AdmitAnswered(answers: seq<Byte>, data: seq<Byte>, o: Outcome)
    requires o.ending.BeginSeen? ==> 1 <= o.ending.newId <= 0xffff
    ensures var a := AdmitAfter(Answering(answers, Delivering(data, o)));
      if data == [] then a == AnsweredBefore(answers, AdmitAfter(o)) else a.Refused?
  {
    hide Fill, DecodePairs, RoleEntry, NameValues;
    NothingInFront(o);
    AnswersAdded(answers, o);
    if data == [] && AdmitAfter(o).Admitted? {
      var later := Fill(o.ending.rest, Between(false), Target(PARAMS, o.ending.newId, true)).answers;
      assert (answers + o.answers) + later == answers + (o.answers + later);
    }
  }

  lemma NothingInFront(o: Outcome)
    ensures Delivering([], o) == o
  {
    assert [] + o.data == o.data;
  }

  /** A pending skip makes the BEGIN_REQUEST record a protocol error. */
  lemma PendingSkipRefused(before: seq<Record>, begin: Record, w: seq<Byte>, previousId: nat)
    requires Early(before, previousId) && SkipBehindAll(before, false, Target(0, previousId, false)) && BeginShape(begin)
    ensures Admit(EncodeAll(before) + (Encode(begin) + w), previousId).Refused?
  {
    hide Fill, Answering, Encode;
    RecordsStep(before, false, Target(0, previousId, false), Encode(begin) + w);
    BeginFound(begin, w, true, previousId);
  }

  /** A record that still belongs to the previous request is a protocol error, too. */
  lemma PreviousRequestRefused(before: seq<Record>, r: Record, w: seq<Byte>, previousId: nat)
    requires Early(before, previousId)
    requires WellFormed(r) && r.id == previousId != 0 && r.typ != 0 && r.typ != 1
    ensures Admit(EncodeAll(before) + (Encode(r) + w), previousId).Refused?
  {
    hide Fill, Answering, Encode;
    var t := Target(0, previousId, false);
    RecordsStep(before, false, t, Encode(r) + w);
    RecordHeader(r, SkipBehindAll(before, false, t), t, w);
    HeaderFields(r.typ, r.id, |r.content|, |r.padding|);
  }

  // The request.

  /** A request with its parameters in any encoding and any cut into records, and the bytes v behind them. */
  predicate SoundRequest(begin: Record, records: seq<Record>, ps: seq<Spelled>, end: Record)
  {
    && BeginRecord(begin) && AllLegal(records, Target(4, begin.id, true)) && AllSpellable(ps)
    && Delivered(records, false, Target(4, begin.id, true)) == EncodePairs(ps)
    && WellFormed(end) && end.typ == 4 && end.id == begin.id && end.content == []
  }

  /** The admission that the request deserves, with what is sent in answer meanwhile. */
  function Deserved(begin: Record, ps: seq<Spelled>, end: Record, v: seq<Byte>, answers: seq<Byte>): Admission
    requires |begin.content| == 8
  {
    Admitted(begin.id, RoleIn(begin), begin.content[2] % 2 == 1,
             [RoleEntry(RoleIn(begin))] + NameValues(Plain(ps)), EndOfStream(end.padding + v, |end.padding|), answers)
  }

  /** The parameter records decide: they are admitted if and only if what they deliver is a sequence of whole pairs. */
  lemma RequestDecided(begin: Record, records: seq<Record>, end: Record, v: seq<Byte>, previousId: nat)
    requires BeginRecord(begin) && begin.padding == [] && AllLegal(records, Target(4, begin.id, true))
    requires WellFormed(end) && end.typ == 4 && end.id == begin.id && end.content == []
    ensures var d := DecodePairs(Delivered(records, false, Target(4, begin.id, true)));
      Admit(Encode(begin) + (EncodeAll(records) + (Encode(end) + v)), previousId) ==
      if !d.complete then Refused
      else Admitted(begin.id, RoleIn(begin), begin.content[2] % 2 == 1, [RoleEntry(RoleIn(begin))] + NameValues(d.pairs),
                    EndOfStream(end.padding + v, |end.padding|), AnswersTo(records))
  {
    hide Go, Fill, DecodePairs, RoleEntry, NameValues;
    var w := EncodeAll(records) + (Encode(end) + v);
    BeginFound(begin, w, false, previousId);
    assert begin.padding + w == w;
    Demultiplexed(records, end, Target(4, begin.id, true), v);
    assert [] + AnswersTo(records) == AnswersTo(records);
  }

  /**
    A request whose BEGIN_REQUEST record is not padded, behind any early records: it is admitted with
    its role and all its parameters, for every encoding of the parameters and every cut of them into
    records, if and only if the early records are quiet; else it is refused. Every BEGIN_REQUEST and
    unknown management record is answered.
   */
  lemma RequestAdmitted(before: seq<Record>, begin: Record, records: seq<Record>, ps: seq<Spelled>, end: Record,
      v: seq<Byte>, previousId: nat)
    requires Early(before, previousId) && SoundRequest(begin, records, ps, end) && begin.padding == []
    ensures Admit(EncodeAll(before) + (Encode(begin) + (EncodeAll(records) + (Encode(end) + v))), previousId) ==
      if Quiet(before, previousId) then Deserved(begin, ps, end, v, AnswersTo(before) + AnswersTo(records)) else Refused
  {
    hide Admit, DecodePairs, RoleEntry, NameValues, EncodePairs, Encode, Leaks;
    var w := EncodeAll(records) + (Encode(end) + v);
    RequestDecided(begin, records, end, v, previousId);
    PairsRoundTrip(ps);
    AdmitBehind(before, Encode(begin) + w, previousId);
    if SkipBehindAll(before, false, Target(0, previousId, false)) {
      PendingSkipRefused(before, begin, w, previousId);
    }
  }

  /** What FCGX_GetParam finds in the environment of a request: the role, and the first value of every other name. */
  lemma RequestLookup(begin: Record, ps: seq<Spelled>, name: seq<Byte>)
    requires BeginRecord(begin) && PlainNames(Plain(ps)) && NoEquals(name)
    ensures var environment := [RoleEntry(RoleIn(begin))] + NameValues(Plain(ps));
      && RoleShown(environment, (begin.content[0] as int) * 256 + begin.content[1])
      && (name != Bytes("FCGI_ROLE") ==> FirstValue(Plain(ps), name, Lookup(environment, name)))
  {
    hide RoleEntry, RoleShown, Bytes, NameValues, FirstValue;
    RoleFirst(RoleIn(begin), NameValues(Plain(ps)), name);
    LookupPairs(Plain(ps), name);
  }

  // Padding behind a record that SetReaderType makes the reader forget.

  /** The header fields of h end the stream at once: a record that is refused, or the empty record of the stream. */
  predicate StoppingHeader(h: seq<Byte>, t: Target)
    requires |h| == HEADER_LEN
  {
    var id := RequestIdOf(h);
    if h[1] == BEGIN_REQUEST then id == 0 || ContentLenOf(h) != 8
    else id == t.id && (h[1] != t.typ || ContentLenOf(h) == 0)
  }

  /** Bytes at the place of a header that let no later record be reached. */
  predicate Stopping(u: seq<Byte>, t: Target)
  {
    u != [] && (u[0] != VERSION_1 || (|u| >= HEADER_LEN && StoppingHeader(u[..HEADER_LEN], t)))
  }

  /** Nothing is delivered or answered, and the stream fails or ends too early. */
  lemma Stopped(u: seq<Byte>, w: seq<Byte>, t: Target)
    requires Reading(t) && Stopping(u, t)
    ensures var o := Fill(u + w, Between(false), t);
      o.data == [] && o.answers == [] && (o.ending.Failed? || (o.ending.EndOfStream? && |o.ending.rest| + HEADER_LEN == |u + w|))
  {
    var s := u + w;
    assert s[0] == u[0];
    if |s| >= HEADER_LEN {
      assert |u| >= HEADER_LEN ==> s[..HEADER_LEN] == u[..HEADER_LEN];
      StoppedByHeader(s, t);
    } else {
      hide Interpret;
    }
  }

  lemma StoppedByHeader(s: seq<Byte>, t: Target)
    requires Reading(t) && |s| >= HEADER_LEN && (s[0] != VERSION_1 || StoppingHeader(s[..HEADER_LEN], t))
    ensures var o := Fill(s, Between(false), t);
      o.data == [] && o.answers == [] && (o.ending.Failed? || (o.ending.EndOfStream? && |o.ending.rest| + HEADER_LEN == |s|))
  {
    hide Go, Interpret;
    assert [] + s == s;
    HeaderPart([], s, Between(false), t);
    Decided(s[..HEADER_LEN], s[HEADER_LEN..], t);
  }

  lemma Decided(h: seq<Byte>, r: seq<Byte>, t: Target)
    requires Reading(t) && |h| == HEADER_LEN && (h[0] != VERSION_1 || StoppingHeader(h, t))
    ensures var o := Interpret(h, r, false, t);
      o.data == [] && o.answers == [] && (o.ending.Failed? || o.ending == EndOfStream(r, h[6]))
  {
    hide Fill;
  }

  /** Padding made of whole records that deliver nothing and leave nothing to be skipped, and then tail. */
  predicate PaddedWith(padding: seq<Byte>, rs: seq<Record>, tail: seq<Byte>, t: Target)
  {
    AllLegal(rs, t) && Delivered(rs, false, t) == [] && !SkipBehindAll(rs, false, t) && padding == EncodeAll(rs) + tail
  }

  /** What such padding does to the stream behind it. */
  lemma PaddingStep(padding: seq<Byte>, rs: seq<Record>, tail: seq<Byte>, t: Target, w: seq<Byte>)
    requires Reading(t) && PaddedWith(padding, rs, tail, t)
    ensures Fill(padding + w, Between(false), t) == Answering(AnswersTo(rs), Fill(tail + w, Between(false), t))
  {
    hide Fill, Go, Answering, Encode, EncodeAll, Delivered, SkipBehindAll, AnswersTo;
    RecordsStep(rs, false, t, tail + w);
    InFront(EncodeAll(rs), tail, w, Fill(tail + w, Between(false), t));
  }

  lemma InFront(a: seq<Byte>, b: seq<Byte>, c: seq<Byte>, o: Outcome)
    ensures (a + b) + c == a + (b + c) && Delivering([], o) == o
  {
    assert [] + o.data == o.data;
  }

  /**
    With padding behind the BEGIN_REQUEST record that does not begin with the version byte, the
    request is admitted all the same, but without any of its parameters.
   */
  lemma PaddedBeginLosesParameters(begin: Record, w: seq<Byte>, previousId: nat)
    requires BeginRecord(begin) && begin.padding != [] && begin.padding[0] != VERSION_1
    ensures var a := Admit(Encode(begin) + w, previousId);
      a.Admitted? && a.environment == [RoleEntry(RoleIn(begin))] && a.ending.Failed?
  {
    hide RoleEntry, Fill, Go;
    BeginFound(begin, w, false, previousId);
    NoHeader(begin.padding, w, Target(4, begin.id, true));
    assert DecodePairs([]) == Decoded([], true);
    assert [RoleEntry(RoleIn(begin))] + NameValues([]) == [RoleEntry(RoleIn(begin))];
  }

  /** Bytes that do not begin with the version are no header: nothing is delivered, and the stream fails. */
  lemma NoHeader(u: seq<Byte>, w: seq<Byte>, t: Target)
    requires u != [] && u[0] != VERSION_1
    ensures Fill(u + w, Between(false), t) == Outcome([], Failed(if |u + w| < 8 then -3 else -2))
  {
    var s := u + w;
    assert s[0] == u[0];
    if |s| >= HEADER_LEN {
      assert EncodeAll([]) + s == s;
      VersionRejected([], s, false, t);
    } else {
      hide Interpret;
    }
  }

  /**
    The padding behind BEGIN_REQUEST is read as records. When it is whole records that deliver and
    skip nothing, and then bytes that stop the reader, the request is admitted as it deserves if
    and only if there are no such bytes.
   */
  lemma AdmittedIffNotStopped(begin: Record, padding: seq<Record>, tail: seq<Byte>, records: seq<Record>, ps: seq<Spelled>,
      end: Record, v: seq<Byte>, previousId: nat)
    requires SoundRequest(begin, records, ps, end)
    requires var t := Target(4, begin.id, true);
      PaddedWith(begin.padding, padding, tail, t) && (tail == [] || Stopping(tail, t))
    ensures Admit(Encode(begin) + (EncodeAll(records) + (Encode(end) + v)), previousId)
        == Deserved(begin, ps, end, v, AnswersTo(padding) + AnswersTo(records))
      <==> tail == []
  {
    hide Go, Fill, DecodePairs, RoleEntry, NameValues, EncodePairs, Encode;
    var t, w := Target(4, begin.id, true), EncodeAll(records) + (Encode(end) + v);
    BeginFound(begin, w, false, previousId);
    PaddingStep(begin.padding, padding, tail, t, w);
    if tail == [] {
      assert tail + w == w;
      Demultiplexed(records, end, t, v);
      AnswersAdded(AnswersTo(padding), Fill(w, Between(false), t));
      PairsRoundTrip(ps);
    } else {
      Stopped(tail, w, t);
      assert |tail + w| > HEADER_LEN + |end.padding + v|;
    }
  }

  lemma NoPadding(begin: seq<Byte>, t: Target, answers: seq<Byte>)
    ensures PaddedWith(begin, [], begin, t) && AnswersTo([]) + answers == answers
  {
    assert EncodeAll([]) + begin == begin;
  }

  /**
    Unless the padding behind BEGIN_REQUEST begins with the version byte, the request is admitted
    as it deserves if and only if there is no padding.
   */
  lemma AdmittedIffUnpadded(begin: Record, records: seq<Record>, ps: seq<Spelled>, end: Record, v: seq<Byte>, previousId: nat)
    requires SoundRequest(begin, records, ps, end)
    requires begin.padding == [] || begin.padding[0] != VERSION_1
    ensures Admit(Encode(begin) + (EncodeAll(records) + (Encode(end) + v)), previousId)
        == Deserved(begin, ps, end, v, AnswersTo(records))
      <==> begin.padding == []
  {
    hide Admit, Deserved, Encode, EncodePairs, StoppingHeader, PaddedWith;
    NoPadding(begin.padding, Target(4, begin.id, true), AnswersTo(records));
    AdmittedIffNotStopped(begin, [], begin.padding, records, ps, end, v, previousId);
  }

  const EMPTY_UNKNOWN: Record := Record(77, 0, [], [])

  lemma EmptyUnknown(t: Target)
    ensures PaddedWith([1, 77, 0, 0, 0, 0, 0, 0], [EMPTY_UNKNOWN], [], t) && AnswersTo([EMPTY_UNKNOWN]) == UnknownAnswer(77)
  {
    var r := EMPTY_UNKNOWN;
    assert [r][1..] == [];
    assert EncodeAll([r]) == Encode(r) + [] && Encode(r) == Header(77, 0, 0, 0) + [] + [];
    assert [1, 77, 0, 0, 0, 0, 0, 0] == EncodeAll([r]) + [];
    assert Delivered([r], false, t) == [] + [] && UnknownAnswer(77) + [] == UnknownAnswer(77);
    assert AnswersTo([r]) == AnswerTo(r) + AnswersTo([r][1..]) && AnswersTo([r][1..]) == [];
    assert !SkipBehind(r, false, t) && SkipBehindAll([r], false, t) == SkipBehindAll([], false, t);
  }

  /** Eight bytes of padding that are an empty unknown management record, and so do no harm. */
  lemma HarmlessPadding(begin: Record, records: seq<Record>, ps: seq<Spelled>, end: Record, v: seq<Byte>, previousId: nat)
    requires SoundRequest(begin, records, ps, end) && begin.padding == [1, 77, 0, 0, 0, 0, 0, 0]
    ensures Admit(Encode(begin) + (EncodeAll(records) + (Encode(end) + v)), previousId) ==
      Deserved(begin, ps, end, v, UnknownAnswer(77) + AnswersTo(records))
  {
    hide Admit, Deserved, EncodePairs, PaddedWith, Encode, UnknownAnswer;
    EmptyUnknown(Target(4, begin.id, true));
    AdmittedIffNotStopped(begin, [EMPTY_UNKNOWN], [], records, ps, end, v, previousId);
  }

  /**
    The padding of the empty PARAMS record is forgotten too. In the same way, the STDIN records
    behind it are delivered if and only if nothing in it stops the reader.
   */
  lemma StdinIffNotStopped(end: Record, padding: seq<Record>, tail: seq<Byte>, stdin: seq<Record>, last: Record, v: seq<Byte>)
    requires WellFormed(end) && end.id != 0
    requires var t := Target(5, end.id, true);
      && PaddedWith(end.padding, padding, tail, t) && (tail == [] || Stopping(tail, t)) && AllLegal(stdin, t)
    requires WellFormed(last) && last.typ == 5 && last.id == end.id && last.content == []
    ensures var t := Target(5, end.id, true);
      Fill(end.padding + (EncodeAll(stdin) + (Encode(last) + v)), Between(false), t) ==
        Outcome(Delivered(stdin, false, t), EndOfStream(last.padding + v, |last.padding|), AnswersTo(padding) + AnswersTo(stdin))
      <==> tail == []
  {
    hide Go, Fill, Encode;
    var t, w := Target(5, end.id, true), EncodeAll(stdin) + (Encode(last) + v);
    PaddingStep(end.padding, padding, tail, t, w);
    if tail == [] {
      assert tail + w == w;
      Demultiplexed(stdin, last, t, v);
      AnswersAdded(AnswersTo(padding), Fill(w, Between(false), t));
    } else {
      Stopped(tail, w, t);
      assert |tail + w| > HEADER_LEN + |last.padding + v|;
    }
  }

  /** Unless that padding begins with the version byte, they are delivered if and only if there is none. */
  lemma StdinIffUnpadded(end: Record, stdin: seq<Record>, last: Record, v: seq<Byte>)
    requires WellFormed(end) && end.id != 0 && (end.padding == [] || end.padding[0] != VERSION_1)
    requires AllLegal(stdin, Target(5, end.id, true))
    requires WellFormed(last) && last.typ == 5 && last.id == end.id && last.content == []
    ensures var t := Target(5, end.id, true);
      Fill(end.padding + (EncodeAll(stdin) + (Encode(last) + v)), Between(false), t)
        == Outcome(Delivered(stdin, false, t), EndOfStream(last.padding + v, |last.padding|), AnswersTo(stdin))
      <==> end.padding == []
  {
    hide Go, Fill, Encode, StoppingHeader, PaddedWith;
    NoPadding(end.padding, Target(5, end.id, true), AnswersTo(stdin));
    StdinIffNotStopped(end, [], end.padding, stdin, last, v);
  }
}
