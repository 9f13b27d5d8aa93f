/** One request from its acceptance to its END_REQUEST record, on the objects. */
module FcgiRequest {
  import opened FcgiWire
  import opened FcgiConnection
  import FcgiReader
  import opened FcgiFraming
  import opened FcgiWriter
  import opened FcgiStreams
  import opened FcgiPairs
  import opened FcgiAccept
  import opened FcgiEndRequest

  lemma FinishSetsNoStatus(status: int)
    ensures LastStatus(FINISH, status) == status
  {
    assert FINISH[0].OnErr? && FINISH[1..] == [FINISH[1]] && FINISH[1].OnOut?;
    assert LastStatus([FINISH[1]], status) == LastStatus([FINISH[1]][1..], status);
  }

  /** The last sixteen bytes sent are the END_REQUEST record with the status, and protocol status 0. */
  predicate LastOnWire(sent: seq<Byte>, id: nat, status: int)
  {
    |sent| >= 16 && EndsOnWire(sent[|sent| - 16..], id, status, 0)
  }

  lemma LastRecordOnWire(sent: seq<Byte>, records: seq<Record>, id: nat, status: int)
    requires Sendable(records) && id <= 0xffff && EndsOnce(records, id, status)
    ensures LastOnWire(sent + EncodeAll(records), id, status)
  {
    hide Encode, EncodeAll, Ongoing, EndsOnWire;
    var front, last := records[..|records| - 1], records[|records| - 1];
    assert records == front + [last];
    EncodeAppend(front, [last]);
    EncodeOne(last);
    EndRequestOnWire(id, status, REQUEST_COMPLETE);
    var all := sent + (EncodeAll(front) + Encode(last));
    assert all[|all| - 16..] == Encode(last);
  }

  /** Any calls of the application and FCGX_Finish_r: on the wire there is one END_REQUEST, behind everything else. */
  method ServeAndFinish(steps: seq<Step>, out: Writer, err: Writer, inError: int)
    returns (close: bool, ghost records: seq<Record>)
    requires out.Valid() && err.Valid() && out.req == err.req && out.buff != err.buff && out != err
    requires Consistent(ServiceOf(out, err)) && out.req.nWriters == 2
    modifies out, out.buff, err, err.buff, out.req.ipc`sent, out.req`nWriters, out.req`appStatus
    ensures out.Valid() && err.Valid() && out.isClosed && err.isClosed && out.req.nWriters == 0
    ensures close <==> !out.req.keepConnection || inError != 0
    ensures Sendable(records) && out.req.ipc.sent == old(out.req.ipc.sent) + EncodeAll(records)
    ensures out.req.requestId <= 0xffff
    ensures EndsOnce(records, out.req.requestId, StatusSent(steps, true, true, old(out.req.appStatus)))
    ensures LastOnWire(out.req.ipc.sent, out.req.requestId, StatusSent(steps, true, true, old(out.req.appStatus)))
    ensures out.req.appStatus == LastStatus(steps, old(out.req.appStatus))
  {
    hide Encode, EncodeAll, Serve, EndsOnce, LastOnWire, LastStatus, StatusSent, StatusAtEnd, FINISH, Sound;
    ghost var sv, id, sent := ServiceOf(out, err), out.req.requestId, out.req.ipc.sent;
    ghost var served := Serve(sv, id, steps);
    ghost var ended := Serve(served.service, id, FINISH);
    PerformSteps(steps, out, err);
    close := FinishRequest(out, err, inError);
    records := served.records + ended.records;
    EncodeAppend(served.records, ended.records);
    assert (sent + EncodeAll(served.records)) + EncodeAll(ended.records) == sent + (EncodeAll(served.records) + EncodeAll(ended.records));
    EndOfService(sv, id, steps);
    LastRecordOnWire(sent, records, id, StatusSent(steps, true, true, sv.appStatus));
  }

  lemma EndOfService(sv: Service, id: nat, steps: seq<Step>)
    requires Consistent(sv) && id <= 0xffff && sv.nWriters == 2
    ensures var served := Serve(sv, id, steps);
      var ended := Serve(served.service, id, FINISH);
      && EndsOnce(served.records + ended.records, id, StatusSent(steps, true, true, sv.appStatus))
      && ended.service.nWriters == 0 && ended.service.appStatus == LastStatus(steps, sv.appStatus)
  {
    hide EndsOnce, After, FINISH, StatusSent, StatusAtEnd, LastStatus, Serve, Sound;
    var served := Serve(sv, id, steps);
    ServeAppend(sv, id, steps, FINISH);
    ExactlyOneEndRequest(sv, id, steps, []);
    assert steps + FINISH + [] == steps + FINISH;
    EndRequestSafety(sv, id, steps);
    StatusFromCalls(sv, id, steps);
    StatusIsLastSet(sv, id, steps);
    StatusIsLastSet(served.service, id, FINISH);
    FinishSetsNoStatus(served.service.appStatus);
  }

  /**
    One request on an open connection, its STDIN left unread, from the bytes the server sends to the bytes it gets:
    the answers of the acceptance, and then what the calls of the application and FCGX_Finish_r add, which ends with
    their one END_REQUEST record. Its status starts from what the previous request left behind.
   */
  method HandleRequest(req: Request, aligned: bool, steps: seq<Step>)
    returns (ok: bool, close: bool, ghost records: seq<Record>)
    modifies req, req.ipc
    ensures var a := old(Admit(req.ipc.inbox, req.requestId));
      && (ok <==> a.Admitted?)
      && (ok ==>
        && Sendable(records) && req.ipc.sent == old(req.ipc.sent) + a.answers + EncodeAll(records)
        && EndsOnce(records, a.id, StatusSent(steps, true, true, old(req.appStatus)))
        && LastOnWire(req.ipc.sent, a.id, StatusSent(steps, true, true, old(req.appStatus)))
        && req.appStatus == LastStatus(steps, old(req.appStatus)) && req.nWriters == 0
        && (close <==> !a.keep || !a.ending.EndOfStream?))
  {
    hide Encode, EncodeAll, EndsOnce, LastOnWire, LastStatus, StatusSent, Admit;
    records, close := [], true;
    var reader, params, out, err;
    ok, reader, params, out, err := AcceptRequest(req, aligned);
    if ok {
      close, records := ServeAndFinish(steps, out, err, reader.fcgiErrno);
    }
  }

  // The END_REQUEST records that the Web server gets for one request id.

  function EndsFor(rs: seq<Record>, id: nat): nat
  {
    if rs == [] then 0 else (if rs[0].typ == 3 && rs[0].id == id then 1 else 0) + EndsFor(rs[1..], id)
  }

  predicate BegunAgain(rs: seq<Record>, id: nat)
  {
    exists i :: 0 <= i < |rs| && ExtraBegin(rs[i]) && rs[i].id == id
  }

  lemma {:induction false} EndsForAppend(a: seq<Record>, b: seq<Record>, id: nat)
    ensures EndsFor(a + b, id) == EndsFor(a, id) + EndsFor(b, id)
    decreases |a|
  {
    if a == [] {
      assert a + b == b;
    } else {
      assert (a + b)[1..] == a[1..] + b;
      EndsForAppend(a[1..], b, id);
    }
  }

  lemma {:induction false} OngoingEnds(rs: seq<Record>, id: nat)
    requires Ongoing(rs)
    ensures EndsFor(rs, id) == 0
    decreases |rs|
  {
    if rs != [] {
      OngoingEnds(rs[1..], id);
    }
  }

  lemma EndsOnceCounted(rs: seq<Record>, id: nat, status: int)
    requires id <= 0xffff && EndsOnce(rs, id, status)
    ensures EndsFor(rs, id) == 1
  {
    var front, last := rs[..|rs| - 1], rs[|rs| - 1];
    OngoingEnds(front, id);
    assert rs == front + [last] && [last][1..] == [];
    EndsForAppend(front, [last], id);
    assert EndsFor([last], id) == 1 + EndsFor([last][1..], id);
  }

  /** Every refused BEGIN_REQUEST of the id is one END_REQUEST more. */
  lemma {:induction false} RepliesCounted(rs: seq<Record>, id: nat)
    requires forall i :: 0 <= i < |rs| ==> WellFormed(rs[i])
    ensures EndsFor(Replies(rs), id) > 0 <==> BegunAgain(rs, id)
    decreases |rs|
  {
    hide ExtraBegin;
    if rs != [] {
      RepliesCounted(rs[1..], id);
      var here := ReplyTo(rs[0]);
      EndsForAppend(here, Replies(rs[1..]), id);
      assert here != [] ==> here[1..] == [];
      BegunAgainCons(rs, id);
    }
  }

  lemma BegunAgainCons(rs: seq<Record>, id: nat)
    requires rs != []
    ensures BegunAgain(rs, id) <==> (ExtraBegin(rs[0]) && rs[0].id == id) || BegunAgain(rs[1..], id)
  {
    hide ExtraBegin;
    if BegunAgain(rs, id) && !(ExtraBegin(rs[0]) && rs[0].id == id) {
      var i :| 0 <= i < |rs| && ExtraBegin(rs[i]) && rs[i].id == id;
      assert rs[1..][i - 1] == rs[i];
    } else if BegunAgain(rs[1..], id) {
      var i :| 0 <= i < |rs[1..]| && ExtraBegin(rs[1..][i]) && rs[1..][i].id == id;
      assert rs[i + 1] == rs[1..][i];
    }
  }

  /**
    A whole request with an unpadded BEGIN_REQUEST record behind quiet early records, accepted: the ids,
    the flag, and what FCGX_GetParam finds in the vector of parameters.
   */
  method AcceptSoundRequest(req: Request, aligned: bool, ghost before: seq<Record>, ghost begin: Record, ghost records: seq<Record>,
      ghost ps: seq<Spelled>, ghost end: Record, ghost v: seq<Byte>)
    returns (reader: FcgiReader.Reader, params: Params, out: Writer?, err: Writer?)
    requires Early(before, req.requestId) && Quiet(before, req.requestId)
    requires SoundRequest(begin, records, ps, end) && begin.padding == []
    requires req.ipc.inbox == EncodeAll(before) + (Encode(begin) + (EncodeAll(records) + (Encode(end) + v)))
    modifies req, req.ipc
    ensures params.Valid() && out != null && err != null && req.requestId == begin.id
    ensures req.keepConnection <==> begin.content[2] % 2 == 1
    ensures Null in params.vec[..]
    ensures var environment := Strings(params.vec[..]);
      && RoleShown(environment, (begin.content[0] as int) * 256 + begin.content[1])
      && forall name :: PlainNames(Plain(ps)) && NoEquals(name) && name != Bytes("FCGI_ROLE") ==>
        FirstValue(Plain(ps), name, Lookup(environment, name))
  {
    hide Admit, SoundRequest, Encode, EncodeAll, EncodePairs, RoleShown, RoleEntry, NameValues, FirstValue, Lookup, Strings, Leaks;
    RequestAdmitted(before, begin, records, ps, end, v, req.requestId);
    assert BeginRecord(begin) by { SoundBegins(begin, records, ps, end); }
    var ok;
    ok, reader, params, out, err := AcceptRequest(req, aligned);
    ContentsAreStrings(params);
    RequestRole(begin, ps);
    forall name | PlainNames(Plain(ps)) && NoEquals(name) && name != Bytes("FCGI_ROLE")
      ensures FirstValue(Plain(ps), name, Lookup(Strings(params.vec[..]), name))
    {
      RequestLookup(begin, ps, name);
    }
  }

  lemma SoundBegins(begin: Record, records: seq<Record>, ps: seq<Spelled>, end: Record)
    requires SoundRequest(begin, records, ps, end)
    ensures BeginRecord(begin)
  {
  }

  lemma RequestRole(begin: Record, ps: seq<Spelled>)
    requires BeginRecord(begin)
    ensures RoleShown([RoleEntry(RoleIn(begin))] + NameValues(Plain(ps)), (begin.content[0] as int) * 256 + begin.content[1])
  {
    hide RoleEntry, RoleShown, NameValues;
    RoleFirst(RoleIn(begin), NameValues(Plain(ps)), []);
  }

  /**
    The same request answered, as bytes on the connection: what is sent are the answers to early records, further
    BEGIN_REQUEST and unknown management records and then the records of the application, with the
    END_REQUEST of the request at the end. It is the only one with the id of the request if and
    only if no further BEGIN_REQUEST among the parameters has that id.
   */
  method AnswerRequest(req: Request, aligned: bool, steps: seq<Step>, ghost before: seq<Record>, ghost begin: Record,
      ghost records: seq<Record>, ghost ps: seq<Spelled>, ghost end: Record, ghost v: seq<Byte>)
    returns (close: bool, ghost wire: seq<Record>)
    requires Early(before, req.requestId) && Quiet(before, req.requestId)
    requires SoundRequest(begin, records, ps, end) && begin.padding == []
    requires req.ipc.inbox == EncodeAll(before) + (Encode(begin) + (EncodeAll(records) + (Encode(end) + v)))
    modifies req, req.ipc
    ensures Sendable(wire) && req.ipc.sent == old(req.ipc.sent) + EncodeAll(wire)
    ensures wire != [] && Replies(before) + Replies(records) <= wire
    ensures wire[|wire| - 1] == EndRequest(begin.id, StatusSent(steps, true, true, old(req.appStatus)), 0)
    ensures LastOnWire(req.ipc.sent, begin.id, StatusSent(steps, true, true, old(req.appStatus)))
    ensures EndsFor(wire, begin.id) == 1 <==> !BegunAgain(records, begin.id)
    ensures close <==> begin.content[2] % 2 == 0
  {
    hide Admit, SoundRequest, Encode, EncodeAll, Replies, EndsOnce, LastOnWire, LastStatus, StatusSent, Leaks, Early;
    ghost var id, status, sent := begin.id, StatusSent(steps, true, true, req.appStatus), req.ipc.sent;
    SoundAdmission(before, begin, records, ps, end, v, req.requestId);
    ghost var answers := Replies(before) + Replies(records);
    ghost var out;
    var ok;
    ok, close, out := HandleRequest(req, aligned, steps);
    wire := answers + out;
    WireCounted(before, records, out, id, status);
    SentTogether(sent, EncodeAll(answers), EncodeAll(out));
  }

  lemma SentTogether(sent: seq<Byte>, answers: seq<Byte>, records: seq<Byte>)
    ensures (sent + answers) + records == sent + (answers + records)
  {
  }

  /** What the application depends on in the admission of a sound request. */
  lemma SoundAdmission(before: seq<Record>, begin: Record, records: seq<Record>, ps: seq<Spelled>, end: Record, v: seq<Byte>, previousId: nat)
    requires Early(before, previousId) && Quiet(before, previousId) && SoundRequest(begin, records, ps, end) && begin.padding == []
    ensures begin.id <= 0xffff && |begin.content| == 8
    ensures (forall i :: 0 <= i < |records| ==> WellFormed(records[i])) && (forall i :: 0 <= i < |before| ==> WellFormed(before[i]))
    ensures var answers := Replies(before) + Replies(records);
      var a := Admit(EncodeAll(before) + (Encode(begin) + (EncodeAll(records) + (Encode(end) + v))), previousId);
      && a.Admitted? && a.id == begin.id && Sendable(answers) && a.answers == EncodeAll(answers) && a.ending.EndOfStream?
      && (a.keep <==> begin.content[2] % 2 == 1) && !BegunAgain(before, begin.id)
  {
    hide Admit, Encode, EncodeAll, EncodePairs, RoleEntry, NameValues, Replies, Delivered, Leaks;
    RequestAdmitted(before, begin, records, ps, end, v, previousId);
    AnswersAreReplies(before);
    AnswersAreReplies(records);
    EncodeAppend(Replies(before), Replies(records));
  }

  lemma WireCounted(before: seq<Record>, records: seq<Record>, out: seq<Record>, id: nat, status: int)
    requires (forall i :: 0 <= i < |records| ==> WellFormed(records[i])) && (forall i :: 0 <= i < |before| ==> WellFormed(before[i]))
    requires !BegunAgain(before, id) && Sendable(out) && id <= 0xffff && EndsOnce(out, id, status)
    ensures var answers := Replies(before) + Replies(records);
      var wire := answers + out;
      && wire != [] && wire[|wire| - 1] == EndRequest(id, status, 0) && Sendable(wire) && Sendable(answers)
      && EncodeAll(wire) == EncodeAll(answers) + EncodeAll(out)
      && (EndsFor(wire, id) == 1 <==> !BegunAgain(records, id))
  {
    hide Encode, EncodeAll, Replies, BegunAgain;
    var answers := Replies(before) + Replies(records);
    EncodeAppend(answers, out);
    EndsForAppend(answers, out, id);
    EndsForAppend(Replies(before), Replies(records), id);
    EndsOnceCounted(out, id, status);
    RepliesCounted(before, id);
    RepliesCounted(records, id);
  }
}
