/** The out and err writers of one request together: exactly one END_REQUEST, as the last record. */
module FcgiEndRequest {
  import opened FcgiWire
  import opened FcgiConnection
  import opened FcgiReader
  import opened FcgiFraming
  import opened FcgiWriter
  import opened FcgiService

  /** The two writers, and the request fields they share. */
  datatype Service = Service(out: View, err: View, nWriters: int, appStatus: int)

  datatype Step = OnOut(act: Act) | OnErr(act: Act) | SetExitStatus(status: int)

  datatype Outputs = Outputs(service: Service, records: seq<Record>)

  predicate Consistent(sv: Service)
  {
    && Sound(sv.out) && Sound(sv.err) && sv.out.typ == 6 && sv.err.typ == 7
    && sv.nWriters == (if sv.out.closed then 0 else 1) + (if sv.err.closed then 0 else 1)
  }

  predicate Sendable(rs: seq<Record>)
  {
    forall i :: 0 <= i < |rs| ==> WellFormed(rs[i])
  }

  /** One act on one of the writers, with the shared counter and status. */
  function Affect(v: View, id: nat, a: Act, nWriters: int, appStatus: int): (e: Effect)
    requires Sound(v) && id <= 0xffff
    ensures Sound(e.view) && e.view.typ == v.typ && Sendable(e.records)
  {
    if a.Close? then CloseEffect(v, id, nWriters == 1, appStatus) else ActEffect(v, id, a)
  }

  function After(sv: Service, id: nat, s: Step): (o: Outputs)
    requires Consistent(sv) && id <= 0xffff
    ensures Consistent(o.service) && Sendable(o.records)
  {
    match s
    case OnOut(a) =>
      var e := Affect(sv.out, id, a, sv.nWriters, sv.appStatus);
      Outputs(sv.(out := e.view, nWriters := sv.nWriters - if !sv.out.closed && a.Close? then 1 else 0), e.records)
    case OnErr(a) =>
      var e := Affect(sv.err, id, a, sv.nWriters, sv.appStatus);
      Outputs(sv.(err := e.view, nWriters := sv.nWriters - if !sv.err.closed && a.Close? then 1 else 0), e.records)
    case SetExitStatus(n) => Outputs(sv.(appStatus := n), [])
  }

  function Serve(sv: Service, id: nat, steps: seq<Step>): (o: Outputs)
    requires Consistent(sv) && id <= 0xffff
    ensures Consistent(o.service) && Sendable(o.records)
    decreases |steps|
  {
    if steps == [] then Outputs(sv, [])
    else
      var first := After(sv, id, steps[0]);
      var later := Serve(first.service, id, steps[1..]);
      Outputs(later.service, first.records + later.records)
  }

  /** FCGX_Finish_r closes err first. */
  const FINISH: seq<Step> := [OnErr(Close), OnOut(Close)]

  /** The exit status in force when the last writer is closed, or at the end. */
  function StatusAtEnd(sv: Service, id: nat, steps: seq<Step>): int
    requires Consistent(sv) && id <= 0xffff
    decreases |steps|
  {
    if steps == [] || sv.nWriters == 0 then sv.appStatus
    else
      var next := After(sv, id, steps[0]).service;
      if next.nWriters == 0 then sv.appStatus else StatusAtEnd(next, id, steps[1..])
  }

  /** No END_REQUEST record. */
  predicate Ongoing(rs: seq<Record>)
  {
    forall i :: 0 <= i < |rs| ==> rs[i].typ != 3
  }

  /** END_REQUEST once, at the end, with the status given. */
  predicate EndsOnce(rs: seq<Record>, id: nat, status: int)
    requires id <= 0xffff
  {
    rs != [] && rs[|rs| - 1] == EndRequest(id, status, 0) && Ongoing(rs[..|rs| - 1])
  }

  lemma OneStep(sv: Service, id: nat, s: Step)
    requires Consistent(sv) && id <= 0xffff
    ensures var o := After(sv, id, s);
      if sv.nWriters == 0 then o.records == [] && o.service.nWriters == 0
      else if o.service.nWriters == 0 then EndsOnce(o.records, id, sv.appStatus)
      else Ongoing(o.records)
  {
    if s.OnOut? {
      OneEffect(sv.out, id, s.act, sv.nWriters, sv.appStatus);
    } else if s.OnErr? {
      OneEffect(sv.err, id, s.act, sv.nWriters, sv.appStatus);
    }
  }

  lemma OneEffect(v: View, id: nat, a: Act, nWriters: int, appStatus: int)
    requires Sound(v) && id <= 0xffff && v.typ != END_REQUEST
    ensures var rs := Affect(v, id, a, nWriters, appStatus).records;
      if v.closed then rs == []
      else if a.Close? && nWriters == 1 then EndsOnce(rs, id, appStatus)
      else Ongoing(rs)
  {
    hide Spill;
    if !v.closed && a.Close? {
      var rs := CloseRecords(v, id, nWriters == 1, appStatus);
      if nWriters == 1 {
        assert rs[..|rs| - 1] == CloseRecords(v, id, false, appStatus);
      }
    }
  }

  /**
    Over every run: the counter is the number of open writers; while it is positive there is
    no END_REQUEST; when it has reached zero there is exactly one, it is the last record, and
    it carries the status in force at the last close.
   */
  lemma {:induction false} EndRequestSafety(sv: Service, id: nat, steps: seq<Step>)
    requires Consistent(sv) && id <= 0xffff
    ensures var o := Serve(sv, id, steps);
      if sv.nWriters == 0 then o.records == [] && o.service.nWriters == 0
      else if o.service.nWriters == 0 then EndsOnce(o.records, id, StatusAtEnd(sv, id, steps))
      else Ongoing(o.records) && StatusAtEnd(sv, id, steps) == o.service.appStatus
    decreases |steps|
  {
    hide After, EndsOnce, Consistent;
    if steps != [] {
      var first := After(sv, id, steps[0]);
      OneStep(sv, id, steps[0]);
      EndRequestSafety(first.service, id, steps[1..]);
      EndJoined(first.records, Serve(first.service, id, steps[1..]).records, id);
    }
  }

  lemma EndJoined(a: seq<Record>, b: seq<Record>, id: nat)
    requires id <= 0xffff
    ensures a + [] == a
    ensures Ongoing(a) && Ongoing(b) ==> Ongoing(a + b)
    ensures forall status :: Ongoing(a) && EndsOnce(b, id, status) ==> EndsOnce(a + b, id, status)
  {
    forall status | Ongoing(a) && EndsOnce(b, id, status) ensures EndsOnce(a + b, id, status) {
      assert (a + b)[..|a + b| - 1] == a + b[..|b| - 1];
    }
  }

  lemma {:induction false} ServeAppend(sv: Service, id: nat, a: seq<Step>, b: seq<Step>)
    requires Consistent(sv) && id <= 0xffff
    ensures var first := Serve(sv, id, a);
      var later := Serve(first.service, id, b);
      Serve(sv, id, a + b) == Outputs(later.service, first.records + later.records)
    decreases |a|
  {
    hide After, Consistent;
    if a == [] {
      assert a + b == b;
      assert [] + Serve(sv, id, b).records == Serve(sv, id, b).records;
    } else {
      assert (a + b)[1..] == a[1..] + b;
      var e := After(sv, id, a[0]);
      ServeAppend(e.service, id, a[1..], b);
      var first := Serve(e.service, id, a[1..]);
      var later := Serve(first.service, id, b);
      assert e.records + (first.records + later.records) == (e.records + first.records) + later.records;
    }
  }

  lemma Finished(sv: Service, id: nat)
    requires Consistent(sv) && id <= 0xffff
    ensures Serve(sv, id, FINISH).service.nWriters == 0
    ensures sv.nWriters > 0 ==> StatusAtEnd(sv, id, FINISH) == sv.appStatus
  {
    hide Affect;
    assert FINISH[1..] == [OnOut(Close)] && FINISH[1..][1..] == [];
    var mid := After(sv, id, OnErr(Close)).service;
    ClosedBy(sv.err, id, sv.nWriters, sv.appStatus);
    ClosedBy(mid.out, id, mid.nWriters, mid.appStatus);
    assert Serve(mid, id, [OnOut(Close)]).service == After(mid, id, OnOut(Close)).service;
  }

  lemma ClosedBy(v: View, id: nat, nWriters: int, appStatus: int)
    requires Sound(v) && id <= 0xffff
    ensures Affect(v, id, Close, nWriters, appStatus).view.closed
  {
  }

  /**
    An accepted request, served by any steps, finished, and then used again in any way: the
    records contain exactly one END_REQUEST, as the last. Its status is the last one set when
    the request was still open before FCGX_Finish_r.
   */
  lemma ExactlyOneEndRequest(sv: Service, id: nat, steps: seq<Step>, more: seq<Step>)
    requires Consistent(sv) && id <= 0xffff && sv.nWriters == 2
    ensures var before := Serve(sv, id, steps).service;
      var o := Serve(sv, id, steps + FINISH + more);
      && o.service.nWriters == 0
      && EndsOnce(o.records, id, if before.nWriters > 0 then before.appStatus else StatusAtEnd(sv, id, steps))
      && o.records == Serve(sv, id, steps + FINISH).records
  {
    hide EndsOnce, After, FINISH;
    var before := Serve(sv, id, steps);
    var end := Serve(before.service, id, FINISH);
    Finished(before.service, id);
    EndRequestSafety(sv, id, steps);
    EndRequestSafety(before.service, id, FINISH);
    EndRequestSafety(end.service, id, more);
    ServeAppend(sv, id, steps, FINISH);
    ServeAppend(sv, id, steps + FINISH, more);
    EndJoined(before.records, end.records, id);
    EndJoined(before.records + end.records, [], id);
  }

  /** While out is open, its last record is the one in front of END_REQUEST: err has ended before. */
  lemma FinishOrder(sv: Service, id: nat)
    requires Consistent(sv) && id <= 0xffff && !sv.out.closed
    ensures var rs := Serve(sv, id, FINISH).records;
      |rs| >= 2 && rs[|rs| - 2..] == [Record(6, id, [], []), EndRequest(id, sv.appStatus, 0)]
  {
    hide Spill;
    var mid := After(sv, id, OnErr(Close));
    var end := After(mid.service, id, OnOut(Close));
    FinishSteps(sv, id);
    OutCloses(mid.service, id);
    var rs, n := mid.records + end.records, |end.records| - 2;
    assert rs[|rs| - 2..] == end.records[n..];
  }

  lemma OutCloses(sv: Service, id: nat)
    requires Consistent(sv) && id <= 0xffff && sv.nWriters == 1 && sv.err.closed
    ensures var rs := After(sv, id, OnOut(Close)).records;
      |rs| >= 2 && rs[|rs| - 2..] == [Record(6, id, [], []), EndRequest(id, sv.appStatus, 0)]
  {
    hide Spill;
  }

  /** The status set last, or the one inherited. */
  function LastStatus(steps: seq<Step>, inherited: int): int
  {
    if steps == [] then inherited
    else LastStatus(steps[1..], if steps[0].SetExitStatus? then steps[0].status else inherited)
  }

  lemma {:induction false} StatusIsLastSet(sv: Service, id: nat, steps: seq<Step>)
    requires Consistent(sv) && id <= 0xffff
    ensures Serve(sv, id, steps).service.appStatus == LastStatus(steps, sv.appStatus)
    decreases |steps|
  {
    hide Affect;
    if steps != [] {
      StatusIsLastSet(After(sv, id, steps[0]).service, id, steps[1..]);
    }
  }

  /** The status that END_REQUEST carries, seen from the calls: what is set after both writers are closed comes too late. */
  function StatusSent(steps: seq<Step>, outOpen: bool, errOpen: bool, status: int): int
  {
    if steps == [] || !(outOpen || errOpen) then status
    else
      StatusSent(steps[1..], outOpen && steps[0] != OnOut(Close), errOpen && steps[0] != OnErr(Close),
                 if steps[0].SetExitStatus? then steps[0].status else status)
  }

  lemma {:induction false} StatusFromCalls(sv: Service, id: nat, steps: seq<Step>)
    requires Consistent(sv) && id <= 0xffff
    ensures StatusAtEnd(sv, id, steps) == StatusSent(steps, !sv.out.closed, !sv.err.closed, sv.appStatus)
    decreases |steps|
  {
    hide ActEffect, CloseRecords;
    if steps != [] && sv.nWriters > 0 {
      var next := After(sv, id, steps[0]).service;
      OpenAfter(sv, id, steps[0]);
      StatusFromCalls(next, id, steps[1..]);
    }
  }

  lemma OpenAfter(sv: Service, id: nat, s: Step)
    requires Consistent(sv) && id <= 0xffff
    ensures var next := After(sv, id, s).service;
      && (next.out.closed <==> sv.out.closed || s == OnOut(Close))
      && (next.err.closed <==> sv.err.closed || s == OnErr(Close))
      && next.appStatus == if s.SetExitStatus? then s.status else sv.appStatus
  {
    hide Spill;
  }

  /** FCGX_SetExitStatus is called while a writer is still open. */
  predicate SetsStatus(steps: seq<Step>, outOpen: bool, errOpen: bool)
  {
    && steps != [] && (outOpen || errOpen)
    && (steps[0].SetExitStatus?
        || SetsStatus(steps[1..], outOpen && steps[0] != OnOut(Close), errOpen && steps[0] != OnErr(Close)))
  }

  lemma {:induction false} StatusInherited(steps: seq<Step>, outOpen: bool, errOpen: bool, a: int, b: int)
    ensures SetsStatus(steps, outOpen, errOpen) ==> StatusSent(steps, outOpen, errOpen, a) == StatusSent(steps, outOpen, errOpen, b)
    ensures !SetsStatus(steps, outOpen, errOpen) ==> StatusSent(steps, outOpen, errOpen, a) == a
  {
    if steps != [] && (outOpen || errOpen) {
      var o, e := outOpen && steps[0] != OnOut(Close), errOpen && steps[0] != OnErr(Close);
      if steps[0].SetExitStatus? {
        StatusInherited(steps[1..], o, e, steps[0].status, steps[0].status);
      } else {
        StatusInherited(steps[1..], o, e, a, b);
      }
    }
  }

  /**
    Accepting a request does not reset the status. The status sent is the one that a request
    starting from 0 would send exactly when the application sets one in time, or inherits 0.
   */
  lemma StatusIsOwn(steps: seq<Step>, inherited: int)
    ensures StatusSent(steps, true, true, inherited) == StatusSent(steps, true, true, 0)
      <==> SetsStatus(steps, true, true) || inherited == 0
  {
    hide StatusSent, SetsStatus;
    StatusInherited(steps, true, true, inherited, 0);
    StatusInherited(steps, true, true, 0, 0);
  }

  // The two streams inside the interleaving.

  function OfType(rs: seq<Record>, typ: Byte): seq<Record>
  {
    if rs == [] then [] else (if rs[0].typ == typ then [rs[0]] else []) + OfType(rs[1..], typ)
  }

  function OutActs(steps: seq<Step>): seq<Act>
  {
    if steps == [] then [] else (if steps[0].OnOut? then [steps[0].act] else []) + OutActs(steps[1..])
  }

  function ErrActs(steps: seq<Step>): seq<Act>
  {
    if steps == [] then [] else (if steps[0].OnErr? then [steps[0].act] else []) + ErrActs(steps[1..])
  }

  lemma {:induction false} OfTypeAppend(a: seq<Record>, b: seq<Record>, typ: Byte)
    ensures OfType(a + b, typ) == OfType(a, typ) + OfType(b, typ)
    decreases |a|
  {
    if a == [] {
      assert a + b == b;
    } else {
      assert (a + b)[1..] == a[1..] + b;
      OfTypeAppend(a[1..], b, typ);
      var first := if a[0].typ == typ then [a[0]] else [];
      assert first + (OfType(a[1..], typ) + OfType(b, typ)) == (first + OfType(a[1..], typ)) + OfType(b, typ);
    }
  }

  lemma {:induction false} OfOneType(rs: seq<Record>, typ: Byte, kept: Byte)
    requires forall i :: 0 <= i < |rs| ==> rs[i].typ == typ
    ensures OfType(rs, kept) == if typ == kept then rs else []
    decreases |rs|
  {
    if rs != [] {
      OfOneType(rs[1..], typ, kept);
    }
  }

  /** An act leaves only records of its own stream, and possibly END_REQUEST. */
  lemma EffectOfType(v: View, id: nat, a: Act, nWriters: int, appStatus: int, kept: Byte)
    requires Sound(v) && id <= 0xffff && kept != END_REQUEST
    ensures var e, alone := Affect(v, id, a, nWriters, appStatus), ActEffect(v, id, a);
      && OfType(e.records, kept) == (if v.typ == kept then alone.records else [])
      && e.view.(written := true) == alone.view.(written := true)
      && (e.view.written == alone.view.written || e.view.closed)
  {
    hide Spill;
    var e, alone := Affect(v, id, a, nWriters, appStatus), ActEffect(v, id, a);
    OfOneType(alone.records, v.typ, kept);
    if a.Close? && !v.closed && nWriters == 1 {
      var end := EndRequest(id, appStatus, REQUEST_COMPLETE);
      assert e.records == alone.records + [end];
      OfTypeAppend(alone.records, [end], kept);
      assert [end][1..] == [];
    } else if a.Close? && !v.closed {
      assert e.records == alone.records;
    }
  }

  /** Writers with the same future: a closed writer no longer cares what was written. */
  predicate Alike(a: View, b: View)
  {
    a.(written := true) == b.(written := true) && (a.written == b.written || a.closed)
  }

  lemma AlikeActs(a: View, b: View, id: nat, act: Act)
    requires Sound(a) && Sound(b) && Alike(a, b) && id <= 0xffff
    ensures Alike(ActEffect(a, id, act).view, ActEffect(b, id, act).view)
    ensures ActEffect(a, id, act).records == ActEffect(b, id, act).records
  {
  }

  lemma NothingBefore(acts: seq<Act>, rs: seq<Record>)
    ensures [] + acts == acts && [] + rs == rs
  {
  }

  /**
    In every interleaving, the records of the out type are those that the out writer sends when
    it is used alone in the same way; and the same for err.
   */
  lemma {:induction false} StreamsSeparate(sv: Service, id: nat, steps: seq<Step>, out: View, err: View)
    requires Consistent(sv) && id <= 0xffff && Sound(out) && Sound(err) && Alike(sv.out, out) && Alike(sv.err, err)
    ensures var rs := Serve(sv, id, steps).records;
      && OfType(rs, 6) == Run(out, id, OutActs(steps)).records
      && OfType(rs, 7) == Run(err, id, ErrActs(steps)).records
    decreases |steps|
  {
    hide ActEffect, Affect, Sound;
    if steps != [] {
      var s, first := steps[0], After(sv, id, steps[0]);
      var later := Serve(first.service, id, steps[1..]).records;
      OfTypeAppend(first.records, later, STDOUT);
      OfTypeAppend(first.records, later, STDERR);
      match s
      case OnOut(a) =>
        EffectOfType(sv.out, id, a, sv.nWriters, sv.appStatus, STDOUT);
        EffectOfType(sv.out, id, a, sv.nWriters, sv.appStatus, STDERR);
        AlikeActs(sv.out, out, id, a);
        assert ([a] + OutActs(steps[1..]))[1..] == OutActs(steps[1..]);
        NothingBefore(ErrActs(steps[1..]), OfType(later, STDERR));
        StreamsSeparate(first.service, id, steps[1..], ActEffect(out, id, a).view, err);
      case OnErr(a) =>
        EffectOfType(sv.err, id, a, sv.nWriters, sv.appStatus, STDOUT);
        EffectOfType(sv.err, id, a, sv.nWriters, sv.appStatus, STDERR);
        AlikeActs(sv.err, err, id, a);
        assert ([a] + ErrActs(steps[1..]))[1..] == ErrActs(steps[1..]);
        NothingBefore(OutActs(steps[1..]), OfType(later, STDOUT));
        StreamsSeparate(first.service, id, steps[1..], out, ActEffect(err, id, a).view);
      case SetExitStatus(_) =>
        NothingBefore(OutActs(steps[1..]), later);
        NothingBefore(ErrActs(steps[1..]), later);
        StreamsSeparate(first.service, id, steps[1..], out, err);
    }
  }

  // The calls.

  ghost function ServiceOf(out: Writer, err: Writer): Service
    requires out.Valid() && err.Valid() && out.req == err.req
    reads out, out.buff, out.req, err, err.buff
  {
    Service(out.View(), err.View(), out.req.nWriters, out.req.appStatus)
  }

  /** One call of the application on one writer. */
  method Perform(w: Writer, a: Act)
    requires w.Valid()
    modifies w, w.buff, w.req.ipc`sent, w.req`nWriters
    ensures w.Valid()
    ensures w.req.nWriters == old(w.req.nWriters) - if a.Close? && !old(w.isClosed) then 1 else 0
    ensures var e := old(Affect(w.View(), w.req.requestId, a, w.req.nWriters, w.req.appStatus));
      w.View() == e.view && w.req.ipc.sent == old(w.req.ipc.sent) + EncodeAll(e.records)
  {
    hide Encode, EncodeAll, PutEffect, FlushEffect, CloseEffect;
    var r: int;
    match a
    case Put(s) => r := w.PutStr(s);
    case Flush => r := w.FFlush();
    case Close => r := w.FClose();
  }

  /** FCGX_SetExitStatus */
  method SetStatus(status: int, req: Request)
    modifies req`appStatus
    ensures req.appStatus == status
  {
    req.appStatus := status;
  }

  lemma EncodeNothing(sent: seq<Byte>)
    ensures sent + EncodeAll([]) == sent
  {
  }

  /** One step of the application. */
  method PerformStep(step: Step, out: Writer, err: Writer)
    requires out.Valid() && err.Valid() && out.req == err.req && out.buff != err.buff && out != err
    requires Consistent(ServiceOf(out, err))
    modifies out, out.buff, err, err.buff, out.req.ipc`sent, out.req`nWriters, out.req`appStatus
    ensures out.Valid() && err.Valid()
    ensures var o := old(After(ServiceOf(out, err), out.req.requestId, step));
      ServiceOf(out, err) == o.service && out.req.ipc.sent == old(out.req.ipc.sent) + EncodeAll(o.records)
  {
    hide Encode, EncodeAll, Affect;
    match step
    case OnOut(a) => Perform(out, a);
    case OnErr(a) => Perform(err, a);
    case SetExitStatus(status) =>
      SetStatus(status, out.req);
      EncodeNothing(out.req.ipc.sent);
  }

  /** What the application does with its two writers, call by call. */
  method PerformSteps(steps: seq<Step>, out: Writer, err: Writer)
    requires out.Valid() && err.Valid() && out.req == err.req && out.buff != err.buff && out != err
    requires Consistent(ServiceOf(out, err))
    modifies out, out.buff, err, err.buff, out.req.ipc`sent, out.req`nWriters, out.req`appStatus
    ensures out.Valid() && err.Valid()
    ensures var o := old(Serve(ServiceOf(out, err), out.req.requestId, steps));
      ServiceOf(out, err) == o.service && out.req.ipc.sent == old(out.req.ipc.sent) + EncodeAll(o.records)
    decreases |steps|
  {
    hide Encode, EncodeAll, After, Consistent;
    EncodeNothing(out.req.ipc.sent);
    if steps != [] {
      ghost var sv, id, sent := ServiceOf(out, err), out.req.requestId, out.req.ipc.sent;
      ghost var first := After(sv, id, steps[0]);
      ghost var later := Serve(first.service, id, steps[1..]);
      PerformStep(steps[0], out, err);
      PerformSteps(steps[1..], out, err);
      EncodeAppend(first.records, later.records);
      assert (sent + EncodeAll(first.records)) + EncodeAll(later.records) == sent + (EncodeAll(first.records) + EncodeAll(later.records));
    }
  }

  /** FCGX_Finish_r; inError: the error of the in stream. The result says whether the connection is closed. */
  method FinishRequest(out: Writer, err: Writer, inError: int) returns (close: bool)
    requires out.Valid() && err.Valid() && out.req == err.req && out.buff != err.buff && out != err
    requires Consistent(ServiceOf(out, err))
    modifies out, out.buff, err, err.buff, out.req.ipc`sent, out.req`nWriters
    ensures out.Valid() && err.Valid() && out.isClosed && err.isClosed
    ensures close <==> !out.req.keepConnection || inError != 0
    ensures var o := old(Serve(ServiceOf(out, err), out.req.requestId, FINISH));
      ServiceOf(out, err) == o.service && out.req.ipc.sent == old(out.req.ipc.sent) + EncodeAll(o.records)
  {
    hide Encode, EncodeAll, CloseEffect;
    ghost var sv, id, sent := ServiceOf(out, err), out.req.requestId, out.req.ipc.sent;
    ghost var mid := After(sv, id, OnErr(Close));
    ghost var end := After(mid.service, id, OnOut(Close));
    FinishSteps(sv, id);
    close := !out.req.keepConnection;
    var e := err.FClose();
    assert ServiceOf(out, err) == mid.service;
    var o := out.FClose();
    assert (sent + EncodeAll(mid.records)) + EncodeAll(end.records) == sent + (EncodeAll(mid.records) + EncodeAll(end.records));
    close := close || e != 0 || o != 0 || inError != 0;
  }

  lemma FinishSteps(sv: Service, id: nat)
    requires Consistent(sv) && id <= 0xffff
    ensures var mid := After(sv, id, OnErr(Close));
      var end := After(mid.service, id, OnOut(Close));
      && Serve(sv, id, FINISH) == Outputs(end.service, mid.records + end.records)
      && (forall i :: 0 <= i < |mid.records| ==> WellFormed(mid.records[i]))
      && (forall i :: 0 <= i < |end.records| ==> WellFormed(end.records[i]))
      && EncodeAll(mid.records + end.records) == EncodeAll(mid.records) + EncodeAll(end.records)
  {
    hide Encode, EncodeAll;
    var mid := After(sv, id, OnErr(Close));
    var end := After(mid.service, id, OnOut(Close));
    assert FINISH[1..] == [OnOut(Close)] && FINISH[1..][1..] == [];
    assert Serve(mid.service, id, [OnOut(Close)]) == Outputs(end.service, end.records + []);
    assert end.records + [] == end.records;
    EncodeAppend(mid.records, end.records);
  }
}
