/** The buffered, demultiplexing reader: one stream out of the records of a connection. */
module FcgiReader {
  import opened FcgiWire
  import opened FcgiConnection

  const STREAM_RECORD: int := 0
  const SKIP: int := 1
  const BEGIN_RECORD: int := 2
  const MGMT_RECORD: int := 3

  const EOF: int := -1

  /** AlignInt8 */
  function AlignInt8(n: nat): (r: nat)
    ensures n <= r < n + 8 && r % 8 == 0
  {
    if n % 8 == 0 then n else n + (8 - n % 8)
  }

  /** The buffer length NewStream settles on; a misaligned allocation loses 8 bytes. */
  function BufferLength(bufflen: int, aligned: bool): (r: nat)
    ensures 24 <= r <= 0x1_0000 && r % 8 == 0
  {
    var b := AlignInt8(if bufflen < 32 then 32 else if bufflen > MAX_LENGTH + 1 then MAX_LENGTH + 1 else bufflen);
    if aligned then b else b - 8
  }

  /** How a pass over the current record ends. */
  datatype Step = Supplied | Again | AtHeader

  class Reader {
    const req: Request
    const buff: array<Byte>
    var rdNext: nat
    var stop: nat
    var buffStop: nat
    var isClosed: bool
    var fcgiErrno: int
    var typ: int
    var eorStop: bool
    var skip: bool
    var contentLen: nat
    var paddingLen: nat

    ghost predicate Valid()
      reads this
    {
      && 1 <= buff.Length && rdNext <= buffStop <= buff.Length
      && (!isClosed ==> rdNext <= stop <= buffStop && fcgiErrno == 0)
    }

    /** Valid, except that stop may lag behind rdNext while a record is being passed over. */
    ghost predicate Valid0()
      reads this
    {
      1 <= buff.Length && rdNext <= buffStop <= buff.Length
    }

    /** Everything not yet consumed, buffered or still on the connection. */
    ghost function Unread(): seq<Byte>
      requires rdNext <= buffStop <= buff.Length
      reads this, buff, req.ipc
    {
      buff[rdNext..buffStop] + req.ipc.inbox
    }

    ghost function State(): Control
      reads this
    {
      Control(contentLen, paddingLen, skip, eorStop)
    }

    /** The content of the current record that the client has not been given. */
    ghost function BodyLeft(): int
      reads this
    {
      stop - rdNext + contentLen
    }

    ghost function Wanted(): Target
      reads this, req
    {
      Target(typ, req.requestId, req.isBeginProcessed)
    }

    /** The request, and what the reader looks for, are as they were. */
    twostate predicate SameRequest()
      reads this, req
    {
      && Wanted() == old(Wanted()) && req.role == old(req.role) && req.keepConnection == old(req.keepConnection)
      && req.nWriters == old(req.nWriters) && req.appStatus == old(req.appStatus)
    }

    /** What the client will still get: the bytes up to stop, then what the unread bytes behind them decide; what was sent before counts as answered. */
    ghost function Future(): (o: Outcome)
      requires Valid() && !isClosed
      reads this, buff, req, req.ipc
      ensures o.ending.Failed? ==> o.ending.code < 0
      ensures eorStop ==> o.answers == req.ipc.sent
    {
      Delivering(buff[rdNext..stop], Answering(req.ipc.sent, Fill(buff[stop..buffStop] + req.ipc.inbox, State(), Wanted())))
    }

    /** The closed stream has come to the ending e. */
    ghost predicate Ended(e: Ending)
      requires Valid()
      reads this, buff, req.ipc
    {
      match e
      case EndOfStream(rest, padding) =>
        fcgiErrno == 0 && rdNext == stop && Unread() == rest && contentLen == 0 && paddingLen == padding
      case EndOfRecord(rest, sk) =>
        fcgiErrno == 0 && rdNext == stop && Unread() == rest && skip == sk && contentLen == 0 && paddingLen == 0
      case BeginSeen(_, _, _, _, _) => false
      case Failed(code) => fcgiErrno == code
    }

    /** The open stream has just accepted the request that e describes. */
    ghost predicate Accepted(e: Ending)
      requires Valid0()
      reads this, buff, req, req.ipc
    {
      && e.BeginSeen? && Unread() == e.rest && contentLen == 0 && paddingLen == e.padding && fcgiErrno == 0
      && req.isBeginProcessed && req.requestId == e.newId && req.role == e.role && req.keepConnection == e.keep
    }

    /** NewStream for a reader. */
    constructor (req: Request, bufflen: int, typ: int, aligned: bool)
      ensures this.req == req && Valid() && !isClosed && this.typ == typ && fresh(buff)
      ensures stop == rdNext && Unread() == req.ipc.inbox && State() == Control(0, 0, false, false)
    {
      this.req := req;
      this.typ := typ;
      buff := new Byte[BufferLength(bufflen, aligned)](_ => 0);
      rdNext, stop, buffStop := 0, 0, 0;
      isClosed, fcgiErrno, eorStop, skip, contentLen, paddingLen := false, 0, false, false, 0, 0;
    }

    /** SetError: only the first error is kept. */
    method SetError(code: int)
      modifies this`fcgiErrno, this`isClosed
      ensures isClosed && fcgiErrno == if old(fcgiErrno) == 0 then code else old(fcgiErrno)
    {
      if fcgiErrno == 0 {
        fcgiErrno := code;
      }
      isClosed := true;
    }

    /** An empty buffer is refilled from the connection. */
    method Refill() returns (ok: bool)
      requires Filling()
      modifies this, buff, req.ipc`inbox
      ensures ok ==> Filling() && rdNext < buffStop && Unread() != []
      ensures !ok ==> isClosed && fcgiErrno == PROTOCOL_ERROR && old(Unread()) == [] && rdNext <= buffStop <= buff.Length
      ensures rdNext <= buffStop <= buff.Length && Unread() == old(Unread()) && State() == old(State()) && typ == old(typ)
    {
      ok := true;
      if rdNext == buffStop {
        var chunk := req.ipc.OsRead(buff.Length);
        if |chunk| <= 0 {
          SetError(PROTOCOL_ERROR);
          return false;
        }
        forall i | 0 <= i < |chunk| {
          buff[i] := chunk[i];
        }
        rdNext := 0;
        buffStop := |chunk|;
        assert buff[..|chunk|] == chunk;
      }
    }

    // The fill loop, piece by piece. Each piece leaves what is to come as it was.

    /** Open and between two pieces of the fill loop: stop may lag behind rdNext. */
    ghost predicate Filling()
      reads this
    {
      Valid0() && !isClosed && fcgiErrno == 0
    }

    ghost function ToCome(): Outcome
      requires Valid0()
      reads this, buff, req, req.ipc
    {
      Answering(req.ipc.sent, Go(Unread(), State(), Wanted()))
    }

    /** The same where a read comes first when nothing is buffered. */
    ghost function ToFill(): Outcome
      requires Valid0()
      reads this, buff, req, req.ipc
    {
      Answering(req.ipc.sent, Fill(Unread(), State(), Wanted()))
    }

    /** The same with the bytes hdr of a header already taken. */
    ghost function Going(hdr: seq<Byte>): Outcome
      requires Valid0()
      reads this, buff, req, req.ipc
    {
      Answering(req.ipc.sent, Go(hdr + Unread(), State(), Wanted()))
    }

    /** Content for the client: all of it that is buffered. */
    method DeliverContent()
      requires Filling() && rdNext < buffStop && contentLen > 0 && !skip
      modifies this`contentLen, this`stop
      ensures Valid() && !isClosed && rdNext < stop && Future() == old(ToCome())
      ensures BodyLeft() == old(contentLen)
    {
      hide Go, Fill, Interpret;
      var count := Min(contentLen, buffStop - rdNext);
      ghost var u := Unread();
      DeliverPart(u, State(), Wanted(), count);
      assert u[count..] == buff[rdNext + count..buffStop] + req.ipc.inbox;
      assert u[..count] == buff[rdNext..rdNext + count];
      contentLen := contentLen - count;
      stop := rdNext + count;
    }

    /** Content to be passed over: all of it that is buffered. */
    method SkipContent()
      requires Filling() && rdNext < buffStop && contentLen > 0 && skip
      modifies this`contentLen, this`rdNext, this`skip
      ensures Filling() && ToCome() == old(ToCome()) && |Unread()| < old(|Unread()|)
      ensures contentLen > 0 ==> skip && rdNext == buffStop
      ensures contentLen == 0 ==> !skip
    {
      hide Go, Fill, Interpret;
      var count := Min(contentLen, buffStop - rdNext);
      ghost var u := Unread();
      SkipPart(u, State(), Wanted(), count);
      assert u[count..] == buff[rdNext + count..buffStop] + req.ipc.inbox;
      contentLen := contentLen - count;
      rdNext := rdNext + count;
      if contentLen == 0 {
        skip := false;
      }
    }

    /** Padding to be passed over: all of it that is buffered. */
    method SkipPadding()
      requires Filling() && contentLen == 0 && paddingLen > 0
      modifies this`paddingLen, this`rdNext
      ensures Filling() && ToCome() == old(ToCome())
      ensures paddingLen > 0 ==> rdNext == buffStop
      ensures old(rdNext) <= rdNext && (old(rdNext) < buffStop ==> |Unread()| < old(|Unread()|))
    {
      hide Go, Fill, Interpret;
      var count := Min(paddingLen, buffStop - rdNext);
      ghost var u := Unread();
      PaddingPart(u, State(), Wanted(), count);
      assert u[count..] == buff[rdNext + count..buffStop] + req.ipc.inbox;
      paddingLen := paddingLen - count;
      rdNext := rdNext + count;
    }

    /** Header bytes: all that are still missing and buffered. */
    method TakeHeader(hdr: seq<Byte>) returns (hdr': seq<Byte>)
      requires Filling() && contentLen == 0 && paddingLen == 0 && |hdr| < HEADER_LEN
      modifies this`rdNext
      ensures Filling() && hdr <= hdr' && |hdr'| <= HEADER_LEN && hdr' + Unread() == hdr + old(Unread())
      ensures |hdr'| < HEADER_LEN ==> rdNext == buffStop
      ensures old(rdNext) <= rdNext && |hdr'| + |Unread()| == |hdr| + old(|Unread()|)
      ensures old(rdNext) < buffStop ==> |Unread()| < old(|Unread()|)
    {
      var count := Min(HEADER_LEN - |hdr|, buffStop - rdNext);
      ghost var u := Unread();
      assert u == buff[rdNext..rdNext + count] + (buff[rdNext + count..buffStop] + req.ipc.inbox);
      hdr' := hdr + buff[rdNext..rdNext + count];
      rdNext := rdNext + count;
    }

    // The recursive fill procedure and the calls made from inside a header.

    /** A fill that was to give f has supplied content, or come to the ending. */
    ghost predicate Filled(f: Outcome)
      requires Valid()
      reads this, buff, req, req.ipc
    {
      if !isClosed && rdNext < stop then Future() == f
      else f.data == [] && f.answers == req.ipc.sent && if isClosed then Ended(f.ending) else Accepted(f.ending)
    }

    /** One pass over the buffered part of the current record, up to the next header. */
    method PassRecord() returns (step: Step)
      requires Filling() && rdNext < buffStop
      modifies this
      ensures Valid0() && SameRequest() && eorStop == old(eorStop)
      ensures old(contentLen == 0 && paddingLen == 0 && !eorStop) ==>
        step == AtHeader && Filling() && Unread() == old(Unread()) && State() == old(State()) && rdNext < buffStop
      ensures step == Supplied ==> Valid() && Filled(old(ToCome())) && (isClosed || rdNext < stop)
      ensures step != Supplied ==> Filling() && ToCome() == old(ToCome()) && |Unread()| <= old(|Unread()|)
      ensures step == Again ==>
        (contentLen > 0 ==> skip) && (contentLen > 0 || paddingLen > 0) && |Unread()| < old(|Unread()|)
      ensures step == AtHeader ==> contentLen == 0 && paddingLen == 0 && !eorStop
      ensures step == AtHeader && rdNext == buffStop ==> |Unread()| < old(|Unread()|)
      ensures old(eorStop) && step == Supplied && !isClosed ==> RecordUntouched(old(Unread()), old(State()))
      ensures old(eorStop) && step == Again ==> (contentLen > 0 ==> skip)
    {
      hide Future, ToCome, Answering, Go, Fill, Interpret;
      if contentLen > 0 {
        if !skip {
          DeliverContent();
          return Supplied;
        }
        SkipContent();
        if contentLen > 0 {
          return Again;
        }
      }
      if paddingLen > 0 {
        SkipPadding();
        if paddingLen > 0 {
          return Again;
        }
      }
      if eorStop {
        EndOfRecordReached();
        stop := rdNext;
        isClosed := true;
        return Supplied;
      }
      return AtHeader;
    }

    /** Under eorStop only the content of the one record, all still unread in state c, is supplied. */
    ghost predicate RecordUntouched(u: seq<Byte>, c: Control)
      requires Valid()
      reads this, buff, req.ipc
    {
      !c.skip && !skip && Unread() == u && BodyLeft() == c.contentLen && paddingLen == c.paddingLen
    }

    /** A complete header: done when the fill has nothing more to do. */
    method TakeRecord(hdr: seq<Byte>) returns (done: bool)
      requires Filling() && contentLen == 0 && paddingLen == 0 && !eorStop && |hdr| == HEADER_LEN
      modifies this, buff, req`requestId, req`role, req`isBeginProcessed, req`keepConnection, req.ipc
      ensures Valid0() && typ == old(typ) && !eorStop
      ensures var f := old(AtHeaderBytes(hdr));
        if done then Valid() && Filled(f) && (isClosed || !old(req.isBeginProcessed))
        else Filling() && f == ToFill() && |Unread()| <= old(|Unread()|) && SameRequest()
      ensures done && !isClosed ==> rdNext == stop
      ensures req.isBeginProcessed <==> old(req.isBeginProcessed) || (done && !isClosed)
      ensures old(req.isBeginProcessed) ==> SameRequest()
      decreases 1, 3
    {
      hide Future, Answering, Go, Fill, Interpret;
      eorStop := true;
      stop := rdNext;
      var status := ProcessHeader(hdr);
      eorStop := false;
      isClosed := false;
      if status == STREAM_RECORD {
        if contentLen == 0 {
          stop := rdNext;
          isClosed := true;
          return true;
        }
      } else if status == SKIP {
        skip := true;
      } else if status == BEGIN_RECORD {
        return true;
      } else if status != MGMT_RECORD {
        SetError(status);
        return true;
      }
      return false;
    }

    /** FillBuffProc: supply at least one byte of content, or come to the ending. */
    method FillBuff()
      requires Valid() && !isClosed && rdNext == stop
      modifies this, buff, req`requestId, req`role, req`isBeginProcessed, req`keepConnection, req.ipc
      ensures Valid() && typ == old(typ) && eorStop == old(eorStop)
      ensures Filled(old(ToFill()))
      ensures !isClosed && rdNext < stop ==> SameRequest()
      ensures req.isBeginProcessed <==> old(req.isBeginProcessed) || (!isClosed && rdNext == stop)
      ensures old(eorStop || req.isBeginProcessed) ==> SameRequest() && (isClosed || rdNext < stop)
      ensures old(eorStop) && !isClosed ==> RecordUntouched(old(Unread()), old(State()))
      decreases if eorStop then 0 else 1, 5
    {
      hide Go, Fill, Interpret, Resumed, Filled, Ended, Accepted, AtHeaderBytes, Future, Unread, ToFill;
      ghost var f := ToFill();
      var hdr: seq<Byte> := [];
      ResumedMeaning(hdr);
      while true
        invariant Filling() && typ == old(typ) && eorStop == old(eorStop) && SameRequest()
        invariant |hdr| < HEADER_LEN && (hdr != [] ==> contentLen == 0 && paddingLen == 0 && !eorStop)
        invariant f == Resumed(hdr)
        invariant eorStop ==> (State() == old(State()) && Unread() == old(Unread())) || (contentLen > 0 ==> skip)
        decreases |Unread()|
      {
        ResumedOpen(hdr);
        var ok := Refill();
        if !ok {
          FailedFill();
          return;
        }
        assert f == Going(hdr) && (hdr == [] ==> f == ToCome());
        var step := PassRecord();
        if step == Supplied {
          assert hdr == [];
          return;
        }
        if step == Again {
          assert hdr == [];
          NothingBuffered();
          continue;
        }
        GoingFresh();
        assert f == Going(hdr);
        var done;
        hdr, done := NextHeader(hdr);
        if done {
          return;
        }
      }
    }

    /** Between two records: the rest of a header, as far as it is buffered, and when complete its record. */
    method NextHeader(hdr: seq<Byte>) returns (hdr': seq<Byte>, done: bool)
      requires Filling() && contentLen == 0 && paddingLen == 0 && !eorStop && |hdr| < HEADER_LEN
      modifies this, buff, req`requestId, req`role, req`isBeginProcessed, req`keepConnection, req.ipc
      ensures Valid0() && typ == old(typ) && !eorStop && |hdr'| < HEADER_LEN
      ensures hdr' != [] ==> contentLen == 0 && paddingLen == 0
      ensures var f := old(Going(hdr));
        if done then Valid() && Filled(f) && (isClosed || !old(req.isBeginProcessed))
        else Filling() && f == Resumed(hdr') && SameRequest()
      ensures !done ==> |Unread()| <= old(|Unread()|) && (old(rdNext < buffStop) ==> |Unread()| < old(|Unread()|))
      ensures done && !isClosed ==> rdNext == stop
      ensures req.isBeginProcessed <==> old(req.isBeginProcessed) || (done && !isClosed)
      ensures old(req.isBeginProcessed) ==> SameRequest()
      decreases 1, 4
    {
      hide Go, Fill, Interpret, Resumed, Filled, AtHeaderBytes;
      hdr' := TakeHeader(hdr);
      if |hdr'| < HEADER_LEN {
        HeaderIncomplete(hdr');
        return hdr', false;
      }
      HeaderComplete(hdr');
      done := TakeRecord(hdr');
      hdr' := [];
      if !done {
        ResumedMeaning([]);
      }
    }

    lemma HeaderComplete(hdr: seq<Byte>)
      requires Valid0() && contentLen == 0 && paddingLen == 0 && !eorStop && |hdr| == HEADER_LEN
      ensures Going(hdr) == AtHeaderBytes(hdr)
    {
      HeaderPart(hdr, Unread(), State(), Wanted());
      assert (hdr + Unread())[..HEADER_LEN] == hdr && (hdr + Unread())[HEADER_LEN..] == Unread();
    }

    lemma ResumedOpen(hdr: seq<Byte>)
      requires Valid0()
      ensures Unread() != [] ==> Resumed(hdr) == Going(hdr)
      ensures Unread() != [] && hdr == [] ==> Resumed(hdr) == ToCome()
      ensures Unread() == [] ==> Resumed(hdr) == Outcome([], Failed(PROTOCOL_ERROR), req.ipc.sent)
    {
      assert [] + Unread() == Unread();
    }

    lemma GoingFresh()
      requires Valid0()
      ensures Going([]) == ToCome()
    {
      assert [] + Unread() == Unread();
    }

    lemma FailedFill()
      requires Valid() && isClosed && fcgiErrno == PROTOCOL_ERROR
      ensures Filled(Outcome([], Failed(PROTOCOL_ERROR), req.ipc.sent))
    {
    }

    /** What is to come at the head of the fill loop, with part of a header taken. */
    ghost function Resumed(hdr: seq<Byte>): Outcome
      requires Valid0()
      reads this, buff, req, req.ipc
    {
      if Unread() == [] then Outcome([], Failed(PROTOCOL_ERROR), req.ipc.sent) else Going(hdr)
    }

    lemma ResumedMeaning(hdr: seq<Byte>)
      requires Valid0()
      ensures hdr == [] ==> Resumed(hdr) == ToFill()
    {
      assert [] + Unread() == Unread();
    }

    lemma NothingBuffered()
      requires Valid0() && (contentLen > 0 ==> skip) && (contentLen > 0 || paddingLen > 0)
      ensures Resumed([]) == ToCome()
    {
      assert [] + Unread() == Unread();
    }

    lemma EndOfRecordReached()
      requires Valid0() && contentLen == 0 && paddingLen == 0 && eorStop
      ensures ToCome() == Outcome([], EndOfRecord(Unread(), skip), req.ipc.sent)
    {
    }

    lemma HeaderIncomplete(hdr: seq<Byte>)
      requires Valid0() && contentLen == 0 && paddingLen == 0 && !eorStop && |hdr| < HEADER_LEN
      ensures Resumed(hdr) == Going(hdr)
    {
      assert hdr + [] == hdr;
    }

    /** What a complete header decides. */
    ghost function AtHeaderBytes(h: seq<Byte>): Outcome
      requires Valid0() && |h| == HEADER_LEN
      reads this, buff, req, req.ipc
    {
      Answering(req.ipc.sent, Interpret(h, Unread(), skip, Wanted()))
    }

    /** ProcessHeader */
    method ProcessHeader(h: seq<Byte>) returns (status: int)
      requires |h| == HEADER_LEN && Valid() && !isClosed && rdNext == stop
      requires contentLen == 0 && paddingLen == 0 && eorStop
      modifies this, buff, req`requestId, req`role, req`isBeginProcessed, req`keepConnection, req.ipc
      ensures Valid0() && typ == old(typ) && eorStop
      ensures Processed(status, old(AtHeaderBytes(h)))
      ensures status in {STREAM_RECORD, SKIP, MGMT_RECORD} ==> |Unread()| <= old(|Unread()|)
      ensures status != BEGIN_RECORD && (status >= 0 || old(req.isBeginProcessed)) ==> SameRequest()
      ensures req.isBeginProcessed <==> old(req.isBeginProcessed) || status == BEGIN_RECORD
      ensures status == BEGIN_RECORD ==> !old(req.isBeginProcessed)
      decreases 0, 13
    {
      hide Go, Fill, Refusal, UnknownAnswer;
      if h[0] != VERSION_1 {
        return UNSUPPORTED_VERSION;
      }
      var requestId := RequestIdOf(h);
      AnswersThen(h);
      contentLen := ContentLenOf(h);
      paddingLen := h[6];
      if h[1] == BEGIN_REQUEST {
        status := ProcessBeginRecord(requestId);
        return;
      }
      if requestId == 0 {
        RecordEnding(Unread(), State(), Wanted());
        status := ProcessManagementRecord(h[1]);
        return;
      }
      if requestId != req.requestId {
        return SKIP;
      }
      if h[1] != typ {
        return PROTOCOL_ERROR;
      }
      return STREAM_RECORD;
    }

    /** The two answers that a header can have, behind what has been sent. */
    lemma AnswersThen(h: seq<Byte>)
      requires Valid0() && |h| == HEADER_LEN
      ensures var id, len, pad: nat := RequestIdOf(h), ContentLenOf(h), h[6];
        var refused, unknown := Fill(Unread(), Control(len, pad, true, false), Wanted()), Fill(Unread(), Control(len, pad, skip, false), Wanted());
        && Answering(req.ipc.sent, Answering(Refusal(id), refused)) == Answering(req.ipc.sent + Refusal(id), refused)
        && Answering(req.ipc.sent, Answering(UnknownAnswer(h[1]), unknown)) == Answering(req.ipc.sent + UnknownAnswer(h[1]), unknown)
    {
      hide Go, Fill, Answering, Refusal, UnknownAnswer;
      var id, len, pad: nat := RequestIdOf(h), ContentLenOf(h), h[6];
      AnsweringTwice(req.ipc.sent, Refusal(id), Fill(Unread(), Control(len, pad, true, false), Wanted()));
      AnsweringTwice(req.ipc.sent, UnknownAnswer(h[1]), Fill(Unread(), Control(len, pad, skip, false), Wanted()));
    }

    /** What each status of ProcessHeader says about the outcome o that the header decides. */
    ghost predicate Processed(status: int, o: Outcome)
      requires Valid0()
      reads this, buff, req, req.ipc
    {
      if status == STREAM_RECORD then
        && fcgiErrno == 0 && rdNext == stop
        && o == if contentLen == 0 then Outcome([], EndOfStream(Unread(), paddingLen), req.ipc.sent) else AfterHeader(skip)
      else if status == SKIP then fcgiErrno == 0 && rdNext == stop && o == AfterHeader(true)
      else if status == MGMT_RECORD then fcgiErrno == 0 && rdNext == stop && o == AfterHeader(skip)
      else if status == BEGIN_RECORD then rdNext == stop && o.data == [] && o.answers == req.ipc.sent && Accepted(o.ending)
      else status < 0 && o == Outcome([], Failed(if fcgiErrno == 0 then status else fcgiErrno), req.ipc.sent)
    }

    /** The record body is read as content of the stream. */
    ghost function AfterHeader(sk: bool): Outcome
      requires Valid0()
      reads this, buff, req, req.ipc
    {
      Answering(req.ipc.sent, Fill(Unread(), Control(contentLen, paddingLen, sk, false), Wanted()))
    }

    /** ProcessBeginRecord */
    method ProcessBeginRecord(requestId: nat) returns (status: int)
      requires requestId <= 0xffff && Valid() && !isClosed && rdNext == stop && eorStop
      modifies this, buff, req`requestId, req`role, req`isBeginProcessed, req`keepConnection, req.ipc
      ensures Valid0() && typ == old(typ) && eorStop
      ensures status in {SKIP, BEGIN_RECORD, PROTOCOL_ERROR}
      ensures req.isBeginProcessed <==> old(req.isBeginProcessed) || status == BEGIN_RECORD
      ensures requestId == 0 || old(contentLen) != 8 ==> status == PROTOCOL_ERROR && fcgiErrno == 0
      ensures old(req.isBeginProcessed) ==> SameRequest() && status != BEGIN_RECORD
      ensures old(req.isBeginProcessed) && requestId != 0 && old(contentLen) == 8 ==> status == SKIP
      ensures status == SKIP ==>
        && old(req.isBeginProcessed) && fcgiErrno == 0 && rdNext == stop
        && State() == old(State()) && Unread() == old(Unread())
        && req.ipc.sent == old(req.ipc.sent) + Refusal(requestId) && EndsOnWire(Refusal(requestId), requestId, 0, 1)
      ensures status != SKIP ==> req.ipc.sent == old(req.ipc.sent)
      ensures status == PROTOCOL_ERROR ==> fcgiErrno in {0, PROTOCOL_ERROR}
      ensures !old(req.isBeginProcessed) && requestId != 0 && old(contentLen) == 8 ==>
        (status == BEGIN_RECORD <==> !old(skip) && old(|Unread()|) >= 8)
      ensures status == BEGIN_RECORD ==>
        && rdNext == stop && !old(skip) && old(|Unread()|) >= 8
        && var body := old(Unread())[..8];
        Accepted(BeginSeen(old(Unread())[8..], old(paddingLen), requestId, (body[0] as int) * 256 + body[1], body[2] % 2 == 1))
      decreases 0, 11
    {
      if requestId == 0 || contentLen != 8 {
        return PROTOCOL_ERROR;
      }
      if req.isBeginProcessed {
        RefusalOnWire(requestId);
        req.ipc.WriteItAll(Refusal(requestId));
        return SKIP;
      }
      ghost var u, c := Unread(), State();
      req.requestId := requestId;
      RecordBody(u, c, Wanted());
      var body := GetStr(8);
      if |body| != 8 {
        return PROTOCOL_ERROR;
      }
      assert body == u[..8];
      req.keepConnection := body[2] % 2 == 1;
      req.role := (body[0] as int) * 256 + body[1];
      req.isBeginProcessed := true;
      return BEGIN_RECORD;
    }

    /** The client is still to get o: nothing but its ending when the stream is closed. */
    ghost predicate Left(o: Outcome)
      requires Valid()
      reads this, buff, req, req.ipc
    {
      if isClosed then o.data == [] && o.answers == req.ipc.sent && Ended(o.ending) else Future() == o
    }

    /** Future, with a value for a closed stream. */
    ghost function Pending(): Outcome
      requires Valid()
      reads this, buff, req, req.ipc
    {
      if isClosed then Outcome([], Failed(PROTOCOL_ERROR)) else Future()
    }

    /** The next byte of the buffer. */
    method TakeChar() returns (c: Byte)
      requires Valid() && !isClosed && rdNext < stop
      modifies this`rdNext
      ensures Valid() && rdNext == old(rdNext) + 1
      ensures var f := old(Future()); f.data != [] && c == f.data[0] && Future() == f.(data := f.data[1..])
    {
      hide Answering, Go, Fill, Interpret;
      FutureTake(1);
      assert Future().data[..1][0] == Future().data[0];
      c := buff[rdNext];
      rdNext := rdNext + 1;
    }

    /** FCGX_GetChar */
    method GetChar() returns (c: int)
      requires Valid() && (isClosed || eorStop || req.isBeginProcessed)
      modifies this, buff, req`requestId, req`role, req`isBeginProcessed, req`keepConnection, req.ipc
      ensures Valid() && typ == old(typ) && eorStop == old(eorStop) && SameRequest()
      ensures old(isClosed) ==> c == -1 && isClosed
      ensures old(!isClosed) ==>
        var f := old(Pending());
        if f.data == [] then c == -1 && isClosed && Left(f)
        else c == f.data[0] && !isClosed && Left(f.(data := f.data[1..]))
      decreases if eorStop then 0 else 1, 6
    {
      hide Answering, Go, Fill, Interpret, Ended, Accepted, Future, Unread;
      if isClosed {
        return EOF;
      }
      if rdNext != stop {
        c := TakeChar();
        return;
      }
      FutureUnbuffered();
      FillBuff();
      if isClosed {
        return EOF;
      }
      c := TakeChar();
    }

    lemma FutureUnbuffered()
      requires Valid() && !isClosed && rdNext == stop
      ensures Future() == ToFill()
    {
      hide Go, Fill, Interpret;
      var later := Fill(Unread(), State(), Wanted());
      assert [] + later.data == later.data;
    }

    /** The first n bytes of what is to come are in the buffer. */
    lemma FutureTake(n: nat)
      requires Valid() && !isClosed && n <= stop - rdNext
      ensures n <= |Future().data| && Future().data[..n] == buff[rdNext..rdNext + n]
      ensures Future().data[n..] == buff[rdNext + n..stop] + Fill(buff[stop..buffStop] + req.ipc.inbox, State(), Wanted()).data
      ensures Unread()[n..] == buff[rdNext + n..buffStop] + req.ipc.inbox
    {
      hide Go, Fill, Interpret;
    }

    /** SetReaderType: the padding that was still to be passed over is forgotten. */
    method SetReaderType(streamType: int)
      requires Valid0()
      modifies this
      ensures Valid0() && !isClosed && fcgiErrno == old(fcgiErrno) && typ == streamType && rdNext == stop
      ensures Unread() == old(Unread()) && State() == Control(0, 0, false, false)
      ensures fcgiErrno == 0 ==> Valid() && Future() == ToFill()
    {
      typ := streamType;
      eorStop, skip, contentLen, paddingLen := false, false, 0, 0;
      stop := rdNext;
      isClosed := false;
      if fcgiErrno == 0 {
        FutureUnbuffered();
      }
    }

    /** Reading the body of a record has taken k of the bytes u, of which left belonged to its content. */
    ghost predicate Consumed(k: nat, u: seq<Byte>, left: int, padding: nat)
      requires Valid()
      reads this, buff, req.ipc
    {
      k <= |u| && Unread() == u[k..] && BodyLeft() == left - k && paddingLen == padding
    }

    /** Up to n bytes that are in the buffer. */
    method TakeBuffered(n: nat) returns (s: seq<Byte>)
      requires Valid() && !isClosed && rdNext < stop
      modifies this`rdNext
      ensures Valid() && |s| == (if n < stop - old(rdNext) then n else stop - old(rdNext)) && rdNext == old(rdNext) + |s|
      ensures Delivering(s, Future()) == old(Future())
      ensures Consumed(|s|, old(Unread()), old(BodyLeft()), paddingLen)
    {
      hide Answering, Go, Fill, Interpret;
      var m := Min(n, stop - rdNext);
      FutureTake(m);
      ghost var later := Future().data;
      assert later == later[..m] + later[m..];
      s := buff[rdNext..rdNext + m];
      rdNext := rdNext + m;
    }

    /** The filling loop of FCGX_GetStr. */
    method CollectStr(n: nat) returns (s: seq<Byte>)
      requires Valid() && !isClosed && (eorStop || req.isBeginProcessed) && n > 0
      modifies this, buff, req`requestId, req`role, req`isBeginProcessed, req`keepConnection, req.ipc
      ensures Valid() && typ == old(typ) && eorStop == old(eorStop) && SameRequest()
      ensures var f := old(Future());
        if |f.data| < n then s == f.data && isClosed && Left(f.(data := []))
        else s == f.data[..n] && !isClosed && Left(f.(data := f.data[n..]))
      ensures old(eorStop && !skip) && !isClosed ==> Consumed(|s|, old(Unread()), old(BodyLeft()), old(paddingLen))
      decreases if eorStop then 0 else 1, 6
    {
      hide Answering, Go, Fill, Interpret, Ended, Accepted, Future;
      ghost var f, u, left := Future(), Unread(), BodyLeft();
      s := [];
      while true
        invariant Valid() && !isClosed && |s| < n
        invariant typ == old(typ) && eorStop == old(eorStop) && SameRequest()
        invariant Delivering(s, Future()) == f
        invariant old(eorStop && !skip) ==> Consumed(|s|, u, left, old(paddingLen)) && !skip
        decreases n - |s|, if rdNext == stop then 1 else 0
      {
        if rdNext != stop {
          var chunk := TakeBuffered(n - |s|);
          assert s + (chunk + Future().data) == (s + chunk) + Future().data;
          assert old(eorStop && !skip) ==> u[|s|..][|chunk|..] == u[|s| + |chunk|..];
          s := s + chunk;
          if |s| == n {
            return;
          }
        }
        FutureUnbuffered();
        FillBuff();
        if isClosed {
          return;
        }
      }
    }

    /** FCGX_GetStr: up to n bytes; fewer only when the stream comes to its ending. */
    method GetStr(n: int) returns (s: seq<Byte>)
      requires Valid() && (isClosed || eorStop || req.isBeginProcessed)
      modifies this, buff, req`requestId, req`role, req`isBeginProcessed, req`keepConnection, req.ipc
      ensures Valid() && typ == old(typ) && eorStop == old(eorStop) && SameRequest()
      ensures old(isClosed) || n <= 0 ==> s == [] && isClosed == old(isClosed) && Pending() == old(Pending())
      ensures old(!isClosed) && n > 0 ==>
        var f := old(Pending());
        if |f.data| < n then s == f.data && isClosed && Left(f.(data := []))
        else s == f.data[..n] && !isClosed && Left(f.(data := f.data[n..]))
      ensures old(!isClosed && eorStop && !skip) && !isClosed ==> Consumed(|s|, old(Unread()), old(BodyLeft()), old(paddingLen))
      decreases if eorStop then 0 else 1, 7
    {
      hide Answering, Go, Fill, Interpret, Ended, Accepted, Future;
      if isClosed || n <= 0 {
        return [];
      }
      if n <= stop - rdNext {
        s := TakeBuffered(n);
        return;
      }
      s := CollectStr(n);
    }

    /** The length whose first byte is given, or -1. */
    method ReadLength(first: Byte) returns (n: int)
      requires Valid() && !isClosed && (eorStop || req.isBeginProcessed)
      modifies this, buff, req`requestId, req`role, req`isBeginProcessed, req`keepConnection, req.ipc
      ensures Valid() && typ == old(typ) && eorStop == old(eorStop) && SameRequest()
      ensures var f := old(Pending());
        var l := DecodeLength([first] + f.data);
        if l.Length? then n == l.n && !isClosed && Left(f.(data := l.rest))
        else n == -1 && isClosed && Left(f.(data := []))
      decreases if eorStop then 0 else 1, 8
    {
      hide Go, Fill, Interpret;
      ghost var f := Future();
      LengthBytes(first, f.data);
      n := first;
      if n >= 0x80 {
        var rest := GetStr(3);
        if |rest| != 3 {
          return -1;
        }
        n := (n - 0x80) * 0x100_0000 + (rest[0] as int) * 0x1_0000 + (rest[1] as int) * 0x100 + rest[2];
      }
    }

    /** Reads a pair whose first byte is given, and stores it as name=value. */
    method ReadPair(first: Byte, params: Params) returns (ok: bool)
      requires Valid() && !isClosed && (eorStop || req.isBeginProcessed) && params.Valid()
      modifies this, buff, req`requestId, req`role, req`isBeginProcessed, req`keepConnection, req.ipc, params, params.vec
      ensures Valid() && typ == old(typ) && eorStop == old(eorStop) && SameRequest()
      ensures params.Valid() && (params.vec == old(params.vec) || fresh(params.vec))
      ensures var f := old(Pending());
        var l := DecodePair([first] + f.data);
        if l.NoPair? then !ok && isClosed && Left(f.(data := [])) && params.Contents() == old(params.Contents())
        else
          && ok && !isClosed && Left(f.(data := l.rest))
          && params.Contents() == old(params.Contents()) + [NameValue(l.pair)]
      decreases if eorStop then 0 else 1, 9
    {
      hide Answering, Go, Fill, Interpret, DecodeLength, DecodePair, Ended, Future;
      ghost var f := Future();
      ghost var nl := DecodeLength([first] + f.data);
      PairBytes([first] + f.data);
      var nameLen := ReadLength(first);
      if nameLen < 0 {
        return false;
      }
      var c := GetChar();
      if c == EOF {
        return false;
      }
      ghost var vl := DecodeLength(nl.rest);
      assert [c] + nl.rest[1..] == nl.rest;
      var valueLen := ReadLength(c);
      if valueLen < 0 {
        return false;
      }
      ok := ReadTexts(nameLen, valueLen, params);
    }

    /** The name and the value, once their lengths are known. */
    method ReadTexts(nameLen: nat, valueLen: nat, params: Params) returns (ok: bool)
      requires Valid() && !isClosed && (eorStop || req.isBeginProcessed) && params.Valid()
      modifies this, buff, req`requestId, req`role, req`isBeginProcessed, req`keepConnection, req.ipc, params, params.vec
      ensures Valid() && typ == old(typ) && eorStop == old(eorStop) && SameRequest()
      ensures params.Valid() && (params.vec == old(params.vec) || fresh(params.vec))
      ensures var f := old(Pending());
        if |f.data| < nameLen + valueLen then
          !ok && isClosed && Left(f.(data := [])) && params.Contents() == old(params.Contents())
        else
          && ok && !isClosed && Left(f.(data := f.data[nameLen + valueLen..]))
          && params.Contents() == old(params.Contents()) + [NameValue(Pair(f.data[..nameLen], f.data[nameLen..nameLen + valueLen]))]
      decreases if eorStop then 0 else 1, 8
    {
      hide Answering, Go, Fill, Interpret, Ended, Future;
      ghost var f := Future();
      var name := GetStr(nameLen);
      if |name| != nameLen {
        return false;
      }
      assert name == f.data[..nameLen] && Pending() == f.(data := f.data[nameLen..]);
      assert |f.data| >= nameLen + valueLen ==>
        && f.data[nameLen..][..valueLen] == f.data[nameLen..nameLen + valueLen]
        && f.data[nameLen..][valueLen..] == f.data[nameLen + valueLen..];
      var value := GetStr(valueLen);
      if |value| != valueLen {
        return false;
      }
      params.PutParam(name + [EQUALS] + value);
      return true;
    }

    /** ReadParams: 0 when the stream has ended at the boundary of a pair. */
    method ReadParams(params: Params) returns (result: int)
      requires Valid() && !isClosed && (eorStop || req.isBeginProcessed) && params.Valid()
      modifies this, buff, req`requestId, req`role, req`isBeginProcessed, req`keepConnection, req.ipc, params, params.vec
      ensures Valid() && typ == old(typ) && eorStop == old(eorStop) && SameRequest()
      ensures params.Valid() && (params.vec == old(params.vec) || fresh(params.vec)) && isClosed
      ensures var f := old(Pending());
        var d := DecodePairs(f.data);
        && params.Contents() == old(params.Contents()) + NameValues(d.pairs) && req.ipc.sent == f.answers
        && if d.complete then result == 0 && Ended(f.ending)
           else result == -1 && fcgiErrno == (if f.ending.Failed? then f.ending.code else -4)
      decreases if eorStop then 0 else 1, 10
    {
      hide Answering, Go, Fill, Interpret, DecodePair, DecodePairs, Future, Unread, NameValues;
      ghost var f := Future();
      ghost var rest, pairs := f.data, [];
      NoPairsYet(rest, params.Contents());
      while true
        invariant Valid() && !isClosed && typ == old(typ) && eorStop == old(eorStop) && SameRequest()
        invariant params.Valid() && (params.vec == old(params.vec) || fresh(params.vec))
        invariant Future() == f.(data := rest)
        invariant params.Contents() == old(params.Contents()) + NameValues(pairs)
        invariant DecodePairs(f.data).pairs == pairs + DecodePairs(rest).pairs
        invariant DecodePairs(f.data).complete == DecodePairs(rest).complete
        decreases |rest|
      {
        NoMorePairs(pairs, rest);
        var nameLen := GetChar();
        if nameLen == EOF {
          return 0;
        }
        assert [rest[0]] + rest[1..] == rest;
        var ok := ReadPair(nameLen, params);
        if !ok {
          SetError(PARAMS_ERROR);
          return -1;
        }
        ghost var first := DecodePair(rest);
        MorePairs(pairs, rest);
        rest, pairs := first.rest, pairs + [first.pair];
      }
    }

    /** ProcessManagementRecord, without the reply to GET_VALUES. */
    method ProcessManagementRecord(recordType: Byte) returns (status: int)
      requires Valid() && !isClosed && rdNext == stop && eorStop
      modifies this, buff, req`requestId, req`role, req`isBeginProcessed, req`keepConnection, req.ipc
      ensures Valid() && typ == old(typ) && eorStop && SameRequest()
      ensures status in {MGMT_RECORD, PROTOCOL_ERROR}
      ensures req.ipc.sent == if recordType == GET_VALUES then old(req.ipc.sent) else old(req.ipc.sent) + UnknownAnswer(recordType)
      ensures UnknownAnswer(recordType) == [1, 11, 0, 0, 0, 8, 0, 0, recordType, 0, 0, 0, 0, 0, 0, 0]
      ensures recordType != GET_VALUES ==>
        status == MGMT_RECORD && fcgiErrno == 0 && rdNext == stop && State() == old(State()) && Unread() == old(Unread())
      ensures recordType == GET_VALUES ==>
        var body := old(Fill(Unread(), State(), Wanted()));
        if body.ending.EndOfRecord? && DecodePairs(body.data).complete then
          && status == MGMT_RECORD && fcgiErrno == 0 && rdNext == stop
          && Unread() == body.ending.rest && State() == Control(0, 0, body.ending.skip, true)
        else
          && status == PROTOCOL_ERROR
          && fcgiErrno == if body.ending.Failed? then body.ending.code else PARAMS_ERROR
      decreases 0, 11
    {
      hide Go, Fill, Interpret, DecodePairs, UnknownAnswer;
      UnknownOnWire(recordType);
      if recordType == GET_VALUES {
        ghost var u, c, t := Unread(), State(), Wanted();
        FutureUnbuffered();
        RecordEnding(u, c, t);
        var params := new Params(3);
        var _ := ReadParams(params);
        if fcgiErrno != 0 || contentLen != 0 {
          return PROTOCOL_ERROR;
        }
      } else {
        req.ipc.WriteItAll(UnknownAnswer(recordType));
      }
      return MGMT_RECORD;
    }
  }

  lemma LengthBytes(first: Byte, data: seq<Byte>)
    ensures var l := DecodeLength([first] + data);
      if first < 0x80 then l == Length(first, data)
      else if |data| < 3 then l == NoLength
      else l == Length(((first as int) - 0x80) * 0x100_0000 + (data[0] as int) * 0x1_0000 + (data[1] as int) * 0x100 + data[2], data[3..])
  {
    assert ([first] + data)[1..] == data;
    if |data| >= 3 {
      assert ([first] + data)[4..] == data[3..];
    }
  }

  lemma NoPairsYet(s: seq<Byte>, before: seq<seq<Byte>>)
    ensures [] + DecodePairs(s).pairs == DecodePairs(s).pairs && before + NameValues([]) == before
  {
  }

  lemma NoMorePairs(pairs: seq<Pair>, rest: seq<Byte>)
    ensures (rest == [] || DecodePair(rest).NoPair?) ==>
      pairs + DecodePairs(rest).pairs == pairs && (DecodePairs(rest).complete <==> rest == [])
  {
    hide DecodePair;
  }

  lemma MorePairs(pairs: seq<Pair>, rest: seq<Byte>)
    requires rest != [] && DecodePair(rest).OnePair?
    ensures var first := DecodePair(rest);
      && NameValues(pairs + [first.pair]) == NameValues(pairs) + [NameValue(first.pair)]
      && pairs + DecodePairs(rest).pairs == (pairs + [first.pair]) + DecodePairs(first.rest).pairs
      && DecodePairs(rest).complete == DecodePairs(first.rest).complete
  {
    hide DecodePair;
    var first := DecodePair(rest);
    assert pairs + ([first.pair] + DecodePairs(first.rest).pairs) == (pairs + [first.pair]) + DecodePairs(first.rest).pairs;
  }

  lemma PairBytes(s: seq<Byte>)
    ensures var nl := DecodeLength(s);
      && (nl.NoLength? ==> DecodePair(s).NoPair?)
      && (nl.Length? && nl.rest == [] ==> DecodePair(s).NoPair?)
      && (nl.Length? ==>
        var vl := DecodeLength(nl.rest);
        DecodePair(s) ==
        if vl.NoLength? || |vl.rest| < nl.n + vl.n then NoPair
        else OnePair(Pair(vl.rest[..nl.n], vl.rest[nl.n..nl.n + vl.n]), vl.rest[nl.n + vl.n..]))
  {
  }

  /** A record read under eorStop ends with itself or fails. */
  lemma {:induction false} RecordEnding(u: seq<Byte>, c: Control, t: Target)
    requires c.eorStop
    ensures var e := Go(u, c, t).ending; e.EndOfRecord? || e.Failed?
    ensures var e := Fill(u, c, t).ending; e.EndOfRecord? || e.Failed?
    decreases c.contentLen + c.paddingLen
  {
    if c.contentLen > 0 {
      if |u| >= c.contentLen {
        RecordEnding(u[c.contentLen..], c.(contentLen := 0, skip := false), t);
      }
    } else if c.paddingLen > 0 && |u| >= c.paddingLen {
      RecordEnding(u[c.paddingLen..], c.(paddingLen := 0), t);
    }
  }

  /** The content that a read of the body of a record under eorStop can give. */
  lemma RecordBody(u: seq<Byte>, c: Control, t: Target)
    requires c.eorStop && c.contentLen > 0
    ensures var o := Fill(u, c, t);
      if c.skip then o.data == []
      else if |u| < c.contentLen then o.data == u && o.ending == Failed(PROTOCOL_ERROR)
      else o.data == u[..c.contentLen]
    ensures var o := Fill(u, c, t); o.ending.Failed? ==> o.ending.code == PROTOCOL_ERROR
  {
    if |u| >= c.contentLen {
      BodyRead(u[c.contentLen..], c.(contentLen := 0, skip := false), t);
      assert u[..c.contentLen] + [] == u[..c.contentLen];
    }
  }

  lemma BodyRead(u: seq<Byte>, c: Control, t: Target)
    requires c.eorStop && c.contentLen == 0
    ensures var o := Go(u, c, t);
      o.data == [] && (o.ending.Failed? ==> o.ending.code == PROTOCOL_ERROR)
    ensures Fill(u, c, t).data == [] && (Fill(u, c, t).ending.Failed? ==> Fill(u, c, t).ending.code == PROTOCOL_ERROR)
  {
    if c.paddingLen > 0 && |u| >= c.paddingLen {
      assert Go(u, c, t) == Go(u[c.paddingLen..], c.(paddingLen := 0), t);
    }
  }

  function Min(x: nat, y: nat): (m: nat)
    ensures m <= x && m <= y && (m == x || m == y)
  {
    if x < y then x else y
  }
}
