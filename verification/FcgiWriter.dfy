/** The buffered writer: bytes put into it leave as the records that FcgiFraming computes. */
module FcgiWriter {
  import opened FcgiWire
  import opened FcgiConnection
  import opened FcgiReader
  import opened FcgiFraming

  class Writer {
    const req: Request
    const typ: Byte
    const buff: array<Byte>
    var wrNext: nat
    var stop: nat
    var isClosed: bool
    var wasFCloseCalled: bool
    var isAnythingWritten: bool
    var rawWrite: bool

    ghost predicate Sized()
      reads this, req
    {
      24 <= buff.Length <= MAX_LENGTH + 1 && buff.Length % 8 == 0 && req.requestId <= 0xffff
    }

    /** Collecting content behind the room for a header. */
    ghost predicate Open()
      reads this, req
    {
      Sized() && !isClosed && !wasFCloseCalled && !rawWrite && HEADER_LEN <= wrNext <= stop && stop == buff.Length
    }

    /** Collecting the close records. */
    ghost predicate Raw()
      reads this, req
    {
      Sized() && !isClosed && !wasFCloseCalled && rawWrite && wrNext <= stop && stop == buff.Length
    }

    ghost predicate Valid()
      reads this, req
    {
      Open() || (Sized() && isClosed && wasFCloseCalled && wrNext == stop)
    }

    ghost function View(): View
      requires Valid()
      reads this, buff, req
    {
      FcgiFraming.View.View(typ, buff.Length - HEADER_LEN, if isClosed then [] else buff[HEADER_LEN..wrNext], isAnythingWritten, isClosed)
    }

    /** NewStream for a writer. */
    constructor (req: Request, bufflen: int, typ: Byte, aligned: bool)
      requires req.requestId <= 0xffff
      ensures this.req == req && this.typ == typ && fresh(buff) && Valid()
      ensures View() == FcgiFraming.View.View(typ, BufferLength(bufflen, aligned) - HEADER_LEN, [], false, false)
    {
      this.req := req;
      this.typ := typ;
      buff := new Byte[BufferLength(bufflen, aligned)](_ => 0);
      wrNext, stop := HEADER_LEN, BufferLength(bufflen, aligned);
      isClosed, wasFCloseCalled, isAnythingWritten, rawWrite := false, false, false, false;
    }

    /** The bytes that have been sent or are buffered as they stand. */
    ghost function Raws(): seq<Byte>
      requires wrNext <= buff.Length
      reads this, buff, req.ipc
    {
      req.ipc.sent + buff[..wrNext]
    }

    /** EmptyBuffProc up to the close records: complete the record, or reclaim the room for its header. */
    method CompleteRecord()
      requires Open()
      modifies this`wrNext, buff
      ensures wrNext <= stop
      ensures var content := old(buff[HEADER_LEN..wrNext]);
        buff[..wrNext] == if content == [] then [] else Encode(DataRecord(typ, req.requestId, content))
    {
      var cLen := wrNext - HEADER_LEN;
      ghost var content := buff[HEADER_LEN..wrNext];
      if cLen > 0 {
        var eLen := AlignInt8(cLen);
        forall i | wrNext <= i < HEADER_LEN + eLen {
          buff[i] := 0;
        }
        wrNext := wrNext + (eLen - cLen);
        var header := Header(typ, req.requestId, cLen, eLen - cLen);
        forall i | 0 <= i < HEADER_LEN {
          buff[i] := header[i];
        }
        assert buff[..wrNext] == header + content + Zeros(eLen - cLen);
      } else {
        wrNext := 0;
      }
    }

    /** The end of EmptyBuffProc: write what is buffered. */
    method WriteBuffer()
      requires Sized() && !isClosed && wrNext <= stop == buff.Length
      modifies this`wrNext, this`isAnythingWritten, req.ipc`sent
      ensures wrNext == 0 && req.ipc.sent == old(Raws())
      ensures isAnythingWritten <==> old(isAnythingWritten) || old(wrNext) > 0
    {
      if wrNext != 0 {
        isAnythingWritten := true;
        req.ipc.WriteItAll(buff[..wrNext]);
        wrNext := 0;
      }
    }

    /** EmptyBuffProc(FALSE) */
    method EmptyBuff()
      requires Open() || Raw()
      modifies this`wrNext, this`isAnythingWritten, buff, req.ipc`sent
      ensures old(Open()) ==>
        var e := old(FlushEffect(View(), req.requestId));
        Open() && View() == e.view && wrNext == HEADER_LEN && req.ipc.sent == old(req.ipc.sent) + EncodeAll(e.records)
      ensures old(Raw()) ==> Raw() && wrNext == 0 && req.ipc.sent == old(Raws()) && (isAnythingWritten <==> old(isAnythingWritten) || old(wrNext) > 0)
    {
      if !rawWrite {
        CompleteRecord();
      }
      WriteBuffer();
      if !rawWrite {
        wrNext := wrNext + HEADER_LEN;
      }
    }

    /** FCGX_PutChar */
    method PutChar(c: Byte) returns (r: int)
      requires Valid()
      modifies this`wrNext, this`isAnythingWritten, buff, req.ipc`sent
      ensures Valid() && r == if isClosed then -1 else c
      ensures var e := old(PutEffect(View(), req.requestId, [c]));
        View() == e.view && req.ipc.sent == old(req.ipc.sent) + EncodeAll(e.records)
    {
      ghost var v := View();
      if wrNext != stop {
        buff[wrNext] := c;
        wrNext := wrNext + 1;
        assert buff[HEADER_LEN..wrNext] == v.pending + [c];
        return c;
      }
      if isClosed {
        return EOF;
      }
      EmptyBuff();
      buff[wrNext] := c;
      wrNext := wrNext + 1;
      SpillFull(v.pending, [c], v.cap);
      assert buff[HEADER_LEN..wrNext] == [c];
      return c;
    }

    /** The copying step of FCGX_PutStr. */
    method StoreBytes(s: seq<Byte>)
      requires (Open() || Raw()) && |s| <= stop - wrNext
      modifies this`wrNext, buff
      ensures wrNext == old(wrNext) + |s|
      ensures old(Open()) ==> Open() && View() == old(View()).(pending := old(View()).pending + s)
      ensures old(Raw()) ==> Raw() && Raws() == old(Raws()) + s
    {
      forall i | 0 <= i < |s| {
        buff[wrNext + i] := s[i];
      }
      wrNext := wrNext + |s|;
      assert buff[..wrNext] == old(buff[..wrNext]) + s;
      assert old(Open()) ==> buff[HEADER_LEN..wrNext] == old(buff[HEADER_LEN..wrNext]) + s;
    }

    /** With chunks already sent, what is pending and the rest of s complete the effect of s on v. */
    ghost predicate Progress(v: View, s: seq<Byte>, rest: seq<Byte>, chunks: seq<seq<Byte>>)
      requires Open() && Sound(v) && v.cap == buff.Length - HEADER_LEN
      reads this, req, buff
    {
      var later := Spill(View().pending, rest, v.cap);
      && View() == v.(pending := View().pending, written := v.written || chunks != [])
      && Spill(v.pending, s, v.cap) == Spilled(chunks + later.chunks, later.pending)
      && forall i :: 0 <= i < |chunks| ==> |chunks[i]| <= MAX_LENGTH
    }

    /** The emptying step of FCGX_PutStr. */
    method EmptyFull(ghost v: View, ghost s: seq<Byte>, ghost rest: seq<Byte>, ghost chunks: seq<seq<Byte>>, ghost front: seq<Byte>)
      requires Open() && wrNext == stop && Sound(v) && v.cap == buff.Length - HEADER_LEN
      requires rest != [] && Progress(v, s, rest, chunks)
      requires req.ipc.sent == front + EncodeAll(DataRecords(typ, req.requestId, chunks))
      modifies this`wrNext, this`isAnythingWritten, buff, req.ipc`sent
      ensures Open() && wrNext == HEADER_LEN && Progress(v, s, rest, chunks + [old(View().pending)])
      ensures req.ipc.sent == front + EncodeAll(DataRecords(typ, req.requestId, chunks + [old(View().pending)]))
    {
      hide Spill, Encode;
      ghost var full := View().pending;
      SpillFull(full, rest, v.cap);
      ghost var later := Spill([], rest, v.cap);
      assert chunks + ([full] + later.chunks) == (chunks + [full]) + later.chunks;
      MoreRecords(typ, req.requestId, chunks, full);
      EmptyBuff();
    }

    /** The copying step of FCGX_PutStr: all that there is room for. */
    method StorePart(ghost v: View, s: seq<Byte>, bytesMoved: nat, ghost chunks: seq<seq<Byte>>) returns (moved: nat)
      requires Open() && wrNext < stop && Sound(v) && v.cap == buff.Length - HEADER_LEN
      requires bytesMoved < |s| && Progress(v, s, s[bytesMoved..], chunks)
      modifies this`wrNext, buff
      ensures Open() && bytesMoved < moved <= |s| && (moved == |s| || wrNext == stop)
      ensures Progress(v, s, s[moved..], chunks)
    {
      hide Spill;
      var m := Min(|s| - bytesMoved, stop - wrNext);
      SpillRoom(View().pending, s[bytesMoved..], m, v.cap);
      assert s[bytesMoved..][..m] == s[bytesMoved..bytesMoved + m] && s[bytesMoved..][m..] == s[bytesMoved + m..];
      StoreBytes(s[bytesMoved..bytesMoved + m]);
      moved := bytesMoved + m;
    }

    lemma ProgressStart(s: seq<Byte>)
      requires Open()
      ensures Progress(View(), s, s[0..], [])
    {
      hide Spill;
      assert s[0..] == s;
      var later := Spill(View().pending, s, View().cap);
      assert [] + later.chunks == later.chunks;
    }

    lemma ProgressDone(v: View, s: seq<Byte>, chunks: seq<seq<Byte>>)
      requires Open() && Sound(v) && v.cap == buff.Length - HEADER_LEN && v.typ == typ && !v.closed
      requires Progress(v, s, s[|s|..], chunks)
      ensures forall i :: 0 <= i < |chunks| ==> |chunks[i]| <= MAX_LENGTH
      ensures PutEffect(v, req.requestId, s) == Effect(View(), DataRecords(typ, req.requestId, chunks))
    {
      hide Spill;
      SpillRoom(View().pending, [], 0, v.cap);
      assert s[|s|..] == [] && chunks + [] == chunks;
    }

    /** FCGX_PutStr on a stream that is collecting content, or closed. */
    method PutStr(s: seq<Byte>) returns (r: int)
      requires Valid()
      modifies this`wrNext, this`isAnythingWritten, buff, req.ipc`sent
      ensures Valid() && r == if isClosed && s != [] then -1 else |s|
      ensures var e := old(PutEffect(View(), req.requestId, s));
        View() == e.view && req.ipc.sent == old(req.ipc.sent) + EncodeAll(e.records)
    {
      hide Spill, Encode, Progress;
      ghost var v := View();
      SpillRoom(v.pending, s, |s|, v.cap);
      if |s| <= stop - wrNext {
        if !isClosed {
          StoreBytes(s);
        }
        assert DataRecords(typ, req.requestId, []) == [];
        return |s|;
      }
      var bytesMoved := 0;
      ghost var chunks: seq<seq<Byte>> := [];
      if !isClosed {
        ProgressStart(s);
      }
      while true
        invariant Valid() && isClosed == old(isClosed) && bytesMoved < |s|
        invariant isClosed ==> View() == v && req.ipc.sent == old(req.ipc.sent)
        invariant !isClosed ==> Progress(v, s, s[bytesMoved..], chunks)
        invariant forall i :: 0 <= i < |chunks| ==> |chunks[i]| <= MAX_LENGTH
        invariant !isClosed ==> req.ipc.sent == old(req.ipc.sent) + EncodeAll(DataRecords(typ, req.requestId, chunks))
        decreases |s| - bytesMoved, wrNext
      {
        if wrNext != stop {
          bytesMoved := StorePart(v, s, bytesMoved, chunks);
          if bytesMoved == |s| {
            ProgressDone(v, s, chunks);
            return |s|;
          }
        }
        if isClosed {
          return EOF;
        }
        ghost var full := View().pending;
        EmptyFull(v, s, s[bytesMoved..], chunks, old(req.ipc.sent));
        chunks := chunks + [full];
      }
    }

    /** FCGX_FFlush */
    method FFlush() returns (result: int)
      requires Valid()
      modifies this`wrNext, this`isAnythingWritten, buff, req.ipc`sent
      ensures Valid() && result == 0
      ensures var e := old(FlushEffect(View(), req.requestId));
        View() == e.view && req.ipc.sent == old(req.ipc.sent) + EncodeAll(e.records)
    {
      if isClosed {
        return 0;
      }
      EmptyBuff();
      return if isClosed then -1 else 0;
    }

    /** Something has been written or will be. */
    ghost predicate Touched()
      reads this
    {
      isAnythingWritten || wrNext > 0
    }

    /** FCGX_PutStr on a stream that is collecting the close records. */
    method PutRaw(s: seq<Byte>)
      requires Raw()
      modifies this`wrNext, this`isAnythingWritten, buff, req.ipc`sent
      ensures Raw() && Raws() == old(Raws()) + s && (Touched() <==> old(Touched()) || s != [])
    {
      if |s| <= stop - wrNext {
        StoreBytes(s);
        return;
      }
      var bytesMoved := 0;
      while true
        invariant Raw() && bytesMoved < |s| && Raws() == old(Raws()) + s[..bytesMoved]
        invariant Touched() <==> old(Touched()) || bytesMoved > 0
        decreases |s| - bytesMoved, wrNext
      {
        if wrNext != stop {
          var m := Min(|s| - bytesMoved, stop - wrNext);
          StoreBytes(s[bytesMoved..bytesMoved + m]);
          assert s[..bytesMoved] + s[bytesMoved..bytesMoved + m] == s[..bytesMoved + m];
          bytesMoved := bytesMoved + m;
          if bytesMoved == |s| {
            assert s[..bytesMoved] == s;
            return;
          }
        }
        ghost var before := Raws();
        EmptyBuff();
        assert Raws() == before;
      }
    }

    /** WriteCloseRecords; pending: there is a data record in the buffer. */
    method WriteCloseRecords(ghost v: View)
      requires Raw() && Sound(v) && v.typ == typ && v.written == isAnythingWritten && (v.pending == [] <==> wrNext == 0)
      modifies this`wrNext, this`isAnythingWritten, buff, req.ipc`sent, req`nWriters
      ensures Raw() && req.nWriters == old(req.nWriters) - 1
      ensures var records := LastRecords(v, req.requestId, old(req.nWriters) == 1, req.appStatus);
        Raws() == old(Raws()) + EncodeAll(records) && (Touched() <==> old(Touched()) || records != [])
    {
      hide Encode, EncodeAll;
      ghost var last := req.nWriters == 1;
      LastBytes(v, req.requestId, last, req.appStatus);
      ghost var before := Raws();
      if !(typ == STDERR && wrNext == 0 && !isAnythingWritten) {
        PutRaw(Header(typ, req.requestId, 0, 0));
      }
      if req.nWriters == 1 {
        PutRaw(Encode(EndRequest(req.requestId, req.appStatus, REQUEST_COMPLETE)));
      }
      req.nWriters := req.nWriters - 1;
    }

    /** EmptyBuffProc(TRUE) */
    method EmptyBuffAndClose()
      requires Open()
      modifies this`wrNext, this`isAnythingWritten, this`rawWrite, buff, req.ipc`sent, req`nWriters
      ensures Raw() && wrNext == 0 && req.nWriters == old(req.nWriters) - 1
      ensures req.ipc.sent == old(req.ipc.sent) + EncodeAll(old(CloseRecords(View(), req.requestId, req.nWriters == 1, req.appStatus)))
      ensures isAnythingWritten <==> old(View().written || CloseRecords(View(), req.requestId, req.nWriters == 1, req.appStatus) != [])
    {
      hide Encode, EncodeAll, LastRecords;
      ghost var v, last := View(), req.nWriters == 1;
      CloseBytes(v, req.requestId, last, req.appStatus);
      CompleteRecord();
      rawWrite := true;
      WriteCloseRecords(v);
      WriteBuffer();
    }

    /** FCGX_FClose */
    method FClose() returns (result: int)
      requires Valid()
      modifies this, buff, req.ipc`sent, req`nWriters
      ensures Valid() && isClosed && result == 0
      ensures req.nWriters == old(req.nWriters) - if old(isClosed) then 0 else 1
      ensures var e := old(CloseEffect(View(), req.requestId, req.nWriters == 1, req.appStatus));
        View() == e.view && req.ipc.sent == old(req.ipc.sent) + EncodeAll(e.records)
    {
      if !wasFCloseCalled {
        EmptyBuffAndClose();
        wasFCloseCalled := true;
        isClosed := true;
        stop := wrNext;
      }
      return 0;
    }
  }
}
