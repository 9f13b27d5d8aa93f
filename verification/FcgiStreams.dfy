/** What the reader makes of a sequence of records, whatever they are cut into. */
module FcgiStreams {
  import opened FcgiWire

  /** Records that a connection may carry between two records of the stream. */
  predicate Own(r: Record, t: Target) { r.typ == t.typ && r.id == t.id && r.content != [] }

  predicate Foreign(r: Record, t: Target) { r.typ != 1 && r.id != 0 && r.id != t.id }

  predicate ExtraBegin(r: Record) { r.typ == 1 && r.id != 0 && |r.content| == 8 }

  predicate GetValues(r: Record) { r.typ == 9 && r.id == 0 && DecodePairs(r.content).complete }

  predicate OtherManagement(r: Record) { r.typ != 1 && r.typ != 9 && r.id == 0 }

  predicate Reading(t: Target) { t.begun && t.id != 0 && t.typ != 1 }

  predicate Legal(r: Record, t: Target)
  {
    WellFormed(r) && (Own(r, t) || Foreign(r, t) || ExtraBegin(r) || GetValues(r) || OtherManagement(r))
  }

  predicate AllLegal(rs: seq<Record>, t: Target)
  {
    forall i :: 0 <= i < |rs| ==> Legal(rs[i], t)
  }

  /** Before a request has begun, only records of other requests and management records. */
  predicate Passable(r: Record, t: Target)
  {
    Legal(r, t) && (Reading(t) || (!t.begun && !Own(r, t) && !ExtraBegin(r)))
  }

  predicate AllPassable(rs: seq<Record>, t: Target)
  {
    forall i :: 0 <= i < |rs| ==> Passable(rs[i], t)
  }

  /** Content that reaches the client from one record, when the skip flag was set or not. */
  function Given(r: Record, skip: bool, t: Target): seq<Byte>
  {
    if !skip && (Own(r, t) || OtherManagement(r)) then r.content else []
  }

  /** The skip flag behind a record: it is cleared only by passing over content. */
  function SkipBehind(r: Record, skip: bool, t: Target): bool
  {
    r.content == [] && (skip || Foreign(r, t))
  }

  function Delivered(rs: seq<Record>, skip: bool, t: Target): seq<Byte>
  {
    if rs == [] then [] else Given(rs[0], skip, t) + Delivered(rs[1..], SkipBehind(rs[0], skip, t), t)
  }

  function SkipBehindAll(rs: seq<Record>, skip: bool, t: Target): bool
  {
    if rs == [] then skip else SkipBehindAll(rs[1..], SkipBehind(rs[0], skip, t), t)
  }

  /** What is sent in answer to a record: an extra BEGIN_REQUEST is refused, an unknown management record not understood. */
  function AnswerTo(r: Record): seq<Byte>
    requires WellFormed(r)
  {
    if ExtraBegin(r) then Refusal(r.id) else if OtherManagement(r) then UnknownAnswer(r.typ) else []
  }

  function AnswersTo(rs: seq<Record>): seq<Byte>
    requires forall i :: 0 <= i < |rs| ==> WellFormed(rs[i])
  {
    if rs == [] then [] else AnswerTo(rs[0]) + AnswersTo(rs[1..])
  }

  /** The same as records. */
  function ReplyTo(r: Record): (es: seq<Record>)
    requires WellFormed(r)
    ensures forall i :: 0 <= i < |es| ==> WellFormed(es[i])
  {
    if ExtraBegin(r) then [EndRequest(r.id, 0, CANT_MPX_CONN)] else if OtherManagement(r) then [UnknownType(r.typ)] else []
  }

  function Replies(rs: seq<Record>): (es: seq<Record>)
    requires forall i :: 0 <= i < |rs| ==> WellFormed(rs[i])
    ensures forall i :: 0 <= i < |es| ==> WellFormed(es[i])
  {
    if rs == [] then [] else ReplyTo(rs[0]) + Replies(rs[1..])
  }

  lemma ReplyEncoded(r: Record, later: seq<Record>)
    requires WellFormed(r) && forall i :: 0 <= i < |later| ==> WellFormed(later[i])
    ensures (forall i :: 0 <= i < |ReplyTo(r) + later| ==> WellFormed((ReplyTo(r) + later)[i]))
    ensures EncodeAll(ReplyTo(r) + later) == AnswerTo(r) + EncodeAll(later)
  {
    hide Encode;
    var es := ReplyTo(r);
    if es == [] {
      assert es + later == later && [] + EncodeAll(later) == EncodeAll(later);
    } else {
      assert (es + later)[0] == es[0] && (es + later)[1..] == later;
    }
  }

  lemma {:induction false} AnswersAreReplies(rs: seq<Record>)
    requires forall i :: 0 <= i < |rs| ==> WellFormed(rs[i])
    ensures AnswersTo(rs) == EncodeAll(Replies(rs))
    decreases |rs|
  {
    hide Encode, AnswerTo, ReplyTo;
    if rs != [] {
      AnswersAreReplies(rs[1..]);
      ReplyEncoded(rs[0], Replies(rs[1..]));
    }
  }

  /** The concatenated contents of the stream's own records. */
  function StreamOf(rs: seq<Record>, t: Target): seq<Byte>
  {
    if rs == [] then [] else (if Own(rs[0], t) then rs[0].content else []) + StreamOf(rs[1..], t)
  }

  function Between(skip: bool): Control { Control(0, 0, skip, false) }

  // One record.

  lemma ContentAndPadding(content: seq<Byte>, padding: seq<Byte>, skip: bool, t: Target, v: seq<Byte>)
    ensures Fill(content + padding + v, Control(|content|, |padding|, skip, false), t) ==
      Delivering(if skip then [] else content, Fill(v, Between(skip && content == []), t))
  {
    hide Interpret;
    var c, c' := Control(|content|, |padding|, skip, false), Control(0, |padding|, skip && content == [], false);
    PaddingOnly(padding, skip && content == [], t, v);
    if content == [] {
      assert content + padding + v == padding + v;
    } else {
      var u := content + padding + v;
      assert u[|content|..] == padding + v && u[..|content|] == content;
      assert c.(contentLen := 0, skip := false) == c';
    }
  }

  lemma PaddingOnly(padding: seq<Byte>, skip: bool, t: Target, v: seq<Byte>)
    ensures Fill(padding + v, Control(0, |padding|, skip, false), t) == Fill(v, Between(skip), t)
    ensures Go(padding + v, Control(0, |padding|, skip, false), t) == Fill(v, Between(skip), t)
  {
    hide Interpret;
    if padding != [] {
      assert (padding + v)[|padding|..] == v;
      assert Control(0, |padding|, skip, false).(paddingLen := 0) == Between(skip);
    } else {
      assert padding + v == v;
    }
    assert v == [] ==> Go(v, Between(skip), t) == Outcome([], Failed(PROTOCOL_ERROR));
  }

  /** The body of a record read by the management code. */
  lemma BodyUnderEor(content: seq<Byte>, padding: seq<Byte>, skip: bool, t: Target, v: seq<Byte>)
    requires v != []
    ensures Fill(content + padding + v, Control(|content|, |padding|, skip, true), t) ==
      Outcome(if skip then [] else content, EndOfRecord(v, skip && content == []))
  {
    var skip' := skip && content == [];
    PaddingUnderEor(padding, skip', t, v);
    if content == [] {
      assert content + padding + v == padding + v;
    } else {
      var u := content + padding + v;
      assert u[|content|..] == padding + v && u[..|content|] == content && content + [] == content;
      hide Go, Fill, Interpret;
      ContentStep(u, Control(|content|, |padding|, skip, true), t);
    }
  }

  lemma ContentStep(u: seq<Byte>, c: Control, t: Target)
    requires 0 < c.contentLen <= |u|
    ensures var c' := Control(0, c.paddingLen, false, c.eorStop);
      Fill(u, c, t) ==
        if c.skip then Go(u[c.contentLen..], c', t)
        else Delivering(u[..c.contentLen], Fill(u[c.contentLen..], c', t))
  {
    hide Interpret;
  }

  lemma PaddingUnderEor(padding: seq<Byte>, skip: bool, t: Target, v: seq<Byte>)
    requires v != []
    ensures Fill(padding + v, Control(0, |padding|, skip, true), t) == Outcome([], EndOfRecord(v, skip))
    ensures Go(padding + v, Control(0, |padding|, skip, true), t) == Outcome([], EndOfRecord(v, skip))
  {
    hide Interpret;
    if padding == [] {
      assert padding + v == v;
    } else {
      assert (padding + v)[|padding|..] == v;
      assert Go(v, Control(0, 0, skip, true), t) == Outcome([], EndOfRecord(v, skip));
    }
  }

  /** The same when nothing follows the record. */
  lemma BodyAtTheEnd(content: seq<Byte>, padding: seq<Byte>, skip: bool, t: Target)
    ensures var o := Fill(content + padding, Control(|content|, |padding|, skip, true), t);
      || o.ending == Failed(PROTOCOL_ERROR)
      || (o.data == (if skip then [] else content) && o.ending.EndOfRecord? && o.ending.rest == [])
  {
    var skip' := skip && content == [];
    PaddingAtTheEnd(padding, skip', t);
    if content == [] {
      assert content + padding == padding;
    } else {
      var u := content + padding;
      assert u[|content|..] == padding && u[..|content|] == content && content + [] == content;
      hide Go, Fill, Interpret;
      ContentStep(u, Control(|content|, |padding|, skip, true), t);
    }
  }

  lemma PaddingAtTheEnd(padding: seq<Byte>, skip: bool, t: Target)
    ensures var o := Fill(padding, Control(0, |padding|, skip, true), t);
      o.data == [] && (o.ending == Failed(PROTOCOL_ERROR) || o.ending == EndOfRecord([], skip))
    ensures Go(padding, Control(0, |padding|, skip, true), t) == Outcome([], EndOfRecord([], skip))
  {
    hide Interpret;
    assert padding[|padding|..] == [];
    assert Go([], Control(0, 0, skip, true), t) == Outcome([], EndOfRecord([], skip));
  }

  lemma RecordHeader(r: Record, skip: bool, t: Target, v: seq<Byte>)
    requires WellFormed(r)
    ensures Fill(Encode(r) + v, Between(skip), t) ==
      Interpret(Header(r.typ, r.id, |r.content|, |r.padding|), r.content + r.padding + v, skip, t)
  {
    hide Interpret;
    var u := Encode(r) + v;
    assert u[..HEADER_LEN] == Header(r.typ, r.id, |r.content|, |r.padding|);
    assert u[HEADER_LEN..] == r.content + r.padding + v;
  }

  lemma NothingMeaning(t: Target)
    ensures DecodePairs([]) == Decoded([], true)
    ensures forall c :: Fill([], c, t) == Outcome([], Failed(PROTOCOL_ERROR))
  {
  }

  /** One legal record between two others, whatever follows; also before a request has begun. */
  lemma RecordStep(r: Record, skip: bool, t: Target, v: seq<Byte>)
    requires Passable(r, t)
    ensures Fill(Encode(r) + v, Between(skip), t) ==
      Answering(AnswerTo(r), Delivering(Given(r, skip, t), Fill(v, Between(SkipBehind(r, skip, t)), t)))
  {
    hide Go, Fill, DecodePairs, Refusal, UnknownAnswer;
    RecordHeader(r, skip, t, v);
    HeaderFields(r.typ, r.id, |r.content|, |r.padding|);
    ContentAndPadding(r.content, r.padding, skip, t, v);
    ContentAndPadding(r.content, r.padding, true, t, v);
    if GetValues(r) {
      NothingMeaning(t);
      if v == [] {
        assert r.content + r.padding + v == r.content + r.padding;
        BodyAtTheEnd(r.content, r.padding, skip, t);
      } else {
        BodyUnderEor(r.content, r.padding, skip, t, v);
      }
    }
  }

  lemma NothingMore(o: Outcome)
    ensures Answering([], Delivering([], o)) == o
  {
    assert [] + o.data == o.data;
  }

  lemma TwoSteps(answer: seq<Byte>, here: seq<Byte>, answers: seq<Byte>, later: seq<Byte>, o: Outcome)
    ensures Answering(answer, Delivering(here, Answering(answers, Delivering(later, o)))) ==
      Answering(answer + answers, Delivering(here + later, o))
  {
    assert here + (later + o.data) == (here + later) + o.data;
    AnsweringTwice(answer, answers, Delivering(here + later, o));
  }

  lemma {:induction false} RecordsStep(rs: seq<Record>, skip: bool, t: Target, v: seq<Byte>)
    requires AllPassable(rs, t)
    ensures Fill(EncodeAll(rs) + v, Between(skip), t) ==
      Answering(AnswersTo(rs), Delivering(Delivered(rs, skip, t), Fill(v, Between(SkipBehindAll(rs, skip, t)), t)))
    decreases |rs|
  {
    hide Go, Fill, Interpret, Answering, AnswerTo;
    if rs == [] {
      assert EncodeAll(rs) + v == v;
      NothingMore(Fill(v, Between(skip), t));
    } else {
      var r, skip' := rs[0], SkipBehind(rs[0], skip, t);
      assert EncodeAll(rs) + v == Encode(r) + (EncodeAll(rs[1..]) + v);
      RecordStep(r, skip, t, EncodeAll(rs[1..]) + v);
      RecordsStep(rs[1..], skip', t, v);
      var o := Fill(v, Between(SkipBehindAll(rs, skip, t)), t);
      TwoSteps(AnswerTo(r), Given(r, skip, t), AnswersTo(rs[1..]), Delivered(rs[1..], skip', t), o);
    }
  }

  /** The empty record of the stream. */
  lemma EndRecordStep(r: Record, skip: bool, t: Target, v: seq<Byte>)
    requires Reading(t) && WellFormed(r) && r.typ == t.typ && r.id == t.id && r.content == []
    ensures Fill(Encode(r) + v, Between(skip), t) == Outcome([], EndOfStream(r.padding + v, |r.padding|))
  {
    RecordHeader(r, skip, t, v);
    HeaderFields(r.typ, r.id, 0, |r.padding|);
    assert r.content + r.padding + v == r.padding + v;
  }

  /**
    Demultiplexing: any legal records, then the empty record of the stream. The client gets
    exactly Delivered, the server exactly AnswersTo, and nothing behind the empty record is touched.
   */
  lemma Demultiplexed(rs: seq<Record>, end: Record, t: Target, v: seq<Byte>)
    requires Reading(t) && AllLegal(rs, t)
    requires WellFormed(end) && end.typ == t.typ && end.id == t.id && end.content == []
    ensures Fill(EncodeAll(rs) + (Encode(end) + v), Between(false), t) ==
      Outcome(Delivered(rs, false, t), EndOfStream(end.padding + v, |end.padding|), AnswersTo(rs))
  {
    hide Go, Fill, Interpret;
    RecordsStep(rs, false, t, Encode(end) + v);
    EndRecordStep(end, SkipBehindAll(rs, false, t), t, v);
    assert Delivered(rs, false, t) + [] == Delivered(rs, false, t);
  }

  /** A record of the request that is of another type ends the stream with an error. */
  lemma WrongTypeRejected(rs: seq<Record>, r: Record, t: Target, v: seq<Byte>)
    requires Reading(t) && AllLegal(rs, t)
    requires WellFormed(r) && r.id == t.id && r.typ != t.typ && r.typ != 1
    ensures Fill(EncodeAll(rs) + (Encode(r) + v), Between(false), t) ==
      Outcome(Delivered(rs, false, t), Failed(-3), AnswersTo(rs))
  {
    hide Go, Fill;
    RecordsStep(rs, false, t, Encode(r) + v);
    RecordHeader(r, SkipBehindAll(rs, false, t), t, v);
    HeaderFields(r.typ, r.id, |r.content|, |r.padding|);
    assert Delivered(rs, false, t) + [] == Delivered(rs, false, t);
  }

  /** A BEGIN_REQUEST record without id, or not of eight bytes, is a protocol error in every state. */
  lemma MalformedBeginRejected(rs: seq<Record>, r: Record, skip: bool, t: Target, v: seq<Byte>)
    requires AllPassable(rs, t) && WellFormed(r) && r.typ == 1 && (r.id == 0 || |r.content| != 8)
    ensures Fill(EncodeAll(rs) + (Encode(r) + v), Between(skip), t) == Outcome(Delivered(rs, skip, t), Failed(-3), AnswersTo(rs))
  {
    hide Go, Fill;
    RecordsStep(rs, skip, t, Encode(r) + v);
    RecordHeader(r, SkipBehindAll(rs, skip, t), t, v);
    HeaderFields(r.typ, r.id, |r.content|, |r.padding|);
    assert Delivered(rs, skip, t) + [] == Delivered(rs, skip, t);
  }

  /** Eight bytes at the place of a header that do not begin with 1 are of an unsupported version, in every state. */
  lemma VersionRejected(rs: seq<Record>, u: seq<Byte>, skip: bool, t: Target)
    requires AllPassable(rs, t) && |u| >= 8 && u[0] != 1
    ensures Fill(EncodeAll(rs) + u, Between(skip), t) == Outcome(Delivered(rs, skip, t), Failed(-2), AnswersTo(rs))
  {
    hide Go, Fill, Interpret, Encode, AnswersTo, Delivered;
    var skip' := SkipBehindAll(rs, skip, t);
    RecordsStep(rs, skip, t, u);
    HeaderDecides(u, skip', t);
    BadVersion(u[..8], u[8..], skip', t);
    AnswersAdded(AnswersTo(rs), Outcome([], Failed(-2)));
    NothingMoreBytes(Delivered(rs, skip, t), AnswersTo(rs));
  }

  lemma BadVersion(h: seq<Byte>, rest: seq<Byte>, skip: bool, t: Target)
    requires |h| == 8 && h[0] != 1
    ensures Interpret(h, rest, skip, t) == Outcome([], Failed(-2))
  {
    hide Fill;
  }

  lemma NothingMoreBytes(data: seq<Byte>, answers: seq<Byte>)
    ensures data + [] == data && answers + [] == answers
  {
  }

  /** A connection that ends between two records. */
  lemma ConnectionLost(rs: seq<Record>, t: Target)
    requires Reading(t) && AllLegal(rs, t)
    ensures Fill(EncodeAll(rs), Between(false), t) == Outcome(Delivered(rs, false, t), Failed(-3), AnswersTo(rs))
  {
    RecordsStep(rs, false, t, []);
    assert EncodeAll(rs) + [] == EncodeAll(rs);
    assert Delivered(rs, false, t) + [] == Delivered(rs, false, t);
  }

  function Prefix(s: seq<Byte>, k: nat): seq<Byte>
  {
    s[..if k < |s| then k else |s|]
  }

  /**
    A connection that ends inside any legal record: the content that has come for the client, then
    the error. The record is answered as soon as its header has come.
   */
  lemma ConnectionCut(rs: seq<Record>, r: Record, k: nat, skip: bool, t: Target)
    requires AllPassable(rs, t) && Passable(r, t) && k < |Encode(r)|
    ensures var given := Prefix(Given(r, SkipBehindAll(rs, skip, t), t), if k <= 8 then 0 else k - 8);
      Fill(EncodeAll(rs) + Encode(r)[..k], Between(skip), t) ==
        Outcome(Delivered(rs, skip, t) + given, Failed(-3), AnswersTo(rs) + if k < 8 then [] else AnswerTo(r))
  {
    hide Go, Fill, Interpret, Encode, Given, Delivered, AnswerTo, AnswersTo, Prefix;
    var skip' := SkipBehindAll(rs, skip, t);
    RecordsStep(rs, skip, t, Encode(r)[..k]);
    RecordCut(r, k, skip', t);
    AnswersAdded(AnswersTo(rs), Fill(Encode(r)[..k], Between(skip'), t));
  }

  lemma RecordCut(r: Record, k: nat, skip: bool, t: Target)
    requires Passable(r, t) && k < |Encode(r)|
    ensures Fill(Encode(r)[..k], Between(skip), t) ==
      Outcome(Prefix(Given(r, skip, t), if k <= 8 then 0 else k - 8), Failed(-3), if k < 8 then [] else AnswerTo(r))
  {
    var u := Encode(r)[..k];
    hide Interpret;
    if k >= 8 {
      hide Go, Fill, Prefix, Given, AnswerTo;
      assert u[..8] == Header(r.typ, r.id, |r.content|, |r.padding|);
      assert u[8..] == (r.content + r.padding)[..k - 8];
      HeaderDecides(u, skip, t);
      HeaderThenCut(r, k - 8, skip, t);
    }
  }

  lemma HeaderThenCut(r: Record, k: nat, skip: bool, t: Target)
    requires Passable(r, t) && k < |r.content| + |r.padding|
    ensures Interpret(Header(r.typ, r.id, |r.content|, |r.padding|), (r.content + r.padding)[..k], skip, t) ==
      Outcome(Prefix(Given(r, skip, t), k), Failed(-3), AnswerTo(r))
  {
    hide Go, Fill, DecodePairs, Refusal, UnknownAnswer;
    HeaderFields(r.typ, r.id, |r.content|, |r.padding|);
    BodyCut(r.content, r.padding, k, Control(|r.content|, |r.padding|, skip, false), t);
    BodyCut(r.content, r.padding, k, Control(|r.content|, |r.padding|, true, false), t);
    BodyCut(r.content, r.padding, k, Control(|r.content|, |r.padding|, skip, true), t);
  }

  lemma HeaderDecides(u: seq<Byte>, skip: bool, t: Target)
    requires |u| >= 8
    ensures Fill(u, Between(skip), t) == Interpret(u[..8], u[8..], skip, t)
  {
    hide Interpret;
  }

  lemma BodyCut(content: seq<Byte>, padding: seq<Byte>, k: nat, c: Control, t: Target)
    requires k < |content| + |padding| && c.contentLen == |content| && c.paddingLen == |padding|
    ensures Fill((content + padding)[..k], c, t) == Outcome(if c.skip then [] else Prefix(content, k), Failed(-3))
  {
    hide Interpret;
    var u := (content + padding)[..k];
    if content == [] {
      assert content + padding == padding;
      PaddingCut(padding, k, c, t);
    } else if k < |content| {
      assert u == content[..k];
    } else {
      assert u[..|content|] == content && u[|content|..] == padding[..k - |content|];
      PaddingCut(padding, k - |content|, c.(contentLen := 0, skip := false), t);
      assert content + [] == content;
    }
  }

  lemma PaddingCut(padding: seq<Byte>, k: nat, c: Control, t: Target)
    requires k < |padding| && c.contentLen == 0 && c.paddingLen == |padding|
    ensures Fill(padding[..k], c, t) == Outcome([], Failed(-3)) && Go(padding[..k], c, t) == Outcome([], Failed(-3))
  {
    hide Interpret;
  }

  /** A GET_VALUES record with broken pairs ends the stream with the error for parameters, unless a pending skip passes over them. */
  lemma BrokenValues(rs: seq<Record>, r: Record, skip: bool, t: Target, v: seq<Byte>)
    requires AllPassable(rs, t) && WellFormed(r) && r.typ == 9 && r.id == 0 && !DecodePairs(r.content).complete && v != []
    ensures Fill(EncodeAll(rs) + (Encode(r) + v), Between(skip), t) ==
      if SkipBehindAll(rs, skip, t) then Answering(AnswersTo(rs), Delivering(Delivered(rs, skip, t), Fill(v, Between(false), t)))
      else Outcome(Delivered(rs, skip, t), Failed(-4), AnswersTo(rs))
  {
    hide Go, Fill, DecodePairs, Encode;
    var skip' := SkipBehindAll(rs, skip, t);
    RecordsStep(rs, skip, t, Encode(r) + v);
    RecordHeader(r, skip', t, v);
    HeaderFields(r.typ, r.id, |r.content|, |r.padding|);
    BodyUnderEor(r.content, r.padding, skip', t, v);
    NothingMeaning(t);
    assert r.content != [];
    assert Delivered(rs, skip, t) + [] == Delivered(rs, skip, t);
  }

  // When what is delivered is the stream.

  /** Some record of the stream follows an empty foreign record with no content between. */
  predicate Swallows(rs: seq<Record>, skip: bool, t: Target)
  {
    rs != [] && ((skip && Own(rs[0], t)) || Swallows(rs[1..], SkipBehind(rs[0], skip, t), t))
  }

  /** Some unknown management record has content, and no pending skip passes over it. */
  predicate Leaks(rs: seq<Record>, skip: bool, t: Target)
  {
    rs != [] && ((!skip && OtherManagement(rs[0]) && rs[0].content != []) || Leaks(rs[1..], SkipBehind(rs[0], skip, t), t))
  }

  /** The records whose content reaches the client. */
  function Sources(rs: seq<Record>, skip: bool, t: Target): seq<Record>
  {
    if rs == [] then []
    else (if Given(rs[0], skip, t) != [] then [rs[0]] else []) + Sources(rs[1..], SkipBehind(rs[0], skip, t), t)
  }

  /** The stream's own records. */
  function OwnRecords(rs: seq<Record>, t: Target): seq<Record>
  {
    if rs == [] then [] else (if Own(rs[0], t) then [rs[0]] else []) + OwnRecords(rs[1..], t)
  }

  function ContentsOf(rs: seq<Record>): seq<Byte>
  {
    if rs == [] then [] else rs[0].content + ContentsOf(rs[1..])
  }

  lemma ContentsOfCons(r: Record, rs: seq<Record>)
    ensures ContentsOf([r] + rs) == r.content + ContentsOf(rs) && [] + rs == rs
  {
    assert ([r] + rs)[1..] == rs;
  }

  lemma NoContents()
    ensures ContentsOf([]) == []
  {
  }

  lemma NothingFirst(s: seq<Byte>)
    ensures [] + s == s
  {
  }

  /** What is delivered are the contents of the sources, and the stream those of its own records. */
  lemma {:induction false} DeliveredFromSources(rs: seq<Record>, skip: bool, t: Target)
    ensures Delivered(rs, skip, t) == ContentsOf(Sources(rs, skip, t)) && StreamOf(rs, t) == ContentsOf(OwnRecords(rs, t))
    decreases |rs|
  {
    hide Own, ContentsOf;
    if rs == [] {
      NoContents();
    } else {
      var r, skip' := rs[0], SkipBehind(rs[0], skip, t);
      DeliveredFromSources(rs[1..], skip', t);
      ContentsOfCons(r, Sources(rs[1..], skip', t));
      ContentsOfCons(r, OwnRecords(rs[1..], t));
      NothingFirst(Delivered(rs[1..], skip', t));
      NothingFirst(StreamOf(rs[1..], t));
    }
  }

  predicate AllOwn(rs: seq<Record>, t: Target)
  {
    forall i :: 0 <= i < |rs| ==> Own(rs[i], t)
  }

  lemma {:induction false} OwnRecordsOwn(rs: seq<Record>, t: Target)
    ensures AllOwn(OwnRecords(rs, t), t)
    decreases |rs|
  {
    if rs != [] {
      OwnRecordsOwn(rs[1..], t);
    }
  }

  /** A leak shows among the sources; without one they are some of the stream's own records. */
  lemma {:induction false} SourcesCounted(rs: seq<Record>, skip: bool, t: Target)
    requires Reading(t) && AllLegal(rs, t)
    ensures AllOwn(Sources(rs, skip, t), t) <==> !Leaks(rs, skip, t)
    ensures !Leaks(rs, skip, t) ==>
      if Swallows(rs, skip, t) then |Sources(rs, skip, t)| < |OwnRecords(rs, t)| else Sources(rs, skip, t) == OwnRecords(rs, t)
    ensures !Leaks(rs, skip, t) ==> |Sources(rs, skip, t)| <= |OwnRecords(rs, t)|
    decreases |rs|
  {
    hide WellFormed;
    if rs != [] {
      var skip' := SkipBehind(rs[0], skip, t);
      assert forall i :: 0 <= i < |rs[1..]| ==> rs[1..][i] == rs[i + 1];
      SourcesCounted(rs[1..], skip', t);
      AllOwnCons(rs[0], Sources(rs[1..], skip', t), t);
      NothingFirstRecord(Sources(rs[1..], skip', t));
    }
  }

  lemma AllOwnCons(r: Record, rs: seq<Record>, t: Target)
    ensures AllOwn([r] + rs, t) <==> Own(r, t) && AllOwn(rs, t)
  {
    hide Own;
    if AllOwn([r] + rs, t) {
      assert ([r] + rs)[0] == r;
      assert forall i :: 0 <= i < |rs| ==> ([r] + rs)[i + 1] == rs[i];
    }
  }

  lemma NothingFirstRecord(rs: seq<Record>)
    ensures [] + rs == rs
  {
  }

  /**
    Whatever the records: the client gets the contents of exactly the stream's own records, if
    and only if none of them is swallowed and nothing leaks.
   */
  lemma StreamFromItsRecords(rs: seq<Record>, end: Record, t: Target, v: seq<Byte>)
    requires Reading(t) && AllLegal(rs, t)
    requires WellFormed(end) && end.typ == t.typ && end.id == t.id && end.content == []
    ensures Fill(EncodeAll(rs) + (Encode(end) + v), Between(false), t).data == ContentsOf(Sources(rs, false, t))
    ensures StreamOf(rs, t) == ContentsOf(OwnRecords(rs, t))
    ensures Sources(rs, false, t) == OwnRecords(rs, t) <==> !Swallows(rs, false, t) && !Leaks(rs, false, t)
  {
    Demultiplexed(rs, end, t, v);
    DeliveredFromSources(rs, false, t);
    SourcesCounted(rs, false, t);
    OwnRecordsOwn(rs, t);
  }

  /** Swallowing makes the data shorter than the stream, leaking makes it longer. */
  lemma {:induction false} DeliveredLength(rs: seq<Record>, skip: bool, t: Target)
    requires Reading(t) && AllLegal(rs, t)
    ensures !Leaks(rs, skip, t) ==> |Delivered(rs, skip, t)| <= |StreamOf(rs, t)|
    ensures !Leaks(rs, skip, t) && Swallows(rs, skip, t) ==> |Delivered(rs, skip, t)| < |StreamOf(rs, t)|
    ensures !Swallows(rs, skip, t) ==> |Delivered(rs, skip, t)| >= |StreamOf(rs, t)|
    ensures !Swallows(rs, skip, t) && Leaks(rs, skip, t) ==> |Delivered(rs, skip, t)| > |StreamOf(rs, t)|
    decreases |rs|
  {
    if rs != [] {
      assert forall i :: 0 <= i < |rs[1..]| ==> rs[1..][i] == rs[i + 1];
      DeliveredLength(rs[1..], SkipBehind(rs[0], skip, t), t);
    }
  }

  /**
    Unless both faults occur at once, and could hide each other, the bytes that the client gets
    are the stream exactly when no record of the stream is swallowed and nothing leaks.
   */
  lemma StreamDelivered(rs: seq<Record>, end: Record, t: Target, v: seq<Byte>)
    requires Reading(t) && AllLegal(rs, t) && !(Swallows(rs, false, t) && Leaks(rs, false, t))
    requires WellFormed(end) && end.typ == t.typ && end.id == t.id && end.content == []
    ensures Fill(EncodeAll(rs) + (Encode(end) + v), Between(false), t).data == StreamOf(rs, t)
      <==> !Swallows(rs, false, t) && !Leaks(rs, false, t)
  {
    StreamFromItsRecords(rs, end, t, v);
    Demultiplexed(rs, end, t, v);
    DeliveredLength(rs, false, t);
  }

  /** Both faults at once: a byte is swallowed and an equal one leaks. */
  lemma FaultsCancel()
    ensures var t := Target(STDIN, 1, true);
      var rs := [Record(STDIN, 2, [], []), Record(STDIN, 1, [65], []), Record(77, 0, [65], [])];
      && AllLegal(rs, t) && Swallows(rs, false, t) && Leaks(rs, false, t) && Delivered(rs, false, t) == StreamOf(rs, t)
  {
    var t := Target(STDIN, 1, true);
    var rs := [Record(STDIN, 2, [], []), Record(STDIN, 1, [65], []), Record(77, 0, [65], [])];
    assert rs[1..] == [rs[1], rs[2]] && rs[1..][1..] == [rs[2]] && rs[1..][1..][1..] == [];
    assert Delivered(rs[1..][1..], false, t) == [65] + [];
    assert StreamOf(rs[1..][1..], t) == [] + [];
  }

  /** A pending skip passes over the content of an unknown management record, so it does not leak. */
  lemma SkipHidesLeak()
    ensures var t := Target(STDIN, 1, true);
      var rs := [Record(STDIN, 2, [], []), Record(77, 0, [9], [])];
      && AllLegal(rs, t) && !Leaks(rs, false, t) && Delivered(rs, false, t) == StreamOf(rs, t) == []
  {
    var t := Target(STDIN, 1, true);
    var rs := [Record(STDIN, 2, [], []), Record(77, 0, [9], [])];
    assert rs[1..] == [rs[1]] && rs[1..][1..] == [];
    assert SkipBehind(rs[0], false, t) && !SkipBehind(rs[1], true, t);
    assert Given(rs[1], true, t) == [] && Delivered(rs[1..], true, t) == [] + Delivered([], false, t);
    assert Delivered(rs, false, t) == [] + Delivered(rs[1..], true, t);
    assert !Leaks(rs[1..], true, t);
    assert StreamOf(rs[1..], t) == [] + StreamOf([], t);
  }

  /** Some unknown management record has content. */
  predicate Leaky(rs: seq<Record>)
  {
    exists i :: 0 <= i < |rs| && OtherManagement(rs[i]) && rs[i].content != []
  }

  /** Foreign records with content never make the reader skip: nothing is swallowed, and all leaks come through. */
  lemma {:induction false} NonEmptyForeignHarmless(rs: seq<Record>, t: Target)
    requires AllLegal(rs, t)
    requires forall i :: 0 <= i < |rs| && Foreign(rs[i], t) ==> rs[i].content != []
    ensures !Swallows(rs, false, t) && (Leaks(rs, false, t) <==> Leaky(rs))
    decreases |rs|
  {
    if rs != [] {
      assert Foreign(rs[0], t) ==> rs[0].content != [];
      assert forall i :: 0 <= i < |rs[1..]| ==> rs[1..][i] == rs[i + 1];
      NonEmptyForeignHarmless(rs[1..], t);
      LeakyCons(rs);
    }
  }

  lemma LeakyCons(rs: seq<Record>)
    requires rs != []
    ensures Leaky(rs) <==> (OtherManagement(rs[0]) && rs[0].content != []) || Leaky(rs[1..])
  {
    hide OtherManagement;
    assert forall i :: 0 <= i < |rs[1..]| ==> rs[1..][i] == rs[i + 1];
    if Leaky(rs) && !(OtherManagement(rs[0]) && rs[0].content != []) {
      var i :| 0 <= i < |rs| && OtherManagement(rs[i]) && rs[i].content != [];
      assert rs[1..][i - 1] == rs[i];
    } else if Leaky(rs[1..]) {
      var i :| 0 <= i < |rs[1..]| && OtherManagement(rs[1..][i]) && rs[1..][i].content != [];
      assert rs[i + 1] == rs[1..][i];
    }
  }

  /**
    With content in every foreign record, the client gets the stream exactly when no unknown
    management record has content.
   */
  lemma StreamDeliveredUnlessLeak(rs: seq<Record>, end: Record, t: Target, v: seq<Byte>)
    requires Reading(t) && AllLegal(rs, t)
    requires forall i :: 0 <= i < |rs| && Foreign(rs[i], t) ==> rs[i].content != []
    requires WellFormed(end) && end.typ == t.typ && end.id == t.id && end.content == []
    ensures Fill(EncodeAll(rs) + (Encode(end) + v), Between(false), t).data == StreamOf(rs, t) <==> !Leaky(rs)
  {
    NonEmptyForeignHarmless(rs, t);
    StreamDelivered(rs, end, t, v);
  }

  /** An empty record of another request makes the next record of the stream disappear. */
  lemma EmptyForeignSwallows()
    ensures var t := Target(STDIN, 1, true);
      var rs := [Record(STDIN, 2, [], []), Record(STDIN, 1, [65], [])];
      && AllLegal(rs, t) && StreamOf(rs, t) == [65] && Delivered(rs, false, t) == []
  {
    var t := Target(STDIN, 1, true);
    var rs := [Record(STDIN, 2, [], []), Record(STDIN, 1, [65], [])];
    assert rs[1..] == [rs[1]] && rs[1..][1..] == [];
    assert StreamOf(rs[1..], t) == [65] + [];
    assert Delivered(rs[1..], true, t) == [] + Delivered([], false, t);
  }

  /** The content of an unknown management record reaches the client. */
  lemma UnknownManagementLeaks()
    ensures var t := Target(STDIN, 1, true);
      var rs := [Record(77, 0, [65], [])];
      && AllLegal(rs, t) && StreamOf(rs, t) == [] && Delivered(rs, false, t) == [65]
  {
    var t := Target(STDIN, 1, true);
    var rs := [Record(77, 0, [65], [])];
    assert rs[1..] == [];
    assert Delivered(rs, false, t) == [65] + [];
  }
}
