/** The connection to the Web server, the request, and the growing vector of parameters. */
module FcgiConnection {
  import opened FcgiWire

  /** Both directions of ipcFd: what the server has still to be read, and what it has been sent. */
  class Connection {
    var inbox: seq<Byte>
    var sent: seq<Byte>

    constructor (incoming: seq<Byte>)
      ensures inbox == incoming && sent == []
    {
      inbox, sent := incoming, [];
    }

    /** OS_Read: any non-empty prefix that fits; nothing only at the end of the connection. */
    method OsRead(max: nat) returns (chunk: seq<Byte>)
      requires max >= 1
      modifies this`inbox
      ensures chunk + inbox == old(inbox) && |chunk| <= max
      ensures chunk == [] ==> old(inbox) == []
    {
      var count: int := *;
      if count <= 0 || count > max {
        count := 1;
      }
      if count > |inbox| {
        count := |inbox|;
      }
      chunk := inbox[..count];
      inbox := inbox[count..];
    }

    /** OS_Write: any non-empty prefix. */
    method OsWrite(bytes: seq<Byte>) returns (wrote: nat)
      requires bytes != []
      modifies this`sent
      ensures 1 <= wrote <= |bytes| && sent == old(sent) + bytes[..wrote]
    {
      var count: int := *;
      wrote := if 1 <= count <= |bytes| then count else 1;
      sent := sent + bytes[..wrote];
    }

    /** write_it_all */
    method WriteItAll(bytes: seq<Byte>)
      modifies this`sent
      ensures sent == old(sent) + bytes
    {
      var rest := bytes;
      while rest != []
        invariant sent + rest == old(sent) + bytes
        decreases |rest|
      {
        ghost var before := sent;
        var wrote := OsWrite(rest);
        assert before + rest == (before + rest[..wrote]) + rest[wrote..];
        rest := rest[wrote..];
      }
    }
  }

  class Request {
    const ipc: Connection
    var requestId: nat
    var role: nat
    var isBeginProcessed: bool
    var keepConnection: bool
    var appStatus: int
    var nWriters: int

    constructor (ipc: Connection)
      ensures this.ipc == ipc && !isBeginProcessed && requestId == 0 && nWriters == 0 && appStatus == 0
    {
      this.ipc := ipc;
      requestId, role, isBeginProcessed, keepConnection, appStatus, nWriters := 0, 0, false, false, 0, 0;
    }
  }

  /** A slot of the parameter vector: a string or the terminating NULL. */
  datatype Slot = Null | Str(s: seq<Byte>)

  /** Params: name=value strings, then NULL, in a vector that doubles. */
  class Params {
    var vec: array<Slot>
    var length: nat
    var cur: nat

    ghost predicate Valid()
      reads this, vec
    {
      && length == vec.Length && cur < length && vec[cur] == Null
      && forall i :: 0 <= i < cur ==> vec[i].Str?
    }

    /** The strings before the NULL. */
    ghost function Contents(): (s: seq<seq<Byte>>)
      requires Valid()
      reads this, vec
      ensures |s| == cur
    {
      seq(cur, i requires 0 <= i < cur && Valid() reads this, vec => vec[i].s)
    }

    /** NewParams */
    constructor (length: nat)
      requires length >= 1
      ensures Valid() && fresh(vec) && Contents() == []
    {
      var v := new Slot[length](_ => Null);
      this.length := length;
      vec := v;
      cur := 0;
    }

    /** Twice the room for the strings. */
    method Grow()
      requires cur >= 1 && cur == length == vec.Length
      modifies this`length, this`vec
      ensures fresh(vec) && cur < length == vec.Length && vec[..cur] == old(vec[..cur])
    {
      length := length * 2;
      var old_vec := vec;
      var grown := new Slot[length](_ => Null);
      forall i | 0 <= i < old_vec.Length {
        grown[i] := old_vec[i];
      }
      vec := grown;
    }

    method PutParam(nameValue: seq<Byte>)
      requires Valid()
      modifies this, vec
      ensures Valid() && Contents() == old(Contents()) + [nameValue]
      ensures vec == old(vec) || fresh(vec)
    {
      ghost var before := Contents();
      vec[cur] := Str(nameValue);
      cur := cur + 1;
      ghost var slots := vec[..cur];
      if cur >= length {
        Grow();
      }
      vec[cur] := Null;
      assert vec[..cur] == slots;
      assert forall i :: 0 <= i < cur ==> vec[i] == slots[i];
      assert Contents() == before + [nameValue];
    }
  }

  // Looking up a parameter.

  /** The strings before the first NULL. */
  function Strings(slots: seq<Slot>): seq<seq<Byte>>
  {
    if slots == [] || slots[0].Null? then [] else [slots[0].s] + Strings(slots[1..])
  }

  /** The entry is the name, an equals sign, which is byte 61, and a value. */
  predicate Binds(entry: seq<Byte>, name: seq<Byte>)
  {
    |name| < |entry| && entry[..|name|] == name && entry[|name|] == 61
  }

  function Lookup(entries: seq<seq<Byte>>, name: seq<Byte>): Slot
  {
    if entries == [] then Null
    else if Binds(entries[0], name) then Str(entries[0][|name| + 1..])
    else Lookup(entries[1..], name)
  }

  /** FCGX_GetParam */
  method GetParam(name: Slot, envp: array?<Slot>) returns (value: Slot)
    requires envp != null ==> Null in envp[..]
    ensures value == if name.Null? || envp == null then Null else Lookup(Strings(envp[..]), name.s)
  {
    if name.Null? || envp == null {
      return Null;
    }
    var len := |name.s|;
    var p := 0;
    assert envp[0..] == envp[..];
    while envp[p] != Null
      invariant p < envp.Length && Null in envp[p..]
      invariant Lookup(Strings(envp[..]), name.s) == Lookup(Strings(envp[p..]), name.s)
      decreases envp.Length - p
    {
      var entry := envp[p].s;
      StringsFrom(envp[p..]);
      assert envp[p..][1..] == envp[p + 1..];
      if len < |entry| && entry[..len] == name.s && entry[len] == EQUALS {
        return Str(entry[len + 1..]);
      }
      p := p + 1;
    }
    assert Strings(envp[p..]) == [];
    return Null;
  }

  lemma StringsFrom(slots: seq<Slot>)
    requires slots != [] && slots[0].Str? && Null in slots
    ensures Strings(slots)[0] == slots[0].s && Strings(slots)[1..] == Strings(slots[1..]) && Null in slots[1..]
  {
    var i :| 0 <= i < |slots| && slots[i] == Null;
    assert slots[1..][i - 1] == Null;
  }

  /** The strings of a parameter vector are its contents. */
  lemma {:induction false} StringsCounted(slots: seq<Slot>, n: nat)
    requires n < |slots| && slots[n].Null? && forall i :: 0 <= i < n ==> slots[i].Str?
    ensures |Strings(slots)| == n && forall i :: 0 <= i < n ==> Strings(slots)[i] == slots[i].s
    decreases n
  {
    if n > 0 {
      StringsCounted(slots[1..], n - 1);
    }
  }

  lemma ContentsAreStrings(params: Params)
    requires params.Valid()
    ensures Strings(params.vec[..]) == params.Contents() && Null in params.vec[..]
  {
    StringsCounted(params.vec[..], params.cur);
    assert params.vec[..][params.cur] == Null;
  }

  predicate NoEquals(name: seq<Byte>)
  {
    61 !in name
  }

  predicate PlainNames(ps: seq<Pair>)
  {
    forall i :: 0 <= i < |ps| ==> NoEquals(ps[i].name)
  }

  /** The value of the first pair with the name. */
  predicate FirstValue(ps: seq<Pair>, name: seq<Byte>, v: Slot)
  {
    if v.Null? then forall i :: 0 <= i < |ps| ==> ps[i].name != name
    else exists i :: 0 <= i < |ps| && ps[i].name == name && ps[i].value == v.s && forall j :: 0 <= j < i ==> ps[j].name != name
  }

  /** An entry binds the name of its pair and no other. */
  lemma BindsItsName(p: Pair, name: seq<Byte>)
    requires NoEquals(name) && NoEquals(p.name)
    ensures Binds(NameValue(p), name) <==> p.name == name
    ensures Binds(NameValue(p), name) ==> NameValue(p)[|name| + 1..] == p.value
  {
    var e := NameValue(p);
    assert e[|p.name|] == 61 && e[..|p.name|] == p.name && e[|p.name| + 1..] == p.value;
    if |name| < |p.name| {
      assert e[|name|] == p.name[|name|] && p.name[|name|] in p.name;
    } else if |p.name| < |name| < |e| {
      assert e[..|name|][|p.name|] == 61;
    }
  }

  /** Looking up a name gives the value of the first pair with it, and nothing exactly when there is none. */
  lemma {:induction false} LookupPairs(ps: seq<Pair>, name: seq<Byte>)
    requires PlainNames(ps) && NoEquals(name)
    ensures FirstValue(ps, name, Lookup(NameValues(ps), name))
    decreases |ps|
  {
    hide NameValue;
    if ps != [] {
      var v := Lookup(NameValues(ps[1..]), name);
      assert NameValues(ps)[1..] == NameValues(ps[1..]);
      BindsItsName(ps[0], name);
      LookupPairs(ps[1..], name);
      FirstValueCons(ps, name, v);
    }
  }

  lemma FirstValueCons(ps: seq<Pair>, name: seq<Byte>, v: Slot)
    requires ps != [] && FirstValue(ps[1..], name, v)
    ensures FirstValue(ps, name, if ps[0].name == name then Str(ps[0].value) else v)
  {
    assert forall i :: 0 <= i < |ps[1..]| ==> ps[1..][i] == ps[i + 1];
    if ps[0].name != name {
      if v.Str? {
        var i :| 0 <= i < |ps[1..]| && ps[1..][i].name == name && ps[1..][i].value == v.s
          && forall j :: 0 <= j < i ==> ps[1..][j].name != name;
        forall j | 0 <= j < i + 1 ensures ps[j].name != name {
          if j > 0 { assert ps[1..][j - 1] == ps[j]; }
        }
        assert ps[i + 1].name == name;
      } else {
        forall j | 0 <= j < |ps| ensures ps[j].name != name {
          if j > 0 { assert ps[1..][j - 1] == ps[j]; }
        }
      }
    }
  }
}
