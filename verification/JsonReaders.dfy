/** The readers that cut spans out of a payload, over the scanner's own methods. */
module JsonReaders {
  import opened ByteStrings
  import opened JsonScan
  import opened StrictScanner
  import opened JsonSpans

  /** The member loop: every key and value span, in order, through the closing brace. */
  method CollectMembers(s: Scanner) returns (out: seq<Member>, ok: bool)
    requires s.Valid()
    modifies s`i, s`depth
    ensures s.Valid() && s.depth == old(s.depth)
    ensures ok <==> Members(old(s.Rest()), MAX_DEPTH - s.depth).Got?
    ensures ok ==> out == Members(old(s.Rest()), MAX_DEPTH - s.depth).v
  {
    hide Members, Entry, Before;
    ghost var t, start, room := s.Rest(), s.i, MAX_DEPTH - s.depth;
    out := [];
    BeforeNothing(Members(t, room));
    while true
      invariant s.Valid() && start <= s.i && s.depth == old(s.depth)
      invariant Members(t, room) == Before(s.i - start, out, Members(s.b[s.i..], room))
      decreases |s.b| - s.i
    {
      ghost var rest, at := s.Rest(), s.i;
      var key, from, to, more, good := s.ScanEntry();
      MembersOnce(rest, room);
      if !good {
        BeforeFail<Member>(at - start, out);
        return [], false;
      }
      assert s.b[s.i..] == rest[s.i - at..];
      var m := Member(key, s.b[from..to]);
      if !more {
        BeforeLast(at - start, out, s.i - at, m);
        return out + [m], true;
      }
      BeforeTwice(at - start, out, s.i - at, [m], Members(s.b[s.i..], room));
      out := out + [m];
    }
  }

  /** From the opening brace. */
  method CollectObject(s: Scanner) returns (out: seq<Member>, ok: bool)
    requires s.Valid() && s.i < |s.b|
    modifies s`i, s`depth
    ensures s.Valid() && s.depth == old(s.depth)
    ensures ok <==> Object(old(s.Rest()), MAX_DEPTH - s.depth).Got?
    ensures ok ==> out == Object(old(s.Rest()), MAX_DEPTH - s.depth).v
  {
    hide Members, Spaces;
    ghost var t := s.Rest();
    s.i := s.i + 1;
    assert s.b[s.i..] == t[1..];
    s.Ws();
    assert s.b[s.i..] == t[1 + Spaces(t[1..])..];
    if s.i < |s.b| && s.b[s.i] == RBRACE {
      return [], true;
    }
    out, ok := CollectMembers(s);
  }

  /** objectMembers. */
  method ReadObjectMembers(payload: Bytes) returns (out: seq<Member>, ok: bool)
    ensures ok <==> ObjectMembers(payload).Got?
    ensures ok ==> out == ObjectMembers(payload).v
  {
    hide Object, Spaces;
    var s := new Scanner(payload);
    assert payload[0..] == payload;
    s.Ws();
    if s.i >= |payload| || payload[s.i] != LBRACE {
      return [], false;
    }
    out, ok := CollectObject(s);
  }

  method CollectElements(s: Scanner) returns (out: seq<Bytes>, ok: bool)
    requires s.Valid()
    modifies s`i, s`depth
    ensures s.Valid() && s.depth == old(s.depth)
    ensures ok <==> Elements(old(s.Rest()), MAX_DEPTH - s.depth).Got?
    ensures ok ==> out == Elements(old(s.Rest()), MAX_DEPTH - s.depth).v
  {
    hide Elements, Item, Before;
    ghost var t, start, room := s.Rest(), s.i, MAX_DEPTH - s.depth;
    out := [];
    BeforeNothing(Elements(t, room));
    while true
      invariant s.Valid() && start <= s.i && s.depth == old(s.depth)
      invariant Elements(t, room) == Before(s.i - start, out, Elements(s.b[s.i..], room))
      decreases |s.b| - s.i
    {
      ghost var rest, at := s.Rest(), s.i;
      var from, to, more, good := s.ScanItem();
      ElementsOnce(rest, room);
      if !good {
        BeforeFail<Bytes>(at - start, out);
        return [], false;
      }
      assert s.b[s.i..] == rest[s.i - at..];
      if !more {
        BeforeLast(at - start, out, s.i - at, s.b[from..to]);
        return out + [s.b[from..to]], true;
      }
      BeforeTwice(at - start, out, s.i - at, [s.b[from..to]], Elements(s.b[s.i..], room));
      out := out + [s.b[from..to]];
    }
  }

  /** arrayElements. */
  method ReadArrayElements(raw: Bytes) returns (out: seq<Bytes>, ok: bool)
    ensures ok <==> ArrayElements(raw).Got?
    ensures ok ==> out == ArrayElements(raw).v
  {
    hide Elements, Spaces, Item, Value;
    var s := new Scanner(raw);
    assert raw[0..] == raw;
    s.Ws();
    if s.i >= |raw| || raw[s.i] != LBRACKET {
      return [], false;
    }
    ghost var t := raw[s.i..];
    s.i := s.i + 1;
    assert raw[s.i..] == t[1..];
    s.Ws();
    assert raw[s.i..] == t[1 + Spaces(t[1..])..];
    if s.i < |raw| && raw[s.i] == RBRACKET {
      return [], true;
    }
    out, ok := CollectElements(s);
  }

  /** The value of the first member with that key; an absent key yields no bytes. */
  function MemberByKey(members: seq<Member>, key: Bytes): (raw: Bytes)
    ensures raw != [] ==> exists i :: 0 <= i < |members| && members[i] == Member(key, raw)
    ensures (forall i :: 0 <= i < |members| ==> members[i].raw != []) ==>
              (raw == [] <==> forall i :: 0 <= i < |members| ==> members[i].key != key)
  {
    if members == [] then []
    else if members[0].key == key then members[0].raw
    else MemberByKey(members[1..], key)
  }

  /** decodeJSONString: one string and nothing else. */
  function DecodeString(raw: Bytes): Scan<Bytes> {
    match String(raw)
    case Fail => Fail
    case Got(n, v) => if n == |raw| then Got(n, v) else Fail
  }

  method DecodeJSONString(raw: Bytes) returns (r: Scan<Bytes>)
    ensures r == DecodeString(raw)
  {
    hide String;
    var s := new Scanner(raw);
    assert raw[0..] == raw;
    var str, ok := s.ScanString();
    if !ok || s.i != |raw| {
      return Fail;
    }
    return Got(s.i, str);
  }
}
