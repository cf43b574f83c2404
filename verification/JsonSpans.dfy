/**
 Spans cut out of a payload: an object's members, an array's elements, and the array
 reader that only counts braces.
 */
module JsonSpans {
  import opened ByteStrings
  import opened JsonScan
  import opened JsonLocality
  import opened StrictScanner

  /** objectMembers: the members of the object a payload opens with. */
  function ObjectMembers(payload: Bytes): Scan<seq<Member>> {
    var a := Spaces(payload);
    if a >= |payload| || payload[a] != LBRACE then Fail else Object(payload[a..], MAX_DEPTH)
  }

  function ArrayElements(raw: Bytes): Scan<seq<Bytes>> {
    var a := Spaces(raw);
    if a >= |raw| || raw[a] != LBRACKET then Fail else Array(raw[a..], MAX_DEPTH)
  }

  // ------------------------------------------------------- more room is enough

  lemma {:induction false} ValueRoom(s: Bytes, room: nat)
    requires Value(s, room).Got?
    ensures Value(s, room + 1) == Value(s, room)
    decreases |s|, 2
  {
    if s[0] == LBRACE { ObjectRoom(s, room - 1); }
    else if s[0] == LBRACKET { ArrayRoom(s, room - 1); }
  }

  lemma {:induction false} ObjectRoom(s: Bytes, room: nat)
    requires s != [] && Object(s, room).Got?
    ensures Object(s, room + 1) == Object(s, room)
    decreases |s|, 1
  {
    var a := 1 + Spaces(s[1..]);
    if s[a] != RBRACE { MembersRoom(s[a..], room); }
  }

  lemma {:induction false} MembersRoom(s: Bytes, room: nat)
    requires Members(s, room).Got?
    ensures Members(s, room + 1) == Members(s, room)
    decreases |s|, 1
  {
    hide Key, Value, Separator;
    ValueRoom(s[Key(s).n..], room);
    var n := Entry(s, room).n;
    if Entry(s, room).v.1 { MembersRoom(s[n..], room); }
  }

  lemma {:induction false} ArrayRoom(s: Bytes, room: nat)
    requires s != [] && Array(s, room).Got?
    ensures Array(s, room + 1) == Array(s, room)
    decreases |s|, 1
  {
    var a := 1 + Spaces(s[1..]);
    if s[a] != RBRACKET { ElementsRoom(s[a..], room); }
  }

  lemma {:induction false} ElementsRoom(s: Bytes, room: nat)
    requires Elements(s, room).Got?
    ensures Elements(s, room + 1) == Elements(s, room)
    decreases |s|, 4
  {
    hide Value, Separator;
    ValueRoom(s[Spaces(s)..], room);
    var n := Item(s, room).n;
    if Item(s, room).v.1 { ElementsRoom(s[n..], room); }
  }

  // ------------------------------------------------ spans stand on their own

  /** raw is s[x..y], beginning with and followed by an ASCII byte. */
  ghost predicate CleanAt(s: Bytes, raw: Bytes, x: nat, y: nat) {
    x < y < |s| && raw == s[x..y] && s[x] < 0x80 && s[y] < 0x80
  }

  ghost predicate Clean(s: Bytes, raw: Bytes) {
    exists x: nat, y: nat :: CleanAt(s, raw, x, y)
  }

  /** A value cut out of its place is still that value, whole. */
  lemma ValueAlone(s: Bytes, room: nat)
    requires Value(s, room).Got?
    ensures Value(s[..Value(s, room).n], room) == Value(s, room)
  {
    hide Value;
    var n := Value(s, room).n;
    assert Agree(s, s[..n], n);
    ValueLocal(s, s[..n], room);
  }

  lemma CleanDrop(s: Bytes, n: nat, raw: Bytes)
    requires n <= |s| && Clean(s[n..], raw)
    ensures Clean(s, raw)
  {
    var x: nat, y: nat :| CleanAt(s[n..], raw, x, y);
    assert CleanAt(s, raw, n + x, n + y);
  }

  lemma ValueBegins(s: Bytes, room: nat)
    requires Value(s, room).Got?
    ensures s[0] < 0x80 && !IsSpace(s[0])
  {}

  lemma SeparatorBegins(s: Bytes, closing: byte)
    requires Separator(s, closing).Got? && closing < 0x80
    ensures s != [] && s[0] < 0x80
  {}

  lemma EntrySpan(s: Bytes, room: nat)
    requires Entry(s, room).Got?
    ensures var raw := Entry(s, room).v.0.raw;
            Clean(s, raw) && Value(raw, room).Got? && Value(raw, room).n == |raw|
  {
    hide Key, Value, Separator;
    var c := Key(s).n;
    var e := c + Value(s[c..], room).n;
    ValueBegins(s[c..], room);
    SeparatorBegins(s[e..], RBRACE);
    ValueAlone(s[c..], room);
    assert s[c..e] == s[c..][..e - c];
    assert CleanAt(s, s[c..e], c, e);
  }

  lemma ItemSpan(s: Bytes, room: nat)
    requires Item(s, room).Got?
    ensures var raw := Item(s, room).v.0;
            Clean(s, raw) && Value(raw, room).Got? && Value(raw, room).n == |raw|
  {
    hide Value, Separator;
    var c := Spaces(s);
    var e := c + Value(s[c..], room).n;
    ValueBegins(s[c..], room);
    SeparatorBegins(s[e..], RBRACKET);
    ValueAlone(s[c..], room);
    assert s[c..e] == s[c..][..e - c];
    assert CleanAt(s, s[c..e], c, e);
  }

  lemma {:induction false} MemberSpans(s: Bytes, room: nat, k: nat)
    requires Members(s, room).Got? && k < |Members(s, room).v|
    ensures var raw := Members(s, room).v[k].raw;
            Clean(s, raw) && Value(raw, room).Got? && Value(raw, room).n == |raw|
    decreases |s|
  {
    hide Entry, Clean, Value;
    if k == 0 {
      EntrySpan(s, room);
    } else {
      var n := Entry(s, room).n;
      MemberSpans(s[n..], room, k - 1);
      CleanDrop(s, n, Members(s, room).v[k].raw);
    }
  }

  lemma {:induction false} ElementSpans(s: Bytes, room: nat, k: nat)
    requires Elements(s, room).Got? && k < |Elements(s, room).v|
    ensures var raw := Elements(s, room).v[k];
            Clean(s, raw) && Value(raw, room).Got? && Value(raw, room).n == |raw|
    decreases |s|
  {
    hide Item, Clean, Value;
    if k == 0 {
      ItemSpan(s, room);
    } else {
      var n := Item(s, room).n;
      ElementSpans(s[n..], room, k - 1);
      CleanDrop(s, n, Elements(s, room).v[k]);
    }
  }

  lemma CleanIsUtf8(s: Bytes, raw: Bytes)
    requires Utf8(s) && Clean(s, raw)
    ensures Utf8(raw)
  {
    hide Utf8;
    var x: nat, y: nat :| CleanAt(s, raw, x, y);
    assert s == s[..x] + s[x..];
    Utf8Split(s[..x], s[x..]);
    assert s[x..] == raw + s[y..];
    Utf8Split(raw, s[y..]);
  }

  /** A text that is one value, with well-formed UTF-8, is a strict payload. */
  lemma ValueIsStrict(raw: Bytes, room: nat)
    requires Utf8(raw) && Value(raw, room).Got? && Value(raw, room).n == |raw| && room <= MAX_DEPTH
    ensures Strict(raw)
  {
    hide Value;
    ValueBegins(raw, room);
    ValueRooms(raw, room, MAX_DEPTH);
    assert raw[0..] == raw;
    assert Spaces(raw) == 0;
    assert Spaces(raw[|raw|..]) == 0;
  }

  lemma {:induction false} ValueRooms(s: Bytes, room: nat, more: nat)
    requires Value(s, room).Got? && room <= more
    ensures Value(s, more) == Value(s, room)
    decreases more
  {
    if room < more {
      ValueRooms(s, room, more - 1);
      ValueRoom(s, more - 1);
    }
  }

  lemma StrictParts(payload: Bytes)
    requires Strict(payload)
    ensures payload != [] && Utf8(payload) && Spaces(payload) < |payload|
    ensures Value(payload[Spaces(payload)..], MAX_DEPTH).Got?
    ensures var n := Spaces(payload) + Value(payload[Spaces(payload)..], MAX_DEPTH).n;
            n + Spaces(payload[n..]) == |payload|
  {
    hide Value, Utf8, Spaces;
  }

  lemma Utf8Suffix(s: Bytes, n: nat)
    requires Utf8(s) && n < |s| && s[n] < 0x80
    ensures Utf8(s[n..])
  {
    hide Utf8;
    assert s == s[..n] + s[n..];
    Utf8Split(s[..n], s[n..]);
  }

  lemma MembersAreStrict(s: Bytes, room: nat, k: nat)
    requires Utf8(s) && room <= MAX_DEPTH && Members(s, room).Got? && k < |Members(s, room).v|
    ensures Strict(Members(s, room).v[k].raw)
  {
    hide Members, Strict, Utf8, Value, Clean;
    MemberSpans(s, room, k);
    CleanIsUtf8(s, Members(s, room).v[k].raw);
    ValueIsStrict(Members(s, room).v[k].raw, room);
  }

  lemma ElementsAreStrict(s: Bytes, room: nat, k: nat)
    requires Utf8(s) && room <= MAX_DEPTH && Elements(s, room).Got? && k < |Elements(s, room).v|
    ensures Strict(Elements(s, room).v[k])
  {
    hide Elements, Strict, Utf8, Value, Clean;
    ElementSpans(s, room, k);
    CleanIsUtf8(s, Elements(s, room).v[k]);
    ValueIsStrict(Elements(s, room).v[k], room);
  }

  lemma KeyBegins(s: Bytes)
    requires Key(s).Got?
    ensures s != [] && s[0] < 0x80
  {}

  lemma ObjectIsStrict(s: Bytes, room: nat)
    requires Utf8(s) && room < MAX_DEPTH && s != [] && s[0] == LBRACE && Object(s, room).Got?
    ensures forall k :: 0 <= k < |Object(s, room).v| ==> Strict(Object(s, room).v[k].raw)
  {
    hide Members, Strict, Utf8, Key;
    var a := 1 + Spaces(s[1..]);
    if s[a] != RBRACE {
      MembersBegin(s[a..], room);
      Utf8Suffix(s, a);
      forall k | 0 <= k < |Members(s[a..], room).v| ensures Strict(Members(s[a..], room).v[k].raw) {
        MembersAreStrict(s[a..], room, k);
      }
    }
  }

  lemma MembersBegin(s: Bytes, room: nat)
    requires Members(s, room).Got?
    ensures s != [] && s[0] < 0x80
  {
    hide Value, Separator, Key;
    KeyBegins(s);
  }

  lemma ArrayIsStrict(s: Bytes, room: nat)
    requires Utf8(s) && room < MAX_DEPTH && s != [] && s[0] == LBRACKET && Array(s, room).Got?
    ensures forall k :: 0 <= k < |Array(s, room).v| ==> Strict(Array(s, room).v[k])
  {
    hide Elements, Strict, Utf8;
    var a := 1 + Spaces(s[1..]);
    if s[a] != RBRACKET {
      ElementsBegin(s[a..], room);
      Utf8Suffix(s, a);
      forall k | 0 <= k < |Elements(s[a..], room).v| ensures Strict(Elements(s[a..], room).v[k]) {
        ElementsAreStrict(s[a..], room, k);
      }
    }
  }

  lemma ElementsBegin(s: Bytes, room: nat)
    requires Elements(s, room).Got?
    ensures s != [] && s[0] < 0x80
  {
    hide Value, Separator;
    var c := Spaces(s);
    ValueBegins(s[c..], room);
    if c > 0 { assert IsSpace(s[0]); }
  }

  lemma StrictObject(payload: Bytes)
    requires Strict(payload) && payload[Spaces(payload)] == LBRACE
    ensures var s := payload[Spaces(payload)..];
            Utf8(s) && Object(s, MAX_DEPTH - 1).Got? && Distinct(Object(s, MAX_DEPTH - 1).v)
  {
    hide Object, Strict, Distinct, Utf8;
    StrictParts(payload);
    Utf8Suffix(payload, Spaces(payload));
  }

  lemma StrictArray(raw: Bytes)
    requires Strict(raw) && raw[Spaces(raw)] == LBRACKET
    ensures var s := raw[Spaces(raw)..]; Utf8(s) && Array(s, MAX_DEPTH - 1).Got?
  {
    hide Array, Strict, Utf8;
    StrictParts(raw);
    Utf8Suffix(raw, Spaces(raw));
  }

  /**
   On a strict payload holding an object, objectMembers succeeds, no key repeats, and
   every member's span is itself a strict payload.
   */
  lemma MembersOfStrict(payload: Bytes)
    requires Strict(payload) && payload[Spaces(payload)] == LBRACE
    ensures ObjectMembers(payload).Got? && Distinct(ObjectMembers(payload).v)
    ensures forall k :: 0 <= k < |ObjectMembers(payload).v| ==> Strict(ObjectMembers(payload).v[k].raw)
  {
    hide Object, Strict, Distinct, Utf8;
    var s := payload[Spaces(payload)..];
    StrictParts(payload);
    StrictObject(payload);
    ObjectRoom(s, MAX_DEPTH - 1);
    ObjectIsStrict(s, MAX_DEPTH - 1);
  }

  /** The same for an array's elements. */
  lemma ElementsOfStrict(raw: Bytes)
    requires Strict(raw) && raw[Spaces(raw)] == LBRACKET
    ensures ArrayElements(raw).Got?
    ensures forall k :: 0 <= k < |ArrayElements(raw).v| ==> Strict(ArrayElements(raw).v[k])
  {
    hide Array, Strict, Utf8;
    var s := raw[Spaces(raw)..];
    StrictParts(raw);
    StrictArray(raw);
    ArrayRoom(s, MAX_DEPTH - 1);
    ArrayIsStrict(s, MAX_DEPTH - 1);
  }
}
