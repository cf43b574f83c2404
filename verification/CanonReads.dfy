/** What is written canonically parses back to the value it was written from. */
module CanonReads {
  import opened ByteStrings
  import opened CanonJson
  import opened CanonNumbers
  import opened CanonStrings
  import opened GrammarScans
  import opened JsonLocality
  import opened JsonScan

  /** A value as the parser makes them. */
  ghost predicate Profile(v: Json)
    decreases v
  {
    match v
    case Null => true
    case Bool(_) => true
    case Num(tok) => CanonNumber(tok)
    case Str(s) => Utf8(s) && 0 !in s
    case Arr(items) => forall i :: 0 <= i < |items| ==> Profile(items[i])
    case Obj(m) => forall k :: k in m ==> Utf8(k) && Profile(m[k])
  }

  /** Bytes that may stand at the head of a value. */
  predicate Opens(c: byte) {
    c == LBRACE || c == LBRACKET || c == QUOTE || c == MINUS || IsDigit(c) || c == 0x74 || c == 0x66 || c == 0x6E
  }

  lemma Words()
    ensures |TRUE| == 4 && TRUE[0] == 0x74
    ensures |FALSE| == 5 && FALSE[0] == 0x66
    ensures |NULL| == 4 && NULL[0] == 0x6E
  {}

  lemma NumeralHead(s: Bytes)
    requires Numeral(s).Got?
    ensures s != [] && (s[0] == MINUS || IsDigit(s[0]))
  {
    if Sign(s) == 0 { assert s[0..] == s; }
  }

  lemma {:induction false} EmitHead(v: Json)
    requires Profile(v)
    ensures Emit(v) != [] && Opens(Emit(v)[0])
  {
    hide Numeral, CanonText, Sorted, EmitItems, EmitMembers, Ascii;
    Words();
    match v
    case Num(tok) => NumeralHead(tok);
    case Str(s) => TextHead(s);
    case _ =>
  }

  lemma TextHead(s: Bytes)
    ensures CanonText(s) != [] && CanonText(s)[0] == QUOTE
  {}

  /** What may follow a value: nothing, or a byte that does not prolong a number. */
  lemma WordReads(w: Bytes, v: Json, t: Bytes)
    ensures Word(w + t, w, v) == Got(|w|, v)
  {
    assert (w + t)[..|w|] == w;
  }

  lemma NumberReads(tok: Bytes, t: Bytes, lone: bool)
    requires CanonNumber(tok) && Follows(t)
    ensures Parse(tok + t, lone) == Got(|tok|, Num(tok))
  {
    hide Numeral, CanonNumber;
    var s := tok + t;
    assert Numeral(tok).Got? && Numeral(tok).n == |tok| by { NumberIsNumeral(tok); }
    assert s[..|tok|] == tok && tok[..|tok|] == tok;
    NumeralLocal(tok, s);
    NumeralHead(tok);
    assert s[0] == tok[0];
  }

  lemma NumberIsNumeral(tok: Bytes)
    requires CanonNumber(tok)
    ensures Numeral(tok).Got? && Numeral(tok).n == |tok|
  {
    hide Numeral;
  }

  lemma {:induction false} ValueReads(v: Json, t: Bytes, lone: bool)
    requires Profile(v) && Follows(t)
    ensures Parse(Emit(v) + t, lone) == Got(|Emit(v)|, v)
    decreases v, 1, 0
  {
    hide ParseObject, ParseArray, Numeral, Text, CanonText, Sorted, EmitMembers, EmitItems, Ascii;
    Words();
    match v
    case Null => WordReads(NULL, v, t);
    case Bool(b) => WordReads(if b then TRUE else FALSE, v, t);
    case Num(tok) => NumberReads(tok, t, lone);
    case Str(s) =>
      TextReads(s, t, lone);
      TextHead(s);
    case Arr(items) => ArrayReads(items, t, lone);
    case Obj(m) =>
      SortedLists(v);
      ObjectReads(v, Sorted(m.Keys), t, lone);
  }

  lemma NoSpaces(s: Bytes)
    requires s == [] || !IsSpace(s[0])
    ensures Spaces(s) == 0
  {}

  lemma SeparatorReads(c: byte, closing: byte, t: Bytes)
    requires closing == RBRACE || closing == RBRACKET
    requires c == COMMA || c == closing
    ensures Separator([c] + t, closing) == Got(1, c == COMMA)
  {
    NoSpaces([c] + t);
  }

  // ----------------------------------------------------------------- arrays

  lemma {:induction false} ItemReads(v: Json, c: byte, t: Bytes, lone: bool)
    requires Profile(v) && (c == COMMA || c == RBRACKET)
    ensures ParseItem(Emit(v) + [c] + t, lone) == Got(|Emit(v)| + 1, (v, c == COMMA))
    decreases v, 2, 0
  {
    hide Parse, Emit, Separator, Spaces;
    var s := Emit(v) + [c] + t;
    assert s == Emit(v) + ([c] + t);
    EmitHead(v);
    NoSpaces(s);
    assert s[0..] == s;
    ValueReads(v, [c] + t, lone);
    assert s[|Emit(v)|..] == [c] + t;
    SeparatorReads(c, RBRACKET, t);
  }

  lemma {:induction false} ItemsRead(items: seq<Json>, t: Bytes, lone: bool)
    requires items != [] && forall i :: 0 <= i < |items| ==> Profile(items[i])
    ensures ParseItems(EmitItems(items) + [RBRACKET] + t, lone) == Got(|EmitItems(items)| + 1, items)
    decreases items, 0, 0
  {
    hide ParseItem, Emit;
    var s, e := EmitItems(items) + [RBRACKET] + t, Emit(items[0]);
    if |items| == 1 {
      ItemReads(items[0], RBRACKET, t, lone);
      assert items == [items[0]];
    } else {
      var rest := EmitItems(items[1..]) + [RBRACKET] + t;
      assert s == e + [COMMA] + rest;
      ItemReads(items[0], COMMA, rest, lone);
      assert s[|e| + 1..] == rest;
      ItemsRead(items[1..], t, lone);
      assert items == [items[0]] + items[1..];
    }
  }

  lemma {:induction false} ArrayReads(items: seq<Json>, t: Bytes, lone: bool)
    requires forall i :: 0 <= i < |items| ==> Profile(items[i])
    ensures Parse(Emit(Arr(items)) + t, lone) == Got(|Emit(Arr(items))|, Arr(items))
    decreases items, 1, 0
  {
    hide ParseItems, Spaces, EmitItems;
    var s := Emit(Arr(items)) + t;
    var rest := EmitItems(items) + [RBRACKET] + t;
    assert s == [LBRACKET] + rest;
    assert s[1..] == rest;
    if items == [] {
      EmptyItems();
      assert rest[0] == RBRACKET;
      NoSpaces(rest);
    } else {
      ItemsHead(items, t);
      NoSpaces(rest);
      ItemsRead(items, t, lone);
    }
  }

  lemma EmptyItems()
    ensures EmitItems([]) == []
  {}

  lemma {:induction false} ItemsHead(items: seq<Json>, t: Bytes)
    requires items != [] && forall i :: 0 <= i < |items| ==> Profile(items[i])
    ensures var s := EmitItems(items) + [RBRACKET] + t; Opens(s[0])
  {
    hide Emit;
    EmitHead(items[0]);
  }

  // ---------------------------------------------------------------- objects

  lemma QuoteIsNoSpace()
    ensures !IsSpace(QUOTE) && !IsSpace(COLON)
  {}

  lemma KeyReads(k: Bytes, t: Bytes, lone: bool)
    requires Utf8(k) && (t == [] || !IsSpace(t[0]))
    ensures KeyOf(CanonText(k) + [COLON] + t, lone) == Got(|CanonText(k)| + 1, k)
  {
    hide Text, CanonText, Utf8;
    var s, q := CanonText(k) + [COLON] + t, CanonText(k);
    TextHead(k);
    TextReads(k, [COLON] + t, lone);
    QuoteIsNoSpace();
    KeyParts(s, q, t, k, lone);
  }

  lemma Tails(q: Bytes, c: byte, t: Bytes)
    ensures var s := q + [c] + t;
            s == q + ([c] + t) && s[0..] == s && s[|q|..] == [c] + t && s[|q|] == c && s[|q| + 1..] == t
  {}

  lemma KeyParts(s: Bytes, q: Bytes, t: Bytes, k: Bytes, lone: bool)
    requires s == q + [COLON] + t && q != [] && !IsSpace(q[0]) && !IsSpace(COLON) && (t == [] || !IsSpace(t[0]))
    requires Text(q + ([COLON] + t), lone) == Got(|q|, k)
    ensures KeyOf(s, lone) == Got(|q| + 1, k)
  {
    hide Text, Spaces, IsSpace;
    Tails(q, COLON, t);
    NoSpaces(s);
    NoSpaces([COLON] + t);
    NoSpaces(t);
  }

  lemma {:induction false} MemberReads(v: Json, k: Bytes, c: byte, t: Bytes, lone: bool)
    requires v.Obj? && k in v.members && Profile(v) && (c == COMMA || c == RBRACE)
    ensures ParseMember(EmitMember(v, k) + [c] + t, lone) == Got(|EmitMember(v, k)| + 1, ((k, v.members[k]), c == COMMA))
    decreases v, 0, 0
  {
    hide Parse, Emit, Separator, KeyOf, CanonText, Utf8;
    var s, e := EmitMember(v, k) + [c] + t, Emit(v.members[k]);
    var q := CanonText(k);
    var rest := e + ([c] + t);
    assert s == q + [COLON] + rest;
    EmitHead(v.members[k]);
    KeyReads(k, rest, lone);
    assert s[|q| + 1..] == rest;
    ValueReads(v.members[k], [c] + t, lone);
    assert s[|q| + 1 + |e|..] == [c] + t;
    SeparatorReads(c, RBRACE, t);
  }

  ghost function PairsOf(v: Json, ks: seq<Bytes>): (ps: seq<Pair>)
    requires v.Obj? && forall k :: k in ks ==> k in v.members
    ensures |ps| == |ks| && forall i :: 0 <= i < |ks| ==> ps[i] == (ks[i], v.members[ks[i]])
  {
    seq(|ks|, i requires 0 <= i < |ks| => (ks[i], v.members[ks[i]]))
  }

  lemma {:induction false} MembersRead(v: Json, ks: seq<Bytes>, t: Bytes, lone: bool)
    requires v.Obj? && Profile(v) && ks != [] && forall k :: k in ks ==> k in v.members
    ensures ParseMembers(EmitMembers(v, ks) + [RBRACE] + t, lone) == Got(|EmitMembers(v, ks)| + 1, PairsOf(v, ks))
    decreases v, 0, |ks|
  {
    hide ParseMember, EmitMember, Profile;
    var s, e := EmitMembers(v, ks) + [RBRACE] + t, EmitMember(v, ks[0]);
    if |ks| == 1 {
      MemberReads(v, ks[0], RBRACE, t, lone);
      assert PairsOf(v, ks) == [(ks[0], v.members[ks[0]])];
    } else {
      var rest := EmitMembers(v, ks[1..]) + [RBRACE] + t;
      assert s == e + [COMMA] + rest;
      MemberReads(v, ks[0], COMMA, rest, lone);
      assert s[|e| + 1..] == rest;
      MembersRead(v, ks[1..], t, lone);
      assert PairsOf(v, ks) == [(ks[0], v.members[ks[0]])] + PairsOf(v, ks[1..]);
    }
  }

  // ----------------------------------------------------- members and the map

  lemma {:induction false} ToMapHolds(ps: seq<Pair>)
    requires DistinctKeys(ps)
    ensures forall i :: 0 <= i < |ps| ==> ps[i].0 in ToMap(ps) && ToMap(ps)[ps[i].0] == ps[i].1
    ensures forall k :: k in ToMap(ps) ==> exists i :: 0 <= i < |ps| && ps[i].0 == k
  {
    if ps != [] { ToMapHolds(ps[..|ps| - 1]); }
  }

  /** The order members come in is forgotten: two lists of the same members make one object. */
  lemma SameMembersSameObject(ps: seq<Pair>, qs: seq<Pair>)
    requires DistinctKeys(ps) && DistinctKeys(qs) && forall p :: p in ps <==> p in qs
    ensures ToMap(ps) == ToMap(qs)
  {
    hide ToMap;
    ToMapHolds(ps);
    ToMapHolds(qs);
    MapWithin(ps, qs);
    MapWithin(qs, ps);
  }

  lemma MapWithin(ps: seq<Pair>, qs: seq<Pair>)
    requires DistinctKeys(ps) && DistinctKeys(qs) && forall p :: p in ps ==> p in qs
    ensures forall k :: k in ToMap(ps) ==> k in ToMap(qs) && ToMap(ps)[k] == ToMap(qs)[k]
  {
    hide ToMap;
    ToMapHolds(ps);
    ToMapHolds(qs);
    forall k | k in ToMap(ps) ensures k in ToMap(qs) && ToMap(ps)[k] == ToMap(qs)[k] {
      var i :| 0 <= i < |ps| && ps[i].0 == k;
      assert ps[i] in qs;
    }
  }

  /** ks lists the keys of v, each once. */
  predicate ListsKeys(v: Json, ks: seq<Bytes>) {
    && v.Obj?
    && (forall i, j :: 0 <= i < j < |ks| ==> ks[i] != ks[j])
    && (forall k :: k in ks ==> k in v.members)
    && (forall k :: k in v.members ==> k in ks)
  }

  lemma PairsMakeTheMap(v: Json, ks: seq<Bytes>)
    requires ListsKeys(v, ks)
    ensures DistinctKeys(PairsOf(v, ks)) && ToMap(PairsOf(v, ks)) == v.members
  {
    hide ToMap;
    var ps := PairsOf(v, ks);
    ToMapHolds(ps);
    forall k | k in v.members ensures k in ToMap(ps) && ToMap(ps)[k] == v.members[k] {
      var i :| 0 <= i < |ks| && ks[i] == k;
      assert ps[i].0 == k;
    }
    forall k | k in ToMap(ps) ensures k in v.members {
      var i :| 0 <= i < |ps| && ps[i].0 == k;
      assert ks[i] in ks;
    }
  }

  lemma SortedLists(v: Json)
    requires v.Obj?
    ensures ListsKeys(v, Sorted(v.members.Keys))
  {
    hide Paths.Less;
    var ks := Sorted(v.members.Keys);
    forall i, j | 0 <= i < j < |ks| ensures ks[i] != ks[j] {
      Paths.LessTotal(ks[i], ks[j]);
    }
  }

  lemma {:induction false} MembersHead(v: Json, ks: seq<Bytes>, t: Bytes)
    requires v.Obj? && ks != [] && forall k :: k in ks ==> k in v.members
    ensures var s := EmitMembers(v, ks) + [RBRACE] + t; s[0] == QUOTE
  {
    hide Emit, CanonText;
    TextHead(ks[0]);
  }

  lemma EmptyMembers(v: Json)
    requires v.Obj?
    ensures EmitMembers(v, []) == []
  {}

  /** An object parses back whatever order its members are written in. */
  lemma {:induction false} ObjectReads(v: Json, ks: seq<Bytes>, t: Bytes, lone: bool)
    requires Profile(v) && ListsKeys(v, ks)
    ensures Parse(EmitObject(v, ks) + t, lone) == Got(|EmitObject(v, ks)|, v)
    decreases v, 0, |ks| + 1
  {
    hide ParseMembers, Spaces, EmitMembers, Profile, ToMap;
    var s := EmitObject(v, ks) + t;
    var rest := EmitMembers(v, ks) + [RBRACE] + t;
    assert s == [LBRACE] + rest;
    assert s[1..] == rest;
    PairsMakeTheMap(v, ks);
    if ks == [] {
      EmptyMembers(v);
      assert rest[0] == RBRACE;
      NoSpaces(rest);
      assert v.members == map[];
    } else {
      MembersHead(v, ks, t);
      NoSpaces(rest);
      MembersRead(v, ks, t, lone);
    }
  }
}
