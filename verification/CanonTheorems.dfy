/** Canonical bytes determine the value, and canonicalising them again changes nothing. */
module CanonTheorems {
  import opened ByteStrings
  import opened CanonJson
  import opened CanonNumbers
  import opened CanonReads
  import opened CanonStrings
  import opened JsonQuote
  import opened JsonScan
  import opened NumberDomain
  import opened Wrappers

  // ----------------------------------------- the check makes reading exact

  lemma {:induction false} OutsideDrop(s: Bytes, k: nat)
    requires k <= |s| && forall i :: 0 <= i < k ==> s[i] != QUOTE
    ensures Outside(s) <==> Outside(s[k..])
  {
    if k == 0 {
      assert s[0..] == s;
    } else {
      OutsideDrop(s[1..], k - 1);
      assert s[1..][k - 1..] == s[k..];
    }
  }

  lemma SpacesPass(s: Bytes)
    ensures Outside(s) <==> Outside(s[Spaces(s)..])
  {
    OutsideDrop(s, Spaces(s));
  }

  lemma SeparatorPasses(s: Bytes, closing: byte)
    requires Separator(s, closing).Got? && closing != QUOTE
    ensures Outside(s) <==> Outside(s[Separator(s, closing).n..])
  {
    OutsideDrop(s, Separator(s, closing).n);
  }

  /** The two readings of s agree, and the check goes on after it as it did before it. */
  ghost predicate Exact<T>(s: Bytes, fast: Scan<T>, strict: Scan<T>) {
    && (strict.Got? ==> fast == strict)
    && (Outside(s) && fast.Got? ==> strict.Got?)
    && (strict.Got? && strict.n <= |s| ==> (Outside(s) <==> Outside(s[strict.n..])))
  }

  lemma TextExact(s: Bytes)
    ensures Exact(s, Text(s, true), Text(s, false))
  {
    hide TextTail;
    if s != [] && s[0] == QUOTE {
      var t := s[1..];
      if TextTail(t, false).Got? {
        ExactText(t);
        assert t[TextTail(t, false).n..] == s[1 + TextTail(t, false).n..];
      }
      if Outside(s) && TextTail(t, true).Got? { CheckedText(t); }
    }
  }

  lemma SpacesPassAt(s: Bytes, j: nat)
    requires j <= |s|
    ensures Outside(s[j..]) <==> Outside(s[j + Spaces(s[j..])..])
  {
    hide Outside, Spaces;
    SpacesPass(s[j..]);
    assert s[j..][Spaces(s[j..])..] == s[j + Spaces(s[j..])..];
  }

  lemma TextPassesAt(s: Bytes, a: nat)
    requires a <= |s| && Text(s[a..], false).Got?
    ensures Outside(s[a..]) <==> Outside(s[a + Text(s[a..], false).n..])
  {
    hide Outside, Text;
    TextExact(s[a..]);
    assert s[a..][Text(s[a..], false).n..] == s[a + Text(s[a..], false).n..];
  }

  lemma KeyPasses(s: Bytes)
    requires KeyOf(s, false).Got?
    ensures Outside(s) <==> Outside(s[KeyOf(s, false).n..])
  {
    hide Text, Spaces, Outside;
    var a := Spaces(s);
    SpacesPass(s);
    TextPassesAt(s, a);
    var e := a + Text(s[a..], false).n;
    SpacesPassAt(s, e);
    var b := e + Spaces(s[e..]);
    ColonPasses(s, b);
    SpacesPassAt(s, b + 1);
  }

  lemma KeyExact(s: Bytes)
    ensures Exact(s, KeyOf(s, true), KeyOf(s, false))
  {
    hide Text, Spaces, Outside;
    SpacesPass(s);
    TextExact(s[Spaces(s)..]);
    if KeyOf(s, false).Got? { KeyPasses(s); }
  }

  lemma ColonPasses(s: Bytes, b: nat)
    requires b < |s| && s[b] != QUOTE
    ensures Outside(s[b..]) <==> Outside(s[b + 1..])
  {
    assert s[b..][1..] == s[b + 1..];
    OutsideDrop(s[b..], 1);
  }

  lemma {:induction false} ParseExact(s: Bytes)
    ensures Exact(s, Parse(s, true), Parse(s, false))
    decreases |s|, 2
  {
    hide ParseObject, ParseArray, Text, Numeral, CanonNumber, Outside;
    if s == [] {
    } else if s[0] == LBRACE {
      ObjectExact(s);
    } else if s[0] == LBRACKET {
      ArrayExact(s);
    } else if s[0] == QUOTE {
      TextExact(s);
    } else if Parse(s, false).Got? {
      NoQuotes(s);
      OutsideDrop(s, Parse(s, false).n);
    }
  }

  /** Numbers and words hold no quote. */
  lemma NoQuotes(s: Bytes)
    requires s != [] && s[0] != LBRACE && s[0] != LBRACKET && s[0] != QUOTE && Parse(s, false).Got?
    ensures forall i :: 0 <= i < Parse(s, false).n ==> s[i] < 0x80 && s[i] != QUOTE
  {
    hide Numeral, CanonNumber;
    var n := Parse(s, false).n;
    assert forall i :: 0 <= i < n ==> s[i] == s[..n][i];
    if s[0] == MINUS || IsDigit(s[0]) {
      NumberBytes(s[..n]);
    } else {
      WordBytes(s[..n]);
    }
  }

  lemma NumberBytes(tok: Bytes)
    requires CanonNumber(tok)
    ensures forall i :: 0 <= i < |tok| ==> tok[i] < 0x80 && tok[i] != QUOTE
  {
    hide CanonNumber, Whole, Fraction;
    CanonHasShape(tok);
    var m, w := Minus(Sign(tok) == 1), Whole(tok);
    var a := m + w;
    assert tok == a + Dotted(Fraction(tok));
  }

  lemma WordBytes(w: Bytes)
    requires w == TRUE || w == FALSE || w == NULL
    ensures forall i :: 0 <= i < |w| ==> w[i] < 0x80 && w[i] != QUOTE
  {}

  lemma {:induction false} ObjectExact(s: Bytes)
    requires s != [] && s[0] == LBRACE
    ensures Exact(s, ParseObject(s, true), ParseObject(s, false))
    decreases |s|, 1
  {
    hide ParseMembers, Spaces, Outside, ToMap, DistinctKeys;
    OutsideDrop(s, 1);
    SpacesPass(s[1..]);
    var a := 1 + Spaces(s[1..]);
    assert s[1..][a - 1..] == s[a..];
    if a < |s| && s[a] == RBRACE {
      ColonPasses(s, a);
    } else {
      MembersExact(s[a..]);
      if ParseMembers(s[a..], false).Got? {
        var n := ParseMembers(s[a..], false).n;
        assert s[a..][n..] == s[a + n..];
      }
    }
  }

  lemma {:induction false} MemberExact(s: Bytes)
    ensures Exact(s, ParseMember(s, true), ParseMember(s, false))
    decreases |s|, 0
  {
    hide Parse, KeyOf, Separator, Outside;
    KeyExact(s);
    if KeyOf(s, false).Got? {
      var c := KeyOf(s, false).n;
      ParseExact(s[c..]);
      if Parse(s[c..], false).Got? {
        var n := Parse(s[c..], false).n;
        assert s[c..][n..] == s[c + n..];
        if Separator(s[c + n..], RBRACE).Got? {
          SeparatorPasses(s[c + n..], RBRACE);
          var p := Separator(s[c + n..], RBRACE).n;
          assert s[c + n..][p..] == s[c + n + p..];
        }
      }
    }
  }

  lemma {:induction false} MembersExact(s: Bytes)
    ensures Exact(s, ParseMembers(s, true), ParseMembers(s, false))
    decreases |s|, 1
  {
    hide ParseMember, Outside;
    MemberExact(s);
    if ParseMember(s, false).Got? && ParseMember(s, false).v.1 {
      var n := ParseMember(s, false).n;
      MembersExact(s[n..]);
      if ParseMembers(s[n..], false).Got? {
        assert s[n..][ParseMembers(s[n..], false).n..] == s[n + ParseMembers(s[n..], false).n..];
      }
    }
  }

  lemma {:induction false} ArrayExact(s: Bytes)
    requires s != [] && s[0] == LBRACKET
    ensures Exact(s, ParseArray(s, true), ParseArray(s, false))
    decreases |s|, 1
  {
    hide ParseItems, Spaces, Outside;
    OutsideDrop(s, 1);
    SpacesPass(s[1..]);
    var a := 1 + Spaces(s[1..]);
    assert s[1..][a - 1..] == s[a..];
    if a < |s| && s[a] == RBRACKET {
      ColonPasses(s, a);
    } else {
      ItemsExact(s[a..]);
      if ParseItems(s[a..], false).Got? {
        var n := ParseItems(s[a..], false).n;
        assert s[a..][n..] == s[a + n..];
      }
    }
  }

  lemma {:induction false} ItemExact(s: Bytes)
    ensures Exact(s, ParseItem(s, true), ParseItem(s, false))
    decreases |s|, 3
  {
    hide Parse, Separator, Spaces, Outside;
    var c := Spaces(s);
    SpacesPass(s);
    ParseExact(s[c..]);
    if Parse(s[c..], false).Got? {
      var n := Parse(s[c..], false).n;
      assert s[c..][n..] == s[c + n..];
      if Separator(s[c + n..], RBRACKET).Got? {
        SeparatorPasses(s[c + n..], RBRACKET);
        var p := Separator(s[c + n..], RBRACKET).n;
        assert s[c + n..][p..] == s[c + n + p..];
      }
    }
  }

  lemma {:induction false} ItemsExact(s: Bytes)
    ensures Exact(s, ParseItems(s, true), ParseItems(s, false))
    decreases |s|, 4
  {
    hide ParseItem, Outside;
    ItemExact(s);
    if ParseItem(s, false).Got? && ParseItem(s, false).v.1 {
      var n := ParseItem(s, false).n;
      ItemsExact(s[n..]);
      if ParseItems(s[n..], false).Got? {
        assert s[n..][ParseItems(s[n..], false).n..] == s[n + ParseItems(s[n..], false).n..];
      }
    }
  }

  /**
   The check on escapes turns the tokenizer's lenient reading into the exact one: a document
   passes it and is read leniently exactly when it is read with no surrogate ever replaced,
   and then the two readings are one value.
   */
  lemma PrecheckIsExact(s: Bytes)
    ensures Outside(s) && Document(s, true).Some? <==> Document(s, false).Some?
    ensures Document(s, false).Some? ==> Document(s, true) == Document(s, false)
  {
    hide Parse, Outside, Spaces;
    var t := s[Spaces(s)..];
    SpacesPass(s);
    ParseExact(t);
    if Document(s, false).Some? {
      var rest := t[Parse(t, false).n..];
      assert rest == s[Spaces(s) + Parse(t, false).n..];
      SpacesPass(rest);
      assert rest[Spaces(rest)..] == [];
      NothingOutside();
    }
  }

  lemma NothingOutside()
    ensures Outside([])
  {}

  // ------------------------------------------------ what is parsed is canonical

  lemma Utf8Drop(s: Bytes, k: nat)
    requires Utf8(s) && k <= |s| && forall i :: 0 <= i < k ==> s[i] < 0x80
    ensures Utf8(s[k..])
  {
    assert s == s[..k] + s[k..];
    Utf8Rest(s[..k], s[k..]);
  }

  ghost predicate AllProfile(vs: seq<Json>) {
    forall i :: 0 <= i < |vs| ==> Profile(vs[i])
  }

  ghost predicate PairsProfile(ps: seq<Pair>) {
    forall i :: 0 <= i < |ps| ==> Utf8(ps[i].0) && Profile(ps[i].1)
  }

  lemma TextWell(s: Bytes)
    requires Utf8(s) && Text(s, true).Got?
    ensures Utf8(Text(s, true).v) && Utf8(s[Text(s, true).n..])
  {
    hide TextTail, Utf8;
    Utf8Drop(s, 1);
    var t := s[1..];
    TextNotEmpty(t);
    ReadIsUtf8(t, true);
    assert t[TextTail(t, true).n..] == s[1 + TextTail(t, true).n..];
    assert [] + TextTail(t, true).v == TextTail(t, true).v;
  }

  lemma TextNotEmpty(t: Bytes)
    requires TextTail(t, true).Got?
    ensures t != []
  {}

  lemma SpacesWell(s: Bytes)
    requires Utf8(s)
    ensures Utf8(s[Spaces(s)..])
  {
    Utf8Drop(s, Spaces(s));
  }

  lemma SeparatorWell(s: Bytes, closing: byte)
    requires Utf8(s) && Separator(s, closing).Got? && closing < 0x80
    ensures Utf8(s[Separator(s, closing).n..])
  {
    Utf8Drop(s, Separator(s, closing).n);
  }

  lemma SpacesWellAt(s: Bytes, j: nat)
    requires j <= |s| && Utf8(s[j..])
    ensures Utf8(s[j + Spaces(s[j..])..])
  {
    hide Utf8, Spaces;
    SpacesWell(s[j..]);
    assert s[j..][Spaces(s[j..])..] == s[j + Spaces(s[j..])..];
  }

  lemma TextWellAt(s: Bytes, a: nat)
    requires a <= |s| && Utf8(s[a..]) && Text(s[a..], true).Got?
    ensures Utf8(Text(s[a..], true).v) && Utf8(s[a + Text(s[a..], true).n..])
  {
    hide Utf8, Text;
    TextWell(s[a..]);
    assert s[a..][Text(s[a..], true).n..] == s[a + Text(s[a..], true).n..];
  }

  lemma ByteWellAt(s: Bytes, b: nat)
    requires b < |s| && Utf8(s[b..]) && s[b] < 0x80
    ensures Utf8(s[b + 1..])
  {
    hide Utf8;
    Utf8Drop(s[b..], 1);
    assert s[b..][1..] == s[b + 1..];
  }

  lemma KeyWell(s: Bytes)
    requires Utf8(s) && KeyOf(s, true).Got?
    ensures Utf8(KeyOf(s, true).v) && Utf8(s[KeyOf(s, true).n..])
  {
    hide Text, Spaces, Utf8;
    var a := Spaces(s);
    SpacesWell(s);
    TextWellAt(s, a);
    var e := a + Text(s[a..], true).n;
    SpacesWellAt(s, e);
    var b := e + Spaces(s[e..]);
    ByteWellAt(s, b);
    SpacesWellAt(s, b + 1);
  }

  lemma {:induction false} ParseWell(s: Bytes)
    requires Utf8(s) && Parse(s, true).Got?
    ensures Profile(Parse(s, true).v) && Utf8(s[Parse(s, true).n..])
    decreases |s|, 2
  {
    hide ParseObject, ParseArray, Text, Numeral, CanonNumber, Utf8;
    if s[0] == LBRACE {
      ObjectWell(s);
    } else if s[0] == LBRACKET {
      ArrayWell(s);
    } else if s[0] == QUOTE {
      TextWell(s);
    } else {
      ParseExact(s);
      NoReplacement(s);
      NoQuotes(s);
      Utf8Drop(s, Parse(s, true).n);
    }
  }

  lemma NoReplacement(s: Bytes)
    requires s != [] && s[0] != LBRACE && s[0] != LBRACKET && s[0] != QUOTE
    ensures Parse(s, true) == Parse(s, false)
  {
    hide Numeral, CanonNumber;
  }

  lemma {:induction false} MapProfile(ps: seq<Pair>)
    requires PairsProfile(ps)
    ensures forall k :: k in ToMap(ps) ==> Utf8(k) && Profile(ToMap(ps)[k])
  {
    hide Utf8, Profile;
    if ps != [] {
      var init := ps[..|ps| - 1];
      assert PairsProfile(init);
      MapProfile(init);
    }
  }

  lemma {:induction false} ObjectWell(s: Bytes)
    requires s != [] && Utf8(s) && s[0] == LBRACE && ParseObject(s, true).Got?
    ensures Profile(ParseObject(s, true).v) && Utf8(s[ParseObject(s, true).n..])
    decreases |s|, 1
  {
    hide ParseMembers, Spaces, ToMap, DistinctKeys, Utf8, PairsProfile;
    Utf8Drop(s, 1);
    SpacesWell(s[1..]);
    var a := 1 + Spaces(s[1..]);
    assert s[1..][a - 1..] == s[a..];
    if a < |s| && s[a] == RBRACE {
      Utf8Drop(s[a..], 1);
      assert s[a..][1..] == s[a + 1..];
    } else {
      MembersWell(s[a..]);
      var n := ParseMembers(s[a..], true).n;
      assert s[a..][n..] == s[a + n..];
      MapProfile(ParseMembers(s[a..], true).v);
    }
  }

  lemma {:induction false} MemberWell(s: Bytes)
    requires Utf8(s) && ParseMember(s, true).Got?
    ensures var r := ParseMember(s, true); Utf8(r.v.0.0) && Profile(r.v.0.1) && Utf8(s[r.n..])
    decreases |s|, 0
  {
    hide Parse, KeyOf, Separator, Utf8, Profile;
    KeyWell(s);
    var c := KeyOf(s, true).n;
    ParseWell(s[c..]);
    var n := Parse(s[c..], true).n;
    assert s[c..][n..] == s[c + n..];
    SeparatorWell(s[c + n..], RBRACE);
    var p := Separator(s[c + n..], RBRACE).n;
    assert s[c + n..][p..] == s[c + n + p..];
  }

  lemma {:induction false} MembersWell(s: Bytes)
    requires Utf8(s) && ParseMembers(s, true).Got?
    ensures var r := ParseMembers(s, true); PairsProfile(r.v) && Utf8(s[r.n..])
    decreases |s|, 1
  {
    hide ParseMember, Utf8, Profile;
    MemberWell(s);
    if ParseMember(s, true).v.1 {
      var n := ParseMember(s, true).n;
      MembersWell(s[n..]);
      assert s[n..][ParseMembers(s[n..], true).n..] == s[n + ParseMembers(s[n..], true).n..];
    }
  }

  lemma {:induction false} ArrayWell(s: Bytes)
    requires s != [] && Utf8(s) && s[0] == LBRACKET && ParseArray(s, true).Got?
    ensures Profile(ParseArray(s, true).v) && Utf8(s[ParseArray(s, true).n..])
    decreases |s|, 1
  {
    hide ParseItems, Spaces, Utf8;
    Utf8Drop(s, 1);
    SpacesWell(s[1..]);
    var a := 1 + Spaces(s[1..]);
    assert s[1..][a - 1..] == s[a..];
    if a < |s| && s[a] == RBRACKET {
      Utf8Drop(s[a..], 1);
      assert s[a..][1..] == s[a + 1..];
    } else {
      ItemsWell(s[a..]);
      var n := ParseItems(s[a..], true).n;
      assert s[a..][n..] == s[a + n..];
    }
  }

  lemma {:induction false} ItemWell(s: Bytes)
    requires Utf8(s) && ParseItem(s, true).Got?
    ensures var r := ParseItem(s, true); Profile(r.v.0) && Utf8(s[r.n..])
    decreases |s|, 3
  {
    hide Parse, Separator, Spaces, Utf8, Profile;
    var c := Spaces(s);
    SpacesWell(s);
    ParseWell(s[c..]);
    var n := Parse(s[c..], true).n;
    assert s[c..][n..] == s[c + n..];
    SeparatorWell(s[c + n..], RBRACKET);
    var p := Separator(s[c + n..], RBRACKET).n;
    assert s[c + n..][p..] == s[c + n + p..];
  }

  lemma {:induction false} ItemsWell(s: Bytes)
    requires Utf8(s) && ParseItems(s, true).Got?
    ensures var r := ParseItems(s, true); AllProfile(r.v) && Utf8(s[r.n..])
    decreases |s|, 4
  {
    hide ParseItem, Utf8, Profile;
    ItemWell(s);
    if ParseItem(s, true).v.1 {
      var n := ParseItem(s, true).n;
      ItemsWell(s[n..]);
      assert s[n..][ParseItems(s[n..], true).n..] == s[n + ParseItems(s[n..], true).n..];
    }
  }

  lemma DocumentWell(s: Bytes)
    requires Utf8(s) && Document(s, true).Some?
    ensures Profile(Document(s, true).value)
  {
    hide Parse, Spaces, Utf8, Profile;
    SpacesWell(s);
    ParseWell(s[Spaces(s)..]);
  }

  // ------------------------------------------------------ writing well-formed bytes

  lemma {:induction false} EmitIsUtf8(v: Json)
    requires Profile(v)
    ensures Utf8(Emit(v))
    decreases v, 1, 0
  {
    hide Utf8, CanonText, Sorted, EmitItems, EmitMembers, Ascii, CanonNumber;
    match v
    case Null => WordIsUtf8(NULL);
    case Bool(b) => WordIsUtf8(if b then TRUE else FALSE);
    case Num(tok) =>
      NumberBytes(tok);
      AsciiIsUtf8(tok);
    case Str(s) => TextIsUtf8(s);
    case Arr(items) =>
      ItemsAreUtf8(items);
      Bracketed(LBRACKET, EmitItems(items), RBRACKET);
    case Obj(m) =>
      MembersAreUtf8(v, Sorted(m.Keys));
      Bracketed(LBRACE, EmitMembers(v, Sorted(m.Keys)), RBRACE);
  }

  lemma WordIsUtf8(w: Bytes)
    requires w == TRUE || w == FALSE || w == NULL
    ensures Utf8(w)
  {
    WordBytes(w);
    AsciiIsUtf8(w);
  }

  lemma TextIsUtf8(s: Bytes)
    requires Utf8(s)
    ensures Utf8(CanonText(s))
  {
    hide Utf8, TextOut;
    TextOutIsUtf8(s);
    AsciiIsUtf8([QUOTE]);
    Utf8Concat([QUOTE], TextOut(s));
  }

  lemma Bracketed(a: byte, b: Bytes, c: byte)
    requires a < 0x80 && c < 0x80 && Utf8(b)
    ensures Utf8([a] + b + [c])
  {
    hide Utf8;
    AsciiIsUtf8([a]);
    AsciiIsUtf8([c]);
    Utf8Concat([a], b);
    Utf8Concat([a] + b, [c]);
  }

  lemma Joined(a: Bytes, c: byte, b: Bytes)
    requires c < 0x80 && Utf8(a) && Utf8(b)
    ensures Utf8(a + [c] + b)
  {
    hide Utf8;
    AsciiIsUtf8([c]);
    Utf8Concat(a, [c]);
    Utf8Concat(a + [c], b);
  }

  lemma EmptyIsUtf8()
    ensures Utf8([])
  {}

  lemma {:induction false} ItemsAreUtf8(items: seq<Json>)
    requires forall i :: 0 <= i < |items| ==> Profile(items[i])
    ensures Utf8(EmitItems(items))
    decreases items, 0, 0
  {
    hide Utf8, Emit;
    EmptyIsUtf8();
    if items != [] {
      EmitIsUtf8(items[0]);
      if |items| > 1 {
        ItemsAreUtf8(items[1..]);
        Joined(Emit(items[0]), COMMA, EmitItems(items[1..]));
      }
    }
  }

  lemma {:induction false} MembersAreUtf8(v: Json, ks: seq<Bytes>)
    requires v.Obj? && Profile(v) && forall k :: k in ks ==> k in v.members
    ensures Utf8(EmitMembers(v, ks))
    decreases v, 0, |ks|
  {
    hide Utf8, Emit, CanonText;
    EmptyIsUtf8();
    if ks != [] {
      var k := ks[0];
      TextIsUtf8(k);
      EmitIsUtf8(v.members[k]);
      Joined(CanonText(k), COLON, Emit(v.members[k]));
      if |ks| > 1 {
        MembersAreUtf8(v, ks[1..]);
        Joined(EmitMember(v, k), COMMA, EmitMembers(v, ks[1..]));
      }
    }
  }

  // -------------------------------------------------------------- main theorems

  lemma DocumentOf(e: Bytes, v: Json, lone: bool)
    requires Parse(e + [], lone) == Got(|e|, v) && e != [] && Opens(e[0])
    ensures Document(e, lone) == Some(v)
  {
    hide Parse;
    assert e + [] == e;
    NoSpaces(e);
    assert e[0..] == e;
    NoSpaces(e[|e|..]);
  }

  /** What is written for a value is a document holding that value. */
  lemma EmitReadsBack(v: Json, lone: bool)
    requires Profile(v)
    ensures Document(Emit(v), lone) == Some(v)
  {
    hide Parse, Emit, Profile;
    ValueReads(v, [], lone);
    EmitHead(v);
    DocumentOf(Emit(v), v, lone);
  }

  /** Two values are written as the same bytes only if they are equal. */
  lemma EmitIsInjective(v: Json, w: Json)
    requires Profile(v) && Profile(w) && Emit(v) == Emit(w)
    ensures v == w
  {
    hide Document, Emit, Profile;
    EmitReadsBack(v, true);
    EmitReadsBack(w, true);
  }

  /** Canonical bytes determine the value that was read. */
  lemma CanonicalBytesDetermineTheValue(x: Bytes, y: Bytes)
    requires Canonicalize(x).Some? && Canonicalize(x) == Canonicalize(y)
    ensures Document(x, true).Some? && Document(x, true) == Document(y, true)
  {
    hide Document, Emit, Profile, Utf8, Outside;
    DocumentWell(x);
    DocumentWell(y);
    EmitIsInjective(Document(x, true).value, Document(y, true).value);
  }

  lemma WrittenCanonicalizes(e: Bytes, v: Json)
    requires Utf8(e) && Document(e, false) == Some(v)
    ensures Canonicalize(e) == Some(Emit(v))
  {
    hide Document, Emit, Utf8, Outside;
    PrecheckIsExact(e);
  }

  /** Canonicalising canonical bytes changes nothing. */
  lemma CanonicalizeIsIdempotent(x: Bytes)
    requires Canonicalize(x).Some?
    ensures Canonicalize(Canonicalize(x).value) == Canonicalize(x)
  {
    hide Document, Emit, Profile, Utf8, Outside;
    DocumentWell(x);
    var v := Document(x, true).value;
    EmitIsUtf8(v);
    EmitReadsBack(v, false);
    WrittenCanonicalizes(Emit(v), v);
  }

  /** An object written canonically but for the order of its own members canonicalises to the same bytes. */
  lemma OutermostOrder(v: Json, ks: seq<Bytes>)
    requires Profile(v) && ListsKeys(v, ks)
    ensures Canonicalize(EmitObject(v, ks)) == Some(Emit(v))
  {
    hide Document, Emit, Utf8, Outside, EmitMembers, Parse, Profile;
    var e := EmitObject(v, ks);
    ObjectReads(v, ks, [], false);
    DocumentOf(e, v, false);
    MembersAreUtf8(v, ks);
    Bracketed(LBRACE, EmitMembers(v, ks), RBRACE);
    WrittenCanonicalizes(e, v);
  }
}
