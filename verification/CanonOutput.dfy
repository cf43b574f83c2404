/** What canonical bytes look like: no white space, the keys of every object rising, every string in its one form. */
module CanonOutput {
  import opened ByteStrings
  import opened CanonDocuments
  import opened CanonJson
  import opened CanonNumbers
  import opened CanonReads
  import opened CanonSpelling
  import opened CanonStrings
  import opened CanonTheorems
  import opened GrammarScans
  import opened JsonGrammar
  import opened JsonQuote
  import opened JsonScan
  import opened Paths
  import opened Wrappers

  /**
   A character as it stands; or a letter escape, the solidus aside; or, for a control character that has
   no letter, two zeros and its number in lower-case hexadecimal.
   */
  predicate TightPiece(p: Piece) {
    match p
    case Plain(_) => true
    case Letter(c) => c != 0x2F
    case Code(h) =>
      && |h| == 4 && h[0] == 0x30 && h[1] == 0x30 && (h[2] == 0x30 || h[2] == 0x31)
      && (0x30 <= h[3] <= 0x39 || 0x61 <= h[3] <= 0x66)
      && !(h[2] == 0x30 && (h[3] == 0x38 || h[3] == 0x39 || h[3] == 0x61 || h[3] == 0x63 || h[3] == 0x64))
    case Surrogates(_, _) => false
  }

  predicate TightPieces(ps: seq<Piece>) {
    forall i :: 0 <= i < |ps| ==> TightPiece(ps[i])
  }

  ghost predicate KeysRise(fields: seq<Field>) {
    forall i, j :: 0 <= i < j < |fields| ==> Rises(PiecesMean(fields[i].key), PiecesMean(fields[j].key))
  }

  ghost predicate Tight(sp: Spelling)
    decreases sp, 1
  {
    match sp
    case Keyword(_) => true
    case Amount(_) => true
    case Quoted(ps) => TightPieces(ps)
    case Listed(gap, slots) => gap == [] && forall i :: 0 <= i < |slots| ==> TightSlot(slots[i])
    case Record(gap, fields) => gap == [] && KeysRise(fields) && forall i :: 0 <= i < |fields| ==> TightField(fields[i])
  }

  ghost predicate TightSlot(s: Slot)
    decreases s, 0
  {
    s.before == [] && s.after == [] && Tight(s.value)
  }

  ghost predicate TightField(f: Field)
    decreases f, 0
  {
    f.before == [] && TightPieces(f.key) && f.colonBefore == [] && f.colonAfter == [] && f.after == [] && Tight(f.value)
  }

  // --------------------------------------------------------------------- strings

  /** A character of one byte is written as one tight piece. */
  lemma EscapeIsTight(c: byte) returns (p: Piece)
    requires c < 0x80
    ensures PieceOK(p) && TightPiece(p) && PieceText(p) == EscapeCanon(c) && PieceMeans(p) == [c]
  {
    CanonForm(c);
    var e := EscapeCanon(c);
    if |e| == 6 {
      CanonCode(c);
      p := Code(e[2..]);
      assert e == PieceText(p);
    } else if |e| == 2 {
      p := Letter(e[1]);
    } else {
      p := Plain(c);
    }
  }

  lemma {:induction false} HighPieces(s: Bytes) returns (ps: seq<Piece>)
    requires forall i :: 0 <= i < |s| ==> s[i] >= 0x80
    ensures PiecesOK(ps) && TightPieces(ps) && PiecesText(ps) == s && PiecesMean(ps) == s
  {
    if s == [] {
      ps := [];
    } else {
      var rest := HighPieces(s[1..]);
      OnePieceMore(Plain(s[0]), rest);
      ps := [Plain(s[0])] + rest;
      assert s == [s[0]] + s[1..];
    }
  }

  lemma {:induction false} PiecesConcat(ps: seq<Piece>, qs: seq<Piece>)
    requires PiecesOK(ps) && PiecesOK(qs)
    ensures PiecesOK(ps + qs)
    ensures PiecesText(ps + qs) == PiecesText(ps) + PiecesText(qs) && PiecesMean(ps + qs) == PiecesMean(ps) + PiecesMean(qs)
  {
    hide PieceOK, PieceText, PieceMeans;
    if ps == [] {
      assert ps + qs == qs;
    } else {
      assert (ps + qs)[1..] == ps[1..] + qs && (ps + qs)[0] == ps[0];
      PiecesConcat(ps[1..], qs);
    }
  }

  lemma NothingTight()
    ensures PiecesOK([]) && TightPieces([]) && PiecesText([]) == [] && PiecesMean([]) == []
  {}

  lemma {:induction false} TailIsTight(s: Bytes) returns (ps: seq<Piece>)
    requires Utf8(s)
    ensures PiecesOK(ps) && TightPieces(ps) && PiecesText(ps) + [QUOTE] == TextOut(s) && PiecesMean(ps) == s
    decreases |s|
  {
    hide RuneLen, EscapeCanon, PieceOK, TightPiece, PieceText, PieceMeans, PiecesText, PiecesMean;
    if s == [] {
      ps := [];
      NothingTight();
    } else {
      var n := RuneLen(s);
      var rest := TailIsTight(s[n..]);
      assert s == s[..n] + s[n..];
      if n == 1 {
        RuneOfOne(s);
        var p := EscapeIsTight(s[0]);
        OnePieceMore(p, rest);
        ps := [p] + rest;
        assert s[..1] == [s[0]];
        assert PieceText(p) + PiecesText(rest) + [QUOTE] == PieceText(p) + (PiecesText(rest) + [QUOTE]);
      } else {
        RuneIsHigh(s);
        var high := HighPieces(s[..n]);
        PiecesConcat(high, rest);
        ps := high + rest;
        assert s[..n] + PiecesText(rest) + [QUOTE] == s[..n] + (PiecesText(rest) + [QUOTE]);
      }
    }
  }

  lemma TextIsTight(s: Bytes) returns (ps: seq<Piece>)
    requires Utf8(s)
    ensures PiecesOK(ps) && TightPieces(ps) && QuotedText(ps) == CanonText(s) && PiecesMean(ps) == s
  {
    hide TextOut, PiecesText, PiecesMean, TightPieces, PiecesOK;
    ps := TailIsTight(s);
    assert [QUOTE] + PiecesText(ps) + [QUOTE] == [QUOTE] + (PiecesText(ps) + [QUOTE]);
  }

  // ---------------------------------------------------------------------- values

  lemma {:induction false} EmitIsTight(v: Json) returns (sp: Spelling)
    requires Profile(v)
    ensures OK(sp) && Tight(sp) && Spell(sp) == Emit(v) && Means(sp) == v
    decreases v, 2
  {
    hide CanonText, CanonNumber, PiecesOK, PiecesMean, TightPieces, QuotedText, FormText, FormOK, Shortest, EmitItems, EmitMembers;
    SameWords();
    match v
    case Null => sp := Keyword(WORD_NULL);
    case Bool(b) => sp := Keyword(if b then WORD_TRUE else WORD_FALSE);
    case Num(tok) =>
      var n := NumberIsShortest(tok);
      sp := Amount(n);
    case Str(s) =>
      var ps := TextIsTight(s);
      sp := Quoted(ps);
    case Arr(items) =>
      var slots := ItemsAreTight(items);
      ArrayIsTight(items, slots);
      sp := Listed([], slots);
    case Obj(m) => sp := ObjectIsTight(v);
  }

  lemma NumberIsShortest(tok: Bytes) returns (n: NumberForm)
    requires CanonNumber(tok)
    ensures FormOK(n) && Shortest(n) && FormText(n) == tok
  {
    hide Numeral, FormText, FormOK, Shortest;
    n := NumeralIsForm(tok);
    assert tok[..|tok|] == tok;
    ShortestExactly(n);
  }

  lemma {:induction false} ItemsAreTight(items: seq<Json>) returns (slots: seq<Slot>)
    requires forall i :: 0 <= i < |items| ==> Profile(items[i])
    ensures |slots| == |items| && forall i :: 0 <= i < |slots| ==> SlotOK(slots[i]) && TightSlot(slots[i])
    ensures SlotsMean(slots) == items && (slots != [] ==> SpellSlots(slots) == EmitItems(items))
    decreases items, 0
  {
    hide Profile, OK, Tight, Spell, Means, Emit;
    if items == [] {
      slots := [];
    } else {
      var v := EmitIsTight(items[0]);
      var rest := ItemsAreTight(items[1..]);
      var s := Slot([], v, []);
      NothingBlank();
      slots := [s] + rest;
      assert slots[1..] == rest && items == [items[0]] + items[1..];
      assert SpellSlot(s) == Emit(items[0]);
      if rest != [] { assert [COMMA] + rest[0].before + SpellSlots(rest) == [COMMA] + EmitItems(items[1..]); }
    }
  }

  lemma ArrayIsTight(items: seq<Json>, slots: seq<Slot>)
    requires |slots| == |items| && (slots != [] ==> SpellSlots(slots) == EmitItems(items) && slots[0].before == [])
    ensures Spell(Listed([], slots)) == Emit(Arr(items))
  {
    hide SpellSlots, EmitItems;
    EmptyItems();
    if slots != [] { assert [] + SpellSlots(slots) == SpellSlots(slots); }
  }

  lemma MemberIsTight(v: Json, k: Bytes) returns (f: Field)
    requires Profile(v) && v.Obj? && k in v.members
    ensures FieldOK(f) && TightField(f) && PiecesMean(f.key) == k && Means(f.value) == v.members[k]
    ensures SpellField(f) == EmitMember(v, k)
    decreases v, 0, 0
  {
    hide OK, Tight, Spell, Means, Emit, PiecesOK, PiecesMean, TightPieces, QuotedText, CanonText, Utf8;
    assert Profile(v.members[k]) && Utf8(k);
    var sp := EmitIsTight(v.members[k]);
    var ps := TextIsTight(k);
    NothingBlank();
    f := Field([], ps, [], [], sp, []);
    assert QuotedText(ps) + [] + [COLON] + [] + Spell(sp) + [] == QuotedText(ps) + [COLON] + Spell(sp);
  }

  lemma {:induction false} MembersAreTight(v: Json, ks: seq<Bytes>) returns (fields: seq<Field>)
    requires Profile(v) && v.Obj? && forall k :: k in ks ==> k in v.members
    ensures |fields| == |ks| && FieldsMean(fields) == PairsOf(v, ks)
    ensures forall i :: 0 <= i < |fields| ==> FieldOK(fields[i]) && TightField(fields[i]) && PiecesMean(fields[i].key) == ks[i]
    ensures fields != [] ==> SpellFields(fields) == EmitMembers(v, ks)
    decreases v, 0, 1 + |ks|
  {
    hide Profile, FieldOK, PiecesMean, Means, SpellField, EmitMember, Tight, OK, Spell;
    if ks == [] {
      fields := [];
    } else {
      var f := MemberIsTight(v, ks[0]);
      var rest := MembersAreTight(v, ks[1..]);
      fields := [f] + rest;
      assert fields[1..] == rest;
      assert PairsOf(v, ks) == [(ks[0], v.members[ks[0]])] + PairsOf(v, ks[1..]);
      if rest != [] {
        assert TightField(rest[0]);
        assert [COMMA] + rest[0].before + SpellFields(rest) == [COMMA] + EmitMembers(v, ks[1..]);
      } else {
        assert SpellField(f) + [] == SpellField(f);
      }
    }
  }

  lemma {:induction false} ObjectIsTight(v: Json) returns (sp: Spelling)
    requires Profile(v) && v.Obj?
    ensures OK(sp) && Tight(sp) && Spell(sp) == Emit(v) && Means(sp) == v
    decreases v, 1
  {
    hide Profile, FieldOK, TightField, PiecesMean, FieldsMean, SpellFields, EmitMembers, ToMap, Sorted, Less, DistinctKeys;
    var ks := Sorted(v.members.Keys);
    var fields := MembersAreTight(v, ks);
    SortedLists(v);
    PairsMakeTheMap(v, ks);
    NothingBlank();
    forall i, j | 0 <= i < j < |fields| ensures Rises(PiecesMean(fields[i].key), PiecesMean(fields[j].key)) {
      LessExactly(ks[i], ks[j]);
    }
    sp := Record([], fields);
    if fields == [] {
      EmptyMembers(v);
    } else {
      FirstTight(fields[0]);
      assert [] + SpellFields(fields) == SpellFields(fields);
    }
  }

  lemma FirstTight(f: Field)
    requires TightField(f)
    ensures f.before == []
  {}

  // ------------------------------------------------------------------ the theorem

  ghost predicate TightSpelling(sp: Spelling, v: Json, out: Bytes) {
    OK(sp) && Tight(sp) && Means(sp) == v && Spell(sp) == out
  }

  /**
   The canonical bytes of a document spell the very value the document spells, without white space, with
   the keys of every object at every depth rising byte by byte, and with every string in its one form.
   */
  lemma OutputIsTight(x: Bytes, v: Json) returns (sp: Spelling)
    requires Utf8(x) && Spells(x, v)
    ensures Canonicalize(x).Some? && TightSpelling(sp, v, Canonicalize(x).value)
  {
    hide Utf8, Spells, Canonicalize, Emit, Profile, OK, Tight, Means, Spell;
    AcceptedExactly(x, v);
    SpelledProfile(x, v);
    sp := EmitIsTight(v);
  }
}
