/** Which documents canonicalise, which canonicalise alike, and where a NUL may stand. */
module CanonDocuments {
  import opened ByteStrings
  import opened CanonJson
  import opened CanonReads
  import opened CanonSpelling
  import opened CanonStrings
  import opened CanonTheorems
  import opened GrammarScans
  import opened JsonGrammar
  import opened JsonScan
  import opened Wrappers

  /** The document x spells the value v, white space around it included. */
  ghost predicate Spells(x: Bytes, v: Json) {
    exists before, sp, after :: SpelledAs(x, before, sp, after) && Means(sp) == v
  }

  ghost predicate SpelledAs(x: Bytes, before: Bytes, sp: Spelling, after: Bytes) {
    Blank(before) && OK(sp) && Blank(after) && x == before + Spell(sp) + after
  }

  lemma SpelledReads(x: Bytes, before: Bytes, sp: Spelling, after: Bytes, lone: bool)
    requires SpelledAs(x, before, sp, after)
    ensures Document(x, lone) == Some(Means(sp))
  {
    hide Parse, Spell, OK, Means, Spaces, Blank, White;
    var e := Spell(sp);
    assert x == before + (e + after);
    SpellHead(sp);
    BlankThen(before, e + after);
    BlankTail(after);
    SpellReads(sp, after, lone);
    assert x[|before| + |e|..] == after;
    AllBlank(after);
  }

  lemma ReadIsSpelled(x: Bytes)
    requires Document(x, false).Some?
    ensures Spells(x, Document(x, false).value)
  {
    hide Parse, Spell, OK, Means, Spaces, Blank;
    var a := Spaces(x);
    SpacesAreBlank(x);
    var sp := ParseIsSpelled(x[a..]);
    var n := Parse(x[a..], false).n;
    var rest := x[a + n..];
    SpacesAreBlank(rest);
    assert rest[..Spaces(rest)] == rest;
    assert x == x[..a] + x[a..][..n] + rest;
    assert SpelledAs(x, x[..a], sp, rest);
  }

  /** The parser reads a document as a value exactly when the document spells it. */
  lemma SpellingIsReading(x: Bytes, v: Json)
    ensures Document(x, false) == Some(v) <==> Spells(x, v)
  {
    hide Document, Means, SpelledAs;
    if Document(x, false) == Some(v) { ReadIsSpelled(x); }
    if Spells(x, v) {
      var before, sp, after :| SpelledAs(x, before, sp, after) && Means(sp) == v;
      SpelledReads(x, before, sp, after, false);
    }
  }

  /** A document canonicalises to the bytes of the value it spells, and only if it spells one. */
  lemma AcceptedExactly(x: Bytes, v: Json)
    ensures Utf8(x) && Spells(x, v) ==> Canonicalize(x) == Some(Emit(v))
    ensures Canonicalize(x).Some? <==> Utf8(x) && exists u :: Spells(x, u)
  {
    hide Document, Spells, Emit, Utf8, Outside;
    PrecheckIsExact(x);
    SpellingIsReading(x, v);
    if Canonicalize(x).Some? { SpellingIsReading(x, Document(x, false).value); }
    if Utf8(x) && exists u :: Spells(x, u) {
      var u :| Spells(x, u);
      SpellingIsReading(x, u);
    }
  }

  /** Two accepted documents canonicalise to the same bytes exactly when they spell the same value. */
  lemma AlikeExactly(x: Bytes, y: Bytes)
    requires Canonicalize(x).Some? && Canonicalize(y).Some?
    ensures Canonicalize(x) == Canonicalize(y) <==> exists v :: Spells(x, v) && Spells(y, v)
  {
    hide Canonicalize, Spells, Emit, Utf8;
    AcceptedExactly(x, Null);
    AcceptedExactly(y, Null);
    var u :| Spells(x, u);
    var v :| Spells(y, v);
    AcceptedExactly(x, u);
    AcceptedExactly(y, v);
    if Canonicalize(x) == Canonicalize(y) {
      SpelledProfile(x, u);
      SpelledProfile(y, v);
      EmitIsInjective(u, v);
      assert Spells(x, u) && Spells(y, u);
    }
    if exists w :: Spells(x, w) && Spells(y, w) {
      var w :| Spells(x, w) && Spells(y, w);
      AcceptedExactly(x, w);
      AcceptedExactly(y, w);
    }
  }

  lemma SpelledProfile(x: Bytes, v: Json)
    requires Utf8(x) && Spells(x, v)
    ensures Profile(v)
  {
    hide Document, Spells, Utf8, Profile;
    SpellingIsReading(x, v);
    PrecheckIsExact(x);
    DocumentWell(x);
  }

  // ------------------------------------------------------------- order of members

  /** The same value written twice: other white space, other escapes, and at every depth the members in another order. */
  ghost predicate Alike(a: Spelling, b: Spelling)
    decreases a, 1
  {
    match a
    case Keyword(w) => b.Keyword? && b.w == w
    case Amount(n) => b.Amount? && FormText(b.n) == FormText(n)
    case Quoted(ps) => b.Quoted? && PiecesMean(b.ps) == PiecesMean(ps)
    case Listed(_, slots) =>
      b.Listed? && |b.slots| == |slots| && forall i :: 0 <= i < |slots| ==> Alike(slots[i].value, b.slots[i].value)
    case Record(_, fields) =>
      && b.Record?
      && (forall i :: 0 <= i < |fields| ==> InSecond(fields[i], b.fields))
      && (forall j :: 0 <= j < |b.fields| ==> InFirst(fields, b.fields[j]))
  }

  ghost predicate AlikeFields(f: Field, g: Field)
    decreases f, 0
  {
    PiecesMean(f.key) == PiecesMean(g.key) && Alike(f.value, g.value)
  }

  ghost predicate InSecond(f: Field, gs: seq<Field>)
    decreases f, 1
  {
    exists j :: 0 <= j < |gs| && AlikeFields(f, gs[j])
  }

  ghost predicate InFirst(fs: seq<Field>, g: Field)
    decreases fs, 0
  {
    exists i :: 0 <= i < |fs| && AlikeFields(fs[i], g)
  }

  lemma {:induction false} SlotAt(slots: seq<Slot>, i: nat)
    requires i < |slots|
    ensures SlotsMean(slots)[i] == Means(slots[i].value)
  {
    if i > 0 { SlotAt(slots[1..], i - 1); }
  }

  lemma {:induction false} FieldAt(fields: seq<Field>, i: nat)
    requires i < |fields|
    ensures FieldsMean(fields)[i] == (PiecesMean(fields[i].key), Means(fields[i].value))
  {
    if i > 0 { FieldAt(fields[1..], i - 1); }
  }

  lemma {:induction false} AlikeMeans(a: Spelling, b: Spelling)
    requires OK(a) && OK(b) && Alike(a, b)
    ensures Means(a) == Means(b)
    decreases a, 1
  {
    hide SlotsMean, FieldsMean, PiecesMean, ToMap, DistinctKeys, InFirst, InSecond, FieldOK;
    if a.Listed? {
      forall i | 0 <= i < |a.slots| ensures SlotsMean(a.slots)[i] == SlotsMean(b.slots)[i] {
        assert SlotOK(a.slots[i]) && SlotOK(b.slots[i]);
        AlikeMeans(a.slots[i].value, b.slots[i].value);
        SlotAt(a.slots, i);
        SlotAt(b.slots, i);
      }
    } else if a.Record? {
      AlikeRecords(a, b);
      SameMembersSameObject(FieldsMean(a.fields), FieldsMean(b.fields));
    }
  }

  lemma {:induction false} AlikeFieldsMean(f: Field, g: Field)
    requires FieldOK(f) && FieldOK(g) && AlikeFields(f, g)
    ensures PiecesMean(f.key) == PiecesMean(g.key) && Means(f.value) == Means(g.value)
    decreases f, 0
  {
    hide Means, PiecesMean, PiecesOK, Blank, Alike;
    AlikeMeans(f.value, g.value);
  }

  lemma {:induction false} AlikePairs(fs: seq<Field>, i: nat, gs: seq<Field>, j: nat)
    requires i < |fs| && j < |gs| && FieldOK(fs[i]) && FieldOK(gs[j]) && AlikeFields(fs[i], gs[j])
    ensures FieldsMean(fs)[i] == FieldsMean(gs)[j]
    decreases fs[i], 1
  {
    hide FieldsMean, PiecesMean, Means, AlikeFields, FieldOK;
    FieldAt(fs, i);
    FieldAt(gs, j);
    AlikeFieldsMean(fs[i], gs[j]);
  }

  lemma {:induction false} PairsWithin(ps: seq<CanonJson.Pair>, qs: seq<CanonJson.Pair>)
    requires forall i :: 0 <= i < |ps| ==> ps[i] in qs
    ensures forall p :: p in ps ==> p in qs
  {}

  lemma {:induction false} FirstInSecond(fs: seq<Field>, gs: seq<Field>)
    requires forall i :: 0 <= i < |fs| ==> FieldOK(fs[i])
    requires forall j :: 0 <= j < |gs| ==> FieldOK(gs[j])
    requires forall i :: 0 <= i < |fs| ==> InSecond(fs[i], gs)
    ensures forall p :: p in FieldsMean(fs) ==> p in FieldsMean(gs)
    decreases fs, 0
  {
    hide FieldsMean, AlikeFields, FieldOK;
    forall i | 0 <= i < |fs| ensures FieldsMean(fs)[i] in FieldsMean(gs) {
      var j :| 0 <= j < |gs| && AlikeFields(fs[i], gs[j]);
      AlikePairs(fs, i, gs, j);
      assert FieldsMean(gs)[j] in FieldsMean(gs);
    }
    PairsWithin(FieldsMean(fs), FieldsMean(gs));
  }

  lemma {:induction false} SecondInFirst(fs: seq<Field>, gs: seq<Field>)
    requires forall i :: 0 <= i < |fs| ==> FieldOK(fs[i])
    requires forall j :: 0 <= j < |gs| ==> FieldOK(gs[j])
    requires forall j :: 0 <= j < |gs| ==> InFirst(fs, gs[j])
    ensures forall p :: p in FieldsMean(gs) ==> p in FieldsMean(fs)
    decreases fs, 0
  {
    hide FieldsMean, AlikeFields, FieldOK;
    forall j | 0 <= j < |gs| ensures FieldsMean(gs)[j] in FieldsMean(fs) {
      var i :| 0 <= i < |fs| && AlikeFields(fs[i], gs[j]);
      AlikePairs(fs, i, gs, j);
      assert FieldsMean(fs)[i] in FieldsMean(fs);
    }
    PairsWithin(FieldsMean(gs), FieldsMean(fs));
  }

  lemma {:induction false} AlikeRecords(a: Spelling, b: Spelling)
    requires OK(a) && OK(b) && a.Record? && Alike(a, b)
    ensures b.Record? && forall p :: p in FieldsMean(a.fields) <==> p in FieldsMean(b.fields)
    decreases a, 0
  {
    hide FieldsMean, DistinctKeys, InFirst, InSecond;
    FirstInSecond(a.fields, b.fields);
    SecondInFirst(a.fields, b.fields);
  }

  /**
   Input member order does not matter: two documents that differ in the order of the members of
   any of their objects, in white space and in how their strings are escaped canonicalise alike.
   */
  lemma MemberOrderDoesNotMatter(x: Bytes, before: Bytes, a: Spelling, after: Bytes,
                                 y: Bytes, ahead: Bytes, b: Spelling, behind: Bytes)
    requires Utf8(x) && SpelledAs(x, before, a, after)
    requires Utf8(y) && SpelledAs(y, ahead, b, behind)
    requires Alike(a, b)
    ensures Canonicalize(x) == Canonicalize(y) == Some(Emit(Means(a)))
  {
    hide Canonicalize, Emit, Utf8, Alike, Spell, Blank, OK, Means;
    AlikeMeans(a, b);
    assert Spells(x, Means(a)) && Spells(y, Means(a));
    AcceptedExactly(x, Means(a));
    AcceptedExactly(y, Means(a));
  }

  // ------------------------------------------------------------------------- NUL

  /** Some string of v, a value or a key at any depth, holds a NUL. */
  ghost predicate HoldsNul(v: Json)
    decreases v
  {
    match v
    case Str(s) => 0 in s
    case Arr(items) => exists i :: 0 <= i < |items| && HoldsNul(items[i])
    case Obj(m) => exists k :: k in m && (0 in k || HoldsNul(m[k]))
    case _ => false
  }

  /** Some object key of v, at any depth, holds a NUL. */
  ghost predicate KeyHoldsNul(v: Json)
    decreases v
  {
    match v
    case Arr(items) => exists i :: 0 <= i < |items| && KeyHoldsNul(items[i])
    case Obj(m) => exists k :: k in m && (0 in k || KeyHoldsNul(m[k]))
    case _ => false
  }

  lemma {:induction false} NulStandsInKeys(v: Json)
    requires Profile(v)
    ensures HoldsNul(v) <==> KeyHoldsNul(v)
    decreases v
  {
    hide Utf8;
    match v
    case Arr(items) =>
      forall i | 0 <= i < |items| ensures HoldsNul(items[i]) <==> KeyHoldsNul(items[i]) { NulStandsInKeys(items[i]); }
    case Obj(m) =>
      forall k | k in m ensures HoldsNul(m[k]) <==> KeyHoldsNul(m[k]) { NulStandsInKeys(m[k]); }
    case _ =>
  }

  /** The value of an accepted document is free of NULs exactly when its keys are: string values never hold one. */
  lemma NulOnlyInKeys(x: Bytes)
    requires Canonicalize(x).Some?
    ensures Document(x, true).Some?
    ensures HoldsNul(Document(x, true).value) <==> KeyHoldsNul(Document(x, true).value)
  {
    hide Document, Emit, Utf8, Outside, Profile, HoldsNul, KeyHoldsNul;
    DocumentWell(x);
    NulStandsInKeys(Document(x, true).value);
  }

  /** {"\u0000":null} */
  function NulKeyDocument(): Bytes {
    [LBRACE, QUOTE, BACKSLASH, 0x75, ZERO, ZERO, ZERO, ZERO, QUOTE, COLON] + NULL + [RBRACE]
  }

  /** {"":"\u0000"} */
  function NulValueDocument(): Bytes {
    [LBRACE, QUOTE, QUOTE, COLON, QUOTE, BACKSLASH, 0x75, ZERO, ZERO, ZERO, ZERO, QUOTE, RBRACE]
  }

  lemma NulText()
    ensures CanonText([0]) == [QUOTE, BACKSLASH, 0x75, ZERO, ZERO, ZERO, ZERO, QUOTE] && CanonText([]) == [QUOTE, QUOTE]
  {
    assert [0][1..] == [];
    assert RuneLen([0]) == 1 && TextOut([0]) == EscapeCanon(0) + TextOut([]);
  }

  lemma NulIsUtf8()
    ensures Utf8([0]) && Utf8([])
  {
    AsciiIsUtf8([0]);
  }

  /** A NUL in an object key is accepted, and kept. */
  lemma NulKeyIsAccepted()
    ensures var x := NulKeyDocument();
            Canonicalize(x) == Some(x) && Document(x, true) == Some(Obj(map[[0] := Null])) && HoldsNul(Obj(map[[0] := Null]))
  {
    hide Document, Canonicalize, Utf8, CanonText, EmitMembers, Ascii;
    var v := Obj(map[[0] := Null]);
    NulText();
    NulIsUtf8();
    assert ListsKeys(v, [[0]]);
    OneMember(v);
    OutermostOrder(v, [[0]]);
    EmitReadsBack(v, true);
  }

  lemma {:induction false} OneMember(v: Json)
    requires v == Obj(map[[0] := Null])
    ensures Profile(v) && EmitObject(v, [[0]]) == NulKeyDocument() && Emit(v) == EmitObject(v, [[0]])
  {
    hide Ascii, CanonText;
    NulText();
    NulIsUtf8();
    SortedLists(v);
    AscendingUnique(Sorted(v.members.Keys), [[0]]);
  }

  /** A NUL in a string value is refused. */
  lemma NulValueIsRefused()
    ensures Canonicalize(NulValueDocument()).None?
  {
    hide Utf8, Outside, CanonText, KeyOf, Text, ParseMembers, Spaces;
    var x, q := NulValueDocument(), CanonText([0]);
    NulText();
    NulIsUtf8();
    var rest := CanonText([]) + [COLON] + (q + [RBRACE]);
    assert x == [LBRACE] + rest;
    assert x[1..] == rest && x[0..] == x;
    TextHead([]);
    TextHead([0]);
    ClosersAreNoSpace();
    KeyReads([], q + [RBRACE], true);
    TextReads([0], [RBRACE], true);
    NoSpaces(x);
    NoSpaces(rest);
    assert rest[|CanonText([])| + 1..] == q + [RBRACE];
    RefusedMember(rest, q + [RBRACE], |CanonText([])| + 1);
  }

  lemma RefusedMember(s: Bytes, t: Bytes, c: nat)
    requires KeyOf(s, true).Got? && KeyOf(s, true).n == c <= |s| && s[c..] == t
    requires t != [] && t[0] == QUOTE && Text(t, true).Got? && 0 in Text(t, true).v
    ensures ParseMembers(s, true).Fail?
  {
    hide KeyOf, Text, ParseObject, ParseArray, Separator;
    assert Parse(t, true).Fail?;
    assert ParseMember(s, true).Fail?;
  }
}
