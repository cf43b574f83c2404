/**
 Every way a document may spell a value: white space anywhere, any escape for a character,
 and the members of every object, at every depth, in any order.
 */
module CanonSpelling {
  import opened ByteStrings
  import opened CanonJson
  import opened CanonNumbers
  import opened CanonReads
  import opened CanonStrings
  import opened GrammarScans
  import opened JsonGrammar
  import opened JsonLocality
  import opened JsonQuote
  import opened JsonScan
  import opened Wrappers

  // -------------------------------------------------------------------- strings

  lemma CodeReads(h: Bytes, u: Bytes, lone: bool)
    requires PieceOK(Code(h))
    ensures AnyEscape([BACKSLASH, 0x75] + h + u, lone) == Got(6, HexMeans(h))
  {
    hide Hex4, HexMeans;
    var s := [BACKSLASH, 0x75] + h + u;
    assert s[2..] == h + u;
    HexAgain(h, u);
  }

  lemma SurrogatesRead(h: Bytes, l: Bytes, u: Bytes, lone: bool)
    requires PieceOK(Surrogates(h, l))
    ensures AnyEscape([BACKSLASH, 0x75] + h + [BACKSLASH, 0x75] + l + u, lone) == Got(12, Joined(HexMeans(h), HexMeans(l)))
  {
    hide Hex4, HexMeans;
    var s := [BACKSLASH, 0x75] + h + [BACKSLASH, 0x75] + l + u;
    assert s[2..] == h + ([BACKSLASH, 0x75] + l + u);
    assert s[8..] == l + u;
    HexAgain(h, [BACKSLASH, 0x75] + l + u);
    HexAgain(l, u);
    JoinedReads(HexMeans(h), HexMeans(l));
  }

  /** A piece reads as what it means. */
  lemma PieceReads(p: Piece, u: Bytes, lone: bool)
    requires PieceOK(p)
    ensures TextTail(PieceText(p) + u, lone) == Ahead(|PieceText(p)|, PieceMeans(p), TextTail(u, lone))
  {
    hide Unit, Hex4, HexMeans, Encode, Escape;
    var e := PieceText(p);
    var s := e + u;
    assert s[|e|..] == u && s[0] == e[0];
    match p
    case Plain(c) =>
    case Letter(c) =>
      LetterReads(c, u);
      assert s[1] == c;
    case Code(h) => CodeReads(h, u, lone);
    case Surrogates(h, l) => SurrogatesRead(h, l, u, lone);
  }

  lemma {:induction false} PiecesRead(ps: seq<Piece>, t: Bytes, lone: bool)
    requires PiecesOK(ps)
    ensures TextTail(PiecesText(ps) + [QUOTE] + t, lone) == Got(|PiecesText(ps)| + 1, PiecesMean(ps))
  {
    hide TextTail, PieceText, PieceMeans, PieceOK;
    if ps == [] {
      assert [] + [QUOTE] + t == [QUOTE] + t;
      ClosingReads(t, lone);
    } else {
      PiecesRead(ps[1..], t, lone);
      var rest := PiecesText(ps[1..]) + [QUOTE] + t;
      PieceReads(ps[0], rest, lone);
      assert PiecesText(ps) + [QUOTE] + t == PieceText(ps[0]) + rest;
    }
  }

  lemma QuotedReads(ps: seq<Piece>, t: Bytes, lone: bool)
    requires PiecesOK(ps)
    ensures Text(QuotedText(ps) + t, lone) == Got(|QuotedText(ps)|, PiecesMean(ps))
  {
    hide TextTail, PiecesText, PiecesMean, PiecesOK;
    PiecesRead(ps, t, lone);
    assert (QuotedText(ps) + t)[1..] == PiecesText(ps) + [QUOTE] + t;
    assert [] + PiecesMean(ps) == PiecesMean(ps);
  }

  /** The canonical spelling of a character of one byte is a legal piece that means it, and no legal piece is shorter. */
  lemma NoShorterPiece(c: byte, p: Piece)
    requires c < 0x80
    ensures exists q :: PieceOK(q) && PieceText(q) == EscapeCanon(c) && PieceMeans(q) == [c]
    ensures PieceOK(p) && PieceMeans(p) == [c] ==> |EscapeCanon(c)| <= |PieceText(p)|
  {
    hide HexMeans, Encode;
    CanonForm(c);
    var e := EscapeCanon(c);
    if |e| == 6 {
      CanonCode(c);
      assert e == PieceText(Code(e[2..]));
    } else if |e| == 2 {
      assert PieceText(Letter(e[1])) == e;
    } else {
      assert PieceText(Plain(c)) == e;
    }
  }

  lemma CanonCode(c: byte)
    requires c < 0x20 && |EscapeCanon(c)| == 6
    ensures HexFour(EscapeCanon(c)[2..]) && HexMeans(EscapeCanon(c)[2..]) == c && Encode(c) == [c]
  {
    assert EscapeCanon(c)[2..] == [ZERO, ZERO, HexChar(c / 16), HexChar(c % 16)];
  }

  // ------------------------------------------------------------------ spellings

  /** Without an exponent, without closing zeros of a fraction, and not a negative zero. */
  predicate Shortest(n: NumberForm) {
    && n.exp.Unscaled?
    && (n.frac != [] ==> n.frac[|n.frac| - 1] != 0x30)
    && !(n.minus && n.whole == [0x30] && n.frac == [])
  }

  function KeywordMeans(w: Bytes): Json {
    if w == WORD_TRUE then Bool(true) else if w == WORD_FALSE then Bool(false) else Null
  }

  function Means(sp: Spelling): Json
    decreases sp, 1
  {
    match sp
    case Keyword(w) => KeywordMeans(w)
    case Amount(n) => Num(FormText(n))
    case Quoted(ps) => Str(PiecesMean(ps))
    case Listed(_, slots) => Arr(SlotsMean(slots))
    case Record(_, fields) => Obj(ToMap(FieldsMean(fields)))
  }

  function SlotsMean(slots: seq<Slot>): (vs: seq<Json>)
    ensures |vs| == |slots|
    decreases slots, 0
  {
    if slots == [] then [] else [Means(slots[0].value)] + SlotsMean(slots[1..])
  }

  function FieldsMean(fields: seq<Field>): (ps: seq<CanonJson.Pair>)
    ensures |ps| == |fields|
    decreases fields, 0
  {
    if fields == [] then [] else [(PiecesMean(fields[0].key), Means(fields[0].value))] + FieldsMean(fields[1..])
  }

  /** A document of the profile: escapes are legal, numbers canonical, keys distinct, and no string value holds a NUL. */
  predicate OK(sp: Spelling)
    decreases sp, 1
  {
    match sp
    case Keyword(w) => KeywordOK(w)
    case Amount(n) => FormOK(n) && Shortest(n)
    case Quoted(ps) => PiecesOK(ps) && 0 !in PiecesMean(ps)
    case Listed(gap, slots) => Blank(gap) && forall i :: 0 <= i < |slots| ==> SlotOK(slots[i])
    case Record(gap, fields) =>
      && Blank(gap)
      && (forall i :: 0 <= i < |fields| ==> FieldOK(fields[i]))
      && DistinctKeys(FieldsMean(fields))
  }

  predicate SlotOK(s: Slot)
    decreases s, 0
  {
    Blank(s.before) && Blank(s.after) && OK(s.value)
  }

  predicate FieldOK(f: Field)
    decreases f, 0
  {
    && Blank(f.before) && PiecesOK(f.key) && Blank(f.colonBefore) && Blank(f.colonAfter) && Blank(f.after)
    && OK(f.value)
  }

  // --------------------------------------------------- a spelling reads as its value

  lemma {:induction false} SpellHead(sp: Spelling)
    requires OK(sp)
    ensures Spell(sp) != [] && Opens(Spell(sp)[0]) && !White(Spell(sp)[0])
  {
    hide SpellSlots, SpellFields, PiecesText;
    if sp.Amount? { FormSplits(sp.n, []); }
  }

  lemma KeywordReads(w: Bytes, t: Bytes, lone: bool)
    requires KeywordOK(w)
    ensures Parse(w + t, lone) == Got(|w|, KeywordMeans(w))
  {
    hide ParseObject, ParseArray, Numeral, Text, CanonNumber, Ascii;
    Words();
    SameWords();
    WordReads(w, KeywordMeans(w), t);
  }

  lemma NoMarks(n: NumberForm)
    requires FormOK(n)
    ensures var s := FormText(n);
            && (n.exp.Unscaled? <==> forall i :: 0 <= i < |s| ==> s[i] != 0x65 && s[i] != 0x45 && s[i] != PLUS)
    ensures n.exp.Unscaled? ==> (DOT in FormText(n) <==> n.frac != [])
  {
    hide ExponentOK;
    var s, f, x := FormText(n), FractionText(n.frac), ExponentText(n.exp);
    var g: Bytes := if n.minus then [0x2D] else [];
    assert s == g + n.whole + f + x;
    if n.exp.Scaled? {
      assert s[|g + n.whole + f|] == n.exp.e;
      ScaledParts(n.exp, []);
      assert x + [] == x;
    } else if n.frac != [] {
      assert s[|g + n.whole|] == DOT;
    }
  }

  /** The numbers accepted are those of the grammar written in the shortest form. */
  lemma ShortestExactly(n: NumberForm)
    requires FormOK(n)
    ensures CanonNumber(FormText(n)) <==> Shortest(n)
  {
    hide Numeral, FormOK;
    var s := FormText(n);
    assert s + [] == s;
    FormReads(n, []);
    NoMarks(n);
    if n.exp.Unscaled? { LastDigit(n); }
  }

  lemma LastDigit(n: NumberForm)
    requires FormOK(n) && n.exp.Unscaled?
    ensures var s := FormText(n);
            && s != [] && (n.frac != [] ==> s[|s| - 1] == n.frac[|n.frac| - 1])
            && (s == [MINUS, ZERO] <==> n.minus && n.whole == [0x30] && n.frac == [])
  {
    var g: Bytes := if n.minus then [0x2D] else [];
    var s, f := FormText(n), FractionText(n.frac);
    assert s == g + n.whole + f;
    if !n.minus { assert s[0] == n.whole[0]; }
    if s == [MINUS, ZERO] && n.minus {
      assert |n.whole| == 1 && |f| == 0;
      assert s[1] == n.whole[0];
    }
  }

  lemma AmountReads(n: NumberForm, t: Bytes, lone: bool)
    requires FormOK(n) && Shortest(n) && Follows(t)
    ensures Parse(FormText(n) + t, lone) == Got(|FormText(n)|, Num(FormText(n)))
  {
    hide ParseObject, ParseArray, Numeral, Text, CanonNumber, FormText, Shortest;
    ShortestExactly(n);
    FormReads(n, t);
    FormSplits(n, []);
    FormHead(n, t);
    assert (FormText(n) + t)[..|FormText(n)|] == FormText(n);
  }

  lemma QuotedParses(ps: seq<Piece>, t: Bytes, lone: bool)
    requires PiecesOK(ps) && 0 !in PiecesMean(ps)
    ensures Parse(QuotedText(ps) + t, lone) == Got(|QuotedText(ps)|, Str(PiecesMean(ps)))
  {
    hide Text, QuotedText, PiecesOK, PiecesMean;
    QuotedReads(ps, t, lone);
  }

  lemma {:induction false} SpellReads(sp: Spelling, t: Bytes, lone: bool)
    requires OK(sp) && Follows(t)
    ensures Parse(Spell(sp) + t, lone) == Got(|Spell(sp)|, Means(sp))
    decreases sp, 2
  {
    hide Parse, QuotedText, SpellSlots, SpellFields, KeywordOK, FormText, Shortest, FormOK;
    match sp
    case Keyword(w) => KeywordReads(w, t, lone);
    case Amount(n) => AmountReads(n, t, lone);
    case Quoted(ps) => QuotedParses(ps, t, lone);
    case Listed(gap, slots) => ListedReads(gap, slots, t, lone);
    case Record(gap, fields) => RecordReads(gap, fields, t, lone);
  }

  // ----------------------------------------------------------------- arrays

  lemma {:induction false} SlotReads(w: Bytes, s: Slot, c: byte, t: Bytes, lone: bool)
    requires Blank(w) && SlotOK(s) && (c == COMMA || c == RBRACKET)
    ensures ParseItem(w + SpellSlot(s) + [c] + t, lone) == Got(|w| + |SpellSlot(s)| + 1, (Means(s.value), c == COMMA))
    decreases s, 0
  {
    hide Parse, Spell, Means, Separator, Spaces, White, Blank;
    var v, u := Spell(s.value), s.after + [c] + t;
    var all := w + SpellSlot(s) + [c] + t;
    assert all == w + (v + u);
    SpellHead(s.value);
    BlankThen(w, v + u);
    BlankFollows(s.after, c, t);
    SpellReads(s.value, u, lone);
    assert all[|w| + |v|..] == u;
    SeparatorAfter(s.after, c, RBRACKET, t);
  }

  lemma {:induction false} SlotsRead(w: Bytes, slots: seq<Slot>, t: Bytes, lone: bool)
    requires Blank(w) && slots != [] && forall i :: 0 <= i < |slots| ==> SlotOK(slots[i])
    ensures ParseItems(w + SpellSlots(slots) + [RBRACKET] + t, lone) == Got(|w| + |SpellSlots(slots)| + 1, SlotsMean(slots))
    decreases slots, 1
  {
    hide ParseItem, SpellSlot, Means, Blank;
    var s, e := w + SpellSlots(slots) + [RBRACKET] + t, SpellSlot(slots[0]);
    if |slots| == 1 {
      assert e + [] == e;
      SlotReads(w, slots[0], RBRACKET, t, lone);
      assert SlotsMean(slots) == [Means(slots[0].value)];
    } else {
      BeforeOf(slots[1]);
      var rest := slots[1].before + SpellSlots(slots[1..]) + [RBRACKET] + t;
      assert s == w + e + [COMMA] + rest;
      SlotReads(w, slots[0], COMMA, rest, lone);
      assert s[|w| + |e| + 1..] == rest;
      SlotsRead(slots[1].before, slots[1..], t, lone);
    }
  }

  lemma BeforeOf(s: Slot)
    requires SlotOK(s)
    ensures Blank(s.before)
  {}

  lemma {:induction false} SlotsHead(slots: seq<Slot>)
    requires slots != [] && SlotOK(slots[0])
    ensures SpellSlots(slots) != [] && Opens(SpellSlots(slots)[0]) && !White(SpellSlots(slots)[0])
  {
    hide Spell, Blank;
    SpellHead(slots[0].value);
  }

  lemma {:induction false} ListedReads(gap: Bytes, slots: seq<Slot>, t: Bytes, lone: bool)
    requires OK(Listed(gap, slots))
    ensures Parse(Spell(Listed(gap, slots)) + t, lone) == Got(|Spell(Listed(gap, slots))|, Means(Listed(gap, slots)))
    decreases slots, 2
  {
    hide ParseItems, Spaces, SpellSlots, SlotOK, White, Blank;
    var s := Spell(Listed(gap, slots)) + t;
    if slots == [] {
      var rest := [RBRACKET] + t;
      assert s[1..] == gap + rest;
      ClosersAreNoSpace();
      BlankThen(gap, rest);
    } else {
      var body := SpellSlots(slots) + [RBRACKET] + t;
      assert s[1..] == slots[0].before + body;
      SlotsHead(slots);
      BeforeOf(slots[0]);
      BlankThen(slots[0].before, body);
      assert s[1 + |slots[0].before|..] == body && [] + SpellSlots(slots) == SpellSlots(slots);
      NothingBlank();
      SlotsRead([], slots, t, lone);
    }
  }

  // ---------------------------------------------------------------- objects

  lemma KeyBetween(w: Bytes, q: Bytes, x: Bytes, y: Bytes, u: Bytes, key: Bytes, lone: bool)
    requires Blank(w) && Blank(x) && Blank(y) && q != [] && !White(q[0]) && u != [] && !White(u[0])
    requires Text(q + (x + ([COLON] + (y + u))), lone) == Got(|q|, key)
    ensures KeyOf(w + (q + x + [COLON] + y) + u, lone) == Got(|w| + |q| + |x| + 1 + |y|, key)
  {
    hide Text, Spaces, White, Blank;
    KeySlices(w, q, x, y, u);
    ClosersAreNoSpace();
    BlankThen(w, q + (x + ([COLON] + (y + u))));
    BlankThen(x, [COLON] + (y + u));
    BlankThen(y, u);
  }

  lemma FieldKeyReads(w: Bytes, f: Field, u: Bytes, lone: bool)
    requires Blank(w) && FieldOK(f) && u != [] && !White(u[0])
    ensures var k := QuotedText(f.key) + f.colonBefore + [COLON] + f.colonAfter;
            KeyOf(w + k + u, lone) == Got(|w| + |k|, PiecesMean(f.key)) && (w + k + u)[|w| + |k|..] == u
  {
    hide Text, QuotedText, PiecesMean, PiecesOK, Spaces, White, Blank, OK, KeyOf;
    QuotedReads(f.key, f.colonBefore + ([COLON] + (f.colonAfter + u)), lone);
    ClosersAreNoSpace();
    KeyBetween(w, QuotedText(f.key), f.colonBefore, f.colonAfter, u, PiecesMean(f.key), lone);
    KeySlices(w, QuotedText(f.key), f.colonBefore, f.colonAfter, u);
  }

  lemma {:induction false} FieldReads(w: Bytes, f: Field, c: byte, t: Bytes, lone: bool)
    requires Blank(w) && FieldOK(f) && (c == COMMA || c == RBRACE)
    ensures ParseMember(w + SpellField(f) + [c] + t, lone)
            == Got(|w| + |SpellField(f)| + 1, ((PiecesMean(f.key), Means(f.value)), c == COMMA))
    decreases f, 0
  {
    hide Parse, Spell, Means, Separator, KeyOf, White, Blank, QuotedText, PiecesMean, PiecesOK;
    var k := QuotedText(f.key) + f.colonBefore + [COLON] + f.colonAfter;
    var v, u := Spell(f.value), f.after + [c] + t;
    FieldSlices(w, k, v, f.after, c, t);
    SpellHead(f.value);
    FieldKeyReads(w, f, v + u, lone);
    BlankFollows(f.after, c, t);
    SpellReads(f.value, u, lone);
    SeparatorAfter(f.after, c, RBRACE, t);
  }

  lemma FieldBefore(f: Field)
    requires FieldOK(f)
    ensures Blank(f.before)
  {}

  lemma {:induction false} FieldsRead(w: Bytes, fields: seq<Field>, t: Bytes, lone: bool)
    requires Blank(w) && fields != [] && forall i :: 0 <= i < |fields| ==> FieldOK(fields[i])
    ensures ParseMembers(w + SpellFields(fields) + [RBRACE] + t, lone) == Got(|w| + |SpellFields(fields)| + 1, FieldsMean(fields))
    decreases fields, 1
  {
    hide ParseMember, SpellField, Means, Blank, PiecesMean, FieldOK;
    var s, e := w + SpellFields(fields) + [RBRACE] + t, SpellField(fields[0]);
    if |fields| == 1 {
      assert e + [] == e;
      FieldReads(w, fields[0], RBRACE, t, lone);
      assert FieldsMean(fields) == [(PiecesMean(fields[0].key), Means(fields[0].value))];
    } else {
      FieldBefore(fields[1]);
      var rest := fields[1].before + SpellFields(fields[1..]) + [RBRACE] + t;
      assert s == w + e + [COMMA] + rest;
      FieldReads(w, fields[0], COMMA, rest, lone);
      assert s[|w| + |e| + 1..] == rest;
      FieldsRead(fields[1].before, fields[1..], t, lone);
    }
  }

  lemma {:induction false} RecordReads(gap: Bytes, fields: seq<Field>, t: Bytes, lone: bool)
    requires OK(Record(gap, fields))
    ensures Parse(Spell(Record(gap, fields)) + t, lone) == Got(|Spell(Record(gap, fields))|, Means(Record(gap, fields)))
    decreases fields, 2
  {
    hide ParseMembers, Spaces, SpellFields, FieldOK, White, Blank, DistinctKeys;
    var s := Spell(Record(gap, fields)) + t;
    ClosersAreNoSpace();
    if fields == [] {
      var rest := [RBRACE] + t;
      assert s[1..] == gap + rest;
      BlankThen(gap, rest);
    } else {
      var body := SpellFields(fields) + [RBRACE] + t;
      assert s[1..] == fields[0].before + body;
      FieldsHead(fields);
      FieldBefore(fields[0]);
      BlankThen(fields[0].before, body);
      assert s[1 + |fields[0].before|..] == body && [] + SpellFields(fields) == SpellFields(fields);
      NothingBlank();
      FieldsRead([], fields, t, lone);
    }
  }

  // -------------------------------------------------- every reading is a spelling

  /** The bytes of an escape are one legal piece. */
  lemma EscapeIsPiece(s: Bytes) returns (p: Piece)
    requires s != [] && s[0] == BACKSLASH && AnyEscape(s, false).Got?
    ensures PieceOK(p) && PieceText(p) == s[..AnyEscape(s, false).n] && PieceMeans(p) == Encode(AnyEscape(s, false).v)
  {
    hide Unit, Escape, Encode;
    if s[1] == 0x75 {
      p := CodeIsPiece(s);
    } else {
      p := Letter(s[1]);
      LetterShape(s);
    }
  }

  lemma CodeIsPiece(s: Bytes) returns (p: Piece)
    requires |s| >= 2 && s[0] == BACKSLASH && s[1] == 0x75 && Unit(s, false).Got?
    ensures PieceOK(p) && PieceText(p) == s[..Unit(s, false).n] && PieceMeans(p) == Encode(Unit(s, false).v)
  {
    hide Hex4, Encode, HexMeans;
    HexReads(s[2..]);
    var h := s[2..][..4];
    if Unit(s, false).n == 6 {
      p := Code(h);
      assert s[..6] == [BACKSLASH, 0x75] + h;
    } else {
      HexReads(s[8..]);
      var l := s[8..][..4];
      p := Surrogates(h, l);
      JoinedReads(HexMeans(h), HexMeans(l));
      assert s[..12] == [BACKSLASH, 0x75] + h + [BACKSLASH, 0x75] + l;
    }
  }

  lemma OnePieceMore(p: Piece, ps: seq<Piece>)
    requires PieceOK(p) && PiecesOK(ps)
    ensures PiecesOK([p] + ps)
    ensures PiecesText([p] + ps) == PieceText(p) + PiecesText(ps) && PiecesMean([p] + ps) == PieceMeans(p) + PiecesMean(ps)
  {
    assert ([p] + ps)[1..] == ps;
  }

  /** Whatever follows an opening quote is pieces and a closing quote. */
  lemma {:induction false} TailIsPieces(s: Bytes) returns (ps: seq<Piece>)
    requires TextTail(s, false).Got?
    ensures PiecesOK(ps) && s[..TextTail(s, false).n] == PiecesText(ps) + [QUOTE] && PiecesMean(ps) == TextTail(s, false).v
    decreases |s|
  {
    hide AnyEscape, PieceOK, PieceText, PieceMeans, PiecesText, PiecesMean, PiecesOK, Encode;
    if s[0] == QUOTE {
      ps := [];
      NoPieces();
      assert s[..1] == [] + [QUOTE];
    } else {
      var p, k := Plain(s[0]), 1;
      if s[0] == BACKSLASH {
        k := AnyEscape(s, false).n;
        p := EscapeIsPiece(s);
      } else {
        PlainPiece(s);
      }
      var rest := TailIsPieces(s[k..]);
      OnePieceMore(p, rest);
      ps := [p] + rest;
      var n := TextTail(s[k..], false).n;
      assert s[..k + n] == s[..k] + s[k..][..n];
      assert PieceText(p) + (PiecesText(rest) + [QUOTE]) == PieceText(p) + PiecesText(rest) + [QUOTE];
    }
  }

  lemma NoPieces()
    ensures PiecesText([]) == [] && PiecesMean([]) == [] && PiecesOK([])
  {}

  lemma PlainPiece(s: Bytes)
    requires s != [] && s[0] >= 0x20 && s[0] != QUOTE && s[0] != BACKSLASH
    ensures var p := Plain(s[0]); PieceOK(p) && PieceText(p) == s[..1] && PieceMeans(p) == [s[0]]
  {}

  lemma TextIsQuoted(s: Bytes) returns (ps: seq<Piece>)
    requires Text(s, false).Got?
    ensures PiecesOK(ps) && s[..Text(s, false).n] == QuotedText(ps) && PiecesMean(ps) == Text(s, false).v
  {
    hide TextTail, PiecesOK, PiecesText, PiecesMean;
    ps := TailIsPieces(s[1..]);
    var n := TextTail(s[1..], false).n;
    assert s[..1 + n] == [QUOTE] + s[1..][..n];
    assert [] + TextTail(s[1..], false).v == TextTail(s[1..], false).v;
  }

  lemma {:induction false} ParseIsSpelled(s: Bytes) returns (sp: Spelling)
    requires Parse(s, false).Got?
    ensures OK(sp) && Spell(sp) == s[..Parse(s, false).n] && Means(sp) == Parse(s, false).v
    decreases |s|, 2
  {
    hide ParseObject, ParseArray, Text, Numeral, CanonNumber, PiecesOK, PiecesMean, QuotedText, FormText, FormOK, Shortest, Ascii;
    var n := Parse(s, false).n;
    if s[0] == LBRACE {
      sp := ObjectIsSpelled(s);
    } else if s[0] == LBRACKET {
      sp := ArrayIsSpelled(s);
    } else if s[0] == QUOTE {
      var ps := TextIsQuoted(s);
      sp := Quoted(ps);
    } else if s[0] == MINUS || IsDigit(s[0]) {
      var f := NumeralIsForm(s);
      ShortestExactly(f);
      sp := Amount(f);
    } else {
      SameWords();
      sp := Keyword(s[..n]);
    }
  }

  /** An item, the white space about it, and the byte that ends it. */
  lemma {:induction false} ItemIsSpelled(s: Bytes) returns (x: Slot)
    requires ParseItem(s, false).Got?
    ensures var r := ParseItem(s, false);
            SlotOK(x) && Means(x.value) == r.v.0
            && s[..r.n] == x.before + SpellSlot(x) + [if r.v.1 then COMMA else RBRACKET]
    decreases |s|, 3
  {
    hide Parse, Separator, Spaces, Spell, Means, Blank;
    var c := Spaces(s);
    SpacesAreBlank(s);
    var v := ParseIsSpelled(s[c..]);
    var n := Parse(s[c..], false).n;
    var t := s[c + n..];
    SeparatorShape(t, RBRACKET);
    var p := Separator(t, RBRACKET).n;
    x := Slot(s[..c], v, t[..p - 1]);
    ThreeParts(s, c, n, p);
  }

  lemma {:induction false} ItemsAreSpelled(s: Bytes) returns (xs: seq<Slot>)
    requires ParseItems(s, false).Got?
    ensures xs != [] && (forall i :: 0 <= i < |xs| ==> SlotOK(xs[i])) && SlotsMean(xs) == ParseItems(s, false).v
    ensures s[..ParseItems(s, false).n] == xs[0].before + SpellSlots(xs) + [RBRACKET]
    decreases |s|, 4
  {
    hide ParseItem, SlotOK, SpellSlot, Means;
    var x := ItemIsSpelled(s);
    var n := ParseItem(s, false).n;
    if ParseItem(s, false).v.1 {
      var rest := ItemsAreSpelled(s[n..]);
      xs := [x] + rest;
      assert xs[1..] == rest;
      var q := ParseItems(s[n..], false).n;
      assert s[..n + q] == s[..n] + s[n..][..q];
      assert SpellSlots(xs) == SpellSlot(x) + ([COMMA] + rest[0].before + SpellSlots(rest));
      Regroup(x.before, SpellSlot(x), rest[0].before, SpellSlots(rest), RBRACKET);
    } else {
      xs := [x];
      assert SpellSlot(x) + [] == SpellSlot(x);
    }
  }

  lemma {:induction false} ArrayIsSpelled(s: Bytes) returns (sp: Spelling)
    requires s != [] && s[0] == LBRACKET && ParseArray(s, false).Got?
    ensures OK(sp) && Spell(sp) == s[..ParseArray(s, false).n] && Means(sp) == ParseArray(s, false).v
    decreases |s|, 1
  {
    hide ParseItems, Spaces, SpellSlots, SlotsMean, Blank, SlotOK;
    LeadingGap(s);
    var a := 1 + Spaces(s[1..]);
    var w := s[1..a];
    if a < |s| && s[a] == RBRACKET {
      sp := Listed(w, []);
      NoSlots();
      assert s[..a + 1] == [LBRACKET] + w + [RBRACKET];
    } else {
      var xs := ItemsAreSpelled(s[a..]);
      var n := ParseItems(s[a..], false).n;
      ThenSpaces(s, w, xs[0].before, SpellSlots(xs), a, n, RBRACKET);
      var ys := xs[0 := xs[0].(before := w + xs[0].before)];
      LedSlots(xs, w, ys);
      NothingBlank();
      sp := Listed([], ys);
    }
  }

  lemma {:induction false} NoSlots()
    ensures SlotsMean([]) == []
  {}

  lemma {:induction false} LedSlots(xs: seq<Slot>, w: Bytes, ys: seq<Slot>)
    requires xs != [] && Blank(w) && (forall i :: 0 <= i < |xs| ==> SlotOK(xs[i]))
    requires ys == xs[0 := xs[0].(before := w + xs[0].before)]
    ensures (forall i :: 0 <= i < |ys| ==> SlotOK(ys[i])) && SlotsMean(ys) == SlotsMean(xs) && SpellSlots(ys) == SpellSlots(xs)
  {
    hide Blank, Spell, Means, OK;
    BlankConcat(w, xs[0].before);
    assert ys[1..] == xs[1..];
  }

  lemma {:induction false} MemberIsSpelled(s: Bytes) returns (x: Field)
    requires ParseMember(s, false).Got?
    ensures var r := ParseMember(s, false);
            FieldOK(x) && (PiecesMean(x.key), Means(x.value)) == r.v.0
            && s[..r.n] == x.before + SpellField(x) + [if r.v.1 then COMMA else RBRACE]
    decreases |s|, 0
  {
    hide Parse, Separator, KeyOf, Spell, Means, Blank, PiecesOK, PiecesMean, QuotedText;
    var b, q, x1, y := KeyIsSpelled(s);
    var c := KeyOf(s, false).n;
    var v := ParseIsSpelled(s[c..]);
    var n := Parse(s[c..], false).n;
    var t := s[c + n..];
    SeparatorShape(t, RBRACE);
    var p := Separator(t, RBRACE).n;
    x := Field(b, q, x1, y, v, t[..p - 1]);
    ThreeParts(s, c, n, p);
    FieldParts(b, QuotedText(q), x1, y, Spell(v), t[..p - 1], if Separator(t, RBRACE).v then COMMA else RBRACE);
  }

  lemma KeyIsSpelled(s: Bytes) returns (b: Bytes, q: seq<Piece>, x: Bytes, y: Bytes)
    requires KeyOf(s, false).Got?
    ensures Blank(b) && Blank(x) && Blank(y) && PiecesOK(q) && PiecesMean(q) == KeyOf(s, false).v
    ensures s[..KeyOf(s, false).n] == b + QuotedText(q) + x + [COLON] + y
  {
    hide Text, Spaces, Blank, PiecesOK, PiecesMean, QuotedText;
    var i := Spaces(s);
    SpacesAreBlank(s);
    q := TextIsQuoted(s[i..]);
    var k := Text(s[i..], false).n;
    SpacesAreBlank(s[i + k..]);
    var j := i + k + Spaces(s[i + k..]);
    SpacesAreBlank(s[j + 1..]);
    b, x, y := s[..i], s[i + k..][..j - i - k], s[j + 1..][..Spaces(s[j + 1..])];
    KeyPieces(s, i, k, j, Spaces(s[j + 1..]));
  }

  lemma {:induction false} MembersAreSpelled(s: Bytes) returns (xs: seq<Field>)
    requires ParseMembers(s, false).Got?
    ensures xs != [] && (forall i :: 0 <= i < |xs| ==> FieldOK(xs[i])) && FieldsMean(xs) == ParseMembers(s, false).v
    ensures s[..ParseMembers(s, false).n] == xs[0].before + SpellFields(xs) + [RBRACE]
    decreases |s|, 1
  {
    hide ParseMember, FieldOK, SpellField, Means, PiecesMean;
    var x := MemberIsSpelled(s);
    var n := ParseMember(s, false).n;
    if ParseMember(s, false).v.1 {
      var rest := MembersAreSpelled(s[n..]);
      xs := [x] + rest;
      assert xs[1..] == rest;
      var q := ParseMembers(s[n..], false).n;
      assert s[..n + q] == s[..n] + s[n..][..q];
      assert SpellFields(xs) == SpellField(x) + ([COMMA] + rest[0].before + SpellFields(rest));
      Regroup(x.before, SpellField(x), rest[0].before, SpellFields(rest), RBRACE);
    } else {
      xs := [x];
      assert SpellField(x) + [] == SpellField(x);
    }
  }

  lemma {:induction false} LedFields(xs: seq<Field>, w: Bytes, ys: seq<Field>)
    requires xs != [] && Blank(w) && (forall i :: 0 <= i < |xs| ==> FieldOK(xs[i]))
    requires ys == xs[0 := xs[0].(before := w + xs[0].before)]
    ensures (forall i :: 0 <= i < |ys| ==> FieldOK(ys[i])) && FieldsMean(ys) == FieldsMean(xs) && SpellFields(ys) == SpellFields(xs)
  {
    hide Blank, Spell, Means, OK, PiecesOK, PiecesMean, QuotedText;
    BlankConcat(w, xs[0].before);
    assert ys[1..] == xs[1..];
  }

  lemma {:induction false} NoFields()
    ensures FieldsMean([]) == [] && ToMap([]) == map[] && DistinctKeys([])
  {}

  lemma {:induction false} ObjectIsSpelled(s: Bytes) returns (sp: Spelling)
    requires s != [] && s[0] == LBRACE && ParseObject(s, false).Got?
    ensures OK(sp) && Spell(sp) == s[..ParseObject(s, false).n] && Means(sp) == ParseObject(s, false).v
    decreases |s|, 1
  {
    hide ParseMembers, Spaces, SpellFields, FieldsMean, Blank, FieldOK, ToMap, DistinctKeys;
    LeadingGap(s);
    var a := 1 + Spaces(s[1..]);
    var w := s[1..a];
    if a < |s| && s[a] == RBRACE {
      sp := Record(w, []);
      NoFields();
      assert s[..a + 1] == [LBRACE] + w + [RBRACE];
    } else {
      var xs := MembersAreSpelled(s[a..]);
      var n := ParseMembers(s[a..], false).n;
      ThenSpaces(s, w, xs[0].before, SpellFields(xs), a, n, RBRACE);
      var ys := xs[0 := xs[0].(before := w + xs[0].before)];
      LedFields(xs, w, ys);
      NothingBlank();
      sp := Record([], ys);
    }
  }
}
