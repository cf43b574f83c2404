/**
 The strict domain is exactly a part of the grammar of RFC 8259: its texts with distinct
 keys, no NUL, paired surrogates, bounded nesting and numbers that survive a float.
 */
module StrictSpelling {
  import opened ByteStrings
  import opened GrammarScans
  import opened JsonGrammar
  import opened JsonLocality
  import opened JsonReaders
  import opened JsonScan
  import opened JsonSpans
  import opened NumberDomain
  import opened NumberExact

  // ------------------------------------------------------------------- the domain

  /** A string whose escapes are legal and of which no character is NUL. */
  predicate TextOK(ps: seq<Piece>) {
    PiecesOK(ps) && forall i :: 0 <= i < |ps| ==> NotNul(ps[i])
  }

  predicate NotNul(p: Piece)
    requires PieceOK(p)
  {
    p.Code? ==> HexMeans(p.h) != 0
  }

  predicate KeysDiffer(fields: seq<Field>) {
    forall i, j :: 0 <= i < j < |fields| ==> PiecesMean(fields[i].key) != PiecesMean(fields[j].key)
  }

  /** A value of the strict domain, with room for that many levels of nesting. */
  predicate OK(sp: Spelling, room: nat)
    decreases sp, 1
  {
    match sp
    case Keyword(w) => KeywordOK(w)
    case Amount(n) => FormOK(n) && Accepts(FormText(n))
    case Quoted(ps) => TextOK(ps)
    case Listed(gap, slots) => room > 0 && Blank(gap) && forall i :: 0 <= i < |slots| ==> SlotOK(slots[i], room - 1)
    case Record(gap, fields) =>
      && room > 0 && Blank(gap) && KeysDiffer(fields)
      && forall i :: 0 <= i < |fields| ==> FieldOK(fields[i], room - 1)
  }

  predicate SlotOK(s: Slot, room: nat)
    decreases s, 0
  {
    Blank(s.before) && Blank(s.after) && OK(s.value, room)
  }

  predicate FieldOK(f: Field, room: nat)
    decreases f, 0
  {
    Blank(f.before) && TextOK(f.key) && Blank(f.colonBefore) && Blank(f.colonAfter) && Blank(f.after) && OK(f.value, room)
  }

  /** What a reader cuts out of an array: the text of every item, without the white space about it. */
  function Items(slots: seq<Slot>): (es: seq<Bytes>)
    ensures |es| == |slots| && forall i :: 0 <= i < |es| ==> es[i] == Spell(slots[i].value)
  {
    if slots == [] then [] else [Spell(slots[0].value)] + Items(slots[1..])
  }

  /** What a reader cuts out of an object: every key decoded, and the text of its value. */
  function Pairs(fields: seq<Field>): (ms: seq<Member>)
    ensures |ms| == |fields|
    ensures forall i :: 0 <= i < |ms| ==> ms[i] == Member(PiecesMean(fields[i].key), Spell(fields[i].value))
  {
    if fields == [] then [] else [Member(PiecesMean(fields[0].key), Spell(fields[0].value))] + Pairs(fields[1..])
  }

  // ------------------------------------------------------------------ strings read

  lemma CodeReads(h: Bytes, u: Bytes)
    requires PieceOK(Code(h)) && HexMeans(h) != 0
    ensures Escape([BACKSLASH, 0x75] + h + u) == Got(6, HexMeans(h))
  {
    hide Hex4, HexMeans;
    var s := [BACKSLASH, 0x75] + h + u;
    assert s[2..] == h + u;
    HexAgain(h, u);
  }

  lemma SurrogatesRead(h: Bytes, l: Bytes, u: Bytes)
    requires PieceOK(Surrogates(h, l))
    ensures Escape([BACKSLASH, 0x75] + h + [BACKSLASH, 0x75] + l + u) == Got(12, Joined(HexMeans(h), HexMeans(l)))
  {
    hide Hex4, HexMeans;
    var s := [BACKSLASH, 0x75] + h + [BACKSLASH, 0x75] + l + u;
    assert s[2..] == h + ([BACKSLASH, 0x75] + l + u) && s[8..] == l + u;
    HexAgain(h, [BACKSLASH, 0x75] + l + u);
    HexAgain(l, u);
    JoinedReads(HexMeans(h), HexMeans(l));
  }

  /** What is left of a string reads on as what the piece means, and then the rest. */
  lemma PieceReads(p: Piece, u: Bytes)
    requires PieceOK(p) && NotNul(p)
    ensures StringTail(u).Got? ==>
              StringTail(PieceText(p) + u) == Got(|PieceText(p)| + StringTail(u).n, PieceMeans(p) + StringTail(u).v)
  {
    hide Escape, Hex4, HexMeans, Encode;
    var e := PieceText(p);
    var s := e + u;
    assert s[|e|..] == u && s[0] == e[0];
    match p
    case Plain(c) =>
    case Letter(c) => LetterReads(c, u);
    case Code(h) => CodeReads(h, u);
    case Surrogates(h, l) => SurrogatesRead(h, l, u);
  }

  lemma {:induction false} PiecesRead(ps: seq<Piece>, t: Bytes)
    requires TextOK(ps)
    ensures StringTail(PiecesText(ps) + [QUOTE] + t) == Got(|PiecesText(ps)| + 1, PiecesMean(ps))
  {
    hide StringTail, PieceText, PieceMeans, PieceOK, NotNul;
    if ps == [] {
      assert [] + [QUOTE] + t == [QUOTE] + t;
      QuoteEnds(t);
    } else {
      PiecesRead(ps[1..], t);
      var rest := PiecesText(ps[1..]) + [QUOTE] + t;
      PieceReads(ps[0], rest);
      assert PiecesText(ps) + [QUOTE] + t == PieceText(ps[0]) + rest;
    }
  }

  lemma QuoteEnds(t: Bytes)
    ensures StringTail([QUOTE] + t) == Got(1, [])
  {}

  lemma QuotedReads(ps: seq<Piece>, t: Bytes)
    requires TextOK(ps)
    ensures String(QuotedText(ps) + t) == Got(|QuotedText(ps)|, PiecesMean(ps))
  {
    hide StringTail, PiecesText, PiecesMean, TextOK;
    PiecesRead(ps, t);
    assert (QuotedText(ps) + t)[1..] == PiecesText(ps) + [QUOTE] + t;
  }

  // ------------------------------------------------------------------- values read

  /** A byte that a value begins with. */
  predicate Begins(c: byte) {
    c == LBRACE || c == LBRACKET || c == QUOTE || c == MINUS || IsDigit(c) || c == 0x74 || c == 0x66 || c == 0x6E
  }

  lemma {:induction false} SpellHead(sp: Spelling, room: nat)
    requires OK(sp, room)
    ensures Spell(sp) != [] && Begins(Spell(sp)[0]) && !White(Spell(sp)[0])
  {
    hide SpellSlots, SpellFields, PiecesText, Accepts;
    if sp.Amount? { FormSplits(sp.n, []); }
  }

  lemma KeywordReads(w: Bytes, t: Bytes, room: nat)
    requires KeywordOK(w)
    ensures Value(w + t, room).Got? && Value(w + t, room).n == |w|
  {
    SameWords();
    assert w <= w + t;
  }

  lemma AmountReads(n: NumberForm, t: Bytes, room: nat)
    requires FormOK(n) && Accepts(FormText(n)) && Follows(t)
    ensures Value(FormText(n) + t, room).Got? && Value(FormText(n) + t, room).n == |FormText(n)|
  {
    hide FormText, Numeral, FormOK, Accepts;
    FormReads(n, t);
    FormHead(n, t);
    assert (FormText(n) + t)[..|FormText(n)|] == FormText(n);
  }

  lemma {:induction false} SpellReads(sp: Spelling, t: Bytes, room: nat)
    requires OK(sp, room) && Follows(t)
    ensures Value(Spell(sp) + t, room).Got? && Value(Spell(sp) + t, room).n == |Spell(sp)|
    decreases sp, 2
  {
    hide QuotedText, SpellSlots, SpellFields, FormText, KeywordOK, Accepts, FormOK, TextOK, KeysDiffer;
    match sp
    case Keyword(w) =>
      hide Value;
      KeywordReads(w, t, room);
    case Amount(n) =>
      hide Value;
      AmountReads(n, t, room);
    case Quoted(ps) => QuotedReads(ps, t);
    case Listed(gap, slots) => ListedReads(gap, slots, t, room - 1);
    case Record(gap, fields) => RecordReads(gap, fields, t, room - 1);
  }

  lemma {:induction false} SlotReads(w: Bytes, s: Slot, c: byte, t: Bytes, room: nat)
    requires Blank(w) && SlotOK(s, room) && (c == COMMA || c == RBRACKET)
    ensures Item(w + SpellSlot(s) + [c] + t, room) == Got(|w| + |SpellSlot(s)| + 1, (Spell(s.value), c == COMMA))
    decreases s, 0
  {
    hide Value, Spell, Separator, Spaces, White, Blank, OK;
    var v, u := Spell(s.value), s.after + [c] + t;
    var all := w + SpellSlot(s) + [c] + t;
    assert all == w + (v + u);
    SpellHead(s.value, room);
    BlankThen(w, v + u);
    BlankFollows(s.after, c, t);
    SpellReads(s.value, u, room);
    assert all[|w| + |v|..] == u && all[|w|..|w| + |v|] == v;
    SeparatorAfter(s.after, c, RBRACKET, t);
  }

  lemma {:induction false} SlotsRead(w: Bytes, slots: seq<Slot>, t: Bytes, room: nat)
    requires Blank(w) && slots != [] && forall i :: 0 <= i < |slots| ==> SlotOK(slots[i], room)
    ensures Elements(w + SpellSlots(slots) + [RBRACKET] + t, room) == Got(|w| + |SpellSlots(slots)| + 1, Items(slots))
    decreases slots, 1
  {
    hide Item, SpellSlot, Spell, Blank;
    var s, e := w + SpellSlots(slots) + [RBRACKET] + t, SpellSlot(slots[0]);
    if |slots| == 1 {
      assert e + [] == e;
      SlotReads(w, slots[0], RBRACKET, t, room);
      assert Items(slots) == [Spell(slots[0].value)];
    } else {
      SlotBefore(slots[1], room);
      var rest := slots[1].before + SpellSlots(slots[1..]) + [RBRACKET] + t;
      assert s == w + e + [COMMA] + rest;
      SlotReads(w, slots[0], COMMA, rest, room);
      assert s[|w| + |e| + 1..] == rest;
      SlotsRead(slots[1].before, slots[1..], t, room);
    }
  }

  lemma SlotBefore(s: Slot, room: nat)
    requires SlotOK(s, room)
    ensures Blank(s.before)
  {}

  lemma {:induction false} SlotsHead(slots: seq<Slot>, room: nat)
    requires slots != [] && SlotOK(slots[0], room)
    ensures SpellSlots(slots) != [] && Begins(SpellSlots(slots)[0]) && !White(SpellSlots(slots)[0])
  {
    hide Spell, Blank, OK;
    SpellHead(slots[0].value, room);
  }

  /** An array's text is taken whole, and cut into its items. */
  lemma {:induction false} ListedReads(gap: Bytes, slots: seq<Slot>, t: Bytes, room: nat)
    requires Blank(gap) && forall i :: 0 <= i < |slots| ==> SlotOK(slots[i], room)
    ensures Array(Spell(Listed(gap, slots)) + t, room) == Got(|Spell(Listed(gap, slots))|, Items(slots))
    decreases slots, 2
  {
    hide Elements, Spaces, SpellSlots, SlotOK, White, Blank;
    var s := Spell(Listed(gap, slots)) + t;
    ClosersAreNoSpace();
    if slots == [] {
      var rest := [RBRACKET] + t;
      assert s[1..] == gap + rest;
      BlankThen(gap, rest);
    } else {
      var body := SpellSlots(slots) + [RBRACKET] + t;
      assert s[1..] == slots[0].before + body;
      SlotsHead(slots, room);
      SlotBefore(slots[0], room);
      BlankThen(slots[0].before, body);
      assert s[1 + |slots[0].before|..] == body && [] + SpellSlots(slots) == SpellSlots(slots);
      NothingBlank();
      SlotsRead([], slots, t, room);
    }
  }

  lemma KeyBetween(w: Bytes, q: Bytes, x: Bytes, y: Bytes, u: Bytes, key: Bytes)
    requires Blank(w) && Blank(x) && Blank(y) && q != [] && !White(q[0]) && u != [] && !White(u[0])
    requires String(q + (x + ([COLON] + (y + u)))) == Got(|q|, key)
    ensures JsonScan.Key(w + (q + x + [COLON] + y) + u) == Got(|w| + |q| + |x| + 1 + |y|, key)
  {
    hide String, Spaces, White, Blank;
    KeySlices(w, q, x, y, u);
    ClosersAreNoSpace();
    BlankThen(w, q + (x + ([COLON] + (y + u))));
    BlankThen(x, [COLON] + (y + u));
    BlankThen(y, u);
  }

  lemma KeyReads(w: Bytes, f: Field, u: Bytes, room: nat)
    requires Blank(w) && FieldOK(f, room) && u != [] && !White(u[0])
    ensures var k := QuotedText(f.key) + f.colonBefore + [COLON] + f.colonAfter;
            JsonScan.Key(w + k + u) == Got(|w| + |k|, PiecesMean(f.key)) && (w + k + u)[|w| + |k|..] == u
  {
    hide String, QuotedText, PiecesMean, TextOK, Spaces, White, Blank, OK, JsonScan.Key;
    QuotedReads(f.key, f.colonBefore + ([COLON] + (f.colonAfter + u)));
    ClosersAreNoSpace();
    KeyBetween(w, QuotedText(f.key), f.colonBefore, f.colonAfter, u, PiecesMean(f.key));
    KeySlices(w, QuotedText(f.key), f.colonBefore, f.colonAfter, u);
  }

  lemma {:induction false} FieldReads(w: Bytes, f: Field, c: byte, t: Bytes, room: nat)
    requires Blank(w) && FieldOK(f, room) && (c == COMMA || c == RBRACE)
    ensures Entry(w + SpellField(f) + [c] + t, room)
            == Got(|w| + |SpellField(f)| + 1, (Member(PiecesMean(f.key), Spell(f.value)), c == COMMA))
    decreases f, 0
  {
    hide Value, Spell, Separator, JsonScan.Key, White, Blank, QuotedText, PiecesMean, TextOK, OK;
    var k := QuotedText(f.key) + f.colonBefore + [COLON] + f.colonAfter;
    var v, u := Spell(f.value), f.after + [c] + t;
    FieldSlices(w, k, v, f.after, c, t);
    SpellHead(f.value, room);
    KeyReads(w, f, v + u, room);
    BlankFollows(f.after, c, t);
    SpellReads(f.value, u, room);
    SeparatorAfter(f.after, c, RBRACE, t);
  }

  lemma FieldBefore(f: Field, room: nat)
    requires FieldOK(f, room)
    ensures Blank(f.before)
  {}

  lemma {:induction false} FieldsRead(w: Bytes, fields: seq<Field>, t: Bytes, room: nat)
    requires Blank(w) && fields != [] && forall i :: 0 <= i < |fields| ==> FieldOK(fields[i], room)
    ensures Members(w + SpellFields(fields) + [RBRACE] + t, room) == Got(|w| + |SpellFields(fields)| + 1, Pairs(fields))
    decreases fields, 1
  {
    hide Entry, SpellField, Spell, Blank, PiecesMean, FieldOK;
    var s, e := w + SpellFields(fields) + [RBRACE] + t, SpellField(fields[0]);
    if |fields| == 1 {
      assert e + [] == e;
      FieldReads(w, fields[0], RBRACE, t, room);
      assert Pairs(fields) == [Member(PiecesMean(fields[0].key), Spell(fields[0].value))];
    } else {
      FieldBefore(fields[1], room);
      var rest := fields[1].before + SpellFields(fields[1..]) + [RBRACE] + t;
      assert s == w + e + [COMMA] + rest;
      FieldReads(w, fields[0], COMMA, rest, room);
      assert s[|w| + |e| + 1..] == rest;
      FieldsRead(fields[1].before, fields[1..], t, room);
    }
  }

  /** An object's text is taken whole, and cut into its members. */
  lemma {:induction false} RecordReads(gap: Bytes, fields: seq<Field>, t: Bytes, room: nat)
    requires Blank(gap) && forall i :: 0 <= i < |fields| ==> FieldOK(fields[i], room)
    ensures Object(Spell(Record(gap, fields)) + t, room) == Got(|Spell(Record(gap, fields))|, Pairs(fields))
    ensures Distinct(Pairs(fields)) <==> KeysDiffer(fields)
    decreases fields, 2
  {
    hide Members, Spaces, SpellFields, FieldOK, White, Blank, PiecesMean;
    var s := Spell(Record(gap, fields)) + t;
    ClosersAreNoSpace();
    if fields == [] {
      var rest := [RBRACE] + t;
      assert s[1..] == gap + rest;
      BlankThen(gap, rest);
    } else {
      var body := SpellFields(fields) + [RBRACE] + t;
      assert s[1..] == fields[0].before + body;
      FieldsHead(fields);
      FieldBefore(fields[0], room);
      BlankThen(fields[0].before, body);
      assert s[1 + |fields[0].before|..] == body && [] + SpellFields(fields) == SpellFields(fields);
      NothingBlank();
      FieldsRead([], fields, t, room);
    }
  }

  // ------------------------------------------------- whatever is taken is spelt

  lemma CodeIsPiece(s: Bytes) returns (p: Piece)
    requires |s| >= 2 && s[0] == BACKSLASH && s[1] == 0x75 && UnicodeEscape(s).Got?
    ensures PieceOK(p) && NotNul(p) && PieceText(p) == s[..UnicodeEscape(s).n] && PieceMeans(p) == Encode(UnicodeEscape(s).v)
  {
    hide Hex4, Encode, HexMeans;
    HexReads(s[2..]);
    var h := s[2..][..4];
    if UnicodeEscape(s).n == 6 {
      p := Code(h);
      assert s[..6] == [BACKSLASH, 0x75] + h;
    } else {
      HexReads(s[8..]);
      var l := s[8..][..4];
      p := Surrogates(h, l);
      JoinedReads(HexMeans(h), HexMeans(l));
      assert s[..12] == [BACKSLASH, 0x75] + h + [BACKSLASH, 0x75] + l;
    }
  }

  lemma EscapeIsPiece(s: Bytes) returns (p: Piece)
    requires s != [] && s[0] == BACKSLASH && Escape(s).Got?
    ensures PieceOK(p) && NotNul(p) && PieceText(p) == s[..Escape(s).n] && PieceMeans(p) == Encode(Escape(s).v)
  {
    hide UnicodeEscape, Encode;
    if s[1] == 0x75 {
      p := CodeIsPiece(s);
    } else {
      p := Letter(s[1]);
      LetterShape(s);
    }
  }

  lemma OnePieceMore(p: Piece, ps: seq<Piece>)
    requires PieceOK(p) && NotNul(p) && TextOK(ps)
    ensures TextOK([p] + ps)
    ensures PiecesText([p] + ps) == PieceText(p) + PiecesText(ps) && PiecesMean([p] + ps) == PieceMeans(p) + PiecesMean(ps)
  {
    hide NotNul;
    assert ([p] + ps)[1..] == ps;
  }

  lemma NoPieces()
    ensures PiecesText([]) == [] && PiecesMean([]) == [] && TextOK([])
  {}

  lemma PlainPiece(s: Bytes)
    requires s != [] && s[0] >= 0x20 && s[0] != QUOTE && s[0] != BACKSLASH
    ensures var p := Plain(s[0]); PieceOK(p) && NotNul(p) && PieceText(p) == s[..1] && PieceMeans(p) == [s[0]]
  {}

  lemma {:induction false} TailIsPieces(s: Bytes) returns (ps: seq<Piece>)
    requires StringTail(s).Got?
    ensures TextOK(ps) && s[..StringTail(s).n] == PiecesText(ps) + [QUOTE] && PiecesMean(ps) == StringTail(s).v
    decreases |s|
  {
    hide Escape, PieceOK, NotNul, PieceText, PieceMeans, PiecesText, PiecesMean, TextOK, Encode;
    if s[0] == QUOTE {
      ps := [];
      NoPieces();
      assert s[..1] == [] + [QUOTE];
    } else {
      var p, k := Plain(s[0]), 1;
      if s[0] == BACKSLASH {
        k := Escape(s).n;
        p := EscapeIsPiece(s);
      } else {
        PlainPiece(s);
      }
      var rest := TailIsPieces(s[k..]);
      OnePieceMore(p, rest);
      ps := [p] + rest;
      var n := StringTail(s[k..]).n;
      assert s[..k + n] == s[..k] + s[k..][..n];
      assert PieceText(p) + (PiecesText(rest) + [QUOTE]) == PieceText(p) + PiecesText(rest) + [QUOTE];
    }
  }

  lemma StringIsQuoted(s: Bytes) returns (ps: seq<Piece>)
    requires String(s).Got?
    ensures TextOK(ps) && s[..String(s).n] == QuotedText(ps) && PiecesMean(ps) == String(s).v
  {
    hide StringTail, TextOK, PiecesText, PiecesMean;
    ps := TailIsPieces(s[1..]);
    var n := StringTail(s[1..]).n;
    assert s[..1 + n] == [QUOTE] + s[1..][..n];
  }

  /** decodeJSONString reads exactly the quoted texts, as what their pieces stand for. */
  lemma DecodeExactly(raw: Bytes, v: Bytes)
    ensures DecodeString(raw).Got? && DecodeString(raw).v == v <==>
              exists ps :: TextOK(ps) && raw == QuotedText(ps) && v == PiecesMean(ps)
  {
    hide String, TextOK, QuotedText, PiecesMean;
    if DecodeString(raw).Got? {
      var ps := StringIsQuoted(raw);
      assert raw[..|raw|] == raw;
    }
    if ps :| TextOK(ps) && raw == QuotedText(ps) && v == PiecesMean(ps) {
      QuotedReads(ps, []);
      assert raw + [] == raw;
    }
  }

  lemma WordIsKeyword(s: Bytes, room: nat)
    requires Value(s, room).Got? && (s[0] == 0x74 || s[0] == 0x66 || s[0] == 0x6E)
    ensures KeywordOK(s[..Value(s, room).n])
  {
    SameWords();
  }

  lemma NumberIsAmount(s: Bytes) returns (n: NumberForm)
    requires Number(s).Got?
    ensures FormOK(n) && Accepts(FormText(n)) && FormText(n) == s[..Number(s).n]
  {
    hide Numeral, Accepts;
    n := NumeralIsForm(s);
  }

  lemma {:induction false} ValueIsSpelled(s: Bytes, room: nat) returns (sp: Spelling)
    requires Value(s, room).Got?
    ensures OK(sp, room) && Spell(sp) == s[..Value(s, room).n]
    decreases |s|, 2
  {
    hide Object, Array, String, Number, TextOK, QuotedText, FormOK, FormText, Accepts, KeywordOK, KeysDiffer;
    var n := Value(s, room).n;
    if s[0] == LBRACE {
      sp := ObjectIsSpelled(s, room - 1);
    } else if s[0] == LBRACKET {
      sp := ArrayIsSpelled(s, room - 1);
    } else if s[0] == QUOTE {
      var ps := StringIsQuoted(s);
      sp := Quoted(ps);
    } else if s[0] == MINUS || IsDigit(s[0]) {
      var f := NumberIsAmount(s);
      sp := Amount(f);
    } else {
      WordIsKeyword(s, room);
      sp := Keyword(s[..n]);
    }
  }

  /** An item, the white space about it, and the byte that ends it. */
  lemma {:induction false} ItemIsSpelled(s: Bytes, room: nat) returns (x: Slot)
    requires Item(s, room).Got?
    ensures var r := Item(s, room);
            SlotOK(x, room) && Spell(x.value) == r.v.0
            && s[..r.n] == x.before + SpellSlot(x) + [if r.v.1 then COMMA else RBRACKET]
    decreases |s|, 3
  {
    hide Value, Separator, Spaces, Spell, Blank, OK;
    var c := Spaces(s);
    SpacesAreBlank(s);
    var v := ValueIsSpelled(s[c..], room);
    var n := Value(s[c..], room).n;
    var t := s[c + n..];
    SeparatorShape(t, RBRACKET);
    var p := Separator(t, RBRACKET).n;
    x := Slot(s[..c], v, t[..p - 1]);
    ThreeParts(s, c, n, p);
  }

  lemma {:induction false} ElementsAreSpelled(s: Bytes, room: nat) returns (xs: seq<Slot>)
    requires Elements(s, room).Got?
    ensures xs != [] && (forall i :: 0 <= i < |xs| ==> SlotOK(xs[i], room)) && Items(xs) == Elements(s, room).v
    ensures s[..Elements(s, room).n] == xs[0].before + SpellSlots(xs) + [RBRACKET]
    decreases |s|, 4
  {
    hide Item, SlotOK, SpellSlot, Spell;
    var x := ItemIsSpelled(s, room);
    var n := Item(s, room).n;
    if Item(s, room).v.1 {
      var rest := ElementsAreSpelled(s[n..], room);
      xs := [x] + rest;
      assert xs[1..] == rest;
      var q := Elements(s[n..], room).n;
      assert s[..n + q] == s[..n] + s[n..][..q];
      assert SpellSlots(xs) == SpellSlot(x) + ([COMMA] + rest[0].before + SpellSlots(rest));
      Regroup(x.before, SpellSlot(x), rest[0].before, SpellSlots(rest), RBRACKET);
    } else {
      xs := [x];
      assert SpellSlot(x) + [] == SpellSlot(x);
    }
  }

  lemma {:induction false} ArrayIsSpelled(s: Bytes, room: nat) returns (sp: Spelling)
    requires s != [] && s[0] == LBRACKET && Array(s, room).Got?
    ensures OK(sp, room + 1) && Spell(sp) == s[..Array(s, room).n] && sp.Listed? && Items(sp.slots) == Array(s, room).v
    decreases |s|, 1
  {
    hide Elements, Spaces, SpellSlots, Blank, SlotOK;
    LeadingGap(s);
    var a := 1 + Spaces(s[1..]);
    var w := s[1..a];
    if a < |s| && s[a] == RBRACKET {
      sp := Listed(w, []);
      assert s[..a + 1] == [LBRACKET] + w + [RBRACKET];
    } else {
      var xs := ElementsAreSpelled(s[a..], room);
      var n := Elements(s[a..], room).n;
      ThenSpaces(s, w, xs[0].before, SpellSlots(xs), a, n, RBRACKET);
      var ys := xs[0 := xs[0].(before := w + xs[0].before)];
      LedSlots(xs, w, ys, room);
      NothingBlank();
      sp := Listed([], ys);
    }
  }

  lemma {:induction false} LedSlots(xs: seq<Slot>, w: Bytes, ys: seq<Slot>, room: nat)
    requires xs != [] && Blank(w) && (forall i :: 0 <= i < |xs| ==> SlotOK(xs[i], room))
    requires ys == xs[0 := xs[0].(before := w + xs[0].before)]
    ensures (forall i :: 0 <= i < |ys| ==> SlotOK(ys[i], room)) && Items(ys) == Items(xs) && SpellSlots(ys) == SpellSlots(xs)
  {
    hide Blank, Spell, OK;
    BlankConcat(w, xs[0].before);
    assert ys[1..] == xs[1..];
  }

  lemma KeyIsSpelled(s: Bytes) returns (b: Bytes, q: seq<Piece>, x: Bytes, y: Bytes)
    requires JsonScan.Key(s).Got?
    ensures Blank(b) && Blank(x) && Blank(y) && TextOK(q) && PiecesMean(q) == JsonScan.Key(s).v
    ensures s[..JsonScan.Key(s).n] == b + QuotedText(q) + x + [COLON] + y
  {
    hide String, Spaces, Blank, TextOK, PiecesMean, QuotedText;
    var i := Spaces(s);
    SpacesAreBlank(s);
    q := StringIsQuoted(s[i..]);
    var k := String(s[i..]).n;
    SpacesAreBlank(s[i + k..]);
    var j := i + k + Spaces(s[i + k..]);
    SpacesAreBlank(s[j + 1..]);
    b, x, y := s[..i], s[i + k..][..j - i - k], s[j + 1..][..Spaces(s[j + 1..])];
    KeyPieces(s, i, k, j, Spaces(s[j + 1..]));
  }

  lemma {:induction false} EntryIsSpelled(s: Bytes, room: nat) returns (x: Field)
    requires Entry(s, room).Got?
    ensures var r := Entry(s, room);
            FieldOK(x, room) && Member(PiecesMean(x.key), Spell(x.value)) == r.v.0
            && s[..r.n] == x.before + SpellField(x) + [if r.v.1 then COMMA else RBRACE]
    decreases |s|, 0
  {
    hide Value, Separator, JsonScan.Key, Spell, Blank, TextOK, PiecesMean, QuotedText, OK;
    var b, q, x1, y := KeyIsSpelled(s);
    var c := JsonScan.Key(s).n;
    var v := ValueIsSpelled(s[c..], room);
    var n := Value(s[c..], room).n;
    var t := s[c + n..];
    SeparatorShape(t, RBRACE);
    var p := Separator(t, RBRACE).n;
    x := Field(b, q, x1, y, v, t[..p - 1]);
    ThreeParts(s, c, n, p);
    FieldParts(b, QuotedText(q), x1, y, Spell(v), t[..p - 1], if Separator(t, RBRACE).v then COMMA else RBRACE);
  }

  lemma {:induction false} MembersAreSpelled(s: Bytes, room: nat) returns (xs: seq<Field>)
    requires Members(s, room).Got?
    ensures xs != [] && (forall i :: 0 <= i < |xs| ==> FieldOK(xs[i], room)) && Pairs(xs) == Members(s, room).v
    ensures s[..Members(s, room).n] == xs[0].before + SpellFields(xs) + [RBRACE]
    decreases |s|, 1
  {
    hide Entry, FieldOK, SpellField, Spell, PiecesMean;
    var x := EntryIsSpelled(s, room);
    var n := Entry(s, room).n;
    if Entry(s, room).v.1 {
      var rest := MembersAreSpelled(s[n..], room);
      xs := [x] + rest;
      assert xs[1..] == rest;
      var q := Members(s[n..], room).n;
      assert s[..n + q] == s[..n] + s[n..][..q];
      assert SpellFields(xs) == SpellField(x) + ([COMMA] + rest[0].before + SpellFields(rest));
      Regroup(x.before, SpellField(x), rest[0].before, SpellFields(rest), RBRACE);
    } else {
      xs := [x];
      assert SpellField(x) + [] == SpellField(x);
    }
  }

  lemma {:induction false} LedFields(xs: seq<Field>, w: Bytes, ys: seq<Field>, room: nat)
    requires xs != [] && Blank(w) && (forall i :: 0 <= i < |xs| ==> FieldOK(xs[i], room))
    requires ys == xs[0 := xs[0].(before := w + xs[0].before)]
    ensures (forall i :: 0 <= i < |ys| ==> FieldOK(ys[i], room)) && Pairs(ys) == Pairs(xs) && SpellFields(ys) == SpellFields(xs)
  {
    hide Blank, Spell, OK, TextOK, PiecesMean, QuotedText;
    BlankConcat(w, xs[0].before);
    assert ys[1..] == xs[1..];
  }

  lemma {:induction false} ObjectIsSpelled(s: Bytes, room: nat) returns (sp: Spelling)
    requires s != [] && s[0] == LBRACE && Object(s, room).Got? && Distinct(Object(s, room).v)
    ensures OK(sp, room + 1) && Spell(sp) == s[..Object(s, room).n] && sp.Record? && Pairs(sp.fields) == Object(s, room).v
    decreases |s|, 1
  {
    hide Members, Spaces, SpellFields, Blank, FieldOK, PiecesMean;
    LeadingGap(s);
    var a := 1 + Spaces(s[1..]);
    var w := s[1..a];
    if a < |s| && s[a] == RBRACE {
      sp := Record(w, []);
      assert s[..a + 1] == [LBRACE] + w + [RBRACE];
    } else {
      var xs := MembersAreSpelled(s[a..], room);
      var n := Members(s[a..], room).n;
      ThenSpaces(s, w, xs[0].before, SpellFields(xs), a, n, RBRACE);
      var ys := xs[0 := xs[0].(before := w + xs[0].before)];
      LedFields(xs, w, ys, room);
      NothingBlank();
      sp := Record([], ys);
    }
  }

  // --------------------------------------------------------------------- numbers

  /**
   Of a number of the grammar, read as its digits times a power of ten: it is taken exactly when it
   is finite as a float and is no integer, or one of magnitude at most 2^53-1; where the exponent
   arithmetic leaves its 64 bits, exactly when it is not.
   */
  lemma NumbersExactly(n: NumberForm)
    requires FormOK(n) && |FormText(n)| <= 0x2000_0000_0000_0000
    ensures var p := Parts(n.whole, n.frac, ExponentValue(n.exp));
            var e := ExponentValue(n.exp) - |n.frac|;
            && AllDigits(n.whole + n.frac)
            && var d := ToNat(n.whole + n.frac);
               Accepts(FormText(n)) <==>
                 && (if e >= 0 then d * Pow10(e) < (Pow2(54) - 1) * Pow2(970) else d < (Pow2(54) - 1) * Pow2(970) * Pow10(-e))
                 && ((IsInteger(d, e) ==> IntegerValue(d, e) <= 9007199254740991) <==> Survives(p))
  {
    hide Numeral, FormText, Pow10, Pow2, ToNat, ReadNumber, Survives, Judge;
    assert FormText(n) + [] == FormText(n);
    FormReads(n, []);
    FormMeans(n);
    AcceptsExactly(FormText(n));
    assert DigitText(n.whole) by { WholeDigits(n.whole); }
    assert DigitText(n.whole + n.frac);
    DigitsOnly(n.whole + n.frac);
  }

  // ----------------------------------------------------------------- the theorem

  /** White space, a text of the domain nested at most 64 deep, and white space again. */
  ghost predicate SpeltAs(x: Bytes, before: Bytes, sp: Spelling, after: Bytes) {
    Blank(before) && OK(sp, 64) && Blank(after) && x == before + Spell(sp) + after
  }

  lemma SpeltIsStrict(x: Bytes, before: Bytes, sp: Spelling, after: Bytes)
    requires Utf8(x) && SpeltAs(x, before, sp, after)
    ensures Strict(x) && Spaces(x) == |before| && x[Spaces(x)..] == Spell(sp) + after
  {
    hide Value, Spell, OK, Spaces, Blank, White, Utf8;
    var e := Spell(sp);
    assert x == before + (e + after);
    SpellHead(sp, 64);
    BlankThen(before, e + after);
    BlankTail(after);
    SpellReads(sp, after, 64);
    assert x[|before| + |e|..] == after;
    AllBlank(after);
  }

  lemma StrictIsSpelt(x: Bytes) returns (before: Bytes, sp: Spelling, after: Bytes)
    requires Strict(x)
    ensures SpeltAs(x, before, sp, after)
  {
    hide Value, Spell, OK, Spaces, Blank, Utf8;
    var a := Spaces(x);
    SpacesAreBlank(x);
    sp := ValueIsSpelled(x[a..], 64);
    var n := Value(x[a..], 64).n;
    var rest := x[a + n..];
    SpacesAreBlank(rest);
    assert rest[..Spaces(rest)] == rest;
    assert x == x[..a] + x[a..][..n] + rest;
    before, after := x[..a], rest;
  }

  /** A payload is strict exactly when it is UTF-8 and spelt by the grammar within the domain's bounds. */
  lemma StrictExactly(x: Bytes)
    ensures Strict(x) <==> Utf8(x) && exists before, sp, after :: SpeltAs(x, before, sp, after)
  {
    hide Utf8, SpeltAs;
    if Strict(x) {
      var before, sp, after := StrictIsSpelt(x);
      StrictParts(x);
    }
    if Utf8(x) && exists before, sp, after :: SpeltAs(x, before, sp, after) {
      var before, sp, after :| SpeltAs(x, before, sp, after);
      SpeltIsStrict(x, before, sp, after);
    }
  }

  /** On a strict object objectMembers returns every key decoded with the text of its value, in order. */
  lemma MembersExactly(x: Bytes, before: Bytes, gap: Bytes, fields: seq<Field>, after: Bytes)
    requires Utf8(x) && SpeltAs(x, before, Record(gap, fields), after)
    ensures ObjectMembers(x).Got? && ObjectMembers(x).v == Pairs(fields)
  {
    hide Object, Spell, Spaces, Blank, Utf8, Strict, FieldOK, KeysDiffer;
    var sp := Record(gap, fields);
    SpeltIsStrict(x, before, sp, after);
    RecordStarts(gap, fields);
    assert x[Spaces(x)] == (Spell(sp) + after)[0];
    RecordReads(gap, fields, after, 63);
    ObjectRoom(x[Spaces(x)..], 63);
  }

  lemma RecordStarts(gap: Bytes, fields: seq<Field>)
    ensures Spell(Record(gap, fields)) != [] && Spell(Record(gap, fields))[0] == LBRACE
  {}

  lemma ListedStarts(gap: Bytes, slots: seq<Slot>)
    ensures Spell(Listed(gap, slots)) != [] && Spell(Listed(gap, slots))[0] == LBRACKET
  {}

  /** On a strict array arrayElements returns the text of every item, in order. */
  lemma ElementsExactly(x: Bytes, before: Bytes, gap: Bytes, slots: seq<Slot>, after: Bytes)
    requires Utf8(x) && SpeltAs(x, before, Listed(gap, slots), after)
    ensures ArrayElements(x).Got? && ArrayElements(x).v == Items(slots)
  {
    hide Array, Spell, Spaces, Blank, Utf8, Strict, SlotOK;
    var sp := Listed(gap, slots);
    SpeltIsStrict(x, before, sp, after);
    ListedStarts(gap, slots);
    assert x[Spaces(x)] == (Spell(sp) + after)[0];
    ListedReads(gap, slots, after, 63);
    ArrayRoom(x[Spaces(x)..], 63);
  }
}
