/** How the scanners' smallest pieces read the texts of the grammar: blanks, escapes and numbers. */
module GrammarScans {
  import opened ByteStrings
  import opened JsonGrammar
  import opened JsonLocality
  import opened JsonScan
  import opened NumberDomain
  import NumberEdges

  // ----------------------------------------------------------------- white space

  lemma {:induction false} BlankThen(w: Bytes, u: Bytes)
    requires Blank(w) && (u == [] || !White(u[0]))
    ensures Spaces(w + u) == |w| && (w + u)[|w|..] == u
  {
    if w == [] {
      assert w + u == u;
    } else {
      assert (w + u)[1..] == w[1..] + u;
      BlankThen(w[1..], u);
    }
  }

  lemma {:induction false} AllBlank(w: Bytes)
    requires Blank(w)
    ensures Spaces(w) == |w|
  {
    BlankThen(w, []);
    assert w + [] == w;
  }

  lemma SpacesAreBlank(s: Bytes)
    ensures Blank(s[..Spaces(s)]) && (Spaces(s) < |s| ==> !White(s[Spaces(s)]))
  {}

  lemma BlankConcat(a: Bytes, b: Bytes)
    requires Blank(a) && Blank(b)
    ensures Blank(a + b)
  {
    hide White;
  }

  lemma NothingBlank()
    ensures Blank([])
  {}

  /** A byte that prolongs no number. */
  predicate Follows(t: Bytes) {
    t == [] || !Prolongs(t[0])
  }

  lemma BlankFollows(w: Bytes, c: byte, t: Bytes)
    requires Blank(w) && (c == COMMA || c == RBRACE || c == RBRACKET)
    ensures Follows(w + [c] + t)
  {
    if w == [] { assert w + [c] + t == [c] + t; }
  }

  lemma BlankTail(w: Bytes)
    requires Blank(w)
    ensures Follows(w)
  {}

  lemma SeparatorAfter(w: Bytes, c: byte, closing: byte, t: Bytes)
    requires Blank(w) && (closing == RBRACE || closing == RBRACKET) && (c == COMMA || c == closing)
    ensures Separator(w + [c] + t, closing) == Got(|w| + 1, c == COMMA)
  {
    hide Spaces;
    assert w + [c] + t == w + ([c] + t);
    BlankThen(w, [c] + t);
  }

  lemma SeparatorShape(s: Bytes, closing: byte)
    requires Separator(s, closing).Got?
    ensures var r := Separator(s, closing);
            r.n > 0 && Blank(s[..r.n - 1]) && s[..r.n] == s[..r.n - 1] + [if r.v then COMMA else closing]
  {
    hide Spaces;
    SpacesAreBlank(s);
  }

  // --------------------------------------------------------------------- strings

  lemma HexDigitReads(c: byte)
    ensures HexDigit(c).Got? <==> HexByte(c)
    ensures HexByte(c) ==> HexDigit(c) == Got(1, HexWorth(c))
  {}

  /** Four hexadecimal digits are read as the number they stand for, and nothing else is read. */
  lemma HexReads(s: Bytes)
    ensures Hex4(s).Got? <==> |s| >= 4 && HexFour(s[..4])
    ensures Hex4(s).Got? ==> Hex4(s) == Got(4, HexMeans(s[..4]))
  {
    if |s| >= 4 {
      hide HexDigit;
      HexDigitReads(s[0]);
      HexDigitReads(s[1]);
      HexDigitReads(s[2]);
      HexDigitReads(s[3]);
      assert HexPrefix(s, 1) == if HexByte(s[0]) then Got(1, HexWorth(s[0])) else Fail;
      assert HexPrefix(s, 2) == if HexByte(s[0]) && HexByte(s[1]) then Got(2, 16 * HexWorth(s[0]) + HexWorth(s[1])) else Fail;
      assert HexPrefix(s, 3).Got? <==> HexByte(s[0]) && HexByte(s[1]) && HexByte(s[2]);
    }
  }

  lemma HexAgain(h: Bytes, u: Bytes)
    requires HexFour(h)
    ensures Hex4(h + u) == Got(4, HexMeans(h))
  {
    hide HexMeans, Hex4;
    assert (h + u)[..4] == h;
    HexReads(h + u);
  }

  lemma JoinedReads(hi: nat, lo: nat)
    requires HighHalf(hi) && LowHalf(lo)
    ensures JsonScan.Pair(hi, lo) == Joined(hi, lo)
  {}

  lemma LetterReads(c: byte, u: Bytes)
    requires LetterMeans(c) != []
    ensures Escape([BACKSLASH, c] + u).Got? && Escape([BACKSLASH, c] + u).n == 2
    ensures Encode(Escape([BACKSLASH, c] + u).v) == LetterMeans(c)
  {
    hide UnicodeEscape;
    assert ([BACKSLASH, c] + u)[1] == c;
  }

  lemma LetterShape(s: Bytes)
    requires |s| >= 2 && s[0] == BACKSLASH && s[1] != 0x75 && Escape(s).Got?
    ensures Escape(s).n == 2 && LetterMeans(s[1]) == Encode(Escape(s).v) && LetterMeans(s[1]) != []
    ensures s[..2] == PieceText(Letter(s[1]))
  {
    hide UnicodeEscape;
  }

  // --------------------------------------------------------------------- numbers

  lemma DigitsOnly(d: Bytes)
    ensures DigitText(d) <==> AllDigits(d)
  {}

  lemma WholeReads(w: Bytes, r: Bytes)
    requires WholeOK(w) && (r == [] || !IsDigit(r[0]))
    ensures IntPart(w + r).Got? && IntPart(w + r).n == |w| && Digits(w + r) == |w|
    ensures (w + r)[..|w|] == w && (w + r)[|w|..] == r && Sign(w + r) == 0
  {
    NumberEdges.RunOfDigits(w, r);
  }

  lemma WholeShape(s: Bytes)
    requires IntPart(s).Got?
    ensures var w := s[..IntPart(s).n]; WholeOK(w)
  {
    if s[0] == ZERO { assert s[..1] == [ZERO]; }
  }

  lemma FractionReads(frac: Bytes, r: Bytes)
    requires DigitText(frac) && (r == [] || (!IsDigit(r[0]) && r[0] != DOT))
    ensures var f := FractionText(frac);
            && FracPart(f + r).Got? && FracPart(f + r).n == |f| && (f + r)[|f|..] == r
            && ReadFrac(f + r) == (frac, r)
  {
    var f := FractionText(frac);
    if frac == [] {
      assert f + r == r;
    } else {
      assert (f + r)[1..] == frac + r;
      NumberEdges.RunOfDigits(frac, r);
      assert (frac + r)[..|frac|] == frac && (frac + r)[|frac|..] == r;
    }
  }

  lemma FractionShape(s: Bytes) returns (frac: Bytes)
    requires FracPart(s).Got?
    ensures DigitText(frac) && s[..FracPart(s).n] == FractionText(frac)
  {
    var n := FracPart(s).n;
    if n == 0 {
      frac := [];
    } else {
      frac := s[1..][..n - 1];
      assert s[..n] == [DOT] + frac;
    }
  }

  /** The exponent a tree's exponent part stands for. */
  function ExponentValue(x: Exponent): int
    requires ExponentOK(x)
  {
    match x
    case Unscaled => 0
    case Scaled(_, sign, digits) => if sign == [0x2D] then -(ToNat(digits) as int) else ToNat(digits)
  }

  lemma ExponentHead(x: Exponent, r: Bytes)
    requires ExponentOK(x) && Follows(r)
    ensures var t := ExponentText(x) + r; t == [] || (!IsDigit(t[0]) && t[0] != DOT)
  {
    if x.Unscaled? { assert ExponentText(x) + r == r; }
  }

  lemma ExponentReads(x: Exponent, r: Bytes)
    requires ExponentOK(x) && Follows(r)
    ensures var t := ExponentText(x); ExpPart(t + r).Got? && ExpPart(t + r).n == |t|
  {
    var t := ExponentText(x);
    if x.Unscaled? {
      assert t + r == r;
    } else {
      hide Digits, ExponentText, ExponentOK;
      ScaledParts(x, r);
      NumberEdges.RunOfDigits(x.digits, r);
    }
  }

  /** Where the digits of an exponent part begin: after its letter and its sign. */
  lemma ScaledParts(x: Exponent, r: Bytes)
    requires ExponentOK(x) && x.Scaled?
    ensures var u := ExponentText(x) + r;
            var g := 1 + |x.sign|;
            && (u[0] == 0x65 || u[0] == 0x45) && |u| > 1 && g <= 2 && x.digits != [] && AllDigits(x.digits)
            && (g == 2 <==> u[1] == PLUS || u[1] == MINUS) && (u[1] == MINUS <==> x.sign == [0x2D])
            && u[g..] == x.digits + r && u[1..][g - 1..] == x.digits + r && |ExponentText(x)| == g + |x.digits|
  {
    var u := ExponentText(x) + r;
    var g := 1 + |x.sign|;
    assert u == [x.e] + x.sign + (x.digits + r);
  }

  lemma ExponentMeans(x: Exponent)
    requires ExponentOK(x)
    ensures ReadExp(ExponentText(x)) == (true, ExponentValue(x))
  {
    if x.Scaled? {
      hide Digits, ExponentText, ExponentOK, ToNat;
      ScaledParts(x, []);
      assert ExponentText(x) + [] == ExponentText(x) && x.digits + [] == x.digits;
      NumberEdges.RunOfDigits(x.digits, []);
    }
  }

  lemma ExponentShape(s: Bytes) returns (x: Exponent)
    requires ExpPart(s).Got?
    ensures ExponentOK(x) && s[..ExpPart(s).n] == ExponentText(x)
  {
    var n := ExpPart(s).n;
    if n == 0 {
      x := Unscaled;
    } else {
      var g := if |s| > 1 && (s[1] == PLUS || s[1] == MINUS) then 2 else 1;
      x := Scaled(s[0], s[1..g], s[g..][..n - g]);
      assert s[..n] == [s[0]] + s[1..g] + s[g..][..n - g];
    }
  }

  lemma FormSplits(n: NumberForm, t: Bytes)
    ensures var g := if n.minus then 1 else 0;
            var s, f, x := FormText(n) + t, FractionText(n.frac), ExponentText(n.exp);
            && g <= |s| && s[g..] == n.whole + (f + (x + t))
            && (n.minus ==> s[0] == 0x2D) && (!n.minus ==> s == n.whole + (f + (x + t)))
            && |FormText(n)| == g + |n.whole| + |f| + |x|
  {}

  lemma FractionHead(frac: Bytes, r: Bytes)
    requires r == [] || !IsDigit(r[0])
    ensures var t := FractionText(frac) + r; t == [] || !IsDigit(t[0])
  {
    if frac == [] { assert FractionText(frac) + r == r; }
  }

  /** A number of the grammar is taken whole, whatever follows it that does not prolong it. */
  lemma FormReads(n: NumberForm, t: Bytes)
    requires FormOK(n) && Follows(t)
    ensures Numeral(FormText(n) + t).Got? && Numeral(FormText(n) + t).n == |FormText(n)|
  {
    hide IntPart, FracPart, ExpPart, FormText, FractionText, ExponentText, Digits, WholeOK, ExponentOK, DigitText, Numeral, ReadFrac;
    var s, f, x := FormText(n) + t, FractionText(n.frac), ExponentText(n.exp);
    var g := if n.minus then 1 else 0;
    FormSplits(n, t);
    ExponentHead(n.exp, t);
    FractionHead(n.frac, x + t);
    WholeReads(n.whole, f + (x + t));
    FractionReads(n.frac, x + t);
    ExponentReads(n.exp, t);
    AfterParts(s, g, n.whole, f, x + t);
    SignAt(s, n.whole + (f + (x + t)), n.minus);
    NumeralAt(s, g, |n.whole|, |f|, |x|);
  }

  lemma SignAt(s: Bytes, r: Bytes, minus: bool)
    requires if minus then s != [] && s[0] == MINUS else s == r && Sign(r) == 0
    ensures Sign(s) == if minus then 1 else 0
  {}

  lemma NumeralAt(s: Bytes, g: nat, i: nat, f: nat, e: nat)
    requires g + i + f + e <= |s| && Sign(s) == g
    requires IntPart(s[g..]).Got? && IntPart(s[g..]).n == i
    requires FracPart(s[g + i..]).Got? && FracPart(s[g + i..]).n == f
    requires ExpPart(s[g + i + f..]).Got? && ExpPart(s[g + i + f..]).n == e
    ensures Numeral(s).Got? && Numeral(s).n == g + i + f + e
  {
    hide IntPart, FracPart, ExpPart;
  }

  lemma AfterParts(s: Bytes, g: nat, w: Bytes, f: Bytes, r: Bytes)
    requires g <= |s| && s[g..] == w + (f + r)
    ensures |s| == g + |w| + |f| + |r| && s[g + |w|..] == f + r && s[g + |w| + |f|..] == r
  {
    assert s[g + |w|..] == s[g..][|w|..];
  }

  /** Whatever is taken as a number is one of the grammar. */
  lemma NumeralIsForm(s: Bytes) returns (n: NumberForm)
    requires Numeral(s).Got?
    ensures FormOK(n) && FormText(n) == s[..Numeral(s).n]
  {
    hide IntPart, FracPart, ExpPart, FractionText, ExponentText, WholeOK;
    var g := Sign(s);
    var i := IntPart(s[g..]).n;
    WholeShape(s[g..]);
    var frac := FractionShape(s[g + i..]);
    var f := FracPart(s[g + i..]).n;
    var x := ExponentShape(s[g + i + f..]);
    var e := ExpPart(s[g + i + f..]).n;
    WholeDigits(s[g..][..i]);
    n := NumberForm(g == 1, s[g..][..i], frac, x);
    FourParts(s, g, i, f, e);
  }

  lemma WholeDigits(w: Bytes)
    requires WholeOK(w)
    ensures DigitText(w)
  {}

  lemma FourParts(s: Bytes, g: nat, i: nat, f: nat, e: nat)
    requires g + i + f + e <= |s| && g == Sign(s)
    ensures s[..g + i + f + e] == (if g == 1 then [0x2D] else []) + s[g..][..i] + s[g + i..][..f] + s[g + i + f..][..e]
  {
    assert s[..g + i + f + e] == s[..g] + s[g..][..i] + s[g + i..][..f] + s[g + i + f..][..e];
  }

  /** splitNumber's reading of a number of the grammar: its digits, and the exponent with its sign. */
  lemma FormMeans(n: NumberForm)
    requires FormOK(n)
    ensures ReadNumber(FormText(n)) == Read(Parts(n.whole, n.frac, ExponentValue(n.exp)))
  {
    hide ReadFrac, ReadExp, FormText, FractionText, ExponentText, Digits, ToNat;
    var s, f, x := FormText(n), FractionText(n.frac), ExponentText(n.exp);
    var g := if n.minus then 1 else 0;
    FormSplits(n, []);
    assert s + [] == s && x + [] == x;
    ExponentHead(n.exp, []);
    FractionHead(n.frac, x);
    WholeReads(n.whole, f + x);
    FractionReads(n.frac, x);
    ExponentMeans(n.exp);
  }

  // ------------------------------------------------------- texts cut into their parts

  lemma KeySlices(w: Bytes, q: Bytes, x: Bytes, y: Bytes, u: Bytes)
    ensures var s, c := w + (q + x + [COLON] + y) + u, x + ([COLON] + (y + u));
            var b := |w| + |q| + |x|;
            && s == w + (q + c) && s[|w|..] == q + c && s[|w| + |q|..] == c
            && b < |s| && s[b] == COLON && s[b + 1..] == y + u && s[b + 1 + |y|..] == u
  {}

  lemma FieldSlices(w: Bytes, k: Bytes, v: Bytes, a: Bytes, c: byte, t: Bytes)
    ensures var all, u := w + (k + v + a) + [c] + t, a + [c] + t;
            && all == w + k + (v + u) && all[|w| + |k|..] == v + u && all[|w| + |k| + |v|..] == u
            && all[|w| + |k|..|w| + |k| + |v|] == v
  {}

  lemma ThreeParts(s: Bytes, c: nat, n: nat, p: nat)
    requires c + n + p <= |s|
    ensures s[..c + n + p] == s[..c] + s[c..][..n] + s[c + n..][..p] && s[c..c + n] == s[c..][..n]
  {}

  lemma Regroup(a: Bytes, b: Bytes, c: Bytes, d: Bytes, e: byte)
    ensures (a + b + [COMMA]) + (c + d + [e]) == a + (b + ([COMMA] + c + d)) + [e]
  {}

  /** White space before the first item belongs to it. */
  lemma ThenSpaces(s: Bytes, w: Bytes, b: Bytes, c: Bytes, a: nat, n: nat, e: byte)
    requires 1 <= a && a + n <= |s| && w == s[1..a] && s[a..][..n] == b + c + [e]
    ensures s[..a + n] == [s[0]] + (w + b + c) + [e]
  {
    assert s[..a + n] == [s[0]] + s[1..a] + s[a..][..n];
  }

  lemma LeadingGap(s: Bytes)
    requires s != []
    ensures Blank(s[1..1 + Spaces(s[1..])])
  {
    SpacesAreBlank(s[1..]);
    assert s[1..1 + Spaces(s[1..])] == s[1..][..Spaces(s[1..])];
  }

  lemma KeyPieces(s: Bytes, i: nat, k: nat, j: nat, m: nat)
    requires i + k <= j < |s| && j + 1 + m <= |s| && s[j] == COLON
    ensures s[..j + 1 + m] == s[..i] + s[i..][..k] + s[i + k..][..j - i - k] + [COLON] + s[j + 1..][..m]
  {}

  lemma FieldParts(b: Bytes, q: Bytes, x: Bytes, y: Bytes, v: Bytes, w: Bytes, e: byte)
    ensures (b + q + x + [COLON] + y) + v + (w + [e]) == b + (q + x + [COLON] + y + v + w) + [e]
  {}

  lemma FormHead(n: NumberForm, t: Bytes)
    requires FormOK(n)
    ensures FormText(n) != [] && (FormText(n) + t)[0] == FormText(n)[0]
    ensures FormText(n)[0] == MINUS || IsDigit(FormText(n)[0])
  {
    FormSplits(n, []);
  }

  lemma ClosersAreNoSpace()
    ensures !White(RBRACKET) && !White(RBRACE) && !White(COLON) && !White(QUOTE)
  {}

  lemma {:induction false} FieldsHead(fields: seq<Field>)
    requires fields != []
    ensures SpellFields(fields) != [] && SpellFields(fields)[0] == QUOTE
  {
    hide Spell, PiecesText;
  }

  lemma SameWords()
    ensures TRUE == WORD_TRUE && FALSE == WORD_FALSE && NULL == WORD_NULL
  {}
}
