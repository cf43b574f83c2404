/** Numbers of the canonical JSON profile: the index loop that accepts one, and why a value has one spelling. */
module CanonNumbers {
  import opened Arith
  import opened ByteStrings
  import opened JsonScan
  import opened NumberDomain
  import opened NumberExact

  /** Section 6 of RFC 8259 without exponents, closing zeros of a fraction, or a negative zero. */
  predicate CanonNumber(s: Bytes) {
    && Numeral(s).Got? && Numeral(s).n == |s|
    && (forall i :: 0 <= i < |s| ==> s[i] != 0x65 && s[i] != 0x45 && s[i] != PLUS)
    && (DOT in s ==> s[|s| - 1] != ZERO)
    && s != [MINUS, ZERO]
  }

  // ----------------------------------------------------- the shape of a number

  function Whole(s: Bytes): (w: Bytes)
    ensures AllDigits(w)
  {
    var t := s[Sign(s)..];
    t[..Digits(t)]
  }

  function Fraction(s: Bytes): Bytes {
    var k := Sign(s) + |Whole(s)|;
    if k < |s| then s[k + 1..] else []
  }

  function Minus(negative: bool): Bytes {
    if negative then [MINUS] else []
  }

  function Dotted(frac: Bytes): Bytes {
    if frac == [] then [] else [DOT] + frac
  }

  ghost predicate Shape(s: Bytes, negative: bool, whole: Bytes, frac: Bytes) {
    && s == Minus(negative) + whole + Dotted(frac)
    && whole != [] && AllDigits(whole) && AllDigits(frac)
    && (whole == [ZERO] || whole[0] != ZERO)
    && (frac != [] ==> frac[|frac| - 1] != ZERO)
    && !(negative && whole == [ZERO] && frac == [])
  }

  lemma NumeralParts(s: Bytes)
    requires CanonNumber(s)
    ensures var g := Sign(s);
            IntPart(s[g..]).Got? && FracPart(s[g + IntPart(s[g..]).n..]).Got?
            && g + IntPart(s[g..]).n + FracPart(s[g + IntPart(s[g..]).n..]).n == |s|
  {
    hide IntPart, FracPart, Digits;
    var k := Sign(s) + IntPart(s[Sign(s)..]).n;
    PastInt(s, k);
  }

  lemma IntShape(t: Bytes)
    requires IntPart(t).Got?
    ensures var w := t[..Digits(t)];
            |w| == IntPart(t).n && w != [] && AllDigits(w) && (w == [ZERO] || w[0] != ZERO)
  {
    IntReads(t);
    if t[0] == ZERO { assert t[..1] == [ZERO]; }
  }

  lemma FracShape(u: Bytes)
    requires FracPart(u).Got? && FracPart(u).n == |u|
    ensures u != [] ==> u == Dotted(u[1..]) && AllDigits(u[1..]) && u[1..] != [] && u[0] == DOT
  {
    if u != [] { assert u == [DOT] + u[1..]; }
  }

  lemma Pieces(s: Bytes)
    ensures var g, w := Sign(s), Whole(s);
            s == s[..g] + w + s[g + |w|..] && s[..g] == Minus(g == 1) && g + |w| <= |s|
  {
    hide Digits, AllDigits, ToNat;
    var g := Sign(s);
    assert s[g..] == Whole(s) + s[g..][|Whole(s)|..];
    assert s[g..][|Whole(s)|..] == s[g + |Whole(s)|..];
    assert s == s[..g] + s[g..];
    if g == 1 { assert s[..1] == [MINUS]; }
  }

  lemma FractionIs(s: Bytes)
    ensures var k := Sign(s) + |Whole(s)|;
            k <= |s| && (s[k..] != [] ==> Fraction(s) == s[k..][1..]) && (s[k..] == [] ==> Fraction(s) == [])
  {
    Pieces(s);
  }

  lemma LastByte(s: Bytes, a: Bytes, u: Bytes)
    requires s == a + u && u != [] && u[0] == DOT
    ensures DOT in s && s[|s| - 1] == u[|u| - 1]
  {
    assert s[|a|] == DOT;
  }

  lemma CanonHasShape(s: Bytes)
    requires CanonNumber(s)
    ensures Shape(s, Sign(s) == 1, Whole(s), Fraction(s))
  {
    hide Digits, IntPart, FracPart, Numeral, Dotted, Whole, Fraction, AllDigits;
    var g, w := Sign(s), Whole(s);
    Pieces(s);
    FractionIs(s);
    var u := s[g + |w|..];
    WholeShape(s);
    NumeralParts(s);
    FracShape(u);
    if u != [] {
      LastByte(s, s[..g] + w, u);
    } else {
      DottedNothing();
      NoDigits();
    }
  }

  lemma WholeShape(s: Bytes)
    requires CanonNumber(s)
    ensures var w := Whole(s);
            |w| == IntPart(s[Sign(s)..]).n && w != [] && AllDigits(w) && (w == [ZERO] || w[0] != ZERO)
  {
    hide IntPart, FracPart, Digits;
    NumeralParts(s);
    IntShape(s[Sign(s)..]);
  }

  lemma NoDigits()
    ensures AllDigits([])
  {}

  lemma DottedNothing()
    ensures Dotted([]) == []
  {}

  // ----------------------------------------------------------- the index loop

  method SkipDigits(s: Bytes, from: nat) returns (i: nat)
    requires from <= |s|
    ensures i == from + Digits(s[from..])
  {
    i := from;
    while i < |s| && IsDigit(s[i])
      invariant from <= i <= |s|
      invariant Digits(s[from..]) == i - from + Digits(s[i..])
    {
      assert s[i..][1..] == s[i + 1..];
      i := i + 1;
    }
  }

  method HasExponentByte(s: Bytes) returns (found: bool)
    ensures found <==> exists i :: 0 <= i < |s| && (s[i] == 0x65 || s[i] == 0x45 || s[i] == PLUS)
  {
    var i := 0;
    while i < |s|
      invariant 0 <= i <= |s|
      invariant forall k :: 0 <= k < i ==> s[k] != 0x65 && s[k] != 0x45 && s[k] != PLUS
    {
      if s[i] == 0x65 || s[i] == 0x45 || s[i] == PLUS { return true; }
      i := i + 1;
    }
    return false;
  }

  predicate NoExponent(s: Bytes) {
    forall i :: 0 <= i < |s| ==> s[i] != 0x65 && s[i] != 0x45 && s[i] != PLUS
  }

  lemma NoInt(s: Bytes)
    requires IntPart(s[Sign(s)..]).Fail?
    ensures !CanonNumber(s)
  {}

  /** What remains to be asked once the integer digits end at i. */
  lemma PastInt(s: Bytes, i: nat)
    requires NoExponent(s) && i <= |s| && IntPart(s[Sign(s)..]).Got? && i == Sign(s) + IntPart(s[Sign(s)..]).n
    ensures CanonNumber(s) <==> FracPart(s[i..]).Got? && i + FracPart(s[i..]).n == |s|
                                && (DOT in s ==> s[|s| - 1] != ZERO) && s != [MINUS, ZERO]
  {
    hide IntPart, FracPart, Digits;
    var f := FracPart(s[i..]);
    if f.Got? {
      var e := s[i + f.n..];
      if e != [] { assert e[0] == s[i + f.n]; }
    }
  }

  lemma NoDot(s: Bytes)
    requires IntPart(s[Sign(s)..]).Got? && Sign(s) + IntPart(s[Sign(s)..]).n == |s|
    ensures DOT !in s
  {
    IntReads(s[Sign(s)..]);
    assert forall i :: Sign(s) <= i < |s| ==> s[i] == s[Sign(s)..][i - Sign(s)];
  }

  method IntDigits(s: Bytes, start: nat) returns (i: nat, ok: bool)
    requires start < |s|
    ensures ok <==> IntPart(s[start..]).Got?
    ensures ok ==> i == start + IntPart(s[start..]).n <= |s|
  {
    i := start;
    if s[i] == ZERO {
      i := i + 1;
      return i, !(i < |s| && IsDigit(s[i]));
    } else if IsDigit(s[i]) {
      i := SkipDigits(s, i);
      return i, true;
    }
    return i, false;
  }

  /** canonicalNumberOK. */
  method CanonicalNumberOK(s: Bytes) returns (ok: bool)
    ensures ok <==> CanonNumber(s)
  {
    hide Digits, Numeral, CanonNumber, IntPart, FracPart;
    var exponent := HasExponentByte(s);
    if s == [] || exponent {
      NotCanon(s);
      return false;
    }
    var start, negative := 0, false;
    if s[start] == MINUS {
      negative := true;
      start := start + 1;
      if start == |s| {
        BareMinus(s);
        return false;
      }
    }
    var i, good := IntDigits(s, start);
    if !good {
      NoInt(s);
      return false;
    }
    PastInt(s, i);
    FracForm(s[i..]);
    if i < |s| && s[i] == DOT {
      i := i + 1;
      assert s[i - 1..][1..] == s[i..];
      if i == |s| || !IsDigit(s[i]) {
        NoRun(s[i..]);
        return false;
      }
      SomeRun(s[i..]);
      i := SkipDigits(s, i);
      return s[i - 1] != ZERO && i == |s|;
    }
    if i != |s| {
      return false;
    }
    NoDot(s);
    assert s == s[..start] + s[start..i];
    return !(negative && s[start..i] == [ZERO]);
  }

  lemma NotCanon(s: Bytes)
    requires s == [] || !NoExponent(s)
    ensures !CanonNumber(s)
  {}

  lemma BareMinus(s: Bytes)
    requires s == [MINUS]
    ensures !CanonNumber(s)
  {
    assert s[1..] == [];
  }

  lemma FracForm(u: Bytes)
    ensures u == [] || u[0] != DOT ==> FracPart(u) == Got(0, ())
    ensures u != [] && u[0] == DOT ==> FracPart(u) == if Digits(u[1..]) == 0 then Fail else Got(1 + Digits(u[1..]), ())
  {}

  lemma NoRun(u: Bytes)
    requires u == [] || !IsDigit(u[0])
    ensures Digits(u) == 0
  {}

  lemma SomeRun(u: Bytes)
    requires u != [] && IsDigit(u[0])
    ensures Digits(u) > 0
  {}

  // ----------------------------------------------- one value, one spelling

  /** The digits of a number, its sign and its decimal places, as an integer and a power of ten. */
  function Units(s: Bytes): int
    requires AllDigits(Fraction(s))
  {
    if Sign(s) == 1 then -(ToNat(Whole(s) + Fraction(s)) as int) else ToNat(Whole(s) + Fraction(s))
  }

  /** Two numbers name the same decimal. */
  ghost predicate SameDecimal(a: Bytes, b: Bytes)
    requires AllDigits(Fraction(a)) && AllDigits(Fraction(b))
  {
    Units(a) * Pow10(|Fraction(b)|) == Units(b) * Pow10(|Fraction(a)|)
  }

  lemma {:induction false} SameLengthSameDigits(a: Bytes, b: Bytes)
    requires AllDigits(a) && AllDigits(b) && |a| == |b| && ToNat(a) == ToNat(b)
    ensures a == b
  {
    if a != [] {
      var m, n := |a| - 1, |b| - 1;
      SameLengthSameDigits(a[..m], b[..n]);
      assert a == a[..m] + [a[m]] && b == b[..n] + [b[n]];
    }
  }

  lemma NoLongerThan(a: Bytes, b: Bytes)
    requires a != [] && AllDigits(a) && AllDigits(b) && a[0] != ZERO && ToNat(a) == ToNat(b)
    ensures |a| <= |b|
  {
    hide ToNat, Pow10;
    ToNatLeading(a);
    ToNatBound(b);
    if |a| - 1 >= |b| { PowMono(|b|, |a| - 1); }
  }

  lemma SameWhole(a: Bytes, b: Bytes)
    requires a != [] && b != [] && AllDigits(a) && AllDigits(b) && ToNat(a) == ToNat(b)
    requires (a == [ZERO] || a[0] != ZERO) && (b == [ZERO] || b[0] != ZERO)
    ensures a == b
  {
    hide ToNat, Pow10;
    if a[0] != ZERO { NoLongerThan(a, b); }
    if b[0] != ZERO { NoLongerThan(b, a); }
    SameLengthSameDigits(a, b);
  }

  /** As many decimal places, and the same digits read as one integer, make the same text. */
  lemma SameParts(a: Bytes, b: Bytes)
    requires CanonNumber(a) && CanonNumber(b) && |Fraction(a)| == |Fraction(b)|
    requires AllDigits(Fraction(a)) && AllDigits(Fraction(b)) && Sign(a) == Sign(b)
    requires ToNat(Whole(a) + Fraction(a)) == ToNat(Whole(b) + Fraction(b))
    ensures a == b
  {
    hide ToNat, Pow10, CanonNumber, Whole, Fraction;
    CanonHasShape(a);
    CanonHasShape(b);
    var p := Pow10(|Fraction(a)|);
    ToNatConcat(Whole(a), Fraction(a));
    ToNatConcat(Whole(b), Fraction(b));
    ToNatBound(Fraction(a));
    ToNatBound(Fraction(b));
    DivideUnique(ToNat(Whole(a) + Fraction(a)), p, ToNat(Whole(a)), ToNat(Fraction(a)));
    DivideUnique(ToNat(Whole(a) + Fraction(a)), p, ToNat(Whole(b)), ToNat(Fraction(b)));
    SameWhole(Whole(a), Whole(b));
    SameLengthSameDigits(Fraction(a), Fraction(b));
  }

  /** Only "0" names zero. */
  lemma OnlyZero(s: Bytes)
    requires CanonNumber(s) && AllDigits(Fraction(s)) && ToNat(Whole(s) + Fraction(s)) == 0
    ensures s == [ZERO]
  {
    hide ToNat, Pow10, CanonNumber, Whole, Fraction;
    CanonHasShape(s);
    var d := Whole(s) + Fraction(s);
    if Fraction(s) != [] {
      ToNatTrailing(d);
      assert false;
    }
    assert d == Whole(s);
    if d[0] != ZERO {
      ToNatLeading(d);
      assert false;
    }
  }

  /** With more places, the digits would have to end in a zero. */
  lemma NoMorePlaces(a: Bytes, b: Bytes)
    requires CanonNumber(a) && AllDigits(Fraction(a)) && AllDigits(Fraction(b))
    requires ToNat(Whole(a) + Fraction(a)) * Pow10(|Fraction(b)|) == ToNat(Whole(b) + Fraction(b)) * Pow10(|Fraction(a)|)
    ensures |Fraction(a)| <= |Fraction(b)|
  {
    hide ToNat, Pow10, CanonNumber, Whole, Fraction;
    var m, n := |Fraction(a)|, |Fraction(b)|;
    if m > n {
      CanonHasShape(a);
      var x, y := ToNat(Whole(a) + Fraction(a)), ToNat(Whole(b) + Fraction(b));
      ToNatTrailing(Whole(a) + Fraction(a));
      PowSum(m - n, n);
      MulSwap(y, Pow10(m - n), Pow10(n));
      MulCancel(x, y * Pow10(m - n), Pow10(n));
      TenDivides(m - n, y);
      assert false;
    }
  }

  lemma TimesTen(x: int)
    ensures (x * 10) % 10 == 0
  {}

  lemma TenDivides(k: nat, y: nat)
    requires k > 0
    ensures (y * Pow10(k)) % 10 == 0
  {
    assert Pow10(k) == 10 * Pow10(k - 1);
    hide Pow10;
    MulSwap(y, 10, Pow10(k - 1));
    TimesTen(y * Pow10(k - 1));
  }

  lemma SignOfProduct(a: int, p: nat)
    requires p > 0
    ensures (a > 0 <==> a * p > 0) && (a < 0 <==> a * p < 0)
  {
    if a > 0 { MulLe(1, a, p); } else if a < 0 { MulLe(a, -1, p); }
  }

  lemma NegateProduct(a: int, p: int)
    ensures (-a) * p == -(a * p)
  {}

  /** Every decimal value has at most one accepted spelling. */
  lemma OneSpelling(a: Bytes, b: Bytes)
    requires CanonNumber(a) && CanonNumber(b)
    ensures AllDigits(Fraction(a)) && AllDigits(Fraction(b))
    ensures SameDecimal(a, b) ==> a == b
  {
    hide ToNat, Pow10, CanonNumber, Whole, Fraction;
    CanonHasShape(a);
    CanonHasShape(b);
    if SameDecimal(a, b) {
      var x, y := ToNat(Whole(a) + Fraction(a)), ToNat(Whole(b) + Fraction(b));
      var p, q := Pow10(|Fraction(b)|), Pow10(|Fraction(a)|);
      SignOfProduct(Units(a), p);
      SignOfProduct(Units(b), q);
      if x == 0 || y == 0 {
        if x == 0 { OnlyZero(a); }
        if y == 0 { OnlyZero(b); }
      } else {
        NegateProduct(x, p);
        NegateProduct(y, q);
        assert x * p == y * q;
        NoMorePlaces(a, b);
        NoMorePlaces(b, a);
        MulCancel(x, y, p);
        SameParts(a, b);
      }
    }
  }
}
