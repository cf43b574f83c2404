/** Where the digit test's exponent arithmetic runs out of its 64 bits: the inputs, as the scanner receives them. */
module NumberEdges {
  import opened ByteStrings
  import opened JsonScan
  import opened NumberDomain
  import opened NumberExact

  const MIN_INT: int := -(INT_LIMIT as int)

  /**
   A finite number reaches the loop that pads its text with about 2^63 zeros exactly when
   its scale lies below the least int by no more than it has significant digits.
   */
  lemma {:induction false} ExhaustedExactly(p: Parts)
    requires AllDigits(DigitsOf(p)) && Finite(p) && FitsInt(p.exp) && |DigitsOf(p)| <= INT_LIMIT / 4
    ensures var s, e := Significant(DigitsOf(p)), Scale(p) + Shift(DigitsOf(p));
            JudgeParts(p).Exhausted? <==> s != [] && MIN_INT - |s| <= e < MIN_INT
  {
    hide Pow10, ToNat, Significant, Shift, Finite, AtMost;
    var s, e := Significant(DigitsOf(p)), Scale(p) + Shift(DigitsOf(p));
    WithinDigits(DigitsOf(p));
    WrapInRange(e);
    if s != [] && e >= 0 {
      FiniteHasFewDigits(p);
      SumWraps(|s|, e);
    } else if s != [] && e < MIN_INT {
      SumWraps(|s|, Wrap(e));
    }
  }

  lemma WithinDigits(d: Bytes)
    ensures |Significant(d)| + Shift(d) <= |d|
  {
    SignificantParts(d);
  }

  /** Below the least int, and below twice the greatest, one turn of wrapping is all there is. */
  lemma WrapOnce(x: int)
    ensures 3 * MIN_INT <= x < MIN_INT ==> Wrap(x) == x + 2 * INT_LIMIT
    ensures FitsInt(x) ==> Wrap(x) == x
    ensures INT_LIMIT <= x < 2 * INT_LIMIT + INT_LIMIT ==> Wrap(x) == x - 2 * INT_LIMIT
  {}

  lemma SumWraps(n: nat, e: int)
    requires FitsInt(e) && e >= 0 && n <= INT_LIMIT / 4
    ensures Wrap(n + e) == if n + e < INT_LIMIT then n + e else n + e - 2 * INT_LIMIT
  {
    WrapOnce(n + e);
  }

  // ------------------------------------------------------------- two such tokens

  /** 2^63 in decimal. */
  const LIMIT_TEXT: Bytes := [0x39, 0x32, 0x32, 0x33, 0x33, 0x37, 0x32, 0x30, 0x33, 0x36, 0x38, 0x35, 0x34, 0x37, 0x37, 0x35, 0x38, 0x30, 0x38]

  lemma LimitReads()
    ensures AllDigits(LIMIT_TEXT) && |LIMIT_TEXT| == 19 && ToNat(LIMIT_TEXT) == INT_LIMIT
  {
    hide ToNat;
    var a: Bytes, b: Bytes, c: Bytes, d: Bytes, e: Bytes :=
      [0x39, 0x32, 0x32], [0x33, 0x33, 0x37, 0x32], [0x30, 0x33, 0x36, 0x38], [0x35, 0x34, 0x37, 0x37], [0x35, 0x38, 0x30, 0x38];
    ToNatOne(0x39);
    ToNatSnoc([0x39], 0x32);
    ToNatSnoc([0x39, 0x32], 0x32);
    assert [0x39] + [0x32] == [0x39, 0x32] && [0x39, 0x32] + [0x32] == a;
    FourDigits(0x33, 0x33, 0x37, 0x32);
    FourDigits(0x30, 0x33, 0x36, 0x38);
    FourDigits(0x35, 0x34, 0x37, 0x37);
    FourDigits(0x35, 0x38, 0x30, 0x38);
    FourMore(a, b);
    FourMore(a + b, c);
    FourMore(a + b + c, d);
    FourMore(a + b + c + d, e);
    assert LIMIT_TEXT == a + b + c + d + e;
  }

  /** 0.fff...e-9223372036854775808 */
  function Token(frac: Bytes): (tok: Bytes)
    ensures |tok| == |frac| + 23
  {
    [ZERO, DOT] + frac + [0x65, MINUS] + LIMIT_TEXT
  }

  lemma {:induction false} RunOfDigits(d: Bytes, t: Bytes)
    requires AllDigits(d) && (t == [] || !IsDigit(t[0]))
    ensures Digits(d + t) == |d|
  {
    if d == [] {
      assert d + t == t;
    } else {
      assert (d + t)[1..] == d[1..] + t;
      RunOfDigits(d[1..], t);
    }
  }

  /** A negative exponent part alone. */
  lemma ExponentReads(d: Bytes)
    requires d != [] && AllDigits(d)
    ensures ReadExp([0x65, MINUS] + d) == (true, -(ToNat(d) as int)) && ExpPart([0x65, MINUS] + d) == Got(2 + |d|, ())
  {
    hide ToNat, Digits;
    var r := [0x65, MINUS] + d;
    RunOfDigits(d, []);
    assert d + [] == d;
    assert r[2..] == d && r[1..][1..] == d;
  }

  lemma FractionReads(frac: Bytes, r: Bytes)
    requires frac != [] && AllDigits(frac) && (r == [] || !IsDigit(r[0]))
    ensures ReadFrac([DOT] + frac + r) == (frac, r) && FracPart([DOT] + frac + r) == Got(1 + |frac|, ())
    ensures ([DOT] + frac + r)[1 + |frac|..] == r
  {
    hide Digits;
    var u := [DOT] + frac + r;
    assert u[1..] == frac + r;
    RunOfDigits(frac, r);
    assert u[1..][..|frac|] == frac && u[1..][|frac|..] == r;
  }

  lemma ZeroReads(u: Bytes)
    requires u != [] && u[0] == DOT
    ensures var tok := [ZERO] + u;
            Sign(tok) == 0 && Digits(tok) == 1 && tok[..1] == [ZERO] && tok[1..] == u && tok[0..] == tok && IntPart(tok) == Got(1, ())
  {
    RunOfDigits([ZERO], u);
  }

  lemma PartsRead(u: Bytes, f: nat, frac: Bytes, r: Bytes, exp: int)
    requires u != [] && u[0] == DOT && f <= |u| && u[f..] == r && AllDigits(frac)
    requires ReadFrac(u) == (frac, r) && FracPart(u) == Got(f, ()) && ReadExp(r) == (true, exp) && ExpPart(r) == Got(|r|, ())
    ensures ReadNumber([ZERO] + u) == Read(Parts([ZERO], frac, exp))
    ensures Numeral([ZERO] + u) == Got(|[ZERO] + u|, ())
  {
    hide ReadExp, ExpPart, ReadFrac, FracPart, IntPart, ToNat, Digits;
    ZeroReads(u);
    assert ([ZERO] + u)[1 + f..] == r;
  }

  /** The scanner reads the token as these parts. */
  lemma TokenReads(frac: Bytes)
    requires frac != [] && AllDigits(frac)
    ensures ReadNumber(Token(frac)) == Read(Parts([ZERO], frac, MIN_INT))
    ensures Numeral(Token(frac)) == Got(|Token(frac)|, ())
  {
    hide LIMIT_TEXT, ReadExp, ExpPart, ReadFrac, FracPart, ReadNumber, Numeral, ToNat;
    LimitReads();
    var r := [0x65, MINUS] + LIMIT_TEXT;
    ExponentReads(LIMIT_TEXT);
    FractionReads(frac, r);
    PartsRead([DOT] + frac + r, 1 + |frac|, frac, r, MIN_INT);
    assert Token(frac) == [ZERO] + ([DOT] + frac + r);
  }

  lemma FiniteBelowOne(p: Parts)
    requires AllDigits(DigitsOf(p)) && Scale(p) < 0 && ToNat(DigitsOf(p)) <= 5
    ensures Finite(p)
  {
    hide ToNat, Pow10, Pow2;
    BoundIsLarge();
    TimesPositive(FloatBound(), Pow10(-Scale(p)));
  }

  lemma TimesPositive(a: nat, b: nat)
    requires b > 0
    ensures a * b >= a
  {}

  lemma BoundIsLarge()
    ensures FloatBound() > 5
  {
    assert Pow2(4) == 16;
    hide Pow2;
    PowTwoSum(4, 50);
    TimesPositive(16, Pow2(50));
    TimesPositive(Pow2(54) - 1, Pow2(970));
  }

  lemma DigitsFive(d: Bytes, zeros: nat)
    requires d == Zeros(zeros) + [0x35] && 1 <= zeros <= 2
    ensures AllDigits(d) && ToNat(d) == 5 && Significant(d) == [0x35] && Shift(d) == 0
  {
    ToNatZeros(zeros);
    ToNatSnoc(Zeros(zeros), 0x35);
    assert d[1..][zeros - 1..] == [0x35] && d[zeros..] == [0x35];
    assert LeadingZeros(d) == zeros;
    assert TrailingZeros([0x35]) == 0;
  }

  lemma FiveParts(frac: Bytes)
    requires frac == [0x35] || frac == [ZERO, 0x35]
    ensures var p := Parts([ZERO], frac, MIN_INT);
            AllDigits(DigitsOf(p)) && Finite(p) && FitsInt(p.exp) && InDomain(p)
            && Significant(DigitsOf(p)) == [0x35] && Shift(DigitsOf(p)) == 0
  {
    hide ToNat, Pow10, Significant, Shift, Finite, InDomain;
    var p := Parts([ZERO], frac, MIN_INT);
    assert DigitsOf(p) == Zeros(|frac|) + [0x35];
    DigitsFive(DigitsOf(p), |frac|);
    FiniteBelowOne(p);
    DomainByDigits(p);
  }

  /**
   0.05e-9223372036854775808 is finite and no integer, yet refused: its scale wraps to 2^63-2.
   As a document it is outside what ValidateStrict accepts.
   */
  lemma WrappedTokenIsRefused()
    ensures var tok := Token([ZERO, 0x35]);
            ReadNumber(tok).Read? && Judge(tok).Refused? && !Strict(tok)
            && var p := ReadNumber(tok).parts; AllDigits(DigitsOf(p)) && Finite(p) && InDomain(p)
  {
    hide LIMIT_TEXT, Finite, InDomain, Significant, Shift, ReadNumber, Numeral, ToNat, Pow10, Utf8;
    var tok := Token([ZERO, 0x35]);
    TokenReads([ZERO, 0x35]);
    FiveParts([ZERO, 0x35]);
    NumberAlone(tok);
  }

  /** 0.5e-9223372036854775808, of no larger magnitude, sends the test into padding 2^63-1 zeros. */
  lemma WrappedTokenIsPadded()
    ensures var tok := Token([0x35]);
            ReadNumber(tok).Read? && Judge(tok).Exhausted?
            && var p := ReadNumber(tok).parts; AllDigits(DigitsOf(p)) && Finite(p) && InDomain(p)
  {
    hide LIMIT_TEXT, Finite, InDomain, Significant, Shift, ReadNumber, Numeral, ToNat, Pow10;
    TokenReads([0x35]);
    FiveParts([0x35]);
    ExhaustedExactly(ReadNumber(Token([0x35])).parts);
  }

  /** A document that is one number outside the domain is refused. */
  lemma NumberAlone(tok: Bytes)
    requires tok != [] && IsDigit(tok[0]) && Numeral(tok) == Got(|tok|, ()) && !Accepts(tok)
    ensures !Strict(tok)
  {
    hide Numeral, Accepts, Utf8;
    assert tok[0..] == tok && tok[..|tok|] == tok;
    assert Spaces(tok) == 0;
  }
}
