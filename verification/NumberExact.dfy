/**
 The digit test is exact: it accepts a finite number exactly when the decimal it names
 is no integer, or an integer of magnitude at most 2^53-1, unless the exponent
 arithmetic runs out of its 64 bits.
 */
module NumberExact {
  import opened ByteStrings
  import opened NumberDomain
  import opened JsonScan
  import opened Arith

  // ------------------------------------------------------- what a number names

  /** The decimal d * 10^e is an integer. */
  predicate IsInteger(d: nat, e: int) {
    e >= 0 || d % Pow10(-e) == 0
  }

  function IntegerValue(d: nat, e: int): int
    requires IsInteger(d, e)
  {
    if e >= 0 then d * Pow10(e) else d / Pow10(-e)
  }

  /** What the strict domain asks of a finite number. */
  predicate InDomain(p: Parts)
    requires AllDigits(DigitsOf(p))
  {
    var d := ToNat(DigitsOf(p));
    IsInteger(d, Scale(p)) ==> IntegerValue(d, Scale(p)) <= MAX_SAFE
  }

  /** The exponent, and the scale left once trailing zeros are counted off, stay within an int. */
  predicate Survives(p: Parts) {
    && FitsInt(p.exp)
    && (Significant(DigitsOf(p)) == [] || FitsInt(Scale(p) + Shift(DigitsOf(p))))
  }

  // ------------------------------------------------------------------- powers

  lemma {:induction false} PowSum(a: nat, b: nat)
    ensures Pow10(a + b) == Pow10(a) * Pow10(b)
  {
    if a == 0 {
    } else {
      PowSum(a - 1, b);
      assert Pow10(a + b) == 10 * Pow10(a - 1 + b);
    }
  }

  lemma PowMono(a: nat, b: nat)
    requires a <= b
    ensures Pow10(a) <= Pow10(b)
  {
    PowSum(a, b - a);
    assert Pow10(a) * Pow10(b - a) >= Pow10(a) * 1;
  }

  lemma {:induction false} PowTwoBelowTen(n: nat)
    ensures Pow2(n) <= Pow10(n)
  {
    if n > 0 { PowTwoBelowTen(n - 1); }
  }

  lemma {:induction false} PowTwoSum(a: nat, b: nat)
    ensures Pow2(a + b) == Pow2(a) * Pow2(b)
  {
    if a > 0 {
      PowTwoSum(a - 1, b);
      assert Pow2(a + b) == 2 * Pow2(a - 1 + b);
    }
  }

  // ------------------------------------------------------------- digit strings

  lemma ToNatSnoc(a: Bytes, c: byte)
    requires AllDigits(a) && IsDigit(c)
    ensures AllDigits(a + [c]) && ToNat(a + [c]) == ToNat(a) * 10 + (c - ZERO)
  {
    assert (a + [c])[..|a|] == a;
  }

  lemma {:induction false} ToNatConcat(a: Bytes, b: Bytes)
    requires AllDigits(a) && AllDigits(b)
    ensures AllDigits(a + b) && ToNat(a + b) == ToNat(a) * Pow10(|b|) + ToNat(b)
  {
    if b == [] {
      assert a + b == a;
    } else {
      hide ToNat;
      var c, last := b[..|b| - 1], b[|b| - 1];
      assert b == c + [last] && a + b == (a + c) + [last];
      ToNatConcat(a, c);
      ToNatSnoc(a + c, last);
      ToNatSnoc(c, last);
      MulDist(ToNat(a) * Pow10(|c|), ToNat(c), 10);
      MulSwap(ToNat(a), Pow10(|c|), 10);
    }
  }

  lemma ToNatOne(c: byte)
    requires IsDigit(c)
    ensures ToNat([c]) == c - ZERO
  {
    ToNatSnoc([], c);
    assert [] + [c] == [c];
  }

  /** A text's number, by its first digit. */
  lemma ToNatHead(a: Bytes)
    requires a != [] && AllDigits(a)
    ensures ToNat(a) == (a[0] - ZERO) * Pow10(|a| - 1) + ToNat(a[1..])
  {
    hide ToNat, Pow10;
    assert a == [a[0]] + a[1..];
    ToNatConcat([a[0]], a[1..]);
    ToNatOne(a[0]);
  }

  lemma {:induction false} ToNatBound(a: Bytes)
    requires AllDigits(a)
    ensures ToNat(a) < Pow10(|a|)
  {
    if a != [] { ToNatBound(a[..|a| - 1]); }
  }

  lemma {:induction false} ToNatZeros(n: nat)
    ensures AllDigits(Zeros(n)) && ToNat(Zeros(n)) == 0
  {
    if n > 0 {
      assert Zeros(n)[..n - 1] == Zeros(n - 1);
      ToNatZeros(n - 1);
    }
  }

  /** A text with no leading zero names a number of as many digits. */
  lemma ToNatLeading(a: Bytes)
    requires a != [] && AllDigits(a) && a[0] != ZERO
    ensures Pow10(|a| - 1) <= ToNat(a)
  {
    hide ToNat, Pow10;
    ToNatHead(a);
    MulLe(1, a[0] - ZERO, Pow10(|a| - 1));
  }

  lemma ToNatTrailing(a: Bytes)
    requires a != [] && AllDigits(a) && a[|a| - 1] != ZERO
    ensures ToNat(a) % 10 != 0
  {}

  lemma {:induction false} AtMostIsOrder(a: Bytes, b: Bytes)
    requires |a| == |b| && AllDigits(a) && AllDigits(b)
    ensures AtMost(a, b) <==> ToNat(a) <= ToNat(b)
  {
    if a == [] {
    } else {
      hide ToNat, Pow10;
      var x, y, w := a[0] - ZERO, b[0] - ZERO, Pow10(|a| - 1);
      ToNatHead(a);
      ToNatHead(b);
      ToNatBound(a[1..]);
      ToNatBound(b[1..]);
      AtMostIsOrder(a[1..], b[1..]);
      if x < y {
        MulLe(x + 1, y, w);
        MulDist(x, 1, w);
      } else if y < x {
        MulLe(y + 1, x, w);
        MulDist(y, 1, w);
      }
    }
  }

  lemma LeadingPart(d: Bytes)
    ensures d == Zeros(LeadingZeros(d)) + d[LeadingZeros(d)..]
  {}

  lemma {:induction false} TrailingPart(d: Bytes)
    ensures d == d[..|d| - TrailingZeros(d)] + Zeros(TrailingZeros(d))
  {
    assert d[|d| - TrailingZeros(d)..] == Zeros(TrailingZeros(d));
  }

  lemma SignificantParts(d: Bytes)
    ensures d == Zeros(LeadingZeros(d)) + Significant(d) + Zeros(Shift(d))
  {
    hide LeadingZeros, TrailingZeros;
    LeadingPart(d);
    TrailingPart(d[LeadingZeros(d)..]);
    var z, s, t := Zeros(LeadingZeros(d)), Significant(d), Zeros(Shift(d));
    assert z + (s + t) == z + s + t;
  }

  lemma SignificantEnds(d: Bytes)
    requires Significant(d) != []
    ensures Significant(d)[0] != ZERO && Significant(d)[|Significant(d)| - 1] != ZERO
  {
    var u, s := d[LeadingZeros(d)..], Significant(d);
    assert s[0] == u[0] && s[|s| - 1] == u[|u| - 1 - Shift(d)];
  }

  /** Stripping zeros takes a power of ten out of the number, and nothing else. */
  lemma SignificantValue(d: Bytes)
    requires AllDigits(d)
    ensures var s := Significant(d);
            && AllDigits(s) && ToNat(d) == ToNat(s) * Pow10(Shift(d))
            && (s == [] <==> ToNat(d) == 0)
            && |s| + Shift(d) <= |d|
  {
    hide ToNat, Pow10, LeadingZeros, TrailingZeros, Shift, Significant;
    var z, s, t := Zeros(LeadingZeros(d)), Significant(d), Zeros(Shift(d));
    SignificantParts(d);
    assert forall i :: 0 <= i < |s| ==> s[i] == d[|z| + i];
    ToNatZeros(|z|);
    ToNatZeros(|t|);
    ToNatConcat(z, s);
    ToNatConcat(z + s, t);
    if s == [] {
      assert s == Zeros(0);
      ToNatZeros(0);
    } else {
      SignificantEnds(d);
      ToNatLeading(s);
      MulLe(1, ToNat(s), Pow10(Shift(d)));
    }
  }

  // -------------------------------------------------------- normalised numbers

  /** With no factor ten left, only a scale of at least zero makes an integer. */
  lemma NormalInteger(n: nat, t: nat, e: int)
    requires n % 10 != 0
    ensures IsInteger(n * Pow10(t), e) <==> e + t >= 0
    ensures e + t >= 0 ==> IntegerValue(n * Pow10(t), e) == n * Pow10(e + t)
  {
    hide Pow10;
    if e >= 0 {
      PowSum(t, e);
      MulSwap(n, Pow10(t), Pow10(e));
    } else if e + t >= 0 {
      PowSum(e + t, -e);
      MulSwap(n, Pow10(e + t), Pow10(-e));
      DivideUnique(n * Pow10(t), Pow10(-e), n * Pow10(e + t), 0);
    } else {
      TooFewTens(n, t, -e);
    }
  }

  lemma TooFewTens(n: nat, t: nat, u: nat)
    requires n % 10 != 0 && t < u
    ensures (n * Pow10(t)) % Pow10(u) != 0
  {
    hide Pow10;
    var k := (n * Pow10(t)) / Pow10(u);
    DivisionEquation(n * Pow10(t), Pow10(u));
    if n * Pow10(t) == k * Pow10(u) {
      PowSum(t, u - t);
      MulSwap(k, Pow10(t), Pow10(u - t));
      MulCancel(n, k * Pow10(u - t), Pow10(t));
      PowSum(u - t - 1, 1);
      TenOfOne();
      MulSwap(k, Pow10(u - t - 1), 10);
      DivideUnique(n, 10, k * Pow10(u - t - 1), 0);
    }
  }

  lemma DivisionEquation(x: int, m: int)
    requires m > 0
    ensures x == (x / m) * m + x % m
  {}

  lemma TenOfOne()
    ensures Pow10(1) == 10
  {}

  lemma FourDigits(a: byte, b: byte, c: byte, d: byte)
    requires IsDigit(a) && IsDigit(b) && IsDigit(c) && IsDigit(d)
    ensures AllDigits([a, b, c, d])
    ensures ToNat([a, b, c, d]) == (a - ZERO) * 1000 + (b - ZERO) * 100 + (c - ZERO) * 10 + (d - ZERO)
  {
    hide ToNat;
    ToNatOne(a);
    ToNatSnoc([a], b);
    ToNatSnoc([a, b], c);
    ToNatSnoc([a, b, c], d);
    assert [a] + [b] == [a, b] && [a, b] + [c] == [a, b, c] && [a, b, c] + [d] == [a, b, c, d];
  }

  lemma FourMore(a: Bytes, b: Bytes)
    requires AllDigits(a) && AllDigits(b) && |b| == 4
    ensures AllDigits(a + b) && ToNat(a + b) == ToNat(a) * 10000 + ToNat(b)
  {
    ToNatConcat(a, b);
    assert Pow10(4) == 10000;
  }

  lemma SafeDigits()
    ensures |SAFE_DIGITS| == 16 && AllDigits(SAFE_DIGITS) && ToNat(SAFE_DIGITS) == MAX_SAFE
  {
    hide ToNat;
    var a: Bytes, b: Bytes, c: Bytes, d: Bytes :=
      [0x39, 0x30, 0x30, 0x37], [0x31, 0x39, 0x39, 0x32], [0x35, 0x34, 0x37, 0x34], [0x30, 0x39, 0x39, 0x31];
    FourDigits(0x39, 0x30, 0x30, 0x37);
    FourDigits(0x31, 0x39, 0x39, 0x32);
    FourDigits(0x35, 0x34, 0x37, 0x34);
    FourDigits(0x30, 0x39, 0x39, 0x31);
    FourMore(a, b);
    FourMore(a + b, c);
    FourMore(a + b + c, d);
    assert SAFE_DIGITS == a + b + c + d;
  }

  // -------------------------------------------------------------- the theorem

  lemma FloatBoundBelow()
    ensures FloatBound() <= Pow10(TOP_BIT)
  {
    hide Pow2, Pow10;
    PowTwoSum(MANTISSA + 1, TOP_BIT - MANTISSA - 1);
    MulDist(Pow2(MANTISSA + 1), -1, Pow2(TOP_BIT - MANTISSA - 1));
    PowTwoBelowTen(TOP_BIT);
  }

  /** A finite integer has few digits: padding its text never leaves the range of an int. */
  lemma FiniteHasFewDigits(p: Parts)
    requires AllDigits(DigitsOf(p)) && Finite(p) && Significant(DigitsOf(p)) != []
    requires Scale(p) + Shift(DigitsOf(p)) >= 0
    ensures |Significant(DigitsOf(p))| + Scale(p) + Shift(DigitsOf(p)) <= 1025
  {
    hide Pow10, ToNat, Significant, Shift, FloatBound;
    var s, t, e := Significant(DigitsOf(p)), Shift(DigitsOf(p)), Scale(p);
    SignificantValue(DigitsOf(p));
    SignificantEnds(DigitsOf(p));
    ToNatLeading(s);
    var n := ToNat(s);
    assert n * Pow10(e + t) < FloatBound() by {
      if e >= 0 {
        PowSum(t, e);
        MulSwap(n, Pow10(t), Pow10(e));
      } else {
        PowSum(e + t, -e);
        MulSwap(n, Pow10(e + t), Pow10(-e));
        if n * Pow10(e + t) >= FloatBound() { MulLe(FloatBound(), n * Pow10(e + t), Pow10(-e)); }
      }
    }
    MulLe(Pow10(|s| - 1), n, Pow10(e + t));
    PowSum(|s| - 1, e + t);
    FloatBoundBelow();
    if |s| - 1 + e + t >= TOP_BIT { PowMono(TOP_BIT, |s| - 1 + e + t); }
  }

  lemma SmallPowers()
    ensures Pow10(15) <= MAX_SAFE < Pow10(16)
  {
    PowSum(8, 7);
    PowSum(8, 8);
    assert Pow10(8) == 100000000 && Pow10(7) == 10000000;
  }

  /** How large an integer of that many significant digits and trailing zeros is. */
  lemma PaddedValue(s: Bytes, e: nat)
    requires s != [] && AllDigits(s) && s[0] != ZERO
    ensures AllDigits(s + Zeros(e)) && ToNat(s + Zeros(e)) == ToNat(s) * Pow10(e)
    ensures Pow10(|s| + e - 1) <= ToNat(s) * Pow10(e) < Pow10(|s| + e)
  {
    hide Pow10, ToNat;
    ToNatZeros(e);
    ToNatConcat(s, Zeros(e));
    ToNatBound(s + Zeros(e));
    ToNatLeading(s);
    MulLe(Pow10(|s| - 1), ToNat(s), Pow10(e));
    PowSum(|s| - 1, e);
  }

  /** On normalised digits of an integer of ordinary size, the text comparison is the numeric one. */
  lemma JudgeNormal(s: Bytes, e: nat)
    requires s != [] && AllDigits(s) && s[0] != ZERO && |s| + e <= 1025
    ensures JudgeDigits(s, e).Accepted? <==> ToNat(s) * Pow10(e) <= MAX_SAFE
    ensures !JudgeDigits(s, e).Exhausted?
  {
    hide Pow10, ToNat, AtMost, Wrap;
    SafeDigits();
    SmallPowers();
    WrapFits(|s| + e);
    PaddedValue(s, e);
    if |s| + e > 16 {
      PowMono(16, |s| - 1 + e);
    } else if |s| + e < 16 {
      PowMono(|s| + e, 15);
    } else {
      AtMostIsOrder(s + Zeros(e), SAFE_DIGITS);
    }
  }

  /** Which numbers are in the domain, by their significant digits and the scale those carry. */
  lemma DomainByDigits(p: Parts)
    requires AllDigits(DigitsOf(p))
    ensures var s, e := Significant(DigitsOf(p)), Scale(p) + Shift(DigitsOf(p));
            AllDigits(s) && (InDomain(p) <==> s == [] || e < 0 || ToNat(s) * Pow10(e) <= MAX_SAFE)
  {
    hide Pow10, ToNat, Significant, Shift;
    var s, t := Significant(DigitsOf(p)), Shift(DigitsOf(p));
    SignificantValue(DigitsOf(p));
    if s == [] {
      ZeroIsSafe(Scale(p));
    } else {
      SignificantEnds(DigitsOf(p));
      ToNatTrailing(s);
      NormalInteger(ToNat(s), t, Scale(p));
    }
  }

  lemma ZeroIsSafe(e: int)
    ensures IsInteger(0, e) && IntegerValue(0, e) == 0
  {
    if e < 0 { DivideUnique(0, Pow10(-e), 0, 0); }
  }

  /** A scale that wrapped comes out huge: the digits are then refused, or cannot be padded. */
  lemma JudgeWrapped(s: Bytes, e: int)
    requires s != [] && -(2 * INT_LIMIT) + INT_LIMIT / 4 <= e < -(INT_LIMIT as int) && |s| <= INT_LIMIT
    ensures FitsInt(Wrap(e)) && !JudgeDigits(s, Wrap(e)).Accepted?
  {}

  /**
   The test on a finite number's parts is exact if and only if the exponent and the
   scale of the significant digits survive 64-bit arithmetic.
   */
  lemma NumberTestIsExact(p: Parts)
    requires AllDigits(DigitsOf(p)) && Finite(p) && |DigitsOf(p)| <= INT_LIMIT / 4
    ensures (JudgeParts(p).Accepted? <==> InDomain(p)) <==> Survives(p)
  {
    hide Pow10, ToNat, Significant, Shift, Finite, InDomain, JudgeDigits, Wrap;
    var s, e := Significant(DigitsOf(p)), Scale(p) + Shift(DigitsOf(p));
    DomainByDigits(p);
    SignificantValue(DigitsOf(p));
    WrapInRange(e);
    if s == [] {
      JudgeNothing(Wrap(e));
    } else {
      if e >= 0 { FiniteHasFewDigits(p); }
      if !FitsInt(p.exp) {
        assert e < 0;
      } else if !FitsInt(e) {
        JudgeWrapped(s, e);
      } else {
        WrapFits(e);
        if e >= 0 {
          SignificantEnds(DigitsOf(p));
          JudgeNormal(s, e);
        } else {
          JudgeFraction(s, e);
        }
      }
    }
  }

  lemma JudgeNothing(e: int)
    requires FitsInt(e)
    ensures JudgeDigits([], e).Accepted?
  {}

  lemma JudgeFraction(s: Bytes, e: int)
    requires FitsInt(e) && e < 0
    ensures JudgeDigits(s, e).Accepted?
  {}

  lemma IntReads(s: Bytes)
    requires IntPart(s).Got?
    ensures Digits(s) == IntPart(s).n
  {
    if s[0] == ZERO { assert Digits(s) == 1 + Digits(s[1..]); }
  }

  lemma FracReads(u: Bytes)
    requires FracPart(u).Got?
    ensures ReadFrac(u).1 == u[FracPart(u).n..]
  {
    var f := FracPart(u).n;
    if f > 0 { assert u[1..][f - 1..] == u[f..]; }
  }

  lemma ExpReads(rest: Bytes)
    requires ExpPart(rest).Got? && ExpPart(rest).n == |rest|
    ensures ReadExp(rest).0
  {
    if rest != [] {
      var t := rest[1..];
      assert |rest| > 1 ==> t[0] == rest[1];
      var g := if t != [] && (t[0] == PLUS || t[0] == MINUS) then 1 else 0;
      assert t[g..] == rest[1 + g..];
    }
  }

  /** A number's text, by section 6 of RFC 8259, always reads as a decimal. */
  lemma NumeralReads(tok: Bytes)
    requires Numeral(tok).Got? && Numeral(tok).n == |tok|
    ensures ReadNumber(tok).Read?
  {
    hide IntPart, FracPart, ExpPart, ReadFrac, ReadExp, Digits;
    var g := Sign(tok);
    var s := tok[g..];
    IntReads(s);
    var n := IntPart(s).n;
    assert tok[g + n..] == s[n..];
    FracReads(s[n..]);
    var f := FracPart(s[n..]).n;
    assert tok[g + n + f..] == s[n..][f..];
    assert FracPart(tok[g + n..]) == FracPart(s[n..]);
    assert Numeral(tok).n == g + n + f + ExpPart(tok[g + n + f..]).n;
    ExpReads(s[n..][f..]);
  }

  /** What the strict scanner accepts of a number, for every text the grammar allows. */
  lemma AcceptsExactly(tok: Bytes)
    requires Numeral(tok).Got? && Numeral(tok).n == |tok| && |tok| <= INT_LIMIT / 4
    ensures ReadNumber(tok).Read?
    ensures var p := ReadNumber(tok).parts;
            if Finite(p) then (Accepts(tok) <==> InDomain(p)) <==> Survives(p) else !Accepts(tok)
  {
    hide Finite, InDomain, Survives, ReadNumber, Numeral;
    NumeralReads(tok);
    ReadsWithin(tok);
    if Finite(ReadNumber(tok).parts) { NumberTestIsExact(ReadNumber(tok).parts); }
  }

  lemma ReadsWithin(tok: Bytes)
    requires ReadNumber(tok).Read?
    ensures AllDigits(DigitsOf(ReadNumber(tok).parts)) && |DigitsOf(ReadNumber(tok).parts)| <= |tok|
  {}
}
