/**
 Which numbers survive a float: the digit arithmetic that tells, from a number's text,
 whether it names an integer beyond 2^53-1.

 Integers of the program are 64 bits wide and wrap; a text of 2^63 bytes cannot exist.
 */
module NumberDomain {
  import opened ByteStrings

  const INT_LIMIT: nat := 0x8000_0000_0000_0000
  const MAX_SAFE: nat := 9007199254740991

  /** The digits of MAX_SAFE: 9007 1992 5474 0991. */
  const SAFE_DIGITS: Bytes := [0x39, 0x30, 0x30, 0x37, 0x31, 0x39, 0x39, 0x32, 0x35, 0x34, 0x37, 0x34, 0x30, 0x39, 0x39, 0x31]

  function Wrap(x: int): int {
    (x + INT_LIMIT) % (2 * INT_LIMIT) - INT_LIMIT
  }

  predicate FitsInt(x: int) {
    -(INT_LIMIT as int) <= x < INT_LIMIT
  }

  function Pow10(n: nat): (p: nat)
    ensures p > 0
  {
    if n == 0 then 1 else 10 * Pow10(n - 1)
  }

  function Pow2(n: nat): (p: nat)
    ensures p > 0
  {
    if n == 0 then 1 else 2 * Pow2(n - 1)
  }

  predicate AllDigits(d: Bytes) {
    forall i :: 0 <= i < |d| ==> IsDigit(d[i])
  }

  /** The number a digit text spells. */
  function ToNat(d: Bytes): nat
    requires AllDigits(d)
  {
    if d == [] then 0 else ToNat(d[..|d| - 1]) * 10 + (d[|d| - 1] - ZERO)
  }

  // ----------------------------------------------------------- reading a token

  datatype Parts = Parts(int_: Bytes, frac: Bytes, exp: int)
  datatype Reading = Malformed | Read(parts: Parts)

  function ReadFrac(s: Bytes): (r: (Bytes, Bytes))
    ensures AllDigits(r.0)
  {
    if s != [] && s[0] == DOT then (s[1..][..Digits(s[1..])], s[1..][Digits(s[1..])..]) else ([], s)
  }

  /** The exponent as an unbounded integer. */
  function ReadExp(s: Bytes): (r: (bool, int)) {
    if s == [] then (true, 0)
    else if s[0] != 0x65 && s[0] != 0x45 then (false, 0)
    else
      var t := s[1..];
      var g := if t != [] && (t[0] == PLUS || t[0] == MINUS) then 1 else 0;
      var n := Digits(t[g..]);
      if n == 0 || g + n != |t| then (false, 0)
      else (true, if t[0] == MINUS then -(ToNat(t[g..]) as int) else ToNat(t[g..]))
  }

  function ReadNumber(tok: Bytes): (r: Reading)
    ensures r.Read? ==> AllDigits(r.parts.int_) && AllDigits(r.parts.frac)
    ensures r.Read? ==> |r.parts.int_| + |r.parts.frac| <= |tok|
  {
    var s := tok[Sign(tok)..];
    var n := Digits(s);
    var (frac, rest) := ReadFrac(s[n..]);
    var (ok, exp) := ReadExp(rest);
    if ok then Read(Parts(s[..n], frac, exp)) else Malformed
  }

  // ------------------------------------------------------------------ the test

  function LeadingZeros(d: Bytes): (n: nat)
    ensures n <= |d| && (n < |d| ==> d[n] != ZERO)
    ensures forall i :: 0 <= i < n ==> d[i] == ZERO
  {
    if d != [] && d[0] == ZERO then 1 + LeadingZeros(d[1..]) else 0
  }

  function TrailingZeros(d: Bytes): (n: nat)
    ensures n <= |d| && (n < |d| ==> d[|d| - 1 - n] != ZERO)
    ensures forall i :: |d| - n <= i < |d| ==> d[i] == ZERO
  {
    if d != [] && d[|d| - 1] == ZERO then 1 + TrailingZeros(d[..|d| - 1]) else 0
  }

  /** The significant digits: neither a leading nor a trailing zero. */
  function Significant(d: Bytes): Bytes {
    var s := d[LeadingZeros(d)..];
    s[..|s| - TrailingZeros(s)]
  }

  /** Trailing zeros of what remains once leading zeros are gone. */
  function Shift(d: Bytes): nat {
    TrailingZeros(d[LeadingZeros(d)..])
  }

  function Zeros(n: nat): (z: Bytes)
    ensures |z| == n && forall i :: 0 <= i < n ==> z[i] == ZERO
  {
    seq(n, i => ZERO)
  }

  /** Go's string order, on texts of one length. */
  predicate AtMost(a: Bytes, b: Bytes)
    requires |a| == |b|
  {
    a == [] || a[0] < b[0] || (a[0] == b[0] && AtMost(a[1..], b[1..]))
  }

  const TOP_BIT: nat := 1024
  const MANTISSA: nat := 53

  /**
   ParseFloat answers an infinity exactly when the magnitude is at least half a unit
   past the largest double, 2^1024 - 2^970.
   */
  function FloatBound(): int {
    (Pow2(MANTISSA + 1) - 1) * Pow2(TOP_BIT - MANTISSA - 1)
  }

  datatype Verdict = Accepted | Refused | Exhausted

  /** The rest of the test once the digits are normalised; Exhausted: the padded text cannot be built. */
  function JudgeDigits(digits: Bytes, pointExp: int): Verdict
    requires FitsInt(pointExp)
  {
    if digits == [] then Accepted
    else if pointExp < 0 then Accepted
    else if Wrap(|digits| + pointExp) > |SAFE_DIGITS| then Refused
    else if |digits| + pointExp >= INT_LIMIT then Exhausted
    else
      var mag := digits + Zeros(pointExp);
      if |mag| < |SAFE_DIGITS| then Accepted
      else if |mag| == |SAFE_DIGITS| && AtMost(mag, SAFE_DIGITS) then Accepted
      else Refused
  }

  /** The decimal a number's parts stand for is digits * 10^scale. */
  function DigitsOf(p: Parts): Bytes {
    p.int_ + p.frac
  }

  function Scale(p: Parts): int {
    p.exp - |p.frac|
  }

  predicate Finite(p: Parts)
    requires AllDigits(DigitsOf(p))
  {
    var d := ToNat(DigitsOf(p));
    if Scale(p) >= 0 then d * Pow10(Scale(p)) < FloatBound()
    else d < FloatBound() * Pow10(-Scale(p))
  }

  function JudgeParts(p: Parts): Verdict
    requires AllDigits(DigitsOf(p))
  {
    if !Finite(p) || !FitsInt(p.exp) then Refused
    else JudgeDigits(Significant(DigitsOf(p)), Wrap(Scale(p) + Shift(DigitsOf(p))))
  }

  function Judge(tok: Bytes): Verdict {
    match ReadNumber(tok)
    case Malformed => Refused
    case Read(p) => JudgeParts(p)
  }

  predicate Accepts(tok: Bytes) {
    Judge(tok).Accepted?
  }

  // ------------------------------------------------------------ the algorithm

  method DigitRun(tok: Bytes, i: nat) returns (j: nat)
    requires i <= |tok|
    ensures j == i + Digits(tok[i..])
  {
    j := i;
    while j < |tok| && IsDigit(tok[j])
      invariant i <= j <= |tok|
      invariant Digits(tok[i..]) == j - i + Digits(tok[j..])
    {
      assert tok[j..][1..] == tok[j + 1..];
      j := j + 1;
    }
  }

  method SplitFrac(tok: Bytes, i: nat) returns (frac: Bytes, next: nat)
    requires i <= |tok|
    ensures i <= next <= |tok| && ReadFrac(tok[i..]) == (frac, tok[next..])
  {
    if i < |tok| && tok[i] == DOT {
      assert tok[i + 1..] == tok[i..][1..];
      next := DigitRun(tok, i + 1);
      assert tok[next..] == tok[i + 1..][next - i - 1..];
      assert tok[i + 1..next] == tok[i + 1..][..next - i - 1];
      return tok[i + 1..next], next;
    }
    return [], i;
  }

  /** splitNumber; Atoi reads the exponent. */
  method SplitNumber(tok: Bytes) returns (r: Reading)
    ensures r == ReadNumber(tok)
    ensures r.Read? ==> AllDigits(DigitsOf(r.parts))
  {
    hide ReadExp, ReadFrac;
    var i := Sign(tok);
    var j := DigitRun(tok, i);
    assert tok[i..j] == tok[i..][..j - i] && tok[j..] == tok[i..][j - i..];
    var frac, next := SplitFrac(tok, j);
    var (ok, exp) := ReadExp(tok[next..]);
    return if ok then Read(Parts(tok[i..j], frac, exp)) else Malformed;
  }

  lemma WrapTwice(x: int, y: int)
    ensures Wrap(Wrap(x) + y) == Wrap(x + y)
  {}

  lemma WrapFits(x: int)
    requires FitsInt(x)
    ensures Wrap(x) == x
  {}

  lemma WrapInRange(x: int)
    ensures FitsInt(Wrap(x))
  {}

  method StripLeading(digits: Bytes) returns (d: Bytes)
    ensures d == digits[LeadingZeros(digits)..]
  {
    var start := 0;
    while start < |digits| && digits[start] == ZERO
      invariant 0 <= start <= |digits|
      invariant LeadingZeros(digits) == start + LeadingZeros(digits[start..])
    {
      assert digits[start..][1..] == digits[start + 1..];
      start := start + 1;
    }
    d := digits[start..];
  }

  method StripTrailing(digits: Bytes, pointExp: int) returns (d: Bytes, e: int)
    requires FitsInt(pointExp)
    ensures d == digits[..|digits| - TrailingZeros(digits)] && e == Wrap(pointExp + TrailingZeros(digits))
  {
    hide Wrap;
    WrapFits(pointExp);
    e := pointExp;
    var end := |digits|;
    assert digits[..end] == digits;
    while end > 0 && digits[end - 1] == ZERO
      invariant 0 <= end <= |digits|
      invariant TrailingZeros(digits) == |digits| - end + TrailingZeros(digits[..end])
      invariant e == Wrap(pointExp + |digits| - end)
    {
      assert digits[..end][..end - 1] == digits[..end - 1];
      WrapTwice(pointExp + |digits| - end, 1);
      end := end - 1;
      e := Wrap(e + 1);
    }
    d := digits[..end];
  }

  method NormalizeDecimal(digits: Bytes, pointExp: int) returns (d: Bytes, e: int)
    requires FitsInt(pointExp)
    ensures d == Significant(digits) && e == Wrap(pointExp + Shift(digits))
  {
    hide Wrap, LeadingZeros, TrailingZeros;
    d := StripLeading(digits);
    d, e := StripTrailing(d, pointExp);
  }

  /** numberDomainOK on a number's text. */
  method NumberDomainOK(tok: Bytes) returns (v: Verdict)
    ensures v == Judge(tok)
  {
    hide Wrap, Significant, Shift, Finite, AtMost, ReadNumber;
    var r := SplitNumber(tok);
    if r.Malformed? || !Finite(r.parts) || !FitsInt(r.parts.exp) {
      return Refused;
    }
    var p := r.parts;
    WrapTwice(Scale(p), Shift(DigitsOf(p)));
    WrapInRange(Scale(p));
    WrapInRange(Scale(p) + Shift(DigitsOf(p)));
    var digits, pointExp := NormalizeDecimal(DigitsOf(p), Wrap(Scale(p)));
    if digits == [] || pointExp < 0 {
      return Accepted;
    }
    if Wrap(|digits| + pointExp) > |SAFE_DIGITS| {
      return Refused;
    }
    if |digits| + pointExp >= INT_LIMIT {
      return Exhausted;
    }
    var mag := digits;
    var i := 0;
    while i < pointExp
      invariant 0 <= i <= pointExp && mag == digits + Zeros(i)
    {
      mag := mag + [ZERO];
      i := i + 1;
    }
    if |mag| < |SAFE_DIGITS| || (|mag| == |SAFE_DIGITS| && AtMost(mag, SAFE_DIGITS)) {
      return Accepted;
    }
    return Refused;
  }
}
