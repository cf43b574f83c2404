/** Bytes, and UTF-8 as the scanners check it (section 3 of RFC 3629). */
module ByteStrings {

  type byte = x: int | 0 <= x < 256
  type Bytes = seq<byte>

  const QUOTE: byte := 0x22
  const BACKSLASH: byte := 0x5C
  const SLASH: byte := 0x2F
  const LBRACE: byte := 0x7B
  const RBRACE: byte := 0x7D
  const LBRACKET: byte := 0x5B
  const RBRACKET: byte := 0x5D
  const COLON: byte := 0x3A
  const COMMA: byte := 0x2C
  const MINUS: byte := 0x2D
  const PLUS: byte := 0x2B
  const DOT: byte := 0x2E
  const ZERO: byte := 0x30
  const NINE: byte := 0x39

  /** The bytes of an ASCII text; a character that is not ASCII, or a NUL, becomes a question mark. */
  function Ascii(s: string): (b: Bytes)
    ensures |b| == |s| && forall i :: 0 <= i < |b| ==> 0 < b[i] < 0x80
  {
    seq(|s|, i requires 0 <= i < |s| => if 0 < s[i] as int < 0x80 then s[i] as int else 0x3F)
  }

  predicate IsDigit(c: byte) {
    ZERO <= c <= NINE
  }

  predicate IsSpace(c: byte) {
    c == 0x20 || c == 0x09 || c == 0x0A || c == 0x0D
  }

  /** How many digits s begins with. */
  function Digits(s: Bytes): (n: nat)
    ensures n <= |s|
    ensures n < |s| ==> !IsDigit(s[n])
    ensures forall i :: 0 <= i < n ==> IsDigit(s[i])
  {
    if s != [] && IsDigit(s[0]) then 1 + Digits(s[1..]) else 0
  }

  /** How many minus signs s begins with, at most one. */
  function Sign(s: Bytes): nat {
    if s != [] && s[0] == MINUS then 1 else 0
  }

  lemma DropConcat(a: Bytes, b: Bytes, i: nat)
    requires i <= |a|
    ensures (a + b)[i..] == a[i..] + b
  {}

  // -------------------------------------------------------------------- UTF-8

  predicate Continuation(c: byte) {
    0x80 <= c <= 0xBF
  }

  /** The length of the well-formed character at the head of s, or 0 when there is none. */
  function RuneLen(s: Bytes): (n: nat)
    ensures n <= |s| && n <= 4
  {
    if s == [] then 0
    else if s[0] < 0x80 then 1
    else if 0xC2 <= s[0] <= 0xDF then
      if |s| >= 2 && Continuation(s[1]) then 2 else 0
    else if 0xE0 <= s[0] <= 0xEF then
      if |s| >= 3 && Continuation(s[1]) && Continuation(s[2])
         && (s[0] == 0xE0 ==> s[1] >= 0xA0) && (s[0] == 0xED ==> s[1] <= 0x9F) then 3 else 0
    else if 0xF0 <= s[0] <= 0xF4 then
      if |s| >= 4 && Continuation(s[1]) && Continuation(s[2]) && Continuation(s[3])
         && (s[0] == 0xF0 ==> s[1] >= 0x90) && (s[0] == 0xF4 ==> s[1] <= 0x8F) then 4 else 0
    else 0
  }

  predicate Utf8(s: Bytes)
    decreases |s|
  {
    s == [] || (RuneLen(s) > 0 && Utf8(s[RuneLen(s)..]))
  }

  /** utf8.AppendRune for a code point that is not a surrogate. */
  function Encode(r: nat): (b: Bytes)
    requires r < 0x110000 && !(0xD800 <= r < 0xE000)
  {
    if r < 0x80 then [r]
    else if r < 0x800 then [0xC0 + r / 0x40, 0x80 + r % 0x40]
    else if r < 0x10000 then [0xE0 + r / 0x1000, 0x80 + r / 0x40 % 0x40, 0x80 + r % 0x40]
    else [0xF0 + r / 0x40000, 0x80 + r / 0x1000 % 0x40, 0x80 + r / 0x40 % 0x40, 0x80 + r % 0x40]
  }

  lemma EncodeIsUtf8(r: nat)
    requires r < 0x110000 && !(0xD800 <= r < 0xE000)
    ensures Utf8(Encode(r)) && RuneLen(Encode(r)) == |Encode(r)|
    ensures r > 0 ==> 0 !in Encode(r)
  {
    assert Encode(r)[|Encode(r)|..] == [];
  }

  lemma {:induction false} Utf8Concat(a: Bytes, b: Bytes)
    requires Utf8(a) && Utf8(b)
    ensures Utf8(a + b)
    decreases |a|
  {
    if a == [] {
      assert a + b == b;
    } else {
      var n := RuneLen(a);
      assert RuneLen(a + b) == n;
      DropConcat(a, b, n);
      Utf8Concat(a[n..], b);
    }
  }

  /** A text splits before any ASCII byte, and at its end. */
  lemma {:induction false} Utf8Split(a: Bytes, b: Bytes)
    requires Utf8(a + b) && (b == [] || b[0] < 0x80)
    ensures Utf8(a) && Utf8(b)
    decreases |a|
  {
    if a == [] {
      assert a + b == b;
    } else {
      var n := RuneLen(a + b);
      if b != [] { assert (a + b)[|a|] == b[0]; }
      assert n <= |a|;
      assert RuneLen(a) == n;
      DropConcat(a, b, n);
      Utf8Split(a[n..], b);
    }
  }

  /** ASCII text is well formed. */
  lemma {:induction false} AsciiIsUtf8(a: Bytes)
    requires forall i :: 0 <= i < |a| ==> a[i] < 0x80
    ensures Utf8(a)
  {
    if a != [] { AsciiIsUtf8(a[1..]); }
  }
}
