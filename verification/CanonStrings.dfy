/**
 Strings of the canonical JSON profile: the check on surrogate escapes, the tokenizer's
 reading of a string, and the one way a string is written.
 */
module CanonStrings {
  import opened ByteStrings
  import opened JsonScan
  import opened JsonQuote

  // ---------------------------------------------------------------- reading

  predicate High(u: nat) {
    0xD800 <= u < 0xDC00
  }

  predicate Low(u: nat) {
    0xDC00 <= u < 0xE000
  }

  /** The code point of an escape that begins with backslash u; lone: half a pair on its own reads as U+FFFD. */
  function Unit(s: Bytes, lone: bool): (r: Scan<nat>)
    requires |s| >= 2
    ensures r.Got? ==> 6 <= r.n <= |s| && r.v < 0x110000 && !(0xD800 <= r.v < 0xE000)
  {
    var u := Hex4(s[2..]);
    if u.Fail? then Fail
    else if !High(u.v) && !Low(u.v) then Got(6, u.v)
    else if High(u.v) && |s| >= 12 && s[6] == BACKSLASH && s[7] == 0x75 && Hex4(s[8..]).Got? && Low(Hex4(s[8..]).v)
    then Got(12, Pair(u.v, Hex4(s[8..]).v))
    else if lone then Got(6, 0xFFFD)
    else Fail
  }

  function AnyEscape(s: Bytes, lone: bool): (r: Scan<nat>)
    ensures r.Got? ==> 2 <= r.n <= |s| && r.v < 0x110000 && !(0xD800 <= r.v < 0xE000)
  {
    if |s| >= 2 && s[1] == 0x75 then Unit(s, lone) else Escape(s)
  }

  /** The rest of a string after its opening quote; a NUL may be spelt here. */
  function TextTail(s: Bytes, lone: bool): (r: Scan<Bytes>)
    ensures r.Got? ==> 1 <= r.n <= |s|
    decreases |s|
  {
    if s == [] then Fail
    else if s[0] == QUOTE then Got(1, [])
    else if s[0] == BACKSLASH then
      match AnyEscape(s, lone)
      case Fail => Fail
      case Got(k, r) => Ahead(k, Encode(r), TextTail(s[k..], lone))
    else if s[0] < 0x20 then Fail
    else Ahead(1, [s[0]], TextTail(s[1..], lone))
  }

  /** A reading that k bytes, decoding to a, come before. */
  function Ahead(k: nat, a: Bytes, r: Scan<Bytes>): Scan<Bytes> {
    match r
    case Fail => Fail
    case Got(n, v) => Got(k + n, a + v)
  }

  function Text(s: Bytes, lone: bool): (r: Scan<Bytes>)
    ensures r.Got? ==> 2 <= r.n <= |s|
  {
    if s == [] || s[0] != QUOTE then Fail else Ahead(1, [], TextTail(s[1..], lone))
  }

  // ------------------------------------------------- the check on escapes

  predicate Outside(s: Bytes)
    decreases |s|
  {
    s == [] || if s[0] == QUOTE then Inside(s[1..]) else Outside(s[1..])
  }

  predicate Inside(s: Bytes)
    decreases |s|
  {
    || s == []
    || if s[0] == QUOTE then Outside(s[1..])
       else if s[0] == BACKSLASH then InsideEscape(s)
       else Inside(s[1..])
  }

  predicate InsideEscape(s: Bytes)
    requires s != []
    decreases |s|, 0
  {
    || |s| == 1
    || if s[1] != 0x75 then Inside(s[2..])
       else Unit(s, false).Got? && Inside(s[Unit(s, false).n..])
  }

  method ParseU16(input: Bytes, offset: nat) returns (value: nat, ok: bool)
    ensures ok <==> offset <= |input| && Hex4(input[offset..]).Got?
    ensures ok ==> value == Hex4(input[offset..]).v
  {
    if offset + 4 > |input| {
      return 0, false;
    }
    value := 0;
    ghost var s := input[offset..];
    var i := 0;
    while i < 4
      invariant 0 <= i <= 4
      invariant HexPrefix(s, i) == Got(i, value)
    {
      var d := HexDigit(input[offset + i]);
      assert s[i] == input[offset + i];
      if d.Fail? {
        HexFails(s, i + 1, 4);
        return 0, false;
      }
      value := value * 16 + d.v;
      i := i + 1;
    }
    return value, true;
  }

  lemma {:induction false} HexFails(s: Bytes, i: nat, n: nat)
    requires i <= n <= |s| && HexPrefix(s, i).Fail?
    ensures HexPrefix(s, n).Fail?
  {
    if i < n { HexFails(s, i, n - 1); }
  }

  /** validateUnicodeEscapes. */
  method ValidateUnicodeEscapes(input: Bytes) returns (ok: bool)
    ensures ok <==> Outside(input)
  {
    hide Hex4, HexPrefix;
    var inString, escaped := false, false;
    var i := 0;
    assert input[0..] == input;
    while i < |input|
      invariant 0 <= i <= |input|
      invariant escaped ==> inString && i > 0 && input[i - 1] == BACKSLASH
      invariant !inString ==> (Outside(input) <==> Outside(input[i..]))
      invariant inString && !escaped ==> (Outside(input) <==> Inside(input[i..]))
      invariant escaped ==> (Outside(input) <==> InsideEscape(input[i - 1..]))
    {
      var c := input[i];
      ghost var s := input[i..];
      assert s[1..] == input[i + 1..];
      if !inString {
        if c == QUOTE { inString := true; }
        i := i + 1;
      } else if escaped {
        escaped := false;
        ghost var e := input[i - 1..];
        assert e[2..] == input[i + 1..];
        i := i + 1;
        if c == 0x75 {
          var cp, good := ParseU16(input, i);
          if !good { return false; }
          if 0xD800 <= cp <= 0xDBFF {
            if i + 9 >= |input| || input[i + 4] != BACKSLASH || input[i + 5] != 0x75 { return false; }
            assert e[8..] == input[i + 6..];
            var low, lowGood := ParseU16(input, i + 6);
            if !lowGood || low < 0xDC00 || low > 0xDFFF { return false; }
            i := i + 10;
            assert e[12..] == input[i..];
          } else if 0xDC00 <= cp <= 0xDFFF {
            return false;
          } else {
            HexNeedsFour(e[2..]);
            i := i + 4;
            assert e[6..] == input[i..];
          }
        }
      } else {
        if c == BACKSLASH { escaped := true; }
        else if c == QUOTE { inString := false; }
        i := i + 1;
      }
    }
    return true;
  }

  lemma HexNeedsFour(s: Bytes)
    requires Hex4(s).Got?
    ensures |s| >= 4
  {}

  // ---------------------------------------------------------------- writing

  function EscapeCanon(c: byte): (e: Bytes)
    ensures e != []
  {
    if c == 8 then [BACKSLASH, 0x62] else if c == 12 then [BACKSLASH, 0x66] else EscapeByte(c)
  }

  /** The characters of s, escaped, and the closing quote; a malformed byte becomes U+FFFD. */
  function TextOut(s: Bytes): Bytes
    decreases |s|
  {
    if s == [] then [QUOTE]
    else
      var n := RuneLen(s);
      if n == 0 then [0xEF, 0xBF, 0xBD] + TextOut(s[1..])
      else if n == 1 then EscapeCanon(s[0]) + TextOut(s[1..])
      else s[..n] + TextOut(s[n..])
  }

  function CanonText(s: Bytes): Bytes {
    [QUOTE] + TextOut(s)
  }

  /** The switch of emitCanonString, for a character of one byte. */
  method EscapeOf(c: byte) returns (e: Bytes)
    ensures e == EscapeCanon(c)
  {
    if c == QUOTE {
      return [BACKSLASH, QUOTE];
    } else if c == BACKSLASH {
      return [BACKSLASH, BACKSLASH];
    } else if c == 8 {
      return [BACKSLASH, 0x62];
    } else if c == 12 {
      return [BACKSLASH, 0x66];
    } else if c == 0x0A {
      return [BACKSLASH, 0x6E];
    } else if c == 0x0D {
      return [BACKSLASH, 0x72];
    } else if c == 0x09 {
      return [BACKSLASH, 0x74];
    } else if c < 0x20 {
      return [BACKSLASH, 0x75, ZERO, ZERO, HexChar(c / 16), HexChar(c % 16)];
    } else {
      return [c];
    }
  }

  lemma {:induction false} TextOutAt(s: Bytes, i: nat, k: nat, e: Bytes, r: Bytes)
    requires i < |s| && 0 < k <= |s| - i
    requires var n := RuneLen(s[i..]);
             k == (if n > 1 then n else 1)
             && e == if n > 1 then s[i..i + n] else if n == 0 then [0xEF, 0xBF, 0xBD] else EscapeCanon(s[i])
    ensures r + TextOut(s[i..]) == (r + e) + TextOut(s[i + k..])
  {
    hide RuneLen, EscapeCanon;
    var t, n := s[i..], RuneLen(s[i..]);
    assert t[k..] == s[i + k..];
    if n > 1 { assert t[..n] == s[i..i + n]; }
    assert TextOut(t) == e + TextOut(s[i + k..]);
    assert r + (e + TextOut(s[i + k..])) == r + e + TextOut(s[i + k..]);
  }

  /** emitCanonString. */
  method EmitCanonString(out: Bytes, s: Bytes) returns (r: Bytes)
    ensures r == out + CanonText(s)
  {
    hide RuneLen, EscapeCanon;
    r := out + [QUOTE];
    var i := 0;
    assert s[0..] == s;
    while i < |s|
      invariant 0 <= i <= |s|
      invariant out + CanonText(s) == r + TextOut(s[i..])
    {
      var n := RuneLen(s[i..]);
      var e: Bytes;
      if n > 1 {
        e := s[i..i + n];
      } else if n == 0 {
        e := [0xEF, 0xBF, 0xBD];
      } else {
        e := EscapeOf(s[i]);
      }
      var k := if n > 1 then n else 1;
      TextOutAt(s, i, k, e, r);
      r := r + e;
      i := i + k;
    }
    return r + [QUOTE];
  }

  // ------------------------------------------------------------- round trip

  /** What one byte is written as reads back as that byte. */
  lemma EscapeReads(c: byte, u: Bytes, lone: bool)
    requires c < 0x80
    ensures TextTail(EscapeCanon(c) + u, lone) == Ahead(|EscapeCanon(c)|, [c], TextTail(u, lone))
  {
    hide Unit, Escape, EscapeByte, HexChar, Hex4;
    var e := EscapeCanon(c);
    var s := e + u;
    assert s[|e|..] == u && s[0] == e[0];
    CanonForm(c);
    if |e| == 6 {
      UnitReads(c, u, lone);
    } else if |e| == 2 {
      ShortReads(c, u);
      assert s[1] == e[1];
    }
  }

  lemma CanonForm(c: byte)
    requires c < 0x80
    ensures var e := EscapeCanon(c);
            || (|e| == 1 && e == [c] && c >= 0x20 && c != QUOTE && c != BACKSLASH)
            || (|e| == 2 && e[0] == BACKSLASH && e[1] != 0x75)
            || (|e| == 6 && c < 0x20 && e == [BACKSLASH, 0x75, ZERO, ZERO, HexChar(c / 16), HexChar(c % 16)])
  {}

  lemma ShortReads(c: byte, u: Bytes)
    requires |EscapeCanon(c)| == 2
    ensures Escape(EscapeCanon(c) + u) == Got(2, c)
  {
    assert (EscapeCanon(c) + u)[1] == EscapeCanon(c)[1];
  }

  lemma UnitReads(c: byte, u: Bytes, lone: bool)
    requires c < 0x20
    ensures Unit([BACKSLASH, 0x75, ZERO, ZERO, HexChar(c / 16), HexChar(c % 16)] + u, lone) == Got(6, c)
  {
    var e: Bytes := [BACKSLASH, 0x75, ZERO, ZERO, HexChar(c / 16), HexChar(c % 16)];
    var h := (e + u)[2..];
    assert h[0] == ZERO && h[1] == ZERO && h[2] == HexChar(c / 16) && h[3] == HexChar(c % 16);
    HexCharDigit(c / 16);
    HexCharDigit(c % 16);
    assert HexPrefix(h, 1) == Got(1, 0);
    assert HexPrefix(h, 2) == Got(2, 0);
    assert HexPrefix(h, 3) == Got(3, c / 16);
    assert HexPrefix(h, 4) == Got(4, c);
  }

  /** Bytes of one long character pass through unchanged. */
  lemma {:induction false} HighReads(s: Bytes, u: Bytes, lone: bool)
    requires forall i :: 0 <= i < |s| ==> s[i] >= 0x80
    ensures TextTail(s + u, lone) == Ahead(|s|, s, TextTail(u, lone))
  {
    if s == [] {
      assert s + u == u;
      AheadNothing(TextTail(u, lone));
    } else {
      HighReads(s[1..], u, lone);
      assert (s + u)[1..] == s[1..] + u;
      AheadTwice(1, [s[0]], |s| - 1, s[1..], TextTail(u, lone));
      assert [s[0]] + s[1..] == s;
    }
  }

  lemma AheadNothing(r: Scan<Bytes>)
    ensures Ahead(0, [], r) == r
  {
    if r.Got? { assert [] + r.v == r.v; }
  }

  lemma AheadTwice(k: nat, a: Bytes, m: nat, b: Bytes, r: Scan<Bytes>)
    ensures Ahead(k, a, Ahead(m, b, r)) == Ahead(k + m, a + b, r)
  {
    if r.Got? { assert a + (b + r.v) == a + b + r.v; }
  }

  lemma {:induction false} TextOutReads(s: Bytes, t: Bytes, lone: bool)
    requires Utf8(s)
    ensures TextTail(TextOut(s) + t, lone) == Got(|TextOut(s)|, s)
    decreases |s|
  {
    hide TextTail, RuneLen, EscapeCanon;
    if s == [] {
      ClosingReads(t, lone);
    } else {
      var n := RuneLen(s);
      var q := TextOut(s[n..]);
      TextOutReads(s[n..], t, lone);
      assert s == s[..n] + s[n..];
      if n == 1 {
        RuneOfOne(s);
        EscapeReads(s[0], q + t, lone);
        assert TextOut(s) + t == EscapeCanon(s[0]) + (q + t);
        assert s[..1] == [s[0]];
      } else {
        RuneIsHigh(s);
        HighReads(s[..n], q + t, lone);
        assert TextOut(s) + t == s[..n] + (q + t);
      }
    }
  }

  lemma ClosingReads(t: Bytes, lone: bool)
    ensures TextTail([QUOTE] + t, lone) == Got(1, [])
  {}

  /** A written string reads back, whatever follows. */
  lemma TextReads(s: Bytes, t: Bytes, lone: bool)
    requires Utf8(s)
    ensures Text(CanonText(s) + t, lone) == Got(|CanonText(s)|, s)
  {
    hide TextTail, TextOut;
    TextOutReads(s, t, lone);
    assert (CanonText(s) + t)[1..] == TextOut(s) + t;
    assert [] + s == s;
  }

  // ------------------------------------------ the check makes reading exact

  /** Past the check, no half of a pair is ever replaced, and the check resumes after the string. */
  lemma {:induction false} CheckedText(s: Bytes)
    requires Inside(s) && TextTail(s, true).Got?
    ensures TextTail(s, false) == TextTail(s, true)
    ensures Outside(s[TextTail(s, true).n..])
    decreases |s|
  {
    hide Escape, Hex4, Encode;
    if s[0] == QUOTE {
    } else if s[0] == BACKSLASH {
      var k := AnyEscape(s, true).n;
      EscapeStep(s);
      CheckedText(s[k..]);
      assert s[k..][TextTail(s[k..], true).n..] == s[k + TextTail(s[k..], true).n..];
    } else {
      CheckedText(s[1..]);
      assert s[1..][TextTail(s[1..], true).n..] == s[1 + TextTail(s[1..], true).n..];
    }
  }

  lemma EscapeStep(s: Bytes)
    requires s != [] && s[0] == BACKSLASH && Inside(s) && AnyEscape(s, true).Got?
    ensures AnyEscape(s, false) == AnyEscape(s, true) && Inside(s[AnyEscape(s, true).n..])
  {
    hide Hex4;
  }

  /** A string read without replacement passes the check. */
  lemma {:induction false} ExactText(s: Bytes)
    requires TextTail(s, false).Got?
    ensures TextTail(s, true) == TextTail(s, false)
    ensures Inside(s) <==> Outside(s[TextTail(s, false).n..])
    decreases |s|
  {
    hide Escape, Hex4, Encode;
    if s[0] == QUOTE {
    } else if s[0] == BACKSLASH {
      var k := AnyEscape(s, false).n;
      ExactStep(s);
      ExactText(s[k..]);
      assert s[k..][TextTail(s[k..], false).n..] == s[k + TextTail(s[k..], false).n..];
    } else {
      ExactText(s[1..]);
      assert s[1..][TextTail(s[1..], false).n..] == s[1 + TextTail(s[1..], false).n..];
    }
  }

  lemma ExactStep(s: Bytes)
    requires s != [] && s[0] == BACKSLASH && AnyEscape(s, false).Got?
    ensures AnyEscape(s, true) == AnyEscape(s, false)
    ensures Inside(s) <==> Inside(s[AnyEscape(s, false).n..])
  {
    hide Hex4;
  }

  // -------------------------------------------------------------------- UTF-8

  lemma UnitIsAscii(s: Bytes, lone: bool)
    requires |s| >= 2 && s[0] < 0x80 && s[1] == 0x75 && Unit(s, lone).Got?
    ensures forall i :: 0 <= i < Unit(s, lone).n ==> s[i] < 0x80
  {
    hide Hex4;
    HexNeedsFour(s[2..]);
    HexAscii(s[2..]);
    assert forall i :: 2 <= i < 6 ==> s[i] == s[2..][i - 2];
    if Unit(s, lone).n > 6 {
      HexAscii(s[8..]);
      assert forall i :: 8 <= i < 12 ==> s[i] == s[8..][i - 8];
    }
  }

  lemma AnyEscapeIsAscii(s: Bytes, lone: bool)
    requires s != [] && s[0] == BACKSLASH && AnyEscape(s, lone).Got?
    ensures forall i :: 0 <= i < AnyEscape(s, lone).n ==> s[i] < 0x80
  {
    hide Unit, Hex4;
    if s[1] == 0x75 { UnitIsAscii(s, lone); } else { EscapeIsAscii(s); }
  }

  predicate ReadsWell(s: Bytes, lone: bool) {
    TextTail(s, lone).Got? ==> Utf8(TextTail(s, lone).v) && Utf8(s[TextTail(s, lone).n..])
  }

  lemma AheadReadsWell(s: Bytes, k: nat, a: Bytes, lone: bool)
    requires k <= |s| && TextTail(s, lone) == Ahead(k, a, TextTail(s[k..], lone))
    requires Utf8(a) && ReadsWell(s[k..], lone)
    ensures ReadsWell(s, lone)
  {
    hide TextTail, Utf8;
    var r := TextTail(s[k..], lone);
    if r.Got? {
      Utf8Concat(a, r.v);
      assert s[k..][r.n..] == s[k + r.n..];
    }
  }

  /** What reads from well-formed text is well formed, and so is what follows it. */
  lemma {:induction false} ReadIsUtf8(s: Bytes, lone: bool)
    requires Utf8(s) && s != []
    ensures ReadsWell(s, lone)
    decreases |s|, 2
  {
    hide RuneLen, AnyEscape, Encode, ReadsWell;
    var n := RuneLen(s);
    if n > 1 {
      RuneIsHigh(s);
      RuneAlone(s);
      assert s == s[..n] + s[n..];
      HighReads(s[..n], s[n..], lone);
      RestReadsWell(s, n, s[..n], lone);
    } else {
      RuneOfOne(s);
      if s[0] == QUOTE {
        QuoteReadsWell(s, lone);
      } else if s[0] == BACKSLASH {
        EscapeReadsWell(s, lone);
      } else if s[0] >= 0x20 {
        AsciiIsUtf8([s[0]]);
        RestReadsWell(s, 1, [s[0]], lone);
      } else {
        ControlReadsWell(s, lone);
      }
    }
  }

  lemma {:induction false} RestReadsWell(s: Bytes, k: nat, a: Bytes, lone: bool)
    requires 0 < k <= |s| && Utf8(s[k..]) && Utf8(a)
    requires TextTail(s, lone) == Ahead(k, a, TextTail(s[k..], lone))
    ensures ReadsWell(s, lone)
    decreases |s|, 0
  {
    hide TextTail, ReadsWell;
    if s[k..] != [] { ReadIsUtf8(s[k..], lone); } else { EmptyReadsWell(lone); }
    AheadReadsWell(s, k, a, lone);
  }

  lemma EmptyReadsWell(lone: bool)
    ensures ReadsWell([], lone)
  {}

  lemma QuoteReadsWell(s: Bytes, lone: bool)
    requires Utf8(s) && s != [] && s[0] == QUOTE
    ensures ReadsWell(s, lone)
  {}

  lemma ControlReadsWell(s: Bytes, lone: bool)
    requires s != [] && s[0] < 0x20
    ensures ReadsWell(s, lone)
  {}

  lemma {:induction false} EscapeReadsWell(s: Bytes, lone: bool)
    requires Utf8(s) && s != [] && s[0] == BACKSLASH
    ensures ReadsWell(s, lone)
    decreases |s|, 1
  {
    hide RuneLen, AnyEscape, Encode, Utf8;
    if AnyEscape(s, lone).Got? {
      var k := AnyEscape(s, lone).n;
      AnyEscapeIsAscii(s, lone);
      assert s == s[..k] + s[k..];
      Utf8Rest(s[..k], s[k..]);
      EncodeIsUtf8(AnyEscape(s, lone).v);
      RestReadsWell(s, k, Encode(AnyEscape(s, lone).v), lone);
    }
  }

  lemma {:induction false} EscapeCanonAscii(c: byte)
    requires c < 0x80
    ensures Utf8(EscapeCanon(c))
  {
    hide Utf8, EscapeByte;
    EscapeByteLow(c);
    AsciiIsUtf8(EscapeCanon(c));
  }

  lemma {:induction false} TextOutIsUtf8(s: Bytes)
    requires Utf8(s)
    ensures Utf8(TextOut(s))
    decreases |s|
  {
    hide RuneLen, EscapeCanon;
    if s == [] {
      AsciiIsUtf8([QUOTE]);
    } else {
      var n := RuneLen(s);
      TextOutIsUtf8(s[n..]);
      if n == 1 {
        RuneOfOne(s);
        EscapeCanonAscii(s[0]);
        Utf8Concat(EscapeCanon(s[0]), TextOut(s[1..]));
      } else {
        RuneAlone(s);
        Utf8Concat(s[..n], TextOut(s[n..]));
      }
    }
  }
}
