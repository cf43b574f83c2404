/** Writing a string as JSON, and reading it back. */
module JsonQuote {
  import opened ByteStrings
  import opened JsonScan
  import opened StrictScanner
  import opened JsonReaders

  function HexChar(n: nat): byte
    requires n < 16
  {
    if n < 10 then ZERO + n else 0x61 + n - 10
  }

  function EscapeByte(c: byte): (e: Bytes)
    ensures e != []
  {
    if c == QUOTE then [BACKSLASH, QUOTE]
    else if c == BACKSLASH then [BACKSLASH, BACKSLASH]
    else if c == 0x0A then [BACKSLASH, 0x6E]
    else if c == 0x0D then [BACKSLASH, 0x72]
    else if c == 0x09 then [BACKSLASH, 0x74]
    else if c < 0x20 then [BACKSLASH, 0x75, ZERO, ZERO, HexChar(c / 16), HexChar(c % 16)]
    else [c]
  }

  function QuoteTail(s: Bytes): Bytes {
    if s == [] then [QUOTE] else EscapeByte(s[0]) + QuoteTail(s[1..])
  }

  function Quote(s: Bytes): Bytes {
    [QUOTE] + QuoteTail(s)
  }

  /** appendJSONString. */
  method AppendJSONString(out: Bytes, s: Bytes) returns (r: Bytes)
    ensures r == out + Quote(s)
  {
    r := out + [QUOTE];
    var i := 0;
    while i < |s|
      invariant 0 <= i <= |s|
      invariant out + Quote(s) == r + QuoteTail(s[i..])
    {
      var c := s[i];
      assert s[i..][1..] == s[i + 1..];
      assert r + (EscapeByte(c) + QuoteTail(s[i + 1..])) == r + EscapeByte(c) + QuoteTail(s[i + 1..]);
      if c == QUOTE {
        r := r + [BACKSLASH, QUOTE];
      } else if c == BACKSLASH {
        r := r + [BACKSLASH, BACKSLASH];
      } else if c < 0x20 {
        if c == 0x0A {
          r := r + [BACKSLASH, 0x6E];
        } else if c == 0x0D {
          r := r + [BACKSLASH, 0x72];
        } else if c == 0x09 {
          r := r + [BACKSLASH, 0x74];
        } else {
          r := r + [BACKSLASH, 0x75, ZERO, ZERO, HexChar(c / 16), HexChar(c % 16)];
        }
      } else {
        r := r + [c];
      }
      i := i + 1;
    }
    return r + [QUOTE];
  }

  // ------------------------------------------------------------- round trips

  lemma HexCharDigit(n: nat)
    requires n < 16
    ensures HexDigit(HexChar(n)) == Got(1, n)
  {}

  lemma ControlEscape(c: byte, u: Bytes)
    requires c < 0x20
    ensures var s := [BACKSLASH, 0x75, ZERO, ZERO, HexChar(c / 16), HexChar(c % 16)] + u;
            Escape(s) == if c == 0 then Fail else Got(6, c)
  {
    var e: Bytes := [BACKSLASH, 0x75, ZERO, ZERO, HexChar(c / 16), HexChar(c % 16)];
    var h := (e + u)[2..];
    assert h[0] == ZERO && h[1] == ZERO && h[2] == HexChar(c / 16) && h[3] == HexChar(c % 16);
    HexCharDigit(c / 16);
    HexCharDigit(c % 16);
    assert HexPrefix(h, 1) == Got(1, 0);
    assert HexPrefix(h, 2) == Got(2, 0);
    assert HexPrefix(h, 3) == Got(3, c / 16);
    assert HexPrefix(h, 4) == Got(4, c);
  }

  /** Reading what was written for one byte gives that byte back, except that a NUL is refused. */
  lemma TailStep(c: byte, u: Bytes)
    ensures StringTail(EscapeByte(c) + u) ==
            if c == 0 then Fail else Before(|EscapeByte(c)|, [c], StringTail(u))
  {
    hide Escape, UnicodeEscape;
    var e := EscapeByte(c);
    var s := e + u;
    assert s[|e|..] == u && s[0] == e[0];
    if |e| == 6 {
      ControlEscape(c, u);
    } else if |e| == 2 {
      ShortEscape(c, u);
    }
  }

  lemma ShortEscape(c: byte, u: Bytes)
    requires |EscapeByte(c)| == 2
    ensures Escape(EscapeByte(c) + u) == Got(2, c)
  {
    assert (EscapeByte(c) + u)[1] == EscapeByte(c)[1];
  }

  lemma {:induction false} QuoteTailReads(s: Bytes, t: Bytes)
    ensures 0 !in s ==> StringTail(QuoteTail(s) + t) == Got(|QuoteTail(s)|, s)
    ensures 0 in s ==> StringTail(QuoteTail(s) + t).Fail?
  {
    hide StringTail;
    if s == [] {
      ClosingQuote(t);
    } else {
      var e, q := EscapeByte(s[0]), QuoteTail(s[1..]);
      QuoteTailReads(s[1..], t);
      TailStep(s[0], q + t);
      assert QuoteTail(s) + t == e + (q + t);
      assert s == [s[0]] + s[1..];
    }
  }

  lemma ClosingQuote(t: Bytes)
    ensures StringTail([QUOTE] + t) == Got(1, [])
  {}

  /** A written string scans as one string, whatever follows, and reads back as what was written. */
  lemma QuoteReads(s: Bytes, t: Bytes)
    requires 0 !in s
    ensures String(Quote(s) + t) == Got(|Quote(s)|, s)
  {
    QuoteTailReads(s, t);
    assert (Quote(s) + t)[1..] == QuoteTail(s) + t;
  }

  /** decodeJSONString undoes appendJSONString on every text without a NUL, and refuses the rest. */
  lemma DecodeUndoesQuote(s: Bytes)
    ensures 0 !in s ==> DecodeString(Quote(s)) == Got(|Quote(s)|, s)
    ensures 0 in s ==> DecodeString(Quote(s)).Fail?
  {
    QuoteTailReads(s, []);
    assert Quote(s)[1..] == QuoteTail(s) + [];
  }

  /** Text with nothing to escape is written as it stands. */
  predicate NeedsNoEscape(s: Bytes) {
    forall i :: 0 <= i < |s| ==> 0x20 <= s[i] < 0x80 && s[i] != QUOTE && s[i] != BACKSLASH
  }

  lemma {:induction false} QuotePlain(s: Bytes)
    requires NeedsNoEscape(s)
    ensures QuoteTail(s) == s + [QUOTE] && 0 !in s
  {
    if s != [] {
      QuotePlain(s[1..]);
      assert s == [s[0]] + s[1..];
    }
  }

  // -------------------------------------------------------------------- UTF-8

  lemma {:induction false} EscapeByteAscii(c: byte)
    requires c < 0x80
    ensures Utf8(EscapeByte(c))
  {
    hide Utf8;
    EscapeByteLow(c);
    AsciiIsUtf8(EscapeByte(c));
  }

  lemma EscapeByteLow(c: byte)
    requires c < 0x80
    ensures forall i :: 0 <= i < |EscapeByte(c)| ==> EscapeByte(c)[i] < 0x80
  {}

  /** A character of several bytes passes through unescaped. */
  lemma {:induction false} QuoteTailHigh(s: Bytes, n: nat)
    requires n <= |s| && forall i :: 0 <= i < n ==> s[i] >= 0x80
    ensures QuoteTail(s) == s[..n] + QuoteTail(s[n..])
    decreases n
  {
    hide EscapeByte, QuoteTail;
    if n == 0 {
      assert s[0..] == s && s[..0] + QuoteTail(s) == QuoteTail(s);
    } else {
      QuoteTailHigh(s[1..], n - 1);
      QuoteHead(s);
      HeadAndRest(s, n, QuoteTail(s[n..]));
    }
  }

  lemma {:induction false} QuoteHead(s: Bytes)
    requires s != [] && s[0] >= 0x80
    ensures QuoteTail(s) == [s[0]] + QuoteTail(s[1..])
  {
    hide EscapeByte;
    HighAsIs(s[0]);
  }

  lemma HeadAndRest(s: Bytes, n: nat, q: Bytes)
    requires 0 < n <= |s|
    ensures s[1..][n - 1..] == s[n..] && [s[0]] + (s[1..][..n - 1] + q) == s[..n] + q
  {}

  lemma HighAsIs(c: byte)
    requires c >= 0x80
    ensures EscapeByte(c) == [c]
  {}

  lemma RuneIsHigh(s: Bytes)
    requires RuneLen(s) > 1
    ensures forall i :: 0 <= i < RuneLen(s) ==> s[i] >= 0x80
  {}

  lemma RuneAlone(s: Bytes)
    requires RuneLen(s) > 0
    ensures Utf8(s[..RuneLen(s)])
  {
    var r := s[..RuneLen(s)];
    assert RuneLen(r) == RuneLen(s);
    assert r[RuneLen(s)..] == [];
  }

  lemma {:induction false} QuoteIsUtf8(s: Bytes)
    requires Utf8(s)
    ensures Utf8(QuoteTail(s))
    decreases |s|
  {
    hide RuneLen;
    if s == [] {
      AsciiIsUtf8([QUOTE]);
    } else {
      var n := RuneLen(s);
      QuoteIsUtf8(s[n..]);
      if n == 1 {
        RuneOfOne(s);
        EscapeByteAscii(s[0]);
        Utf8Concat(EscapeByte(s[0]), QuoteTail(s[1..]));
      } else {
        RuneIsHigh(s);
        QuoteTailHigh(s, n);
        RuneAlone(s);
        Utf8Concat(s[..n], QuoteTail(s[n..]));
      }
    }
  }

  lemma RuneOfOne(s: Bytes)
    requires RuneLen(s) == 1
    ensures s[0] < 0x80
  {}

  /** Bytes of one long character pass through decoding unchanged. */
  lemma {:induction false} TailHigh(s: Bytes, n: nat)
    requires n <= |s| && forall i :: 0 <= i < n ==> s[i] >= 0x80
    ensures StringTail(s) == Before(n, s[..n], StringTail(s[n..]))
  {
    if n == 0 {
      assert s[0..] == s;
      BeforeNothing(StringTail(s));
    } else {
      TailHigh(s[1..], n - 1);
      assert s[1..][n - 1..] == s[n..];
      assert s[..n] == [s[0]] + s[1..][..n - 1];
      BeforeTwice(1, [s[0]], n - 1, s[1..][..n - 1], StringTail(s[n..]));
    }
  }

  /** What decodes from well-formed text is well formed, and holds no NUL. */
  lemma {:induction false} DecodedIsUtf8(s: Bytes)
    requires Utf8(s) && StringTail(s).Got?
    ensures Utf8(StringTail(s).v) && 0 !in StringTail(s).v
    decreases |s|
  {
    hide RuneLen, Escape, Encode;
    var n := RuneLen(s);
    if n > 1 {
      RuneIsHigh(s);
      TailHigh(s, n);
      RuneAlone(s);
      DecodedIsUtf8(s[n..]);
      Utf8Concat(s[..n], StringTail(s[n..]).v);
    } else {
      RuneOfOne(s);
      if s[0] == QUOTE {
      } else if s[0] == BACKSLASH {
        var k := Escape(s).n;
        EscapeIsAscii(s);
        assert s == s[..k] + s[k..];
        Utf8Rest(s[..k], s[k..]);
        DecodedIsUtf8(s[k..]);
        EncodeIsUtf8(Escape(s).v);
        Utf8Concat(Encode(Escape(s).v), StringTail(s[k..]).v);
      } else {
        DecodedIsUtf8(s[1..]);
        AsciiIsUtf8([s[0]]);
        Utf8Concat([s[0]], StringTail(s[1..]).v);
      }
    }
  }

  lemma EscapeIsAscii(s: Bytes)
    requires Escape(s).Got? && s[0] == BACKSLASH
    ensures forall i :: 0 <= i < Escape(s).n ==> s[i] < 0x80
  {
    if Escape(s).n > 2 {
      HexAscii(s[2..]);
      assert forall i :: 2 <= i < 6 ==> s[i] == s[2..][i - 2];
      if Escape(s).n > 6 {
        HexAscii(s[8..]);
        assert forall i :: 8 <= i < 12 ==> s[i] == s[8..][i - 8];
      }
    }
  }

  lemma HexAscii(s: Bytes)
    requires Hex4(s).Got?
    ensures forall i :: 0 <= i < 4 ==> s[i] < 0x80
  {
    assert HexPrefix(s, 3).Got? && HexPrefix(s, 2).Got? && HexPrefix(s, 1).Got?;
  }

  lemma {:induction false} Utf8Rest(a: Bytes, b: Bytes)
    requires Utf8(a + b) && forall i :: 0 <= i < |a| ==> a[i] < 0x80
    ensures Utf8(b)
  {
    if a == [] {
      assert a + b == b;
    } else {
      assert (a + b)[1..] == a[1..] + b;
      Utf8Rest(a[1..], b);
    }
  }
}
