/** The check on UTF-8 against the code points it stands for (section 3 of RFC 3629). */
module Utf8Exact {
  import opened ByteStrings

  predicate ScalarValue(r: nat) {
    r <= 0x10FFFF && !(0xD800 <= r <= 0xDFFF)
  }

  /** What is left of a byte without its marking bits. */
  function Bits(c: byte, mark: int): int {
    c as int - mark
  }

  /** The number that the bits of one character's bytes make, by how many bytes it has. */
  function Decoded(b: Bytes): int {
    if |b| == 1 then b[0]
    else if |b| == 2 then 64 * Bits(b[0], 0xC0) + Bits(b[1], 0x80)
    else if |b| == 3 then 4096 * Bits(b[0], 0xE0) + 64 * Bits(b[1], 0x80) + Bits(b[2], 0x80)
    else if |b| == 4 then 262144 * Bits(b[0], 0xF0) + 4096 * Bits(b[1], 0x80) + 64 * Bits(b[2], 0x80) + Bits(b[3], 0x80)
    else -1
  }

  /** Bytes of the form 10xxxxxx after the first. */
  predicate Continued(b: Bytes) {
    forall i :: 1 <= i < |b| ==> 0x80 <= b[i] <= 0xBF
  }

  /** A code point is written in the fewest bytes that hold it, and its bits read back. */
  lemma EncodeExactly(r: nat)
    requires ScalarValue(r)
    ensures var b := Encode(r);
            && Decoded(b) == r && Continued(b)
            && |b| == (if r <= 0x7F then 1 else if r <= 0x7FF then 2 else if r <= 0xFFFF then 3 else 4)
            && (|b| == 2 ==> 0xC0 <= b[0] <= 0xDF) && (|b| == 3 ==> 0xE0 <= b[0] <= 0xEF) && (|b| == 4 ==> 0xF0 <= b[0] <= 0xF7)
  {
    var q, q2, q3 := r / 0x40, r / 0x1000, r / 0x40000;
    SplitSix(r);
    assert r == 64 * q + r % 0x40 && q == 64 * q2 + q % 0x40 && q2 == 64 * q3 + q2 % 0x40;
  }

  lemma SplitSix(r: nat)
    ensures r / 0x40 / 0x40 == r / 0x1000 && r / 0x1000 / 0x40 == r / 0x40000
  {}

  lemma RuneLenOf(r: nat, t: Bytes)
    requires ScalarValue(r)
    ensures RuneLen(Encode(r) + t) == |Encode(r)|
  {
    var b := Encode(r);
    assert forall i :: 0 <= i < |b| ==> (b + t)[i] == b[i];
  }

  lemma Packed(x: nat, y: nat)
    requires y < 64
    ensures (64 * x + y) / 0x40 == x && (64 * x + y) % 0x40 == y
  {}

  lemma Two(x: nat, y: nat)
    requires 2 <= x < 32 && y < 64
    ensures ScalarValue(64 * x + y) && Encode(64 * x + y) == [0xC0 + x, 0x80 + y]
  {
    Packed(x, y);
  }

  lemma Three(x: nat, y: nat, z: nat)
    requires x < 16 && y < 64 && z < 64 && (x == 0 ==> y >= 32) && (x == 13 ==> y < 32)
    ensures ScalarValue(4096 * x + 64 * y + z) && Encode(4096 * x + 64 * y + z) == [0xE0 + x, 0x80 + y, 0x80 + z]
  {
    var r := 4096 * x + 64 * y + z;
    Packed(64 * x + y, z);
    Packed(x, y);
    SplitSix(r);
  }

  lemma Four(x: nat, y: nat, z: nat, w: nat)
    requires x <= 4 && y < 64 && z < 64 && w < 64 && (x == 0 ==> y >= 16) && (x == 4 ==> y < 16)
    ensures var r := 262144 * x + 4096 * y + 64 * z + w;
            ScalarValue(r) && Encode(r) == [0xF0 + x, 0x80 + y, 0x80 + z, 0x80 + w]
  {
    var r := 262144 * x + 4096 * y + 64 * z + w;
    Packed(4096 * x + 64 * y + z, w);
    Packed(64 * x + y, z);
    Packed(x, y);
    SplitSix(r);
  }

  /** What the check takes as one character is a code point written in its fewest bytes. */
  lemma RuneIsEncoded(s: Bytes) returns (r: nat)
    requires RuneLen(s) > 0
    ensures ScalarValue(r) && Encode(r) == s[..RuneLen(s)]
  {
    hide Encode;
    var n := RuneLen(s);
    if n == 1 {
      r := s[0];
      One(r);
      assert s[..1] == [s[0]];
    } else if n == 2 {
      r := 64 * Bits(s[0], 0xC0) + Bits(s[1], 0x80);
      Two(Bits(s[0], 0xC0), Bits(s[1], 0x80));
      assert s[..2] == [s[0], s[1]];
    } else if n == 3 {
      r := 4096 * Bits(s[0], 0xE0) + 64 * Bits(s[1], 0x80) + Bits(s[2], 0x80);
      Three(Bits(s[0], 0xE0), Bits(s[1], 0x80), Bits(s[2], 0x80));
      assert s[..3] == [s[0], s[1], s[2]];
    } else {
      r := 262144 * Bits(s[0], 0xF0) + 4096 * Bits(s[1], 0x80) + 64 * Bits(s[2], 0x80) + Bits(s[3], 0x80);
      Four(Bits(s[0], 0xF0), Bits(s[1], 0x80), Bits(s[2], 0x80), Bits(s[3], 0x80));
      assert s[..4] == [s[0], s[1], s[2], s[3]];
    }
  }

  lemma One(r: nat)
    requires r < 0x80
    ensures ScalarValue(r) && Encode(r) == [r]
  {}

  function EncodeAll(rs: seq<nat>): Bytes
    requires forall i :: 0 <= i < |rs| ==> ScalarValue(rs[i])
  {
    if rs == [] then [] else
      assert ScalarValue(rs[0]);
      Encode(rs[0]) + EncodeAll(rs[1..])
  }

  ghost predicate Spells(rs: seq<nat>, s: Bytes) {
    (forall i :: 0 <= i < |rs| ==> ScalarValue(rs[i])) && s == EncodeAll(rs)
  }

  lemma {:induction false} EncodedIsUtf8(rs: seq<nat>)
    requires forall i :: 0 <= i < |rs| ==> ScalarValue(rs[i])
    ensures Utf8(EncodeAll(rs))
  {
    hide Encode, RuneLen;
    if rs != [] {
      EncodedIsUtf8(rs[1..]);
      var b, t := Encode(rs[0]), EncodeAll(rs[1..]);
      RuneLenOf(rs[0], t);
      EncodeExactly(rs[0]);
      assert (b + t)[|b|..] == t;
    }
  }

  lemma {:induction false} Utf8IsEncoded(s: Bytes) returns (rs: seq<nat>)
    requires Utf8(s)
    ensures Spells(rs, s)
    decreases |s|
  {
    hide Encode, RuneLen;
    if s == [] {
      rs := [];
    } else {
      var n := RuneLen(s);
      var r := RuneIsEncoded(s);
      var rest := Utf8IsEncoded(s[n..]);
      rs := [r] + rest;
      assert rs[1..] == rest && s == s[..n] + s[n..];
    }
  }

  /** A text passes the check exactly when it is a sequence of code points, none a surrogate, each in its fewest bytes. */
  lemma Utf8Exactly(s: Bytes)
    ensures Utf8(s) <==> exists rs :: Spells(rs, s)
  {
    hide Utf8, EncodeAll;
    if Utf8(s) { var rs := Utf8IsEncoded(s); }
    if rs :| Spells(rs, s) { EncodedIsUtf8(rs); }
  }
}
