/**
 Scanning is local: what a scan takes depends only on the bytes it takes, and for a
 number on the byte that ends it.  Spans cut out of an accepted payload, and texts
 pasted together from accepted pieces, scan as they did in place.
 */
module JsonLocality {
  import opened ByteStrings
  import opened NumberDomain
  import opened JsonScan

  /** s and t begin with the same n bytes. */
  predicate Agree(s: Bytes, t: Bytes, n: nat) {
    n <= |s| && n <= |t| && s[..n] == t[..n]
  }

  lemma AgreeDrop(s: Bytes, t: Bytes, n: nat, c: nat)
    requires Agree(s, t, n) && c <= n
    ensures n <= |s| && n <= |t| && Agree(s[c..], t[c..], n - c)
  {
    assert s[c..][..n - c] == s[..n][c..] && t[c..][..n - c] == t[..n][c..];
  }

  lemma AgreeAll(s: Bytes, t: Bytes, n: nat)
    requires Agree(s, t, n)
    ensures n <= |s| && n <= |t|
    ensures forall i :: 0 <= i < n ==> s[i] == t[i]
  {
    assert forall i :: 0 <= i < n ==> s[..n][i] == s[i] && t[..n][i] == t[i];
  }

  lemma AgreeAt(s: Bytes, t: Bytes, n: nat, i: nat)
    requires Agree(s, t, n) && i < n
    ensures n <= |s| && n <= |t| && s[i] == t[i]
  {
    assert s[..n][i] == t[..n][i];
  }

  lemma AgreeSpan(s: Bytes, t: Bytes, n: nat, c: nat, e: nat)
    requires Agree(s, t, n) && c <= e <= n
    ensures n <= |s| && n <= |t| && s[c..e] == t[c..e]
  {
    assert s[c..e] == s[..n][c..e] && t[c..e] == t[..n][c..e];
  }

  lemma AgreeLess(s: Bytes, t: Bytes, n: nat, m: nat)
    requires Agree(s, t, n) && m <= n
    ensures Agree(s, t, m)
  {
    assert s[..m] == s[..n][..m] && t[..m] == t[..n][..m];
  }

  lemma {:induction false} SpacesLocal(s: Bytes, t: Bytes)
    requires Agree(s, t, Spaces(s) + 1)
    ensures Spaces(t) == Spaces(s)
  {
    AgreeAt(s, t, Spaces(s) + 1, 0);
    AgreeDrop(s, t, Spaces(s) + 1, 1);
    if IsSpace(s[0]) { SpacesLocal(s[1..], t[1..]); }
  }

  lemma {:induction false} DigitsLocal(s: Bytes, t: Bytes)
    requires Agree(s, t, Digits(s)) && (Digits(s) == |t| || !IsDigit(t[Digits(s)]))
    ensures Digits(t) == Digits(s)
  {
    var n := Digits(s);
    if n > 0 {
      AgreeAt(s, t, n, 0);
      AgreeDrop(s, t, n, 1);
      assert n < |t| ==> t[1..][n - 1] == t[n];
      DigitsLocal(s[1..], t[1..]);
    }
  }

  lemma {:induction false} HexPrefixLocal(s: Bytes, t: Bytes, k: nat)
    requires k <= |s| && k <= |t| && forall i :: 0 <= i < k ==> s[i] == t[i]
    ensures HexPrefix(t, k) == HexPrefix(s, k)
  {
    if k > 0 { HexPrefixLocal(s, t, k - 1); }
  }

  lemma HexLocal(s: Bytes, t: Bytes)
    requires Hex4(s).Got? && Agree(s, t, 4)
    ensures Hex4(t) == Hex4(s)
  {
    AgreeAll(s, t, 4);
    HexPrefixLocal(s, t, 4);
  }

  lemma EscapeLocal(s: Bytes, t: Bytes)
    requires Escape(s).Got? && Agree(s, t, Escape(s).n)
    ensures Escape(t) == Escape(s)
  {
    var k := Escape(s).n;
    AgreeAll(s, t, k);
    if s[1] == 0x75 {
      AgreeDrop(s, t, k, 2);
      AgreeLess(s[2..], t[2..], k - 2, 4);
      HexLocal(s[2..], t[2..]);
      if k == 12 {
        AgreeDrop(s, t, k, 8);
        HexLocal(s[8..], t[8..]);
      }
    }
  }

  lemma {:induction false} StringTailLocal(s: Bytes, t: Bytes)
    requires StringTail(s).Got? && Agree(s, t, StringTail(s).n)
    ensures StringTail(t) == StringTail(s)
    decreases |s|
  {
    var n := StringTail(s).n;
    AgreeAll(s, t, n);
    if s[0] == QUOTE {
    } else if s[0] == BACKSLASH {
      var k := Escape(s).n;
      AgreeLess(s, t, n, k);
      EscapeLocal(s, t);
      AgreeDrop(s, t, n, k);
      StringTailLocal(s[k..], t[k..]);
    } else {
      AgreeDrop(s, t, n, 1);
      StringTailLocal(s[1..], t[1..]);
    }
  }

  lemma StringLocal(s: Bytes, t: Bytes)
    requires String(s).Got? && Agree(s, t, String(s).n)
    ensures String(t) == String(s)
  {
    AgreeAt(s, t, String(s).n, 0);
    AgreeDrop(s, t, String(s).n, 1);
    StringTailLocal(s[1..], t[1..]);
  }

  /** A byte that could prolong a number. */
  predicate Prolongs(c: byte) {
    IsDigit(c) || c == DOT || c == 0x65 || c == 0x45
  }

  predicate EndsAt(t: Bytes, n: nat) {
    n <= |t| && (n < |t| ==> !Prolongs(t[n]))
  }

  lemma EndsDrop(t: Bytes, n: nat, c: nat)
    requires EndsAt(t, n) && c <= n
    ensures EndsAt(t[c..], n - c)
  {}

  lemma IntPartLocal(s: Bytes, t: Bytes, n: nat)
    requires IntPart(s).Got? && IntPart(s).n <= n && Agree(s, t, n) && EndsAt(t, n)
    ensures IntPart(t) == IntPart(s)
  {
    AgreeAll(s, t, n);
    var k := IntPart(s).n;
    AgreeLess(s, t, n, k);
    if s[0] != ZERO { DigitsLocal(s, t); }
  }

  lemma FracPartLocal(s: Bytes, t: Bytes, n: nat)
    requires FracPart(s).Got? && FracPart(s).n <= n && Agree(s, t, n) && EndsAt(t, n)
    ensures FracPart(t) == FracPart(s)
  {
    AgreeAll(s, t, n);
    var k := FracPart(s).n;
    if k > 0 {
      AgreeLess(s, t, n, k);
      AgreeDrop(s, t, k, 1);
      DigitsLocal(s[1..], t[1..]);
    }
  }

  lemma ExpPartLocal(s: Bytes, t: Bytes)
    requires ExpPart(s).Got? && Agree(s, t, ExpPart(s).n) && EndsAt(t, ExpPart(s).n)
    ensures ExpPart(t) == ExpPart(s)
  {
    var n := ExpPart(s).n;
    AgreeAll(s, t, n);
    if n > 0 {
      var g := if |s| > 1 && (s[1] == PLUS || s[1] == MINUS) then 2 else 1;
      AgreeDrop(s, t, n, g);
      DigitsLocal(s[g..], t[g..]);
    }
  }

  lemma NumeralLocal(s: Bytes, t: Bytes)
    requires Numeral(s).Got? && Agree(s, t, Numeral(s).n) && EndsAt(t, Numeral(s).n)
    ensures Numeral(t) == Numeral(s)
  {
    hide Agree, EndsAt, IntPart, FracPart, ExpPart;
    var n, g := Numeral(s).n, Sign(s);
    AgreeAll(s, t, n);
    AgreeDrop(s, t, n, g);
    EndsDrop(t, n, g);
    IntPartLocal(s[g..], t[g..], n - g);
    var i := IntPart(s[g..]).n;
    AgreeDrop(s, t, n, g + i);
    EndsDrop(t, n, g + i);
    FracPartLocal(s[g + i..], t[g + i..], n - g - i);
    var f := FracPart(s[g + i..]).n;
    AgreeDrop(s, t, n, g + i + f);
    EndsDrop(t, n, g + i + f);
    ExpPartLocal(s[g + i + f..], t[g + i + f..]);
  }

  lemma LiteralLocal(s: Bytes, t: Bytes, lit: Bytes)
    requires lit <= s && Agree(s, t, |lit|)
    ensures lit <= t
  {
    assert t[..|lit|] == lit;
  }

  lemma SpacesLocalAt(s: Bytes, t: Bytes, n: nat, j: nat)
    requires Agree(s, t, n) && j <= n && j + Spaces(s[j..]) < n
    ensures n <= |t| && Spaces(t[j..]) == Spaces(s[j..])
  {
    hide Agree, Spaces;
    AgreeDrop(s, t, n, j);
    AgreeLess(s[j..], t[j..], n - j, Spaces(s[j..]) + 1);
    SpacesLocal(s[j..], t[j..]);
  }

  lemma StringLocalAt(s: Bytes, t: Bytes, n: nat, j: nat)
    requires Agree(s, t, n) && j <= n && String(s[j..]).Got? && j + String(s[j..]).n <= n
    ensures n <= |t| && String(t[j..]) == String(s[j..])
  {
    hide Agree, String;
    AgreeDrop(s, t, n, j);
    AgreeLess(s[j..], t[j..], n - j, String(s[j..]).n);
    StringLocal(s[j..], t[j..]);
  }

  lemma KeyLocal(s: Bytes, t: Bytes)
    requires Key(s).Got? && Agree(s, t, Key(s).n + 1)
    ensures Key(t) == Key(s)
  {
    hide Agree, String, Spaces;
    var n := Key(s).n + 1;
    var a := Spaces(s);
    AgreeLess(s, t, n, a + 1);
    SpacesLocal(s, t);
    StringLocalAt(s, t, n, a);
    var e := a + String(s[a..]).n;
    SpacesLocalAt(s, t, n, e);
    var b := e + Spaces(s[e..]);
    AgreeAt(s, t, n, b);
    SpacesLocalAt(s, t, n, b + 1);
  }

  lemma SeparatorLocal(s: Bytes, t: Bytes, closing: byte)
    requires Separator(s, closing).Got? && Agree(s, t, Separator(s, closing).n)
    ensures Separator(t, closing) == Separator(s, closing)
  {
    AgreeAll(s, t, Separator(s, closing).n);
    SpacesLocal(s, t);
  }

  lemma SeparatorEnds(s: Bytes, closing: byte)
    requires Separator(s, closing).Got? && (closing == RBRACE || closing == RBRACKET)
    ensures s != [] && !Prolongs(s[0])
  {}

  // ---------------------------------------------------- values and containers

  lemma {:induction false} ValueLocal(s: Bytes, t: Bytes, room: nat)
    requires Value(s, room).Got? && Agree(s, t, Value(s, room).n) && EndsAt(t, Value(s, room).n)
    ensures Value(t, room) == Value(s, room)
    decreases |s|, 2
  {
    var n := Value(s, room).n;
    AgreeAt(s, t, n, 0);
    if s[0] == LBRACE {
      ObjectLocal(s, t, room - 1);
    } else if s[0] == LBRACKET {
      ArrayLocal(s, t, room - 1);
    } else if s[0] == QUOTE {
      StringLocal(s, t);
    } else if s[0] == MINUS || IsDigit(s[0]) {
      NumeralLocal(s, t);
      AgreeSpan(s, t, n, 0, n);
    } else if s[0] == 0x74 {
      LiteralLocal(s, t, TRUE);
    } else if s[0] == 0x66 {
      LiteralLocal(s, t, FALSE);
    } else {
      LiteralLocal(s, t, NULL);
    }
  }

  lemma {:induction false} ObjectLocal(s: Bytes, t: Bytes, room: nat)
    requires s != [] && Object(s, room).Got? && Agree(s, t, Object(s, room).n)
    ensures t != [] && Object(t, room) == Object(s, room)
    decreases |s|, 1
  {
    hide Agree, Members, Spaces;
    var n := Object(s, room).n;
    AgreeDrop(s, t, n, 1);
    var a := 1 + Spaces(s[1..]);
    AgreeAt(s, t, n, a);
    AgreeLess(s[1..], t[1..], n - 1, a);
    SpacesLocal(s[1..], t[1..]);
    if s[a] != RBRACE {
      AgreeDrop(s, t, n, a);
      MembersLocal(s[a..], t[a..], room);
    }
  }

  lemma {:induction false} EntryLocal(s: Bytes, t: Bytes, room: nat)
    requires Entry(s, room).Got? && Agree(s, t, Entry(s, room).n)
    ensures Entry(t, room) == Entry(s, room)
    decreases |s|, 0
  {
    hide Agree, Key, Value, Separator;
    var n := Entry(s, room).n;
    var c := Key(s).n;
    var e := c + Value(s[c..], room).n;
    AgreeLess(s, t, n, c + 1);
    KeyLocal(s, t);
    AgreeDrop(s, t, n, e);
    SeparatorLocal(s[e..], t[e..], RBRACE);
    SeparatorEnds(t[e..], RBRACE);
    AgreeDrop(s, t, n, c);
    AgreeLess(s[c..], t[c..], n - c, e - c);
    AgreeSpan(s, t, n, c, e);
    assert t[c..][e - c] == t[e..][0];
    ValueLocal(s[c..], t[c..], room);
  }

  lemma {:induction false} MembersLocal(s: Bytes, t: Bytes, room: nat)
    requires Members(s, room).Got? && Agree(s, t, Members(s, room).n)
    ensures Members(t, room) == Members(s, room)
    decreases |s|, 1
  {
    hide Agree, Entry;
    var n := Entry(s, room).n;
    AgreeLess(s, t, Members(s, room).n, n);
    EntryLocal(s, t, room);
    if Entry(s, room).v.1 {
      AgreeDrop(s, t, Members(s, room).n, n);
      MembersLocal(s[n..], t[n..], room);
    }
  }

  lemma {:induction false} ArrayLocal(s: Bytes, t: Bytes, room: nat)
    requires s != [] && Array(s, room).Got? && Agree(s, t, Array(s, room).n)
    ensures t != [] && Array(t, room) == Array(s, room)
    decreases |s|, 1
  {
    hide Agree, Elements, Spaces;
    var n := Array(s, room).n;
    AgreeDrop(s, t, n, 1);
    var a := 1 + Spaces(s[1..]);
    AgreeAt(s, t, n, a);
    AgreeLess(s[1..], t[1..], n - 1, a);
    SpacesLocal(s[1..], t[1..]);
    if s[a] != RBRACKET {
      AgreeDrop(s, t, n, a);
      ElementsLocal(s[a..], t[a..], room);
    }
  }

  lemma {:induction false} ItemLocal(s: Bytes, t: Bytes, room: nat)
    requires Item(s, room).Got? && Agree(s, t, Item(s, room).n)
    ensures Item(t, room) == Item(s, room)
    decreases |s|, 3
  {
    hide Agree, Value, Separator, Spaces;
    var n := Item(s, room).n;
    var c := Spaces(s);
    var e := c + Value(s[c..], room).n;
    AgreeLess(s, t, n, c + 1);
    SpacesLocal(s, t);
    AgreeDrop(s, t, n, e);
    SeparatorLocal(s[e..], t[e..], RBRACKET);
    SeparatorEnds(t[e..], RBRACKET);
    AgreeDrop(s, t, n, c);
    AgreeLess(s[c..], t[c..], n - c, e - c);
    AgreeSpan(s, t, n, c, e);
    assert t[c..][e - c] == t[e..][0];
    ValueLocal(s[c..], t[c..], room);
  }

  lemma {:induction false} ElementsLocal(s: Bytes, t: Bytes, room: nat)
    requires Elements(s, room).Got? && Agree(s, t, Elements(s, room).n)
    ensures Elements(t, room) == Elements(s, room)
    decreases |s|, 4
  {
    hide Agree, Item;
    var n := Item(s, room).n;
    AgreeLess(s, t, Elements(s, room).n, n);
    ItemLocal(s, t, room);
    if Item(s, room).v.1 {
      AgreeDrop(s, t, Elements(s, room).n, n);
      ElementsLocal(s[n..], t[n..], room);
    }
  }
}
