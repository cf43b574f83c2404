/**
 The fast array reader counts braces outside strings and never looks at the rest.  On
 every strict array of objects it cuts exactly the spans the full scanner cuts.
 */
module JsonBraces {
  import opened ByteStrings
  import opened NumberDomain
  import opened JsonScan
  import opened JsonSpans

  // ------------------------------------------------------------ the automaton

  datatype Brace = Brace(depth: nat, inString: bool, escaped: bool)

  function Step(st: Brace, c: byte): Brace {
    if st.inString then
      if st.escaped then st.(escaped := false)
      else if c == BACKSLASH then st.(escaped := true)
      else if c == QUOTE then st.(inString := false)
      else st
    else if c == QUOTE then st.(inString := true)
    else if c == LBRACE then st.(depth := st.depth + 1)
    else if c == RBRACE then st.(depth := if st.depth == 0 then 0 else st.depth - 1)
    else st
  }

  predicate Stops(st: Brace) {
    st.depth == 0 && !st.inString
  }

  /** How many bytes the brace counter takes before it stops, if it stops. */
  function Run(s: Bytes, st: Brace): (r: Scan<()>)
    ensures r.Got? ==> 1 <= r.n <= |s|
  {
    if s == [] then Fail
    else if Stops(Step(st, s[0])) then Got(1, ())
    else Jump(1, Run(s[1..], Step(st, s[0])))
  }

  function Jump(n: nat, r: Scan<()>): Scan<()> {
    match r
    case Fail => Fail
    case Got(k, u) => Got(n + k, u)
  }

  const START: Brace := Brace(0, false, false)

  /** One object by its braces, and the white space and comma after it. */
  function LooseObject(s: Bytes): (r: Scan<Bytes>)
    ensures r.Got? ==> 1 <= r.n <= |s|
  {
    match Run(s, START)
    case Fail => Fail
    case Got(n, _) =>
      var e := n + Spaces(s[n..]);
      Got(if e < |s| && s[e] == COMMA then e + 1 else e, s[..n])
  }

  /** ObjectArray after its opening bracket. */
  function Loose(s: Bytes): (r: Scan<seq<Bytes>>)
    decreases |s|
  {
    var a := Spaces(s);
    if a >= |s| then Fail
    else if s[a] == RBRACKET then Got(a + 1, [])
    else if s[a] != LBRACE then Fail
    else match LooseObject(s[a..])
      case Fail => Fail
      case Got(k, span) =>
        match Loose(s[a + k..])
        case Fail => Fail
        case Got(q, more) => Got(a + k + q, [span] + more)
  }

  function LooseArray(raw: Bytes): Scan<seq<Bytes>> {
    var a := Spaces(raw);
    if a >= |raw| || raw[a] != LBRACKET then Fail else Loose(raw[a + 1..])
  }

  // --------------------------------------------- the counter skips whole pieces

  const OPEN := (d: nat) => Brace(d, false, false)

  /** n bytes of s leave the counter in the state it was in. */
  ghost predicate Skips(s: Bytes, n: nat, st: Brace, then_: Brace) {
    n <= |s| && Run(s, st) == Jump(n, Run(s[n..], then_))
  }

  lemma JumpTwice(a: nat, b: nat, r: Scan<()>)
    ensures Jump(a, Jump(b, r)) == Jump(a + b, r)
  {}

  lemma SkipsNothing(s: Bytes, st: Brace)
    ensures Skips(s, 0, st, st)
  {
    assert s[0..] == s;
  }

  lemma SkipsOne(s: Bytes, st: Brace)
    requires s != [] && !Stops(Step(st, s[0]))
    ensures Skips(s, 1, st, Step(st, s[0]))
  {}

  lemma SkipsThen(s: Bytes, a: nat, b: nat, st: Brace, mid: Brace, end: Brace)
    requires Skips(s, a, st, mid) && Skips(s[a..], b, mid, end)
    ensures Skips(s, a + b, st, end)
  {
    assert s[a..][b..] == s[a + b..];
    JumpTwice(a, b, Run(s[a + b..], end));
  }

  /** A byte that the counter ignores outside strings. */
  predicate Plain(c: byte) {
    c != QUOTE && c != LBRACE && c != RBRACE
  }

  lemma {:induction false} SkipsPlain(s: Bytes, n: nat, st: Brace)
    requires n <= |s| && st.depth > 0 && !st.inString
    requires forall i :: 0 <= i < n ==> Plain(s[i])
    ensures Skips(s, n, st, st)
  {
    if n == 0 {
      SkipsNothing(s, st);
    } else {
      SkipsOne(s, st);
      SkipsPlain(s[1..], n - 1, st);
      SkipsThen(s, 1, n - 1, st, st, st);
    }
  }

  /** Bytes of a string that are neither its end nor an escape. */
  lemma {:induction false} SkipsInside(s: Bytes, n: nat, st: Brace)
    requires n <= |s| && st.inString && !st.escaped
    requires forall i :: 0 <= i < n ==> s[i] != QUOTE && s[i] != BACKSLASH
    ensures Skips(s, n, st, st)
  {
    if n == 0 {
      SkipsNothing(s, st);
    } else {
      SkipsOne(s, st);
      SkipsInside(s[1..], n - 1, st);
      SkipsThen(s, 1, n - 1, st, st, st);
    }
  }

  /** A backslash, the byte after it, and then bytes that end nothing. */
  lemma SkipsEscaped(s: Bytes, n: nat, st: Brace)
    requires 2 <= n <= |s| && st.inString && !st.escaped && s[0] == BACKSLASH
    requires forall i :: 2 <= i < n ==> s[i] != QUOTE && s[i] != BACKSLASH
    ensures Skips(s, n, st, st)
  {
    hide Skips;
    var esc := st.(escaped := true);
    SkipsOne(s, st);
    SkipsOne(s[1..], esc);
    SkipsThen(s, 1, 1, st, esc, st);
    SkipsInside(s[2..], n - 2, st);
    SkipsThen(s, 2, n - 2, st, st, st);
  }

  lemma HexIsInside(s: Bytes)
    requires Hex4(s).Got?
    ensures forall i :: 0 <= i < 4 ==> s[i] != QUOTE && s[i] != BACKSLASH
  {
    forall i: nat | i < 4 ensures s[i] != QUOTE && s[i] != BACKSLASH {
      HexPrefixDigit(s, i, 4);
    }
  }

  lemma {:induction false} HexPrefixDigit(s: Bytes, i: nat, k: nat)
    requires i < k <= |s| && HexPrefix(s, k).Got?
    ensures HexDigit(s[i]).Got?
  {
    if i < k - 1 { HexPrefixDigit(s, i, k - 1); }
  }

  lemma SkipsEscape(s: Bytes, st: Brace)
    requires Escape(s).Got? && s[0] == BACKSLASH && st.inString && !st.escaped
    ensures Skips(s, Escape(s).n, st, st)
  {
    hide Skips;
    var n := Escape(s).n;
    if n > 2 {
      HexIsInside(s[2..]);
      assert forall i :: 2 <= i < 6 ==> s[i] == s[2..][i - 2];
      SkipsEscaped(s, 6, st);
      if n == 12 {
        HexIsInside(s[8..]);
        var t := s[6..];
        assert forall i :: 2 <= i < 6 ==> t[i] == s[8..][i - 2];
        SkipsEscaped(t, 6, st);
        SkipsThen(s, 6, 6, st, st, st);
      }
    } else {
      SkipsEscaped(s, 2, st);
    }
  }

  lemma {:induction false} SkipsTail(s: Bytes, d: nat)
    requires StringTail(s).Got? && d > 0
    ensures Skips(s, StringTail(s).n, Brace(d, true, false), OPEN(d))
    decreases |s|
  {
    hide Skips, Escape;
    var st := Brace(d, true, false);
    if s[0] == QUOTE {
      SkipsOne(s, st);
    } else if s[0] == BACKSLASH {
      var k := Escape(s).n;
      SkipsEscape(s, st);
      SkipsTail(s[k..], d);
      SkipsThen(s, k, StringTail(s[k..]).n, st, st, OPEN(d));
    } else {
      SkipsOne(s, st);
      SkipsTail(s[1..], d);
      SkipsThen(s, 1, StringTail(s[1..]).n, st, st, OPEN(d));
    }
  }

  lemma SkipsString(s: Bytes, d: nat)
    requires String(s).Got? && d > 0
    ensures Skips(s, String(s).n, OPEN(d), OPEN(d))
  {
    hide Skips, StringTail;
    SkipsOne(s, OPEN(d));
    SkipsTail(s[1..], d);
    SkipsThen(s, 1, StringTail(s[1..]).n, OPEN(d), Brace(d, true, false), OPEN(d));
  }

  // ------------------------------------------------------- numbers and literals

  lemma NumeralIsPlain(s: Bytes)
    requires Numeral(s).Got?
    ensures forall i :: 0 <= i < Numeral(s).n ==> Plain(s[i])
  {
    hide IntPart, FracPart, ExpPart;
    var g := Sign(s);
    IntIsPlain(s[g..]);
    var i := IntPart(s[g..]).n;
    FracIsPlain(s[g + i..]);
    var f := FracPart(s[g + i..]).n;
    ExpIsPlain(s[g + i + f..]);
    forall k | 0 <= k < Numeral(s).n ensures Plain(s[k]) {
      if k < g {
      } else if k < g + i {
        assert s[k] == s[g..][k - g];
      } else if k < g + i + f {
        assert s[k] == s[g + i..][k - g - i];
      } else {
        assert s[k] == s[g + i + f..][k - g - i - f];
      }
    }
  }

  lemma IntIsPlain(s: Bytes)
    requires IntPart(s).Got?
    ensures forall i :: 0 <= i < IntPart(s).n ==> Plain(s[i])
  {}

  lemma FracIsPlain(s: Bytes)
    requires FracPart(s).Got?
    ensures forall i :: 0 <= i < FracPart(s).n ==> Plain(s[i])
  {
    forall i | 1 <= i < FracPart(s).n ensures Plain(s[i]) {
      assert s[i] == s[1..][i - 1];
    }
  }

  lemma ExpIsPlain(s: Bytes)
    requires ExpPart(s).Got?
    ensures forall i :: 0 <= i < ExpPart(s).n ==> Plain(s[i])
  {
    if ExpPart(s).n > 0 {
      var g := if |s| > 1 && (s[1] == PLUS || s[1] == MINUS) then 2 else 1;
      forall i | g <= i < ExpPart(s).n ensures Plain(s[i]) {
        assert s[i] == s[g..][i - g];
      }
    }
  }

  lemma LiteralIsPlain(s: Bytes, lit: Bytes)
    requires lit <= s && (lit == TRUE || lit == FALSE || lit == NULL)
    ensures forall i :: 0 <= i < |lit| ==> Plain(s[i])
  {
    assert forall i :: 0 <= i < |lit| ==> s[i] == lit[i];
    assert forall i :: 0 <= i < |lit| ==> Plain(lit[i]);
  }

  // ------------------------------------------------------ values and containers

  lemma {:induction false} SkipsValue(s: Bytes, room: nat, d: nat)
    requires Value(s, room).Got? && d > 0
    ensures Skips(s, Value(s, room).n, OPEN(d), OPEN(d))
    decreases |s|, 2
  {
    hide Skips, Object, Array, String, Numeral;
    if s[0] == LBRACE {
      SkipsObject(s, room - 1, d);
    } else if s[0] == LBRACKET {
      SkipsArray(s, room - 1, d);
    } else if s[0] == QUOTE {
      SkipsString(s, d);
    } else if s[0] == MINUS || IsDigit(s[0]) {
      NumeralIsPlain(s);
      SkipsPlain(s, Numeral(s).n, OPEN(d));
    } else {
      var lit := if s[0] == 0x74 then TRUE else if s[0] == 0x66 then FALSE else NULL;
      LiteralIsPlain(s, lit);
      SkipsPlain(s, |lit|, OPEN(d));
    }
  }

  lemma SkipsSpaces(s: Bytes, d: nat)
    requires d > 0
    ensures Skips(s, Spaces(s), OPEN(d), OPEN(d))
  {
    SkipsPlain(s, Spaces(s), OPEN(d));
  }

  lemma SkipsByte(s: Bytes, d: nat)
    requires s != [] && Plain(s[0]) && d > 0
    ensures Skips(s, 1, OPEN(d), OPEN(d))
  {
    SkipsOne(s, OPEN(d));
  }

  lemma SkipsKey(s: Bytes, d: nat)
    requires Key(s).Got? && d > 0
    ensures Skips(s, Key(s).n, OPEN(d), OPEN(d))
  {
    hide Skips, Spaces, String;
    var st := OPEN(d);
    var a := Spaces(s);
    SkipsSpaces(s, d);
    var k := String(s[a..]).n;
    SkipsString(s[a..], d);
    SkipsThen(s, a, k, st, st, st);
    var w := Spaces(s[a + k..]);
    SkipsSpaces(s[a + k..], d);
    SkipsThen(s, a + k, w, st, st, st);
    var b := a + k + w;
    SkipsByte(s[b..], d);
    SkipsThen(s, b, 1, st, st, st);
    SkipsSpaces(s[b + 1..], d);
    SkipsThen(s, b + 1, Spaces(s[b + 1..]), st, st, st);
  }

  /** Up to the separator's last byte. */
  lemma SkipsSeparator(s: Bytes, closing: byte, d: nat)
    requires Separator(s, closing).Got? && d > 0
    ensures Skips(s, Separator(s, closing).n - 1, OPEN(d), OPEN(d))
    ensures s[Separator(s, closing).n - 1] == if Separator(s, closing).v then COMMA else closing
  {
    SkipsSpaces(s, d);
  }

  lemma {:induction false} SkipsEntry(s: Bytes, room: nat, d: nat)
    requires Entry(s, room).Got? && d > 0
    ensures Skips(s, Entry(s, room).n - 1, OPEN(d), OPEN(d))
    ensures s[Entry(s, room).n - 1] == if Entry(s, room).v.1 then COMMA else RBRACE
    decreases |s|, 0
  {
    hide Skips, Key, Value, Separator;
    var st := OPEN(d);
    var c := Key(s).n;
    SkipsKey(s, d);
    var n := Value(s[c..], room).n;
    SkipsValue(s[c..], room, d);
    SkipsThen(s, c, n, st, st, st);
    var e := c + n;
    SkipsSeparator(s[e..], RBRACE, d);
    SkipsThen(s, e, Separator(s[e..], RBRACE).n - 1, st, st, st);
  }

  lemma {:induction false} SkipsMembers(s: Bytes, room: nat, d: nat)
    requires Members(s, room).Got? && d > 0
    ensures Skips(s, Members(s, room).n - 1, OPEN(d), OPEN(d))
    ensures s[Members(s, room).n - 1] == RBRACE
    decreases |s|, 1
  {
    hide Skips, Entry;
    var st := OPEN(d);
    var n := Entry(s, room).n;
    SkipsEntry(s, room, d);
    if Entry(s, room).v.1 {
      SkipsByte(s[n - 1..], d);
      SkipsThen(s, n - 1, 1, st, st, st);
      SkipsMembers(s[n..], room, d);
      SkipsThen(s, n, Members(s[n..], room).n - 1, st, st, st);
    }
  }

  /** From an opening brace to just before its closing one, the counter is one deeper. */
  lemma {:induction false} SkipsObjectBody(s: Bytes, room: nat, d: nat)
    requires s != [] && s[0] == LBRACE && Object(s, room).Got?
    ensures Skips(s, Object(s, room).n - 1, OPEN(d), OPEN(d + 1))
    ensures s[Object(s, room).n - 1] == RBRACE
    decreases |s|, 1, 0
  {
    hide Skips, Members, Spaces;
    var a := 1 + Spaces(s[1..]);
    SkipsOne(s, OPEN(d));
    SkipsSpaces(s[1..], d + 1);
    SkipsThen(s, 1, a - 1, OPEN(d), OPEN(d + 1), OPEN(d + 1));
    if s[a] != RBRACE {
      SkipsMembers(s[a..], room, d + 1);
      SkipsThen(s, a, Members(s[a..], room).n - 1, OPEN(d), OPEN(d + 1), OPEN(d + 1));
    }
  }

  lemma {:induction false} SkipsObject(s: Bytes, room: nat, d: nat)
    requires s != [] && s[0] == LBRACE && Object(s, room).Got? && d > 0
    ensures Skips(s, Object(s, room).n, OPEN(d), OPEN(d))
    decreases |s|, 1, 1
  {
    hide Skips, Object;
    var n := Object(s, room).n;
    SkipsObjectBody(s, room, d);
    SkipsOne(s[n - 1..], OPEN(d + 1));
    SkipsThen(s, n - 1, 1, OPEN(d), OPEN(d + 1), OPEN(d));
  }

  lemma {:induction false} SkipsItem(s: Bytes, room: nat, d: nat)
    requires Item(s, room).Got? && d > 0
    ensures Skips(s, Item(s, room).n, OPEN(d), OPEN(d))
    decreases |s|, 3
  {
    hide Skips, Spaces, Value, Separator;
    var st := OPEN(d);
    var c := Spaces(s);
    SkipsSpaces(s, d);
    var n := Value(s[c..], room).n;
    SkipsValue(s[c..], room, d);
    SkipsThen(s, c, n, st, st, st);
    var e := c + n;
    var p := Separator(s[e..], RBRACKET).n;
    SkipsSeparator(s[e..], RBRACKET, d);
    SkipsThen(s, e, p - 1, st, st, st);
    SkipsByte(s[e + p - 1..], d);
    SkipsThen(s, e + p - 1, 1, st, st, st);
  }

  lemma {:induction false} SkipsElements(s: Bytes, room: nat, d: nat)
    requires Elements(s, room).Got? && d > 0
    ensures Skips(s, Elements(s, room).n, OPEN(d), OPEN(d))
    decreases |s|, 4
  {
    hide Skips, Item;
    var n := Item(s, room).n;
    SkipsItem(s, room, d);
    if Item(s, room).v.1 {
      SkipsElements(s[n..], room, d);
      SkipsThen(s, n, Elements(s[n..], room).n, OPEN(d), OPEN(d), OPEN(d));
    }
  }

  lemma {:induction false} SkipsArray(s: Bytes, room: nat, d: nat)
    requires s != [] && s[0] == LBRACKET && Array(s, room).Got? && d > 0
    ensures Skips(s, Array(s, room).n, OPEN(d), OPEN(d))
    decreases |s|, 1
  {
    hide Skips, Elements, Spaces;
    var st := OPEN(d);
    var a := 1 + Spaces(s[1..]);
    SkipsByte(s, d);
    SkipsSpaces(s[1..], d);
    SkipsThen(s, 1, a - 1, st, st, st);
    if s[a] != RBRACKET {
      SkipsElements(s[a..], room, d);
      SkipsThen(s, a, Elements(s[a..], room).n, st, st, st);
    } else {
      SkipsByte(s[a..], d);
      SkipsThen(s, a, 1, st, st, st);
    }
  }

  /** The counter, started on an object, stops exactly where the object ends. */
  lemma StopsAtObjectEnd(s: Bytes, room: nat)
    requires s != [] && s[0] == LBRACE && Value(s, room).Got?
    ensures Run(s, START).Got? && Run(s, START).n == Value(s, room).n
  {
    hide Object;
    var n := Value(s, room).n;
    SkipsObjectBody(s, room - 1, 0);
    assert s[n - 1..][0] == RBRACE;
  }

  // --------------------------------------------------------------- the arrays

  ghost predicate Objects(es: seq<Bytes>) {
    forall i :: 0 <= i < |es| ==> es[i] != [] && es[i][0] == 0x7B
  }

  /** Over one object element the two readers move alike; only a comma is taken, never the bracket. */
  lemma {:induction false} LooseItem(s: Bytes, room: nat)
    requires Item(s, room).Got? && Item(s, room).v.0 != [] && Item(s, room).v.0[0] == LBRACE
    ensures var a := Spaces(s);
            a < |s| && s[a] == LBRACE
            && LooseObject(s[a..]) == Got(Item(s, room).n - a - (if Item(s, room).v.1 then 0 else 1), Item(s, room).v.0)
  {
    hide Value, Run, Spaces;
    var a := Spaces(s);
    var t := s[a..];
    var v := Value(t, room).n;
    assert s[a..a + v] == t[..v];
    StopsAtObjectEnd(t, room);
    assert s[a + v..] == t[v..];
    var w := Spaces(t[v..]);
    assert t[v..][w] == t[v + w];
  }

  lemma {:induction false} LooseOnce(s: Bytes)
    requires Spaces(s) < |s| && s[Spaces(s)] == LBRACE && LooseObject(s[Spaces(s)..]).Got?
    ensures var a := Spaces(s);
            var o := LooseObject(s[a..]);
            Loose(s) == match Loose(s[a + o.n..]) {
                          case Fail => Fail
                          case Got(q, more) => Got(a + o.n + q, [o.v] + more)
                        }
  {
    hide LooseObject, Spaces;
  }

  lemma {:induction false} LooseEnds(s: Bytes)
    requires s != [] && s[0] == RBRACKET
    ensures Loose(s) == Got(1, [])
  {}

  lemma {:induction false} LooseElements(s: Bytes, room: nat)
    requires Elements(s, room).Got?
    ensures Objects(Elements(s, room).v) ==> Loose(s) == Elements(s, room)
    ensures !Objects(Elements(s, room).v) ==> Loose(s).Fail?
    decreases |s|
  {
    hide Item, Loose, LooseObject;
    var n := Item(s, room).n;
    var es := Elements(s, room).v;
    assert es[0] == Item(s, room).v.0;
    ItemHead(s, room);
    if es[0][0] != 0x7B {
      LooseCases(s);
    } else {
      LooseItem(s, room);
      LooseOnce(s);
      if Item(s, room).v.1 {
        assert es == [es[0]] + es[1..] && es[1..] == Elements(s[n..], room).v;
        FirstAndRest(es);
        LooseElements(s[n..], room);
      } else {
        ItemEnds(s, room);
        LooseEnds(s[n - 1..]);
        assert [es[0]] + [] == es;
      }
    }
  }

  lemma FirstAndRest(es: seq<Bytes>)
    requires es != [] && es[0] != [] && es[0][0] == 0x7B
    ensures Objects(es) <==> Objects(es[1..])
  {
    if Objects(es[1..]) {
      forall i | 0 <= i < |es| ensures es[i] != [] && es[i][0] == 0x7B {
        if i > 0 { assert es[i] == es[1..][i - 1]; }
      }
    }
  }

  /** An item stands behind white space, and no closing bracket begins one. */
  lemma ItemHead(s: Bytes, room: nat)
    requires Item(s, room).Got?
    ensures var a := Spaces(s);
            a < |s| && Item(s, room).v.0 != [] && s[a] == Item(s, room).v.0[0] && s[a] != RBRACKET
  {
    hide Separator, Object, Array, String, Number;
  }

  lemma {:induction false} ItemEnds(s: Bytes, room: nat)
    requires Item(s, room).Got? && !Item(s, room).v.1
    ensures s[Item(s, room).n - 1] == RBRACKET
  {
    hide Value;
    var e := Spaces(s) + Value(s[Spaces(s)..], room).n;
    assert s[e..][Separator(s[e..], RBRACKET).n - 1] == s[Item(s, room).n - 1];
  }

  /** On every strict array the brace counter returns exactly the full scanner's spans when all are objects, and refuses it otherwise. */
  lemma {:induction false} ObjectArrayAgrees(raw: Bytes)
    requires Strict(raw) && raw[Spaces(raw)] == LBRACKET
    ensures ArrayElements(raw).Got?
    ensures LooseArray(raw).Got? <==> Objects(ArrayElements(raw).v)
    ensures LooseArray(raw).Got? ==> LooseArray(raw).v == ArrayElements(raw).v
  {
    hide Strict, Elements, Loose;
    StrictParts(raw);
    ElementsOfStrict(raw);
    var s := raw[Spaces(raw)..];
    assert s[1..] == raw[Spaces(raw) + 1..];
    var a := 1 + Spaces(s[1..]);
    LooseAfterSpaces(s[1..]);
    if s[a] == RBRACKET {
      LooseEnds(s[a..]);
    } else {
      LooseElements(s[a..], MAX_DEPTH);
    }
  }

  /** The cases of the loop other than another object. */
  lemma {:induction false} LooseCases(s: Bytes)
    ensures var a := Spaces(s);
            && (a >= |s| ==> Loose(s).Fail?)
            && (a < |s| && s[a] == RBRACKET ==> Loose(s) == Got(a + 1, []))
            && (a < |s| && s[a] != RBRACKET && s[a] != LBRACE ==> Loose(s).Fail?)
            && (a < |s| && s[a] == LBRACE && LooseObject(s[a..]).Fail? ==> Loose(s).Fail?)
  {
    hide LooseObject, Spaces;
  }

  lemma {:induction false} LooseAfterSpaces(s: Bytes)
    ensures Loose(s).Got? <==> Loose(s[Spaces(s)..]).Got?
    ensures Loose(s).Got? ==> Loose(s).v == Loose(s[Spaces(s)..]).v
  {
    hide LooseObject, Spaces, Loose;
    var a := Spaces(s);
    var t := s[a..];
    NoSpacesLeft(s);
    LooseCases(s);
    LooseCases(t);
    assert t[0..] == t;
    if a < |s| && s[a] == LBRACE && LooseObject(t).Got? {
      LooseOnce(s);
      LooseOnce(t);
      assert t[LooseObject(t).n..] == s[a + LooseObject(t).n..];
    }
  }

  lemma {:induction false} NoSpacesLeft(s: Bytes)
    ensures Spaces(s[Spaces(s)..]) == 0
  {
    if s != [] && IsSpace(s[0]) {
      NoSpacesLeft(s[1..]);
      assert s[1..][Spaces(s[1..])..] == s[Spaces(s)..];
    }
  }

  // -------------------------------------------------------------- the reader

  method SkipSpace(raw: Bytes, from: nat) returns (i: nat)
    requires from <= |raw|
    ensures i == from + Spaces(raw[from..])
  {
    i := from;
    while i < |raw| && IsSpace(raw[i])
      invariant from <= i <= |raw|
      invariant Spaces(raw[from..]) == i - from + Spaces(raw[i..])
    {
      assert raw[i..][1..] == raw[i + 1..];
      i := i + 1;
    }
  }

  /** The counting loop, from an opening brace. */
  method SkipObject(raw: Bytes, start: nat) returns (i: nat, ok: bool)
    requires start < |raw| && raw[start] == LBRACE
    ensures ok <==> Run(raw[start..], START).Got?
    ensures ok ==> i == start + Run(raw[start..], START).n
    ensures i <= |raw|
  {
    var depth: nat, inString, escaped := 0, false, false;
    i := start;
    while i < |raw|
      invariant start <= i <= |raw|
      invariant Run(raw[start..], START) ==
                Jump(i - start, Run(raw[i..], Brace(depth, inString, escaped)))
      invariant (i == start <==> depth == 0) && (i == start ==> !inString)
    {
      ghost var st := Brace(depth, inString, escaped);
      assert raw[i..][1..] == raw[i + 1..];
      var c := raw[i];
      if inString {
        if escaped {
          escaped := false;
        } else if c == BACKSLASH {
          escaped := true;
        } else if c == QUOTE {
          inString := false;
        }
      } else if c == QUOTE {
        inString := true;
      } else if c == LBRACE {
        depth := depth + 1;
      } else if c == RBRACE {
        depth := depth - 1;
      }
      assert Brace(depth, inString, escaped) == Step(st, c);
      if depth == 0 && !inString {
        return i + 1, true;
      }
      JumpTwice(i - start, 1, Run(raw[i + 1..], Brace(depth, inString, escaped)));
      i := i + 1;
    }
    return i, false;
  }

  /** One object and the white space and comma after it. */
  method ReadObject(raw: Bytes, start: nat) returns (to: nat, next: nat, ok: bool)
    requires start < |raw| && raw[start] == LBRACE
    ensures ok <==> LooseObject(raw[start..]).Got?
    ensures ok ==> start <= to <= next <= |raw| && next > start
                   && LooseObject(raw[start..]) == Got(next - start, raw[start..to])
  {
    hide Run, Spaces;
    next := start;
    to, ok := SkipObject(raw, start);
    if ok {
      ghost var s := raw[start..];
      assert raw[to..] == s[to - start..] && raw[start..to] == s[..to - start];
      next := SkipSpace(raw, to);
      if next < |raw| && raw[next] == COMMA {
        next := next + 1;
      }
    }
  }

  /** ObjectArray. */
  method ReadObjectArray(raw: Bytes) returns (out: seq<Bytes>, ok: bool)
    ensures ok <==> LooseArray(raw).Got?
    ensures ok ==> out == LooseArray(raw).v
  {
    hide LooseObject, Spaces, Loose;
    assert raw[0..] == raw;
    var i := SkipSpace(raw, 0);
    if i >= |raw| || raw[i] != LBRACKET {
      return [], false;
    }
    out, ok := ReadObjects(raw, i + 1);
  }

  method ReadObjects(raw: Bytes, first: nat) returns (out: seq<Bytes>, ok: bool)
    requires first <= |raw|
    ensures ok <==> Loose(raw[first..]).Got?
    ensures ok ==> out == Loose(raw[first..]).v
  {
    hide LooseObject, Spaces, Loose;
    var i := first;
    out := [];
    assert Loose(raw[first..]).Got? ==> [] + Loose(raw[first..]).v == Loose(raw[first..]).v;
    while true
      invariant first <= i <= |raw|
      invariant Loose(raw[first..]).Got? <==> Loose(raw[i..]).Got?
      invariant Loose(raw[i..]).Got? ==> Loose(raw[first..]).v == out + Loose(raw[i..]).v
      decreases |raw| - i
    {
      ghost var t, at := raw[i..], i;
      i := SkipSpace(raw, i);
      assert raw[i..] == t[i - at..];
      LooseAfterSpaces(t);
      NoSpacesLeft(t);
      LooseCases(raw[i..]);
      if i >= |raw| {
        return [], false;
      }
      if raw[i] == RBRACKET {
        assert out + [] == out;
        return out, true;
      }
      if raw[i] != LBRACE {
        return [], false;
      }
      var to, next, good := ReadObject(raw, i);
      assert raw[i..][0..] == raw[i..];
      if !good {
        return [], false;
      }
      assert raw[i..][next - i..] == raw[next..];
      LooseOnce(raw[i..]);
      if Loose(raw[next..]).Got? {
        assert out + ([raw[i..to]] + Loose(raw[next..]).v) == out + [raw[i..to]] + Loose(raw[next..]).v;
      }
      out := out + [raw[i..to]];
      i := next;
    }
  }
}
