/**
 The strict scanner: an index and a nesting depth moved over the bytes, proved to
 recognise exactly what the scan functions describe.
 */
module StrictScanner {
  import opened ByteStrings
  import opened NumberDomain
  import opened JsonScan

  /** Pieces found so far, put before what a scan of the rest finds. */
  function Before<T>(n: nat, found: seq<T>, rest: Scan<seq<T>>): Scan<seq<T>> {
    match rest
    case Fail => Fail
    case Got(q, more) => Got(n + q, found + more)
  }

  lemma BeforeNothing<T>(rest: Scan<seq<T>>)
    ensures Before(0, [], rest) == rest
  {
    if rest.Got? { assert [] + rest.v == rest.v; }
  }

  lemma BeforeStarts<T>(n: nat, first: T, rest: Scan<seq<T>>)
    ensures Before(n, [first], rest).Got? ==> Before(n, [first], rest).v != [] && Before(n, [first], rest).v[0] == first
  {}

  lemma BeforeTwice<T>(n: nat, found: seq<T>, k: nat, next: seq<T>, rest: Scan<seq<T>>)
    ensures Before(n, found, Before(k, next, rest)) == Before(n + k, found + next, rest)
  {
    if rest.Got? { assert found + (next + rest.v) == found + next + rest.v; }
  }

  lemma MembersOnce(s: Bytes, room: nat)
    ensures Entry(s, room).Fail? ==> Members(s, room).Fail?
    ensures Entry(s, room).Got? && !Entry(s, room).v.1 ==>
              Members(s, room) == Got(Entry(s, room).n, [Entry(s, room).v.0])
    ensures Entry(s, room).Got? && Entry(s, room).v.1 ==>
              Members(s, room) == Before(Entry(s, room).n, [Entry(s, room).v.0], Members(s[Entry(s, room).n..], room))
  {}

  function Keys(ms: seq<Member>): set<Bytes> {
    set m | m in ms :: m.key
  }

  lemma NothingRepeats()
    ensures Distinct([]) && Keys([]) == {}
  {}

  lemma DistinctGrows(ms: seq<Member>, m: Member)
    requires Distinct(ms) && m.key !in Keys(ms)
    ensures Distinct(ms + [m]) && Keys(ms + [m]) == Keys(ms) + {m.key}
  {
    assert forall i :: 0 <= i < |ms| ==> ms[i] in ms;
    assert forall x :: x in ms + [m] <==> x in ms || x == m;
  }

  lemma ElementsOnce(s: Bytes, room: nat)
    ensures Item(s, room).Fail? ==> Elements(s, room).Fail?
    ensures Item(s, room).Got? && !Item(s, room).v.1 ==>
              Elements(s, room) == Got(Item(s, room).n, [Item(s, room).v.0])
    ensures Item(s, room).Got? && Item(s, room).v.1 ==>
              Elements(s, room) == Before(Item(s, room).n, [Item(s, room).v.0], Elements(s[Item(s, room).n..], room))
  {}

  lemma {:induction false} HexPrefixFails(s: Bytes, k: nat, m: nat)
    requires k <= m <= |s| && HexPrefix(s, k).Fail?
    ensures HexPrefix(s, m).Fail?
  {
    if k < m { HexPrefixFails(s, k, m - 1); }
  }

  class Scanner {
    const b: Bytes
    var i: nat
    var depth: nat

    ghost predicate Valid()
      reads this
    {
      i <= |b| && depth <= MAX_DEPTH
    }

    ghost function Rest(): Bytes
      requires Valid()
      reads this
    {
      b[i..]
    }

    constructor (payload: Bytes)
      ensures Valid() && b == payload && i == 0 && depth == 0
    {
      b, i, depth := payload, 0, 0;
    }

    method Ws()
      requires Valid()
      modifies this`i
      ensures Valid() && i == old(i) + Spaces(old(Rest()))
    {
      while i < |b| && IsSpace(b[i])
        invariant old(i) <= i <= |b|
        invariant Spaces(old(Rest())) == i - old(i) + Spaces(b[i..])
      {
        assert b[i..][1..] == b[i + 1..];
        i := i + 1;
      }
    }

    /** Moves over digits. */
    method SkipDigits()
      requires Valid()
      modifies this`i
      ensures Valid() && i == old(i) + Digits(old(Rest()))
    {
      while i < |b| && IsDigit(b[i])
        invariant old(i) <= i <= |b|
        invariant Digits(old(Rest())) == i - old(i) + Digits(b[i..])
      {
        assert b[i..][1..] == b[i + 1..];
        i := i + 1;
      }
    }

    method Lit(lit: Bytes) returns (ok: bool)
      requires Valid()
      modifies this`i
      ensures Valid() && (ok <==> Literal(old(Rest()), lit).Got?)
      ensures i == if ok then old(i) + |lit| else old(i)
    {
      if |b| - i < |lit| || b[i..i + |lit|] != lit {
        return false;
      }
      assert b[i..][..|lit|] == lit;
      i := i + |lit|;
      return true;
    }

    method Hex(at: nat) returns (r: Scan<nat>)
      requires Valid() && at <= |b|
      ensures r == Hex4(b[at..])
    {
      if at + 4 > |b| {
        return Fail;
      }
      ghost var s := b[at..];
      var v, k := 0, 0;
      while k < 4
        invariant 0 <= k <= 4 && HexPrefix(s, k) == Got(k, v)
      {
        var d := HexDigit(b[at + k]);
        if d.Fail? {
          HexPrefixFails(s, k + 1, 4);
          return Fail;
        }
        v := v * 16 + d.v;
        k := k + 1;
      }
      return Got(4, v);
    }

    /** At a backslash: the code point it stands for, if it stands for one. */
    method ScanEscape() returns (r: nat, ok: bool)
      requires Valid() && i < |b|
      modifies this`i
      ensures Valid() && (ok <==> Escape(old(Rest())).Got?)
      ensures ok ==> r == Escape(old(Rest())).v && i == old(i) + Escape(old(Rest())).n
      ensures !ok ==> i == old(i)
    {
      if i + 1 >= |b| {
        return 0, false;
      }
      ghost var s := Rest();
      assert s[1] == b[i + 1];
      var c := b[i + 1];
      if c == QUOTE || c == BACKSLASH || c == SLASH {
        i := i + 2;
        return c, true;
      } else if c == 0x62 {
        i := i + 2;
        return 8, true;
      } else if c == 0x66 {
        i := i + 2;
        return 12, true;
      } else if c == 0x6E {
        i := i + 2;
        return 10, true;
      } else if c == 0x72 {
        i := i + 2;
        return 13, true;
      } else if c == 0x74 {
        i := i + 2;
        return 9, true;
      } else if c == 0x75 {
        assert b[i + 2..] == s[2..];
        var u := Hex(i + 2);
        if u.Fail? || u.v == 0 {
          return 0, false;
        }
        if 0xDC00 <= u.v < 0xE000 {
          return 0, false;
        } else if 0xD800 <= u.v < 0xDC00 {
          if i + 11 >= |b| || b[i + 6] != BACKSLASH || b[i + 7] != 0x75 {
            return 0, false;
          }
          assert b[i + 8..] == s[8..];
          var lo := Hex(i + 8);
          if lo.Fail? || lo.v < 0xDC00 || lo.v > 0xDFFF {
            return 0, false;
          }
          i := i + 12;
          return Pair(u.v, lo.v), true;
        } else {
          i := i + 6;
          return u.v, true;
        }
      } else {
        return 0, false;
      }
    }

    method ScanString() returns (out: Bytes, ok: bool)
      requires Valid()
      modifies this`i
      ensures Valid() && (ok <==> String(old(Rest())).Got?)
      ensures ok ==> out == String(old(Rest())).v && i == old(i) + String(old(Rest())).n
    {
      if i >= |b| || b[i] != QUOTE {
        return [], false;
      }
      ghost var tail := b[i + 1..];
      assert tail == old(Rest())[1..];
      i := i + 1;
      out := [];
      BeforeNothing(StringTail(tail));
      while i < |b|
        invariant old(i) < i <= |b| && depth == old(depth)
        invariant StringTail(tail) == Before(i - old(i) - 1, out, StringTail(b[i..]))
        decreases |b| - i
      {
        var c := b[i];
        if c == QUOTE {
          i := i + 1;
          return out, true;
        } else if c == BACKSLASH {
          ghost var s := b[i..];
          var r, good := ScanEscape();
          if !good {
            return [], false;
          }
          assert s[Escape(s).n..] == b[i..];
          BeforeTwice(i - old(i) - 1 - Escape(s).n, out, Escape(s).n, Encode(r), StringTail(b[i..]));
          out := out + Encode(r);
        } else if c < 0x20 {
          return [], false;
        } else {
          assert b[i..][1..] == b[i + 1..];
          BeforeTwice(i - old(i) - 1, out, 1, [c], StringTail(b[i + 1..]));
          out := out + [c];
          i := i + 1;
        }
      }
      return [], false;
    }

    method ScanInt() returns (ok: bool)
      requires Valid()
      modifies this`i
      ensures Valid() && (ok <==> IntPart(old(Rest())).Got?)
      ensures ok ==> i == old(i) + IntPart(old(Rest())).n
    {
      if i < |b| && b[i] == ZERO {
        i := i + 1;
        return !(i < |b| && IsDigit(b[i]));
      } else if i < |b| && IsDigit(b[i]) {
        SkipDigits();
        return true;
      }
      return false;
    }

    method ScanFrac() returns (ok: bool)
      requires Valid()
      modifies this`i
      ensures Valid() && (ok <==> FracPart(old(Rest())).Got?)
      ensures ok ==> i == old(i) + FracPart(old(Rest())).n
    {
      if i < |b| && b[i] == DOT {
        assert b[i + 1..] == Rest()[1..];
        i := i + 1;
        if i >= |b| || !IsDigit(b[i]) {
          return false;
        }
        SkipDigits();
      }
      return true;
    }

    method ScanExp() returns (ok: bool)
      requires Valid()
      modifies this`i
      ensures Valid() && (ok <==> ExpPart(old(Rest())).Got?)
      ensures ok ==> i == old(i) + ExpPart(old(Rest())).n
    {
      if i < |b| && (b[i] == 0x65 || b[i] == 0x45) {
        assert b[i + 1..] == Rest()[1..];
        assert i + 2 <= |b| ==> b[i + 2..] == Rest()[2..];
        i := i + 1;
        if i < |b| && (b[i] == PLUS || b[i] == MINUS) {
          i := i + 1;
        }
        if i >= |b| || !IsDigit(b[i]) {
          return false;
        }
        SkipDigits();
      }
      return true;
    }

    method ScanNumber() returns (ok: bool)
      requires Valid()
      modifies this`i
      ensures Valid() && (ok <==> Number(old(Rest())).Got?)
      ensures ok ==> i == old(i) + Number(old(Rest())).n
    {
      hide IntPart, FracPart, ExpPart, Accepts;
      var start := i;
      ghost var s := Rest();
      if i < |b| && b[i] == MINUS {
        i := i + 1;
      }
      assert b[i..] == s[Sign(s)..];
      ok := ScanInt();
      if !ok {
        return;
      }
      assert b[i..] == s[i - start..];
      ok := ScanFrac();
      if !ok {
        return;
      }
      assert b[i..] == s[i - start..];
      ok := ScanExp();
      if !ok {
        return;
      }
      assert b[start..i] == s[..i - start];
      return Accepts(b[start..i]);
    }

    /** White space, a key, a colon, and the white space after each. */
    method ScanKey() returns (key: Bytes, ok: bool)
      requires Valid()
      modifies this`i
      ensures Valid() && (ok <==> Key(old(Rest())).Got?)
      ensures ok ==> key == Key(old(Rest())).v && i == old(i) + Key(old(Rest())).n
    {
      hide Spaces, String;
      ghost var s := Rest();
      Ws();
      assert b[i..] == s[Spaces(s)..];
      key, ok := ScanString();
      if !ok {
        return;
      }
      assert b[i..] == s[i - old(i)..];
      Ws();
      if i >= |b| || b[i] != COLON {
        return [], false;
      }
      i := i + 1;
      assert b[i..] == s[i - old(i)..];
      Ws();
    }

    /** White space, then a comma or the closing byte. */
    method ScanSeparator(closing: byte) returns (more: bool, ok: bool)
      requires Valid()
      modifies this`i
      ensures Valid() && (ok <==> Separator(old(Rest()), closing).Got?)
      ensures ok ==> more == Separator(old(Rest()), closing).v && i == old(i) + Separator(old(Rest()), closing).n
    {
      Ws();
      if i >= |b| {
        return false, false;
      }
      if b[i] == COMMA {
        i := i + 1;
        return true, true;
      }
      if b[i] == closing {
        i := i + 1;
        return false, true;
      }
      return false, false;
    }

    method ScanValue() returns (ok: bool)
      requires Valid()
      modifies this`i, this`depth
      ensures Valid() && depth == old(depth) && (ok <==> Value(old(Rest()), MAX_DEPTH - depth).Got?)
      ensures ok ==> i == old(i) + Value(old(Rest()), MAX_DEPTH - depth).n
      decreases |b| - i, 2
    {
      if i >= |b| {
        return false;
      }
      var c := b[i];
      if c == LBRACE || c == LBRACKET {
        if depth >= MAX_DEPTH {
          return false;
        }
        depth := depth + 1;
        if c == LBRACE {
          ok := ScanObject();
        } else {
          ok := ScanArray();
        }
        depth := depth - 1;
      } else if c == QUOTE {
        var _, good := ScanString();
        return good;
      } else if c == MINUS || IsDigit(c) {
        ok := ScanNumber();
      } else if c == 0x74 {
        ok := Lit(TRUE);
      } else if c == 0x66 {
        ok := Lit(FALSE);
      } else if c == 0x6E {
        ok := Lit(NULL);
      } else {
        return false;
      }
    }

    /** One turn of the object loop: a key, its value, and what follows; the span from `from` is the value. */
    method ScanEntry() returns (key: Bytes, from: nat, to: nat, more: bool, ok: bool)
      requires Valid()
      modifies this`i, this`depth
      ensures Valid() && depth == old(depth)
      ensures ok <==> Entry(old(Rest()), MAX_DEPTH - depth).Got?
      ensures ok ==> from <= to <= |b| && i > old(i) &&
                     Entry(old(Rest()), MAX_DEPTH - depth) == Got(i - old(i), (Member(key, b[from..to]), more))
      decreases |b| - i, 3
    {
      hide Key, Value, Separator;
      ghost var t, at := Rest(), i;
      from, to, more := 0, 0, false;
      key, ok := ScanKey();
      if !ok {
        return;
      }
      from := i;
      assert b[i..] == t[i - at..];
      ok := ScanValue();
      if !ok {
        return;
      }
      to := i;
      assert b[from..to] == t[from - at..to - at];
      assert b[i..] == t[i - at..];
      more, ok := ScanSeparator(RBRACE);
    }

    method ScanObject() returns (ok: bool)
      requires Valid() && i < |b|
      modifies this`i, this`depth
      ensures Valid() && depth == old(depth)
      ensures var r := Object(old(Rest()), MAX_DEPTH - depth);
              (ok <==> r.Got? && Distinct(r.v)) && (ok ==> i == old(i) + r.n)
      decreases |b| - i, 1
    {
      hide Members, Distinct;
      ghost var s := Rest();
      i := i + 1;
      assert b[i..] == s[1..];
      Ws();
      assert b[i..] == s[i - old(i)..];
      if i < |b| && b[i] == RBRACE {
        i := i + 1;
        NothingRepeats();
        return true;
      }
      ok := ScanMembers();
    }

    /** The object loop: a repeated key ends it at once. */
    method ScanMembers() returns (ok: bool)
      requires Valid()
      modifies this`i, this`depth
      ensures Valid() && depth == old(depth)
      ensures var r := Members(old(Rest()), MAX_DEPTH - depth);
              (ok <==> r.Got? && Distinct(r.v)) && (ok ==> i == old(i) + r.n)
      decreases |b| - i, 4
    {
      hide Entry, Before, Members, Distinct;
      ghost var s, start, room := Rest(), i, MAX_DEPTH - depth;
      var seen: set<Bytes> := {};
      ghost var found: seq<Member> := [];
      BeforeNothing(Members(s, room));
      NothingRepeats();
      while true
        invariant start <= i <= |b| && depth == old(depth) && room == MAX_DEPTH - depth
        invariant Members(s, room) == Before(i - start, found, Members(b[i..], room))
        invariant Distinct(found) && seen == Keys(found)
        decreases |b| - i
      {
        ghost var t, at := Rest(), i;
        var key, from, to, more, good := ScanEntry();
        MembersOnce(t, room);
        if !good {
          BeforeFail<Member>(at - start, found);
          return false;
        }
        ghost var m := Member(key, b[from..to]);
        assert b[i..] == t[i - at..];
        if key in seen {
          BeforeStarts(i - at, m, Members(b[i..], room));
          RepeatedKey(at - start, found, Members(t, room), m);
          return false;
        }
        DistinctGrows(found, m);
        if !more {
          BeforeLast(at - start, found, i - at, m);
          return true;
        }
        BeforeTwice(at - start, found, i - at, [m], Members(b[i..], room));
        seen := seen + {key};
        found := found + [m];
      }
    }

    /** One turn of the array loop: an element and what follows it. */
    method ScanItem() returns (from: nat, to: nat, more: bool, ok: bool)
      requires Valid()
      modifies this`i, this`depth
      ensures Valid() && depth == old(depth)
      ensures ok <==> Item(old(Rest()), MAX_DEPTH - depth).Got?
      ensures ok ==> from <= to <= |b| && i > old(i) &&
                     Item(old(Rest()), MAX_DEPTH - depth) == Got(i - old(i), (b[from..to], more))
      decreases |b| - i, 3
    {
      hide Spaces, Value, Separator;
      ghost var t, at := Rest(), i;
      from, to, more := 0, 0, false;
      Ws();
      from := i;
      assert b[i..] == t[i - at..];
      ok := ScanValue();
      if !ok {
        return;
      }
      to := i;
      assert b[from..to] == t[from - at..to - at];
      assert b[i..] == t[i - at..];
      more, ok := ScanSeparator(RBRACKET);
    }

    method ScanArray() returns (ok: bool)
      requires Valid() && i < |b|
      modifies this`i, this`depth
      ensures Valid() && depth == old(depth) && (ok <==> Array(old(Rest()), MAX_DEPTH - depth).Got?)
      ensures ok ==> i == old(i) + Array(old(Rest()), MAX_DEPTH - depth).n
      decreases |b| - i, 1
    {
      hide Item, Before, Elements;
      ghost var s, room := Rest(), MAX_DEPTH - depth;
      i := i + 1;
      assert b[i..] == s[1..];
      Ws();
      ghost var start := i;
      assert b[start..] == s[start - old(i)..];
      if i < |b| && b[i] == RBRACKET {
        i := i + 1;
        return true;
      }
      ghost var found: seq<Bytes> := [];
      BeforeNothing(Elements(b[start..], room));
      while true
        invariant old(i) < start <= i <= |b| && depth == old(depth) && room == MAX_DEPTH - depth
        invariant Elements(b[start..], room) == Before(i - start, found, Elements(b[i..], room))
        decreases |b| - i
      {
        ghost var t, at := Rest(), i;
        var from, to, more, good := ScanItem();
        ElementsOnce(t, room);
        if !good {
          BeforeFail<Bytes>(at - start, found);
          return false;
        }
        assert b[i..] == t[i - at..];
        if !more {
          BeforeLast(at - start, found, i - at, b[from..to]);
          return true;
        }
        BeforeTwice(at - start, found, i - at, [b[from..to]], Elements(b[i..], room));
        found := found + [b[from..to]];
      }
    }
  }

  lemma BeforeFail<T>(n: nat, found: seq<T>)
    ensures Before<T>(n, found, Fail).Fail?
  {}

  lemma BeforeLast<T>(n: nat, found: seq<T>, k: nat, last: T)
    ensures Before(n, found, Got(k, [last])) == Got(n + k, found + [last])
  {}

  lemma RepeatedKey(n: nat, found: seq<Member>, rest: Scan<seq<Member>>, m: Member)
    requires m.key in Keys(found)
    requires rest.Got? ==> rest.v != [] && rest.v[0] == m
    ensures Before(n, found, rest).Got? ==> !Distinct(Before(n, found, rest).v)
  {
    var x :| x in found && x.key == m.key;
    var j :| 0 <= j < |found| && found[j] == x;
    if rest.Got? {
      var all := found + rest.v;
      assert all[j] == found[j] && all[|found|] == m;
    }
  }

  /** ValidateStrict decides the strict domain. */
  method ValidateStrict(payload: Bytes) returns (ok: bool)
    ensures ok <==> Strict(payload)
  {
    hide Value, Utf8, Spaces;
    if payload == [] || !Utf8(payload) {
      return false;
    }
    var s := new Scanner(payload);
    assert payload[0..] == payload;
    s.Ws();
    var good := s.ScanValue();
    if !good {
      return false;
    }
    s.Ws();
    return s.i == |payload|;
  }
}
