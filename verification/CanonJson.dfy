/**
 The canonical JSON encoding: what the parser reads a document as, and the one way a
 value is written.  The parser takes the grammar of RFC 8259 with no bound on nesting.
 */
module CanonJson {
  import opened ByteStrings
  import opened CanonNumbers
  import opened CanonStrings
  import opened JsonScan
  import opened Paths
  import opened Wrappers

  datatype Json =
    | Null
    | Bool(b: bool)
    | Num(tok: Bytes)
    | Str(s: Bytes)
    | Arr(items: seq<Json>)
    | Obj(members: map<Bytes, Json>)

  // -------------------------------------------------------------------- parsing

  type Pair = (Bytes, Json)

  predicate DistinctKeys(ps: seq<Pair>) {
    forall i, j :: 0 <= i < j < |ps| ==> ps[i].0 != ps[j].0
  }

  function ToMap(ps: seq<Pair>): map<Bytes, Json> {
    if ps == [] then map[] else ToMap(ps[..|ps| - 1])[ps[|ps| - 1].0 := ps[|ps| - 1].1]
  }

  /** A key, its colon, and the white space around them. */
  function KeyOf(s: Bytes, lone: bool): (r: Scan<Bytes>)
    ensures r.Got? ==> 3 <= r.n <= |s|
  {
    var a := Spaces(s);
    match Text(s[a..], lone)
    case Fail => Fail
    case Got(k, key) =>
      var b := a + k + Spaces(s[a + k..]);
      if b >= |s| || s[b] != COLON then Fail
      else Got(b + 1 + Spaces(s[b + 1..]), key)
  }

  /** parseCanonValue at the head of s; lone: the tokenizer replaces half a surrogate pair. */
  function Parse(s: Bytes, lone: bool): (r: Scan<Json>)
    ensures r.Got? ==> 1 <= r.n <= |s|
    decreases |s|, 2
  {
    if s == [] then Fail
    else if s[0] == LBRACE then ParseObject(s, lone)
    else if s[0] == LBRACKET then ParseArray(s, lone)
    else if s[0] == QUOTE then
      match Text(s, lone)
      case Fail => Fail
      case Got(n, v) => if 0 in v then Fail else Got(n, Str(v))
    else if s[0] == MINUS || IsDigit(s[0]) then
      match Numeral(s)
      case Fail => Fail
      case Got(n, _) => if CanonNumber(s[..n]) then Got(n, Num(s[..n])) else Fail
    else if s[0] == 0x74 then Word(s, TRUE, Bool(true))
    else if s[0] == 0x66 then Word(s, FALSE, Bool(false))
    else Word(s, NULL, Null)
  }

  function Word(s: Bytes, lit: Bytes, v: Json): (r: Scan<Json>)
    ensures r.Got? ==> r.n == |lit| <= |s|
  {
    if lit <= s then Got(|lit|, v) else Fail
  }

  function ParseObject(s: Bytes, lone: bool): (r: Scan<Json>)
    requires s != []
    ensures r.Got? ==> 2 <= r.n <= |s|
    decreases |s|, 1
  {
    var a := 1 + Spaces(s[1..]);
    if a < |s| && s[a] == RBRACE then Got(a + 1, Obj(map[]))
    else match ParseMembers(s[a..], lone)
      case Fail => Fail
      case Got(n, ps) => if DistinctKeys(ps) then Got(a + n, Obj(ToMap(ps))) else Fail
  }

  function ParseMember(s: Bytes, lone: bool): (r: Scan<(Pair, bool)>)
    ensures r.Got? ==> 1 <= r.n <= |s|
    decreases |s|, 0
  {
    match KeyOf(s, lone)
    case Fail => Fail
    case Got(c, key) =>
      match Parse(s[c..], lone)
      case Fail => Fail
      case Got(n, v) =>
        match Separator(s[c + n..], RBRACE)
        case Fail => Fail
        case Got(p, more) => Got(c + n + p, ((key, v), more))
  }

  function ParseMembers(s: Bytes, lone: bool): (r: Scan<seq<Pair>>)
    ensures r.Got? ==> 1 <= r.n <= |s|
    decreases |s|, 1
  {
    match ParseMember(s, lone)
    case Fail => Fail
    case Got(n, (p, more)) =>
      if !more then Got(n, [p])
      else match ParseMembers(s[n..], lone)
        case Fail => Fail
        case Got(q, ps) => Got(n + q, [p] + ps)
  }

  function ParseArray(s: Bytes, lone: bool): (r: Scan<Json>)
    requires s != []
    ensures r.Got? ==> 2 <= r.n <= |s|
    decreases |s|, 1
  {
    var a := 1 + Spaces(s[1..]);
    if a < |s| && s[a] == RBRACKET then Got(a + 1, Arr([]))
    else match ParseItems(s[a..], lone)
      case Fail => Fail
      case Got(n, vs) => Got(a + n, Arr(vs))
  }

  function ParseItem(s: Bytes, lone: bool): (r: Scan<(Json, bool)>)
    ensures r.Got? ==> 1 <= r.n <= |s|
    decreases |s|, 3
  {
    var c := Spaces(s);
    match Parse(s[c..], lone)
    case Fail => Fail
    case Got(n, v) =>
      match Separator(s[c + n..], RBRACKET)
      case Fail => Fail
      case Got(p, more) => Got(c + n + p, (v, more))
  }

  function ParseItems(s: Bytes, lone: bool): (r: Scan<seq<Json>>)
    ensures r.Got? ==> 1 <= r.n <= |s|
    decreases |s|, 4
  {
    match ParseItem(s, lone)
    case Fail => Fail
    case Got(n, (v, more)) =>
      if !more then Got(n, [v])
      else match ParseItems(s[n..], lone)
        case Fail => Fail
        case Got(q, vs) => Got(n + q, [v] + vs)
  }

  /** One value with white space around it, and nothing else. */
  function Document(s: Bytes, lone: bool): Option<Json> {
    var a := Spaces(s);
    var v := Parse(s[a..], lone);
    if v.Got? && a + v.n + Spaces(s[a + v.n..]) == |s| then Some(v.v) else None
  }

  // -------------------------------------------------------------------- writing

  predicate Ascending(ks: seq<Bytes>) {
    forall i, j :: 0 <= i < j < |ks| ==> Less(ks[i], ks[j])
  }

  lemma {:induction false} LeastKey(s: set<Bytes>) returns (k: Bytes)
    requires s != {}
    ensures k in s && forall j :: j in s && j != k ==> Less(k, j)
    decreases |s|
  {
    hide Less;
    var x :| x in s;
    var rest := s - {x};
    k := x;
    if rest != {} {
      var y := LeastKey(rest);
      LessTotal(x, y);
      if Less(y, x) { k := y; }
      forall j | j in s && j != k ensures Less(k, j) {
        if k == x && j != y { LessTrans(x, y, j); }
      }
    } else {
      assert s == {x};
    }
  }

  /** The members of a set in ascending order. */
  ghost function Sorted(s: set<Bytes>): (ks: seq<Bytes>)
    ensures forall k :: k in ks <==> k in s
    ensures Ascending(ks)
  {
    if s == {} then [] else
      ghost var least := LeastOf(s);
      var rest := Sorted(s - {least});
      [least] + rest
  }

  ghost function LeastOf(s: set<Bytes>): (k: Bytes)
    requires s != {}
    ensures k in s && forall j :: j in s && j != k ==> Less(k, j)
  {
    assert exists k :: k in s && forall j :: j in s && j != k ==> Less(k, j) by {
      var k := LeastKey(s);
    }
    var k :| k in s && forall j :: j in s && j != k ==> Less(k, j);
    k
  }

  /** Two ascending lists of the same keys are one list. */
  lemma {:induction false} AscendingUnique(ks: seq<Bytes>, ls: seq<Bytes>)
    requires Ascending(ks) && Ascending(ls) && forall k :: k in ks <==> k in ls
    ensures ks == ls
  {
    hide Less;
    assert forall i :: 0 <= i < |ks| ==> ks[i] in ls;
    assert forall i :: 0 <= i < |ls| ==> ls[i] in ks;
    if ks != [] && ls != [] {
      var a, b := ks[0], ls[0];
      var i :| 0 <= i < |ls| && ls[i] == a;
      var j :| 0 <= j < |ks| && ks[j] == b;
      LessTotal(a, b);
      assert i == 0 && a == b;
      TailKeys(ks, ls);
      AscendingUnique(ks[1..], ls[1..]);
    }
  }

  lemma TailKeys(ks: seq<Bytes>, ls: seq<Bytes>)
    requires Ascending(ks) && Ascending(ls) && ks != [] && ls != [] && ks[0] == ls[0]
    requires forall k :: k in ks <==> k in ls
    ensures Ascending(ks[1..]) && Ascending(ls[1..]) && forall k :: k in ks[1..] <==> k in ls[1..]
  {
    hide Less;
    AllAbove(ks);
    AllAbove(ls);
    assert ks == [ks[0]] + ks[1..] && ls == [ls[0]] + ls[1..];
    forall k | k in ks[1..] ensures k in ls[1..] { assert k in ks; }
    forall k | k in ls[1..] ensures k in ks[1..] { assert k in ls; }
  }

  lemma AllAbove(ks: seq<Bytes>)
    requires Ascending(ks) && ks != []
    ensures ks[0] !in ks[1..]
  {
    hide Less;
    LessTotal(ks[0], ks[0]);
  }

  ghost function Emit(v: Json): Bytes
    decreases v, 0
  {
    match v
    case Null => NULL
    case Bool(b) => if b then TRUE else FALSE
    case Num(tok) => tok
    case Str(s) => CanonText(s)
    case Arr(items) => [LBRACKET] + EmitItems(items) + [RBRACKET]
    case Obj(m) => EmitObject(v, Sorted(m.Keys))
  }

  /** An object written with its members in the order of ks. */
  ghost function EmitObject(v: Json, ks: seq<Bytes>): Bytes
    requires v.Obj? && forall k :: k in ks ==> k in v.members
    decreases v, 0, |ks| + 1
  {
    [LBRACE] + EmitMembers(v, ks) + [RBRACE]
  }

  ghost function EmitItems(items: seq<Json>): Bytes
    decreases items, 0
  {
    if items == [] then []
    else if |items| == 1 then Emit(items[0])
    else Emit(items[0]) + [COMMA] + EmitItems(items[1..])
  }

  ghost function EmitMember(v: Json, k: Bytes): Bytes
    requires v.Obj? && k in v.members
    decreases v, 0, 0
  {
    CanonText(k) + [COLON] + Emit(v.members[k])
  }

  ghost function EmitMembers(v: Json, ks: seq<Bytes>): Bytes
    requires v.Obj? && forall k :: k in ks ==> k in v.members
    decreases v, 0, |ks|
  {
    if ks == [] then []
    else if |ks| == 1 then EmitMember(v, ks[0])
    else EmitMember(v, ks[0]) + [COMMA] + EmitMembers(v, ks[1..])
  }

  /** sort.Strings over the keys collected from the map. */
  method SortKeys(keys: seq<Bytes>) returns (r: seq<Bytes>)
    requires forall i, j :: 0 <= i < j < |keys| ==> keys[i] != keys[j]
    ensures Ascending(r) && forall k :: k in r <==> k in keys
    ensures forall i, j :: 0 <= i < j < |r| ==> Rises(r[i], r[j])
  {
    hide Less, Rises;
    r := [];
    var n := 0;
    while n < |keys|
      invariant 0 <= n <= |keys|
      invariant Ascending(r) && forall k :: k in r <==> k in keys[..n]
    {
      var x, i := keys[n], |r|;
      while i > 0 && Less(x, r[i - 1])
        invariant 0 <= i <= |r|
        invariant forall j :: i <= j < |r| ==> Less(x, r[j])
      {
        i := i - 1;
      }
      assert x !in r;
      if i > 0 {
        assert r[i - 1] in r;
        LessTotal(x, r[i - 1]);
        BelowAll(r, i - 1, x);
      }
      var next := r[..i] + [x] + r[i..];
      assert r == r[..i] + r[i..];
      assert keys[..n + 1] == keys[..n] + [x];
      r := next;
      n := n + 1;
    }
    assert keys[..n] == keys;
    forall i, j | 0 <= i < j < |r| ensures Rises(r[i], r[j]) { LessExactly(r[i], r[j]); }
  }

  lemma BelowAll(r: seq<Bytes>, i: nat, x: Bytes)
    requires Ascending(r) && i < |r| && Less(r[i], x)
    ensures forall j :: 0 <= j <= i ==> Less(r[j], x)
  {
    hide Less;
    forall j | 0 <= j <= i ensures Less(r[j], x) {
      if j < i { LessTrans(r[j], r[i], x); }
    }
  }

  method KeysInOrder(m: map<Bytes, Json>) returns (ks: seq<Bytes>)
    ensures ks == Sorted(m.Keys)
  {
    var keys: seq<Bytes>, left := [], m.Keys;
    while left != {}
      invariant left <= m.Keys
      invariant forall k :: k in keys <==> k in m.Keys && k !in left
      invariant forall i, j :: 0 <= i < j < |keys| ==> keys[i] != keys[j]
      decreases |left|
    {
      var k :| k in left;
      keys := keys + [k];
      left := left - {k};
    }
    ks := SortKeys(keys);
    AscendingUnique(ks, Sorted(m.Keys));
  }

  /** emitCanonValue. */
  method EmitCanonValue(out: Bytes, v: Json) returns (r: Bytes)
    ensures r == out + Emit(v)
    decreases v, 0
  {
    hide Sorted, CanonText, EmitItems, EmitMembers, Ascii;
    match v
    case Null => r := out + NULL;
    case Bool(b) => r := out + if b then TRUE else FALSE;
    case Num(tok) => r := out + tok;
    case Str(s) => r := EmitCanonString(out, s);
    case Arr(items) =>
      r := EmitArray(out + [LBRACKET], items);
      assert r + [RBRACKET] == out + Emit(v);
      r := r + [RBRACKET];
    case Obj(m) =>
      var ks := KeysInOrder(m);
      r := EmitKeys(out + [LBRACE], v, ks);
      assert r + [RBRACE] == out + Emit(v);
      r := r + [RBRACE];
  }

  /** The loop over an array's items. */
  method EmitArray(out: Bytes, items: seq<Json>) returns (r: Bytes)
    ensures r == out + EmitItems(items)
    decreases items, 0
  {
    hide Emit;
    r := out;
    var i := 0;
    assert items[0..] == items;
    while i < |items|
      invariant 0 <= i <= |items|
      invariant out + EmitItems(items) == r + (if 0 < i < |items| then [COMMA] else []) + EmitItems(items[i..])
    {
      ghost var rest := items[i..];
      assert rest[0] == items[i] && rest[1..] == items[i + 1..];
      if i > 0 { r := r + [COMMA]; }
      ghost var before := r;
      r := EmitCanonValue(r, items[i]);
      i := i + 1;
      AssocItems(before, Emit(items[i - 1]), EmitItems(items[i..]));
    }
  }

  lemma AssocItems(a: Bytes, b: Bytes, c: Bytes)
    ensures a + (b + [COMMA] + c) == a + b + [COMMA] + c
    ensures a + b + [] + [] == a + b
  {}

  /** The loop over an object's keys. */
  method EmitKeys(out: Bytes, v: Json, ks: seq<Bytes>) returns (r: Bytes)
    requires v.Obj? && forall k :: k in ks ==> k in v.members
    ensures r == out + EmitMembers(v, ks)
    decreases v, 0, |ks|
  {
    hide Emit, CanonText;
    r := out;
    var i := 0;
    assert ks[0..] == ks;
    while i < |ks|
      invariant 0 <= i <= |ks|
      invariant out + EmitMembers(v, ks) == r + (if 0 < i < |ks| then [COMMA] else []) + EmitMembers(v, ks[i..])
    {
      ghost var rest := ks[i..];
      assert rest[0] == ks[i] && rest[1..] == ks[i + 1..];
      if i > 0 { r := r + [COMMA]; }
      ghost var before := r;
      assert ks[i] in ks;
      r := EmitCanonString(r, ks[i]);
      r := r + [COLON];
      r := EmitCanonValue(r, v.members[ks[i]]);
      assert r == before + EmitMember(v, ks[i]);
      i := i + 1;
      AssocItems(before, EmitMember(v, ks[i - 1]), EmitMembers(v, ks[i..]));
    }
  }

  // ------------------------------------------------------------ canonicalisation

  ghost function Canonicalize(input: Bytes): Option<Bytes> {
    if !Utf8(input) || !Outside(input) then None
    else
      var v := Document(input, true);
      if v.None? then None else Some(Emit(v.value))
  }

  method CanonicalizeV1(input: Bytes) returns (out: Bytes, ok: bool)
    ensures ok <==> Canonicalize(input).Some?
    ensures ok ==> Canonicalize(input) == Some(out)
  {
    if !Utf8(input) {
      return [], false;
    }
    var paired := ValidateUnicodeEscapes(input);
    if !paired {
      return [], false;
    }
    var v := Document(input, true);
    if v.None? {
      return [], false;
    }
    out := EmitCanonValue([], v.value);
    assert [] + Emit(v.value) == Emit(v.value);
    return out, true;
  }
}
