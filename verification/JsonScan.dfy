/**
 What the strict scanner recognises, as functions of the bytes that remain: each says
 how many of them the next piece takes.  The grammar is RFC 8259; the extra bounds of
 the strict domain (unique keys, no NUL, paired surrogates, bounded nesting, numbers
 that survive a float) are part of the functions, as they are of the scanner.
 */
module JsonScan {
  import opened ByteStrings
  import opened NumberDomain

  datatype Scan<+T> = Fail | Got(n: nat, v: T)

  const MAX_DEPTH: nat := 64

  function Spaces(s: Bytes): (n: nat)
    ensures n <= |s|
    ensures n < |s| ==> !IsSpace(s[n])
    ensures forall i :: 0 <= i < n ==> IsSpace(s[i])
  {
    if s != [] && IsSpace(s[0]) then 1 + Spaces(s[1..]) else 0
  }

  // ------------------------------------------------------------------ strings

  function HexDigit(c: byte): (r: Scan<nat>)
    ensures r.Got? ==> r.v < 16
  {
    if IsDigit(c) then Got(1, c - 0x30)
    else if 0x61 <= c <= 0x66 then Got(1, c - 0x61 + 10)
    else if 0x41 <= c <= 0x46 then Got(1, c - 0x41 + 10)
    else Fail
  }

  /** The number the first k hexadecimal digits spell. */
  function HexPrefix(s: Bytes, k: nat): (r: Scan<nat>)
    requires k <= |s|
  {
    if k == 0 then Got(0, 0)
    else match (HexPrefix(s, k - 1), HexDigit(s[k - 1]))
      case (Got(_, v), Got(_, d)) => Got(k, v * 16 + d)
      case _ => Fail
  }

  function Hex4(s: Bytes): (r: Scan<nat>)
    ensures r.Got? ==> r.n == 4 <= |s| && r.v < 0x10000
  {
    if |s| < 4 then Fail else
      assert HexPrefix(s, 1).Got? ==> HexPrefix(s, 1).v < 0x10;
      assert HexPrefix(s, 2).Got? ==> HexPrefix(s, 2).v < 0x100;
      assert HexPrefix(s, 3).Got? ==> HexPrefix(s, 3).v < 0x1000;
      HexPrefix(s, 4)
  }

  /** A code point that may stand in a decoded string: not NUL, not half a surrogate pair. */
  predicate Scalar(r: nat) {
    0 < r < 0x110000 && !(0xD800 <= r < 0xE000)
  }

  function Pair(hi: nat, lo: nat): (r: nat)
    requires 0xD800 <= hi < 0xDC00 && 0xDC00 <= lo < 0xE000
    ensures Scalar(r) && r >= 0x10000
  {
    (hi - 0xD800) * 0x400 + (lo - 0xDC00) + 0x10000
  }

  function UnicodeEscape(s: Bytes): (r: Scan<nat>)
    requires |s| >= 2
    ensures r.Got? ==> 6 <= r.n <= |s| && Scalar(r.v)
  {
    var u := Hex4(s[2..]);
    if u.Fail? || u.v == 0 then Fail
    else if 0xDC00 <= u.v < 0xE000 then Fail
    else if 0xD800 <= u.v < 0xDC00 then
      if |s| < 12 || s[6] != BACKSLASH || s[7] != 0x75 then Fail else
        var lo := Hex4(s[8..]);
        if lo.Fail? || lo.v < 0xDC00 || lo.v > 0xDFFF then Fail else Got(12, Pair(u.v, lo.v))
    else Got(6, u.v)
  }

  /** The code point a backslash at the head of s stands for. */
  function Escape(s: Bytes): (r: Scan<nat>)
    ensures r.Got? ==> 2 <= r.n <= |s| && Scalar(r.v)
  {
    if |s| < 2 then Fail
    else match s[1]
      case 0x22 => Got(2, 0x22)
      case 0x5C => Got(2, 0x5C)
      case 0x2F => Got(2, 0x2F)
      case 0x62 => Got(2, 8)
      case 0x66 => Got(2, 12)
      case 0x6E => Got(2, 10)
      case 0x72 => Got(2, 13)
      case 0x74 => Got(2, 9)
      case 0x75 => UnicodeEscape(s)
      case _ => Fail
  }

  /** The rest of a string after its opening quote: the bytes taken and the decoded value. */
  function StringTail(s: Bytes): (r: Scan<Bytes>)
    ensures r.Got? ==> 1 <= r.n <= |s|
    decreases |s|
  {
    if s == [] then Fail
    else if s[0] == QUOTE then Got(1, [])
    else if s[0] == BACKSLASH then
      match Escape(s)
      case Fail => Fail
      case Got(k, r) =>
        (match StringTail(s[k..])
         case Fail => Fail
         case Got(n, v) => Got(k + n, Encode(r) + v))
    else if s[0] < 0x20 then Fail
    else match StringTail(s[1..])
      case Fail => Fail
      case Got(n, v) => Got(1 + n, [s[0]] + v)
  }

  function String(s: Bytes): (r: Scan<Bytes>)
    ensures r.Got? ==> 2 <= r.n <= |s|
  {
    if s == [] || s[0] != QUOTE then Fail
    else match StringTail(s[1..])
      case Fail => Fail
      case Got(n, v) => Got(1 + n, v)
  }

  // ------------------------------------------------------------------ numbers

  function IntPart(s: Bytes): (r: Scan<()>)
    ensures r.Got? ==> 1 <= r.n <= |s|
  {
    if s == [] then Fail
    else if s[0] == ZERO then if |s| > 1 && IsDigit(s[1]) then Fail else Got(1, ())
    else if IsDigit(s[0]) then Got(Digits(s), ())
    else Fail
  }

  function FracPart(s: Bytes): (r: Scan<()>)
    ensures r.Got? ==> r.n <= |s|
  {
    if s == [] || s[0] != DOT then Got(0, ())
    else if Digits(s[1..]) == 0 then Fail
    else Got(1 + Digits(s[1..]), ())
  }

  function ExpPart(s: Bytes): (r: Scan<()>)
    ensures r.Got? ==> r.n <= |s|
  {
    if s == [] || (s[0] != 0x65 && s[0] != 0x45) then Got(0, ()) else
      var g := if |s| > 1 && (s[1] == PLUS || s[1] == MINUS) then 2 else 1;
      if Digits(s[g..]) == 0 then Fail else Got(g + Digits(s[g..]), ())
  }

  /** The longest number at the head of s, by section 6 of RFC 8259. */
  function Numeral(s: Bytes): (r: Scan<()>)
    ensures r.Got? ==> 1 <= r.n <= |s|
  {
    var g := Sign(s);
    match IntPart(s[g..])
    case Fail => Fail
    case Got(i, _) =>
      match FracPart(s[g + i..])
      case Fail => Fail
      case Got(f, _) =>
        match ExpPart(s[g + i + f..])
        case Fail => Fail
        case Got(e, _) => Got(g + i + f + e, ())
  }

  function Number(s: Bytes): (r: Scan<()>)
    ensures r.Got? ==> 1 <= r.n <= |s|
  {
    match Numeral(s)
    case Fail => Fail
    case Got(n, _) => if Accepts(s[..n]) then Got(n, ()) else Fail
  }

  // ------------------------------------------------------------------- values

  datatype Member = Member(key: Bytes, raw: Bytes)

  predicate Distinct(ms: seq<Member>) {
    forall i, j :: 0 <= i < j < |ms| ==> ms[i].key != ms[j].key
  }

  const TRUE: Bytes := Ascii("true")
  const FALSE: Bytes := Ascii("false")
  const NULL: Bytes := Ascii("null")

  function Literal(s: Bytes, lit: Bytes): (r: Scan<()>)
    ensures r.Got? ==> r.n == |lit| <= |s|
  {
    if lit <= s then Got(|lit|, ()) else Fail
  }

  /** One value, with room for that many more levels of nesting. */
  function Value(s: Bytes, room: nat): (r: Scan<()>)
    ensures r.Got? ==> 1 <= r.n <= |s|
    decreases |s|, 2
  {
    if s == [] then Fail
    else if s[0] == LBRACE then
      if room == 0 then Fail else
        match Object(s, room - 1)
        case Fail => Fail
        case Got(n, ms) => if Distinct(ms) then Got(n, ()) else Fail
    else if s[0] == LBRACKET then
      if room == 0 then Fail else
        match Array(s, room - 1)
        case Fail => Fail
        case Got(n, _) => Got(n, ())
    else if s[0] == QUOTE then
      match String(s)
      case Fail => Fail
      case Got(n, _) => Got(n, ())
    else if s[0] == MINUS || IsDigit(s[0]) then Number(s)
    else if s[0] == 0x74 then Literal(s, TRUE)
    else if s[0] == 0x66 then Literal(s, FALSE)
    else if s[0] == 0x6E then Literal(s, NULL)
    else Fail
  }

  /** From an opening brace through its closing one: the members in order, keys possibly repeated. */
  function Object(s: Bytes, room: nat): (r: Scan<seq<Member>>)
    requires s != []
    ensures r.Got? ==> 2 <= r.n <= |s|
    decreases |s|, 1
  {
    var a := 1 + Spaces(s[1..]);
    if a < |s| && s[a] == RBRACE then Got(a + 1, [])
    else match Members(s[a..], room)
      case Fail => Fail
      case Got(n, ms) => Got(a + n, ms)
  }

  /** A key, its colon, and the white space around them. */
  function Key(s: Bytes): (r: Scan<Bytes>)
    ensures r.Got? ==> 3 <= r.n <= |s|
  {
    var a := Spaces(s);
    match String(s[a..])
    case Fail => Fail
    case Got(k, key) =>
      var b := a + k + Spaces(s[a + k..]);
      if b >= |s| || s[b] != COLON then Fail
      else Got(b + 1 + Spaces(s[b + 1..]), key)
  }

  /** What follows an element: white space, then a comma (more) or the closing byte. */
  function Separator(s: Bytes, closing: byte): (r: Scan<bool>)
    ensures r.Got? ==> 1 <= r.n <= |s|
  {
    var a := Spaces(s);
    if a >= |s| then Fail
    else if s[a] == COMMA then Got(a + 1, true)
    else if s[a] == closing then Got(a + 1, false)
    else Fail
  }

  /** One member and what follows it: whether a comma promises another. */
  function Entry(s: Bytes, room: nat): (r: Scan<(Member, bool)>)
    ensures r.Got? ==> 1 <= r.n <= |s|
    decreases |s|, 0
  {
    match Key(s)
    case Fail => Fail
    case Got(c, key) =>
      match Value(s[c..], room)
      case Fail => Fail
      case Got(n, _) =>
        match Separator(s[c + n..], RBRACE)
        case Fail => Fail
        case Got(p, more) => Got(c + n + p, (Member(key, s[c..c + n]), more))
  }

  function Members(s: Bytes, room: nat): (r: Scan<seq<Member>>)
    ensures r.Got? ==> 1 <= r.n <= |s|
    decreases |s|, 1
  {
    match Entry(s, room)
    case Fail => Fail
    case Got(n, (m, more)) =>
      if !more then Got(n, [m])
      else match Members(s[n..], room)
        case Fail => Fail
        case Got(q, ms) => Got(n + q, [m] + ms)
  }

  function Array(s: Bytes, room: nat): (r: Scan<seq<Bytes>>)
    requires s != []
    ensures r.Got? ==> 2 <= r.n <= |s|
    decreases |s|, 1
  {
    var a := 1 + Spaces(s[1..]);
    if a < |s| && s[a] == RBRACKET then Got(a + 1, [])
    else match Elements(s[a..], room)
      case Fail => Fail
      case Got(n, es) => Got(a + n, es)
  }

  /** One element and what follows it. */
  function Item(s: Bytes, room: nat): (r: Scan<(Bytes, bool)>)
    ensures r.Got? ==> 1 <= r.n <= |s|
    decreases |s|, 3
  {
    var c := Spaces(s);
    match Value(s[c..], room)
    case Fail => Fail
    case Got(n, _) =>
      match Separator(s[c + n..], RBRACKET)
      case Fail => Fail
      case Got(p, more) => Got(c + n + p, (s[c..c + n], more))
  }

  function Elements(s: Bytes, room: nat): (r: Scan<seq<Bytes>>)
    ensures r.Got? ==> 1 <= r.n <= |s|
    decreases |s|, 4
  {
    match Item(s, room)
    case Fail => Fail
    case Got(n, (e, more)) =>
      if !more then Got(n, [e])
      else match Elements(s[n..], room)
        case Fail => Fail
        case Got(q, es) => Got(n + q, [e] + es)
  }

  /** A whole payload in the strict domain: well-formed UTF-8 holding one value and white space. */
  predicate Strict(payload: Bytes) {
    && payload != []
    && Utf8(payload)
    && var a := Spaces(payload);
       var v := Value(payload[a..], MAX_DEPTH);
       v.Got? && a + v.n + Spaces(payload[a + v.n..]) == |payload|
  }
}
