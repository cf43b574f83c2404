/**
 Every response is inside the strict domain and carries the request's own id, for every
 frame and every handler.
 */
module Responses {
  import opened ByteStrings
  import opened JsonScan
  import opened JsonLocality
  import opened JsonSpans
  import opened JsonReaders
  import opened JsonQuote
  import opened Dispatcher
  import opened NumberDomain
  import opened NumberExact
  import opened StrictScanner
  import Arith

  // -------------------------------------------------------- texts that compose

  /** v is one whole value. */
  predicate Token(v: Bytes, room: nat) {
    JsonScan.Value(v, room).Got? && JsonScan.Value(v, room).n == |v|
  }

  lemma TokenInPlace(v: Bytes, t: Bytes, room: nat)
    requires Token(v, room) && (t == [] || !Prolongs(t[0]))
    ensures JsonScan.Value(v + t, room).Got? && JsonScan.Value(v + t, room).n == |v|
  {
    hide JsonScan.Value;
    assert Agree(v, v + t, |v|);
    ValueLocal(v, v + t, room);
  }

  lemma TokenBegins(v: Bytes, room: nat)
    requires Token(v, room)
    ensures v != [] && !IsSpace(v[0])
  {
    hide JsonScan.Value;
    ValueBegins(v, room);
  }

  lemma TokenRoom(v: Bytes, room: nat, more: nat)
    requires Token(v, room) && room <= more
    ensures Token(v, more)
  {
    hide JsonScan.Value;
    ValueRooms(v, room, more);
  }

  function Field(m: Member): Bytes {
    Quote(m.key) + [COLON] + m.raw
  }

  /** Members written one after the other, without the braces. */
  function Join(ms: seq<Member>): Bytes {
    if |ms| == 0 then []
    else if |ms| == 1 then Field(ms[0])
    else Field(ms[0]) + [COMMA] + Join(ms[1..])
  }

  function ObjectText(ms: seq<Member>): Bytes {
    [LBRACE] + Join(ms) + [RBRACE]
  }

  predicate GoodMember(m: Member, room: nat) {
    0 !in m.key && Utf8(m.key) && Token(m.raw, room) && Utf8(m.raw)
  }

  ghost predicate GoodMembers(ms: seq<Member>, room: nat) {
    ms != [] && forall i :: 0 <= i < |ms| ==> GoodMember(ms[i], room)
  }

  lemma {:induction false} NoSpaces(s: Bytes)
    requires s == [] || !IsSpace(s[0])
    ensures Spaces(s) == 0
  {}

  lemma {:induction false} KeyScan(key: Bytes, u: Bytes)
    requires 0 !in key && u != [] && !IsSpace(u[0])
    ensures JsonScan.Key(Quote(key) + [COLON] + u) == Got(|Quote(key)| + 1, key)
  {
    hide String, Spaces;
    var q, t := Quote(key), [COLON] + u;
    var s := Quote(key) + [COLON] + u;
    assert s == q + t;
    QuoteReads(key, t);
    NoSpaces(s);
    assert s[0..] == s && s[|q|..] == t;
    NoSpaces(t);
    NoSpaces(u);
    assert s[|q| + 1..] == u;
  }

  lemma SeparatorScan(c: byte, t: Bytes)
    requires c == COMMA || c == RBRACE
    ensures Separator([c] + t, RBRACE) == Got(1, c == COMMA)
  {}

  lemma {:induction false} EntryScan(m: Member, c: byte, t: Bytes, room: nat)
    requires 0 !in m.key && Token(m.raw, room) && (c == COMMA || c == RBRACE)
    ensures Entry(Field(m) + [c] + t, room) == Got(|Field(m)| + 1, (m, c == COMMA))
  {
    hide JsonScan.Key, JsonScan.Value, Separator, Quote;
    var s, q := Field(m) + [c] + t, |Quote(m.key)|;
    var u := m.raw + ([c] + t);
    TokenBegins(m.raw, room);
    assert s == Quote(m.key) + [COLON] + u;
    KeyScan(m.key, u);
    TokenInPlace(m.raw, [c] + t, room);
    assert s[q + 1..] == u && s[q + 1 + |m.raw|..] == [c] + t;
    assert s[q + 1..q + 1 + |m.raw|] == m.raw;
    SeparatorScan(c, t);
  }

  lemma {:induction false} MembersScan(ms: seq<Member>, t: Bytes, room: nat)
    requires GoodMembers(ms, room)
    ensures Members(Join(ms) + [RBRACE] + t, room) == Got(|Join(ms)| + 1, ms)
    decreases |ms|
  {
    hide Entry, Field, GoodMember;
    assert GoodMember(ms[0], room);
    GoodParts(ms[0], room);
    var s := Join(ms) + [RBRACE] + t;
    if |ms| == 1 {
      EntryScan(ms[0], RBRACE, t, room);
      assert ms == [ms[0]];
    } else {
      var rest := Join(ms[1..]) + [RBRACE] + t;
      assert s == Field(ms[0]) + [COMMA] + rest;
      EntryScan(ms[0], COMMA, rest, room);
      assert s[|Field(ms[0])| + 1..] == rest;
      MembersScan(ms[1..], t, room);
      assert ms == [ms[0]] + ms[1..];
    }
  }

  lemma GoodParts(m: Member, room: nat)
    requires GoodMember(m, room)
    ensures 0 !in m.key && Token(m.raw, room)
  {}

  lemma {:induction false} JoinBegins(ms: seq<Member>)
    requires ms != []
    ensures Join(ms) != [] && Join(ms)[0] == QUOTE
  {}

  /** An object put together from members scans back to exactly those members. */
  lemma {:induction false} ObjectScan(ms: seq<Member>, room: nat)
    requires GoodMembers(ms, room)
    ensures Object(ObjectText(ms), room) == Got(|ObjectText(ms)|, ms)
  {
    hide Members, Join;
    var s := ObjectText(ms);
    JoinBegins(ms);
    var u := Join(ms) + [RBRACE];
    assert s[1..] == u && u == Join(ms) + [RBRACE] + [];
    NoSpaces(u);
    MembersScan(ms, [], room);
  }

  lemma ObjectToken(ms: seq<Member>, room: nat)
    requires GoodMembers(ms, room) && Distinct(ms)
    ensures Token(ObjectText(ms), room + 1)
  {
    hide Object, Distinct;
    ObjectScan(ms, room);
  }

  lemma QuotedUtf8(s: Bytes)
    requires Utf8(s)
    ensures Utf8(Quote(s))
  {
    QuoteIsUtf8(s);
    AsciiIsUtf8([QUOTE]);
    Utf8Concat([QUOTE], QuoteTail(s));
  }

  lemma FieldUtf8(m: Member)
    requires Utf8(m.key) && Utf8(m.raw)
    ensures Utf8(Field(m))
  {
    hide Utf8, Quote;
    QuotedUtf8(m.key);
    AsciiIsUtf8([COLON]);
    Utf8Concat(Quote(m.key), [COLON]);
    Utf8Concat(Quote(m.key) + [COLON], m.raw);
  }

  lemma {:induction false} JoinUtf8(ms: seq<Member>, room: nat)
    requires forall i :: 0 <= i < |ms| ==> GoodMember(ms[i], room)
    ensures Utf8(Join(ms))
  {
    hide Utf8, Field, Token;
    if |ms| == 0 {
      AsciiIsUtf8([]);
    } else {
      assert GoodMember(ms[0], room);
      FieldUtf8(ms[0]);
      if |ms| > 1 {
        JoinUtf8(ms[1..], room);
        AsciiIsUtf8([COMMA]);
        Utf8Concat(Field(ms[0]), [COMMA]);
        Utf8Concat(Field(ms[0]) + [COMMA], Join(ms[1..]));
      }
    }
  }

  lemma ObjectUtf8(ms: seq<Member>, room: nat)
    requires GoodMembers(ms, room)
    ensures Utf8(ObjectText(ms))
  {
    hide Utf8, Join, GoodMember;
    JoinUtf8(ms, room);
    AsciiIsUtf8([LBRACE]);
    AsciiIsUtf8([RBRACE]);
    Utf8Concat([LBRACE], Join(ms));
    Utf8Concat([LBRACE] + Join(ms), [RBRACE]);
  }

  /** A nested object is a good value one level further out. */
  lemma ObjectGood(key: Bytes, ms: seq<Member>, room: nat)
    requires GoodMembers(ms, room) && Distinct(ms) && 0 !in key && Utf8(key)
    ensures GoodMember(Member(key, ObjectText(ms)), room + 1)
  {
    hide Token, Utf8, ObjectText, GoodMembers, Distinct;
    ObjectToken(ms, room);
    ObjectUtf8(ms, room);
  }

  lemma QuotedGood(key: Bytes, s: Bytes, room: nat)
    requires 0 !in key && Utf8(key) && 0 !in s && Utf8(s)
    ensures GoodMember(Member(key, Quote(s)), room)
  {
    hide Utf8, String, Quote;
    QuotedUtf8(s);
    QuoteReads(s, []);
    assert Quote(s) + [] == Quote(s);
    QuoteBegins(s);
  }

  lemma QuoteBegins(s: Bytes)
    ensures Quote(s) != [] && Quote(s)[0] == QUOTE
  {}

  // ------------------------------------------------------- the builders' texts

  lemma AsciiGood(s: string)
    ensures 0 !in Ascii(s) && Utf8(Ascii(s))
  {
    AsciiIsUtf8(Ascii(s));
  }

  /** A text of plain letters, digits and a few marks. */
  predicate Letters(s: string) {
    forall i :: 0 <= i < |s| ==> 0x20 < s[i] as int < 0x7F && s[i] != '\"' && s[i] != '\\'
  }

  lemma QuoteText(s: string)
    requires Letters(s)
    ensures Quote(Ascii(s)) == Text(s)
  {
    QuotePlain(Ascii(s));
  }

  const KEY_ERROR: Bytes := Ascii("error")
  const KEY_RESULT: Bytes := Ascii("result")
  const KEY_CODE: Bytes := Ascii("code")
  const KEY_MESSAGE: Bytes := Ascii("message")
  const KEY_DATA: Bytes := Ascii("data")
  const KEY_REASON_CODE: Bytes := Ascii("reasonCode")
  const KEY_REASON_CODE_OLD: Bytes := Ascii("reason_code")
  const KEY_STATUS: Bytes := Ascii("status")
  const KEY_REASON: Bytes := Ascii("reason")

  /** The builders' literals are the quoted keys. */
  lemma KeyTexts()
    ensures Quote(KEY_JSONRPC) == Text("jsonrpc") && Quote(KEY_ID) == Text("id")
    ensures Quote(KEY_ERROR) == Text("error") && Quote(KEY_CODE) == Text("code")
    ensures Quote(KEY_MESSAGE) == Text("message") && Quote(KEY_RESULT) == Text("result")
  {
    hide Quote;
    QuoteText("jsonrpc");
    QuoteText("id");
    QuoteText("error");
    QuoteText("code");
    QuoteText("message");
    QuoteText("result");
  }

  lemma ReasonTexts()
    ensures Quote(KEY_DATA) == Text("data") && Quote(KEY_REASON_CODE) == Text("reasonCode")
    ensures Quote(KEY_STATUS) == Text("status") && Quote(KEY_REASON) == Text("reason")
    ensures Quote(KEY_REASON_CODE_OLD) == Text("reason_code")
  {
    hide Quote;
    QuoteText("data");
    QuoteText("reasonCode");
    QuoteText("status");
    QuoteText("reason");
    QuoteText("reason_code");
  }

  // ---------------------------------------------- responses as member lists

  function ErrorBody(code: Code, message: Bytes, reasonCode: Bytes): seq<Member> {
    [Member(KEY_CODE, CodeText(code)), Member(KEY_MESSAGE, Quote(message))]
    + (if reasonCode != [] then [Member(KEY_DATA, ObjectText([Member(KEY_REASON_CODE, Quote(reasonCode))]))] else [])
  }

  function Envelope(id: Bytes, key: Bytes, body: Bytes): seq<Member> {
    [Member(KEY_JSONRPC, VERSION), Member(KEY_ID, id), Member(key, body)]
  }

  function FailureBody(status: Bytes, reasonCode: Bytes, reason: Bytes): seq<Member> {
    [Member(KEY_STATUS, Quote(status)), Member(KEY_REASON, Quote(if reason == [] then reasonCode else reason))]
    + (if reasonCode != []
       then [Member(KEY_REASON_CODE, Quote(reasonCode)), Member(KEY_REASON_CODE_OLD, Quote(reasonCode))]
       else [])
  }

  lemma Join1(a: Member)
    ensures Join([a]) == Field(a)
  {}

  lemma {:induction false} JoinMore(ms: seq<Member>, m: Member)
    requires ms != []
    ensures Join(ms + [m]) == Join(ms) + [COMMA] + Field(m)
  {
    hide Field;
    if |ms| == 1 {
      assert (ms + [m])[1..] == [m];
    } else {
      assert (ms + [m])[1..] == ms[1..] + [m];
      JoinMore(ms[1..], m);
      Assoc(Field(ms[0]), Join(ms[1..]), [COMMA] + Field(m));
    }
  }

  lemma Assoc(a: Bytes, b: Bytes, c: Bytes)
    ensures a + [COMMA] + (b + c) == a + [COMMA] + b + c
  {}

  /** A literal `, key :` and a value append one field. */
  lemma AppendField(text: Bytes, key: Bytes, value: Bytes)
    ensures text + ([COMMA] + Quote(key) + [COLON]) + value == text + [COMMA] + Field(Member(key, value))
  {
    hide Quote;
  }

  /** Everything after the id, for a last member already written as `, key : body`. */
  lemma EnvelopeText(id: Bytes, key: Bytes, body: Bytes)
    ensures HEAD + id + ([COMMA] + Quote(key) + [COLON] + body + [RBRACE]) == ObjectText(Envelope(id, key, body))
  {
    hide Quote, Join;
    KeyTexts();
    var a, b, c := Member(KEY_JSONRPC, VERSION), Member(KEY_ID, id), Member(key, body);
    Join1(a);
    JoinMore([a], b);
    JoinMore([a, b], c);
    assert [a] + [b] == [a, b] && [a, b] + [c] == [a, b, c];
  }

  lemma TwoFields(k: Bytes, v: Bytes, l: Bytes, w: Bytes)
    ensures [LBRACE] + Quote(k) + [COLON] + v + ([COMMA] + Quote(l) + [COLON]) + w
            == [LBRACE] + Join([Member(k, v), Member(l, w)])
  {
    hide Quote, Join;
    Join1(Member(k, v));
    JoinMore([Member(k, v)], Member(l, w));
    assert [Member(k, v)] + [Member(l, w)] == [Member(k, v), Member(l, w)];
    AppendField([LBRACE] + Quote(k) + [COLON] + v, l, w);
  }

  lemma ErrorBodyText(code: Code, message: Bytes, reasonCode: Bytes)
    ensures [LBRACE] + Text("code") + [COLON] + CodeText(code) + MESSAGE + Quote(message)
            + (if reasonCode != [] then DATA + Quote(reasonCode) + [RBRACE] else []) + [RBRACE]
            == ObjectText(ErrorBody(code, message, reasonCode))
  {
    hide Quote, Join, Text, CodeText;
    KeyTexts();
    ReasonTexts();
    var ms := [Member(KEY_CODE, CodeText(code)), Member(KEY_MESSAGE, Quote(message))];
    var open := [LBRACE] + Text("code") + [COLON] + CodeText(code) + MESSAGE + Quote(message);
    TwoFields(KEY_CODE, CodeText(code), KEY_MESSAGE, Quote(message));
    assert open == [LBRACE] + Join(ms);
    if reasonCode != [] {
      var inner := Member(KEY_REASON_CODE, Quote(reasonCode));
      Join1(inner);
      var data := Member(KEY_DATA, ObjectText([inner]));
      JoinMore(ms, data);
      DataField(reasonCode);
      AppendField(open, KEY_DATA, ObjectText([inner]));
      assert ErrorBody(code, message, reasonCode) == ms + [data];
      assert open + (DATA + Quote(reasonCode) + [RBRACE]) == open + ([COMMA] + Quote(KEY_DATA) + [COLON]) + ObjectText([inner]);
    } else {
      assert ErrorBody(code, message, reasonCode) == ms;
    }
  }

  lemma DataField(reasonCode: Bytes)
    ensures DATA + Quote(reasonCode) + [RBRACE]
            == [COMMA] + Quote(KEY_DATA) + [COLON] + ObjectText([Member(KEY_REASON_CODE, Quote(reasonCode))])
  {
    hide Quote, Join, Text;
    ReasonTexts();
    Join1(Member(KEY_REASON_CODE, Quote(reasonCode)));
  }

  lemma Regroup(h: Bytes, e: Bytes, c: Bytes, t: Bytes, r: Bytes)
    ensures h + (e + c) + t + (r + r) == h + (e + (c + t + r) + r)
  {}

  lemma ErrorText(id: Bytes, code: Code, message: Bytes, reasonCode: Bytes)
    ensures ErrorResponse(id, code, message, reasonCode)
            == ObjectText(Envelope(id, KEY_ERROR, ObjectText(ErrorBody(code, message, reasonCode))))
  {
    hide Quote, Join, ErrorBody, Envelope, ObjectText, Text;
    KeyTexts();
    ErrorBodyText(code, message, reasonCode);
    EnvelopeText(id, KEY_ERROR, ObjectText(ErrorBody(code, message, reasonCode)));
    var e, c := [COMMA] + Text("error") + [COLON], [LBRACE] + Text("code") + [COLON];
    assert ERROR_CODE == e + c;
    var d := if reasonCode != [] then DATA + Quote(reasonCode) + [RBRACE] else [];
    var t := CodeText(code) + MESSAGE + Quote(message) + d;
    assert c + CodeText(code) + MESSAGE + Quote(message) + d == c + t;
    assert ErrorResponse(id, code, message, reasonCode) == HEAD + id + (e + c) + t + ([RBRACE] + [RBRACE]) by {
      hide ERROR_CODE, MESSAGE, DATA, HEAD;
      Flatten(HEAD + id, ERROR_CODE, CodeText(code), MESSAGE, Quote(message), d);
    }
    Regroup(HEAD + id, e, c, t, [RBRACE]);
  }

  lemma Flatten(h: Bytes, e: Bytes, a: Bytes, b: Bytes, c: Bytes, d: Bytes)
    ensures h + e + a + b + c + d + [RBRACE, RBRACE] == h + e + (a + b + c + d) + ([RBRACE] + [RBRACE])
  {}

  /** Two more fields, written as the builder appends them. */
  lemma TwoMore(open: Bytes, ms: seq<Member>, k: Bytes, l: Bytes, v: Bytes)
    requires ms != [] && open == [LBRACE] + Join(ms)
    ensures open + (([COMMA] + Quote(k) + [COLON]) + v + ([COMMA] + Quote(l) + [COLON]) + v) + [RBRACE]
            == ObjectText(ms + [Member(k, v), Member(l, v)])
  {
    hide Quote, Join;
    var c, d := Member(k, v), Member(l, v);
    JoinMore(ms, c);
    JoinMore(ms + [c], d);
    assert ms + [c] + [d] == ms + [c, d];
  }

  lemma FailureText(status: Bytes, reasonCode: Bytes, reason: Bytes)
    ensures FailureResult(status, reasonCode, reason) == ObjectText(FailureBody(status, reasonCode, reason))
  {
    hide Quote, Join, Text;
    ReasonTexts();
    var said := Quote(if reason == [] then reasonCode else reason);
    var ms := [Member(KEY_STATUS, Quote(status)), Member(KEY_REASON, said)];
    var open := STATUS + Quote(status) + REASON + said;
    TwoFields(KEY_STATUS, Quote(status), KEY_REASON, said);
    if reasonCode != [] {
      TwoMore(open, ms, KEY_REASON_CODE, KEY_REASON_CODE_OLD, Quote(reasonCode));
    } else {
      assert FailureBody(status, reasonCode, reason) == ms;
    }
  }

  lemma ResultText(id: Bytes, result: Bytes)
    ensures ResultResponse(id, result) == ObjectText(Envelope(id, KEY_RESULT, result))
  {
    hide Quote, Join, Envelope;
    KeyTexts();
    EnvelopeText(id, KEY_RESULT, result);
  }

  // ------------------------------------------------------- pieces that are good

  lemma CodeDigits(tok: Bytes)
    requires |tok| == 6 && tok[0] == MINUS && tok[1] != ZERO && forall i :: 1 <= i < 6 ==> IsDigit(tok[i])
    ensures Numeral(tok).Got? && Numeral(tok).n == 6
    ensures ReadNumber(tok) == Read(Parts(tok[1..], [], 0))
  {
    var s := tok[1..];
    AllDigitsRun(s);
    assert tok[1..][5..] == [] && tok[6..] == [] && s[..5] == s;
  }

  lemma {:induction false} AllDigitsRun(s: Bytes)
    requires AllDigits(s)
    ensures Digits(s) == |s|
  {
    if s != [] { AllDigitsRun(s[1..]); }
  }

  lemma SmallIsFinite(p: Parts)
    requires AllDigits(DigitsOf(p)) && Scale(p) == 0 && |DigitsOf(p)| <= 5
    ensures Finite(p) && InDomain(p) && Survives(p)
  {
    hide ToNat, Significant, Shift;
    ToNatBound(DigitsOf(p));
    PowMono(|DigitsOf(p)|, 5);
    assert Pow10(5) == 100000;
    SignificantValue(DigitsOf(p));
    BigFloat();
  }

  lemma BigFloat()
    ensures FloatBound() >= 100000
  {
    hide Pow2;
    assert Pow2(17) == 131072 by { TwoToSeventeen(); }
    PowTwoSum(17, MANTISSA + 1 - 17);
    Arith.MulLe(1, Pow2(MANTISSA + 1 - 17), Pow2(17));
    Arith.MulLe(1, Pow2(TOP_BIT - MANTISSA - 1), Pow2(MANTISSA + 1) - 1);
  }

  lemma TwoToSeventeen()
    ensures Pow2(17) == 131072
  {
    PowTwoSum(8, 9);
    assert Pow2(8) == 256 && Pow2(9) == 512;
  }

  lemma CodeGood(code: Code, room: nat)
    ensures GoodMember(Member(KEY_CODE, CodeText(code)), room)
  {
    hide ReadNumber, Numeral, Utf8;
    var tok := CodeText(code);
    AsciiGood("code");
    AsciiIsUtf8(tok);
    CodeDigits(tok);
    SmallIsFinite(Parts(tok[1..], [], 0));
    AcceptsExactly(tok);
    assert tok[..6] == tok;
  }

  /** An id fit to be pasted into a response: one scalar value, well formed. */
  predicate GoodId(id: Bytes) {
    Token(id, 0) && Utf8(id)
  }

  lemma NullIsGood()
    ensures GoodId(NULL)
  {
    AsciiIsUtf8(NULL);
    assert NULL[0] == 0x6E;
  }

  /** A value that opens no container needs no room. */
  lemma ScalarRoom(s: Bytes, room: nat)
    requires s != [] && s[0] != LBRACE && s[0] != LBRACKET
    ensures JsonScan.Value(s, 0) == JsonScan.Value(s, room)
  {}

  lemma TakenIsScalar(id: Bytes)
    requires IdTaken(id)
    ensures id[0] != LBRACE && id[0] != LBRACKET
  {
    if id == NULL { assert id[0] == 0x6E; }
  }

  /** What a member of a strict object holds is one value, well formed. */
  lemma MemberToken(payload: Bytes, k: nat)
    requires Strict(payload) && ObjectMembers(payload).Got? && k < |ObjectMembers(payload).v|
    ensures Token(ObjectMembers(payload).v[k].raw, MAX_DEPTH) && Utf8(ObjectMembers(payload).v[k].raw)
  {
    hide Members, Strict, JsonScan.Value, Utf8;
    MembersOfStrict(payload);
    StrictIsUtf8(ObjectMembers(payload).v[k].raw);
    var s := payload[Spaces(payload)..];
    var a := 1 + Spaces(s[1..]);
    if s[a] != RBRACE { MemberSpans(s[a..], MAX_DEPTH, k); }
  }

  lemma StrictIsUtf8(s: Bytes)
    requires Strict(s)
    ensures Utf8(s)
  {}

  lemma RequestIdIsGood(frame: Bytes)
    ensures GoodId(RequestId(frame))
  {
    hide Strict, ObjectMembers, JsonScan.Value, Utf8;
    NullIsGood();
    if Strict(frame) && ObjectMembers(frame).Got? && IdTaken(MemberByKey(ObjectMembers(frame).v, KEY_ID)) {
      var ms := ObjectMembers(frame).v;
      var id := MemberByKey(ms, KEY_ID);
      var k :| 0 <= k < |ms| && ms[k] == Member(KEY_ID, id);
      MemberToken(frame, k);
      TakenIsScalar(id);
      ScalarRoom(id, MAX_DEPTH);
    }
  }

  lemma KeysDiffer()
    ensures KEY_JSONRPC != KEY_ID && KEY_JSONRPC != KEY_ERROR && KEY_JSONRPC != KEY_RESULT
    ensures KEY_ID != KEY_ERROR && KEY_ID != KEY_RESULT
    ensures KEY_CODE != KEY_MESSAGE && KEY_CODE != KEY_DATA && KEY_MESSAGE != KEY_DATA
    ensures KEY_STATUS != KEY_REASON && KEY_STATUS != KEY_REASON_CODE && KEY_STATUS != KEY_REASON_CODE_OLD
    ensures KEY_REASON != KEY_REASON_CODE && KEY_REASON != KEY_REASON_CODE_OLD && KEY_REASON_CODE != KEY_REASON_CODE_OLD
  {
    assert KEY_CODE[0] != KEY_DATA[0] && KEY_STATUS[0] != KEY_REASON[0];
  }

  /** A text that may be written into a response. */
  predicate Writable(s: Bytes) {
    0 !in s && Utf8(s)
  }

  lemma EnvelopeIsStrict(id: Bytes, key: Bytes, body: Bytes, room: nat)
    requires GoodId(id) && (key == KEY_ERROR || key == KEY_RESULT)
    requires GoodMember(Member(key, body), room) && room < MAX_DEPTH
    ensures Strict(ObjectText(Envelope(id, key, body)))
  {
    hide Utf8, Token, ObjectText, Strict;
    var ms := Envelope(id, key, body);
    AsciiGood("jsonrpc");
    AsciiGood("id");
    AsciiGood("2.0");
    VersionGood(room);
    TokenRoom(id, 0, room);
    assert GoodMember(ms[1], room);
    KeysDiffer();
    ObjectToken(ms, room);
    ObjectUtf8(ms, room);
    StrictToken(ObjectText(ms), room + 1);
  }

  lemma StrictToken(v: Bytes, room: nat)
    requires Token(v, room) && Utf8(v) && room <= MAX_DEPTH
    ensures Strict(v)
  {
    hide JsonScan.Value, Utf8, Strict;
    ValueIsStrict(v, room);
  }

  lemma VersionGood(room: nat)
    ensures GoodMember(Member(KEY_JSONRPC, VERSION), room)
  {
    hide Utf8, Token, Quote;
    AsciiGood("jsonrpc");
    AsciiGood("2.0");
    QuoteText("2.0");
    QuotedGood(KEY_JSONRPC, Ascii("2.0"), room);
  }

  lemma ErrorIsStrict(id: Bytes, code: Code, message: Bytes, reasonCode: Bytes)
    requires GoodId(id) && Writable(message) && Writable(reasonCode)
    ensures Strict(ErrorResponse(id, code, message, reasonCode))
  {
    hide Utf8, Token, ObjectText, Strict, GoodMember, ErrorResponse, GoodId, Quote, ErrorBody;
    ErrorBodyGood(code, message, reasonCode);
    EnvelopeIsStrict(id, KEY_ERROR, ObjectText(ErrorBody(code, message, reasonCode)), 2);
    ErrorText(id, code, message, reasonCode);
  }

  lemma ErrorBodyGood(code: Code, message: Bytes, reasonCode: Bytes)
    requires Writable(message) && Writable(reasonCode)
    ensures GoodMembers(ErrorBody(code, message, reasonCode), 1)
    ensures GoodMember(Member(KEY_ERROR, ObjectText(ErrorBody(code, message, reasonCode))), 2)
  {
    hide Utf8, Token, ObjectText, GoodMember, Quote;
    AsciiGood("message");
    AsciiGood("data");
    AsciiGood("reasonCode");
    AsciiGood("error");
    CodeGood(code, 1);
    QuotedGood(KEY_MESSAGE, message, 1);
    if reasonCode != [] {
      QuotedGood(KEY_REASON_CODE, reasonCode, 0);
      ObjectGood(KEY_DATA, [Member(KEY_REASON_CODE, Quote(reasonCode))], 0);
    }
    KeysDiffer();
    ObjectGood(KEY_ERROR, ErrorBody(code, message, reasonCode), 1);
  }

  lemma FailureIsStrict(id: Bytes, status: Bytes, reasonCode: Bytes, reason: Bytes)
    requires GoodId(id) && Writable(status) && Writable(reasonCode) && Writable(reason)
    ensures Strict(ResultResponse(id, FailureResult(status, reasonCode, reason)))
  {
    hide Utf8, Token, ObjectText, Strict, GoodMember, ResultResponse, FailureResult, GoodId, Quote;
    var ms := FailureBody(status, reasonCode, reason);
    AsciiGood("status");
    AsciiGood("reason");
    AsciiGood("reasonCode");
    AsciiGood("reason_code");
    AsciiGood("result");
    QuotedGood(KEY_STATUS, status, 0);
    QuotedGood(KEY_REASON, if reason == [] then reasonCode else reason, 0);
    QuotedGood(KEY_REASON_CODE, reasonCode, 0);
    QuotedGood(KEY_REASON_CODE_OLD, reasonCode, 0);
    KeysDiffer();
    ObjectGood(KEY_RESULT, ms, 0);
    EnvelopeIsStrict(id, KEY_RESULT, ObjectText(ms), 1);
    FailureText(status, reasonCode, reason);
    ResultText(id, ObjectText(ms));
  }

  // --------------------------------------------------------- the id comes back

  lemma HeadSplits(id: Bytes, u: Bytes)
    ensures HEAD + id + [COMMA] + u
            == [LBRACE] + (Field(Member(KEY_JSONRPC, VERSION)) + [COMMA] + (Field(Member(KEY_ID, id)) + [COMMA] + u))
  {
    hide Quote;
    KeyTexts();
  }

  /** Whatever follows the id, the first two members of a strict response are the version and the id. */
  lemma {:induction false} HeadMembers(id: Bytes, u: Bytes)
    requires GoodId(id) && Strict(HEAD + id + [COMMA] + u)
    ensures var r := ObjectMembers(HEAD + id + [COMMA] + u);
            && r.Got? && |r.v| >= 2
            && r.v[0] == Member(KEY_JSONRPC, VERSION) && r.v[1] == Member(KEY_ID, id)
            && Members(u, MAX_DEPTH).Got? && r.v[2..] == Members(u, MAX_DEPTH).v
  {
    hide Strict, Entry, Field, Token, Utf8;
    var a, b := Member(KEY_JSONRPC, VERSION), Member(KEY_ID, id);
    var resp, rest := HEAD + id + [COMMA] + u, Field(b) + [COMMA] + u;
    var body := Field(a) + [COMMA] + rest;
    HeadSplits(id, u);
    assert resp == [LBRACE] + body;
    NoSpaces(resp);
    MembersOfStrict(resp);
    assert resp[0..] == resp && resp[1..] == body;
    FieldBegins(a);
    NoSpaces(body);
    VersionGood(MAX_DEPTH);
    GoodParts(a, MAX_DEPTH);
    AsciiGood("id");
    TokenRoom(id, 0, MAX_DEPTH);
    EntryScan(a, COMMA, rest, MAX_DEPTH);
    assert body[|Field(a)| + 1..] == rest;
    EntryScan(b, COMMA, u, MAX_DEPTH);
    assert resp[1..][0] == QUOTE;
    assert Members(body, MAX_DEPTH).Got?;
    MembersOnce(body, MAX_DEPTH);
    assert Entry(body, MAX_DEPTH) == Got(|Field(a)| + 1, (a, true));
    assert Members(rest, MAX_DEPTH).Got?;
    MembersOnce(rest, MAX_DEPTH);
    assert Entry(rest, MAX_DEPTH) == Got(|Field(b)| + 1, (b, true));
    assert rest[|Field(b)| + 1..] == u;
  }

  lemma FieldBegins(m: Member)
    ensures Field(m) != [] && Field(m)[0] == QUOTE
  {}

  /** A response in order: strict, version 2.0, and carrying this id. */
  ghost predicate Answers(resp: Bytes, id: Bytes) {
    && Strict(resp)
    && ObjectMembers(resp).Got?
    && MemberByKey(ObjectMembers(resp).v, KEY_JSONRPC) == VERSION
    && MemberByKey(ObjectMembers(resp).v, KEY_ID) == id
  }

  lemma StrictAnswers(id: Bytes, u: Bytes)
    requires GoodId(id) && Strict(HEAD + id + [COMMA] + u)
    ensures Answers(HEAD + id + [COMMA] + u, id)
  {
    hide Strict, ObjectMembers, GoodId, MemberByKey;
    HeadMembers(id, u);
    KeysDiffer();
    FirstTwo(ObjectMembers(HEAD + id + [COMMA] + u).v);
  }

  lemma FirstTwo(ms: seq<Member>)
    requires |ms| >= 2 && ms[0].key != ms[1].key
    ensures MemberByKey(ms, ms[0].key) == ms[0].raw && MemberByKey(ms, ms[1].key) == ms[1].raw
  {
    assert ms[1..][0] == ms[1];
  }

  /** Both builders put a comma right after the id. */
  lemma ResultShape(id: Bytes, result: Bytes)
    ensures exists u :: ResultResponse(id, result) == HEAD + id + [COMMA] + u
  {
    var u := Text("result") + [COLON] + result + [RBRACE];
    assert ResultResponse(id, result) == HEAD + id + [COMMA] + u;
  }

  lemma ErrorShape(id: Bytes, code: Code, message: Bytes, reasonCode: Bytes)
    ensures exists u :: ErrorResponse(id, code, message, reasonCode) == HEAD + id + [COMMA] + u
  {
    hide Quote, Text, CodeText;
    var d := if reasonCode != [] then DATA + Quote(reasonCode) + [RBRACE] else [];
    var e := Text("error") + [COLON, LBRACE] + Text("code") + [COLON];
    var t := CodeText(code) + MESSAGE + Quote(message) + d + [RBRACE, RBRACE];
    assert ERROR_CODE == [COMMA] + e;
    ShapeOf(HEAD + id, e, CodeText(code), MESSAGE, Quote(message), d);
    assert ErrorResponse(id, code, message, reasonCode) == HEAD + id + [COMMA] + (e + t);
  }

  lemma ShapeOf(h: Bytes, e: Bytes, a: Bytes, b: Bytes, c: Bytes, d: Bytes)
    ensures h + ([COMMA] + e) + a + b + c + d + [RBRACE, RBRACE] == h + [COMMA] + (e + (a + b + c + d + [RBRACE, RBRACE]))
  {}

  lemma ErrorAnswers(id: Bytes, code: Code, message: Bytes, reasonCode: Bytes)
    requires GoodId(id) && Writable(message) && Writable(reasonCode)
    ensures Answers(ErrorResponse(id, code, message, reasonCode), id)
  {
    hide ErrorResponse, Strict, GoodId, Writable, Answers;
    ErrorIsStrict(id, code, message, reasonCode);
    ErrorShape(id, code, message, reasonCode);
    var u :| ErrorResponse(id, code, message, reasonCode) == HEAD + id + [COMMA] + u;
    StrictAnswers(id, u);
  }

  lemma ResultAnswers(id: Bytes, result: Bytes)
    requires GoodId(id) && Strict(ResultResponse(id, result))
    ensures Answers(ResultResponse(id, result), id)
  {
    hide ResultResponse, Strict, GoodId, Answers;
    ResultShape(id, result);
    var u :| ResultResponse(id, result) == HEAD + id + [COMMA] + u;
    StrictAnswers(id, u);
  }

  lemma AsciiWritable(s: string)
    ensures Writable(Ascii(s))
  {
    AsciiGood(s);
  }

  lemma InternalAnswers(id: Bytes)
    requires GoodId(id)
    ensures Answers(InternalResponse(id), id)
  {
    hide GoodId, ErrorResponse, Answers, Writable;
    AsciiWritable("plugin handler failed");
    AsciiWritable("PLUGIN_HANDLER_FAILED");
    ErrorAnswers(id, InternalError, Ascii("plugin handler failed"), Ascii("PLUGIN_HANDLER_FAILED"));
  }

  /** The last check turns any outcome whatever into an answer. */
  lemma OutcomeAnswers(id: Bytes, o: Outcome)
    requires GoodId(id)
    ensures Answers(Checked(id, OutcomeResponse(id, o)), id)
  {
    hide GoodId, InternalResponse, ResultResponse, Strict, Answers, Classify;
    InternalAnswers(id);
    var resp := OutcomeResponse(id, o);
    if Strict(resp) {
      match o
      case Value(payload) => ResultAnswers(id, SuccessResult(payload));
      case Unencodable =>
      case Failed(chain) =>
        if Classify(chain).Refusal? {
          ResultAnswers(id, FailureResult(Classify(chain).status, Classify(chain).reasonCode, Classify(chain).reason));
        }
    }
  }

  lemma FailureAnswers(id: Bytes, status: Bytes, code: Bytes, reason: Bytes)
    requires GoodId(id) && Writable(status) && Writable(code) && Writable(reason)
    ensures Answers(ResultResponse(id, FailureResult(status, code, reason)), id)
  {
    hide GoodId, ResultResponse, FailureResult, Strict, Answers, Writable;
    FailureIsStrict(id, status, code, reason);
    ResultAnswers(id, FailureResult(status, code, reason));
  }

  /** A string decoded out of a strict payload may be written back. */
  lemma DecodedIsWritable(raw: Bytes)
    requires Utf8(raw) && DecodeString(raw).Got?
    ensures Writable(DecodeString(raw).v)
  {
    hide Utf8, StringTail;
    assert raw == [QUOTE] + raw[1..];
    Utf8Rest([QUOTE], raw[1..]);
    DecodedIsUtf8(raw[1..]);
  }

  lemma NotImplementedWritable(operation: Bytes)
    requires Writable(operation)
    ensures Writable(NotImplemented(operation))
  {
    hide Utf8;
    AsciiGood("operation ");
    AsciiGood(" is not implemented by this plugin");
    Utf8Concat(Ascii("operation "), operation);
    Utf8Concat(Ascii("operation ") + operation, Ascii(" is not implemented by this plugin"));
  }

  lemma CallAnswers(p: Plugin, id: Bytes, operation: Bytes, params: seq<Member>)
    requires GoodId(id) && Writable(operation)
    ensures Answers(RespondCall(p, id, operation, params), id)
  {
    hide GoodId, ResultResponse, FailureResult, Answers, Writable, Checked, OutcomeResponse, NotImplemented, MemberByKey;
    var target, arguments := MemberByKey(params, KEY_TARGET), MemberByKey(params, KEY_ARGUMENTS);
    var call := Call(operation, target, OrElse(arguments, EMPTY_OBJECT), MemberByKey(params, KEY_WORK_SESSION));
    AsciiWritable("denied");
    AsciiWritable("failed");
    if target != [] && target[0] != LBRACE {
      AsciiWritable("OPERATION_TARGET_INVALID");
      AsciiWritable("target must be an object");
      FailureAnswers(id, DENIED, Ascii("OPERATION_TARGET_INVALID"), Ascii("target must be an object"));
    } else if arguments != [] && arguments[0] != LBRACE {
      AsciiWritable("OPERATION_ARGUMENT_INVALID");
      AsciiWritable("arguments must be an object");
      FailureAnswers(id, DENIED, Ascii("OPERATION_ARGUMENT_INVALID"), Ascii("arguments must be an object"));
    } else if operation in p.handlers {
      OutcomeAnswers(id, p.handlers[operation](call));
    } else if p.dynamic.ByName? {
      OutcomeAnswers(id, p.dynamic.handle(operation, call));
    } else {
      AsciiWritable("OPERATION_NOT_FOUND");
      NotImplementedWritable(operation);
      FailureAnswers(id, FAILED, Ascii("OPERATION_NOT_FOUND"), NotImplemented(operation));
    }
  }

  /** Members of a well-formed object read from a request: their raw bytes are well-formed text. */
  ghost predicate WellFormed(ms: seq<Member>) {
    forall i :: 0 <= i < |ms| ==> Utf8(ms[i].raw)
  }

  lemma StrictMembersWellFormed(payload: Bytes)
    requires Strict(payload) && ObjectMembers(payload).Got?
    ensures WellFormed(ObjectMembers(payload).v)
    ensures forall i :: 0 <= i < |ObjectMembers(payload).v| ==> Strict(ObjectMembers(payload).v[i].raw)
  {
    hide Strict, Object;
    MembersOfStrict(payload);
    forall i | 0 <= i < |ObjectMembers(payload).v| ensures Utf8(ObjectMembers(payload).v[i].raw) {
      StrictIsUtf8(ObjectMembers(payload).v[i].raw);
    }
  }

  lemma EmptyObject()
    ensures ObjectMembers(EMPTY_OBJECT) == Got(2, [])
  {
    assert EMPTY_OBJECT[0..] == EMPTY_OBJECT;
  }

  lemma ParamsAnswer(p: Plugin, id: Bytes, params: seq<Member>)
    requires GoodId(id) && WellFormed(params)
    requires DecodeString(MemberByKey(params, KEY_OPERATION)).Got?
    ensures Answers(RespondCall(p, id, DecodeString(MemberByKey(params, KEY_OPERATION)).v, params), id)
  {
    hide GoodId, Answers, RespondCall, Writable, Utf8;
    var raw := MemberByKey(params, KEY_OPERATION);
    assert raw != [];
    var k :| 0 <= k < |params| && params[k] == Member(KEY_OPERATION, raw);
    DecodedIsWritable(raw);
    CallAnswers(p, id, DecodeString(raw).v, params);
  }

  lemma MethodAnswers(p: Plugin, id: Bytes, members: seq<Member>)
    requires GoodId(id)
    requires forall i :: 0 <= i < |members| ==> Strict(members[i].raw)
    ensures Answers(RespondMethod(p, id, members), id)
  {
    hide GoodId, Answers, RespondCall, Writable, ErrorResponse, DecodeString, Strict, ObjectMembers, WellFormed, Ascii;
    AsciiWritable("invalid JSON-RPC 2.0 request");
    AsciiWritable("method not found");
    AsciiWritable("METHOD_NOT_FOUND");
    AsciiWritable("params must be a JSON object");
    AsciiWritable("operation (string) required");
    NothingWritable();
    ErrorAnswers(id, InvalidRequest, Ascii("invalid JSON-RPC 2.0 request"), []);
    ErrorAnswers(id, MethodNotFound, Ascii("method not found"), Ascii("METHOD_NOT_FOUND"));
    ErrorAnswers(id, InvalidParams, Ascii("params must be a JSON object"), []);
    ErrorAnswers(id, InvalidParams, Ascii("operation (string) required"), []);
    var raw := MemberByKey(members, KEY_PARAMS);
    var params := ObjectMembers(OrElse(raw, EMPTY_OBJECT));
    if params.Got? && DecodeString(MemberByKey(params.v, KEY_OPERATION)).Got? {
      if raw == [] {
        EmptyObject();
        NoMembersWellFormed();
      } else {
        var k :| 0 <= k < |members| && members[k] == Member(KEY_PARAMS, raw);
        StrictMembersWellFormed(raw);
      }
      ParamsAnswer(p, id, params.v);
    }
  }

  lemma NothingWritable()
    ensures Writable([])
  {}

  lemma NoMembersWellFormed()
    ensures WellFormed([])
  {}

  /**
   For every frame, every set of handlers and everything they return, the response is a
   strict payload with version 2.0 whose id is the request's own bytes when those are a
   string, a number or null, and null otherwise.
   */
  lemma RespondAnswers(p: Plugin, frame: Bytes)
    ensures Answers(Respond(p, frame), RequestId(frame))
  {
    hide GoodId, Answers, RespondMethod, Writable, ErrorResponse, Strict, ObjectMembers, WellFormed, Ascii;
    RequestIdIsGood(frame);
    NullIsGood();
    AsciiWritable("JSON parse error");
    AsciiWritable("invalid JSON-RPC 2.0 request");
    NothingWritable();
    ErrorAnswers(NULL, ParseError, Ascii("JSON parse error"), []);
    ErrorAnswers(NULL, InvalidRequest, Ascii("invalid JSON-RPC 2.0 request"), []);
    if Strict(frame) && ObjectMembers(frame).Got? {
      StrictMembersWellFormed(frame);
      MethodAnswers(p, RequestId(frame), ObjectMembers(frame).v);
    }
  }

  lemma UnregisteredAnswers(frame: Bytes)
    ensures Answers(RespondUnregistered(frame), RequestId(frame))
  {
    hide GoodId, Answers, Writable, ErrorResponse, Ascii, RequestId;
    RequestIdIsGood(frame);
    AsciiWritable("no plugin registered: call aiiosdk Run from a package init function");
    AsciiWritable("PLUGIN_NOT_REGISTERED");
    ErrorAnswers(RequestId(frame), InternalError,
                 Ascii("no plugin registered: call aiiosdk Run from a package init function"),
                 Ascii("PLUGIN_NOT_REGISTERED"));
  }

  // ------------------------------------------------------ reading a response

  lemma {:induction false} ObjectReads(ms: seq<Member>, room: nat)
    requires GoodMembers(ms, room) && room <= MAX_DEPTH
    ensures ObjectMembers(ObjectText(ms)).Got? && ObjectMembers(ObjectText(ms)).v == ms
  {
    hide Object, Join, Token, Utf8;
    forall i | 0 <= i < |ms| ensures GoodMember(ms[i], MAX_DEPTH) {
      assert GoodMember(ms[i], room);
      TokenRoom(ms[i].raw, room, MAX_DEPTH);
    }
    ObjectScan(ms, MAX_DEPTH);
    NoSpaces(ObjectText(ms));
    assert ObjectText(ms)[0..] == ObjectText(ms);
  }

  /** What one member of an object holds, as a reader of the response finds it. */
  function Look(payload: Bytes, key: Bytes): Bytes {
    match ObjectMembers(payload)
    case Fail => []
    case Got(_, ms) => MemberByKey(ms, key)
  }

  lemma ErrorEnvelope(id: Bytes, code: Code, message: Bytes, reasonCode: Bytes)
    requires GoodId(id) && Writable(message) && Writable(reasonCode)
    ensures var m := ObjectMembers(ErrorResponse(id, code, message, reasonCode));
            m.Got? && m.v == Envelope(id, KEY_ERROR, ObjectText(ErrorBody(code, message, reasonCode)))
  {
    hide ErrorResponse, ObjectMembers, ObjectText, Token, Utf8, Quote, CodeText, GoodMember;
    ErrorBodyGood(code, message, reasonCode);
    EnvelopeMembers(id, KEY_ERROR, ObjectText(ErrorBody(code, message, reasonCode)), 2);
    ErrorText(id, code, message, reasonCode);
  }

  /** A reader of an error response finds the code, the message and the reason that went in, and no result. */
  lemma ErrorReadsBack(id: Bytes, code: Code, message: Bytes, reasonCode: Bytes)
    requires GoodId(id) && Writable(message) && Writable(reasonCode)
    ensures var r := ErrorResponse(id, code, message, reasonCode);
            var e := Look(r, KEY_ERROR);
            && Look(r, KEY_RESULT) == []
            && Look(e, KEY_CODE) == CodeText(code)
            && Look(e, KEY_MESSAGE) == Quote(message)
            && (if reasonCode == [] then Look(e, KEY_DATA) == []
                else Look(Look(e, KEY_DATA), KEY_REASON_CODE) == Quote(reasonCode))
  {
    hide ErrorResponse, ObjectMembers, ObjectText, Token, Utf8, Quote, CodeText, GoodMember;
    var ms := ErrorBody(code, message, reasonCode);
    if reasonCode != [] {
      AsciiGood("reasonCode");
      QuotedGood(KEY_REASON_CODE, reasonCode, 0);
      ObjectReads([Member(KEY_REASON_CODE, Quote(reasonCode))], 0);
    }
    KeysDiffer();
    ErrorBodyGood(code, message, reasonCode);
    ObjectReads(ms, 1);
    EnvelopeReads(id, KEY_ERROR, ObjectText(ms), 2);
    ErrorText(id, code, message, reasonCode);
    LookUp3(ms);
  }

  lemma LookUp3(ms: seq<Member>)
    ensures |ms| == 2 ==> forall k :: (MemberByKey(ms, k) ==
              (if k == ms[0].key then ms[0].raw else if k == ms[1].key then ms[1].raw else []))
    ensures |ms| == 3 ==> forall k :: (MemberByKey(ms, k) ==
              (if k == ms[0].key then ms[0].raw else if k == ms[1].key then ms[1].raw
               else if k == ms[2].key then ms[2].raw else []))
  {
    assert |ms| >= 2 ==> ms[1..][0] == ms[1];
    assert |ms| >= 3 ==> ms[1..][1..][0] == ms[2] && |ms[1..][1..]| == |ms| - 2;
    assert |ms| == 2 ==> ms[1..][1..] == [];
    assert |ms| == 3 ==> ms[1..][1..][1..] == [];
  }

  lemma EnvelopeReads(id: Bytes, key: Bytes, body: Bytes, room: nat)
    requires GoodId(id) && (key == KEY_ERROR || key == KEY_RESULT)
    requires GoodMember(Member(key, body), room) && room < MAX_DEPTH
    ensures var r := ObjectText(Envelope(id, key, body));
            Look(r, key) == body && Look(r, if key == KEY_ERROR then KEY_RESULT else KEY_ERROR) == []
  {
    hide GoodMember, GoodId, ObjectText, ObjectMembers;
    EnvelopeMembers(id, key, body, room);
    KeysDiffer();
    LookUp3(Envelope(id, key, body));
  }

  lemma EnvelopeMembers(id: Bytes, key: Bytes, body: Bytes, room: nat)
    requires GoodId(id) && GoodMember(Member(key, body), room) && room < MAX_DEPTH
    ensures var m := ObjectMembers(ObjectText(Envelope(id, key, body))); m.Got? && m.v == Envelope(id, key, body)
  {
    hide Utf8, Token, ObjectText, ObjectMembers;
    var ms := Envelope(id, key, body);
    AsciiGood("id");
    VersionGood(room);
    TokenRoom(id, 0, room);
    assert GoodMember(ms[1], room);
    ObjectReads(ms, room);
  }

  /** A reader of a refusal finds the status, the reason (or the code in its place) and the code, and no error. */
  lemma FailureReadsBack(id: Bytes, status: Bytes, reasonCode: Bytes, reason: Bytes)
    requires GoodId(id) && Writable(status) && Writable(reasonCode) && Writable(reason)
    ensures var r := ResultResponse(id, FailureResult(status, reasonCode, reason));
            var f := Look(r, KEY_RESULT);
            && Look(r, KEY_ERROR) == []
            && Look(f, KEY_STATUS) == Quote(status)
            && Look(f, KEY_REASON) == Quote(if reason == [] then reasonCode else reason)
            && Look(f, KEY_REASON_CODE) == Look(f, KEY_REASON_CODE_OLD) == (if reasonCode == [] then [] else Quote(reasonCode))
  {
    hide ResultResponse, FailureResult, ObjectMembers, ObjectText, Token, Utf8, Quote, GoodMember;
    var ms := FailureBody(status, reasonCode, reason);
    AsciiGood("status");
    AsciiGood("reason");
    AsciiGood("reasonCode");
    AsciiGood("reason_code");
    AsciiGood("result");
    QuotedGood(KEY_STATUS, status, 0);
    QuotedGood(KEY_REASON, if reason == [] then reasonCode else reason, 0);
    QuotedGood(KEY_REASON_CODE, reasonCode, 0);
    QuotedGood(KEY_REASON_CODE_OLD, reasonCode, 0);
    KeysDiffer();
    ObjectGood(KEY_RESULT, ms, 0);
    ObjectReads(ms, 0);
    EnvelopeReads(id, KEY_RESULT, ObjectText(ms), 1);
    FailureText(status, reasonCode, reason);
    ResultText(id, ObjectText(ms));
    LookUp3(ms);
    LookUp4(ms);
  }

  lemma LookUp4(ms: seq<Member>)
    ensures |ms| == 4 ==> forall k :: (MemberByKey(ms, k) ==
              (if k == ms[0].key then ms[0].raw else MemberByKey(ms[1..], k)))
    ensures |ms| == 4 ==> forall k :: (MemberByKey(ms[1..], k) ==
              (if k == ms[1].key then ms[1].raw else if k == ms[2].key then ms[2].raw
               else if k == ms[3].key then ms[3].raw else []))
  {
    if |ms| == 4 { LookUp3(ms[1..]); }
  }
}
