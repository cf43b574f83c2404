/**
 Exactly one of "result" and "error" (section 5 of the JSON-RPC 2.0 specification).  What
 a handler returns as raw JSON is pasted into the response as it stands, and the last
 check asks only for a strict payload, so this rests on what was pasted: the exact
 condition is that its braces close inside it, by the brace counter of JsonBraces.
 */
module Envelopes {
  import opened ByteStrings
  import opened JsonScan
  import opened JsonLocality
  import opened JsonSpans
  import opened JsonReaders
  import opened JsonQuote
  import opened JsonBraces
  import opened StrictScanner
  import opened Dispatcher
  import opened Responses

  // ------------------------------------------------------------ the brace counter

  /** The brace counter, started on an object text, stops at its last byte. */
  predicate Stands(text: Bytes) {
    Run(text, START).Got? && Run(text, START).n == |text|
  }

  /** In braces of its own, the text ends where they end. */
  predicate Closed(text: Bytes) {
    Stands([LBRACE] + text + [RBRACE])
  }

  lemma {:induction false} RunLocal(s: Bytes, t: Bytes, st: Brace)
    requires Run(s, st).Got? && Agree(s, t, Run(s, st).n)
    ensures Run(t, st) == Run(s, st)
  {
    var n := Run(s, st).n;
    AgreeAt(s, t, n, 0);
    if !Stops(Step(st, s[0])) {
      AgreeDrop(s, t, n, 1);
      RunLocal(s[1..], t[1..], Step(st, s[0]));
    }
  }

  /** Where the counter stops in a text is where it stops in any longer one. */
  lemma RunWithin(s: Bytes, t: Bytes, st: Brace)
    ensures Run(s, st).Got? ==> Run(s + t, st) == Run(s, st)
    ensures Run(s + t, st).Got? && Run(s + t, st).n <= |s| ==> Run(s, st) == Run(s + t, st)
  {
    if Run(s, st).Got? {
      var n := Run(s, st).n;
      assert (s + t)[..n] == s[..n];
      RunLocal(s, s + t, st);
    }
    if Run(s + t, st).Got? && Run(s + t, st).n <= |s| {
      var n := Run(s + t, st).n;
      assert (s + t)[..n] == s[..n];
      RunLocal(s + t, s, st);
    }
  }

  // -------------------------------------------------- quoted texts, whatever they hold

  lemma SkipsEscapeByte(c: byte, u: Bytes, st: Brace)
    requires st.inString && !st.escaped
    ensures Skips(EscapeByte(c) + u, |EscapeByte(c)|, st, st)
  {
    hide Skips;
    var e := EscapeByte(c);
    if e[0] == BACKSLASH { SkipsEscaped(e + u, |e|, st); } else { SkipsInside(e + u, 1, st); }
  }

  lemma {:induction false} SkipsQuoteTail(s: Bytes, u: Bytes, d: nat)
    requires d > 0
    ensures Skips(QuoteTail(s) + u, |QuoteTail(s)|, Brace(d, true, false), OPEN(d))
  {
    hide Skips, EscapeByte;
    var st := Brace(d, true, false);
    if s == [] {
      SkipsOne(QuoteTail(s) + u, st);
    } else {
      var e, q := EscapeByte(s[0]), QuoteTail(s[1..]);
      assert QuoteTail(s) + u == e + (q + u) && (e + (q + u))[|e|..] == q + u;
      SkipsEscapeByte(s[0], q + u, st);
      SkipsQuoteTail(s[1..], u, d);
      SkipsThen(e + (q + u), |e|, |q|, st, st, OPEN(d));
    }
  }

  lemma SkipsQuote(s: Bytes, u: Bytes, d: nat)
    requires d > 0
    ensures Skips(Quote(s) + u, |Quote(s)|, OPEN(d), OPEN(d))
  {
    hide Skips, QuoteTail;
    var q := Quote(s) + u;
    assert q[1..] == QuoteTail(s) + u;
    SkipsOne(q, OPEN(d));
    SkipsQuoteTail(s, u, d);
    SkipsThen(q, 1, |QuoteTail(s)|, OPEN(d), Brace(d, true, false), OPEN(d));
  }

  /** Key, colon, quoted value. */
  lemma SkipsTextField(key: Bytes, v: Bytes, u: Bytes)
    ensures var f := Field(Member(key, Quote(v))); Skips(f + u, |f|, OPEN(1), OPEN(1))
  {
    hide Skips, Quote;
    var st, fromColon := OPEN(1), [COLON] + (Quote(v) + u);
    SkipsQuote(key, fromColon, 1);
    SkipsByte(fromColon, 1);
    SkipsBoth(Quote(key), [COLON], Quote(v) + u, st, st, st);
    SkipsQuote(v, u, 1);
    SkipsBoth(Quote(key) + [COLON], Quote(v), u, st, st, st);
  }

  ghost predicate Texts(ms: seq<Member>) {
    forall i :: 0 <= i < |ms| ==> exists v :: ms[i].raw == Quote(v)
  }

  lemma {:induction false} SkipsTexts(ms: seq<Member>, u: Bytes)
    requires ms != [] && Texts(ms)
    ensures Skips(Join(ms) + u, |Join(ms)|, OPEN(1), OPEN(1))
  {
    hide Skips, Field, Quote;
    var v :| ms[0].raw == Quote(v);
    var f, st := Field(ms[0]), OPEN(1);
    if |ms| == 1 {
      SkipsTextField(ms[0].key, v, u);
    } else {
      var rest := Join(ms[1..]) + u;
      var s := Join(ms) + u;
      assert s == f + ([COMMA] + rest);
      SkipsTextField(ms[0].key, v, [COMMA] + rest);
      assert s[|f|..] == [COMMA] + rest;
      SkipsByte(s[|f|..], 1);
      SkipsThen(s, |f|, 1, st, st, st);
      assert s[|f| + 1..] == rest;
      SkipsTexts(ms[1..], u);
      SkipsThen(s, |f| + 1, |Join(ms[1..])|, st, st, st);
    }
  }

  /** An object of quoted texts stands, whatever bytes they hold. */
  lemma TextsStand(ms: seq<Member>)
    requires ms != [] && Texts(ms)
    ensures Stands(ObjectText(ms))
  {
    hide Skips, Join, Texts;
    var s := ObjectText(ms);
    var n := |Join(ms)|;
    SkipsOne(s, START);
    assert s[1..] == Join(ms) + [RBRACE];
    SkipsTexts(ms, [RBRACE]);
    SkipsThen(s, 1, n, START, OPEN(1), OPEN(1));
    StopsOnLast(s, n + 1);
  }

  lemma StopsOnLast(s: Bytes, n: nat)
    requires n + 1 == |s| && s[n] == RBRACE && Skips(s, n, START, OPEN(1))
    ensures Stands(s)
  {}

  lemma RefusalStands(status: Bytes, code: Bytes, reason: Bytes)
    ensures Stands(FailureResult(status, code, reason))
  {
    hide Quote, FailureResult, ObjectText;
    FailureText(status, code, reason);
    TextsStand(FailureBody(status, code, reason));
  }

  /** One value of the strict grammar is closed, at any depth. */
  lemma ValueIsClosed(text: Bytes, room: nat)
    requires Token(text, room)
    ensures Closed(text)
  {
    hide Skips, JsonScan.Value;
    var s := [LBRACE] + text + [RBRACE];
    SkipsOne(s, START);
    assert s[1..] == text + [RBRACE];
    TokenInPlace(text, [RBRACE], room);
    SkipsValue(s[1..], room, 1);
    SkipsThen(s, 1, |text|, START, OPEN(1), OPEN(1));
    StopsOnLast(s, |text| + 1);
  }

  // --------------------------------------------------------------- the envelope

  /** The members that follow a value inside an object. */
  function Rest(s: Bytes, room: nat): seq<Member> {
    match Separator(s, RBRACE)
    case Fail => []
    case Got(p, more) =>
      if !more then [] else
        match Members(s[p..], room)
        case Fail => []
        case Got(_, ms) => ms
  }

  /** The members a result text adds to the response after its own outer brace has closed. */
  function Trailing(r: Bytes): seq<Member> {
    match Run(r + [RBRACE], START)
    case Fail => []
    case Got(n, _) => Rest((r + [RBRACE])[n..], MAX_DEPTH)
  }

  /** The third member of a strict response holds what the brace counter takes of the text and the closing brace. */
  lemma ResultMember(id: Bytes, r: Bytes)
    requires GoodId(id) && r != [] && r[0] == LBRACE && Strict(ResultResponse(id, r))
    ensures ObjectMembers(ResultResponse(id, r)).Got?
    ensures var ms, c := ObjectMembers(ResultResponse(id, r)).v, Run(r + [RBRACE], START);
            && c.Got? && |ms| >= 3
            && ms[0] == Member(KEY_JSONRPC, VERSION) && ms[1] == Member(KEY_ID, id)
            && ms[2] == Member(KEY_RESULT, (r + [RBRACE])[..c.n])
            && (c.n == |r| ==> |ms| == 3) && ms[3..] == Trailing(r)
  {
    hide Strict, JsonScan.Value, JsonScan.Key, Entry, Separator, Quote, GoodId, ObjectMembers, Run, ResultResponse, Members, Rest;
    var u, s := Quote(KEY_RESULT) + [COLON] + (r + [RBRACE]), r + [RBRACE];
    ResultParts(id, r);
    HeadMembers(id, u);
    var q := |Quote(KEY_RESULT)| + 1;
    AsciiGood("result");
    KeyScan(KEY_RESULT, s);
    assert u[q..] == s;
    EntryParts(u, MAX_DEPTH);
    var n := JsonScan.Value(s, MAX_DEPTH).n;
    StopsAtObjectEnd(s, MAX_DEPTH);
    assert u[q..q + n] == s[..n];
    var ms := ObjectMembers(ResultResponse(id, r)).v;
    assert ms[2] == ms[2..][0] && ms[3..] == ms[2..][1..];
    assert u[q + n..] == s[n..];
    if n == |r| {
      assert u[q + n..] == [RBRACE] + [];
      SeparatorScan(RBRACE, []);
    }
  }

  /** A strict response with this result text is the envelope of that text exactly when the text stands. */
  lemma EnvelopeExactly(id: Bytes, r: Bytes)
    requires GoodId(id) && r != [] && r[0] == LBRACE && Strict(ResultResponse(id, r))
    ensures ObjectMembers(ResultResponse(id, r)).Got?
    ensures ObjectMembers(ResultResponse(id, r)).v == Envelope(id, KEY_RESULT, r) <==> Stands(r)
  {
    hide Strict, GoodId, ObjectMembers, Run, ResultResponse;
    ResultMember(id, r);
    RunWithin(r, [RBRACE], START);
    var ms, c := ObjectMembers(ResultResponse(id, r)).v, Run(r + [RBRACE], START);
    if c.n == |r| {
      assert (r + [RBRACE])[..c.n] == r;
      assert ms == Envelope(id, KEY_RESULT, r);
    } else {
      assert |ms[2].raw| == c.n;
    }
  }

  lemma ResultParts(id: Bytes, r: Bytes)
    ensures ResultResponse(id, r) == HEAD + id + [COMMA] + (Quote(KEY_RESULT) + [COLON] + (r + [RBRACE]))
  {
    hide Quote;
    KeyTexts();
  }

  lemma EntryParts(u: Bytes, room: nat)
    requires Members(u, room).Got? && JsonScan.Key(u).Got?
    ensures var c := JsonScan.Key(u).n;
            var v := JsonScan.Value(u[c..], room);
            && v.Got? && |Members(u, room).v| >= 1
            && Members(u, room).v[0] == Member(JsonScan.Key(u).v, u[c..c + v.n])
            && (Separator(u[c + v.n..], RBRACE) == Got(1, false) ==> |Members(u, room).v| == 1)
            && Members(u, room).v[1..] == Rest(u[c + v.n..], room)
  {
    hide JsonScan.Key, JsonScan.Value, Separator;
    var c := JsonScan.Key(u).n;
    var e := c + JsonScan.Value(u[c..], room).n;
    assert u[e..][Separator(u[e..], RBRACE).n..] == u[Entry(u, room).n..];
  }

  // --------------------------------------------------------- what a handler returns

  /** An opening brace, a text field, a comma, a key and a colon: one brace deep, and between tokens. */
  lemma SkipsOpening(key: Bytes, v: Bytes, next: Bytes, u: Bytes)
    ensures var a := [LBRACE] + Field(Member(key, Quote(v))) + [COMMA] + Quote(next) + [COLON];
            Skips(a + u, |a|, START, OPEN(1))
  {
    hide Skips, Quote, Field;
    var f, k, st := Field(Member(key, Quote(v))), Quote(next), OPEN(1);
    var fromColon := [COLON] + u;
    var fromKey := k + fromColon;
    var fromComma := [COMMA] + fromKey;
    SkipsOne([LBRACE] + (f + fromComma), START);
    SkipsTextField(key, v, fromComma);
    SkipsBoth([LBRACE], f, fromComma, START, st, st);
    SkipsByte(fromComma, 1);
    SkipsBoth([LBRACE] + f, [COMMA], fromKey, START, st, st);
    SkipsQuote(next, fromColon, 1);
    SkipsBoth([LBRACE] + f + [COMMA], k, fromColon, START, st, st);
    SkipsByte(fromColon, 1);
    SkipsBoth([LBRACE] + f + [COMMA] + k, [COLON], u, START, st, st);
  }

  lemma SkipsBoth(a: Bytes, b: Bytes, u: Bytes, st: Brace, mid: Brace, end: Brace)
    requires Skips(a + (b + u), |a|, st, mid) && Skips(b + u, |b|, mid, end)
    ensures Skips(a + b + u, |a + b|, st, end)
  {
    hide Skips;
    assert (a + (b + u))[|a|..] == b + u && a + (b + u) == a + b + u;
    SkipsThen(a + (b + u), |a|, |b|, st, mid, end);
  }

  lemma SkipsSucceeded(u: Bytes)
    ensures Skips(SUCCEEDED + u, |SUCCEEDED|, START, OPEN(1))
  {
    hide Skips, Quote, Text;
    ReasonTexts();
    ResultTexts();
    SkipsOpening(KEY_STATUS, Ascii("succeeded"), KEY_OPERATION_RESULT, u);
    assert SUCCEEDED == [LBRACE] + Field(Member(KEY_STATUS, Quote(Ascii("succeeded")))) + [COMMA] + Quote(KEY_OPERATION_RESULT) + [COLON];
  }

  const KEY_OPERATION_RESULT: Bytes := Ascii("operation_result")

  lemma ResultTexts()
    ensures Quote(KEY_OPERATION_RESULT) == Text("operation_result") && Quote(Ascii("succeeded")) == Text("succeeded")
  {
    hide Quote;
    QuoteText("operation_result");
    QuoteText("succeeded");
  }

  lemma SuccessStands(payload: Bytes)
    ensures Stands(SuccessResult(payload)) <==> Closed(payload)
  {
    hide Run, SUCCEEDED;
    var u := payload + [RBRACE];
    SkipsSucceeded(u);
    assert SUCCEEDED + u == SuccessResult(payload) && (SUCCEEDED + u)[|SUCCEEDED|..] == u;
    var s := [LBRACE] + payload + [RBRACE];
    SkipsOne(s, START);
    assert s[1..] == u;
  }

  /** A strict response to a payload is the envelope of its success result exactly when the payload is closed. */
  lemma SuccessExactly(id: Bytes, payload: Bytes)
    requires GoodId(id) && Strict(ResultResponse(id, SuccessResult(payload)))
    ensures var resp := ResultResponse(id, SuccessResult(payload));
            && ObjectMembers(resp).Got?
            && (ObjectMembers(resp).v == Envelope(id, KEY_RESULT, SuccessResult(payload)) <==> Closed(payload))
  {
    hide Strict, GoodId, ObjectMembers, ResultResponse, Stands, Closed;
    SuccessStands(payload);
    EnvelopeExactly(id, SuccessResult(payload));
  }

  // -------------------------------------------------------------- exactly one of two

  ghost predicate Holds(ms: seq<Member>, key: Bytes) {
    exists i :: 0 <= i < |ms| && ms[i].key == key
  }

  /** The response's members hold a result or an error, never both; in a strict response no key repeats. */
  ghost predicate OneOf(resp: Bytes) {
    ObjectMembers(resp).Got? && (Holds(ObjectMembers(resp).v, KEY_RESULT) <==> !Holds(ObjectMembers(resp).v, KEY_ERROR))
  }

  lemma EnvelopeHoldsOne(id: Bytes, key: Bytes, body: Bytes)
    requires key == KEY_ERROR || key == KEY_RESULT
    ensures Holds(Envelope(id, key, body), key)
    ensures !Holds(Envelope(id, key, body), if key == KEY_ERROR then KEY_RESULT else KEY_ERROR)
  {
    KeysDiffer();
    var ms := Envelope(id, key, body);
    assert ms[2].key == key;
  }

  lemma ResultHoldsOne(id: Bytes, r: Bytes)
    requires GoodId(id) && r != [] && r[0] == LBRACE && Strict(ResultResponse(id, r)) && Stands(r)
    ensures OneOf(ResultResponse(id, r))
  {
    hide Strict, GoodId, ObjectMembers, Stands, ResultResponse, Envelope, Holds;
    EnvelopeExactly(id, r);
    EnvelopeHoldsOne(id, KEY_RESULT, r);
  }

  /** A strict response built around a result text holds exactly one of the two unless the text adds an error after its own end. */
  lemma ResultHoldsOneExactly(id: Bytes, r: Bytes)
    requires GoodId(id) && r != [] && r[0] == LBRACE && Strict(ResultResponse(id, r))
    ensures OneOf(ResultResponse(id, r)) <==> !Holds(Trailing(r), KEY_ERROR)
  {
    hide Strict, GoodId, ObjectMembers, ResultResponse, Run, Trailing;
    ResultMember(id, r);
    KeysDiffer();
    assert KEY_RESULT[0] != KEY_ERROR[0];
    var ms := ObjectMembers(ResultResponse(id, r)).v;
    assert ms[2].key == KEY_RESULT;
    assert forall i :: 3 <= i < |ms| ==> ms[i] == ms[3..][i - 3];
    if Holds(Trailing(r), KEY_ERROR) {
      var i :| 0 <= i < |ms[3..]| && ms[3..][i].key == KEY_ERROR;
      assert ms[3 + i].key == KEY_ERROR;
    }
  }

  /**
   A handler's payload leaves as a response with exactly one of the two unless the response
   built around it is short enough, strict, and given an error after the result's own end.
   */
  lemma PayloadHoldsOneExactly(id: Bytes, payload: Bytes)
    requires GoodId(id)
    ensures var resp := ResultResponse(id, SuccessResult(payload));
            OneOf(Checked(id, OutcomeResponse(id, Value(payload)))) <==>
            !(|resp| <= MAX_CONTROL_FRAME_BYTES && Strict(resp) && Holds(Trailing(SuccessResult(payload)), KEY_ERROR))
  {
    hide GoodId, ErrorResponse, ResultResponse, Strict, OneOf, Trailing, Holds;
    ErrorHoldsOne(id, InternalError, "plugin handler failed", "PLUGIN_HANDLER_FAILED");
    if Strict(ResultResponse(id, SuccessResult(payload))) { ResultHoldsOneExactly(id, SuccessResult(payload)); }
  }

  lemma RefusalHoldsOne(id: Bytes, status: Bytes, code: Bytes, reason: Bytes)
    requires GoodId(id) && Strict(ResultResponse(id, FailureResult(status, code, reason)))
    ensures OneOf(ResultResponse(id, FailureResult(status, code, reason)))
  {
    hide Strict, GoodId, OneOf, Stands, ResultResponse;
    RefusalStands(status, code, reason);
    ResultHoldsOne(id, FailureResult(status, code, reason));
  }

  lemma ErrorHoldsOne(id: Bytes, code: Code, message: string, reasonCode: string)
    requires GoodId(id)
    ensures OneOf(ErrorResponse(id, code, Ascii(message), Ascii(reasonCode)))
  {
    hide GoodId, ObjectMembers, ErrorResponse, Envelope, Holds, Writable, ObjectText, ErrorBody;
    AsciiWritable(message);
    AsciiWritable(reasonCode);
    ErrorEnvelope(id, code, Ascii(message), Ascii(reasonCode));
    EnvelopeHoldsOne(id, KEY_ERROR, ObjectText(ErrorBody(code, Ascii(message), Ascii(reasonCode))));
  }

  /** An outcome leaves as a response with exactly one of the two, when what the handler returned is closed. */
  lemma OutcomeHoldsOne(id: Bytes, o: Outcome)
    requires GoodId(id) && (o.Value? ==> Closed(o.payload))
    ensures OneOf(Checked(id, OutcomeResponse(id, o)))
  {
    hide GoodId, ErrorResponse, ResultResponse, Strict, OneOf, Classify, Stands, Closed;
    ErrorHoldsOne(id, InternalError, "plugin handler failed", "PLUGIN_HANDLER_FAILED");
    if Strict(OutcomeResponse(id, o)) {
      match o
      case Value(payload) =>
        SuccessStands(payload);
        ResultHoldsOne(id, SuccessResult(payload));
      case Unencodable =>
      case Failed(chain) =>
        if Classify(chain).Refusal? {
          RefusalHoldsOne(id, Classify(chain).status, Classify(chain).reasonCode, Classify(chain).reason);
        }
    }
  }

  /** Whatever the plugin's handlers return as raw JSON is closed. */
  ghost predicate Tidy(p: Plugin) {
    && (forall op, call :: op in p.handlers && p.handlers[op](call).Value? ==> Closed(p.handlers[op](call).payload))
    && (p.dynamic.ByName? ==>
          forall op, call :: p.dynamic.handle(op, call).Value? ==> Closed(p.dynamic.handle(op, call).payload))
  }

  lemma CallHoldsOne(p: Plugin, id: Bytes, operation: Bytes, params: seq<Member>)
    requires GoodId(id) && Tidy(p) && Strict(RespondCall(p, id, operation, params))
    ensures OneOf(RespondCall(p, id, operation, params))
  {
    hide GoodId, ResultResponse, FailureResult, OneOf, Strict, Checked, OutcomeResponse, NotImplemented, MemberByKey, Closed;
    var target, arguments := MemberByKey(params, KEY_TARGET), MemberByKey(params, KEY_ARGUMENTS);
    var call := Call(operation, target, OrElse(arguments, EMPTY_OBJECT), MemberByKey(params, KEY_WORK_SESSION));
    if target != [] && target[0] != LBRACE {
      RefusalHoldsOne(id, DENIED, Ascii("OPERATION_TARGET_INVALID"), Ascii("target must be an object"));
    } else if arguments != [] && arguments[0] != LBRACE {
      RefusalHoldsOne(id, DENIED, Ascii("OPERATION_ARGUMENT_INVALID"), Ascii("arguments must be an object"));
    } else if operation in p.handlers {
      OutcomeHoldsOne(id, p.handlers[operation](call));
    } else if p.dynamic.ByName? {
      OutcomeHoldsOne(id, p.dynamic.handle(operation, call));
    } else {
      RefusalHoldsOne(id, FAILED, Ascii("OPERATION_NOT_FOUND"), NotImplemented(operation));
    }
  }

  lemma MethodHoldsOne(p: Plugin, id: Bytes, members: seq<Member>)
    requires GoodId(id) && Tidy(p) && Strict(RespondMethod(p, id, members))
    ensures OneOf(RespondMethod(p, id, members))
  {
    hide GoodId, OneOf, RespondCall, ErrorResponse, DecodeString, Strict, ObjectMembers, Tidy, MemberByKey;
    assert Ascii("") == [];
    ErrorHoldsOne(id, InvalidRequest, "invalid JSON-RPC 2.0 request", "");
    ErrorHoldsOne(id, MethodNotFound, "method not found", "METHOD_NOT_FOUND");
    ErrorHoldsOne(id, InvalidParams, "params must be a JSON object", "");
    ErrorHoldsOne(id, InvalidParams, "operation (string) required", "");
    var params := ObjectMembers(OrElse(MemberByKey(members, KEY_PARAMS), EMPTY_OBJECT));
    if params.Got? && DecodeString(MemberByKey(params.v, KEY_OPERATION)).Got? {
      var operation := DecodeString(MemberByKey(params.v, KEY_OPERATION)).v;
      if RespondMethod(p, id, members) == RespondCall(p, id, operation, params.v) {
        CallHoldsOne(p, id, operation, params.v);
      }
    }
  }

  /** For every frame, the response of a plugin whose handlers return closed texts holds exactly one of result and error. */
  lemma RespondHoldsOne(p: Plugin, frame: Bytes)
    requires Tidy(p)
    ensures OneOf(Respond(p, frame))
  {
    hide GoodId, OneOf, RespondMethod, ErrorResponse, Strict, ObjectMembers, Tidy, MemberByKey;
    RespondAnswers(p, frame);
    RequestIdIsGood(frame);
    NullIsGood();
    assert Ascii("") == [];
    ErrorHoldsOne(NULL, ParseError, "JSON parse error", "");
    ErrorHoldsOne(NULL, InvalidRequest, "invalid JSON-RPC 2.0 request", "");
    if Strict(frame) && ObjectMembers(frame).Got? {
      var members := ObjectMembers(frame).v;
      var id := MemberByKey(members, KEY_ID);
      if id == [] || IdTaken(id) { MethodHoldsOne(p, OrElse(id, NULL), members); }
    }
  }

  lemma UnregisteredHoldsOne(frame: Bytes)
    ensures OneOf(RespondUnregistered(frame))
  {
    hide GoodId, OneOf, ErrorResponse, RequestId;
    RequestIdIsGood(frame);
    ErrorHoldsOne(RequestId(frame), InternalError,
                  "no plugin registered: call aiiosdk Run from a package init function", "PLUGIN_NOT_REGISTERED");
  }

  // -------------------------------------------------------------- a payload that is not closed

  // true},"error":{
  const STRAY: Bytes := TRUE + [RBRACE, COMMA] + Text("error") + [COLON, LBRACE]

  /** What the response to such a payload says: a result and an error. */
  function BothBodies(id: Bytes): seq<Member> {
    Envelope(id, KEY_RESULT, SuccessResult(TRUE)) + [Member(KEY_ERROR, EMPTY_OBJECT)]
  }

  lemma StrayText(id: Bytes)
    ensures ResultResponse(id, SuccessResult(STRAY)) == ObjectText(BothBodies(id))
  {
    hide Quote, Join, Envelope, Text, SUCCEEDED, HEAD;
    KeyTexts();
    var r := SuccessResult(TRUE);
    var e, m := Envelope(id, KEY_RESULT, r), Member(KEY_ERROR, EMPTY_OBJECT);
    var open := HEAD + id + RESULT + r;
    ResultText(id, r);
    DropLast(open, [LBRACE] + Join(e), RBRACE);
    EnvelopeNotEmpty(id, KEY_RESULT, r);
    JoinMore(e, m);
    AppendField(open, KEY_ERROR, EMPTY_OBJECT);
    StraySplits(open, HEAD + id + RESULT);
  }

  lemma DropLast(a: Bytes, b: Bytes, c: byte)
    requires a + [c] == b + [c]
    ensures a == b
  {
    assert a == (a + [c])[..|a|] && b == (b + [c])[..|b|];
  }

  lemma EnvelopeNotEmpty(id: Bytes, key: Bytes, body: Bytes)
    ensures Envelope(id, key, body) != []
  {}

  lemma StraySplits(open: Bytes, head: Bytes)
    requires open == head + SuccessResult(TRUE)
    ensures head + SuccessResult(STRAY) + [RBRACE]
            == open + ([COMMA] + Text("error") + [COLON]) + EMPTY_OBJECT + [RBRACE]
  {
    hide Text, SUCCEEDED;
  }

  lemma TrueIsGood(key: Bytes, room: nat)
    requires Writable(key)
    ensures GoodMember(Member(key, TRUE), room)
  {
    AsciiIsUtf8(TRUE);
    assert TRUE[0] == 0x74;
  }

  lemma EmptyIsGood(room: nat)
    requires room > 0
    ensures GoodMember(Member(KEY_ERROR, EMPTY_OBJECT), room)
  {
    AsciiGood("error");
    AsciiIsUtf8(EMPTY_OBJECT);
    assert EMPTY_OBJECT[1..][0] == RBRACE;
  }

  lemma SucceededText(payload: Bytes)
    ensures SuccessResult(payload)
            == ObjectText([Member(KEY_STATUS, Quote(Ascii("succeeded"))), Member(KEY_OPERATION_RESULT, payload)])
  {
    hide Quote, Join, Text;
    ReasonTexts();
    ResultTexts();
    TwoFields(KEY_STATUS, Quote(Ascii("succeeded")), KEY_OPERATION_RESULT, payload);
  }

  /** The success result of a good payload is a good value one level further out. */
  lemma SucceededGood(payload: Bytes, room: nat)
    requires GoodMember(Member(KEY_OPERATION_RESULT, payload), room)
    ensures GoodMember(Member(KEY_RESULT, SuccessResult(payload)), room + 1)
    ensures GoodMembers([Member(KEY_STATUS, Quote(Ascii("succeeded"))), Member(KEY_OPERATION_RESULT, payload)], room)
  {
    hide Utf8, Token, ObjectText, GoodMember, Quote, SuccessResult;
    AsciiGood("status");
    AsciiGood("succeeded");
    AsciiGood("result");
    QuotedGood(KEY_STATUS, Ascii("succeeded"), room);
    SucceededText(payload);
    var ms := [Member(KEY_STATUS, Quote(Ascii("succeeded"))), Member(KEY_OPERATION_RESULT, payload)];
    assert KEY_STATUS[0] != KEY_OPERATION_RESULT[0];
    ObjectGood(KEY_RESULT, ms, room);
  }

  lemma BothGood(id: Bytes)
    requires GoodId(id)
    ensures GoodMembers(BothBodies(id), 1) && Distinct(BothBodies(id))
  {
    hide GoodMember, GoodId, SuccessResult, Utf8, Distinct, BothBodies;
    AsciiGood("operation_result");
    TrueIsGood(KEY_OPERATION_RESULT, 0);
    SucceededGood(TRUE, 0);
    EmptyIsGood(1);
    VersionGood(1);
    IdIsGood(id, 1);
    BothListed(id);
    BothKeys(BothBodies(id));
  }

  lemma BothListed(id: Bytes)
    ensures BothBodies(id) == [Member(KEY_JSONRPC, VERSION), Member(KEY_ID, id),
                               Member(KEY_RESULT, SuccessResult(TRUE)), Member(KEY_ERROR, EMPTY_OBJECT)]
  {
    hide SuccessResult;
  }

  lemma BothKeys(ms: seq<Member>)
    requires |ms| == 4 && ms[0].key == KEY_JSONRPC && ms[1].key == KEY_ID && ms[2].key == KEY_RESULT && ms[3].key == KEY_ERROR
    ensures Distinct(ms)
  {
    KeysDiffer();
    assert KEY_RESULT[0] != KEY_ERROR[0];
  }

  lemma IdIsGood(id: Bytes, room: nat)
    requires GoodId(id)
    ensures GoodMember(Member(KEY_ID, id), room)
  {
    hide Utf8, Token;
    AsciiGood("id");
    TokenRoom(id, 0, room);
  }

  lemma StrayIsShort()
    ensures |ResultResponse(NULL, SuccessResult(STRAY))| <= MAX_CONTROL_FRAME_BYTES
  {}

  /** The strict check lets a response with both a result and an error pass. */
  lemma BothLeave()
    ensures var resp := Checked(NULL, OutcomeResponse(NULL, Value(STRAY)));
            Strict(resp) && ObjectMembers(resp).Got? && ObjectMembers(resp).v == BothBodies(NULL)
  {
    hide Utf8, Token, ObjectText, ObjectMembers, Strict, GoodMembers, Distinct, BothBodies, ResultResponse, SuccessResult, GoodId, InternalResponse;
    NullIsGood();
    StrayText(NULL);
    StrayIsShort();
    BothGood(NULL);
    var ms := BothBodies(NULL);
    ObjectReads(ms, 1);
    ObjectToken(ms, 1);
    ObjectUtf8(ms, 1);
    StrictToken(ObjectText(ms), 2);
  }

  lemma BothHeld(id: Bytes)
    ensures Holds(BothBodies(id), KEY_RESULT) && Holds(BothBodies(id), KEY_ERROR)
  {
    var ms := BothBodies(id);
    assert ms[2].key == KEY_RESULT && ms[3].key == KEY_ERROR;
  }

  // ---------------------------------------------------------------- in a whole frame

  function Params(operation: Bytes): seq<Member> {
    [Member(KEY_OPERATION, Quote(operation))]
  }

  /** A request to call the operation, without an id. */
  function Request(operation: Bytes): seq<Member> {
    [Member(KEY_JSONRPC, VERSION), Member(KEY_METHOD, Quote(INVOKE_CALL)), Member(KEY_PARAMS, ObjectText(Params(operation)))]
  }

  /** The one plugin of the counterexample: whatever is called returns the stray text. */
  function StrayPlugin(): Plugin {
    Plugin(map[], ByName((_, _) => Value(STRAY)))
  }

  lemma RequestKeys()
    ensures KEY_JSONRPC != KEY_METHOD && KEY_JSONRPC != KEY_PARAMS && KEY_METHOD != KEY_PARAMS
    ensures KEY_ID != KEY_JSONRPC && KEY_ID != KEY_METHOD && KEY_ID != KEY_PARAMS
    ensures KEY_OPERATION != KEY_TARGET && KEY_OPERATION != KEY_ARGUMENTS && KEY_OPERATION != KEY_WORK_SESSION
  {
    assert KEY_JSONRPC[0] != KEY_METHOD[0] && KEY_JSONRPC[0] != KEY_PARAMS[0] && KEY_METHOD[0] != KEY_PARAMS[0];
    assert KEY_OPERATION[0] != KEY_TARGET[0] && KEY_OPERATION[0] != KEY_ARGUMENTS[0] && KEY_OPERATION[0] != KEY_WORK_SESSION[0];
  }

  lemma RequestGood(operation: Bytes)
    requires Writable(operation)
    ensures GoodMembers(Params(operation), 0) && GoodMembers(Request(operation), 1) && Distinct(Request(operation))
  {
    hide Utf8, Token, ObjectText, Quote;
    AsciiGood("operation");
    AsciiGood("method");
    AsciiGood("params");
    AsciiGood("invoke.call");
    QuotedGood(KEY_OPERATION, operation, 0);
    ObjectGood(KEY_PARAMS, Params(operation), 0);
    QuotedGood(KEY_METHOD, INVOKE_CALL, 1);
    VersionGood(1);
    RequestKeys();
  }

  lemma RequestReads(operation: Bytes)
    requires Writable(operation)
    ensures var frame := ObjectText(Request(operation));
            Strict(frame) && ObjectMembers(frame).Got? && ObjectMembers(frame).v == Request(operation)
    ensures var params := ObjectText(Params(operation));
            params != [] && ObjectMembers(params).Got? && ObjectMembers(params).v == Params(operation)
  {
    hide Utf8, Token, ObjectText, GoodMembers, Distinct, ObjectMembers, Strict, Request, Params;
    var ms := Request(operation);
    RequestGood(operation);
    ObjectReads(ms, 1);
    ObjectToken(ms, 1);
    ObjectUtf8(ms, 1);
    StrictToken(ObjectText(ms), 2);
    ObjectReads(Params(operation), 0);
    ObjectNotEmpty(Params(operation));
  }

  /** Such a request reaches the handler, with null for its id. */
  lemma RequestReaches(p: Plugin, operation: Bytes)
    requires Writable(operation) && operation != []
    ensures Respond(p, ObjectText(Request(operation))) == RespondCall(p, NULL, operation, Params(operation))
  {
    hide Utf8, ObjectText, Quote, ObjectMembers, Strict, DecodeString, RespondCall;
    RequestReads(operation);
    RequestKeys();
    LookUp3(Request(operation));
    LookUp1(Params(operation));
    AsciiGood("invoke.call");
    QuoteDecodes(INVOKE_CALL);
    QuoteDecodes(operation);
  }

  lemma LookUp1(ms: seq<Member>)
    requires |ms| == 1
    ensures MemberByKey(ms, ms[0].key) == ms[0].raw
  {}

  lemma ObjectNotEmpty(ms: seq<Member>)
    ensures ObjectText(ms) != []
  {}

  lemma QuoteDecodes(s: Bytes)
    requires Writable(s)
    ensures DecodeString(Quote(s)).Got? && DecodeString(Quote(s)).v == s
  {
    hide String, Quote, Utf8;
    QuoteReads(s, []);
    assert Quote(s) + [] == Quote(s);
  }

  lemma StrayCalled(operation: Bytes)
    ensures RespondCall(StrayPlugin(), NULL, operation, Params(operation)) == Checked(NULL, OutcomeResponse(NULL, Value(STRAY)))
  {
    hide Checked, OutcomeResponse, STRAY, Quote;
    RequestKeys();
  }

  /**
   A frame and a plugin whose response is strict and holds both a result and an error: the
   handler's raw JSON is true},"error":{ .
   */
  lemma BothInOneResponse()
    ensures var resp := Respond(StrayPlugin(), ObjectText(Request(Ascii("x"))));
            && Strict(resp) && ObjectMembers(resp).Got?
            && Holds(ObjectMembers(resp).v, KEY_RESULT) && Holds(ObjectMembers(resp).v, KEY_ERROR)
    ensures !Closed(STRAY)
  {
    hide ObjectText, Request, Strict, ObjectMembers, BothBodies, Checked, OutcomeResponse, Holds, Writable, Closed, STRAY, GoodId, RespondCall, StrayPlugin;
    AsciiWritable("x");
    RequestReaches(StrayPlugin(), Ascii("x"));
    StrayCalled(Ascii("x"));
    BothLeave();
    BothHeld(NULL);
    NullIsGood();
    if Closed(STRAY) { OutcomeHoldsOne(NULL, Value(STRAY)); }
  }

  // --------------------------------------------------------------- success reads back

  /** A reader of a success finds the handler's payload byte for byte, and no error. */
  lemma SuccessReadsBack(id: Bytes, payload: Bytes)
    requires GoodId(id) && Token(payload, MAX_DEPTH - 2) && Utf8(payload)
    ensures var resp := ResultResponse(id, SuccessResult(payload));
            && Strict(resp)
            && Look(resp, KEY_ERROR) == []
            && Look(Look(resp, KEY_RESULT), KEY_STATUS) == Quote(Ascii("succeeded"))
            && Look(Look(resp, KEY_RESULT), KEY_OPERATION_RESULT) == payload
  {
    hide ResultResponse, SuccessResult, ObjectMembers, ObjectText, Token, Utf8, Quote, Strict, GoodId;
    AsciiGood("operation_result");
    var ms := [Member(KEY_STATUS, Quote(Ascii("succeeded"))), Member(KEY_OPERATION_RESULT, payload)];
    SucceededGood(payload, MAX_DEPTH - 2);
    SucceededText(payload);
    ObjectReads(ms, MAX_DEPTH - 2);
    EnvelopeReads(id, KEY_RESULT, SuccessResult(payload), MAX_DEPTH - 1);
    EnvelopeIsStrict(id, KEY_RESULT, SuccessResult(payload), MAX_DEPTH - 1);
    ResultText(id, SuccessResult(payload));
    assert KEY_STATUS[0] != KEY_OPERATION_RESULT[0];
    LookUp3(ms);
  }
}
