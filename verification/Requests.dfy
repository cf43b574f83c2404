/**
 Which handler a request reaches and with what, and what every other request is answered,
 told from the members of the frame and read back from the members of the response.
 */
module Requests {
  import opened ByteStrings
  import opened JsonScan
  import opened JsonSpans
  import opened JsonReaders
  import opened JsonQuote
  import opened Dispatcher
  import opened Responses
  import opened Envelopes

  // ------------------------------------------------------------- members by index

  ghost predicate At(ms: seq<Member>, i: nat, key: string, raw: Bytes) {
    i < |ms| && ms[i].key == Ascii(key) && ms[i].raw == raw
  }

  ghost predicate Lacks(ms: seq<Member>, key: string) {
    forall i :: 0 <= i < |ms| ==> ms[i].key != Ascii(key)
  }

  /** raw is what the member of that key holds; no bytes where there is none. */
  ghost predicate Gives(ms: seq<Member>, key: string, raw: Bytes) {
    if raw == [] then Lacks(ms, key) else exists i :: At(ms, i, key, raw)
  }

  lemma {:induction false} GivesFinds(ms: seq<Member>, key: string, raw: Bytes)
    requires Distinct(ms) && Gives(ms, key, raw)
    ensures MemberByKey(ms, Ascii(key)) == raw
  {
    if raw == [] {
      LackingFinds(ms, key);
    } else {
      var i :| At(ms, i, key, raw);
      AtFinds(ms, i, Ascii(key));
    }
  }

  lemma {:induction false} LackingFinds(ms: seq<Member>, key: string)
    requires Lacks(ms, key)
    ensures MemberByKey(ms, Ascii(key)) == []
  {
    if ms != [] { LackingFinds(ms[1..], key); }
  }

  lemma {:induction false} AtFinds(ms: seq<Member>, i: nat, key: Bytes)
    requires Distinct(ms) && i < |ms| && ms[i].key == key
    ensures MemberByKey(ms, key) == ms[i].raw
  {
    if i > 0 { AtFinds(ms[1..], i - 1, key); }
  }

  lemma Spelt()
    ensures KEY_ID == Ascii("id") && KEY_JSONRPC == Ascii("jsonrpc") && KEY_METHOD == Ascii("method") && KEY_PARAMS == Ascii("params")
    ensures KEY_OPERATION == Ascii("operation") && KEY_TARGET == Ascii("target") && KEY_ARGUMENTS == Ascii("arguments")
    ensures KEY_WORK_SESSION == Ascii("_host_work_session") && INVOKE_CALL == Ascii("invoke.call")
    ensures VERSION == [0x22, 0x32, 0x2E, 0x30, 0x22] && NULL == [0x6E, 0x75, 0x6C, 0x6C] && EMPTY_OBJECT == [0x7B, 0x7D]
  {}

  // ------------------------------------------------------------------ the envelope

  /** The frame is a strict object, and these are its members. */
  ghost predicate Frame(frame: Bytes, ms: seq<Member>) {
    Strict(frame) && ObjectMembers(frame).Got? && ms == ObjectMembers(frame).v
  }

  /** A string, a number or null. */
  predicate IdText(id: Bytes) {
    id != [] && (id[0] == 0x22 || id[0] == 0x2D || 0x30 <= id[0] <= 0x39 || id == [0x6E, 0x75, 0x6C, 0x6C])
  }

  /** The id a response carries: the request's own, or null where it has none. */
  ghost predicate Identified(ms: seq<Member>, id: Bytes) {
    || (IdText(id) && Gives(ms, "id", id))
    || (id == [0x6E, 0x75, 0x6C, 0x6C] && Lacks(ms, "id"))
  }

  lemma FrameDistinct(frame: Bytes, ms: seq<Member>)
    requires Frame(frame, ms)
    ensures Distinct(ms) && forall i :: 0 <= i < |ms| ==> Strict(ms[i].raw)
  {
    hide Strict, Object;
    MembersOfStrict(frame);
  }

  /** The id is found, and the method is looked at. */
  lemma Identifies(p: Plugin, frame: Bytes, ms: seq<Member>, id: Bytes)
    requires Frame(frame, ms) && Identified(ms, id)
    ensures Respond(p, frame) == RespondMethod(p, id, ms) && RequestId(frame) == id && GoodId(id)
  {
    hide Strict, ObjectMembers, RespondMethod, GoodId;
    Spelt();
    FrameDistinct(frame, ms);
    if Lacks(ms, "id") { LackingFinds(ms, "id"); } else { GivesFinds(ms, "id", id); }
    RequestIdIsGood(frame);
  }

  // ------------------------------------------------------------------ what is said

  /** The response is an error with this id, code, message and reason code, and no result. */
  ghost predicate SaysError(resp: Bytes, id: Bytes, code: string, message: string, reason: string) {
    && Strict(resp) && Look(resp, Ascii("id")) == id && Look(resp, Ascii("result")) == []
    && var e := Look(resp, Ascii("error"));
       && Look(e, Ascii("code")) == Ascii(code)
       && Look(e, Ascii("message")) == Quote(Ascii(message))
       && if reason == "" then Look(e, Ascii("data")) == []
          else Look(Look(e, Ascii("data")), Ascii("reasonCode")) == Quote(Ascii(reason))
  }

  /** The response is a result with this id, and its status, reason and reason code are these texts, quoted. */
  ghost predicate SaysRefusal(resp: Bytes, id: Bytes, status: Bytes, code: Bytes, reason: Bytes) {
    && Strict(resp) && Look(resp, Ascii("id")) == id && Look(resp, Ascii("error")) == []
    && var f := Look(resp, Ascii("result"));
       && Look(f, Ascii("status")) == Quote(status)
       && Look(f, Ascii("reason")) == Quote(if reason == [] then code else reason)
       && Look(f, Ascii("reasonCode")) == (if code == [] then [] else Quote(code))
       && Look(f, Ascii("reason_code")) == (if code == [] then [] else Quote(code))
  }

  lemma ErrorSaid(id: Bytes, code: Code, message: string, reason: string)
    requires GoodId(id)
    ensures SaysError(ErrorResponse(id, code, Ascii(message), Ascii(reason)), id,
              match code
              case ParseError => "-32700"
              case InvalidRequest => "-32600"
              case MethodNotFound => "-32601"
              case InvalidParams => "-32602"
              case InternalError => "-32603",
              message, reason)
  {
    hide GoodId, ErrorResponse, Strict, ObjectMembers, Writable, Quote;
    AsciiWritable(message);
    AsciiWritable(reason);
    ErrorReadsBack(id, code, Ascii(message), Ascii(reason));
    ErrorAnswers(id, code, Ascii(message), Ascii(reason));
  }

  lemma NoReason()
    ensures Ascii("") == []
  {}

  lemma RefusalSaid(id: Bytes, status: Bytes, code: Bytes, reason: Bytes)
    requires GoodId(id) && Writable(status) && Writable(code) && Writable(reason)
    ensures SaysRefusal(ResultResponse(id, FailureResult(status, code, reason)), id, status, code, reason)
  {
    hide GoodId, ResultResponse, FailureResult, Strict, ObjectMembers, Writable, Quote;
    FailureReadsBack(id, status, code, reason);
    FailureAnswers(id, status, code, reason);
  }

  // ------------------------------------------------------------ frames refused early

  /** No strict payload: a parse error under a null id. */
  lemma MalformedIsParseError(p: Plugin, frame: Bytes)
    requires !Strict(frame)
    ensures SaysError(Respond(p, frame), [0x6E, 0x75, 0x6C, 0x6C], "-32700", "JSON parse error", "")
  {
    hide Strict, SaysError, ErrorResponse, GoodId;
    Spelt();
    NullIsGood();
    NoReason();
    ErrorSaid(NULL, ParseError, "JSON parse error", "");
  }

  /** A strict payload that is no object, or whose id is an object, an array or a truth value. */
  lemma NoRequestIsInvalid(p: Plugin, frame: Bytes)
    requires Strict(frame)
    requires ObjectMembers(frame).Fail? || exists raw :: raw != [] && Gives(ObjectMembers(frame).v, "id", raw) && !IdText(raw)
    ensures SaysError(Respond(p, frame), [0x6E, 0x75, 0x6C, 0x6C], "-32600", "invalid JSON-RPC 2.0 request", "")
  {
    hide Strict, SaysError, ErrorResponse, GoodId, ObjectMembers, RespondMethod;
    Spelt();
    NullIsGood();
    NoReason();
    ErrorSaid(NULL, InvalidRequest, "invalid JSON-RPC 2.0 request", "");
    if ObjectMembers(frame).Got? {
      var raw :| raw != [] && Gives(ObjectMembers(frame).v, "id", raw) && !IdText(raw);
      FrameDistinct(frame, ObjectMembers(frame).v);
      GivesFinds(ObjectMembers(frame).v, "id", raw);
    }
  }

  /** A version other than "2.0", or a method that is no string. */
  lemma WrongVersionIsInvalid(p: Plugin, frame: Bytes, ms: seq<Member>, id: Bytes, version: Bytes, meth: Bytes)
    requires Frame(frame, ms) && Identified(ms, id) && Gives(ms, "jsonrpc", version) && Gives(ms, "method", meth)
    requires version != [0x22, 0x32, 0x2E, 0x30, 0x22] || DecodeString(meth).Fail?
    ensures SaysError(Respond(p, frame), id, "-32600", "invalid JSON-RPC 2.0 request", "")
  {
    hide Strict, SaysError, ErrorResponse, GoodId, ObjectMembers, DecodeString;
    Spelt();
    Identifies(p, frame, ms, id);
    FrameDistinct(frame, ms);
    GivesFinds(ms, "jsonrpc", version);
    GivesFinds(ms, "method", meth);
    NoReason();
    ErrorSaid(id, InvalidRequest, "invalid JSON-RPC 2.0 request", "");
  }

  /** A request of version "2.0" whose method is this text. */
  ghost predicate Asks(ms: seq<Member>, meth: Bytes) {
    && Gives(ms, "jsonrpc", [0x22, 0x32, 0x2E, 0x30, 0x22])
    && exists raw :: Gives(ms, "method", raw) && DecodeString(raw).Got? && DecodeString(raw).v == meth
  }

  lemma OtherMethodIsNotFound(p: Plugin, frame: Bytes, ms: seq<Member>, id: Bytes, meth: Bytes)
    requires Frame(frame, ms) && Identified(ms, id) && Asks(ms, meth) && meth != Ascii("invoke.call")
    ensures SaysError(Respond(p, frame), id, "-32601", "method not found", "METHOD_NOT_FOUND")
  {
    hide Strict, SaysError, ErrorResponse, GoodId, ObjectMembers, DecodeString;
    Spelt();
    Identifies(p, frame, ms, id);
    FrameDistinct(frame, ms);
    GivesFinds(ms, "jsonrpc", [0x22, 0x32, 0x2E, 0x30, 0x22]);
    var raw :| Gives(ms, "method", raw) && DecodeString(raw).Got? && DecodeString(raw).v == meth;
    GivesFinds(ms, "method", raw);
    ErrorSaid(id, MethodNotFound, "method not found", "METHOD_NOT_FOUND");
  }

  lemma ParamsMustBeAnObject(p: Plugin, frame: Bytes, ms: seq<Member>, id: Bytes, params: Bytes)
    requires Frame(frame, ms) && Identified(ms, id) && Asks(ms, Ascii("invoke.call"))
    requires Gives(ms, "params", params) && params != [] && ObjectMembers(params).Fail?
    ensures SaysError(Respond(p, frame), id, "-32602", "params must be a JSON object", "")
  {
    hide Strict, SaysError, ErrorResponse, GoodId, ObjectMembers, DecodeString, RespondCall;
    Invokes(p, frame, ms, id, params);
    NoReason();
    ErrorSaid(id, InvalidParams, "params must be a JSON object", "");
  }

  /** A request for invoke.call reaches its params. */
  lemma Invokes(p: Plugin, frame: Bytes, ms: seq<Member>, id: Bytes, params: Bytes)
    requires Frame(frame, ms) && Identified(ms, id) && Asks(ms, Ascii("invoke.call")) && Gives(ms, "params", params)
    ensures GoodId(id)
    ensures Respond(p, frame) ==
              var ps := ObjectMembers(if params == [] then [0x7B, 0x7D] else params);
              if ps.Fail? then ErrorResponse(id, InvalidParams, Ascii("params must be a JSON object"), [])
              else
                var operation := DecodeString(MemberByKey(ps.v, KEY_OPERATION));
                if operation.Fail? || operation.v == [] then ErrorResponse(id, InvalidParams, Ascii("operation (string) required"), [])
                else RespondCall(p, id, operation.v, ps.v)
  {
    hide Strict, ErrorResponse, GoodId, ObjectMembers, DecodeString, RespondCall;
    Spelt();
    Identifies(p, frame, ms, id);
    FrameDistinct(frame, ms);
    GivesFinds(ms, "jsonrpc", [0x22, 0x32, 0x2E, 0x30, 0x22]);
    var raw :| Gives(ms, "method", raw) && DecodeString(raw).Got? && DecodeString(raw).v == Ascii("invoke.call");
    GivesFinds(ms, "method", raw);
    GivesFinds(ms, "params", params);
  }

  /** The request's params are this object; one without any has none of the members below. */
  ghost predicate Params(ms: seq<Member>, ps: seq<Member>) {
    || (Lacks(ms, "params") && ps == [])
    || exists raw :: raw != [] && Gives(ms, "params", raw) && ObjectMembers(raw).Got? && ObjectMembers(raw).v == ps
  }

  lemma ParamsFound(p: Plugin, frame: Bytes, ms: seq<Member>, id: Bytes, ps: seq<Member>)
    requires Frame(frame, ms) && Identified(ms, id) && Asks(ms, Ascii("invoke.call")) && Params(ms, ps)
    ensures GoodId(id) && Distinct(ps) && WellFormed(ps)
    ensures Respond(p, frame) ==
              var operation := DecodeString(MemberByKey(ps, KEY_OPERATION));
              if operation.Fail? || operation.v == [] then ErrorResponse(id, InvalidParams, Ascii("operation (string) required"), [])
              else RespondCall(p, id, operation.v, ps)
  {
    hide Strict, ErrorResponse, GoodId, ObjectMembers, DecodeString, RespondCall, Identified, Asks, Utf8, Object;
    if Lacks(ms, "params") && ps == [] {
      Spelt();
      EmptyObject();
      Invokes(p, frame, ms, id, []);
    } else {
      var raw :| raw != [] && Gives(ms, "params", raw) && ObjectMembers(raw).Got? && ObjectMembers(raw).v == ps;
      FrameDistinct(frame, ms);
      var i :| At(ms, i, "params", raw);
      IsObject(raw);
      MembersOfStrict(raw);
      StrictMembersWellFormed(raw);
      Invokes(p, frame, ms, id, raw);
    }
  }

  lemma IsObject(raw: Bytes)
    requires ObjectMembers(raw).Got?
    ensures Spaces(raw) < |raw| && raw[Spaces(raw)] == LBRACE
  {}

  lemma OperationIsRequired(p: Plugin, frame: Bytes, ms: seq<Member>, id: Bytes, ps: seq<Member>, operation: Bytes)
    requires Frame(frame, ms) && Identified(ms, id) && Asks(ms, Ascii("invoke.call")) && Params(ms, ps)
    requires Gives(ps, "operation", operation) && (DecodeString(operation).Fail? || DecodeString(operation).v == [])
    ensures SaysError(Respond(p, frame), id, "-32602", "operation (string) required", "")
  {
    hide Frame, SaysError, ErrorResponse, GoodId, DecodeString, RespondCall, Identified, Asks, Params, WellFormed;
    Spelt();
    ParamsFound(p, frame, ms, id, ps);
    GivesFinds(ps, "operation", operation);
    NoReason();
    ErrorSaid(id, InvalidParams, "operation (string) required", "");
  }

  /** Without a plugin every frame is an internal error, under the request's own id where it has one. */
  lemma UnregisteredIsSaid(frame: Bytes, id: Bytes)
    requires if Strict(frame) && ObjectMembers(frame).Got? && exists raw :: IdText(raw) && Gives(ObjectMembers(frame).v, "id", raw)
             then IdText(id) && Gives(ObjectMembers(frame).v, "id", id)
             else id == [0x6E, 0x75, 0x6C, 0x6C]
    ensures SaysError(RespondUnregistered(frame), id, "-32603",
                      "no plugin registered: call aiiosdk Run from a package init function", "PLUGIN_NOT_REGISTERED")
  {
    hide Strict, SaysError, ErrorResponse, GoodId, ObjectMembers;
    Spelt();
    RequestIdIsGood(frame);
    if Strict(frame) && ObjectMembers(frame).Got? {
      var ms := ObjectMembers(frame).v;
      FrameDistinct(frame, ms);
      if exists raw :: IdText(raw) && Gives(ms, "id", raw) {
        GivesFinds(ms, "id", id);
      } else if MemberByKey(ms, KEY_ID) != [] {
        var i :| 0 <= i < |ms| && ms[i] == Member(KEY_ID, MemberByKey(ms, KEY_ID));
        assert At(ms, i, "id", MemberByKey(ms, KEY_ID));
        assert Gives(ms, "id", MemberByKey(ms, KEY_ID));
      }
    }
    ErrorSaid(RequestId(frame), InternalError,
              "no plugin registered: call aiiosdk Run from a package init function", "PLUGIN_NOT_REGISTERED");
  }

  // -------------------------------------------------------------------- calls

  /** A request to call the operation, and the params it comes with. */
  ghost predicate Requests(frame: Bytes, id: Bytes, operation: Bytes, ps: seq<Member>) {
    exists ms ::
      && Frame(frame, ms) && Identified(ms, id) && Asks(ms, Ascii("invoke.call")) && Params(ms, ps)
      && operation != []
      && exists raw :: Gives(ps, "operation", raw) && DecodeString(raw).Got? && DecodeString(raw).v == operation
  }

  lemma Requested(p: Plugin, frame: Bytes, id: Bytes, operation: Bytes, ps: seq<Member>)
    requires Requests(frame, id, operation, ps)
    ensures Respond(p, frame) == RespondCall(p, id, operation, ps) && GoodId(id) && Distinct(ps) && Writable(operation)
  {
    hide Frame, ErrorResponse, GoodId, DecodeString, RespondCall, Identified, Asks, Params, WellFormed, Writable;
    Spelt();
    var ms :| && Frame(frame, ms) && Identified(ms, id) && Asks(ms, Ascii("invoke.call")) && Params(ms, ps)
              && exists raw :: Gives(ps, "operation", raw) && DecodeString(raw).Got? && DecodeString(raw).v == operation;
    var raw :| Gives(ps, "operation", raw) && DecodeString(raw).Got? && DecodeString(raw).v == operation;
    ParamsFound(p, frame, ms, id, ps);
    GivesFinds(ps, "operation", raw);
    GivenWritable(ps, raw);
  }

  lemma GivenWritable(ps: seq<Member>, raw: Bytes)
    requires WellFormed(ps) && Gives(ps, "operation", raw) && DecodeString(raw).Got?
    ensures Writable(DecodeString(raw).v)
  {
    hide StringTail, Utf8, Writable;
    assert raw != [];
    var i :| At(ps, i, "operation", raw);
    DecodedIsWritable(raw);
  }

  /** What is handed over for the arguments: their own bytes, or an empty object where there are none. */
  ghost predicate ArgumentsAre(ps: seq<Member>, arguments: Bytes) {
    || (arguments == [0x7B, 0x7D] && Lacks(ps, "arguments"))
    || (arguments != [] && arguments[0] == 0x7B && Gives(ps, "arguments", arguments))
  }

  /**
   A request whose target and arguments are objects, where it has them, is answered with what one
   handler makes of it: the one registered for the operation, or else the dynamic one.  The handler
   is given the operation and the very bytes of the target, the arguments and the work session.
   */
  lemma CallReaches(p: Plugin, frame: Bytes, id: Bytes, operation: Bytes, ps: seq<Member>, target: Bytes, arguments: Bytes, session: Bytes)
    requires Requests(frame, id, operation, ps)
    requires Gives(ps, "target", target) && (target == [] || target[0] == 0x7B)
    requires ArgumentsAre(ps, arguments) && Gives(ps, "_host_work_session", session)
    ensures var c := Call(operation := operation, target := target, arguments := arguments, workSession := session);
            && (operation in p.handlers ==>
                  Respond(p, frame) == Checked(id, OutcomeResponse(id, p.handlers[operation](c))))
            && (operation !in p.handlers && p.dynamic.ByName? ==>
                  Respond(p, frame) == Checked(id, OutcomeResponse(id, p.dynamic.handle(operation, c))))
  {
    hide Requests, GoodId, Writable, Checked, OutcomeResponse, FailureResult, ResultResponse;
    Spelt();
    Requested(p, frame, id, operation, ps);
    GivesFinds(ps, "target", target);
    GivesFinds(ps, "_host_work_session", session);
    if Lacks(ps, "arguments") { LackingFinds(ps, "arguments"); } else { GivesFinds(ps, "arguments", arguments); }
  }

  /** A target that is no object; or, beside a target that is one or absent, arguments that are none. */
  lemma WrongKindIsDenied(p: Plugin, frame: Bytes, id: Bytes, operation: Bytes, ps: seq<Member>, target: Bytes, arguments: Bytes)
    requires Requests(frame, id, operation, ps) && Gives(ps, "target", target) && Gives(ps, "arguments", arguments)
    ensures target != [] && target[0] != 0x7B ==>
              SaysRefusal(Respond(p, frame), id, Ascii("denied"), Ascii("OPERATION_TARGET_INVALID"), Ascii("target must be an object"))
    ensures (target == [] || target[0] == 0x7B) && arguments != [] && arguments[0] != 0x7B ==>
              SaysRefusal(Respond(p, frame), id, Ascii("denied"), Ascii("OPERATION_ARGUMENT_INVALID"), Ascii("arguments must be an object"))
  {
    hide Requests, GoodId, Writable, Checked, OutcomeResponse, FailureResult, ResultResponse, SaysRefusal;
    Spelt();
    Requested(p, frame, id, operation, ps);
    GivesFinds(ps, "target", target);
    GivesFinds(ps, "arguments", arguments);
    AsciiWritable("denied");
    AsciiWritable("OPERATION_TARGET_INVALID");
    AsciiWritable("target must be an object");
    AsciiWritable("OPERATION_ARGUMENT_INVALID");
    AsciiWritable("arguments must be an object");
    RefusalSaid(id, Ascii("denied"), Ascii("OPERATION_TARGET_INVALID"), Ascii("target must be an object"));
    RefusalSaid(id, Ascii("denied"), Ascii("OPERATION_ARGUMENT_INVALID"), Ascii("arguments must be an object"));
  }

  /** An operation nobody handles. */
  lemma UnknownOperationFails(p: Plugin, frame: Bytes, id: Bytes, operation: Bytes, ps: seq<Member>, target: Bytes, arguments: Bytes)
    requires Requests(frame, id, operation, ps) && operation !in p.handlers && p.dynamic.NoDynamic?
    requires Gives(ps, "target", target) && (target == [] || target[0] == 0x7B)
    requires ArgumentsAre(ps, arguments)
    ensures SaysRefusal(Respond(p, frame), id, Ascii("failed"), Ascii("OPERATION_NOT_FOUND"),
                        Ascii("operation ") + operation + Ascii(" is not implemented by this plugin"))
  {
    hide Requests, GoodId, Writable, Checked, OutcomeResponse, FailureResult, ResultResponse, SaysRefusal;
    Spelt();
    Requested(p, frame, id, operation, ps);
    GivesFinds(ps, "target", target);
    if Lacks(ps, "arguments") { LackingFinds(ps, "arguments"); } else { GivesFinds(ps, "arguments", arguments); }
    AsciiWritable("failed");
    AsciiWritable("OPERATION_NOT_FOUND");
    NotImplementedWritable(operation);
    RefusalSaid(id, Ascii("failed"), Ascii("OPERATION_NOT_FOUND"), NotImplemented(operation));
  }

  // ------------------------------------------------------------------ outcomes

  /** The response is a result with this id, of status succeeded, and its operation result is these bytes. */
  ghost predicate SaysValue(resp: Bytes, id: Bytes, payload: Bytes) {
    && Strict(resp) && Look(resp, Ascii("id")) == id && Look(resp, Ascii("error")) == []
    && Look(Look(resp, Ascii("result")), Ascii("status")) == Quote(Ascii("succeeded"))
    && Look(Look(resp, Ascii("result")), Ascii("operation_result")) == payload
  }

  lemma SuccessSaid(id: Bytes, payload: Bytes)
    requires GoodId(id) && Token(payload, 62) && Utf8(payload)
    ensures SaysValue(ResultResponse(id, SuccessResult(payload)), id, payload)
    ensures Strict(ResultResponse(id, SuccessResult(payload)))
  {
    hide GoodId, ResultResponse, SuccessResult, Strict, ObjectMembers, Token, Utf8, Quote;
    SuccessReadsBack(id, payload);
    ResultAnswers(id, SuccessResult(payload));
  }

  lemma SuccessLength(id: Bytes, payload: Bytes)
    ensures |ResultResponse(id, SuccessResult(payload))| == 75 + |id| + |payload|
  {}

  /** A payload that is one strict value with room for the two objects around it, and not too long, is handed back as it is. */
  lemma ValueIsSaid(id: Bytes, payload: Bytes)
    requires GoodId(id) && Token(payload, 62) && Utf8(payload)
    ensures var r := Checked(id, OutcomeResponse(id, Value(payload)));
            if 75 + |id| + |payload| <= 1048576
            then
              SaysValue(r, id, payload)
            else SaysError(r, id, "-32603", "plugin handler failed", "PLUGIN_HANDLER_FAILED")
  {
    hide GoodId, ErrorResponse, ResultResponse, SuccessResult, Strict, Token, Utf8, SaysError, SaysValue;
    SuccessLength(id, payload);
    SuccessSaid(id, payload);
    ErrorSaid(id, InternalError, "plugin handler failed", "PLUGIN_HANDLER_FAILED");
  }

  /** A value that does not encode, or an error that is no operation error and wraps none, is an internal error. */
  lemma UnclassifiedIsInternal(id: Bytes, o: Outcome)
    requires GoodId(id)
    requires o.Unencodable? || (o.Failed? && forall i :: 0 <= i < |o.chain| ==> o.chain[i].Other?)
    ensures SaysError(Checked(id, OutcomeResponse(id, o)), id, "-32603", "plugin handler failed", "PLUGIN_HANDLER_FAILED")
  {
    hide GoodId, ErrorResponse, Strict, SaysError;
    if o.Failed? { OthersAreInternal(o.chain); }
    ErrorSaid(id, InternalError, "plugin handler failed", "PLUGIN_HANDLER_FAILED");
  }

  lemma {:induction false} OthersAreInternal(chain: seq<Link>)
    requires forall i :: 0 <= i < |chain| ==> chain[i].Other?
    ensures Classify(chain).Internal?
  {
    if chain != [] { OthersAreInternal(chain[1..]); }
  }

  /** k is the first link of the chain that is an operation error or a denial. */
  predicate FirstAt(chain: seq<Link>, k: nat) {
    k < |chain| && !chain[k].Other? && forall i :: 0 <= i < k ==> chain[i].Other?
  }

  lemma {:induction false} FirstDecides(chain: seq<Link>, k: nat)
    requires FirstAt(chain, k)
    ensures Classify(chain) == match chain[k]
                               case Denied(code, message) => Refusal(Ascii("denied"), code, message)
                               case OperationError(status, code, reason) =>
                                 Refusal(if status == Ascii("denied") then status else Ascii("failed"), code, reason)
  {
    if k > 0 { FirstDecides(chain[1..], k - 1); }
  }

  /**
   The first operation error or denial down the chain of causes is told as it is, a status other than
   denied as failed; where the response would be too long, it is an internal error.
   */
  lemma RefusalIsSaid(id: Bytes, chain: seq<Link>, k: nat, status: Bytes, code: Bytes, reason: Bytes)
    requires GoodId(id) && FirstAt(chain, k) && Writable(status) && Writable(code) && Writable(reason)
    requires match chain[k]
             case Denied(c, m) => status == Ascii("denied") && c == code && m == reason
             case OperationError(s, c, m) => status == (if s == Ascii("denied") then s else Ascii("failed")) && c == code && m == reason
    ensures var r := Checked(id, OutcomeResponse(id, Failed(chain)));
            if |ResultResponse(id, FailureResult(status, code, reason))| <= 1048576
            then SaysRefusal(r, id, status, code, reason)
            else SaysError(r, id, "-32603", "plugin handler failed", "PLUGIN_HANDLER_FAILED")
  {
    hide GoodId, ErrorResponse, ResultResponse, FailureResult, Strict, Writable, SaysError, SaysRefusal, Classify;
    FirstDecides(chain, k);
    FailureIsStrict(id, status, code, reason);
    RefusalSaid(id, status, code, reason);
    ErrorSaid(id, InternalError, "plugin handler failed", "PLUGIN_HANDLER_FAILED");
  }

  /** A response outside the strict domain does not leave. */
  lemma UnstrictIsInternal(id: Bytes, payload: Bytes)
    requires GoodId(id) && !Strict(ResultResponse(id, SuccessResult(payload)))
    ensures SaysError(Checked(id, OutcomeResponse(id, Value(payload))), id, "-32603", "plugin handler failed", "PLUGIN_HANDLER_FAILED")
  {
    hide GoodId, ErrorResponse, ResultResponse, Strict, SaysError;
    ErrorSaid(id, InternalError, "plugin handler failed", "PLUGIN_HANDLER_FAILED");
  }
}
