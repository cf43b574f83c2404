/**
 The dispatcher: one request frame in, one JSON-RPC 2.0 response out, whatever the
 frame holds and whatever the handler does.
 */
module Dispatcher {
  import opened ByteStrings
  import opened JsonScan
  import opened JsonSpans
  import opened JsonReaders
  import opened JsonQuote

  const MAX_CONTROL_FRAME_BYTES: nat := 0x10_0000

  // --------------------------------------------------------- response builders

  datatype Code = ParseError | InvalidRequest | MethodNotFound | InvalidParams | InternalError

  function CodeText(code: Code): Bytes {
    match code
    case ParseError => Ascii("-32700")
    case InvalidRequest => Ascii("-32600")
    case MethodNotFound => Ascii("-32601")
    case InvalidParams => Ascii("-32602")
    case InternalError => Ascii("-32603")
  }

  /** A literal that needs no escape, in quotes. */
  function Text(s: string): Bytes {
    [QUOTE] + Ascii(s) + [QUOTE]
  }

  // {"jsonrpc":"2.0","id":
  const HEAD: Bytes := [LBRACE] + Text("jsonrpc") + [COLON] + Text("2.0") + [COMMA] + Text("id") + [COLON]
  // ,"error":{"code":
  const ERROR_CODE: Bytes := [COMMA] + Text("error") + [COLON, LBRACE] + Text("code") + [COLON]
  // ,"message":
  const MESSAGE: Bytes := [COMMA] + Text("message") + [COLON]
  // ,"data":{"reasonCode":
  const DATA: Bytes := [COMMA] + Text("data") + [COLON, LBRACE] + Text("reasonCode") + [COLON]
  // ,"result":
  const RESULT: Bytes := [COMMA] + Text("result") + [COLON]
  // {"status":"succeeded","operation_result":
  const SUCCEEDED: Bytes := [LBRACE] + Text("status") + [COLON] + Text("succeeded") + [COMMA] + Text("operation_result") + [COLON]
  // {"status":
  const STATUS: Bytes := [LBRACE] + Text("status") + [COLON]
  // ,"reason":
  const REASON: Bytes := [COMMA] + Text("reason") + [COLON]
  // ,"reasonCode":
  const REASON_CODE: Bytes := [COMMA] + Text("reasonCode") + [COLON]
  // ,"reason_code":
  const REASON_CODE_OLD: Bytes := [COMMA] + Text("reason_code") + [COLON]

  function ErrorResponse(id: Bytes, code: Code, message: Bytes, reasonCode: Bytes): Bytes {
    HEAD + id + ERROR_CODE + CodeText(code) + MESSAGE + Quote(message)
    + (if reasonCode != [] then DATA + Quote(reasonCode) + [RBRACE] else []) + [RBRACE, RBRACE]
  }

  function ResultResponse(id: Bytes, result: Bytes): Bytes {
    HEAD + id + RESULT + result + [RBRACE]
  }

  function SuccessResult(operationResult: Bytes): Bytes {
    SUCCEEDED + operationResult + [RBRACE]
  }

  function FailureResult(status: Bytes, reasonCode: Bytes, reason: Bytes): Bytes {
    STATUS + Quote(status) + REASON + Quote(if reason == [] then reasonCode else reason)
    + (if reasonCode != [] then REASON_CODE + Quote(reasonCode) + REASON_CODE_OLD + Quote(reasonCode) else [])
    + [RBRACE]
  }

  // ------------------------------------------------------------------ handlers

  /** A call as the handler sees it; an absent member is empty. */
  datatype Call = Call(operation: Bytes, target: Bytes, arguments: Bytes, workSession: Bytes)

  /** One link of an error's chain of wrapped causes. */
  datatype Link = OperationError(status: Bytes, reasonCode: Bytes, reason: Bytes)
                | Denied(deniedCode: Bytes, message: Bytes)
                | Other

  /** What a handler may do: a value that encodes to some bytes, one that does not encode, or an error. */
  datatype Outcome = Value(payload: Bytes) | Unencodable | Failed(chain: seq<Link>)

  type Handler = Call -> Outcome

  datatype Dynamic = NoDynamic | ByName(handle: (Bytes, Call) -> Outcome)

  datatype Plugin = Plugin(handlers: map<Bytes, Handler>, dynamic: Dynamic)

  datatype Classified = Internal | Refusal(status: Bytes, reasonCode: Bytes, reason: Bytes)

  const FAILED: Bytes := Ascii("failed")
  const DENIED: Bytes := Ascii("denied")

  /** The first operation error or denial down the chain of causes. */
  function Classify(chain: seq<Link>): Classified {
    if chain == [] then Internal
    else match chain[0]
      case OperationError(status, code, reason) =>
        Refusal(if status != FAILED && status != DENIED then FAILED else status, code, reason)
      case Denied(code, message) => Refusal(DENIED, code, message)
      case Other => Classify(chain[1..])
  }

  // ------------------------------------------------------------------- respond

  /** An id is taken when it is a string, a number or null. */
  predicate IdTaken(id: Bytes) {
    id != [] && (id[0] == QUOTE || id[0] == MINUS || IsDigit(id[0]) || id == NULL)
  }

  const KEY_ID: Bytes := Ascii("id")
  const KEY_JSONRPC: Bytes := Ascii("jsonrpc")
  const KEY_METHOD: Bytes := Ascii("method")
  const KEY_PARAMS: Bytes := Ascii("params")
  const KEY_OPERATION: Bytes := Ascii("operation")
  const KEY_TARGET: Bytes := Ascii("target")
  const KEY_ARGUMENTS: Bytes := Ascii("arguments")
  const KEY_WORK_SESSION: Bytes := Ascii("_host_work_session")
  const VERSION: Bytes := Text("2.0")
  const INVOKE_CALL: Bytes := Ascii("invoke.call")
  const EMPTY_OBJECT: Bytes := [LBRACE, RBRACE]

  function OrElse(raw: Bytes, other: Bytes): Bytes {
    if raw == [] then other else raw
  }

  function InternalResponse(id: Bytes): Bytes {
    ErrorResponse(id, InternalError, Ascii("plugin handler failed"), Ascii("PLUGIN_HANDLER_FAILED"))
  }

  function OutcomeResponse(id: Bytes, o: Outcome): Bytes {
    match o
    case Value(payload) => ResultResponse(id, SuccessResult(payload))
    case Unencodable => InternalResponse(id)
    case Failed(chain) =>
      match Classify(chain)
      case Internal => InternalResponse(id)
      case Refusal(status, code, reason) => ResultResponse(id, FailureResult(status, code, reason))
  }

  /** The last check before a handler's outcome leaves: size and strict domain. */
  function Checked(id: Bytes, resp: Bytes): Bytes {
    if |resp| > MAX_CONTROL_FRAME_BYTES || !Strict(resp) then InternalResponse(id) else resp
  }

  function RespondCall(p: Plugin, id: Bytes, operation: Bytes, params: seq<Member>): Bytes {
    var target := MemberByKey(params, KEY_TARGET);
    var arguments := MemberByKey(params, KEY_ARGUMENTS);
    if target != [] && target[0] != LBRACE then
      ResultResponse(id, FailureResult(DENIED, Ascii("OPERATION_TARGET_INVALID"), Ascii("target must be an object")))
    else if arguments != [] && arguments[0] != LBRACE then
      ResultResponse(id, FailureResult(DENIED, Ascii("OPERATION_ARGUMENT_INVALID"), Ascii("arguments must be an object")))
    else
      var call := Call(operation, target, OrElse(arguments, EMPTY_OBJECT), MemberByKey(params, KEY_WORK_SESSION));
      if operation in p.handlers then Checked(id, OutcomeResponse(id, p.handlers[operation](call)))
      else if p.dynamic.ByName? then Checked(id, OutcomeResponse(id, p.dynamic.handle(operation, call)))
      else ResultResponse(id, FailureResult(FAILED, Ascii("OPERATION_NOT_FOUND"), NotImplemented(operation)))
  }

  function NotImplemented(operation: Bytes): Bytes {
    Ascii("operation ") + operation + Ascii(" is not implemented by this plugin")
  }

  function RespondMethod(p: Plugin, id: Bytes, members: seq<Member>): Bytes {
    var meth := DecodeString(MemberByKey(members, KEY_METHOD));
    if MemberByKey(members, KEY_JSONRPC) != VERSION || meth.Fail? then
      ErrorResponse(id, InvalidRequest, Ascii("invalid JSON-RPC 2.0 request"), [])
    else if meth.v != INVOKE_CALL then
      ErrorResponse(id, MethodNotFound, Ascii("method not found"), Ascii("METHOD_NOT_FOUND"))
    else
      var params := ObjectMembers(OrElse(MemberByKey(members, KEY_PARAMS), EMPTY_OBJECT));
      if params.Fail? then ErrorResponse(id, InvalidParams, Ascii("params must be a JSON object"), []) else
        var operation := DecodeString(MemberByKey(params.v, KEY_OPERATION));
        if operation.Fail? || operation.v == [] then
          ErrorResponse(id, InvalidParams, Ascii("operation (string) required"), [])
        else RespondCall(p, id, operation.v, params.v)
  }

  function Respond(p: Plugin, frame: Bytes): Bytes {
    if !Strict(frame) then ErrorResponse(NULL, ParseError, Ascii("JSON parse error"), [])
    else if ObjectMembers(frame).Fail? then ErrorResponse(NULL, InvalidRequest, Ascii("invalid JSON-RPC 2.0 request"), [])
    else
      var members := ObjectMembers(frame).v;
      var id := MemberByKey(members, KEY_ID);
      if id != [] && !IdTaken(id) then ErrorResponse(NULL, InvalidRequest, Ascii("invalid JSON-RPC 2.0 request"), [])
      else RespondMethod(p, OrElse(id, NULL), members)
  }

  /** The id a response to this frame must carry: the request's own bytes when they are a string, number or null. */
  function RequestId(frame: Bytes): Bytes {
    if !Strict(frame) || ObjectMembers(frame).Fail? then NULL else
      var id := MemberByKey(ObjectMembers(frame).v, KEY_ID);
      if IdTaken(id) then id else NULL
  }

  /** respondCurrent with no plugin registered. */
  function RespondUnregistered(frame: Bytes): Bytes {
    ErrorResponse(RequestId(frame), InternalError,
                  Ascii("no plugin registered: call aiiosdk Run from a package init function"),
                  Ascii("PLUGIN_NOT_REGISTERED"))
  }
}
