/**
 * What the server does with one inbound message (src/main.rs:44-75, 89-137):
 * the method it names, the delay it simulates for it, and the response it
 * sends, if any.
 */
module Dispatch {
  import opened Wrappers
  import opened Json
  import opened Messages

  /** JSON-RPC 2.0 "Method not found" (section 5.1 of the JSON-RPC 2.0 specification). */
  const MethodNotFound: RpcError := RpcError(-32601, "Method not found")

  /** The methods for which a non-zero delay is simulated. */
  const DelayedMethods: set<string> :=
    {"initialize", "textDocument/didOpen", "textDocument/didChange", "textDocument/didSave", "textDocument/completion"}

  /** InputMsg::method: the method name, from whichever variant. */
  function Method(msg: InputMsg): (name: string)
    ensures msg.Rpc? ==> name == msg.methodName
    ensures msg.Notification? ==> name == msg.notification.methodName
  {
    match msg
    case Rpc(_, _, name, _) => name
    case Notification(n) => n.methodName
  }

  /** The delay table of InputMsg::time, in milliseconds. */
  function Delay(name: string): (ms: nat)
    ensures ms <= 400
    ensures ms == 0 <==> name !in DelayedMethods
  {
    match name
    case "initialize" => 100
    case "textDocument/didOpen" => 100
    case "textDocument/didChange" => 200
    case "textDocument/didSave" => 400
    case "textDocument/completion" => 300
    case _ => 0
  }

  /** InputMsg::time: how long the server sleeps before answering `msg`. */
  function Time(msg: InputMsg): (ms: nat)
    ensures ms <= 400
    ensures ms == 0 <==> Method(msg) !in DelayedMethods
  {
    Delay(Method(msg))
  }

  /** The delay of each method, and zero for every other; the kind of message plays no part. */
  lemma TimeTable(msg: InputMsg)
    ensures Method(msg) == "initialize" ==> Time(msg) == 100
    ensures Method(msg) == "textDocument/didOpen" ==> Time(msg) == 100
    ensures Method(msg) == "textDocument/didChange" ==> Time(msg) == 200
    ensures Method(msg) == "textDocument/didSave" ==> Time(msg) == 400
    ensures Method(msg) == "textDocument/completion" ==> Time(msg) == 300
    ensures Method(msg) !in DelayedMethods ==> Time(msg) == 0
  {
  }

  /** The capabilities document answered to "initialize". */
  function InitializeResult(): (r: Value)
    ensures Path(r, ["capabilities", "textDocumentSync"]) == Some(Number(2))
    ensures Path(r, ["capabilities", "completionProvider", "resolveProvider"]) == Some(Bool(true))
    ensures Path(r, ["capabilities", "hoverProvider"]) == Some(Bool(true))
    ensures Path(r, ["capabilities", "documentRangeFormattingProvider"]) == Some(Bool(false))
  {
    Obj(map["capabilities" := Obj(map[
      "textDocumentSync" := Number(2),
      "hoverProvider" := Bool(true),
      "completionProvider" := Obj(map[
        "resolveProvider" := Bool(true),
        "triggerCharacters" := Arr([Str("."), Str(":"), Str("->")])]),
      "definitionProvider" := Bool(true),
      "referencesProvider" := Bool(true),
      "documentHighlightProvider" := Bool(true),
      "documentSymbolProvider" := Bool(true),
      "workspaceSymbolProvider" := Bool(true),
      "codeActionProvider" := Bool(true),
      "documentFormattingProvider" := Bool(true),
      "documentRangeFormattingProvider" := Bool(false),
      "renameProvider" := Bool(true),
      "executeCommandProvider" := Obj(map["commands" := Arr([])])])])
  }

  /** Response::response: a result for a request, echoing its id; nothing for a notification. */
  function Answer(msg: InputMsg, result: Value): (r: Option<Response>)
    ensures r.Some? <==> msg.Rpc?
    ensures r.Some? ==> r.value.Response? && r.value.jsonrpc == Version
    ensures r.Some? ==> r.value.id == msg.id && r.value.result == result
  {
    match msg
    case Rpc(_, id, _, _) => Some(Response.Response(Version, id, result))
    case Notification(_) => None
  }

  /** Response::unimplemented: "Method not found" for a request, echoing its id; nothing for a notification. */
  function Unimplemented(msg: InputMsg): (r: Option<Response>)
    ensures r.Some? <==> msg.Rpc?
    ensures r.Some? ==> r.value.Error? && r.value.jsonrpc == Version
    ensures r.Some? ==> r.value.id == msg.id && r.value.error == MethodNotFound
  {
    match msg
    case Rpc(_, id, _, _) => Some(Error(Version, id, MethodNotFound))
    case Notification(_) => None
  }

  /**
   * InputMsg::response. Only "initialize" is handled; every other method is
   * unimplemented. A request is always answered, with its own id and version
   * "2.0"; a notification never is, whatever its method; the server never
   * sends a notification of its own.
   */
  function Respond(msg: InputMsg): (r: Option<Response>)
    ensures r.None? <==> msg.Notification?
    ensures r.Some? ==> !r.value.Notification? && r.value.jsonrpc == Version && r.value.id == msg.id
    ensures r.Some? ==> (r.value.Response? <==> Method(msg) == "initialize")
    ensures r.Some? && r.value.Response? ==> r.value.result == InitializeResult()
    ensures r.Some? && r.value.Error? ==> r.value.error == MethodNotFound
  {
    match Method(msg)
    case "initialize" => Answer(msg, InitializeResult())
    case _ => Unimplemented(msg)
  }

  /** The response depends on the method name, the kind of message and the id only: not on params, nor on jsonrpc. */
  lemma RespondDependsOnMethodAndId(a: InputMsg, b: InputMsg)
    requires a.Rpc? == b.Rpc? && (a.Rpc? ==> a.id == b.id)
    requires Method(a) == Method(b)
    ensures Respond(a) == Respond(b)
  {
  }
}
