/**
 * One turn of main's loop (src/main.rs:143-170): read a frame, deserialise
 * its body as an InputMsg, take the delay for it, and write the response as
 * a frame of its own, if there is one.
 */
module Session {
  import opened Wrappers
  import opened Json
  import opened Messages
  import opened Dispatch
  import opened Framing

  /** What one turn of the loop does when it does not panic. */
  datatype Turn =
    | Dropped                                                  // the body is not an InputMsg: logged and skipped
    | Handled(msg: InputMsg, delayMs: nat, output: seq<byte>)  // slept delayMs, then wrote output

  /** The bytes written for `msg`: the response as a frame, or nothing if there is no response. */
  function Reply(msg: InputMsg, serialize: Value -> seq<byte>): (out: seq<byte>)
    ensures out == [] <==> msg.Notification?
    ensures msg.Rpc? ==> out == WriteFrame(serialize(EncodeResponse(Respond(msg).value)))
  {
    match Respond(msg)
    case None => []
    case Some(response) => WriteFrame(serialize(EncodeResponse(response)))
  }

  /**
   * What the loop does with a body it has read. `parse` stands for
   * serde_json's reading of a JSON text (None on a syntax error) and
   * `serialize` for serde_json::to_vec.
   */
  function HandleBody(body: seq<byte>, parse: seq<byte> -> Option<Value>, serialize: Value -> seq<byte>): (t: Turn)
    ensures t.Handled? <==> parse(body).Some? && DecodeInput(parse(body).value).Ok?
    ensures t.Handled? ==> DecodeInput(parse(body).value) == Ok(t.msg)
    ensures t.Handled? ==> t.delayMs == Time(t.msg) && t.output == Reply(t.msg, serialize)
    ensures t.Handled? ==> t.delayMs <= 400 && (t.output == [] <==> t.msg.Notification?)
    ensures t.Handled? && t.msg.Rpc? ==>
      && Respond(t.msg).Some? && !Respond(t.msg).value.Notification? && Respond(t.msg).value.id == t.msg.id
      && t.output == WriteFrame(serialize(EncodeResponse(Respond(t.msg).value)))
  {
    match parse(body)
    case None => Dropped
    case Some(v) =>
      match DecodeInput(v)
      case Err(_) => Dropped
      case Ok(msg) => Handled(msg, Time(msg), Reply(msg, serialize))
  }

  /**
   * One turn on the bytes left in standard input. A framing error is the
   * panic that ends the loop; nothing is written then.
   */
  function ServeFrame(stream: seq<byte>, parse: seq<byte> -> Option<Value>, serialize: Value -> seq<byte>): (r: Result<Turn, FrameError>)
    ensures r.Err? <==> ReadFrame(stream).Err?
    ensures r.Err? ==> r.error == ReadFrame(stream).error
    ensures r.Ok? ==> r.value == HandleBody(ReadFrame(stream).value, parse, serialize)
    ensures r.Ok? && r.value.Handled? ==> r.value.delayMs <= 400 && (r.value.output == [] <==> r.value.msg.Notification?)
    ensures r.Ok? && r.value.Handled? && r.value.msg.Rpc? ==>
      && Respond(r.value.msg).Some? && !Respond(r.value.msg).value.Notification?
      && Respond(r.value.msg).value.id == r.value.msg.id
      && r.value.output == WriteFrame(serialize(EncodeResponse(Respond(r.value.msg).value)))
  {
    match ReadFrame(stream)
    case Err(e) => Err(e)
    case Ok(body) => Ok(HandleBody(body, parse, serialize))
  }

  /**
   * A request is answered with one frame whose body is the serialised
   * response, and that response carries the request's id; the frame reads
   * back to exactly that body.
   */
  lemma RequestAnswered(body: seq<byte>, more: seq<byte>, parse: seq<byte> -> Option<Value>, serialize: Value -> seq<byte>, v: Value)
    requires |body| <= U64Max
    requires parse(body) == Some(v) && DecodeInput(v).Ok? && DecodeInput(v).value.Rpc?
    requires |serialize(EncodeResponse(Respond(DecodeInput(v).value).value))| <= U64Max
    ensures ServeFrame(WriteFrame(body) + more, parse, serialize).Ok?
    ensures var turn := ServeFrame(WriteFrame(body) + more, parse, serialize).value;
      && turn.Handled? && turn.msg == DecodeInput(v).value
      && Respond(turn.msg).value.id == turn.msg.id
      && ReadFrame(turn.output) == Ok(serialize(EncodeResponse(Respond(turn.msg).value)))
  {
    ReadFrameRoundTrip(body, more);
    var msg := DecodeInput(v).value;
    var payload := serialize(EncodeResponse(Respond(msg).value));
    ReadFrameRoundTrip(payload, []);
    assert WriteFrame(payload) + [] == WriteFrame(payload);
  }

  /**
   * The "initialize" scenario: a request for "initialize" with id X is
   * answered after 100 ms by a result with id X and the capabilities document.
   */
  lemma InitializeScenario(body: seq<byte>, more: seq<byte>, parse: seq<byte> -> Option<Value>, serialize: Value -> seq<byte>, id: Value)
    requires |body| <= U64Max
    requires parse(body) == Some(Obj(map["jsonrpc" := Str("2.0"), "id" := id, "method" := Str("initialize"), "params" := Obj(map[])]))
    ensures ServeFrame(WriteFrame(body) + more, parse, serialize) ==
      Ok(Handled(Rpc("2.0", id, "initialize", Obj(map[])), 100,
                 WriteFrame(serialize(EncodeResponse(Response.Response("2.0", id, InitializeResult()))))))
  {
    var m := map["jsonrpc" := Str("2.0"), "id" := id, "method" := Str("initialize"), "params" := Obj(map[])];
    var msg := Rpc("2.0", id, "initialize", Obj(map[]));
    assert HasEnvelope(m) && "id" in m;
    DecodeObject(m);
    assert Respond(msg) == Some(Response.Response("2.0", id, InitializeResult()));
    assert HandleBody(body, parse, serialize) == Handled(msg, 100, Reply(msg, serialize));
    ReadFrameRoundTrip(body, more);
  }

  /**
   * Any other method named in a request is answered with "Method not found";
   * a notification is never answered, whatever its method.
   */
  lemma OtherMethodsScenario(body: seq<byte>, more: seq<byte>, parse: seq<byte> -> Option<Value>, serialize: Value -> seq<byte>, v: Value)
    requires |body| <= U64Max
    requires parse(body) == Some(v) && DecodeInput(v).Ok?
    ensures var msg := DecodeInput(v).value;
      && (msg.Rpc? && msg.methodName != "initialize" ==>
            ServeFrame(WriteFrame(body) + more, parse, serialize) ==
              Ok(Handled(msg, Time(msg), WriteFrame(serialize(EncodeResponse(Error("2.0", msg.id, RpcError(-32601, "Method not found"))))))))
      && (msg.Notification? ==>
            ServeFrame(WriteFrame(body) + more, parse, serialize) == Ok(Handled(msg, Time(msg), [])))
  {
    var msg := DecodeInput(v).value;
    assert HandleBody(body, parse, serialize) == Handled(msg, Time(msg), Reply(msg, serialize));
    if msg.Rpc? && msg.methodName != "initialize" {
      assert Respond(msg) == Some(Error("2.0", msg.id, RpcError(-32601, "Method not found")));
    }
    ReadFrameRoundTrip(body, more);
  }

  /** A body that is not JSON, or JSON that is not an InputMsg, is skipped: the loop goes on and writes nothing. */
  lemma UndecodableDropped(body: seq<byte>, more: seq<byte>, parse: seq<byte> -> Option<Value>, serialize: Value -> seq<byte>)
    requires |body| <= U64Max
    requires parse(body).None? || DecodeInput(parse(body).value).Err?
    ensures ServeFrame(WriteFrame(body) + more, parse, serialize) == Ok(Dropped)
  {
    ReadFrameRoundTrip(body, more);
  }
}
