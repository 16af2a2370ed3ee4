/**
 * The JSON-RPC 2.0 messages of the server (src/main.rs:15-42, 77-87) and what
 * serde derives for them: serialisation of each type to a JSON value, and
 * deserialisation by serde's untagged-enum rule, which tries the variants in
 * declaration order and takes the first that fits.
 */
module Messages {
  import opened Wrappers
  import opened Json

  /** Rust's i32. */
  type i32 = x: int | -0x8000_0000 <= x < 0x8000_0000

  /** ver(): the protocol version every response carries. */
  const Version: string := "2.0"

  datatype Notification = Notification(jsonrpc: string, methodName: string, params: Value)

  datatype RpcError = RpcError(code: i32, message: string)

  /** An outbound message; untagged, so no variant name appears on the wire. */
  datatype Response =
    | Response(jsonrpc: string, id: Value, result: Value)
    | Error(jsonrpc: string, id: Value, error: RpcError)
    | Notification(notification: Notification)

  /** An inbound message: a request (`Rpc`, it has an id) or a notification. */
  datatype InputMsg =
    | Rpc(jsonrpc: string, id: Value, methodName: string, params: Value)
    | Notification(notification: Notification)

  /** An untagged enum fails with the one error "data did not match any variant". */
  datatype DecodeError = NoVariantMatched

  // The serialised field names of each struct, in declaration order.
  const RpcFields: seq<string> := ["jsonrpc", "id", "method", "params"]
  const NotificationFields: seq<string> := ["jsonrpc", "method", "params"]
  const ResponseFields: seq<string> := ["jsonrpc", "id", "result"]
  const ErrorFields: seq<string> := ["jsonrpc", "id", "error"]
  const RpcErrorFields: seq<string> := ["code", "message"]

  /**
   * The values of a derived struct's fields, in declaration order, as serde's
   * derived visitor collects them: from an object by name, other members being
   * ignored and a missing one failing (a field of type Value included); or,
   * when the visitor is `positional`, from an array holding exactly one element
   * per field. A plain struct's visitor is positional; the visitor serde
   * derives for a struct variant of an untagged enum is not, so such a variant
   * never decodes from an array.
   */
  function StructFields(v: Value, names: seq<string>, positional: bool): (r: Option<seq<Value>>)
    ensures r.Some? ==> |r.value| == |names|
    ensures r.Some? ==> v.Obj? || (positional && v.Arr? && r.value == v.items)
    ensures v.Obj? ==> (r.Some? <==> forall i :: 0 <= i < |names| ==> names[i] in v.fields)
  {
    match v
    case Obj(m) =>
      if forall i :: 0 <= i < |names| ==> names[i] in m
      then Some(seq(|names|, i requires 0 <= i < |names| => m[names[i]]))
      else None
    case Arr(items) => if positional && |items| == |names| then Some(items) else None
    case _ => None
  }

  /** A field of type i32 takes an integer in range and nothing else. */
  function AsI32(v: Value): Option<i32> {
    if v.Number? && -0x8000_0000 <= v.n < 0x8000_0000 then Some(v.n) else None
  }

  // ---------------------------------------------------------------- inbound

  /** The `Rpc` struct variant: string jsonrpc, any id, string method, any params; from an object only. */
  function DecodeRpc(v: Value): Option<InputMsg> {
    match StructFields(v, RpcFields, false)
    case Some(f) => if f[0].Str? && f[2].Str? then Some(Rpc(f[0].s, f[1], f[2].s, f[3])) else None
    case None => None
  }

  /** The struct `Notification`: string jsonrpc, string method, any params. */
  function DecodeNotification(v: Value): Option<Notification> {
    match StructFields(v, NotificationFields, true)
    case Some(f) => if f[0].Str? && f[1].Str? then Some(Notification.Notification(f[0].s, f[1].s, f[2])) else None
    case None => None
  }

  /** Deserialising an InputMsg: `Rpc` is tried first, then `Notification`. */
  function DecodeInput(v: Value): (r: Result<InputMsg, DecodeError>)
    ensures r.Ok? ==> v.Obj? || v.Arr?
    ensures r.Ok? && v.Obj? ==> "jsonrpc" in v.fields && "method" in v.fields && "params" in v.fields
    ensures r.Ok? && v.Obj? ==> (r.value.Rpc? <==> "id" in v.fields)
    ensures r.Ok? && v.Arr? ==> r.value.Notification?
  {
    match DecodeRpc(v)
    case Some(msg) => Ok(msg)
    case None =>
      match DecodeNotification(v)
      case Some(n) => Ok(InputMsg.Notification(n))
      case None => Err(NoVariantMatched)
  }

  function EncodeNotification(n: Notification): Value {
    Obj(map["jsonrpc" := Str(n.jsonrpc), "method" := Str(n.methodName), "params" := n.params])
  }

  /** Serialising an InputMsg: the fields of the variant, without a tag. */
  function EncodeInput(msg: InputMsg): Value {
    match msg
    case Rpc(jsonrpc, id, name, params) =>
      Obj(map["jsonrpc" := Str(jsonrpc), "id" := id, "method" := Str(name), "params" := params])
    case Notification(n) => EncodeNotification(n)
  }

  /** What both InputMsg variants demand of an object: a string jsonrpc, a string method and some params. */
  predicate HasEnvelope(m: map<string, Value>) {
    && "jsonrpc" in m && m["jsonrpc"].Str?
    && "method" in m && m["method"].Str?
    && "params" in m
  }

  /** The members of `m` whose names are in `keys`. */
  function Restrict(m: map<string, Value>, keys: set<string>): (r: map<string, Value>)
    ensures r.Keys == m.Keys * keys
    ensures forall k :: k in r ==> r[k] == m[k]
  {
    map k | k in m && k in keys :: m[k]
  }

  /**
   * The untagged rule on an object: it decodes exactly when it has the
   * envelope; it is then an `Rpc` exactly when it has an "id" member (a null
   * one included), and the fields are copied from the members. The value of
   * "jsonrpc" is not checked.
   */
  lemma DecodeObject(m: map<string, Value>)
    ensures DecodeInput(Obj(m)).Ok? <==> HasEnvelope(m)
    ensures HasEnvelope(m) && "id" in m ==>
      DecodeInput(Obj(m)) == Ok(Rpc(m["jsonrpc"].s, m["id"], m["method"].s, m["params"]))
    ensures HasEnvelope(m) && "id" !in m ==>
      DecodeInput(Obj(m)) == Ok(InputMsg.Notification(Notification.Notification(m["jsonrpc"].s, m["method"].s, m["params"])))
  {
  }

  /** Members other than jsonrpc, id, method and params do not affect decoding. */
  lemma DecodeIgnoresExtraMembers(m: map<string, Value>, m': map<string, Value>)
    requires Restrict(m, set k | k in RpcFields) == Restrict(m', set k | k in RpcFields)
    ensures DecodeInput(Obj(m)) == DecodeInput(Obj(m'))
  {
    var keys := set k | k in RpcFields;
    forall k | k in RpcFields
      ensures (k in m <==> k in m') && (k in m ==> m[k] == m'[k])
    {
      assert k in keys;
      assert k in m ==> k in Restrict(m, keys);
      assert k in m' ==> k in Restrict(m', keys);
    }
    DecodeObject(m);
    DecodeObject(m');
  }

  /**
   * The positional form: only the newtype variant `Notification` reaches a
   * positional visitor, so an array decodes exactly when it has three elements
   * with strings first and second, and it is then a notification. An array
   * is never an `Rpc`, whatever its length.
   */
  lemma DecodeArray(items: seq<Value>)
    ensures DecodeInput(Arr(items)).Ok? <==> |items| == 3 && items[0].Str? && items[1].Str?
    ensures DecodeInput(Arr(items)).Ok? ==>
      DecodeInput(Arr(items)) == Ok(InputMsg.Notification(Notification.Notification(items[0].s, items[1].s, items[2])))
  {
  }

  /** Deserialising undoes serialising. */
  lemma DecodeEncodeInput(msg: InputMsg)
    ensures DecodeInput(EncodeInput(msg)) == Ok(msg)
  {
  }

  /** Serialising a decoded object gives back the object without its extra members. */
  lemma EncodeDecodeInput(m: map<string, Value>)
    requires DecodeInput(Obj(m)).Ok?
    ensures DecodeInput(Obj(m)).value.Rpc? ==> EncodeInput(DecodeInput(Obj(m)).value) == Obj(Restrict(m, set k | k in RpcFields))
    ensures DecodeInput(Obj(m)).value.Notification? ==> EncodeInput(DecodeInput(Obj(m)).value) == Obj(Restrict(m, set k | k in NotificationFields))
  {
  }

  // --------------------------------------------------------------- outbound

  function EncodeRpcError(e: RpcError): Value {
    Obj(map["code" := Number(e.code), "message" := Str(e.message)])
  }

  /** Serialising a Response: the fields of the variant, without a tag. */
  function EncodeResponse(r: Response): (e: Value)
    ensures e.Obj? && "jsonrpc" in e.fields
    ensures ("id" in e.fields <==> !r.Notification?) && ("method" in e.fields <==> r.Notification?)
    ensures ("result" in e.fields <==> r.Response?) && ("error" in e.fields <==> r.Error?)
    ensures !r.Notification? ==> e.fields["id"] == r.id && e.fields["jsonrpc"] == Str(r.jsonrpc)
  {
    match r
    case Response(jsonrpc, id, result) => Obj(map["jsonrpc" := Str(jsonrpc), "id" := id, "result" := result])
    case Error(jsonrpc, id, error) => Obj(map["jsonrpc" := Str(jsonrpc), "id" := id, "error" := EncodeRpcError(error)])
    case Notification(n) => EncodeNotification(n)
  }

  function DecodeRpcError(v: Value): Option<RpcError> {
    match StructFields(v, RpcErrorFields, true)
    case Some(f) => if AsI32(f[0]).Some? && f[1].Str? then Some(RpcError(AsI32(f[0]).value, f[1].s)) else None
    case None => None
  }

  /** The `Response` struct variant: string jsonrpc, any id, any result; from an object only. */
  function DecodeResultVariant(v: Value): Option<Response> {
    match StructFields(v, ResponseFields, false)
    case Some(f) => if f[0].Str? then Some(Response.Response(f[0].s, f[1], f[2])) else None
    case None => None
  }

  /** The `Error` struct variant: string jsonrpc, any id, an RpcError; from an object only. */
  function DecodeErrorVariant(v: Value): Option<Response> {
    match StructFields(v, ErrorFields, false)
    case Some(f) =>
      if f[0].Str? && DecodeRpcError(f[2]).Some? then Some(Error(f[0].s, f[1], DecodeRpcError(f[2]).value)) else None
    case None => None
  }

  /** Deserialising a Response: `Response`, then `Error`, then `Notification`. */
  function DecodeResponse(v: Value): Result<Response, DecodeError> {
    match DecodeResultVariant(v)
    case Some(r) => Ok(r)
    case None =>
      match DecodeErrorVariant(v)
      case Some(r) => Ok(r)
      case None =>
        match DecodeNotification(v)
        case Some(n) => Ok(Response.Notification(n))
        case None => Err(NoVariantMatched)
  }

  /** Deserialising undoes serialising, for every variant: none is mistaken for an earlier one. */
  lemma DecodeEncodeResponse(r: Response)
    ensures DecodeResponse(EncodeResponse(r)) == Ok(r)
  {
  }
}
