/** The values that travel between the client and the bridge worker process:
    the command it writes, the responses it reads, and what a line of the
    worker's output decodes to. */
module Envelopes {
  import opened Wrappers

  /** The `data` member of a response and the values of a command's parameters:
      a JSON value the client carries but never interprets. A number keeps its
      literal text. */
  datatype JsonValue =
    | JNull
    | JBool(b: bool)
    | JNumber(literal: string)
    | JString(s: string)
    | JArray(items: seq<JsonValue>)
    | JObject(members: seq<(string, JsonValue)>)

  /** The anonymous command object that SendCommand serialises. */
  datatype Command = Command(transactionId: string, command: string, params: map<string, JsonValue>)

  /** CommandResponse. Every string member may be absent from the JSON, in
      which case the deserialiser leaves it null. */
  datatype Response = Response(
    transactionId: Option<string>,
    status: Option<string>,
    responseType: Option<string>,
    isPromise: bool,
    data: JsonValue)

  /** What `JsonSerializer.Deserialize<CommandResponse>` makes of one line:
      it throws on text that is not JSON of the right shape, returns null for
      the literal `null`, and otherwise returns a response. */
  datatype Line = Malformed | NullLiteral | Decoded(response: Response)

  /** One invocation of the client's public events, in the order raised. */
  datatype ClientEvent =
    | NotificationReceived(notification: Response)
    | ResponseReceived(response: Response)
}
