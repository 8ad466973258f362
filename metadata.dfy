/**
 * The handler metadata the helper reads: the markers (attributes) attached
 * to handler methods and to their arguments, and the types and assembly
 * that hold the methods, as plain values. Every list is in the order
 * reflection enumerates it, an order the runtime does not specify.
 */
module Metadata {
  import opened Outcomes
  import opened OpenApi

  /** The authorisation level of an HTTP trigger. */
  datatype AuthorizationLevel = Anonymous | User | Function | System | Admin

  /** The HTTP trigger marker: declared HTTP methods, optional route template, authorisation level. */
  datatype HttpTriggerMarker = HttpTriggerMarker(authLevel: AuthorizationLevel, methods: seq<string>, route: Option<string>)

  /** The function-name marker: the name the host registers the handler under. */
  datatype FunctionNameMarker = FunctionNameMarker(name: string)

  /** The operation marker: an optional explicit operation id and tag names. */
  datatype OperationMarker = OperationMarker(operationId: Option<string>, tags: seq<string>)

  /** A parameter marker on the handler method. */
  datatype ParameterMarker = ParameterMarker(name: string, location: ParameterLocation, parameterType: BodyType, required: bool)

  /** A request-body marker on the handler method. */
  datatype RequestBodyMarker = RequestBodyMarker(contentType: string, bodyType: BodyType)

  /** A response-body marker on the handler method; `statusCode` is the numeric value of the status. */
  datatype ResponseBodyMarker = ResponseBodyMarker(statusCode: int, contentType: string, bodyType: BodyType)

  /** An argument of a handler method and the trigger marker it may carry. */
  datatype Argument = Argument(name: string, trigger: Option<HttpTriggerMarker>)

  /** A method with the markers attached to it, each list in the order reflection enumerates it. */
  datatype Method = Method(
    name: string,
    functionName: Option<FunctionNameMarker>,
    ignored: bool,
    arguments: seq<Argument>,
    operation: Option<OperationMarker>,
    parameters: seq<ParameterMarker>,
    requestBodies: seq<RequestBodyMarker>,
    responseBodies: seq<ResponseBodyMarker>)

  /** A type of the handler assembly and the public methods reflection lists for it (inherited ones included), in the order listed. */
  datatype HandlerType = HandlerType(name: string, methods: seq<Method>)

  /** A loaded handler assembly: its types, in the order reflection lists them. */
  datatype Assembly = Assembly(types: seq<HandlerType>)
}
