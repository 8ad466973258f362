/**
 * The conversions from markers to document objects that the helper calls
 * and whose code is not part of this model. Each one builds the document
 * object from the data its marker carries and nothing else.
 */
module Extensions {
  import opened Outcomes
  import opened OpenApi
  import opened Metadata

  /** The schema generated for a body type. */
  function ToOpenApiSchema(t: BodyType): Schema {
    Schema(t)
  }

  /** The document parameter described by a parameter marker. */
  function ToOpenApiParameter(p: ParameterMarker): Parameter {
    Parameter(p.name, p.location, p.required, ToOpenApiSchema(p.parameterType))
  }

  /** The media type described by a request-body marker. */
  function ToOpenApiMediaType(b: RequestBodyMarker): MediaType {
    MediaType(ToOpenApiSchema(b.bodyType))
  }

  /** The response described by a response-body marker: one content entry for its content type. */
  function ToOpenApiResponse(b: ResponseBodyMarker): Response {
    Response(map[b.contentType := MediaType(ToOpenApiSchema(b.bodyType))])
  }

  /** Appends one string-typed parameter with the given name, location and required flag. */
  function AddOpenApiParameter(parameters: seq<Parameter>, name: string, location: ParameterLocation, required: bool): (r: seq<Parameter>)
    ensures |r| == |parameters| + 1 && r[..|parameters|] == parameters
    ensures r[|parameters|] == Parameter(name, location, required, ToOpenApiSchema(StringType))
  {
    parameters + [Parameter(name, location, required, ToOpenApiSchema(StringType))]
  }
}
