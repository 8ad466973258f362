/**
 * The parts of the OpenAPI document object model that the helper builds:
 * operation types, parameters, media types, request bodies, responses,
 * operations, path items, schemas and security schemes.
 */
module OpenApi {
  import opened Outcomes
  import opened Text

  /** The eight operation types of an OpenAPI path item, in declaration order. */
  datatype OperationType = Get | Put | Post | Delete | Options | Head | Patch | Trace

  /** The member name of each operation type, as `ToString()` renders it. */
  function OperationTypeName(v: OperationType): string {
    match v
    case Get => "Get"
    case Put => "Put"
    case Post => "Post"
    case Delete => "Delete"
    case Options => "Options"
    case Head => "Head"
    case Patch => "Patch"
    case Trace => "Trace"
  }

  /** The operation types in declaration order, the order in which parsing tries their names. */
  const OperationTypes: seq<OperationType> := [Get, Put, Post, Delete, Options, Head, Patch, Trace]

  /** The first candidate whose name equals `s` ignoring case. */
  function FindByName(s: string, candidates: seq<OperationType>): (r: Option<OperationType>)
    ensures r.Some? ==> r.value in candidates && EqualsIgnoreCase(s, OperationTypeName(r.value))
    ensures r.None? <==> forall v :: v in candidates ==> !EqualsIgnoreCase(s, OperationTypeName(v))
  {
    if candidates == [] then None
    else if EqualsIgnoreCase(s, OperationTypeName(candidates[0])) then Some(candidates[0])
    else FindByName(s, candidates[1..])
  }

  /**
   * `Enum.TryParse<OperationType>(s, ignoreCase: true)` on a member name:
   * the operation type whose name equals `s` ignoring case, or `None`.
   */
  function TryParseOperationType(s: string): (r: Option<OperationType>)
    ensures r.Some? ==> EqualsIgnoreCase(s, OperationTypeName(r.value))
    ensures r.None? <==> forall v :: !EqualsIgnoreCase(s, OperationTypeName(v))
  {
    FindByName(s, OperationTypes)
  }

  /** Any two names differ in length or in their first letter, even ignoring case. */
  lemma OperationTypeNamesDiffer(v: OperationType, w: OperationType)
    requires v != w
    ensures var a := OperationTypeName(v);
            var b := OperationTypeName(w);
            |a| != |b| || ToLower(a[0]) != ToLower(b[0])
  {
  }

  /** No two operation types have names that are equal up to case. */
  lemma OperationTypeNamesDistinct(v: OperationType, w: OperationType)
    ensures EqualsIgnoreCase(OperationTypeName(v), OperationTypeName(w)) <==> v == w
  {
    if v != w {
      OperationTypeNamesDiffer(v, w);
      var a := OperationTypeName(v);
      var b := OperationTypeName(w);
      assert |Lower(a)| == |a| && |Lower(b)| == |b|;
      assert Lower(a)[0] == ToLower(a[0]) && Lower(b)[0] == ToLower(b[0]);
    }
  }

  /** Among candidates, the search finds `v` exactly when `v` is a candidate and `s` is its name up to case. */
  lemma {:induction false} FindByNameCorrect(s: string, candidates: seq<OperationType>, v: OperationType)
    ensures FindByName(s, candidates) == Some(v) <==> v in candidates && EqualsIgnoreCase(s, OperationTypeName(v))
  {
    if candidates != [] {
      var w := candidates[0];
      if EqualsIgnoreCase(s, OperationTypeName(w)) {
        if v != w {
          OperationTypeNamesDistinct(v, w);
        }
      } else {
        FindByNameCorrect(s, candidates[1..], v);
        assert v in candidates <==> v == w || v in candidates[1..];
      }
    }
  }

  /** Parsing succeeds with `v` exactly when the string is `v`'s name up to case. */
  lemma TryParseOperationTypeCorrect(s: string, v: OperationType)
    ensures TryParseOperationType(s) == Some(v) <==> EqualsIgnoreCase(s, OperationTypeName(v))
  {
    FindByNameCorrect(s, OperationTypes, v);
  }

  /** Parsing fails exactly when the string names no operation type. */
  lemma TryParseOperationTypeFails(s: string)
    ensures TryParseOperationType(s).None? <==> forall v :: !EqualsIgnoreCase(s, OperationTypeName(v))
  {
    match TryParseOperationType(s)
    case Some(w) =>
      TryParseOperationTypeCorrect(s, w);
    case None =>
      forall v ensures !EqualsIgnoreCase(s, OperationTypeName(v)) {
        TryParseOperationTypeCorrect(s, v);
      }
  }

  /** Where a parameter is carried. */
  datatype ParameterLocation = Query | Header | Path | Cookie

  /**
   * A body type, given by its full name and its simple name. A runtime type
   * determines both, so two body types are the same type exactly when both
   * names agree.
   */
  datatype BodyType = BodyType(qualifiedName: string, name: string)

  /** `System.String`, the type of the function-key parameter. */
  const StringType := BodyType("System.String", "String")

  /** The schema derived from a body type. */
  datatype Schema = Schema(source: BodyType)

  datatype Parameter = Parameter(name: string, location: ParameterLocation, required: bool, schema: Schema)

  datatype MediaType = MediaType(schema: Schema)

  datatype RequestBody = RequestBody(content: map<string, MediaType>)

  datatype Response = Response(content: map<string, MediaType>)

  datatype Tag = Tag(name: string)

  /** An operation; the helper fills in its id and tags, the rest is added by its caller. */
  datatype Operation = Operation(
    operationId: string,
    tags: seq<Tag>,
    parameters: seq<Parameter>,
    requestBody: Option<RequestBody>,
    responses: map<string, Response>)

  /** The operations registered under one path, keyed by operation type. */
  datatype PathItem = PathItem(operations: map<OperationType, Operation>)

  /** A path item with no operations yet. */
  const EmptyPathItem := PathItem(map[])

  /** The document's path table. */
  type Paths = map<string, PathItem>

  datatype SecuritySchemeType = ApiKey | Http | OAuth2 | OpenIdConnect

  datatype SecurityScheme = SecurityScheme(name: string, schemeType: SecuritySchemeType, location: ParameterLocation)
}
