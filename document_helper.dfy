/**
 * The document helper: discovers the HTTP-triggered handlers of an
 * assembly and turns their markers into the pieces of an OpenAPI document
 * (endpoint, operation type, operation, parameters, request body,
 * responses, schema table and security-scheme table).
 */
module DocumentHelper {
  import opened Outcomes
  import opened Linq
  import opened Text
  import opened OpenApi
  import opened Metadata
  import opened Extensions

  // ---------------------------------------------------------------------
  // Handler discovery
  // ---------------------------------------------------------------------

  predicate HasFunctionName(m: Method) {
    m.functionName.Some?
  }

  predicate IsNotIgnored(m: Method) {
    !m.ignored
  }

  predicate HasHttpTriggerArgument(m: Method) {
    exists i :: 0 <= i < |m.arguments| && m.arguments[i].trigger.Some?
  }

  /** The three eligibility conditions together. */
  predicate IsHttpTriggerMethod(m: Method) {
    HasFunctionName(m) && IsNotIgnored(m) && HasHttpTriggerArgument(m)
  }

  function MethodsOf(t: HandlerType): seq<Method> {
    t.methods
  }

  /** Every method of every type of the assembly, types in order, methods in order. */
  function AllMethods(assembly: Assembly): seq<Method> {
    SelectMany(assembly.types, MethodsOf)
  }

  /**
   * The methods that carry a function name, are not ignored and have an
   * argument with an HTTP trigger, in the order they are declared.
   */
  function GetHttpTriggerMethods(assembly: Assembly): (r: seq<Method>)
    ensures r == Where(AllMethods(assembly), IsHttpTriggerMethod)
    ensures forall m :: m in r <==>
              (exists i :: 0 <= i < |assembly.types| && m in assembly.types[i].methods) && IsHttpTriggerMethod(m)
  {
    var all := SelectMany(assembly.types, MethodsOf);
    var named := Where(all, HasFunctionName);
    var kept := Where(named, IsNotIgnored);
    WhereWhere(all, HasFunctionName, IsNotIgnored, (m: Method) => HasFunctionName(m) && IsNotIgnored(m));
    WhereWhere(all, (m: Method) => HasFunctionName(m) && IsNotIgnored(m), HasHttpTriggerArgument, IsHttpTriggerMethod);
    Where(kept, HasHttpTriggerArgument)
  }

  /** Discovery keeps the declaration order across types: the result for `a + b` is the result for `a`, then for `b`. */
  lemma DiscoveryPreservesOrder(a: seq<HandlerType>, b: seq<HandlerType>)
    ensures GetHttpTriggerMethods(Assembly(a + b)) == GetHttpTriggerMethods(Assembly(a)) + GetHttpTriggerMethods(Assembly(b))
  {
    SelectManyAppend(a, b, MethodsOf);
    WhereAppend(AllMethods(Assembly(a)), AllMethods(Assembly(b)), IsHttpTriggerMethod);
  }

  /** Within one type, discovery keeps exactly the eligible methods in their order. */
  lemma DiscoveryOfOneType(t: HandlerType)
    ensures GetHttpTriggerMethods(Assembly([t])) == Where(t.methods, IsHttpTriggerMethod)
  {
    assert SelectMany([t], MethodsOf) == t.methods + SelectMany([t][1..], MethodsOf);
    assert t.methods + [] == t.methods;
  }

  // ---------------------------------------------------------------------
  // Trigger and name resolution
  // ---------------------------------------------------------------------

  /** The trigger marker of the first argument that carries one. */
  function FirstTrigger(arguments: seq<Argument>): (r: Result<HttpTriggerMarker>)
    ensures r.Ok? <==> exists i :: 0 <= i < |arguments| && arguments[i].trigger.Some?
    ensures r.Err? ==> r.error == MissingHttpTrigger
    ensures r.Ok? ==> exists i :: 0 <= i < |arguments| && arguments[i].trigger == Some(r.value)
                                  && forall j :: 0 <= j < i ==> arguments[j].trigger.None?
  {
    if arguments == [] then Err(MissingHttpTrigger)
    else if arguments[0].trigger.Some? then Ok(arguments[0].trigger.value)
    else
      var r := FirstTrigger(arguments[1..]);
      assert forall i :: 1 <= i < |arguments| ==> arguments[i] == arguments[1..][i - 1];
      if r.Ok? then
        var k :| 0 <= k < |arguments[1..]| && arguments[1..][k].trigger == Some(r.value)
                 && forall j :: 0 <= j < k ==> arguments[1..][j].trigger.None?;
        assert arguments[k + 1].trigger == Some(r.value);
        r
      else r
  }

  /** The HTTP trigger marker of a handler; fails when no argument carries one. */
  function GetHttpTriggerAttribute(m: Method): (r: Result<HttpTriggerMarker>)
    ensures r.Ok? <==> HasHttpTriggerArgument(m)
    ensures r.Err? ==> r.error == MissingHttpTrigger
    ensures r.Ok? ==> exists i :: 0 <= i < |m.arguments| && m.arguments[i].trigger == Some(r.value)
                                  && forall j :: 0 <= j < i ==> m.arguments[j].trigger.None?
  {
    FirstTrigger(m.arguments)
  }

  /** The function-name marker of a handler; fails when it has none. */
  function GetFunctionNameAttribute(m: Method): (r: Result<FunctionNameMarker>)
    ensures r.Ok? <==> HasFunctionName(m)
    ensures r.Err? ==> r.error == MissingFunctionName
    ensures r.Ok? ==> m.functionName == Some(r.value)
  {
    match m.functionName
    case Some(f) => Ok(f)
    case None => Err(MissingFunctionName)
  }

  /** Resolution never fails on a discovered handler. */
  lemma DiscoveredMethodsResolve(assembly: Assembly, m: Method)
    requires m in GetHttpTriggerMethods(assembly)
    ensures GetHttpTriggerAttribute(m).Ok? && GetFunctionNameAttribute(m).Ok?
  {
  }

  // ---------------------------------------------------------------------
  // Endpoint and operation type
  // ---------------------------------------------------------------------

  /**
   * The endpoint of a handler: its route when that is neither null nor
   * whitespace, its function name otherwise, with every leading and
   * trailing `/` removed and one `/` put in front.
   */
  function GetHttpEndpoint(fn: FunctionNameMarker, trigger: HttpTriggerMarker): (r: string)
    ensures |r| > 0 && r[0] == '/'
    ensures r == "/" || (r[1] != '/' && r[|r| - 1] != '/')
    ensures IsNullOrWhiteSpace(trigger.route) ==> r[1..] == Trim(fn.name, '/')
    ensures !IsNullOrWhiteSpace(trigger.route) ==> r[1..] == Trim(trigger.route.value, '/')
  {
    var source := if IsNullOrWhiteSpace(trigger.route) then fn.name else trigger.route.value;
    var r := "/" + Trim(source, '/');
    assert r[1..] == Trim(source, '/');
    r
  }

  /** An endpoint used as the route gives the same endpoint back, whatever the function name. */
  lemma EndpointIdempotent(fn: FunctionNameMarker, other: FunctionNameMarker, trigger: HttpTriggerMarker)
    ensures var e := GetHttpEndpoint(fn, trigger);
            GetHttpEndpoint(other, trigger.(route := Some(e))) == e
  {
    var e := GetHttpEndpoint(fn, trigger);
    assert !IsWhiteSpace(e[0]);
    assert e == [e[0]] + e[1..];
    TrimPrefixed(e[1..], '/');
  }

  /** A route `/foo/bar/` gives `/foo/bar`; the function name is not used. */
  lemma EndpointFromRoute()
    ensures GetHttpEndpoint(FunctionNameMarker("ignored"), HttpTriggerMarker(Function, ["get"], Some("/foo/bar/"))) == "/foo/bar"
  {
    EndpointOfRoute(FunctionNameMarker("ignored"), HttpTriggerMarker(Function, ["get"], Some("/foo/bar/")));
    TrimExampleRoute();
  }

  /** A route whose first character is not whitespace is used, trimmed; the function name is not. */
  lemma EndpointOfRoute(fn: FunctionNameMarker, trigger: HttpTriggerMarker)
    requires trigger.route.Some? && |trigger.route.value| > 0 && !IsWhiteSpace(trigger.route.value[0])
    ensures GetHttpEndpoint(fn, trigger) == "/" + Trim(trigger.route.value, '/')
  {
  }

  /** Trimming `/foo/bar/` by `/` gives `foo/bar`. */
  lemma TrimExampleRoute()
    ensures Trim("/foo/bar/", '/') == "foo/bar"
  {
    var route := "/foo/bar/";
    assert LeadingCount(route[1..], '/') == 0;
    assert LeadingCount(route, '/') == 1;
    assert TrailingCount(route[..8], '/') == 0;
    assert TrailingCount(route, '/') == 1;
    assert route[1..8] == "foo/bar";
  }

  /** A blank route falls back to the function name. */
  lemma EndpointFromFunctionName()
    ensures GetHttpEndpoint(FunctionNameMarker("baz"), HttpTriggerMarker(Function, ["get"], Some("  "))) == "/baz"
  {
    var trigger := HttpTriggerMarker(Function, ["get"], Some("  "));
    assert IsNullOrWhiteSpace(trigger.route);
    TrimUnpadded("baz", '/');
    assert GetHttpEndpoint(FunctionNameMarker("baz"), trigger) == "/" + Trim("baz", '/');
  }

  /**
   * The operation type named by the first declared HTTP method, ignoring
   * case; an empty list or an unknown name fails.
   */
  function GetHttpVerb(trigger: HttpTriggerMarker): (r: Result<OperationType>)
    ensures trigger.methods == [] ==> r == Err(EmptyMethodList)
    ensures forall v :: r == Ok(v) <==> trigger.methods != [] && EqualsIgnoreCase(trigger.methods[0], OperationTypeName(v))
    ensures trigger.methods != [] && r.Err? ==> r.error == UnknownVerb(trigger.methods[0])
  {
    if trigger.methods == [] then Err(EmptyMethodList)
    else
      var first := trigger.methods[0];
      assert forall v :: TryParseOperationType(first) == Some(v) <==> EqualsIgnoreCase(first, OperationTypeName(v)) by {
        forall v ensures TryParseOperationType(first) == Some(v) <==> EqualsIgnoreCase(first, OperationTypeName(v)) {
          TryParseOperationTypeCorrect(first, v);
        }
      }
      match TryParseOperationType(first)
      case Some(v) => Ok(v)
      case None => Err(UnknownVerb(first))
  }

  /** Only the first declared method is consulted. */
  lemma OnlyFirstMethodConsulted(trigger: HttpTriggerMarker, rest: seq<string>)
    requires trigger.methods != []
    ensures GetHttpVerb(trigger.(methods := [trigger.methods[0]] + rest)) == GetHttpVerb(trigger)
  {
  }

  /** `["get", "POST"]` gives `Get`: the first entry decides, whatever its case. */
  lemma GetHttpVerbFirstEntry()
    ensures GetHttpVerb(HttpTriggerMarker(Function, ["get", "POST"], None)) == Ok(Get)
  {
    var s, n := "get", OperationTypeName(Get);
    assert Lower(s) == Lower(n) by {
      forall k | 0 <= k < 3 ensures Lower(s)[k] == Lower(n)[k] {
      }
    }
    TryParseOperationTypeCorrect(s, Get);
  }

  /** `bogus` is not the name of `v`, whatever the case. */
  lemma NotAnOperationTypeName(v: OperationType)
    ensures !EqualsIgnoreCase("bogus", OperationTypeName(v))
  {
    var s := "bogus";
    var n := OperationTypeName(v);
    assert |Lower(s)| == 5 && |Lower(n)| == |n|;
    assert Lower(s)[0] == ToLower(s[0]) == 'b';
    assert Lower(n)[0] == ToLower(n[0]);
  }

  /** `["bogus"]` fails with the unknown name. */
  lemma GetHttpVerbUnknown()
    ensures GetHttpVerb(HttpTriggerMarker(Function, ["bogus"], None)) == Err(UnknownVerb("bogus"))
  {
    var s := "bogus";
    forall v ensures !EqualsIgnoreCase(s, OperationTypeName(v)) {
      NotAnOperationTypeName(v);
    }
    TryParseOperationTypeFails(s);
  }

  // ---------------------------------------------------------------------
  // Path item and operation
  // ---------------------------------------------------------------------

  /** The path item stored under `path`, or a fresh empty one; the table is only read. */
  function GetOpenApiPath(path: string, paths: Paths): (r: PathItem)
    ensures path in paths ==> r == paths[path]
    ensures path !in paths ==> r.operations == map[]
  {
    if path in paths then paths[path] else EmptyPathItem
  }

  /**
   * Registering an operation on the item looked up for a path keeps every
   * operation already stored under that path for another operation type,
   * and leaves every other path as it was.
   */
  lemma LookupOrCreateMerges(path: string, paths: Paths, verb: OperationType, operation: Operation)
    ensures var item := GetOpenApiPath(path, paths);
            var updated := paths[path := PathItem(item.operations[verb := operation])];
            && updated[path].operations[verb] == operation
            && (path in paths ==> forall w :: w in paths[path].operations && w != verb ==>
                  w in updated[path].operations && updated[path].operations[w] == paths[path].operations[w])
            && (path !in paths ==> updated[path].operations.Keys == {verb})
            && forall p :: p in paths && p != path ==> p in updated && updated[p] == paths[p]
  {
  }

  /** The id used when the operation marker gives none: function name, `_`, operation type name. */
  function FallbackOperationId(name: string, verb: OperationType): (r: string)
    ensures |r| == |name| + 1 + |OperationTypeName(verb)|
    ensures r[..|name|] == name && r[|name|] == '_' && r[|name| + 1..] == OperationTypeName(verb)
  {
    name + ("_" + OperationTypeName(verb))
  }

  /**
   * The operation of a handler: the explicit id when it is neither null nor
   * whitespace, the fallback id otherwise, and one tag per tag name, in
   * order. Fails when the handler has no operation marker.
   */
  function GetOpenApiOperation(m: Method, fn: FunctionNameMarker, verb: OperationType): (r: Result<Operation>)
    ensures r.Err? <==> m.operation.None?
    ensures r.Err? ==> r.error == MissingOperationMarker
    ensures r.Ok? && !IsNullOrWhiteSpace(m.operation.value.operationId) ==> r.value.operationId == m.operation.value.operationId.value
    ensures r.Ok? && IsNullOrWhiteSpace(m.operation.value.operationId) ==> r.value.operationId == FallbackOperationId(fn.name, verb)
    ensures r.Ok? ==> |r.value.tags| == |m.operation.value.tags|
                      && forall i :: 0 <= i < |r.value.tags| ==> r.value.tags[i].name == m.operation.value.tags[i]
    ensures r.Ok? ==> r.value.parameters == [] && r.value.requestBody.None? && r.value.responses == map[]
  {
    match m.operation
    case None => Err(MissingOperationMarker)
    case Some(op) =>
      var id := if IsNullOrWhiteSpace(op.operationId) then FallbackOperationId(fn.name, verb) else op.operationId.value;
      Ok(Operation(id, Select(op.tags, (name: string) => Tag(name)), [], None, map[]))
  }

  /** `_` followed by an operation type name is never a proper suffix of another such string. */
  lemma {:induction false} SuffixesDistinct(v: OperationType, w: OperationType)
    requires |OperationTypeName(v)| < |OperationTypeName(w)|
    ensures var a := "_" + OperationTypeName(v);
            var b := "_" + OperationTypeName(w);
            b[|b| - |a|..] != a
  {
    var a := "_" + OperationTypeName(v);
    var b := "_" + OperationTypeName(w);
    assert b[|b| - |a|] != '_';
    assert b[|b| - |a|..][0] == b[|b| - |a|];
  }

  /**
   * Fallback ids never collide: two handlers get the same fallback id only
   * when they have the same function name and the same operation type.
   */
  lemma FallbackOperationIdInjective(n1: string, v1: OperationType, n2: string, v2: OperationType)
    ensures FallbackOperationId(n1, v1) == FallbackOperationId(n2, v2) <==> n1 == n2 && v1 == v2
  {
    if FallbackOperationId(n1, v1) == FallbackOperationId(n2, v2) {
      var a := "_" + OperationTypeName(v1);
      var b := "_" + OperationTypeName(v2);
      if |a| < |b| {
        ShorterSuffix(n1, a, n2, b);
        SuffixesDistinct(v1, v2);
      } else if |b| < |a| {
        ShorterSuffix(n2, b, n1, a);
        SuffixesDistinct(v2, v1);
      } else {
        EqualLengthSuffixes(n1, a, n2, b);
        OperationTypeNameInjective(v1, v2);
      }
    }
  }

  /** When two concatenations are equal, the shorter tail is a suffix of the longer one. */
  lemma ShorterSuffix(n1: string, a: string, n2: string, b: string)
    requires n1 + a == n2 + b && |a| < |b|
    ensures b[|b| - |a|..] == a
  {
    var id := n1 + a;
    assert id[|id| - |a|..] == a;
    assert id[|id| - |b|..] == b;
    assert b[|b| - |a|..] == id[|id| - |a|..];
  }

  /** When two concatenations are equal and their tails have one length, the parts agree. */
  lemma EqualLengthSuffixes(n1: string, a: string, n2: string, b: string)
    requires n1 + a == n2 + b && |a| == |b|
    ensures n1 == n2 && a == b
  {
    var id := n1 + a;
    assert n1 == id[..|n1|] == n2;
    assert a == id[|n1|..] == b;
  }

  /** Distinct operation types have distinct names. */
  lemma OperationTypeNameInjective(v: OperationType, w: OperationType)
    requires "_" + OperationTypeName(v) == "_" + OperationTypeName(w)
    ensures v == w
  {
    assert OperationTypeName(v) == ("_" + OperationTypeName(v))[1..];
    assert OperationTypeName(w) == ("_" + OperationTypeName(w))[1..];
  }

  // ---------------------------------------------------------------------
  // Parameters, request body and responses
  // ---------------------------------------------------------------------

  /** The function-key parameter: optional, in the query, named `code`, of string type. */
  const CodeParameter := Parameter("code", Query, false, ToOpenApiSchema(StringType))

  /**
   * One parameter per parameter marker, in declaration order, followed by
   * the optional `code` query parameter unless the trigger is anonymous.
   */
  function GetOpenApiParameters(m: Method, trigger: HttpTriggerMarker): (r: seq<Parameter>)
    ensures |r| == |m.parameters| + (if trigger.authLevel == Anonymous then 0 else 1)
    ensures forall i :: 0 <= i < |m.parameters| ==> r[i] == ToOpenApiParameter(m.parameters[i])
    ensures trigger.authLevel != Anonymous ==> r[|r| - 1] == CodeParameter
  {
    var parameters := Select(m.parameters, ToOpenApiParameter);
    if trigger.authLevel != Anonymous then AddOpenApiParameter(parameters, "code", Query, false)
    else parameters
  }

  function ContentTypeOf(b: RequestBodyMarker): string {
    b.contentType
  }

  /**
   * The request body of a handler: absent when it has no request-body
   * markers, otherwise one content entry per marker keyed by its content
   * type. A repeated content type fails.
   */
  function GetOpenApiRequestBody(m: Method): (r: Result<Option<RequestBody>>)
    ensures r.Err? <==> exists i, j :: 0 <= i < j < |m.requestBodies| && m.requestBodies[i].contentType == m.requestBodies[j].contentType
    ensures r.Err? ==> r.error == DuplicateKey
    ensures r.Ok? ==> (r.value.None? <==> m.requestBodies == [])
    ensures r.Ok? && r.value.Some? ==>
              var content := r.value.value.content;
              && |content| == |m.requestBodies|
              && content.Keys == (set b | b in m.requestBodies :: b.contentType)
              && forall i :: 0 <= i < |m.requestBodies| ==> content[m.requestBodies[i].contentType] == ToOpenApiMediaType(m.requestBodies[i])
  {
    var contents := ToDictionary(m.requestBodies, ContentTypeOf, ToOpenApiMediaType);
    match contents
    case Err(e) => Err(e)
    case Ok(c) =>
      ToDictionarySize(m.requestBodies, ContentTypeOf, ToOpenApiMediaType);
      if |c| > 0 then Ok(Some(RequestBody(c))) else Ok(None)
  }

  function StatusKey(b: ResponseBodyMarker): string {
    IntToString(b.statusCode)
  }

  /**
   * The responses of a handler: always present, one entry per
   * response-body marker keyed by the decimal status code. A repeated
   * status code fails.
   */
  function GetOpenApiResponseBody(m: Method): (r: Result<map<string, Response>>)
    ensures r.Err? <==> exists i, j :: 0 <= i < j < |m.responseBodies| && m.responseBodies[i].statusCode == m.responseBodies[j].statusCode
    ensures r.Err? ==> r.error == DuplicateKey
    ensures r.Ok? ==>
              && |r.value| == |m.responseBodies|
              && r.value.Keys == (set b | b in m.responseBodies :: IntToString(b.statusCode))
              && forall i :: 0 <= i < |m.responseBodies| ==> r.value[IntToString(m.responseBodies[i].statusCode)] == ToOpenApiResponse(m.responseBodies[i])
  {
    var bodies := m.responseBodies;
    StatusKeysDistinct(bodies);
    var responses := ToDictionary(bodies, StatusKey, ToOpenApiResponse);
    if responses.Ok? then
      ToDictionarySize(bodies, StatusKey, ToOpenApiResponse);
      responses
    else responses
  }

  /** Two response bodies share a key exactly when they share a status code. */
  lemma StatusKeysDistinct(bodies: seq<ResponseBodyMarker>)
    ensures DistinctKeys(bodies, StatusKey) <==> forall i, j :: 0 <= i < j < |bodies| ==> bodies[i].statusCode != bodies[j].statusCode
  {
    forall i, j | 0 <= i < j < |bodies| ensures StatusKey(bodies[i]) == StatusKey(bodies[j]) <==> bodies[i].statusCode == bodies[j].statusCode {
      IntToStringInjective(bodies[i].statusCode, bodies[j].statusCode);
    }
  }

  /** A status code of 200 is keyed `"200"`. */
  lemma StatusCodeKeyExample()
    ensures StatusKey(ResponseBodyMarker(200, "application/json", StringType)) == "200"
  {
  }

  // ---------------------------------------------------------------------
  // Schemas and security schemes
  // ---------------------------------------------------------------------

  function RequestBodiesOf(m: Method): seq<RequestBodyMarker> {
    m.requestBodies
  }

  function ResponseBodiesOf(m: Method): seq<ResponseBodyMarker> {
    m.responseBodies
  }

  function RequestBodyTypeOf(b: RequestBodyMarker): BodyType {
    b.bodyType
  }

  function ResponseBodyTypeOf(b: ResponseBodyMarker): BodyType {
    b.bodyType
  }

  /**
   * The body types of all request-body markers of all handlers, handler by
   * handler: a type occurs exactly when some handler has a request-body
   * marker of that type.
   */
  function RequestBodyTypes(methods: seq<Method>): (r: seq<BodyType>)
    ensures forall t :: t in r <==> exists i :: 0 <= i < |methods| && exists b :: b in methods[i].requestBodies && b.bodyType == t
  {
    var markers := SelectMany(methods, RequestBodiesOf);
    var r := Select(markers, RequestBodyTypeOf);
    assert forall t :: t in r <==> exists b :: b in markers && b.bodyType == t by {
      forall t ensures t in r <==> exists b :: b in markers && b.bodyType == t {
        SelectMembers(markers, RequestBodyTypeOf, t);
      }
    }
    r
  }

  /**
   * The body types of all response-body markers of all handlers, handler by
   * handler: a type occurs exactly when some handler has a response-body
   * marker of that type.
   */
  function ResponseBodyTypes(methods: seq<Method>): (r: seq<BodyType>)
    ensures forall t :: t in r <==> exists i :: 0 <= i < |methods| && exists b :: b in methods[i].responseBodies && b.bodyType == t
  {
    var markers := SelectMany(methods, ResponseBodiesOf);
    var r := Select(markers, ResponseBodyTypeOf);
    assert forall t :: t in r <==> exists b :: b in markers && b.bodyType == t by {
      forall t ensures t in r <==> exists b :: b in markers && b.bodyType == t {
        SelectMembers(markers, ResponseBodyTypeOf, t);
      }
    }
    r
  }

  /** Every body type referenced by a request-body marker and then by a response-body marker. */
  function AllBodyTypes(methods: seq<Method>): seq<BodyType> {
    RequestBodyTypes(methods) + ResponseBodyTypes(methods)
  }

  /**
   * `requests.Union(responses).Distinct()`: every referenced body type once
   * and nothing else, at its first occurrence among the request types
   * followed by the response types.
   */
  function SchemaTypes(methods: seq<Method>): (r: seq<BodyType>)
    ensures NoDuplicates(r)
    ensures forall t :: t in r <==> t in AllBodyTypes(methods)
    ensures r == Distinct(AllBodyTypes(methods))
  {
    UnionIsDistinctOfConcat(RequestBodyTypes(methods), ResponseBodyTypes(methods));
    Distinct(Union(RequestBodyTypes(methods), ResponseBodyTypes(methods)))
  }

  /** The trailing `Distinct` changes nothing: the schema types are the `Union` itself, the distinct request types followed by the response types not among them. */
  lemma SchemaTypesOrder(methods: seq<Method>)
    ensures var requests := RequestBodyTypes(methods);
            var responses := ResponseBodyTypes(methods);
            && SchemaTypes(methods) == Union(requests, responses)
            && SchemaTypes(methods) == Distinct(requests) + DistinctFrom(responses, set t | t in requests)
  {
    UnionIsDistinctOfConcat(RequestBodyTypes(methods), ResponseBodyTypes(methods));
  }

  function SimpleName(t: BodyType): string {
    t.name
  }

  /** Two distinct types in `types` share a simple name. */
  predicate NameClash(types: seq<BodyType>) {
    exists s, t :: s in types && t in types && s != t && s.name == t.name
  }

  /** In a sequence without repetitions, a repeated simple name is exactly a clash between two distinct types. */
  lemma DistinctNamesIffNoClash(types: seq<BodyType>)
    requires NoDuplicates(types)
    ensures DistinctKeys(types, SimpleName) <==> !NameClash(types)
  {
    if NameClash(types) {
      var s, t :| s in types && t in types && s != t && s.name == t.name;
      var i :| 0 <= i < |types| && types[i] == s;
      var j :| 0 <= j < |types| && types[j] == t;
      if i < j {
        assert SimpleName(types[i]) == SimpleName(types[j]);
      } else {
        assert SimpleName(types[j]) == SimpleName(types[i]);
      }
    }
    if !DistinctKeys(types, SimpleName) {
      var i, j :| 0 <= i < j < |types| && SimpleName(types[i]) == SimpleName(types[j]);
      assert types[i] != types[j];
    }
  }

  /** Keying the distinct types of `all` by simple name fails exactly when two distinct types of `all` share a simple name. */
  lemma SchemaTableFailsOnNameClash(types: seq<BodyType>, all: seq<BodyType>)
    requires NoDuplicates(types)
    requires forall t :: t in types <==> t in all
    ensures ToDictionary(types, SimpleName, ToOpenApiSchema).Err? <==> NameClash(all)
  {
    assert NameClash(types) <==> NameClash(all);
    DistinctNamesIffNoClash(types);
  }

  /** A table keyed by simple name over the distinct types of `all` has one key per simple name, mapped to that type's schema. */
  lemma SchemaTableEntries(types: seq<BodyType>, all: seq<BodyType>)
    requires forall t :: t in types <==> t in all
    requires ToDictionary(types, SimpleName, ToOpenApiSchema).Ok?
    ensures var table := ToDictionary(types, SimpleName, ToOpenApiSchema).value;
            && table.Keys == (set t | t in all :: t.name)
            && forall t :: t in all ==> t.name in table && table[t.name] == ToOpenApiSchema(t)
  {
    var table := ToDictionary(types, SimpleName, ToOpenApiSchema).value;
    assert (set t | t in types :: SimpleName(t)) == (set t | t in all :: t.name);
    forall t | t in all ensures t.name in table && table[t.name] == ToOpenApiSchema(t) {
      var i :| 0 <= i < |types| && types[i] == t;
    }
  }

  /**
   * The schema table: one entry per distinct referenced body type, keyed by
   * its simple name. Fails when two distinct referenced types share a simple
   * name, as `ToDictionary` throws on the repeated key.
   */
  function GetOpenApiSchemas(methods: seq<Method>): (r: Result<map<string, Schema>>)
    ensures r.Err? <==> NameClash(AllBodyTypes(methods))
    ensures r.Err? ==> r.error == DuplicateKey
    ensures r.Ok? ==> r.value.Keys == (set t | t in AllBodyTypes(methods) :: t.name)
    ensures r.Ok? ==> forall t :: t in AllBodyTypes(methods) ==> t.name in r.value && r.value[t.name] == ToOpenApiSchema(t)
  {
    var types := SchemaTypes(methods);
    var r := ToDictionary(types, SimpleName, ToOpenApiSchema);
    SchemaTableFailsOnNameClash(types, AllBodyTypes(methods));
    if r.Ok? then
      SchemaTableEntries(types, AllBodyTypes(methods));
      r
    else r
  }

  // ---------------------------------------------------------------------
  // A worked example of the schema table
  // ---------------------------------------------------------------------

  const TypeA := BodyType("N.A", "A")
  const TypeB := BodyType("N.B", "B")
  const TypeC := BodyType("N.C", "C")

  /** A handler whose request bodies have types `A` and `B` and whose responses have types `B` and `C`. */
  const ExampleHandler := Method("Run", None, false, [], None, [],
                                 [RequestBodyMarker("application/json", TypeA), RequestBodyMarker("text/plain", TypeB)],
                                 [ResponseBodyMarker(200, "application/json", TypeB), ResponseBodyMarker(201, "application/json", TypeC)])

  /** The request types are `A, B` and the response types `B, C`. */
  lemma ExampleRequestResponseTypes()
    ensures RequestBodyTypes([ExampleHandler]) == [TypeA, TypeB]
    ensures ResponseBodyTypes([ExampleHandler]) == [TypeB, TypeC]
  {
    var h := ExampleHandler;
    assert SelectMany([h], RequestBodiesOf) == h.requestBodies + SelectMany([h][1..], RequestBodiesOf);
    assert SelectMany([h], RequestBodiesOf) == h.requestBodies;
    assert SelectMany([h], ResponseBodiesOf) == h.responseBodies + SelectMany([h][1..], ResponseBodiesOf);
    assert SelectMany([h], ResponseBodiesOf) == h.responseBodies;
  }

  /** Deduplicating `A, B` keeps both. */
  lemma ExampleDistinctRequests()
    ensures Distinct([TypeA, TypeB]) == [TypeA, TypeB]
  {
    var requests := [TypeA, TypeB];
    assert requests[1..] == [TypeB];
    assert {} + {TypeA} == {TypeA};
    assert DistinctFrom(requests, {}) == [TypeA] + DistinctFrom([TypeB], {TypeA});
    assert DistinctFrom([TypeB], {TypeA}) == [TypeB] + DistinctFrom([], {TypeA, TypeB});
  }

  /** Of `B, C`, only `C` is new after `A, B`. */
  lemma ExampleDistinctResponses()
    ensures DistinctFrom([TypeB, TypeC], {TypeA, TypeB}) == [TypeC]
  {
    var responses := [TypeB, TypeC];
    assert responses[1..] == [TypeC];
    assert DistinctFrom(responses, {TypeA, TypeB}) == DistinctFrom([TypeC], {TypeA, TypeB});
    assert DistinctFrom([TypeC], {TypeA, TypeB}) == [TypeC] + DistinctFrom([], {TypeA, TypeB, TypeC});
  }

  /** Requests of types `A` and `B` and responses of types `B` and `C` give the schema types `A, B, C`, in that order. */
  lemma ExampleSchemaTypes()
    ensures SchemaTypes([ExampleHandler]) == [TypeA, TypeB, TypeC]
  {
    ExampleRequestResponseTypes();
    SchemaTypesOrder([ExampleHandler]);
    ExampleDistinctRequests();
    ExampleDistinctResponses();
    assert (set t | t in [TypeA, TypeB]) == {TypeA, TypeB};
  }

  /** The body types the example handler references, requests then responses. */
  const ExampleBodyTypes := [TypeA, TypeB, TypeB, TypeC]

  /** `A`, `B` and `C` have pairwise distinct simple names. */
  lemma ExampleNoClash()
    ensures !NameClash(ExampleBodyTypes)
  {
    var all := ExampleBodyTypes;
    forall s, t | s in all && t in all && s != t ensures s.name != t.name {
      assert s in {TypeA, TypeB, TypeC} && t in {TypeA, TypeB, TypeC};
    }
  }

  /** The simple names of `A, B, B, C` are `A`, `B` and `C`. */
  lemma ExampleNames()
    ensures (set t | t in ExampleBodyTypes :: t.name) == {"A", "B", "C"}
  {
    var all := ExampleBodyTypes;
    assert forall t :: t in all <==> t in {TypeA, TypeB, TypeC};
    assert TypeA in all && TypeB in all && TypeC in all;
  }

  /** The same handler gives a schema table with exactly the keys `A`, `B` and `C`. */
  lemma SchemaExample()
    ensures GetOpenApiSchemas([ExampleHandler]).Ok?
    ensures GetOpenApiSchemas([ExampleHandler]).value.Keys == {"A", "B", "C"}
  {
    ExampleRequestResponseTypes();
    assert AllBodyTypes([ExampleHandler]) == ExampleBodyTypes;
    ExampleNoClash();
    ExampleNames();
  }

  /** The security-scheme table: `authKey`, an API key sent in the `x-functions-key` header, whatever the handlers. */
  function GetOpenApiSecuritySchemes(): (r: map<string, SecurityScheme>)
    ensures r.Keys == {"authKey"}
    ensures r["authKey"] == SecurityScheme("x-functions-key", ApiKey, Header)
  {
    map["authKey" := SecurityScheme("x-functions-key", ApiKey, Header)]
  }
}
