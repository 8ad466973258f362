# DocumentHelper: a verified model

This project models `DocumentHelper`, the helper that the OpenAPI extension for
Azure Functions uses to build an OpenAPI document from an assembly of
HTTP-triggered functions. The helper does these jobs:

- It discovers the handler methods that are exposed over HTTP.
- It reads a handler's `HttpTrigger` and `FunctionName` markers.
- It derives the endpoint path and the HTTP verb.
- It finds or creates the path item.
- It builds the operation and its parameters, request body and responses.
- It collects the schemas of every body type used.
- It declares the one API-key security scheme.

The helper is pure code: LINQ chains and conditional expressions. The model is
therefore pure too: datatypes, functions and lemmas, one module per concern.

- `Outcomes`: `Option`, `Result`, and the error cases. Each error stands for an
  exception that the helper lets escape.
- `Linq`: `Where`, `Select`, `SelectMany`, `Distinct`, `Union` and
  `ToDictionary`, with their .NET semantics.
  - Order is preserved.
  - `Distinct` and `Union` keep the first occurrence.
  - `ToDictionary` fails on a repeated key.
- `Text`: .NET string behaviour that the helper relies on.
  - `string.IsNullOrWhiteSpace`, with the `Char.IsWhiteSpace` set.
  - `Trim(char)`.
  - Case-insensitive comparison.
  - `int.ToString()` and its inverse.
- `OpenApi`: the document objects that are built, and `Enum.TryParse` on
  `OperationType` with case ignored.
- `Metadata`: reflection, reduced to values.
  - An assembly is a sequence of types, and a type is a sequence of methods.
  - A method carries its markers (attributes) as fields.
- `Extensions`: the conversions from markers to document objects that the
  helper calls (`ToOpenApiParameter`, `ToOpenApiMediaType`, `ToOpenApiResponse`,
  `ToOpenApiSchema`, `AddOpenApiParameter`).
  - Their code is not part of this model.
  - Each conversion builds its object from the marker's data alone.
- `DocumentHelper`: the helper's ten operations and the properties proved about
  them.

Two body types with the same simple name make `ToDictionary(p => p.Name, …)`
(DocumentHelper.cs:137) throw `ArgumentException`. The model returns
`Err(DuplicateKey)` exactly when such a clash exists (`GetOpenApiSchemas`).

Every path below is relative to the repository root.

## Model

| member | source | states |
|---|---|---|
| DocumentHelper.GetHttpTriggerMethods | src/Aliencube.AzureFunctions.Extensions.OpenApi/DocumentHelper.cs:24-29 | The result is all methods of all types, in order, filtered by "has a function name, is not ignored, has an HTTP-trigger argument". A method is in the result iff some type declares it and it passes all three tests. |
| DocumentHelper.DiscoveryPreservesOrder | src/Aliencube.AzureFunctions.Extensions.OpenApi/DocumentHelper.cs:24-29 | Discovery over the types `a + b` is discovery over `a` followed by discovery over `b`. Methods come out type by type, in the order reflection enumerates them. |
| DocumentHelper.DiscoveryOfOneType | src/Aliencube.AzureFunctions.Extensions.OpenApi/DocumentHelper.cs:24-29 | For one type, discovery is that type's methods filtered by the three tests. |
| DocumentHelper.FirstTrigger | src/Aliencube.AzureFunctions.Extensions.OpenApi/DocumentHelper.cs:28 | It succeeds iff some argument carries an HTTP trigger. It then returns that argument's trigger. Otherwise it fails with MissingHttpTrigger. |
| DocumentHelper.GetHttpTriggerAttribute | src/Aliencube.AzureFunctions.Extensions.OpenApi/DocumentHelper.cs:35-40 | It succeeds iff the method has an argument with an HTTP trigger, and returns a trigger carried by one of its arguments. Otherwise it fails with MissingHttpTrigger. |
| DocumentHelper.GetFunctionNameAttribute | src/Aliencube.AzureFunctions.Extensions.OpenApi/DocumentHelper.cs:43-48 | It succeeds iff the method has a function-name marker, and returns that marker. Otherwise it fails with MissingFunctionName. |
| DocumentHelper.DiscoveredMethodsResolve | src/Aliencube.AzureFunctions.Extensions.OpenApi/DocumentHelper.cs:24-48 | Trigger lookup and name lookup both succeed on every discovered method. |
| DocumentHelper.GetHttpEndpoint | src/Aliencube.AzureFunctions.Extensions.OpenApi/DocumentHelper.cs:51-56 | The endpoint starts with `/` and, unless it is exactly `/`, neither its second nor its last character is `/`. After the slash comes the route trimmed of `/` when the route is neither null nor whitespace. Otherwise the function name trimmed of `/` follows. |
| DocumentHelper.EndpointIdempotent | src/Aliencube.AzureFunctions.Extensions.OpenApi/DocumentHelper.cs:53 | Feeding an endpoint back in as the route yields the same endpoint, whatever the function name. |
| DocumentHelper.EndpointOfRoute | src/Aliencube.AzureFunctions.Extensions.OpenApi/DocumentHelper.cs:53 | A route whose first character is not whitespace wins over the function name. |
| DocumentHelper.EndpointFromRoute | src/Aliencube.AzureFunctions.Extensions.OpenApi/DocumentHelper.cs:53 | Route `/foo/bar/` gives `/foo/bar`. |
| DocumentHelper.TrimExampleRoute | src/Aliencube.AzureFunctions.Extensions.OpenApi/DocumentHelper.cs:53 | Trimming `/` from `/foo/bar/` gives `foo/bar`. |
| DocumentHelper.EndpointFromFunctionName | src/Aliencube.AzureFunctions.Extensions.OpenApi/DocumentHelper.cs:53 | A whitespace-only route falls back to the function name: `baz` gives `/baz`. |
| DocumentHelper.GetHttpVerb | src/Aliencube.AzureFunctions.Extensions.OpenApi/DocumentHelper.cs:59-66 | An empty method list fails with EmptyMethodList. The verb is `v` iff the first listed method equals `v`'s name ignoring case. A first entry that matches no name fails with UnknownVerb carrying that entry. |
| DocumentHelper.OnlyFirstMethodConsulted | src/Aliencube.AzureFunctions.Extensions.OpenApi/DocumentHelper.cs:61 | Entries after the first never change the verb. |
| DocumentHelper.GetHttpVerbFirstEntry | src/Aliencube.AzureFunctions.Extensions.OpenApi/DocumentHelper.cs:61-63 | `["get", "POST"]` gives Get. |
| DocumentHelper.NotAnOperationTypeName | src/Aliencube.AzureFunctions.Extensions.OpenApi/DocumentHelper.cs:61-63 | `bogus` matches no operation type name, ignoring case. |
| DocumentHelper.GetHttpVerbUnknown | src/Aliencube.AzureFunctions.Extensions.OpenApi/DocumentHelper.cs:61-63 | `["bogus"]` fails with UnknownVerb("bogus"). |
| DocumentHelper.GetOpenApiPath | src/Aliencube.AzureFunctions.Extensions.OpenApi/DocumentHelper.cs:69-74 | A path already present yields its stored item. An absent path yields a fresh item with no operations. |
| DocumentHelper.LookupOrCreateMerges | src/Aliencube.AzureFunctions.Extensions.OpenApi/DocumentHelper.cs:71 | Storing an operation in the item found for a path keeps every operation already stored there for other verbs. A new path holds only that operation, and every other path is unchanged. |
| DocumentHelper.FallbackOperationId | src/Aliencube.AzureFunctions.Extensions.OpenApi/DocumentHelper.cs:82 | The fallback id is the function name, then `_`, then the operation type's name. |
| DocumentHelper.GetOpenApiOperation | src/Aliencube.AzureFunctions.Extensions.OpenApi/DocumentHelper.cs:77-87 | It fails with MissingOperationMarker iff the method has no operation marker. A non-blank explicit id is kept; a null or blank one becomes `<name>_<Verb>`. There is one tag per tag name, same order, same names. Parameters, request body and responses start empty. |
| DocumentHelper.FallbackOperationIdInjective | src/Aliencube.AzureFunctions.Extensions.OpenApi/DocumentHelper.cs:82 | Two fallback ids are equal iff both the function names and the verbs are equal. |
| DocumentHelper.OperationTypeNameInjective | src/Aliencube.AzureFunctions.Extensions.OpenApi/DocumentHelper.cs:82 | The `_<Verb>` suffix determines the verb. |
| DocumentHelper.GetOpenApiParameters | src/Aliencube.AzureFunctions.Extensions.OpenApi/DocumentHelper.cs:90-102 | The declared parameter markers are converted one by one, in order. When the level is not Anonymous, one optional string query parameter `code` is appended last. |
| Extensions.AddOpenApiParameter | src/Aliencube.AzureFunctions.Extensions.OpenApi/DocumentHelper.cs:98 | The list is kept as a prefix, followed by exactly one string-typed parameter with the given name, location and required flag. |
| DocumentHelper.GetOpenApiRequestBody | src/Aliencube.AzureFunctions.Extensions.OpenApi/DocumentHelper.cs:105-116 | It fails with DuplicateKey iff two markers share a content type. It returns no body iff there are no markers. Otherwise it returns one content entry per marker, keyed by content type, each holding that marker's media type. |
| DocumentHelper.GetOpenApiResponseBody | src/Aliencube.AzureFunctions.Extensions.OpenApi/DocumentHelper.cs:119-126 | It fails with DuplicateKey iff two markers share a status code. Otherwise it returns one response per marker, keyed by the decimal status code, each holding that marker's response. |
| DocumentHelper.StatusKeysDistinct | src/Aliencube.AzureFunctions.Extensions.OpenApi/DocumentHelper.cs:122 | Response keys are all distinct iff the status codes are all distinct. |
| DocumentHelper.StatusCodeKeyExample | src/Aliencube.AzureFunctions.Extensions.OpenApi/DocumentHelper.cs:122 | Status 200 is keyed `"200"`. |
| DocumentHelper.RequestBodyTypes | src/Aliencube.AzureFunctions.Extensions.OpenApi/DocumentHelper.cs:131-132 | A type is a request type iff some handler has a request-body marker of that type. |
| DocumentHelper.ResponseBodyTypes | src/Aliencube.AzureFunctions.Extensions.OpenApi/DocumentHelper.cs:133-134 | A type is a response type iff some handler has a response-body marker of that type. |
| DocumentHelper.SchemaTypes | src/Aliencube.AzureFunctions.Extensions.OpenApi/DocumentHelper.cs:135-136 | The schema types have no duplicates and are exactly the request and response body types. They are the first occurrences in the request types followed by the response types. |
| DocumentHelper.SchemaTypesOrder | src/Aliencube.AzureFunctions.Extensions.OpenApi/DocumentHelper.cs:135-136 | The trailing `Distinct` changes nothing: the schema types equal `requests.Union(responses)`, which is the distinct request types followed by the response types not already seen. |
| DocumentHelper.DistinctNamesIffNoClash | src/Aliencube.AzureFunctions.Extensions.OpenApi/DocumentHelper.cs:137 | Among distinct types, the simple names are distinct iff no two different types share a simple name. |
| DocumentHelper.SchemaTableFailsOnNameClash | src/Aliencube.AzureFunctions.Extensions.OpenApi/DocumentHelper.cs:137 | Keying distinct types by simple name fails iff two different types among them share a simple name. |
| DocumentHelper.SchemaTableEntries | src/Aliencube.AzureFunctions.Extensions.OpenApi/DocumentHelper.cs:137 | A table keyed by simple name has one key per simple name of the types, and each type's entry is its schema. |
| DocumentHelper.GetOpenApiSchemas | src/Aliencube.AzureFunctions.Extensions.OpenApi/DocumentHelper.cs:129-140 | It fails with DuplicateKey iff two different referenced body types share a simple name. Otherwise the keys are exactly the simple names of the request and response body types, and each type's entry is its schema. |
| DocumentHelper.ExampleRequestResponseTypes | src/Aliencube.AzureFunctions.Extensions.OpenApi/DocumentHelper.cs:131-134 | For a handler with request bodies A, B and responses B, C, the request types are [A, B] and the response types are [B, C]. |
| DocumentHelper.ExampleDistinctRequests | src/Aliencube.AzureFunctions.Extensions.OpenApi/DocumentHelper.cs:135 | [A, B] is already distinct. |
| DocumentHelper.ExampleDistinctResponses | src/Aliencube.AzureFunctions.Extensions.OpenApi/DocumentHelper.cs:135 | After seeing A and B, only C of [B, C] is new. |
| DocumentHelper.ExampleSchemaTypes | src/Aliencube.AzureFunctions.Extensions.OpenApi/DocumentHelper.cs:135-136 | The example's schema types are [A, B, C]. |
| DocumentHelper.ExampleNoClash | src/Aliencube.AzureFunctions.Extensions.OpenApi/DocumentHelper.cs:137 | A, B and C have no simple-name clash. |
| DocumentHelper.ExampleNames | src/Aliencube.AzureFunctions.Extensions.OpenApi/DocumentHelper.cs:137 | The example's simple names are {A, B, C}. |
| DocumentHelper.SchemaExample | src/Aliencube.AzureFunctions.Extensions.OpenApi/DocumentHelper.cs:129-140 | The example builds a schema table keyed A, B, C. |
| DocumentHelper.GetOpenApiSecuritySchemes | src/Aliencube.AzureFunctions.Extensions.OpenApi/DocumentHelper.cs:143-157 | There is exactly one scheme, `authKey`: an API key named `x-functions-key`, sent in the header. |
| Linq.Where | src/Aliencube.AzureFunctions.Extensions.OpenApi/DocumentHelper.cs:26-28 | The result is no longer than the input. An element is kept iff it is in the input and satisfies the predicate. |
| Linq.WhereAppend | src/Aliencube.AzureFunctions.Extensions.OpenApi/DocumentHelper.cs:24-29 | Filtering distributes over concatenation, so order is preserved. |
| Linq.WhereWhere | src/Aliencube.AzureFunctions.Extensions.OpenApi/DocumentHelper.cs:26-28 | Two chained filters are one filter by the conjunction of their predicates. |
| Linq.Select | src/Aliencube.AzureFunctions.Extensions.OpenApi/DocumentHelper.cs:83 | Same length as the input, with element `i` mapped to `f(xs[i])`. |
| Linq.SelectMembers | src/Aliencube.AzureFunctions.Extensions.OpenApi/DocumentHelper.cs:132 | `y` is in the projection iff some input element maps to it. |
| Linq.SelectMany | src/Aliencube.AzureFunctions.Extensions.OpenApi/DocumentHelper.cs:25 | `y` is in the result iff it is produced by some input element. |
| Linq.SelectManyAppend | src/Aliencube.AzureFunctions.Extensions.OpenApi/DocumentHelper.cs:25 | Flattening distributes over concatenation. |
| Linq.DistinctFrom | src/Aliencube.AzureFunctions.Extensions.OpenApi/DocumentHelper.cs:135-136 | No duplicates. An element is present iff it is in the input and not already seen. |
| Linq.Distinct | src/Aliencube.AzureFunctions.Extensions.OpenApi/DocumentHelper.cs:136 | No duplicates, and exactly the elements of the input. |
| Linq.Union | src/Aliencube.AzureFunctions.Extensions.OpenApi/DocumentHelper.cs:135 | No duplicates, and exactly the elements of either input. |
| Linq.DistinctFromAppend | src/Aliencube.AzureFunctions.Extensions.OpenApi/DocumentHelper.cs:135-136 | Deduplicating `a + b` gives deduplicated `a`, then `b` with `a`'s elements counted as seen. |
| Linq.DistinctFromOfDistinct | src/Aliencube.AzureFunctions.Extensions.OpenApi/DocumentHelper.cs:136 | A duplicate-free sequence disjoint from the seen set is returned unchanged. |
| Linq.UnionIsDistinctOfConcat | src/Aliencube.AzureFunctions.Extensions.OpenApi/DocumentHelper.cs:135-136 | `Union(a, b)` is `Distinct(a + b)`. It has no duplicates, and a further `Distinct` leaves it unchanged. |
| Linq.ToDictionary | src/Aliencube.AzureFunctions.Extensions.OpenApi/DocumentHelper.cs:108 | It succeeds iff the keys are pairwise distinct; otherwise it fails with DuplicateKey. The key set is the keys of the elements, and each element's key maps to its value. |
| Linq.ToDictionarySize | src/Aliencube.AzureFunctions.Extensions.OpenApi/DocumentHelper.cs:108 | With distinct keys, the dictionary has one entry per element. |
| Text.IsNullOrWhiteSpace | src/Aliencube.AzureFunctions.Extensions.OpenApi/DocumentHelper.cs:53 | A missing or empty string counts as blank. A string whose first or last character is not whitespace does not. |
| Text.Trim | src/Aliencube.AzureFunctions.Extensions.OpenApi/DocumentHelper.cs:53 | The result is a contiguous slice of the input that neither starts nor ends with the trimmed character. |
| Text.TrimUnpadded | src/Aliencube.AzureFunctions.Extensions.OpenApi/DocumentHelper.cs:53 | A string that neither starts nor ends with the character is unchanged by trimming. |
| Text.TrimSurrounded | src/Aliencube.AzureFunctions.Extensions.OpenApi/DocumentHelper.cs:53 | Trimming removes one wrapping character on each side of an unpadded string. |
| Text.TrimPrefixed | src/Aliencube.AzureFunctions.Extensions.OpenApi/DocumentHelper.cs:53 | Trimming removes a single leading character from an unpadded string. |
| Text.TrimIdempotent | src/Aliencube.AzureFunctions.Extensions.OpenApi/DocumentHelper.cs:53 | Trimming twice is trimming once. |
| Text.Lower | src/Aliencube.AzureFunctions.Extensions.OpenApi/DocumentHelper.cs:61 | Case folding keeps the length and folds each character. |
| Text.IntToString | src/Aliencube.AzureFunctions.Extensions.OpenApi/DocumentHelper.cs:122 | The rendering is non-empty and starts with `-` iff the number is negative. |
| Text.NatToString | src/Aliencube.AzureFunctions.Extensions.OpenApi/DocumentHelper.cs:122 | Decimal digits only, non-empty, with no leading zero. |
| Text.NatToStringRoundTrip | src/Aliencube.AzureFunctions.Extensions.OpenApi/DocumentHelper.cs:122 | Reading back the digits of a natural number gives that number. |
| Text.NegativeRoundTrip | src/Aliencube.AzureFunctions.Extensions.OpenApi/DocumentHelper.cs:122 | `-` followed by the digits of `n > 0` parses back to `-n`. |
| Text.IntToStringRoundTrip | src/Aliencube.AzureFunctions.Extensions.OpenApi/DocumentHelper.cs:122 | Parsing the rendering of any integer gives that integer back. |
| Text.IntToStringInjective | src/Aliencube.AzureFunctions.Extensions.OpenApi/DocumentHelper.cs:122 | Two integers render alike iff they are equal. |
| OpenApi.OperationTypeNamesDistinct | src/Aliencube.AzureFunctions.Extensions.OpenApi/DocumentHelper.cs:61 | Two operation type names are equal ignoring case iff the types are equal. |
| OpenApi.FindByNameCorrect | src/Aliencube.AzureFunctions.Extensions.OpenApi/DocumentHelper.cs:61 | The search finds `v` iff `v` is a candidate whose name equals the input ignoring case. |
| OpenApi.FindByName | src/Aliencube.AzureFunctions.Extensions.OpenApi/DocumentHelper.cs:61 | A found type is a candidate whose name equals the input ignoring case. Nothing is found iff no candidate's name matches. |
| OpenApi.TryParseOperationType | src/Aliencube.AzureFunctions.Extensions.OpenApi/DocumentHelper.cs:61 | A parsed type's name equals the input ignoring case. Parsing fails iff no operation type name matches. |
| OpenApi.TryParseOperationTypeCorrect | src/Aliencube.AzureFunctions.Extensions.OpenApi/DocumentHelper.cs:61 | Parsing gives `v` iff the input equals `v`'s name ignoring case. |
| OpenApi.TryParseOperationTypeFails | src/Aliencube.AzureFunctions.Extensions.OpenApi/DocumentHelper.cs:61 | Parsing fails iff the input equals no operation type name ignoring case. |

## Left out

- Reflection is left out. `GetTypes`, `GetMethods`, `GetParameters` and `GetCustomAttributes(inherit: false)` become plain fields of `Metadata` values. Attribute inheritance is not modelled.
- The runtime does not specify the order in which `GetTypes`, `GetMethods` and `GetCustomAttributes` enumerate. The model takes that order as given by its lists: its order results (`DiscoveryPreservesOrder`, `SchemaTypesOrder`) are relative to it.
- `GetMethods()` lists only public methods, inherited ones included. A type's `methods` list stands for that set; which methods it holds is not modelled.
- The extension methods `GetHttpTrigger`, `GetFunctionName`, `GetOpenApiOperation`, `ExistsCustomAttribute`, `ToOpenApiParameter`, `ToOpenApiMediaType`, `ToOpenApiResponse`, `ToOpenApiSchema` and `AddOpenApiParameter<T>` are not part of this model. They are modelled as record conversions that use the marker's data alone. In particular, schema generation for a body type is reduced to a `Schema` that names the type.
- `ToOpenApiResponses` is not part of this model. The dictionary of responses stands for the `OpenApiResponses` object.
- `GetHttpTriggerAttribute` is modelled as the first argument with a trigger. The extension that does the lookup is not part of this model.
- `GetOpenApiOperation`: a handler without an operation marker makes the code dereference null. The model returns `Err(MissingOperationMarker)` for it.
- `GetHttpVerb` and `TryParseOperationType`: only member names are accepted, compared with ASCII case folding. `Enum.TryParse` also accepts numeric values, comma-separated flags and surrounding whitespace, and it folds case beyond ASCII. None of these is modelled.
- Null values are not modelled. The code throws on a null `Methods` array, null tags and null content types; the model has no such values. A null route, and a null explicit operation id, are modelled as `None`.
- A null function name is not modelled. The code throws on it only when the route is blank (DocumentHelper.cs:53). As a fallback operation id it renders as empty, giving `_Get` (DocumentHelper.cs:82).
- `Text.IntToString`: the current culture's negative sign is not modelled; an ASCII `-` is used. Status codes are never negative, so response keys are unaffected.
- The order in which a .NET `Dictionary` enumerates its entries is not modelled: the results are maps. The order of the schema types is captured before the dictionary is built (`SchemaTypesOrder`).
- `HttpStatusCode` is modelled as an unbounded integer rather than a 32-bit enum value.
- The assembly loop in `Document` that calls these operations is not part of this model. Neither is the JSON/YAML serialisation of the document.
