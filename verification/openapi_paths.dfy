/** The endpoint index of an OpenAPI document (`getPathsFromSpec`) and the
    single-endpoint lookup (`getEndpointDetails`), with the properties that
    tie them to the document and to each other. */
module OpenApiPaths {
  import opened Js
  import opened OpenApiDocument

  /** The methods the index lists, in the order it lists them. */
  const Methods: seq<string> := ["get", "post", "put", "delete", "patch"]

  /** One listed endpoint. */
  datatype PathEntry = PathEntry(verb: string, path: string, summary: string, operationId: string)

  /** Position of a method in `Methods` (5 for any other key). */
  function MethodRank(verb: string): (n: nat)
    ensures n < |Methods| <==> verb in Methods
    ensures n < |Methods| ==> Methods[n] == verb
  {
    if verb == "get" then 0
    else if verb == "post" then 1
    else if verb == "put" then 2
    else if verb == "delete" then 3
    else if verb == "patch" then 4
    else 5
  }

  /** `pathItem[verb]` when it is truthy. */
  function OperationAt(fields: Object<Option<Operation>>, verb: string): (r: Option<Operation>)
    ensures r.Some? ==> exists j :: 0 <= j < |fields| && fields[j] == Property(verb, Some(r.value))
    ensures forall j :: 0 <= j < |fields| && fields[j].key == verb && fields[j].value.Some? ==> r == fields[j].value
  {
    GetFinds(fields, verb);
    match Get<Option<Operation>>(fields, verb)
    case Some(Some(op)) => Some(op)
    case _ => None
  }

  /** The entry listed for `op` at `path` and `verb`: missing or falsy
      `summary` and `operationId` become `''`. */
  function EntryFor(path: string, verb: string, op: Operation): PathEntry {
    PathEntry(verb, path, op.summary.GetOr(""), op.operationId.GetOr(""))
  }

  /** The entries of one path item for the methods `Methods[k..]`. */
  function ItemEntries(path: string, fields: Object<Option<Operation>>, k: nat): seq<PathEntry>
    requires k <= |Methods|
    decreases |Methods| - k
  {
    if k == |Methods| then []
    else
      var here := match OperationAt(fields, Methods[k])
        case Some(op) => [EntryFor(path, Methods[k], op)]
        case None => [];
      here + ItemEntries(path, fields, k + 1)
  }

  /** The entries of a sequence of path items; reading a method of a `null`
      path item throws, and the entries gathered so far are lost with it. */
  function EntriesOf(paths: seq<Property<PathItem>>): (r: Completion<seq<PathEntry>>)
    ensures r.ThrowTypeError? <==> exists i :: 0 <= i < |paths| && paths[i].value.NullItem?
  {
    if |paths| == 0 then Normal([])
    else
      match paths[0].value
      case NullItem => ThrowTypeError
      case Item(fields) =>
        match EntriesOf(paths[1..])
        case ThrowTypeError => ThrowTypeError
        case Normal(rest) => Normal(ItemEntries(paths[0].key, fields, 0) + rest)
  }

  /** `getPathsFromSpec(spec)` */
  function PathsFromSpec(spec: Option<Document>): (r: Completion<seq<PathEntry>>)
    ensures spec.None? || spec.value.paths.None? ==> r == Normal([])
    ensures r.ThrowTypeError? <==> HasNullPathItem(spec)
  {
    if spec.None? || spec.value.paths.None? then Normal([])
    else EntriesOf(spec.value.paths.value)
  }

  /** `getEndpointDetails(spec, path, verb)`: the operation the document
      declares at `path` (matched exactly) for the lower-cased `verb`,
      and `None` (the source's `null`) when there is none. */
  function EndpointDetails(spec: Option<Document>, path: string, verb: string): (r: Option<Operation>)
    ensures r.Some? ==> Declares(spec, path, ToLowerCase(verb), r.value)
    ensures forall op :: Declares(spec, path, ToLowerCase(verb), op) ==> r == Some(op)
  {
    if spec.None? || spec.value.paths.None? then None
    else
      GetFinds(spec.value.paths.value, path);
      match Get<PathItem>(spec.value.paths.value, path)
      case None => None
      case Some(NullItem) => None
      case Some(Item(fields)) => OperationAt(fields, ToLowerCase(verb))
  }
}
