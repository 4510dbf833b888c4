/** The parts of a parsed OpenAPI document that the indexer reads. The
    document is whatever the YAML loader produced; only `paths`, the path
    items under it and the `summary` / `operationId` of each operation are
    looked at. */
module OpenApiDocument {
  import opened Js

  /** An operation object. A field that is missing or falsy is `None`.
      Any other truthy value found under a path item key (the `parameters`
      array, a `summary` string) reads as an operation without either
      field, since that is what `.summary` and `.operationId` of it give. */
  datatype Operation = Operation(summary: Option<string>, operationId: Option<string>)

  /** A path item: `null` (an empty YAML mapping value), or an object
      whose keys are methods and other path item fields; a falsy value
      under a key is `None`. */
  datatype PathItem = NullItem | Item(fields: Object<Option<Operation>>)

  /** A parsed document; `paths` is `None` when missing or falsy. */
  datatype Document = Document(paths: Option<Object<PathItem>>)

  /** The loader's result is `Option<Document>`: `None` is the `null` it
      returns when the file cannot be read or parsed. */

  /** The document declares operation `op` at `paths[path][verb]`. */
  ghost predicate Declares(spec: Option<Document>, path: string, verb: string, op: Operation) {
    && spec.Some?
    && spec.value.paths.Some?
    && DeclaredIn(spec.value.paths.value, path, verb, op)
  }

  ghost predicate DeclaredIn(paths: seq<Property<PathItem>>, path: string, verb: string, op: Operation) {
    exists i, j ::
      && 0 <= i < |paths|
      && paths[i].key == path
      && paths[i].value.Item?
      && 0 <= j < |paths[i].value.fields|
      && paths[i].value.fields[j] == Property(verb, Some(op))
  }

  /** Some operation is declared at `paths[path][verb]`. */
  ghost predicate HasOperation(spec: Option<Document>, path: string, verb: string) {
    exists op :: Declares(spec, path, verb, op)
  }

  /** Some path item under `paths` is `null`. */
  predicate HasNullPathItem(spec: Option<Document>) {
    && spec.Some?
    && spec.value.paths.Some?
    && exists i :: 0 <= i < |spec.value.paths.value| && spec.value.paths.value[i].value.NullItem?
  }
}
