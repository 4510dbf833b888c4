# OpenAPI spec indexer of the Ringer API documentation site

The documentation site renders its API reference from OpenAPI files kept in
a spec directory, one sub-directory per product category. The indexer in
`docs/lib/openapi.ts` does three things, and this project models all three
in Dafny:

- it catalogues the spec files (`getAllOpenApiSpecs`);
- it flattens a parsed document's `paths` into an endpoint list
  (`getPathsFromSpec`);
- it looks up one endpoint's operation (`getEndpointDetails`).

It also models the file name the loader reads for a catalogued spec
(`loadOpenApiSpec`).

The model has five modules:

- `Js` (`js.dfy`) holds the JavaScript notions the code relies on:
  - truthiness, as `Option`; `None` is a missing or falsy value;
  - plain objects, as key/value sequences with distinct keys in enumeration
    order;
  - a thrown `TypeError`, as `Completion`;
  - `toLowerCase` and `endsWith`.
- `OpenApiDocument` (`openapi_document.dfy`) holds the part of a parsed
  document the indexer reads. It also holds the declarative predicate
  `Declares`, which says which operation sits at `paths[path][verb]`.
- `OpenApiPaths` (`openapi_paths.dfy`) holds `getPathsFromSpec` and
  `getEndpointDetails`.
- `OpenApiPathsFacts` (`openapi_paths_facts.dfy`) holds what the endpoint list
  says about the document: its contents, order, multiplicity and count. It
  also shows that the list agrees with the single-endpoint lookup.
- `OpenApiSpecs` (`openapi_specs.dfy`) holds the catalogue, modelled over an
  abstract directory listing, and the loader's file name.

Two behaviours of the code are worth stating up front:

- A failure while listing keeps the pairs gathered before it, because
  `specs` is declared outside the `try` (`docs/lib/openapi.ts:30-54`). The
  root listing and every `statSync` happen before any category is read, so
  a failure there discards every pair. A category whose `readdirSync`
  throws ends the walk with the earlier categories' pairs. Those may
  themselves be none, for instance when it is the first category.
  `OpenApiSpecs.AllOpenApiSpecs` states this.
- A missing `paths` gives `[]` (`docs/lib/openapi.ts:63`). A path item that
  is `null` (an empty YAML mapping value) makes `pathItem[method]` throw a
  `TypeError` (`docs/lib/openapi.ts:71`). `OpenApiPaths.PathsFromSpec`
  returns `ThrowTypeError` exactly then. `getEndpointDetails` checks for a
  falsy path item, so for it the same item simply means "not found".

## Model

| member | source | states |
|---|---|---|
| Js.GetFinds | docs/lib/openapi.ts:93 | reading a key of an object gives nothing exactly when no property has that key, and otherwise gives the value of a property with that key |
| Js.IndexOfFinds | docs/lib/openapi.ts:67 | a key's enumeration position is that of the first property with the key, and is the object's size exactly when no property has it |
| Js.GetProperty | docs/lib/openapi.ts:67 | in an object (distinct keys), reading the key of the j-th enumerated property gives that property's value, and that key's enumeration position is j |
| Js.ToLowerCase | docs/lib/openapi.ts:93 | `toLowerCase` keeps the length of the string |
| Js.LowerCaseAt | docs/lib/openapi.ts:93 | `toLowerCase` works character by character: each upper-case letter becomes its lower-case letter and every other character is kept |
| Js.EndsWithSlice | docs/lib/openapi.ts:40 | `endsWith`, compared from the last character back, holds exactly when the string's last characters are the suffix |
| Js.SameLowerCase | docs/lib/openapi.ts:93 | two method names lower-case to the same string if and only if they differ only in letter case |
| OpenApiPaths.MethodRank | docs/lib/openapi.ts:68 | the fixed method list is exactly get, post, put, delete, patch; each listed method has its position in that order, and any other key has none |
| OpenApiPaths.OperationAt | docs/lib/openapi.ts:71 | `pathItem[method]` is truthy exactly when the path item has a property with that key and a truthy value, and then it is that value |
| OpenApiPaths.EntriesOf | docs/lib/openapi.ts:67-80 | walking the path items throws if and only if some path item is `null` |
| OpenApiPaths.PathsFromSpec | docs/lib/openapi.ts:62-83 | a missing document or missing `paths` gives the empty list, and the walk throws if and only if some path item is `null` |
| OpenApiPaths.EndpointDetails | docs/lib/openapi.ts:92-98 | the result is an operation exactly when the document declares one at `paths[path][verb.toLowerCase()]`, with the path matched exactly, and it is that operation; otherwise it is `null` |
| OpenApiPathsFacts.ItemEntriesListed | docs/lib/openapi.ts:68-79 | one path item contributes exactly the entries for its present operations among the five methods, in the fixed method order |
| OpenApiPathsFacts.EntriesOfListed | docs/lib/openapi.ts:67-80 | the list built from the path items holds exactly the entries that describe an operation declared under one of the five methods |
| OpenApiPathsFacts.EntriesOfOrdered | docs/lib/openapi.ts:67-80 | the list built from the path items is ordered by the position of the path in `paths`, then by method order |
| OpenApiPathsFacts.ListedEntries | docs/lib/openapi.ts:67-80 | an entry is listed if and only if its method is one of the five and the document declares an operation at its path (the key, unchanged) and method; its summary and operationId are the operation's, or `''` when missing or falsy |
| OpenApiPathsFacts.ListedInOrder | docs/lib/openapi.ts:67-80 | entries follow the order of paths in the document, and within one path the order get, post, put, delete, patch |
| OpenApiPathsFacts.ListedDistinct | docs/lib/openapi.ts:67-80 | no path and method pair appears twice |
| OpenApiPathsFacts.ListedOnce | docs/lib/openapi.ts:71-74 | a path and method pair appears exactly once when the document declares an operation there under one of the five methods, and otherwise never |
| OpenApiPathsFacts.ListedEndpoints | docs/lib/openapi.ts:67-80 | the path and method pairs of the list are exactly the declared endpoints among the five methods |
| OpenApiPathsFacts.ListedCount | docs/lib/openapi.ts:67-80 | the list's length is the number of declared endpoints among the five methods |
| OpenApiPathsFacts.NothingDeclaredNothingListed | docs/lib/openapi.ts:63-80 | a document without `null` path items that declares nothing under the five methods (missing, no `paths`, or only other keys) gives the empty list |
| OpenApiPathsFacts.MethodIsLowerCase | docs/lib/openapi.ts:68 | the five method names are their own lower case |
| OpenApiPathsFacts.DetailsIgnoreCase | docs/lib/openapi.ts:93-97 | method names that differ only in letter case look up the same result |
| OpenApiPathsFacts.ListedEntriesResolve | docs/lib/openapi.ts:62-98 | for every listed entry, the lookup of its path under its method name in any letter case finds an operation, and the entry's summary and operationId are that operation's (or `''`) |
| OpenApiSpecs.Extension | docs/lib/openapi.ts:46 | the extension stripped from a kept file is `.yaml` or `.yml`, and the file ends with it |
| OpenApiSpecs.SpecNameSplits | docs/lib/openapi.ts:46 | a kept file name is its spec name followed by its extension |
| OpenApiSpecs.AllOpenApiSpecs | docs/lib/openapi.ts:29-55 | an unreadable root or an entry that cannot be stat'ed gives no pairs; otherwise the result is the catalogue of the entries before the first category whose listing fails; the result is always a prefix of the full catalogue |
| OpenApiSpecs.StatAll | docs/lib/openapi.ts:33-35 | the directory filter completes exactly when every root entry can be stat'ed |
| OpenApiSpecs.ListCategory | docs/lib/openapi.ts:39-48 | the pairs pushed for one category are those of its YAML files, in listing order |
| OpenApiSpecs.ListCategories | docs/lib/openapi.ts:37-49 | the walk over the categories yields the catalogue of the entries before the first unreadable category |
| OpenApiSpecs.FirstUnlistable | docs/lib/openapi.ts:37-39 | the position found is the first directory whose listing fails, or the end of the listing |
| OpenApiSpecs.CataloguePrefix | docs/lib/openapi.ts:30-54 | the pairs of a walk cut short are a prefix of the pairs of the complete walk |
| OpenApiSpecs.CatalogueAppend | docs/lib/openapi.ts:37-49 | the catalogue of two consecutive parts of a listing is the concatenation of their catalogues |
| OpenApiSpecs.SpecsInListed | docs/lib/openapi.ts:39-48 | a category yields a pair for exactly the names of its files ending in `.yaml` or `.yml`, each name being the file name without that extension |
| OpenApiSpecs.SpecsInCount | docs/lib/openapi.ts:39-48 | a category yields one pair per YAML file in its listing |
| OpenApiSpecs.CatalogueListed | docs/lib/openapi.ts:33-48 | the catalogue holds exactly the pairs of YAML files in readable directories; files of other types and entries that are not directories contribute nothing |
| OpenApiSpecs.LoaderFileName | docs/lib/openapi.ts:14 | the loader always reads `<specName>.yaml`, a YAML file whose spec name is `specName` |
| OpenApiSpecs.NotBothExtensions | docs/lib/openapi.ts:40 | no file name ends in both `.yml` and `.yaml` |
| OpenApiSpecs.YmlFileName | docs/lib/openapi.ts:40-46 | `<specName>.yml` is kept and listed under `specName` |
| OpenApiSpecs.ListedYmlSpecNotLoaded | docs/lib/openapi.ts:14 | a `.yml` spec that no other YAML file of its category names is catalogued, but the file the loader reads for it is not in the category |
| OpenApiSpecs.YamlFilesNamed | docs/lib/openapi.ts:46 | the only kept file names with a given spec name are `<name>.yaml` and `<name>.yml` |
| OpenApiSpecs.SpecFileName | docs/lib/openapi.ts:14 | the file to read for a spec is a listed YAML file with that spec name, and there is none only when no listed YAML file has that name |
| OpenApiSpecs.ListedSpecResolves | docs/lib/openapi.ts:39-48 | every catalogued pair belongs to its category and names a file that `SpecFileName` finds |

## Left out

- Reading a spec file and parsing its YAML (`loadOpenApiSpec`, `docs/lib/openapi.ts:16-22`) are file I/O and a third-party parser. The loader's result is a parameter of type `Option<Document>`, where `None` is its `null`. Only the file name it builds is modelled.
- The file system is an abstract listing. For each root entry it records whether `statSync` throws, whether the entry is a directory, and the directory's listing or the fact that `readdirSync` throws. The directory path `OPENAPI_DIR` and `path.join` are not modelled.
- `console.error` (`docs/lib/openapi.ts:20, 51`) is diagnostic output only.
- OpenApiSpecs.SpecName strips the matched `.yaml`/`.yml` suffix. Node's `path.extname` returns `''` for a dot-file named exactly `.yaml` or `.yml`, so the source would keep the whole name there, while the model gives the empty name.
- Js.ToLowerCase maps only the ASCII letters. JavaScript's `toLowerCase` also maps other Unicode letters.
- Property reads cover own properties only. Keys inherited from `Object.prototype` (a method named `constructor` in `getEndpointDetails`) are not modelled.
- A truthy `paths` or path item that is not an object (a string, a number, an array) is not modelled. `paths` is an object or absent, and a path item is an object or `null`.
- `summary` and `operationId` are modelled as strings only. The code copies any truthy value of these fields into the entry unchanged, including a YAML number, boolean or list (`docs/lib/openapi.ts:75-76`). The model has no such values.
- Any other truthy value found under a method key (say a string) reads as an operation without `summary` and `operationId`. That is what reading those fields of it gives.
- JavaScript enumerates integer-like keys first, in numeric order. The model takes the enumeration order as given, as the order of the key/value sequence.
- `docs/scripts/sync-specs.js` is network and file-stream plumbing, so it is not part of this model.
- The pages and components that render the results are UI only, so they are not part of this model. This covers `docs/app/**`, `docs/components/**` and `docs/next.config.js`.
- The endpoint URL slugs are not implemented in `docs/lib/openapi.ts`, so they are not part of this model.

## Findings

| source | as written | input that shows it | evidently intended | confidence | as-written member | corrected member |
|---|---|---|---|---|---|---|
| docs/lib/openapi.ts:14 | the catalogue keeps files ending in `.yml` (line 40), but `loadOpenApiSpec` always reads `<name>.yaml` | a category directory whose only spec file is `telique.yml`: the catalogue lists `(category, "telique")`, and loading it reads the absent `telique.yaml` and returns `null`. The API reference index (`docs/app/api-reference/page.tsx:6,17`) loads every catalogued spec this way | a catalogued spec loads from the file it was listed from: `<name>.yaml` when present, otherwise `<name>.yml` | not executed | OpenApiSpecs.ListedYmlSpecNotLoaded | OpenApiSpecs.ListedSpecResolves |
