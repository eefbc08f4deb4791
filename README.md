# strawberry_autograph, modelled in Dafny

`strawberry_autograph` builds a GraphQL client that mirrors a Strawberry
schema. Each query and mutation becomes a `GQLExecutableTemplate`. A template
is installed on an `AutoGraphClient` under the operation's snake-cased name.
When called with keyword arguments, the template writes the operation text
itself: arguments are inlined as GraphQL literals, and the response type is
expanded into a full selection set, with inline fragments per union member.

This project models the generator at the heart of that client:

- `Values`, `Scalars` and `Serializer`: the value serializer. Runtime values
  become GraphQL literals (`serialize_scalar`, `serialize_input`,
  `_try_asdict`). This covers the exceptions it lets through.
- `InputTrees`: the argument tree of one field (`parse_input_tree`).
- `ResponseTrees`: the response tree (`unwrap_strawberry_type`,
  `fragment_tree`).
- `FragmentText`: the selection-set renderer
  (`_serialize_fragment_tree_lines`, `serialized_fragment_tree`).
- `Templates`: the template (`input_tree`, `reqtype`, `method_name`,
  `generate_query`, `__str__`).
- `Client`: the client (`AutoGraphClient.__init__` and `operations`), built
  by `Client.NewClient`, which fails on a schema without a mutation type.
- Shared support:
  - `Dicts` models Python's insertion-ordered `dict`. `d[k] = v` keeps an
    existing key in place; `dict(pairs)` lets the last pair win.
  - `Text` covers joining, tabs, and the decimal text of integers.
  - `FieldTrees` covers the `FieldTree` shape.
  - `Host` holds the library functions the generator calls but does not
    define.

The source's loops are methods: `ParseInputTree`, `UnwrapStrawberryType`,
`FragmentTree`, `SerializeFragmentTreeLines`, and the constructor of
`AutoGraphClient` with `InstallAll` and `Install`. Each is proved equal to a specification
function. The properties the generator promises are proved as lemmas about
those functions: which inputs fail and with what error, the exact shape of the
operation text, key order, nesting depth, line counts and indentation.

Behaviours of the code that the model keeps as written:

- `generate_query` writes the arguments as `name({ k: v, ... })`, inside the
  braces of the serialized dict, rather than GraphQL's `name(k: v)` argument
  syntax. A call without inputs still gets `({  })`, because the text of a
  dict is never empty (`Templates.NoInputs`).
- `fragment_tree` reads `.types` after unwrapping, so a response type that is
  not a union raises `AttributeError` (`Templates.QueryOutcome`). No operation
  returning a plain object type can be generated.
- Input keys are camel-cased twice: once in `generate_query`, and again in
  `serialize_input` (`Templates.QueryText`).
- `AutoGraphClient(schema)` reads the fields of the schema's mutation type, so a
  schema without mutations raises `AttributeError` (`Client.NewClient`).

## Model

| member | source | states |
|---|---|---|
| Dicts.PutKeys | strawberry_autograph/main.py:92 | Assigning an existing key keeps the key order; a new key is appended at the end |
| Dicts.PutGet | strawberry_autograph/main.py:92 | After `d[k] = v`, `k` maps to `v` and every other key keeps its value |
| Dicts.DedupDistinct | strawberry_autograph/main.py:150 | The keys of a dict built from pairs are distinct and are exactly the keys of the pairs |
| Dicts.FromPairsKeys | strawberry_autograph/main.py:68-73 | `dict(pairs)` has the pair keys in order of first occurrence, each once |
| Dicts.FromPairsGet | strawberry_autograph/main.py:150 | In `dict(pairs)` a key maps to the value of its last pair |
| Dicts.FromPairsOfDistinct | strawberry_autograph/main.py:164 | Pairs with distinct keys make a dict holding exactly those pairs, in order |
| Dicts.PutDistinct | strawberry_autograph/main.py:255 | Assigning into a dict keeps its keys distinct |
| Text.Tabs | strawberry_autograph/main.py:210 | The indent for depth n is exactly n tab characters |
| Text.IntTextRoundTrip | strawberry_autograph/main.py:47 | The JSON text of an int is canonical integer text (decimal digits with no leading zero, `-` before a non-zero value), reads back as that int, and starts with `-` exactly for negatives |
| Text.JoinEmpty | strawberry_autograph/main.py:126-127 | A join with a non-empty separator is empty exactly when there are no parts or one empty part |
| Scalars.SerializeScalar | strawberry_autograph/main.py:43-54 | Succeeds exactly on scalars. None and UNSET give `null`, bools give `true`/`false`, an int gives canonical JSON integer text (digits with no leading zero, `-` only before a non-zero value) that reads back as it, strings and datetimes are quoted, an enum gives its value. Anything else is a TypeError naming its type |
| Scalars.EnumDiffersFromString | strawberry_autograph/main.py:47-51 | An enum member is written bare, so it differs from the string with the same text |
| Serializer.SerializeOutcome | strawberry_autograph/main.py:174-195 | Serialization succeeds exactly when every leaf is a scalar and no list holds a non-str enum value. Every failure is one of two TypeErrors: one naming the type of an offending leaf, or the join error, which comes from such a list |
| Serializer.SerializeInput | strawberry_autograph/main.py:174-195 | The serializer itself. When it succeeds and what a failure reports is Serializer.SerializeOutcome; the text of a dict and a list is Serializer.MappingText and Serializer.ListText; bracket nesting is Serializer.NestingMatches |
| Serializer.PairsOutcome | strawberry_autograph/main.py:179-188 | The entries of a dict serialize exactly when each value does, one text per entry; a failure is one of the two TypeErrors |
| Serializer.ItemsOutcome | strawberry_autograph/main.py:189-194 | The items of a list serialize exactly when each item does, one text per item; a failure is one of the two TypeErrors |
| Serializer.MappingText | strawberry_autograph/main.py:179-188 | A dict is written `{ ` + its camel-cased `key: value` texts joined by `, ` + ` }`, in dict order |
| Serializer.PairsText | strawberry_autograph/main.py:180-187 | The i-th entry text is the i-th key camel-cased, `: `, and the i-th value's text |
| Serializer.ListText | strawberry_autograph/main.py:189-194 | A list is written `[ ` + its items' texts joined by `, ` + ` ]`, in order |
| Serializer.ItemsText | strawberry_autograph/main.py:190-193 | The i-th item text is the text of the i-th item |
| Serializer.NestingMatches | strawberry_autograph/main.py:174-195 | When no key or scalar writes a bracket, the text's brackets balance and nest exactly as deep as the value's dicts and lists |
| Serializer.ProfileOfJoin | strawberry_autograph/main.py:184-190 | Balanced texts joined by a bracket-free separator stay balanced, as deep as the deepest part |
| Serializer.TryAsDict | strawberry_autograph/main.py:197-201 | A dataclass becomes a dict with the same field names and no dataclass left inside; anything else is returned unchanged |
| Serializer.NoDataclassAfterAsDict | strawberry_autograph/main.py:199 | `asdict` converts dataclasses at every depth |
| Serializer.NestedDataclassRejected | strawberry_autograph/main.py:197-201 | A dataclass inside a plain dict is not converted, and serializing it fails with its type name |
| FieldTrees.FromPairsKeepsValues | strawberry_autograph/main.py:68-73 | A dict built from well-keyed trees is itself well-keyed |
| FieldTrees.PutKeepsWellKeyed | strawberry_autograph/main.py:92 | Storing a well-keyed subtree keeps every stored subtree well-keyed |
| InputTrees.Core | strawberry_autograph/main.py:66-67 | Following `of_type` always ends at a named type |
| InputTrees.FieldPairs | strawberry_autograph/main.py:68-73 | The chained pairs have the named type's field names, in declaration order |
| InputTrees.ParseInputTree | strawberry_autograph/main.py:57-74 | The loop result equals the input-tree function: a one-entry tree keyed by the field name |
| InputTrees.WrappersTransparent | strawberry_autograph/main.py:66-67 | Any number of non-null or list wrappers leaves the tree unchanged |
| InputTrees.SubtreeOfCore | strawberry_autograph/main.py:66-67 | The subtree is that of the innermost named type |
| InputTrees.LeafIff | strawberry_autograph/main.py:63-73 | A field is a leaf exactly when it has no type or its named type has no fields |
| InputTrees.NamedChildren | strawberry_autograph/main.py:68-73 | With distinct field names, the children are the fields in order, each with its own subtree |
| InputTrees.FieldSubtreeWellKeyed | strawberry_autograph/main.py:57-74 | Every level of an input tree has distinct keys |
| InputTrees.TypeSubtreeWellKeyed | strawberry_autograph/main.py:66-73 | Every level of a named type's subtree has distinct keys |
| ResponseTrees.FirstNonNone | strawberry_autograph/main.py:85-89 | Picks the first Union member that is not `None` |
| ResponseTrees.UnwrapStrawberryType | strawberry_autograph/main.py:77-93 | The loop result equals the response-tree function |
| ResponseTrees.FragmentTree | strawberry_autograph/main.py:152-164 | The loop result equals the fragment-tree function, including the failure for a non-union |
| ResponseTrees.ResponseKeys | strawberry_autograph/main.py:79-92 | The keys are the camel-cased annotation names in annotation order, each once |
| ResponseTrees.ResponseEntries | strawberry_autograph/main.py:81-92 | With distinct camel-cased names, entry i is annotation i's name with the tree of its annotation stripped of one Optional or list layer |
| ResponseTrees.EmptyWithoutAnnotations | strawberry_autograph/main.py:79-81 | A tree is empty exactly when the type is not a class or has no annotations |
| ResponseTrees.OneLayerOnly | strawberry_autograph/main.py:82-92 | Only one layer is stripped: `Optional[list[X]]`, `list[list[X]]` and `list[Optional[X]]` fields get empty subtrees |
| ResponseTrees.CoreResponse | strawberry_autograph/main.py:156-157 | Following `of_type` ends at a type without `of_type` |
| ResponseTrees.FragmentKeys | strawberry_autograph/main.py:155-164 | The fragment tree exists exactly when the innermost type is a union, otherwise the error is the missing `.types`. Its keys are the members' definition names in order |
| ResponseTrees.FragmentEntries | strawberry_autograph/main.py:152-164 | Under a union, each member's definition name holds that member's response tree, the later member winning when names repeat; with distinct names the fragment tree has one entry per member, in member order, each the member's name and tree |
| ResponseTrees.ResponseTreeWellKeyed | strawberry_autograph/main.py:77-93 | Every level of a response tree has distinct keys |
| FragmentText.SerializeFragmentTreeLines | strawberry_autograph/main.py:203-225 | The loop result equals the fragment-lines function |
| FragmentText.LineCount | strawberry_autograph/main.py:211-223 | One line per leaf entry and two per entry with a subtree |
| FragmentText.Indented | strawberry_autograph/main.py:210-221 | Every line starts with at least `depth` tabs; nested lines carry more (the exact indent of each entry is in FragmentText.EntryBlock) |
| FragmentText.ShiftDepth | strawberry_autograph/main.py:210-221 | Below the root, rendering one level deeper adds exactly one tab to every line |
| FragmentText.EntryBlock | strawberry_autograph/main.py:211-223 | Entry i occupies its own run of lines. Its first line is exactly `depth` tabs, `... on ` only at the root depth, the name, and ` {` when it has fields. Then come the nested lines rendered one level deeper, and a last line of `depth` tabs and `}` |
| FragmentText.RootEntries | strawberry_autograph/main.py:212-215 | Every root entry, not just the first, opens with a tab, `... on ` and its member name |
| FragmentText.PlainBelowRoot | strawberry_autograph/main.py:212-213 | Below the root no line carries the `... on ` prefix: every line is at least `depth` tabs followed by a key of the tree, a key and ` {`, or `}` |
| FragmentText.SerializedFragmentTree | strawberry_autograph/main.py:166-172 | The lines from the root depth joined by newlines; their content is FragmentText.EntryBlock, FragmentText.RootEntries, FragmentText.PlainBelowRoot and FragmentText.LineCount |
| Templates.ReqType | strawberry_autograph/main.py:111 | `mutation` exactly for mutations, `query` exactly for queries |
| Templates.MethodName | strawberry_autograph/main.py:112 | The snake-cased operation name; that templates sit under it is Client.AutoGraphClient.Install and Client.AttributeNames |
| Templates.InputTree | strawberry_autograph/main.py:143-150 | `dict` of the argument trees chained; its keys and entries are Templates.InputTreeKeys |
| Templates.OperationFragmentText | strawberry_autograph/main.py:166-172 | The fragment text of the operation's response, failing when the response is not a union (Templates.QueryOutcome) |
| Templates.GenerateQuery | strawberry_autograph/main.py:130-141 | The operation text; its outcome is Templates.QueryOutcome, its text Templates.QueryParts, Templates.QueryText and Templates.NoInputs |
| Templates.Signature | strawberry_autograph/main.py:124-128 | `__str__`; its argument list is Templates.SignatureArgs and its shape Templates.SignatureShape |
| Templates.InputTreeKeys | strawberry_autograph/main.py:143-150 | The input tree's keys are the argument names in order, each once; with distinct names, entry i is argument i with its subtree |
| Templates.QueryOutcome | strawberry_autograph/main.py:130-141 | A query is generated exactly when the inputs serialize and the response is a union. An input error is reported before a missing `.types` |
| Templates.QueryParts | strawberry_autograph/main.py:136-141 | A generated query is `reqtype name(` + inputs + `) {`, newline, fragment text, newline, `}` |
| Templates.SerializeNonEmpty | strawberry_autograph/main.py:136-140 | A serialized input dict is never empty, so the parenthesized branch is always taken |
| Templates.QueryText | strawberry_autograph/main.py:130-141 | The arguments are written `({ k1: v1, ... })`, each key camel-cased again |
| Templates.NoInputs | strawberry_autograph/main.py:132-141 | A call without inputs still writes `({  })` |
| Templates.NestedDataclassArgument | strawberry_autograph/main.py:130-135 | A dataclass inside a dict argument makes the query fail with its type name |
| Templates.SignatureArgs | strawberry_autograph/main.py:124-128 | The listed arguments are the input tree's keys snake-cased, in order; there are none exactly when the operation has no arguments |
| Templates.SignatureShape | strawberry_autograph/main.py:124-128 | `reqtype method_name`, followed by the arguments in parentheses unless the list is empty |
| Client.SchemaTemplates | strawberry_autograph/main.py:236-253 | Every query template, then every mutation template, in schema order, each with its kind |
| Client.NewClient | strawberry_autograph/main.py:231-255 | A client is built exactly when the schema has a mutation type; otherwise the error is the missing mutation type. A built client satisfies the client invariant and holds the schema followed by each template under its method name |
| Client.AutoGraphClient.constructor | strawberry_autograph/main.py:233-255 | The attributes are exactly `dict` of the schema followed by each template under its method name, and the client invariant holds |
| Client.AutoGraphClient.InstallAll | strawberry_autograph/main.py:254-255 | The `setattr` loop: from the schema alone, the instance dict becomes `dict` of the schema followed by each template under its method name, keeping the client invariant |
| Client.AutoGraphClient.Install | strawberry_autograph/main.py:255 | `setattr` stores the template under its method name and keeps the client invariant |
| Client.AutoGraphClient.PutKeepsValid | strawberry_autograph/main.py:254-255 | Installing a template keeps names distinct, `schema` first and only there, and each template under its own name |
| Client.AttributeNames | strawberry_autograph/main.py:233-255 | The attribute names are `schema` and then the method names, each once at its first position |
| Client.OperationsInSchemaOrder | strawberry_autograph/main.py:254-275 | With distinct, unhidden method names, `operations` lists every query and then every mutation, in schema order |
| Client.ShownIff | strawberry_autograph/main.py:257-275 | `operations` lists a template exactly when some attribute with a shown name holds it |
| Client.AutoGraphClient.Operations | strawberry_autograph/main.py:257-275 | `str` of each template under a shown attribute name; its properties are Client.AutoGraphClient.OperationsListed and Client.AutoGraphClient.OperationsOfSchema |
| Client.AutoGraphClient.OperationsListed | strawberry_autograph/main.py:257-275 | `operations` holds one signature per template under a shown name and nothing else |
| Client.AutoGraphClient.OperationsOfSchema | strawberry_autograph/main.py:254-275 | For a client built from a schema with distinct, unhidden method names, `operations` is every query's signature and then every mutation's, in schema order |

## Left out

- Executing operations is not modelled: `__call__`, `execute_sync`, the logger and the `Schema` executor stored on each template. These are I/O against the schema.
- Python introspection is replaced by descriptors:
  - `getattr(..., 'type' / 'of_type' / 'fields')` on argument types becomes `InputTrees.TypeDesc` and `FieldDesc`.
  - `__annotations__`, `get_origin` and `get_args` become `ResponseTrees.Annotation`.
  - The Strawberry response type with `of_type` and `types` becomes `ResponseType`.
  - `schema._schema.to_kwargs()` becomes the query field list and the optional mutation field list given to `Client.NewClient`.
- `strawberry.asdict` is modelled as a recursive conversion of dataclasses inside dicts and lists (`Serializer.AsDict`); tuples are not modelled.
- `to_camel_case`, `to_snake_case`, the string escaping of `json.dumps` and `json.dumps` of a float are parameters (`Host.Library`), taken as total functions.
- A datetime is carried as its `isoformat()` text. An enum member is carried as the `str()` of its value, plus whether that value is a `str`.
- Annotations written as strings have no `__annotations__`; they are `Opaque`, which gives an empty subtree, as in the source. Annotations written as `X | None` are also `Opaque`: this is the behaviour on Python 3.13 and earlier, where `get_origin` of such a union is `types.UnionType`, not `typing.Union`. From Python 3.14, `int | None` is a `typing.Union` and main.py:84 strips it like `Optional[X]`; the model does not capture that newer behaviour.
- `cached_property` memoization is not modelled: `input_tree`, `fragment_tree`, `serialized_fragment_tree` and `operations` are functions of the template or client state.
- `__repr__` is not modelled: it only wraps `__str__` (`Templates.Signature`) in `GQLTemplate(...)`.
- InputTrees.ParseInputTree: an input type that refers to itself, such as a filter with an `and: [Filter!]` field, makes `parse_input_tree` recurse without end and raise `RecursionError` (so `str(template)` and `operations` raise too). `InputTrees.TypeDesc` is an inductive datatype and cannot describe such a schema, so the model covers finite, non-recursive input types only.
- Scalars.SerializeScalar: on Python 3.11 and later `json.dumps` of an int with more than 4300 digits raises `ValueError` (the interpreter's configurable int-to-text limit). The model writes every int and does not raise this error.
- The query type is read the same way as the mutation type, but a Strawberry schema always has one, so `Client.NewClient` takes the query fields as a plain list.
- Client.AutoGraphClient.Operations: when a template's method name is `operations`, `setattr` replaces the cached property in the instance dict, and that attribute is then excluded from the listing. The model lists templates from the instance dict only and does not model reading the `operations` attribute back.
- The `level` parameter of `parse_input_tree` is not modelled: it is passed down but never read.
- ResponseTrees.OneLayerOnly: requires the element type not to be `NoneType`, because `Union[None, None]` collapses to `None` in Python and is not a union.
- A `typing.Union` always has a member other than `None` (`ResponseTrees.WellFormed`). The exception `next` would raise on a union of `None` alone cannot arise.
