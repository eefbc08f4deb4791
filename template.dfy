/** The executable template of one schema operation: its argument tree, its
    response fragment, the operation text it sends, and its signature. */
module Templates {
  import opened Wrappers
  import opened Dicts
  import opened Text
  import opened Host
  import opened Values
  import opened Serializer
  import opened FieldTrees
  import opened InputTrees
  import opened ResponseTrees
  import FragmentText

  /** A schema operation field: its arguments by name, in order, and its
      resolved return type. */
  datatype OperationField = OperationField(args: seq<(string, FieldDesc)>, response: ResponseType)

  /** A `GQLExecutableTemplate`, without the schema it executes against. */
  datatype Template = Template(field: OperationField, name: string, isMutation: bool)

  ghost predicate ValidTemplate(t: Template)
  {
    WellFormedResponse(t.field.response)
  }

  /** `reqtype`. */
  function ReqType(t: Template): (r: string)
    ensures r == "mutation" <==> t.isMutation
    ensures r == "query" <==> !t.isMutation
  {
    if t.isMutation then "mutation" else "query"
  }

  /** `method_name`: the attribute the client installs the template under. */
  function MethodName(lib: Library, t: Template): string
  {
    lib.toSnakeCase(t.name)
  }

  /** The one pair `parse_input_tree(argname, argfield)` contributes per argument. */
  function ArgPairs(args: seq<(string, FieldDesc)>): (ps: Dict<Tree>)
    ensures |ps| == |args|
  {
    seq(|args|, i requires 0 <= i < |args| => InputTreeOf(args[i].0, args[i].1).children[0])
  }

  /** `input_tree`: the argument trees chained into one dict. */
  function InputTree(t: Template): Tree
  {
    Node(FromPairs(ArgPairs(t.field.args)))
  }

  /** `fragment_tree`. */
  function OperationFragmentTree(lib: Library, t: Template): Result<Tree, Error>
    requires ValidTemplate(t)
  {
    FragmentTreeOf(lib, t.field.response)
  }

  /** `serialized_fragment_tree`. */
  function OperationFragmentText(lib: Library, t: Template): Result<string, Error>
    requires ValidTemplate(t)
  {
    var tree :- OperationFragmentTree(lib, t);
    Success(FragmentText.SerializedFragmentTree(tree))
  }

  /** The dict `generate_query` builds from its keyword arguments: camel-cased
      names, each value passed through `_try_asdict`. */
  function InputsDict(lib: Library, inputs: seq<(string, Value)>): Dict<Value>
  {
    FromPairs(InputPairs(lib, inputs))
  }

  function InputPairs(lib: Library, inputs: seq<(string, Value)>): (ps: Dict<Value>)
    ensures |ps| == |inputs|
  {
    seq(|inputs|, i requires 0 <= i < |inputs| => (lib.toCamelCase(inputs[i].0), TryAsDict(inputs[i].1)))
  }

  /** `generate_query`: the inputs are serialized first, then the fragment is
      rendered, so an input error is the one reported when both fail. */
  function GenerateQuery(lib: Library, t: Template, inputs: seq<(string, Value)>): Result<string, Error>
    requires ValidTemplate(t)
  {
    var inputsString :- SerializeInput(lib, Mapping(InputsDict(lib, inputs)));
    var operationString :=
      if inputsString != [] then ReqType(t) + " " + t.name + "(" + inputsString + ")"
      else ReqType(t) + " " + t.name;
    var fragment :- OperationFragmentText(lib, t);
    Success(operationString + " {\n" + fragment + "\n}")
  }

  /** The snake-cased keys of `input_tree`, in order. */
  function SnakeArgs(lib: Library, t: Template): (r: seq<string>)
    ensures |r| == |InputTree(t).children|
  {
    var keys := Keys(InputTree(t).children);
    seq(|keys|, i requires 0 <= i < |keys| => lib.toSnakeCase(keys[i]))
  }

  /** `__str__`. */
  function Signature(lib: Library, t: Template): string
  {
    var args := Join(", ", SnakeArgs(lib, t));
    var args := if args != [] then "(" + args + ")" else "";
    ReqType(t) + " " + MethodName(lib, t) + args
  }

  // ---------------------------------------------------------------------------
  // Properties

  /** The keys of `input_tree` are the argument names in argument order (a
      repeated name keeps its first position); with distinct names each entry
      is the argument with the tree of its type. */
  lemma InputTreeKeys(t: Template)
    ensures Keys(InputTree(t).children) == Dedup(Keys(t.field.args))
    ensures Distinct(Keys(t.field.args)) ==>
      && |InputTree(t).children| == |t.field.args|
      && forall i | 0 <= i < |t.field.args| ::
           InputTree(t).children[i] == (t.field.args[i].0, FieldSubtree(t.field.args[i].1))
  {
    var ps := ArgPairs(t.field.args);
    assert Keys(ps) == Keys(t.field.args);
    FromPairsKeys(ps);
    if Distinct(Keys(t.field.args)) {
      FromPairsOfDistinct(ps);
    }
  }

  /** A query succeeds exactly when every input is serializable and the response
      type is a union. An input that cannot be serialized is reported before a
      response type without `.types`. */
  lemma QueryOutcome(lib: Library, t: Template, inputs: seq<(string, Value)>)
    requires ValidTemplate(t)
    ensures GenerateQuery(lib, t, inputs).Success? <==>
      Serializable(Mapping(InputsDict(lib, inputs))) && CoreResponse(t.field.response).StrawberryUnion?
    ensures !Serializable(Mapping(InputsDict(lib, inputs))) ==>
      GenerateQuery(lib, t, inputs) == SerializeInput(lib, Mapping(InputsDict(lib, inputs)))
    ensures Serializable(Mapping(InputsDict(lib, inputs))) && !CoreResponse(t.field.response).StrawberryUnion? ==>
      GenerateQuery(lib, t, inputs) == Failure(MissingTypesAttribute)
  {
    SerializeOutcome(lib, Mapping(InputsDict(lib, inputs)));
    FragmentKeys(lib, t.field.response);
  }

  /** On success the operation text is `reqtype name(` + the serialized inputs +
      `) {` + newline + the fragment + newline + `}`. */
  lemma QueryParts(lib: Library, t: Template, inputs: seq<(string, Value)>)
    requires ValidTemplate(t) && GenerateQuery(lib, t, inputs).Success?
    ensures SerializeInput(lib, Mapping(InputsDict(lib, inputs))).Success?
    ensures OperationFragmentTree(lib, t).Success?
    ensures GenerateQuery(lib, t, inputs).value ==
      ReqType(t) + " " + t.name + "(" + SerializeInput(lib, Mapping(InputsDict(lib, inputs))).value + ") {\n"
      + FragmentText.SerializedFragmentTree(OperationFragmentTree(lib, t).value) + "\n}"
  {
    var d := InputsDict(lib, inputs);
    var text := SerializeInput(lib, Mapping(d)).value;
    SerializeNonEmpty(lib, d);
    assert text != [];
  }

  /** A serialized dict is never the empty string, so the `if inputs_string`
      test always holds. */
  lemma SerializeNonEmpty(lib: Library, d: Dict<Value>)
    requires SerializeInput(lib, Mapping(d)).Success?
    ensures |SerializeInput(lib, Mapping(d)).value| >= 4
  {
  }

  /** `pairs` are the `key: value` texts of the entries of `d`, in order. */
  ghost predicate EntryTexts(lib: Library, d: Dict<Value>, pairs: seq<string>)
  {
    && |pairs| == |d|
    && forall i | 0 <= i < |d| ::
         && SerializeInput(lib, d[i].1).Success?
         && pairs[i] == lib.toCamelCase(d[i].0) + ": " + SerializeInput(lib, d[i].1).value
  }

  /** The operation text is `reqtype name({ k1: v1, ... }) {` + newline + the
      fragment + newline + `}`: the inputs always come in parentheses with their
      braces, each key camel-cased again by the serializer. */
  lemma QueryText(lib: Library, t: Template, inputs: seq<(string, Value)>)
    requires ValidTemplate(t) && GenerateQuery(lib, t, inputs).Success?
    ensures OperationFragmentTree(lib, t).Success?
    ensures exists pairs: seq<string> ::
      && EntryTexts(lib, InputsDict(lib, inputs), pairs)
      && GenerateQuery(lib, t, inputs).value ==
           ReqType(t) + " " + t.name + "({ " + Join(", ", pairs) + " }) {\n"
           + FragmentText.SerializedFragmentTree(OperationFragmentTree(lib, t).value) + "\n}"
  {
    var d := InputsDict(lib, inputs);
    QueryParts(lib, t, inputs);
    PairsText(lib, Mapping(d), |d|);
    var pairs := SerializedPairs(lib, Mapping(d), |d|).value;
    assert EntryTexts(lib, d, pairs);
    assert SerializeInput(lib, Mapping(d)).value == "{ " + Join(", ", pairs) + " }";
    BracedArguments(ReqType(t) + " " + t.name, Join(", ", pairs),
      FragmentText.SerializedFragmentTree(OperationFragmentTree(lib, t).value));
  }

  /** Regrouping the operation text so that the dict's braces sit inside the
      parentheses. */
  lemma BracedArguments(head: string, joined: string, fragment: string)
    ensures head + "(" + ("{ " + joined + " }") + ") {\n" + fragment + "\n}"
         == head + "({ " + joined + " }) {\n" + fragment + "\n}"
  {
  }

  /** With no inputs the argument part is still there, as an empty dict. */
  lemma NoInputs(lib: Library, t: Template)
    requires ValidTemplate(t) && OperationFragmentTree(lib, t).Success?
    ensures GenerateQuery(lib, t, []) ==
      Success(ReqType(t) + " " + t.name + "({  }) {\n"
              + FragmentText.SerializedFragmentTree(OperationFragmentTree(lib, t).value) + "\n}")
  {
    assert InputsDict(lib, []) == [];
    assert SerializedPairs(lib, Mapping([]), 0) == Success([]);
    assert "{ " + Join(", ", []) + " }" == "{  }";
    assert SerializeInput(lib, Mapping([])) == Success("{  }");
    QueryParts(lib, t, []);
    var head, fragment := ReqType(t) + " " + t.name, FragmentText.SerializedFragmentTree(OperationFragmentTree(lib, t).value);
    assert head + "(" + "{  }" + ") {\n" + fragment + "\n}" == head + "({  }) {\n" + fragment + "\n}";
  }

  /** Only a top-level argument goes through `_try_asdict`: a dataclass inside a
      dict argument is refused by the scalar encoder. */
  lemma NestedDataclassArgument(lib: Library, t: Template, arg: string, key: string, name: string, fields: seq<(string, Value)>)
    requires ValidTemplate(t)
    ensures GenerateQuery(lib, t, [(arg, Mapping([(key, Dataclass(name, fields))]))]) == Failure(UnsupportedType(name))
  {
    var inner := Mapping([(key, Dataclass(name, fields))]);
    var ps := InputPairs(lib, [(arg, inner)]);
    assert ps == [(lib.toCamelCase(arg), inner)];
    assert ps[..0] == [];
    assert FromPairs(ps) == Put(FromPairs(ps[..0]), lib.toCamelCase(arg), inner);
    var d := InputsDict(lib, [(arg, inner)]);
    assert d == [(lib.toCamelCase(arg), inner)];
    var v := Mapping(d);
    assert SerializedPairs(lib, inner, 1) == Failure(UnsupportedType(name));
    assert SerializeInput(lib, inner) == Failure(UnsupportedType(name));
    assert SerializedPairs(lib, v, 1) == Failure(UnsupportedType(name));
  }

  /** The arguments `__str__` lists are the keys of `input_tree`, snake-cased,
      in order; there are none exactly when the operation has no arguments. */
  lemma SignatureArgs(lib: Library, t: Template)
    ensures SnakeArgs(lib, t) == [] <==> t.field.args == []
    ensures |SnakeArgs(lib, t)| == |Dedup(Keys(t.field.args))|
    ensures forall i | 0 <= i < |SnakeArgs(lib, t)| ::
      SnakeArgs(lib, t)[i] == lib.toSnakeCase(Dedup(Keys(t.field.args))[i])
  {
    InputTreeKeys(t);
    DedupDistinct(Keys(t.field.args));
    if t.field.args != [] {
      assert Keys(t.field.args)[0] == t.field.args[0].0;
    }
  }

  /** `__str__` is `reqtype method_name`, followed by the argument list in
      parentheses unless it is empty. */
  lemma SignatureShape(lib: Library, t: Template)
    ensures t.field.args == [] ==> Signature(lib, t) == ReqType(t) + " " + MethodName(lib, t)
    ensures SnakeArgs(lib, t) != [] && SnakeArgs(lib, t) != [[]] ==>
      Signature(lib, t) == ReqType(t) + " " + MethodName(lib, t) + "(" + Join(", ", SnakeArgs(lib, t)) + ")"
  {
    SignatureArgs(lib, t);
    JoinEmpty(", ", SnakeArgs(lib, t));
  }
}
