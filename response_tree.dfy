/** The response-tree builder: a response type's field annotations walked into a
    FieldTree, and a union response fanned out by member type. */
module ResponseTrees {
  import opened Wrappers
  import opened Dicts
  import opened Host
  import opened Values
  import opened FieldTrees

  /** A Python type annotation, as the builder inspects it. `Class` is a class
      with an `__annotations__` dict; `UnionOf` is anything whose `get_origin` is
      `typing.Union` (an `Optional[X]` is `Union[X, None]`); `ListType` is
      `list[X]`; `NoneType` is `type(None)`; `Opaque` is everything else, which has
      no `__annotations__` of its own: scalars, enums, `X | None`, string annotations. */
  datatype Annotation =
    | Class(cls: TypeClass)
    | UnionOf(args: seq<Annotation>)
    | ListType(element: Annotation)
    | NoneType
    | Opaque

  /** A Strawberry type: `__strawberry_definition__.name` and the class's
      annotations in declaration order. */
  datatype TypeClass = TypeClass(definitionName: string, annotations: seq<(string, Annotation)>)

  /** The resolved return type of an operation field: Strawberry's optional and
      list wrappers expose `of_type`; a union exposes its member types as `types`;
      any other type has neither. */
  datatype ResponseType =
    | StrawberryWrapper(ofType: ResponseType)
    | StrawberryUnion(types: seq<TypeClass>)
    | NonUnion(type_: Annotation)

  /** `typing.Union` never holds `None` alone: every union has another member. */
  ghost predicate WellFormed(a: Annotation)
  {
    match a
    case Class(c) => forall i | 0 <= i < |c.annotations| :: WellFormed(c.annotations[i].1)
    case UnionOf(args) =>
      && (exists i | 0 <= i < |args| :: !args[i].NoneType?)
      && forall i | 0 <= i < |args| :: WellFormed(args[i])
    case ListType(e) => WellFormed(e)
    case _ => true
  }

  ghost predicate WellFormedResponse(r: ResponseType)
  {
    match r
    case StrawberryWrapper(of) => WellFormedResponse(of)
    case StrawberryUnion(types) => forall i | 0 <= i < |types| :: WellFormed(Class(types[i]))
    case NonUnion(_) => true
  }

  /** `next(typ for typ in args if typ is not type(None))`, as an index. */
  function FirstNonNone(args: seq<Annotation>): (k: nat)
    requires exists i | 0 <= i < |args| :: !args[i].NoneType?
    ensures k < |args| && !args[k].NoneType?
    ensures forall j | 0 <= j < k :: args[j].NoneType?
  {
    if !args[0].NoneType? then 0
    else
      assert forall i | 1 <= i < |args| :: args[1..][i - 1] == args[i];
      1 + FirstNonNone(args[1..])
  }

  /** The annotation one layer in: the first non-None member of a Union, the element
      of a list, or the annotation itself. */
  function StripOneLayer(a: Annotation): Annotation
    requires WellFormed(a)
  {
    match a
    case UnionOf(args) => args[FirstNonNone(args)]
    case ListType(e) => e
    case _ => a
  }

  /** What `unwrap_strawberry_type(a)` returns. */
  function ResponseTree(lib: Library, a: Annotation): Tree
    requires WellFormed(a)
    decreases a, 1
  {
    if a.Class? then Node(FromPairs(AnnotationPairs(lib, a, |a.cls.annotations|))) else Node([])
  }

  /** The (camel-cased name, subtree) pairs of the first `n` annotations. */
  function AnnotationPairs(lib: Library, a: Annotation, n: nat): (ps: Dict<Tree>)
    requires a.Class? && n <= |a.cls.annotations| && WellFormed(a)
    ensures |ps| == n
    decreases a, 0, n
  {
    if n == 0 then []
    else
      var (name, fieldType) := a.cls.annotations[n - 1];
      AnnotationPairs(lib, a, n - 1) + [(lib.toCamelCase(name), FieldResponseTree(lib, fieldType))]
  }

  /** The subtree of a field: one Optional or list layer is stripped, then the
      annotation is walked. */
  function FieldResponseTree(lib: Library, fieldType: Annotation): Tree
    requires WellFormed(fieldType)
    decreases fieldType, 2
  {
    match fieldType
    case UnionOf(args) => ResponseTree(lib, args[FirstNonNone(args)])
    case ListType(e) => ResponseTree(lib, e)
    case _ => ResponseTree(lib, fieldType)
  }

  /** `unwrap_strawberry_type`: for each annotation in order, strip one Optional or
      list layer, walk the result, and store it under the camel-cased field name. */
  method UnwrapStrawberryType(lib: Library, type_: Annotation) returns (tree: Tree)
    requires WellFormed(type_)
    ensures tree == ResponseTree(lib, type_)
    decreases type_
  {
    if !type_.Class? {
      return Node([]);
    }
    var annotations := type_.cls.annotations;
    var entries: Dict<Tree> := [];
    for i := 0 to |annotations|
      invariant entries == FromPairs(AnnotationPairs(lib, type_, i))
    {
      var (fieldName, fieldType) := annotations[i];
      var inner := fieldType;
      if fieldType.UnionOf? {
        inner := fieldType.args[FirstNonNone(fieldType.args)];
      } else if fieldType.ListType? {
        inner := fieldType.element;
      }
      var subtree := UnwrapStrawberryType(lib, inner);
      entries := Put(entries, lib.toCamelCase(fieldName), subtree);
      assert AnnotationPairs(lib, type_, i + 1)[..i] == AnnotationPairs(lib, type_, i);
    }
    tree := Node(entries);
  }

  /** The (definition name, tree) pairs of a union's member types. */
  function MemberPairs(lib: Library, types: seq<TypeClass>): (ps: Dict<Tree>)
    requires forall i | 0 <= i < |types| :: WellFormed(Class(types[i]))
    ensures |ps| == |types|
  {
    seq(|types|, i requires 0 <= i < |types| => (types[i].definitionName, ResponseTree(lib, Class(types[i]))))
  }

  /** What the `fragment_tree` property computes: `.types` is read after the
      wrappers are stripped, so a response type that is not a union fails. */
  function FragmentTreeOf(lib: Library, response: ResponseType): Result<Tree, Error>
    requires WellFormedResponse(response)
  {
    match response
    case StrawberryWrapper(of) => FragmentTreeOf(lib, of)
    case StrawberryUnion(types) => Success(Node(FromPairs(MemberPairs(lib, types))))
    case NonUnion(_) => Failure(MissingTypesAttribute)
  }

  /** `fragment_tree`: follow `of_type` to the innermost type, then key the tree of
      each union member by its definition name. */
  method FragmentTree(lib: Library, response: ResponseType) returns (r: Result<Tree, Error>)
    requires WellFormedResponse(response)
    ensures r == FragmentTreeOf(lib, response)
  {
    var responseType := response;
    while responseType.StrawberryWrapper?
      invariant WellFormedResponse(responseType)
      invariant FragmentTreeOf(lib, responseType) == FragmentTreeOf(lib, response)
      decreases responseType
    {
      responseType := responseType.ofType;
    }
    if !responseType.StrawberryUnion? {
      return Failure(MissingTypesAttribute);
    }
    var models := responseType.types;
    var fragments: Dict<Tree> := [];
    for i := 0 to |models|
      invariant fragments == FromPairs(MemberPairs(lib, models)[..i])
    {
      var fragment := UnwrapStrawberryType(lib, Class(models[i]));
      fragments := Put(fragments, models[i].definitionName, fragment);
      assert MemberPairs(lib, models)[..i + 1][..i] == MemberPairs(lib, models)[..i];
    }
    assert MemberPairs(lib, models)[..|models|] == MemberPairs(lib, models);
    r := Success(Node(fragments));
  }

  // ---------------------------------------------------------------------------
  // Properties

  function CamelNames(lib: Library, c: TypeClass): seq<string>
  {
    seq(|c.annotations|, i requires 0 <= i < |c.annotations| => lib.toCamelCase(c.annotations[i].0))
  }

  lemma {:induction false} AnnotationPairsAt(lib: Library, a: Annotation, n: nat)
    requires a.Class? && n <= |a.cls.annotations| && WellFormed(a)
    ensures forall i | 0 <= i < n ::
      AnnotationPairs(lib, a, n)[i] == (lib.toCamelCase(a.cls.annotations[i].0), FieldResponseTree(lib, a.cls.annotations[i].1))
  {
    if n > 0 {
      AnnotationPairsAt(lib, a, n - 1);
    }
  }

  /** The keys are the camel-cased annotation names in annotation order (a name that
      camel-cases like an earlier one replaces that entry's subtree in place). */
  lemma ResponseKeys(lib: Library, c: TypeClass)
    requires WellFormed(Class(c))
    ensures Keys(ResponseTree(lib, Class(c)).children) == Dedup(CamelNames(lib, c))
  {
    var a := Class(c);
    AnnotationPairsAt(lib, a, |c.annotations|);
    assert Keys(AnnotationPairs(lib, a, |c.annotations|)) == CamelNames(lib, c);
    FromPairsKeys(AnnotationPairs(lib, a, |c.annotations|));
  }

  /** With distinct camel-cased names there is exactly one entry per annotation, in
      annotation order, holding the subtree of the annotation with one layer stripped. */
  lemma ResponseEntries(lib: Library, c: TypeClass)
    requires WellFormed(Class(c)) && Distinct(CamelNames(lib, c))
    ensures |ResponseTree(lib, Class(c)).children| == |c.annotations|
    ensures forall i | 0 <= i < |c.annotations| ::
      && WellFormed(c.annotations[i].1)
      && ResponseTree(lib, Class(c)).children[i]
         == (lib.toCamelCase(c.annotations[i].0), ResponseTree(lib, StripOneLayer(c.annotations[i].1)))
  {
    var a := Class(c);
    var ps := AnnotationPairs(lib, a, |c.annotations|);
    AnnotationPairsAt(lib, a, |c.annotations|);
    assert Keys(ps) == CamelNames(lib, c);
    FromPairsOfDistinct(ps);
  }

  /** A type with no annotations (a scalar, an enum, a list or union alias, or a
      class without fields) gives an empty tree. */
  lemma EmptyWithoutAnnotations(lib: Library, a: Annotation)
    requires WellFormed(a)
    ensures ResponseTree(lib, a).children == [] <==> !a.Class? || a.cls.annotations == []
  {
    if a.Class? && a.cls.annotations != [] {
      var ps := AnnotationPairs(lib, a, |a.cls.annotations|);
      assert Keys(ps)[0] in Keys(ps);
    }
  }

  /** Only one layer is stripped: a field annotated `Optional[list[X]]` or
      `list[list[X]]` gets an empty subtree, whatever X is. */
  lemma OneLayerOnly(lib: Library, x: Annotation)
    requires WellFormed(x) && !x.NoneType?
    ensures WellFormed(UnionOf([ListType(x), NoneType]))
      && FieldResponseTree(lib, UnionOf([ListType(x), NoneType])).children == []
    ensures WellFormed(UnionOf([NoneType, ListType(x)]))
      && FieldResponseTree(lib, UnionOf([NoneType, ListType(x)])).children == []
    ensures FieldResponseTree(lib, ListType(ListType(x))).children == []
    ensures WellFormed(ListType(UnionOf([x, NoneType])))
      && FieldResponseTree(lib, ListType(UnionOf([x, NoneType]))).children == []
  {
    var u1, u2 := [ListType(x), NoneType], [NoneType, ListType(x)];
    assert !u1[0].NoneType? && WellFormed(u1[0]) && WellFormed(u1[1]);
    assert !u2[1].NoneType? && WellFormed(u2[0]) && WellFormed(u2[1]);
    var u3 := [x, NoneType];
    assert !u3[0].NoneType? && WellFormed(u3[1]);
  }

  function DefinitionNames(types: seq<TypeClass>): seq<string>
  {
    seq(|types|, i requires 0 <= i < |types| => types[i].definitionName)
  }

  /** The innermost response type under Strawberry's wrappers. */
  function CoreResponse(r: ResponseType): (c: ResponseType)
    ensures !c.StrawberryWrapper?
  {
    if r.StrawberryWrapper? then CoreResponse(r.ofType) else r
  }

  /** The fragment tree exists exactly when the innermost response type is a union;
      its keys are then the members' definition names in member order. */
  lemma {:induction false} FragmentKeys(lib: Library, response: ResponseType)
    requires WellFormedResponse(response)
    ensures FragmentTreeOf(lib, response).Success? <==> CoreResponse(response).StrawberryUnion?
    ensures FragmentTreeOf(lib, response).Failure? ==> FragmentTreeOf(lib, response).error == MissingTypesAttribute
    ensures FragmentTreeOf(lib, response).Success? ==>
      Keys(FragmentTreeOf(lib, response).value.children) == Dedup(DefinitionNames(CoreResponse(response).types))
  {
    match response
    case StrawberryWrapper(of) => FragmentKeys(lib, of);
    case StrawberryUnion(types) =>
      assert Keys(MemberPairs(lib, types)) == DefinitionNames(types);
      FromPairsKeys(MemberPairs(lib, types));
    case NonUnion(_) =>
  }

  /** Under a union, each member's definition name holds the tree of that member;
      when two members share a name, the later one's tree is kept. With distinct
      names the entries are the members, in member order. */
  lemma {:induction false} FragmentEntries(lib: Library, response: ResponseType)
    requires WellFormedResponse(response)
    ensures var core := CoreResponse(response);
      core.StrawberryUnion? ==>
        && (forall i | 0 <= i < |core.types| :: WellFormed(Class(core.types[i])))
        && FragmentTreeOf(lib, response).Success?
        && (forall i | 0 <= i < |core.types| &&
                (forall j | i < j < |core.types| :: core.types[j].definitionName != core.types[i].definitionName) ::
              Get(FragmentTreeOf(lib, response).value.children, core.types[i].definitionName)
              == Some(ResponseTree(lib, Class(core.types[i]))))
        && (Distinct(DefinitionNames(core.types)) ==>
              && |FragmentTreeOf(lib, response).value.children| == |core.types|
              && forall i | 0 <= i < |core.types| ::
                   FragmentTreeOf(lib, response).value.children[i]
                   == (core.types[i].definitionName, ResponseTree(lib, Class(core.types[i]))))
  {
    match response
    case StrawberryWrapper(of) => FragmentEntries(lib, of);
    case StrawberryUnion(types) =>
      var ps := MemberPairs(lib, types);
      forall i | 0 <= i < |types| && (forall j | i < j < |types| :: types[j].definitionName != types[i].definitionName)
        ensures Get(FromPairs(ps), types[i].definitionName) == Some(ResponseTree(lib, Class(types[i])))
      {
        FromPairsGet(ps, i);
      }
      if Distinct(DefinitionNames(types)) {
        assert Keys(ps) == DefinitionNames(types);
        FromPairsOfDistinct(ps);
      }
    case NonUnion(_) =>
  }

  /** Every level of a response tree has distinct keys. */
  lemma {:induction false} ResponseTreeWellKeyed(lib: Library, a: Annotation)
    requires WellFormed(a)
    ensures WellKeyed(ResponseTree(lib, a))
    decreases a, 1
  {
    if a.Class? {
      PairsWellKeyed(lib, a, |a.cls.annotations|);
      FromPairsKeepsValues(AnnotationPairs(lib, a, |a.cls.annotations|));
    }
  }

  lemma {:induction false} PairsWellKeyed(lib: Library, a: Annotation, n: nat)
    requires a.Class? && n <= |a.cls.annotations| && WellFormed(a)
    ensures forall i | 0 <= i < n :: WellKeyed(AnnotationPairs(lib, a, n)[i].1)
    decreases a, 0, n
  {
    if n > 0 {
      PairsWellKeyed(lib, a, n - 1);
      var fieldType := a.cls.annotations[n - 1].1;
      match fieldType
      case UnionOf(args) => ResponseTreeWellKeyed(lib, args[FirstNonNone(args)]);
      case ListType(e) => ResponseTreeWellKeyed(lib, e);
      case _ => ResponseTreeWellKeyed(lib, fieldType);
    }
  }
}
