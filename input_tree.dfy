/** The input-tree builder: an operation argument's declared type, unwrapped and
    expanded into a FieldTree of its input-object fields. */
module InputTrees {
  import opened Dicts
  import opened FieldTrees

  /** A GraphQL input type as the schema describes it: a wrapper (non-null or list)
      exposing `of_type`, or a named type whose `fields` are its input-object fields
      in declaration order (none for a scalar or an enum). */
  datatype TypeDesc =
    | Wrapped(ofType: TypeDesc)
    | Named(fields: seq<(string, FieldDesc)>)

  /** An argument or input field; `Untyped` when it has no `type` attribute. */
  datatype FieldDesc = Untyped | Typed(typ: TypeDesc)

  /** The named type under all the wrappers. */
  function Core(t: TypeDesc): (c: TypeDesc)
    ensures c.Named?
  {
    match t
    case Wrapped(of) => Core(of)
    case Named(_) => t
  }

  /** The subtree below a field of type `t`. */
  function TypeSubtree(t: TypeDesc): Tree
    decreases t, 1
  {
    match t
    case Wrapped(of) => TypeSubtree(of)
    case Named(fields) => Node(FromPairs(FieldPairs(t, |fields|)))
  }

  /** The (name, subtree) pairs of the first `n` fields of a named type. */
  function FieldPairs(t: TypeDesc, n: nat): (ps: Dict<Tree>)
    requires t.Named? && n <= |t.fields|
    ensures Keys(ps) == Keys(t.fields[..n])
    decreases t, 0, n
  {
    if n == 0 then []
    else
      var ps := FieldPairs(t, n - 1) + [(t.fields[n - 1].0, FieldSubtree(t.fields[n - 1].1))];
      assert Keys(ps) == Keys(t.fields[..n]) by {
        assert t.fields[..n] == t.fields[..n - 1] + [t.fields[n - 1]];
        KeysSnoc(t.fields[..n - 1], t.fields[n - 1]);
        KeysSnoc(FieldPairs(t, n - 1), (t.fields[n - 1].0, FieldSubtree(t.fields[n - 1].1)));
      }
      ps
  }

  function FieldSubtree(f: FieldDesc): Tree
    decreases f, 2
  {
    match f
    case Untyped => Node([])
    case Typed(t) => TypeSubtree(t)
  }

  /** What `parse_input_tree(name, field)` returns. */
  function InputTreeOf(name: string, f: FieldDesc): Tree
  {
    Node([(name, FieldSubtree(f))])
  }

  // A bound on the nesting of a type, which the recursive method descends.

  function Height(t: TypeDesc): nat
    decreases t, 1
  {
    match t
    case Wrapped(of) => 1 + Height(of)
    case Named(fields) => 1 + FieldsHeight(t, |fields|)
  }

  function FieldsHeight(t: TypeDesc, n: nat): (h: nat)
    requires t.Named? && n <= |t.fields|
    ensures forall i | 0 <= i < n :: FieldHeight(t.fields[i].1) <= h
    decreases t, 0, n
  {
    if n == 0 then 0
    else
      var a, b := FieldsHeight(t, n - 1), FieldHeight(t.fields[n - 1].1);
      if a < b then b else a
  }

  function FieldHeight(f: FieldDesc): nat
    decreases f, 2
  {
    match f
    case Untyped => 0
    case Typed(t) => 1 + Height(t)
  }

  /** `parse_input_tree`: a one-entry tree keyed by the field's name. A field
      without a type is a leaf; otherwise the `of_type` chain is followed to the
      named type and each of its fields is parsed in turn into the subtree. */
  method ParseInputTree(name: string, field: FieldDesc) returns (tree: Tree)
    ensures tree == InputTreeOf(name, field)
    decreases FieldHeight(field)
  {
    if field.Untyped? {
      return Node([(name, Node([]))]);
    }
    var fieldType := field.typ;
    while fieldType.Wrapped?
      invariant TypeSubtree(fieldType) == TypeSubtree(field.typ)
      invariant Height(fieldType) <= Height(field.typ)
      decreases fieldType
    {
      fieldType := fieldType.ofType;
    }
    var subfields: Dict<Tree> := [];
    for i := 0 to |fieldType.fields|
      invariant subfields == FromPairs(FieldPairs(fieldType, i))
    {
      var (fname, subfield) := fieldType.fields[i];
      FieldLower(fieldType, i);
      var parsed := ParseInputTree(fname, subfield);
      subfields := Put(subfields, parsed.children[0].0, parsed.children[0].1);
      PairsStep(fieldType, i);
    }
    tree := Node([(name, Node(subfields))]);
  }

  lemma FieldLower(t: TypeDesc, i: nat)
    requires t.Named? && i < |t.fields|
    ensures FieldHeight(t.fields[i].1) < Height(t)
  {
  }

  lemma PairsStep(t: TypeDesc, i: nat)
    requires t.Named? && i < |t.fields|
    ensures FromPairs(FieldPairs(t, i + 1))
         == Put(FromPairs(FieldPairs(t, i)), t.fields[i].0, FieldSubtree(t.fields[i].1))
  {
    assert FieldPairs(t, i + 1)[..i] == FieldPairs(t, i);
  }

  // ---------------------------------------------------------------------------
  // Properties

  /** `k` layers of wrappers around `t`. */
  function Wrap(k: nat, t: TypeDesc): TypeDesc
  {
    if k == 0 then t else Wrapped(Wrap(k - 1, t))
  }

  /** Any depth of non-null and list wrapping leaves the tree unchanged. */
  lemma {:induction false} WrappersTransparent(name: string, k: nat, t: TypeDesc)
    ensures TypeSubtree(Wrap(k, t)) == TypeSubtree(t)
    ensures InputTreeOf(name, Typed(Wrap(k, t))) == InputTreeOf(name, Typed(t))
  {
    if k > 0 {
      WrappersTransparent(name, k - 1, t);
    }
  }

  /** The subtree is that of the named type under the wrappers. */
  lemma {:induction false} SubtreeOfCore(t: TypeDesc)
    ensures TypeSubtree(t) == TypeSubtree(Core(t))
  {
    if t.Wrapped? {
      SubtreeOfCore(t.ofType);
    }
  }

  /** A field is a leaf exactly when it has no type or its named type has no fields. */
  lemma LeafIff(f: FieldDesc)
    ensures FieldSubtree(f).children == [] <==> f.Untyped? || Core(f.typ).fields == []
  {
    if f.Typed? {
      SubtreeOfCore(f.typ);
      var c := Core(f.typ);
      assert |Keys(FromPairs(FieldPairs(c, |c.fields|)))| == 0 <==> |Dedup(Keys(c.fields[..|c.fields|]))| == 0;
      assert c.fields[..|c.fields|] == c.fields;
      if c.fields != [] {
        assert Keys(c.fields)[0] == c.fields[0].0;
      }
    }
  }

  /** The children follow the named type's fields, in declaration order, each with
      the subtree of its own type. */
  lemma NamedChildren(t: TypeDesc)
    requires t.Named? && Distinct(Keys(t.fields))
    ensures |TypeSubtree(t).children| == |t.fields|
    ensures forall i | 0 <= i < |t.fields| ::
      TypeSubtree(t).children[i] == (t.fields[i].0, FieldSubtree(t.fields[i].1))
  {
    var ps := FieldPairs(t, |t.fields|);
    assert t.fields[..|t.fields|] == t.fields;
    FromPairsOfDistinct(ps);
    FieldPairsAt(t, |t.fields|);
  }

  lemma {:induction false} FieldPairsAt(t: TypeDesc, n: nat)
    requires t.Named? && n <= |t.fields|
    ensures |FieldPairs(t, n)| == n
    ensures forall i | 0 <= i < n :: FieldPairs(t, n)[i] == (t.fields[i].0, FieldSubtree(t.fields[i].1))
  {
    if n > 0 {
      FieldPairsAt(t, n - 1);
    }
  }

  /** Every level of an input tree has distinct keys. */
  lemma {:induction false} FieldSubtreeWellKeyed(f: FieldDesc)
    ensures WellKeyed(FieldSubtree(f))
    decreases f, 2
  {
    if f.Typed? {
      TypeSubtreeWellKeyed(f.typ);
    }
  }

  lemma {:induction false} TypeSubtreeWellKeyed(t: TypeDesc)
    ensures WellKeyed(TypeSubtree(t))
    decreases t, 1
  {
    match t
    case Wrapped(of) => TypeSubtreeWellKeyed(of);
    case Named(fields) =>
      var ps := FieldPairs(t, |fields|);
      PairsWellKeyed(t, |fields|);
      FromPairsKeepsValues(ps);
  }

  lemma {:induction false} PairsWellKeyed(t: TypeDesc, n: nat)
    requires t.Named? && n <= |t.fields|
    ensures forall i | 0 <= i < n :: WellKeyed(FieldPairs(t, n)[i].1)
    decreases t, 0, n
  {
    if n > 0 {
      PairsWellKeyed(t, n - 1);
      FieldSubtreeWellKeyed(t.fields[n - 1].1);
    }
  }
}
