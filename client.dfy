/** The client object: one template per schema operation, installed as an
    attribute under its snake-cased name, and the `operations` listing. */
module Client {
  import opened Wrappers
  import opened Dicts
  import opened Host
  import opened Values
  import opened Templates

  /** A value in the client's instance dict: the schema, or a template. */
  datatype Attribute = SchemaObject | TemplateObject(template: Template)

  /** The templates `__init__` builds: every query, then every mutation, each in
      schema order. */
  function SchemaTemplates(queries: seq<(string, OperationField)>, mutations: seq<(string, OperationField)>): (ts: seq<Template>)
    ensures |ts| == |queries| + |mutations|
    ensures forall i | 0 <= i < |queries| :: ts[i] == Template(queries[i].1, queries[i].0, false)
    ensures forall i | 0 <= i < |mutations| :: ts[|queries| + i] == Template(mutations[i].1, mutations[i].0, true)
  {
    seq(|queries|, i requires 0 <= i < |queries| => Template(queries[i].1, queries[i].0, false))
    + seq(|mutations|, i requires 0 <= i < |mutations| => Template(mutations[i].1, mutations[i].0, true))
  }

  /** The attribute assignments of `__init__`, in order: the schema first, then
      each template under its method name. */
  function Assignments(lib: Library, templates: seq<Template>): (ps: Dict<Attribute>)
    ensures |ps| == |templates| + 1
  {
    [("schema", SchemaObject)]
    + seq(|templates|, i requires 0 <= i < |templates| => (MethodName(lib, templates[i]), TemplateObject(templates[i])))
  }

  /** Whether `operations` lists an attribute of this name. */
  predicate Shown(name: string)
  {
    name != "schema" && name != "operations" && !(|name| > 0 && name[0] == '_')
  }

  /** Only the `schema` attribute holds the schema. */
  ghost predicate SchemaOnlyUnderItsName(attrs: Dict<Attribute>)
  {
    forall i | 0 <= i < |attrs| :: attrs[i].1.SchemaObject? ==> attrs[i].0 == "schema"
  }

  /** The templates `operations` lists for an instance dict: those under shown
      names, in dict order. */
  function ShownTemplates(attrs: Dict<Attribute>): seq<Template>
    requires SchemaOnlyUnderItsName(attrs)
  {
    if attrs == [] then []
    else
      var (name, value) := attrs[|attrs| - 1];
      ShownTemplates(attrs[..|attrs| - 1]) + if Shown(name) then [value.template] else []
  }

  class AutoGraphClient {
    const lib: Library
    /** The instance dict, `self.__dict__`, in insertion order. */
    var attributes: Dict<Attribute>

    /** Attribute names are distinct, the schema is the first attribute, and
        every template sits under its own method name. */
    ghost predicate Valid()
      reads this
    {
      && Distinct(Keys(attributes))
      && |attributes| > 0 && attributes[0].0 == "schema"
      && SchemaOnlyUnderItsName(attributes)
      && forall i | 0 <= i < |attributes| ::
           attributes[i].1.TemplateObject? ==> attributes[i].0 == MethodName(lib, attributes[i].1.template)
    }

    /** `AutoGraphClient.__init__` once the query and mutation fields are read:
        store the schema, then install every query template and every mutation
        template in turn. */
    constructor(lib: Library, queries: seq<(string, OperationField)>, mutations: seq<(string, OperationField)>)
      ensures Valid()
      ensures this.lib == lib
      ensures attributes == FromPairs(Assignments(lib, SchemaTemplates(queries, mutations)))
    {
      this.lib := lib;
      attributes := [("schema", SchemaObject)];
      new;
      assert Keys(attributes) == ["schema"];
      InstallAll(SchemaTemplates(queries, mutations));
    }

    /** The `for template in ...: setattr(...)` loop of `__init__`, from the
        instance dict that holds only the schema. */
    method InstallAll(templates: seq<Template>)
      requires Valid() && attributes == [("schema", SchemaObject)]
      modifies this
      ensures Valid()
      ensures attributes == FromPairs(Assignments(lib, templates))
    {
      AssignmentsStart(lib, templates);
      for i := 0 to |templates|
        invariant Valid()
        invariant attributes == FromPairs(Assignments(lib, templates)[..i + 1])
      {
        Install(templates[i]);
        AssignmentsStep(lib, templates, i);
      }
      assert Assignments(lib, templates)[..|templates| + 1] == Assignments(lib, templates);
    }

    /** `setattr(self, template.method_name, template)`. */
    method Install(template: Template)
      requires Valid()
      modifies this
      ensures Valid()
      ensures attributes == Put(old(attributes), MethodName(lib, template), TemplateObject(template))
    {
      var name := MethodName(lib, template);
      PutKeepsValid(attributes, name, template);
      attributes := Put(attributes, name, TemplateObject(template));
    }

    /** `operations`: `str` of each shown template. */
    function Operations(): seq<string>
      requires Valid()
      reads this
    {
      var templates := ShownTemplates(attributes);
      seq(|templates|, i requires 0 <= i < |templates| => Signature(lib, templates[i]))
    }

    /** `operations` holds one `str` per template under a shown name, and nothing else. */
    lemma OperationsListed()
      requires Valid()
      ensures |Operations()| == |ShownTemplates(attributes)|
      ensures forall s :: s in Operations() <==>
        exists i | 0 <= i < |attributes| ::
          Shown(attributes[i].0) && attributes[i].1.TemplateObject? && s == Signature(lib, attributes[i].1.template)
    {
      var ts := ShownTemplates(attributes);
      forall s | s in Operations()
        ensures exists i | 0 <= i < |attributes| ::
          Shown(attributes[i].0) && attributes[i].1.TemplateObject? && s == Signature(lib, attributes[i].1.template)
      {
        var j :| 0 <= j < |ts| && Operations()[j] == s;
        ShownIff(attributes, ts[j]);
      }
      forall i | 0 <= i < |attributes| && Shown(attributes[i].0) && attributes[i].1.TemplateObject?
        ensures Signature(lib, attributes[i].1.template) in Operations()
      {
        ShownIff(attributes, attributes[i].1.template);
        var j :| 0 <= j < |ts| && ts[j] == attributes[i].1.template;
        assert Operations()[j] == Signature(lib, attributes[i].1.template);
      }
    }

    /** For a client just built from a schema whose method names are distinct and
        not hidden, `operations` is the signature of every query and then every
        mutation, in schema order. */
    lemma OperationsOfSchema(templates: seq<Template>)
      requires Valid()
      requires attributes == FromPairs(Assignments(lib, templates))
      requires Distinct(MethodNames(lib, templates))
      requires forall i | 0 <= i < |templates| :: Shown(MethodName(lib, templates[i]))
      ensures Operations() == seq(|templates|, i requires 0 <= i < |templates| => Signature(lib, templates[i]))
    {
      OperationsInSchemaOrder(lib, templates);
    }

    lemma PutKeepsValid(attrs: Dict<Attribute>, name: string, template: Template)
      requires name == MethodName(lib, template)
      requires Distinct(Keys(attrs)) && |attrs| > 0 && attrs[0].0 == "schema" && SchemaOnlyUnderItsName(attrs)
      requires forall i | 0 <= i < |attrs| :: attrs[i].1.TemplateObject? ==> attrs[i].0 == MethodName(lib, attrs[i].1.template)
      ensures var r := Put(attrs, name, TemplateObject(template));
        && Distinct(Keys(r)) && |r| > 0 && r[0].0 == "schema" && SchemaOnlyUnderItsName(r)
        && forall i | 0 <= i < |r| :: r[i].1.TemplateObject? ==> r[i].0 == MethodName(lib, r[i].1.template)
    {
      PutDistinct(attrs, name, TemplateObject(template));
      PutEntries(attrs, name, TemplateObject(template));
      assert Keys(attrs)[0] == attrs[0].0;
    }
  }

  /** `AutoGraphClient(schema)`. The fields of the query type and of the mutation
      type are read from the schema first; a schema without a mutation type has
      `None` there, and reading its `fields` raises before any client exists. */
  method NewClient(lib: Library, queries: seq<(string, OperationField)>, mutations: Option<seq<(string, OperationField)>>)
    returns (r: Result<AutoGraphClient, Error>)
    ensures r.Success? <==> mutations.Some?
    ensures r.Failure? ==> r.error == MissingMutationType
    ensures r.Success? ==>
      && fresh(r.value) && r.value.Valid() && r.value.lib == lib
      && r.value.attributes == FromPairs(Assignments(lib, SchemaTemplates(queries, mutations.value)))
  {
    if mutations.None? {
      return Failure(MissingMutationType);
    }
    var client := new AutoGraphClient(lib, queries, mutations.value);
    r := Success(client);
  }

  lemma AssignmentsStart(lib: Library, templates: seq<Template>)
    ensures FromPairs(Assignments(lib, templates)[..1]) == [("schema", SchemaObject)]
  {
    assert Assignments(lib, templates)[..1] == [("schema", SchemaObject)];
    assert FromPairs(Assignments(lib, templates)[..1]) == Put(FromPairs([]), "schema", SchemaObject);
  }

  lemma AssignmentsStep(lib: Library, templates: seq<Template>, i: nat)
    requires i < |templates|
    ensures FromPairs(Assignments(lib, templates)[..i + 2])
         == Put(FromPairs(Assignments(lib, templates)[..i + 1]), MethodName(lib, templates[i]), TemplateObject(templates[i]))
  {
    assert Assignments(lib, templates)[..i + 2][..i + 1] == Assignments(lib, templates)[..i + 1];
  }

  // ---------------------------------------------------------------------------
  // Properties

  /** The names of the methods the templates are installed under. */
  function MethodNames(lib: Library, templates: seq<Template>): seq<string>
  {
    seq(|templates|, i requires 0 <= i < |templates| => MethodName(lib, templates[i]))
  }

  /** The client's attributes are `schema` followed by the method names, a
      repeated method name keeping its first position (the later template
      replaces the earlier one). */
  lemma AttributeNames(lib: Library, templates: seq<Template>)
    ensures Keys(FromPairs(Assignments(lib, templates))) == Dedup(["schema"] + MethodNames(lib, templates))
  {
    assert Keys(Assignments(lib, templates)) == ["schema"] + MethodNames(lib, templates);
    FromPairsKeys(Assignments(lib, templates));
  }

  /** When the method names are distinct and none is hidden, `operations` lists
      every query template and then every mutation template, in schema order. */
  lemma OperationsInSchemaOrder(lib: Library, templates: seq<Template>)
    requires Distinct(MethodNames(lib, templates))
    requires forall i | 0 <= i < |templates| :: Shown(MethodName(lib, templates[i]))
    ensures SchemaOnlyUnderItsName(FromPairs(Assignments(lib, templates)))
    ensures ShownTemplates(FromPairs(Assignments(lib, templates))) == templates
  {
    var ps := Assignments(lib, templates);
    assert Keys(ps) == ["schema"] + MethodNames(lib, templates);
    assert Distinct(Keys(ps)) by {
      forall i, j | 0 <= i < j < |ps| ensures Keys(ps)[i] != Keys(ps)[j] {
        if i == 0 {
          assert Shown(MethodName(lib, templates[j - 1]));
        } else {
          assert MethodNames(lib, templates)[i - 1] != MethodNames(lib, templates)[j - 1];
        }
      }
    }
    FromPairsOfDistinct(ps);
    assert FromPairs(ps) == ps;
    ShownAssignments(lib, templates, |templates|);
    assert ps[..|templates| + 1] == ps;
    assert templates[..|templates|] == templates;
  }

  lemma {:induction false} ShownAssignments(lib: Library, templates: seq<Template>, n: nat)
    requires n <= |templates|
    requires forall i | 0 <= i < |templates| :: Shown(MethodName(lib, templates[i]))
    ensures SchemaOnlyUnderItsName(Assignments(lib, templates)[..n + 1])
    ensures ShownTemplates(Assignments(lib, templates)[..n + 1]) == templates[..n]
  {
    var ps := Assignments(lib, templates);
    if n == 0 {
      assert ps[..1] == [("schema", SchemaObject)];
      assert ps[..1][..0] == [];
    } else {
      ShownAssignments(lib, templates, n - 1);
      var prefix, last := ps[..n], ps[n];
      assert last == (MethodName(lib, templates[n - 1]), TemplateObject(templates[n - 1]));
      assert ps[..n + 1] == prefix + [last];
      ShownSnoc(prefix, last);
      assert templates[..n] == templates[..n - 1] + [templates[n - 1]];
    }
  }

  /** One more attribute: its template is listed after the others when its
      name is shown. */
  lemma ShownSnoc(attrs: Dict<Attribute>, entry: (string, Attribute))
    requires SchemaOnlyUnderItsName(attrs)
    requires entry.1.SchemaObject? ==> entry.0 == "schema"
    ensures SchemaOnlyUnderItsName(attrs + [entry])
    ensures ShownTemplates(attrs + [entry])
         == ShownTemplates(attrs) + if Shown(entry.0) then [entry.1.template] else []
  {
    assert (attrs + [entry])[..|attrs|] == attrs;
  }

  /** `operations` lists exactly the templates installed under shown names. */
  lemma {:induction false} ShownIff(attrs: Dict<Attribute>, t: Template)
    requires SchemaOnlyUnderItsName(attrs)
    ensures t in ShownTemplates(attrs) <==>
      exists i | 0 <= i < |attrs| :: Shown(attrs[i].0) && attrs[i].1 == TemplateObject(t)
  {
    if attrs != [] {
      var n := |attrs| - 1;
      var init, last := attrs[..n], attrs[n];
      assert attrs == init + [last];
      assert SchemaOnlyUnderItsName(init);
      ShownIff(init, t);
      ShownSnoc(init, last);
      if t in ShownTemplates(attrs) && t !in ShownTemplates(init) {
        assert Shown(last.0) && last.1 == TemplateObject(t);
      }
      if t in ShownTemplates(init) {
        var i :| 0 <= i < n && Shown(init[i].0) && init[i].1 == TemplateObject(t);
        assert attrs[i] == init[i];
      }
      if exists i | 0 <= i < |attrs| :: Shown(attrs[i].0) && attrs[i].1 == TemplateObject(t) {
        var i :| 0 <= i < |attrs| && Shown(attrs[i].0) && attrs[i].1 == TemplateObject(t);
        if i < n {
          assert init[i] == attrs[i];
        }
      }
    }
  }

}
