/** The value serializer: nested argument values to GraphQL literal text. */
module Serializer {
  import opened Wrappers
  import opened Dicts
  import opened Text
  import opened Host
  import opened Values
  import opened Scalars

  /** `GQLExecutableTemplate.serialize_input`. A dict becomes `{ k1: v1, k2: v2 }`
      with camel-cased keys in the dict's order, a list becomes `[ v1, v2 ]`, and
      anything else goes to the scalar encoder. Items are serialized in order and
      the first exception propagates; a list's items are all serialized before
      `str.join` checks that each of them is a string. */
  function SerializeInput(lib: Library, v: Value): (r: Result<string, Error>)
    decreases v, 1
  {
    match v
    case Mapping(entries) =>
      var pairs :- SerializedPairs(lib, v, |entries|);
      Success("{ " + Join(", ", pairs) + " }")
    case List(items) =>
      var elements :- SerializedItems(lib, v, |items|);
      if exists i | 0 <= i < |items| :: NonStrEnum(items[i]) then Failure(NonStrJoinItem)
      else Success("[ " + Join(", ", elements) + " ]")
    case _ => SerializeScalar(lib, v)
  }

  /** The `key: value` texts of the first `n` entries of a dict. */
  function SerializedPairs(lib: Library, v: Value, n: nat): Result<seq<string>, Error>
    requires v.Mapping? && n <= |v.entries|
    decreases v, 0, n
  {
    if n == 0 then Success([])
    else
      var init :- SerializedPairs(lib, v, n - 1);
      var text :- SerializeInput(lib, v.entries[n - 1].1);
      Success(init + [lib.toCamelCase(v.entries[n - 1].0) + ": " + text])
  }

  /** The texts of the first `n` items of a list. */
  function SerializedItems(lib: Library, v: Value, n: nat): Result<seq<string>, Error>
    requires v.List? && n <= |v.items|
    decreases v, 0, n
  {
    if n == 0 then Success([])
    else
      var init :- SerializedItems(lib, v, n - 1);
      var text :- SerializeInput(lib, v.items[n - 1]);
      Success(init + [text])
  }

  // ---------------------------------------------------------------------------
  // When serialization succeeds, and what a failure reports

  /** Every leaf is a scalar, and no list holds an enum member whose value is not a string. */
  ghost predicate Serializable(v: Value)
  {
    match v
    case Mapping(entries) => forall i | 0 <= i < |entries| :: Serializable(entries[i].1)
    case List(items) => forall i | 0 <= i < |items| :: Serializable(items[i]) && !NonStrEnum(items[i])
    case _ => IsScalar(v)
  }

  /** Some leaf of `v` is a value the scalar encoder rejects, reported as `name`. */
  ghost predicate HasUnsupportedLeaf(v: Value, name: string)
  {
    match v
    case Mapping(entries) => exists i | 0 <= i < |entries| :: HasUnsupportedLeaf(entries[i].1, name)
    case List(items) => exists i | 0 <= i < |items| :: HasUnsupportedLeaf(items[i], name)
    case _ => !IsScalar(v) && TypeName(v) == name
  }

  /** Some list inside `v` holds an enum member whose value is not a string. */
  ghost predicate HasNonStrListItem(v: Value)
  {
    match v
    case Mapping(entries) => exists i | 0 <= i < |entries| :: HasNonStrListItem(entries[i].1)
    case List(items) => exists i | 0 <= i < |items| :: NonStrEnum(items[i]) || HasNonStrListItem(items[i])
    case _ => false
  }

  /** Serialization succeeds exactly on serializable values. Every failure is one
      of the two TypeErrors, the join of a non-string list item or an unsupported
      type, and names an offending leaf. */
  lemma {:induction false} SerializeOutcome(lib: Library, v: Value)
    ensures SerializeInput(lib, v).Success? <==> Serializable(v)
    ensures SerializeInput(lib, v) == Failure(NonStrJoinItem) ==> HasNonStrListItem(v)
    ensures forall name :: SerializeInput(lib, v) == Failure(UnsupportedType(name)) ==> HasUnsupportedLeaf(v, name)
    ensures SerializeInput(lib, v).Failure? ==> SerializeInput(lib, v).error == NonStrJoinItem || SerializeInput(lib, v).error.UnsupportedType?
    decreases v, 1
  {
    match v
    case Mapping(entries) => PairsOutcome(lib, v, |entries|);
    case List(items) => ItemsOutcome(lib, v, |items|);
    case _ =>
  }

  lemma {:induction false} PairsOutcome(lib: Library, v: Value, n: nat)
    requires v.Mapping? && n <= |v.entries|
    ensures SerializedPairs(lib, v, n).Success? <==> forall i | 0 <= i < n :: Serializable(v.entries[i].1)
    ensures SerializedPairs(lib, v, n).Success? ==> |SerializedPairs(lib, v, n).value| == n
    ensures SerializedPairs(lib, v, n) == Failure(NonStrJoinItem) ==> HasNonStrListItem(v)
    ensures forall name :: SerializedPairs(lib, v, n) == Failure(UnsupportedType(name)) ==> HasUnsupportedLeaf(v, name)
    ensures SerializedPairs(lib, v, n).Failure? ==> SerializedPairs(lib, v, n).error == NonStrJoinItem || SerializedPairs(lib, v, n).error.UnsupportedType?
    decreases v, 0, n
  {
    if n > 0 {
      PairsOutcome(lib, v, n - 1);
      SerializeOutcome(lib, v.entries[n - 1].1);
    }
  }

  lemma {:induction false} ItemsOutcome(lib: Library, v: Value, n: nat)
    requires v.List? && n <= |v.items|
    ensures SerializedItems(lib, v, n).Success? <==> forall i | 0 <= i < n :: Serializable(v.items[i])
    ensures SerializedItems(lib, v, n).Success? ==> |SerializedItems(lib, v, n).value| == n
    ensures SerializedItems(lib, v, n) == Failure(NonStrJoinItem) ==> HasNonStrListItem(v)
    ensures forall name :: SerializedItems(lib, v, n) == Failure(UnsupportedType(name)) ==> HasUnsupportedLeaf(v, name)
    ensures SerializedItems(lib, v, n).Failure? ==> SerializedItems(lib, v, n).error == NonStrJoinItem || SerializedItems(lib, v, n).error.UnsupportedType?
    decreases v, 0, n
  {
    if n > 0 {
      ItemsOutcome(lib, v, n - 1);
      SerializeOutcome(lib, v.items[n - 1]);
    }
  }

  // ---------------------------------------------------------------------------
  // The text of a dict and of a list, entry by entry

  /** A serialized dict is `{ ` + its `key: value` texts joined by `, ` + ` }`, with
      the i-th text made from the i-th entry, so an empty dict gives `{  }`. */
  lemma MappingText(lib: Library, entries: seq<(string, Value)>)
    requires SerializeInput(lib, Mapping(entries)).Success?
    ensures exists pairs: seq<string> ::
      && |pairs| == |entries|
      && (forall i | 0 <= i < |entries| ::
            && SerializeInput(lib, entries[i].1).Success?
            && pairs[i] == lib.toCamelCase(entries[i].0) + ": " + SerializeInput(lib, entries[i].1).value)
      && SerializeInput(lib, Mapping(entries)).value == "{ " + Join(", ", pairs) + " }"
  {
    var v := Mapping(entries);
    PairsText(lib, v, |entries|);
  }

  lemma {:induction false} PairsText(lib: Library, v: Value, n: nat)
    requires v.Mapping? && n <= |v.entries|
    requires SerializedPairs(lib, v, n).Success?
    ensures |SerializedPairs(lib, v, n).value| == n
    ensures forall i | 0 <= i < n ::
      && SerializeInput(lib, v.entries[i].1).Success?
      && SerializedPairs(lib, v, n).value[i]
         == lib.toCamelCase(v.entries[i].0) + ": " + SerializeInput(lib, v.entries[i].1).value
  {
    if n > 0 {
      PairsText(lib, v, n - 1);
    }
  }

  /** A serialized list is `[ ` + its items' texts joined by `, ` + ` ]`, in order,
      so an empty list gives `[  ]`. */
  lemma ListText(lib: Library, items: seq<Value>)
    requires SerializeInput(lib, List(items)).Success?
    ensures exists elements: seq<string> ::
      && |elements| == |items|
      && (forall i | 0 <= i < |items| ::
            SerializeInput(lib, items[i]).Success? && elements[i] == SerializeInput(lib, items[i]).value)
      && SerializeInput(lib, List(items)).value == "[ " + Join(", ", elements) + " ]"
  {
    ItemsText(lib, List(items), |items|);
  }

  lemma {:induction false} ItemsText(lib: Library, v: Value, n: nat)
    requires v.List? && n <= |v.items|
    requires SerializedItems(lib, v, n).Success?
    ensures |SerializedItems(lib, v, n).value| == n
    ensures forall i | 0 <= i < n ::
      SerializeInput(lib, v.items[i]).Success? && SerializedItems(lib, v, n).value[i] == SerializeInput(lib, v.items[i]).value
  {
    if n > 0 {
      ItemsText(lib, v, n - 1);
    }
  }

  // ---------------------------------------------------------------------------
  // Bracket nesting of the text follows the nesting of the value

  function Delta(c: char): int
  {
    if c == '{' || c == '[' then 1 else if c == '}' || c == ']' then -1 else 0
  }

  /** Scanning a text left to right: the final bracket balance, and the highest
      and lowest balance reached. */
  datatype Profile = Profile(net: int, peak: int, floor: int)

  function Max(a: int, b: int): int { if a < b then b else a }
  function Min(a: int, b: int): int { if a < b then a else b }

  function ProfileOf(s: string): (p: Profile)
    ensures p.floor <= 0 <= p.peak && p.floor <= p.net <= p.peak
  {
    if s == [] then Profile(0, 0, 0) else Step(ProfileOf(s[..|s| - 1]), s[|s| - 1])
  }

  /** The profile after one more character. */
  function Step(p: Profile, c: char): Profile
  {
    var n := p.net + Delta(c);
    Profile(n, Max(p.peak, n), Min(p.floor, n))
  }

  lemma ProfileSnoc(s: string, c: char)
    ensures ProfileOf(s + [c]) == Step(ProfileOf(s), c)
  {
    assert (s + [c])[..|s|] == s;
  }

  predicate NoBrackets(s: string)
  {
    forall i | 0 <= i < |s| :: Delta(s[i]) == 0
  }

  /** How deeply dicts and lists are nested in `v`. */
  function Nesting(v: Value): nat
    decreases v, 1
  {
    match v
    case Mapping(entries) => 1 + EntriesNesting(v, |entries|)
    case List(items) => 1 + ItemsNesting(v, |items|)
    case _ => 0
  }

  function EntriesNesting(v: Value, n: nat): nat
    requires v.Mapping? && n <= |v.entries|
    decreases v, 0, n
  {
    if n == 0 then 0 else Max(EntriesNesting(v, n - 1), Nesting(v.entries[n - 1].1))
  }

  function ItemsNesting(v: Value, n: nat): nat
    requires v.List? && n <= |v.items|
    decreases v, 0, n
  {
    if n == 0 then 0 else Max(ItemsNesting(v, n - 1), Nesting(v.items[n - 1]))
  }

  /** No key and no scalar of `v` writes a bracket of its own. */
  ghost predicate BracketFree(lib: Library, v: Value)
  {
    match v
    case Mapping(entries) =>
      forall i | 0 <= i < |entries| :: NoBrackets(lib.toCamelCase(entries[i].0)) && BracketFree(lib, entries[i].1)
    case List(items) => forall i | 0 <= i < |items| :: BracketFree(lib, items[i])
    case _ => SerializeScalar(lib, v).Success? ==> NoBrackets(SerializeScalar(lib, v).value)
  }

  /** The profile of a text followed by one with profile `q`. */
  function Then(p: Profile, q: Profile): Profile
  {
    Profile(p.net + q.net, Max(p.peak, p.net + q.peak), Min(p.floor, p.net + q.floor))
  }

  lemma {:induction false} ProfileConcat(a: string, b: string)
    ensures ProfileOf(a + b) == Then(ProfileOf(a), ProfileOf(b))
  {
    if b == [] {
      assert a + b == a;
    } else {
      var b', c := b[..|b| - 1], b[|b| - 1];
      assert b == b' + [c];
      assert a + b == (a + b') + [c];
      ProfileConcat(a, b');
      ProfileSnoc(a + b', c);
      ProfileSnoc(b', c);
      ThenStep(ProfileOf(a), ProfileOf(b'), c);
    }
  }

  lemma ThenStep(p: Profile, q: Profile, c: char)
    ensures Step(Then(p, q), c) == Then(p, Step(q, c))
  {
  }

  lemma {:induction false} ProfileOfNoBrackets(s: string)
    requires NoBrackets(s)
    ensures ProfileOf(s) == Profile(0, 0, 0)
  {
    if s != [] {
      ProfileOfNoBrackets(s[..|s| - 1]);
    }
  }

  /** Joining balanced texts with a bracket-free separator: balanced, as deep as the deepest. */
  lemma {:induction false} ProfileOfJoin(sep: string, parts: seq<string>, peaks: seq<nat>)
    requires NoBrackets(sep) && |peaks| == |parts|
    requires forall i | 0 <= i < |parts| :: ProfileOf(parts[i]) == Profile(0, peaks[i], 0)
    ensures ProfileOf(Join(sep, parts)) == Profile(0, MaxOf(peaks), 0)
  {
    if |parts| == 1 {
      assert peaks[..0] == [];
    } else if |parts| > 1 {
      var n := |parts| - 1;
      var init := Join(sep, parts[..n]);
      assert forall i | 0 <= i < n :: parts[..n][i] == parts[i] && peaks[..n][i] == peaks[i];
      ProfileOfJoin(sep, parts[..n], peaks[..n]);
      assert Join(sep, parts) == init + sep + parts[n];
      ProfileOfNoBrackets(sep);
      Balanced(init, sep, MaxOf(peaks[..n]), 0);
      Balanced(init + sep, parts[n], MaxOf(peaks[..n]), peaks[n]);
      assert MaxOf(peaks) == Max(MaxOf(peaks[..n]), peaks[n]);
    }
  }

  lemma Balanced(x: string, y: string, dx: nat, dy: nat)
    requires ProfileOf(x) == Profile(0, dx, 0) && ProfileOf(y) == Profile(0, dy, 0)
    ensures ProfileOf(x + y) == Profile(0, Max(dx, dy), 0)
  {
    ProfileConcat(x, y);
  }

  function MaxOf(s: seq<nat>): nat
  {
    if s == [] then 0 else Max(MaxOf(s[..|s| - 1]), s[|s| - 1])
  }

  /** Enclosing a balanced text of depth d in a bracket pair gives a balanced text of depth d + 1. */
  lemma Enclose(open: string, inner: string, close: string, d: nat)
    requires ProfileOf(open) == Profile(1, 1, 0) && ProfileOf(close) == Profile(-1, 0, -1)
    requires ProfileOf(inner) == Profile(0, d, 0)
    ensures ProfileOf(open + inner + close) == Profile(0, d + 1, 0)
  {
    ProfileConcat(open, inner);
    ProfileConcat(open + inner, close);
    assert Then(Profile(1, 1, 0), Profile(0, d, 0)) == Profile(1, d + 1, 0);
    assert Then(Profile(1, d + 1, 0), Profile(-1, 0, -1)) == Profile(0, d + 1, 0);
  }

  /** Brace and bracket nesting of the text equals the nesting depth of the value,
      and every prefix of the text closes no more brackets than it opened. */
  lemma {:induction false} NestingMatches(lib: Library, v: Value)
    requires SerializeInput(lib, v).Success? && BracketFree(lib, v)
    ensures ProfileOf(SerializeInput(lib, v).value) == Profile(0, Nesting(v), 0)
    decreases v, 1
  {
    if v.Mapping? {
      var pairs := SerializedPairs(lib, v, |v.entries|).value;
      var peaks := PairsNesting(lib, v, |v.entries|);
      assert SerializeInput(lib, v).value == "{ " + Join(", ", pairs) + " }";
      assert NoBrackets(", ");
      ProfileOfJoin(", ", pairs, peaks);
      Bracketed("{ ", " }", Join(", ", pairs), MaxOf(peaks));
    } else if v.List? {
      var elements := SerializedItems(lib, v, |v.items|).value;
      var peaks := ElementsNesting(lib, v, |v.items|);
      assert SerializeInput(lib, v).value == "[ " + Join(", ", elements) + " ]";
      assert NoBrackets(", ");
      ProfileOfJoin(", ", elements, peaks);
      Bracketed("[ ", " ]", Join(", ", elements), MaxOf(peaks));
    } else {
      ProfileOfNoBrackets(SerializeInput(lib, v).value);
    }
  }

  /** A balanced text inside `{ ` and ` }`, or `[ ` and ` ]`, is one level deeper. */
  lemma Bracketed(open: string, close: string, inner: string, d: nat)
    requires (open == "{ " && close == " }") || (open == "[ " && close == " ]")
    requires ProfileOf(inner) == Profile(0, d, 0)
    ensures ProfileOf(open + inner + close) == Profile(0, d + 1, 0)
  {
    OpenProfile(open);
    CloseProfile(close);
    Enclose(open, inner, close, d);
  }

  lemma OpenProfile(open: string)
    requires open == "{ " || open == "[ "
    ensures ProfileOf(open) == Profile(1, 1, 0)
  {
    TwoChars(open[0], ' ');
    assert open == [open[0], ' '];
  }

  lemma CloseProfile(close: string)
    requires close == " }" || close == " ]"
    ensures ProfileOf(close) == Profile(-1, 0, -1)
  {
    TwoChars(' ', close[1]);
    assert close == [' ', close[1]];
  }

  lemma TwoChars(x: char, y: char)
    ensures ProfileOf([x, y]) == Step(Step(Profile(0, 0, 0), x), y)
  {
    ProfileSnoc([], x);
    assert [] + [x] == [x];
    ProfileSnoc([x], y);
    assert [x] + [y] == [x, y];
  }

  lemma {:induction false} PairsNesting(lib: Library, v: Value, n: nat) returns (peaks: seq<nat>)
    requires v.Mapping? && n <= |v.entries|
    requires SerializedPairs(lib, v, n).Success? && BracketFree(lib, v)
    ensures |peaks| == |SerializedPairs(lib, v, n).value| == n
    ensures MaxOf(peaks) == EntriesNesting(v, n)
    ensures forall i | 0 <= i < n :: ProfileOf(SerializedPairs(lib, v, n).value[i]) == Profile(0, peaks[i], 0)
    decreases v, 0, n
  {
    if n == 0 {
      peaks := [];
    } else {
      var init := PairsNesting(lib, v, n - 1);
      var (key, x) := v.entries[n - 1];
      NestingMatches(lib, x);
      var camel := lib.toCamelCase(key);
      var text := SerializeInput(lib, x).value;
      assert SerializedPairs(lib, v, n).value == SerializedPairs(lib, v, n - 1).value + [camel + ": " + text];
      PairProfile(camel, text, Nesting(x));
      peaks := init + [Nesting(x)];
      assert peaks[..n - 1] == init;
    }
  }

  lemma PairProfile(camel: string, text: string, d: nat)
    requires NoBrackets(camel) && ProfileOf(text) == Profile(0, d, 0)
    ensures ProfileOf(camel + ": " + text) == Profile(0, d, 0)
  {
    ProfileOfNoBrackets(camel + ": ") by {
      assert forall i | 0 <= i < |camel| :: (camel + ": ")[i] == camel[i];
    }
    ProfileConcat(camel + ": ", text);
  }

  lemma {:induction false} ElementsNesting(lib: Library, v: Value, n: nat) returns (peaks: seq<nat>)
    requires v.List? && n <= |v.items|
    requires SerializedItems(lib, v, n).Success? && BracketFree(lib, v)
    ensures |peaks| == |SerializedItems(lib, v, n).value| == n
    ensures MaxOf(peaks) == ItemsNesting(v, n)
    ensures forall i | 0 <= i < n :: ProfileOf(SerializedItems(lib, v, n).value[i]) == Profile(0, peaks[i], 0)
    decreases v, 0, n
  {
    if n == 0 {
      peaks := [];
    } else {
      var init := ElementsNesting(lib, v, n - 1);
      NestingMatches(lib, v.items[n - 1]);
      peaks := init + [Nesting(v.items[n - 1])];
      assert peaks[..n - 1] == init;
    }
  }

  // ---------------------------------------------------------------------------
  // Dataclass arguments

  /** `dataclasses.asdict`'s recursive conversion: a dataclass becomes a dict of its
      fields, and dataclasses nested in fields, lists and dicts are converted too. */
  function AsDict(v: Value): Value
  {
    match v
    case Dataclass(_, fields) => Mapping(seq(|fields|, i requires 0 <= i < |fields| => (fields[i].0, AsDict(fields[i].1))))
    case Mapping(entries) => Mapping(seq(|entries|, i requires 0 <= i < |entries| => (entries[i].0, AsDict(entries[i].1))))
    case List(items) => List(seq(|items|, i requires 0 <= i < |items| => AsDict(items[i])))
    case _ => v
  }

  /** `_try_asdict`: `strawberry.asdict` accepts only a dataclass instance and
      raises TypeError otherwise, which returns the value unchanged. */
  function TryAsDict(v: Value): (r: Value)
    ensures r == v || r.Mapping?
    ensures v.Dataclass? ==> r.Mapping? && Keys(r.entries) == Keys(v.fields) && NoDataclass(r)
    ensures !v.Dataclass? ==> r == v
  {
    if v.Dataclass? then NoDataclassAfterAsDict(v); AsDict(v) else v
  }

  ghost predicate NoDataclass(v: Value)
  {
    match v
    case Dataclass(_, _) => false
    case Mapping(entries) => forall i | 0 <= i < |entries| :: NoDataclass(entries[i].1)
    case List(items) => forall i | 0 <= i < |items| :: NoDataclass(items[i])
    case _ => true
  }

  lemma {:induction false} NoDataclassAfterAsDict(v: Value)
    ensures NoDataclass(AsDict(v))
  {
    match v
    case Dataclass(_, fields) =>
      forall i | 0 <= i < |fields| ensures NoDataclass(AsDict(fields[i].1)) {
        NoDataclassAfterAsDict(fields[i].1);
      }
    case Mapping(entries) =>
      forall i | 0 <= i < |entries| ensures NoDataclass(AsDict(entries[i].1)) {
        NoDataclassAfterAsDict(entries[i].1);
      }
    case List(items) =>
      forall i | 0 <= i < |items| ensures NoDataclass(AsDict(items[i])) {
        NoDataclassAfterAsDict(items[i]);
      }
    case _ =>
  }

  /** Only the top-level value is converted: a dataclass inside a plain dict
      argument reaches the scalar encoder and is rejected by its type name. */
  lemma NestedDataclassRejected(lib: Library, key: string, name: string, fields: seq<(string, Value)>)
    ensures SerializeInput(lib, TryAsDict(Mapping([(key, Dataclass(name, fields))])))
         == Failure(UnsupportedType(name))
  {
    var v := Mapping([(key, Dataclass(name, fields))]);
    assert SerializedPairs(lib, v, 0) == Success([]);
    assert SerializeInput(lib, Dataclass(name, fields)) == Failure(UnsupportedType(name));
    assert SerializedPairs(lib, v, 1) == Failure(UnsupportedType(name));
  }
}
