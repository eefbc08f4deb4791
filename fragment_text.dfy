/** The selection-set renderer: a response FieldTree written out as indented
    lines, the root level as inline fragments. */
module FragmentText {
  import opened Text
  import opened FieldTrees

  /** The depth of the root level, whose names are union member types. */
  const RootDepth: nat := 1

  /** The line naming one entry at `depth`, without the opening brace. */
  function EntryLine(name: string, depth: nat): string
  {
    Tabs(depth) + (if depth == RootDepth then "... on " else "") + name
  }

  /** What `_serialize_fragment_tree_lines(t, depth)` returns. */
  function FragmentLines(t: Tree, depth: nat): seq<string>
    decreases t, 1
  {
    LinesUpTo(t, |t.children|, depth)
  }

  /** The lines of the first `n` entries of `t`. */
  function LinesUpTo(t: Tree, n: nat, depth: nat): seq<string>
    requires n <= |t.children|
    decreases t, 0, n
  {
    if n == 0 then []
    else
      var (name, nested) := t.children[n - 1];
      LinesUpTo(t, n - 1, depth) +
        if nested.children == [] then [EntryLine(name, depth)]
        else [EntryLine(name, depth) + " {"] + FragmentLines(nested, depth + 1) + [Tabs(depth) + "}"]
  }

  /** `_serialize_fragment_tree_lines`: for each entry in order, a bare line for a
      leaf, or an opening line, the nested lines one tab deeper, and a closing line. */
  method SerializeFragmentTreeLines(tree: Tree, depth: nat) returns (lines: seq<string>)
    ensures lines == FragmentLines(tree, depth)
    decreases tree
  {
    lines := [];
    var indent := Tabs(depth);
    for i := 0 to |tree.children|
      invariant lines == LinesUpTo(tree, i, depth)
    {
      var (fieldName, nestedFields) := tree.children[i];
      var prefixForRoot := if depth == RootDepth then "... on " else "";
      var line := indent + prefixForRoot + fieldName;
      if nestedFields.children != [] {
        lines := lines + [line + " {"];
        var nestedSerialization := SerializeFragmentTreeLines(nestedFields, depth + 1);
        lines := lines + nestedSerialization;
        lines := lines + [indent + "}"];
      } else {
        lines := lines + [line];
      }
    }
  }

  /** `serialized_fragment_tree`: the lines from the root depth joined by newlines. */
  function SerializedFragmentTree(t: Tree): string
  {
    Join("\n", FragmentLines(t, RootDepth))
  }

  // ---------------------------------------------------------------------------
  // Properties

  /** One line per leaf entry and two (open and close) per entry with a subtree. */
  lemma {:induction false} LineCount(t: Tree, depth: nat)
    ensures |FragmentLines(t, depth)| == Leaves(t) + 2 * Internals(t)
    decreases t, 1
  {
    LineCountUpTo(t, |t.children|, depth);
  }

  lemma {:induction false} LineCountUpTo(t: Tree, n: nat, depth: nat)
    requires n <= |t.children|
    ensures |LinesUpTo(t, n, depth)| == LeavesUpTo(t, n) + 2 * InternalsUpTo(t, n)
    decreases t, 0, n
  {
    if n > 0 {
      LineCountUpTo(t, n - 1, depth);
      var nested := t.children[n - 1].1;
      if nested.children != [] {
        LineCount(nested, depth + 1);
      }
    }
  }

  /** Every line is indented by at least `depth` tabs. */
  lemma {:induction false} Indented(t: Tree, depth: nat)
    ensures forall i | 0 <= i < |FragmentLines(t, depth)| :: Tabs(depth) <= FragmentLines(t, depth)[i]
    decreases t, 1
  {
    IndentedUpTo(t, |t.children|, depth);
  }

  lemma {:induction false} IndentedUpTo(t: Tree, n: nat, depth: nat)
    requires n <= |t.children|
    ensures forall i | 0 <= i < |LinesUpTo(t, n, depth)| :: Tabs(depth) <= LinesUpTo(t, n, depth)[i]
    decreases t, 0, n
  {
    if n > 0 {
      IndentedUpTo(t, n - 1, depth);
      var (name, nested) := t.children[n - 1];
      if nested.children != [] {
        Indented(nested, depth + 1);
        assert Tabs(depth + 1)[..depth] == Tabs(depth);
        var inner := FragmentLines(nested, depth + 1);
        forall i | 0 <= i < |inner|
          ensures Tabs(depth) <= inner[i]
        {
          assert Tabs(depth + 1) <= inner[i];
        }
      }
    }
  }

  /** Each line with one more leading tab. */
  function Shifted(lines: seq<string>): (r: seq<string>)
    ensures |r| == |lines|
  {
    seq(|lines|, i requires 0 <= i < |lines| => "\t" + lines[i])
  }

  /** Below the root the layout does not depend on the depth: rendering one level
      deeper adds exactly one tab to every line and changes nothing else. */
  lemma {:induction false} ShiftDepth(t: Tree, depth: nat)
    requires depth > RootDepth
    ensures FragmentLines(t, depth + 1) == Shifted(FragmentLines(t, depth))
    decreases t, 1
  {
    ShiftDepthUpTo(t, |t.children|, depth);
  }

  lemma {:induction false} ShiftDepthUpTo(t: Tree, n: nat, depth: nat)
    requires depth > RootDepth && n <= |t.children|
    ensures LinesUpTo(t, n, depth + 1) == Shifted(LinesUpTo(t, n, depth))
    decreases t, 0, n
  {
    if n > 0 {
      ShiftDepthUpTo(t, n - 1, depth);
      var (name, nested) := t.children[n - 1];
      assert Tabs(depth + 1) == "\t" + Tabs(depth);
      var entry :=
        if nested.children == [] then [EntryLine(name, depth)]
        else [EntryLine(name, depth) + " {"] + FragmentLines(nested, depth + 1) + [Tabs(depth) + "}"];
      assert EntryLine(name, depth + 1) == "\t" + EntryLine(name, depth);
      var entry' :=
        if nested.children == [] then [EntryLine(name, depth + 1)]
        else [EntryLine(name, depth + 1) + " {"] + FragmentLines(nested, depth + 2) + [Tabs(depth + 1) + "}"];
      if nested.children != [] {
        ShiftDepth(nested, depth + 1);
        ShiftedConcat([EntryLine(name, depth) + " {"], FragmentLines(nested, depth + 1));
        ShiftedConcat([EntryLine(name, depth) + " {"] + FragmentLines(nested, depth + 1), [Tabs(depth) + "}"]);
        assert Shifted([EntryLine(name, depth) + " {"])[0] == "\t" + (EntryLine(name, depth) + " {");
        assert "\t" + (EntryLine(name, depth) + " {") == EntryLine(name, depth + 1) + " {";
        assert Shifted([Tabs(depth) + "}"])[0] == "\t" + (Tabs(depth) + "}");
        assert "\t" + (Tabs(depth) + "}") == Tabs(depth + 1) + "}";
      }
      assert Shifted(entry) == entry';
      ShiftedConcat(LinesUpTo(t, n - 1, depth), entry);
    }
  }

  lemma ShiftedConcat(a: seq<string>, b: seq<string>)
    ensures Shifted(a + b) == Shifted(a) + Shifted(b)
  {
  }

  /** The index of the first line of entry `i`. */
  function EntryStart(t: Tree, i: nat, depth: nat): nat
    requires i <= |t.children|
  {
    |LinesUpTo(t, i, depth)|
  }

  /** The lines of the first `m` entries begin the lines of the first `n`. */
  lemma {:induction false} LinesPrefix(t: Tree, m: nat, n: nat, depth: nat)
    requires m <= n <= |t.children|
    ensures LinesUpTo(t, m, depth) <= LinesUpTo(t, n, depth)
  {
    if m < n {
      LinesPrefix(t, m, n - 1, depth);
    }
  }

  /** Entry `i` at `depth` occupies the lines from its start to the next entry's
      start. Its first line is exactly `depth` tabs, `... on ` at the root depth
      only, the name, and ` {` when it has fields. With fields, the nested lines
      rendered one level deeper follow, and the last line is `depth` tabs and `}`. */
  lemma EntryBlock(t: Tree, i: nat, depth: nat)
    requires i < |t.children|
    ensures EntryStart(t, i, depth) < EntryStart(t, i + 1, depth) <= |FragmentLines(t, depth)|
    ensures FragmentLines(t, depth)[EntryStart(t, i, depth)] ==
      Tabs(depth) + (if depth == RootDepth then "... on " else "") + t.children[i].0
      + (if t.children[i].1.children == [] then "" else " {")
    ensures t.children[i].1.children == [] ==> EntryStart(t, i + 1, depth) == EntryStart(t, i, depth) + 1
    ensures t.children[i].1.children != [] ==>
      && FragmentLines(t, depth)[EntryStart(t, i, depth) + 1 .. EntryStart(t, i + 1, depth) - 1]
         == FragmentLines(t.children[i].1, depth + 1)
      && FragmentLines(t, depth)[EntryStart(t, i + 1, depth) - 1] == Tabs(depth) + "}"
  {
    var name, nested := t.children[i].0, t.children[i].1;
    var all := FragmentLines(t, depth);
    var before, upto := LinesUpTo(t, i, depth), LinesUpTo(t, i + 1, depth);
    var open := EntryLine(name, depth) + (if nested.children == [] then "" else " {");
    LinesPrefix(t, i + 1, |t.children|, depth);
    assert all[|before|] == upto[|before|];
    if nested.children == [] {
      assert open == EntryLine(name, depth);
      assert upto == before + [open];
    } else {
      var inner, close := FragmentLines(nested, depth + 1), Tabs(depth) + "}";
      assert upto == before + [open] + inner + [close];
      assert all[|upto| - 1] == upto[|upto| - 1] == close;
      assert all[|before| + 1 .. |upto| - 1] == upto[|before| + 1 .. |upto| - 1];
      assert upto[|before| + 1 .. |upto| - 1] == inner;
    }
  }

  /** At the root every entry is an inline fragment on a member type: its first
      line is one tab, `... on `, the member's name, and ` {` when it has fields. */
  lemma RootEntries(t: Tree)
    ensures forall i | 0 <= i < |t.children| ::
      && EntryStart(t, i, RootDepth) < |FragmentLines(t, RootDepth)|
      && FragmentLines(t, RootDepth)[EntryStart(t, i, RootDepth)] ==
           "\t... on " + t.children[i].0 + (if t.children[i].1.children == [] then "" else " {")
  {
    assert Tabs(RootDepth) == "\t";
    forall i | 0 <= i < |t.children|
      ensures EntryStart(t, i, RootDepth) < |FragmentLines(t, RootDepth)|
      ensures FragmentLines(t, RootDepth)[EntryStart(t, i, RootDepth)] ==
           "\t... on " + t.children[i].0 + (if t.children[i].1.children == [] then "" else " {")
    {
      EntryBlock(t, i, RootDepth);
    }
  }

  /** A line text after its indent: a name, a name opening a block, or a closing brace. */
  predicate Bare(x: string, names: set<string>)
  {
    x == "}" || x in names || (|x| >= 2 && x[|x| - 2..] == " {" && x[..|x| - 2] in names)
  }

  /** `line` is some `k >= depth` tabs followed by a bare text over `names`. */
  ghost predicate PlainLine(line: string, depth: nat, names: set<string>)
  {
    exists k | depth <= k <= |line| :: line[..k] == Tabs(k) && Bare(line[k..], names)
  }

  /** Below the root no line carries the `... on ` prefix: every line is at least
      `depth` tabs followed by a key of the tree, a key and ` {`, or `}`. */
  lemma {:induction false} PlainBelowRoot(t: Tree, depth: nat)
    requires depth > RootDepth
    ensures forall i | 0 <= i < |FragmentLines(t, depth)| :: PlainLine(FragmentLines(t, depth)[i], depth, Names(t))
    decreases t, 1
  {
    PlainUpTo(t, |t.children|, depth);
  }

  lemma {:induction false} PlainUpTo(t: Tree, n: nat, depth: nat)
    requires depth > RootDepth && n <= |t.children|
    ensures forall i | 0 <= i < |LinesUpTo(t, n, depth)| :: PlainLine(LinesUpTo(t, n, depth)[i], depth, NamesUpTo(t, n))
    decreases t, 0, n
  {
    if n > 0 {
      PlainUpTo(t, n - 1, depth);
      var (name, nested) := t.children[n - 1];
      var names := NamesUpTo(t, n);
      var before := LinesUpTo(t, n - 1, depth);
      forall i | 0 <= i < |before| ensures PlainLine(before[i], depth, names) {
        PlainWeaken(before[i], depth, depth, NamesUpTo(t, n - 1), names);
      }
      if nested.children != [] {
        PlainBelowRoot(nested, depth + 1);
      }
      var block := BlockPlain(name, nested, FragmentLines(nested, depth + 1), depth, names);
      assert LinesUpTo(t, n, depth) == before + block;
    }
  }

  /** The lines one entry contributes below the root are plain, given that its
      nested lines are. */
  lemma BlockPlain(name: string, nested: Tree, inner: seq<string>, depth: nat, names: set<string>) returns (block: seq<string>)
    requires depth > RootDepth && name in names && Names(nested) <= names
    requires inner == FragmentLines(nested, depth + 1)
    requires nested.children != [] ==> forall i | 0 <= i < |inner| :: PlainLine(inner[i], depth + 1, Names(nested))
    ensures block ==
      if nested.children == [] then [EntryLine(name, depth)]
      else [EntryLine(name, depth) + " {"] + inner + [Tabs(depth) + "}"]
    ensures forall i | 0 <= i < |block| :: PlainLine(block[i], depth, names)
  {
    var open := EntryLine(name, depth) + (if nested.children == [] then "" else " {");
    OpenPlain(name, nested.children != [], depth, names);
    if nested.children == [] {
      assert open == EntryLine(name, depth);
      block := [open];
    } else {
      var close := Tabs(depth) + "}";
      assert close[..depth] == Tabs(depth) && close[depth..] == "}";
      block := [open] + inner + [close];
      forall i | 0 < i < |block| - 1 ensures PlainLine(block[i], depth, names) {
        assert block[i] == inner[i - 1];
        PlainWeaken(inner[i - 1], depth + 1, depth, Names(nested), names);
      }
    }
  }

  lemma OpenPlain(name: string, opens: bool, depth: nat, names: set<string>)
    requires depth > RootDepth && name in names
    ensures PlainLine(EntryLine(name, depth) + (if opens then " {" else ""), depth, names)
  {
    var open := EntryLine(name, depth) + (if opens then " {" else "");
    assert open == Tabs(depth) + (name + if opens then " {" else "");
    assert open[..depth] == Tabs(depth);
    if opens {
      var x := open[depth..];
      assert x == name + " {" && x[..|x| - 2] == name;
    } else {
      assert open[depth..] == name;
    }
  }

  lemma PlainWeaken(line: string, d1: nat, d2: nat, n1: set<string>, n2: set<string>)
    requires d2 <= d1 && n1 <= n2 && PlainLine(line, d1, n1)
    ensures PlainLine(line, d2, n2)
  {
    var k :| d1 <= k <= |line| && line[..k] == Tabs(k) && Bare(line[k..], n1);
    assert line[..k] == Tabs(k);
  }
}
