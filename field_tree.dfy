/** FieldTree: a dict from field name to FieldTree, the shape shared by the
    argument tree and the response selection tree. A leaf has no entries. */
module FieldTrees {
  import opened Dicts

  datatype Tree = Node(children: Dict<Tree>)

  /** Keys are distinct at every level, as in any Python dict. */
  ghost predicate WellKeyed(t: Tree)
  {
    && Distinct(Keys(t.children))
    && forall i | 0 <= i < |t.children| :: WellKeyed(t.children[i].1)
  }

  /** The number of entries, at any depth, whose subtree is empty. */
  function Leaves(t: Tree): nat
    decreases t, 1
  {
    LeavesUpTo(t, |t.children|)
  }

  function LeavesUpTo(t: Tree, n: nat): nat
    requires n <= |t.children|
    decreases t, 0, n
  {
    if n == 0 then 0
    else
      var sub := t.children[n - 1].1;
      LeavesUpTo(t, n - 1) + if sub.children == [] then 1 else Leaves(sub)
  }

  /** The number of entries, at any depth, whose subtree has entries. */
  function Internals(t: Tree): nat
    decreases t, 1
  {
    InternalsUpTo(t, |t.children|)
  }

  function InternalsUpTo(t: Tree, n: nat): nat
    requires n <= |t.children|
    decreases t, 0, n
  {
    if n == 0 then 0
    else
      var sub := t.children[n - 1].1;
      InternalsUpTo(t, n - 1) + if sub.children == [] then 0 else 1 + Internals(sub)
  }

  /** The keys of `t` at every depth. */
  function Names(t: Tree): set<string>
    decreases t, 1
  {
    NamesUpTo(t, |t.children|)
  }

  function NamesUpTo(t: Tree, n: nat): set<string>
    requires n <= |t.children|
    decreases t, 0, n
  {
    if n == 0 then {}
    else NamesUpTo(t, n - 1) + {t.children[n - 1].0} + Names(t.children[n - 1].1)
  }

  /** A dict built from well-keyed trees holds only well-keyed trees. */
  lemma {:induction false} FromPairsKeepsValues(ps: Dict<Tree>)
    requires forall i | 0 <= i < |ps| :: WellKeyed(ps[i].1)
    ensures WellKeyed(Node(FromPairs(ps)))
  {
    if ps != [] {
      var n := |ps| - 1;
      FromPairsKeepsValues(ps[..n]);
      PutKeepsWellKeyed(FromPairs(ps[..n]), ps[n].0, ps[n].1);
      FromPairsKeys(ps);
    }
  }

  lemma {:induction false} PutKeepsWellKeyed(d: Dict<Tree>, k: string, v: Tree)
    requires forall i | 0 <= i < |d| :: WellKeyed(d[i].1)
    requires WellKeyed(v)
    ensures forall i | 0 <= i < |Put(d, k, v)| :: WellKeyed(Put(d, k, v)[i].1)
  {
    if d != [] && d[0].0 != k {
      PutKeepsWellKeyed(d[1..], k, v);
    }
  }
}
