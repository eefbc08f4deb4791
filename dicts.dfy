/** Python's insertion-ordered `dict` with string keys, as a sequence of pairs.
    Assigning `d[k] = v` keeps an existing key where it is and gives it the new
    value, and appends a new key at the end; `dict(pairs)` is a run of such
    assignments. Every dictionary the modelled code builds goes through `Put`. */
module Dicts {
  import opened Wrappers

  type Dict<V> = seq<(string, V)>

  function Keys<V>(d: Dict<V>): seq<string>
  {
    seq(|d|, i requires 0 <= i < |d| => d[i].0)
  }

  predicate Distinct(s: seq<string>)
  {
    forall i, j | 0 <= i < j < |s| :: s[i] != s[j]
  }

  /** The value stored under `k`, looked up as Python does. */
  function Get<V>(d: Dict<V>, k: string): Option<V>
  {
    if d == [] then None
    else if d[0].0 == k then Some(d[0].1)
    else Get(d[1..], k)
  }

  lemma KeysCons<V>(p: (string, V), d: Dict<V>)
    ensures Keys([p] + d) == [p.0] + Keys(d)
  {
    assert forall i | 0 <= i < |d| + 1 :: Keys([p] + d)[i] == ([p.0] + Keys(d))[i];
  }

  lemma KeysSnoc<V>(d: Dict<V>, p: (string, V))
    ensures Keys(d + [p]) == Keys(d) + [p.0]
  {
  }

  lemma KeysPrefix<V>(d: Dict<V>, n: nat)
    requires n <= |d|
    ensures Keys(d[..n]) == Keys(d)[..n]
  {
  }

  /** `d[k] = v`. */
  function Put<V>(d: Dict<V>, k: string, v: V): Dict<V>
  {
    if d == [] then [(k, v)]
    else if d[0].0 == k then [(k, v)] + d[1..]
    else [d[0]] + Put(d[1..], k, v)
  }

  /** An existing key keeps its position; a new key is appended. */
  lemma {:induction false} PutKeys<V>(d: Dict<V>, k: string, v: V)
    ensures Keys(Put(d, k, v)) == if k in Keys(d) then Keys(d) else Keys(d) + [k]
  {
    if d != [] {
      KeysCons(d[0], d[1..]);
      assert d == [d[0]] + d[1..];
      if d[0].0 == k {
        KeysCons((k, v), d[1..]);
      } else {
        PutKeys(d[1..], k, v);
        KeysCons(d[0], Put(d[1..], k, v));
      }
    }
  }

  /** After `d[k] = v`, `k` maps to `v` and every other key to what it did before. */
  lemma {:induction false} PutGet<V>(d: Dict<V>, k: string, v: V)
    ensures Get(Put(d, k, v), k) == Some(v)
    ensures forall k' | k' != k :: Get(Put(d, k, v), k') == Get(d, k')
  {
    if d != [] && d[0].0 != k {
      PutGet(d[1..], k, v);
      assert ([d[0]] + Put(d[1..], k, v))[1..] == Put(d[1..], k, v);
    } else if d != [] {
      assert ([(k, v)] + d[1..])[1..] == d[1..];
    }
  }

  /** The keys of `s` in order of first occurrence: the keys of a dictionary
      into which the keys of `s` were assigned one after the other. */
  function Dedup(s: seq<string>): seq<string>
  {
    if s == [] then []
    else
      var p := Dedup(s[..|s| - 1]);
      if s[|s| - 1] in p then p else p + [s[|s| - 1]]
  }

  /** Every key of `s` occurs in `Dedup(s)` exactly once, and nothing else does. */
  lemma {:induction false} DedupDistinct(s: seq<string>)
    ensures Distinct(Dedup(s))
    ensures forall k :: k in Dedup(s) <==> k in s
  {
    if s != [] {
      DedupDistinct(s[..|s| - 1]);
      assert s == s[..|s| - 1] + [s[|s| - 1]];
    }
  }

  lemma {:induction false} DedupOfDistinct(s: seq<string>)
    requires Distinct(s)
    ensures Dedup(s) == s
  {
    if s != [] {
      DedupOfDistinct(s[..|s| - 1]);
      assert s == s[..|s| - 1] + [s[|s| - 1]];
    }
  }

  /** `dict(pairs)`: later pairs overwrite the values of earlier ones with the
      same key, and each key stays where it first appeared. */
  function FromPairs<V>(ps: Dict<V>): Dict<V>
  {
    if ps == [] then []
    else Put(FromPairs(ps[..|ps| - 1]), ps[|ps| - 1].0, ps[|ps| - 1].1)
  }

  lemma FromPairsStep<V>(ps: Dict<V>, n: nat)
    requires 0 < n <= |ps|
    ensures FromPairs(ps[..n]) == Put(FromPairs(ps[..n - 1]), ps[n - 1].0, ps[n - 1].1)
  {
    assert ps[..n][..n - 1] == ps[..n - 1];
  }

  /** The keys of `dict(pairs)` are the keys of the pairs in order of first
      occurrence, so they are distinct. */
  lemma {:induction false} FromPairsKeys<V>(ps: Dict<V>)
    ensures Keys(FromPairs(ps)) == Dedup(Keys(ps))
    ensures Distinct(Keys(FromPairs(ps)))
  {
    if ps != [] {
      var n := |ps| - 1;
      FromPairsKeys(ps[..n]);
      PutKeys(FromPairs(ps[..n]), ps[n].0, ps[n].1);
      KeysPrefix(ps, n);
      assert Keys(ps) == Keys(ps)[..n] + [ps[n].0];
      assert Keys(ps)[..|Keys(ps)| - 1] == Keys(ps[..n]);
    }
    DedupDistinct(Keys(ps));
  }

  /** `dict(pairs)` maps every key to the value of its LAST pair. */
  lemma {:induction false} FromPairsGet<V>(ps: Dict<V>, i: nat)
    requires i < |ps|
    requires forall j | i < j < |ps| :: ps[j].0 != ps[i].0
    ensures Get(FromPairs(ps), ps[i].0) == Some(ps[i].1)
  {
    var n := |ps| - 1;
    var init := FromPairs(ps[..n]);
    PutGet(init, ps[n].0, ps[n].1);
    if i < n {
      assert ps[..n][i] == ps[i];
      FromPairsGet(ps[..n], i);
    }
  }

  /** Pairs whose keys are already distinct make a dictionary of the same pairs. */
  lemma FromPairsOfDistinct<V>(ps: Dict<V>)
    requires Distinct(Keys(ps))
    ensures FromPairs(ps) == ps
  {
    DistinctPrefixes(ps, |ps|);
    assert ps[..|ps|] == ps;
  }

  lemma {:induction false} DistinctPrefixes<V>(ps: Dict<V>, n: nat)
    requires Distinct(Keys(ps)) && n <= |ps|
    ensures FromPairs(ps[..n]) == ps[..n]
  {
    if n > 0 {
      DistinctPrefixes(ps, n - 1);
      FromPairsStep(ps, n);
      FreshKey(ps, n - 1);
      PutNew(ps[..n - 1], ps[n - 1].0, ps[n - 1].1);
      assert ps[..n] == ps[..n - 1] + [ps[n - 1]];
    }
  }

  lemma FreshKey<V>(ps: Dict<V>, n: nat)
    requires Distinct(Keys(ps)) && n < |ps|
    ensures ps[n].0 !in Keys(ps[..n])
  {
    forall j | 0 <= j < n
      ensures Keys(ps[..n])[j] != ps[n].0
    {
      assert Keys(ps[..n])[j] == Keys(ps)[j];
      assert Keys(ps)[n] == ps[n].0;
    }
  }

  lemma {:induction false} PutNew<V>(d: Dict<V>, k: string, v: V)
    requires k !in Keys(d)
    ensures Put(d, k, v) == d + [(k, v)]
  {
    if d != [] {
      KeysCons(d[0], d[1..]);
      assert d == [d[0]] + d[1..];
      PutNew(d[1..], k, v);
    }
  }

  /** Assigning into a dict with distinct keys keeps them distinct. */
  lemma PutDistinct<V>(d: Dict<V>, k: string, v: V)
    requires Distinct(Keys(d))
    ensures Distinct(Keys(Put(d, k, v)))
  {
    PutKeys(d, k, v);
    if k !in Keys(d) {
      assert Distinct(Keys(d) + [k]);
    }
  }

  /** Each entry of `Put(d, k, v)` is the entry of `d` at that position, or
      `(k, v)`, and the first key is unchanged. */
  lemma {:induction false} PutEntries<V>(d: Dict<V>, k: string, v: V)
    ensures forall i | 0 <= i < |Put(d, k, v)| ::
      Put(d, k, v)[i] == (k, v) || (i < |d| && Put(d, k, v)[i] == d[i])
    ensures |d| > 0 ==> Put(d, k, v)[0].0 == d[0].0
  {
    if d != [] && d[0].0 != k {
      PutEntries(d[1..], k, v);
    }
  }
}
