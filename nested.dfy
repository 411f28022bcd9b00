/**
 * The in-memory value the walker builds: a leaf string, a map from full child
 * key to value (kept in insertion order, as `ImmutableMap` iterates it), or a
 * list of values that was recognised in such a map.
 */
module Nested {
  import opened Wrappers

  datatype Value = Str(s: string) | Dir(entries: seq<(string, Value)>) | Lst(items: seq<Value>)

  /** The entries of one map level, in insertion order. */
  type Entries = seq<(string, Value)>

  function Keys<V>(es: seq<(string, V)>): (ks: seq<string>)
    ensures |ks| == |es| && forall i | 0 <= i < |es| :: ks[i] == es[i].0
  {
    seq(|es|, i requires 0 <= i < |es| => es[i].0)
  }

  function Values<V>(es: seq<(string, V)>): (vs: seq<V>)
    ensures |vs| == |es| && forall i | 0 <= i < |es| :: vs[i] == es[i].1
  {
    seq(|es|, i requires 0 <= i < |es| => es[i].1)
  }

  /** A Java map: no key occurs twice. */
  predicate DistinctKeys<V>(es: seq<(string, V)>) {
    forall i, j | 0 <= i < j < |es| :: es[i].0 != es[j].0
  }

  /** `Map.get`: the value stored under `k`, if any. */
  function Lookup<V>(es: seq<(string, V)>, k: string): (r: Option<V>)
    ensures r.Some? <==> k in Keys(es)
    ensures r.Some? ==> exists i | 0 <= i < |es| :: es[i] == (k, r.value)
  {
    if es == [] then None
    else if es[0].0 == k then Some(es[0].1)
    else
      var r := Lookup(es[1..], k);
      assert r.Some? ==> exists i | 0 <= i < |es[1..]| :: es[1..][i] == (k, r.value);
      assert Keys(es) == [es[0].0] + Keys(es[1..]);
      r
  }

  /** In a map with distinct keys, each entry is what its key looks up. */
  lemma {:induction false} LookupDistinct<V>(es: seq<(string, V)>, j: nat)
    requires DistinctKeys(es) && j < |es|
    ensures Lookup(es, es[j].0) == Some(es[j].1)
  {
    if j > 0 {
      assert es[0].0 != es[j].0;
      assert es[1..][j - 1] == es[j];
      LookupDistinct(es[1..], j - 1);
    }
  }

  /** The set of keys of a map level. */
  function KeySet<V>(es: seq<(string, V)>): (s: set<string>)
    ensures forall k :: k in s <==> k in Keys(es)
  {
    if es == [] then {}
    else
      var init := es[..|es| - 1];
      assert Keys(es) == Keys(init) + [es[|es| - 1].0];
      KeySet(init) + {es[|es| - 1].0}
  }

  /** A map with distinct keys has as many keys as entries. */
  lemma {:induction false} KeySetSize<V>(es: seq<(string, V)>)
    requires DistinctKeys(es)
    ensures |KeySet(es)| == |es|
  {
    if es != [] {
      var init := es[..|es| - 1];
      assert DistinctKeys(init);
      KeySetSize(init);
      assert es[|es| - 1].0 !in Keys(init);
    }
  }
}
