/**
 * Properties of the walker: argument checks, the exact child keys, the first
 * failure ending a walk, and what list inference keeps and recognises.
 */
module WalkerProperties {
  import opened Wrappers
  import opened Etcd
  import opened Nested
  import opened Walker
  import Decimal

  /** Every one-level entry point rejects an empty path, whatever the store
      holds, so the result cannot depend on any fetch. */
  lemma EntryPointsRejectEmptyPath(snap: Snapshot)
    ensures GetChildrenProxies(snap, "") == Err(InvalidArgument)
    ensures IsDirectory(snap, "") == Err(InvalidArgument)
    ensures ListKeys(snap, "") == Err(InvalidArgument)
    ensures List(snap, "") == Err(InvalidArgument)
  {
  }

  /** `listNested` rejects an empty path too, on any acyclic store. */
  lemma ListNestedRejectsEmptyPath(snap: Snapshot)
    requires Acyclic(snap)
    ensures ListNested(snap, "") == Err(InvalidArgument)
  {
  }

  /** A failed fetch of the path itself ends every entry point with the
      store's error, before any child is looked at. */
  lemma PathFetchFailure(snap: Snapshot, path: string, e: StoreError)
    requires Acyclic(snap) && path != "" && Fetch(snap, path) == Err(e)
    ensures IsDirectory(snap, path) == Err(Store(e))
    ensures ListKeys(snap, path) == Err(Store(e))
    ensures List(snap, path) == Err(Store(e))
    ensures ListNested(snap, path) == Err(Store(e))
  {
  }

  // ---------------------------------------------------------------- list

  /** The valued children are exactly the children that carry a value. */
  lemma {:induction false} ValuedExact(cs: seq<Proxy>)
    ensures forall e | e in Valued(cs) :: exists c | c in cs :: c.key == e.0 && c.value == Some(e.1)
    ensures forall c | c in cs && c.value.Some? :: (c.key, c.value.value) in Valued(cs)
  {
    if cs != [] {
      var init := cs[..|cs| - 1];
      ValuedExact(init);
      assert cs == init + [cs[|cs| - 1]];
      forall c | c in cs && c.value.Some? ensures (c.key, c.value.value) in Valued(cs) {
        if c in init {
          assert (c.key, c.value.value) in Valued(init);
        }
      }
    }
  }

  /** The positions of the children that carry a value, in increasing order. */
  function ValuedPositions(cs: seq<Proxy>): (idx: seq<nat>)
    ensures forall k | 0 <= k < |idx| :: idx[k] < |cs| && cs[idx[k]].value.Some?
    ensures forall k, l | 0 <= k < l < |idx| :: idx[k] < idx[l]
  {
    if cs == [] then []
    else
      var n := |cs| - 1;
      var p := ValuedPositions(cs[..n]);
      assert forall k | 0 <= k < |p| :: cs[..n][p[k]] == cs[p[k]];
      p + if cs[n].value.Some? then [n] else []
  }

  /** `Valued` keeps the children that carry a value each at its place in
      store order: its k-th pair is the child at the k-th valued position. */
  lemma {:induction false} ValuedInOrder(cs: seq<Proxy>)
    ensures var idx := ValuedPositions(cs);
      && |Valued(cs)| == |idx|
      && forall k | 0 <= k < |idx| :: Valued(cs)[k] == (cs[idx[k]].key, cs[idx[k]].value.value)
  {
    if cs != [] {
      var n := |cs| - 1;
      var init := cs[..n];
      ValuedInOrder(init);
      var p := ValuedPositions(init);
      var v := Valued(init);
      var tail := if cs[n].value.Some? then [n] else [];
      assert ValuedPositions(cs) == p + tail;
      assert Valued(cs) == v + if cs[n].value.Some? then [(cs[n].key, cs[n].value.value)] else [];
      forall k | 0 <= k < |p| ensures Valued(cs)[k] == (cs[p[k]].key, cs[p[k]].value.value) {
        assert init[p[k]] == cs[p[k]];
        assert Valued(cs)[k] == v[k];
      }
    }
  }

  /** Every child that carries a value is at one of the valued positions. */
  lemma {:induction false} ValuedPositionsComplete(cs: seq<Proxy>)
    ensures forall i | 0 <= i < |cs| && cs[i].value.Some? :: i in ValuedPositions(cs)
  {
    if cs != [] {
      var n := |cs| - 1;
      var init := cs[..n];
      ValuedPositionsComplete(init);
      forall i | 0 <= i < n && cs[i].value.Some? ensures i in ValuedPositions(cs) {
        assert init[i] == cs[i];
        assert i in ValuedPositions(init);
      }
    }
  }

  /** `list(path)` maps exactly the children that carry a value to that value. */
  lemma ListExact(snap: Snapshot, path: string)
    requires List(snap, path).Ok?
    ensures path != "" && path in snap && snap[path].Ok? && snap[path].value.nodes.Some?
    ensures var l := List(snap, path).value; var cs := snap[path].value.nodes.value;
      && DistinctKeys(l)
      && (forall e | e in l :: exists c | c in cs :: c.key == e.0 && c.value == Some(e.1))
      && (forall c | c in cs && c.value.Some? :: (c.key, c.value.value) in l)
  {
    ValuedExact(snap[path].value.nodes.value);
  }

  /** Leaves, missing keys and stored failures make `list` fail; it succeeds
      exactly when `listKeys` does and the valued keys are distinct. */
  lemma ListSucceedsWithListKeys(snap: Snapshot, path: string)
    ensures List(snap, path).Ok? <==>
      ListKeys(snap, path).Ok? && DistinctKeys(Valued(snap[path].value.nodes.value))
    ensures List(snap, path).Err? && ListKeys(snap, path).Err? ==>
      List(snap, path).error == ListKeys(snap, path).error
    ensures ListKeys(snap, path).Ok? && List(snap, path).Err? ==> List(snap, path).error == DuplicateKey
  {
  }

  // ---------------------------------------------------------- listNested

  /** Once a prefix of the children has failed, the walk of all of them ends
      with that failure: no later child changes it. */
  lemma {:induction false} NestedChildrenPrefixErr(snap: Snapshot, path: string, ps: seq<Proxy>, k: nat)
    requires Acyclic(snap) && (forall c | c in ps :: |path| < |c.key|)
    requires k <= |ps|
    requires NestedChildren(snap, path, ps[..k]).Err?
    ensures NestedChildren(snap, path, ps) == NestedChildren(snap, path, ps[..k])
    decreases |ps| - k
  {
    if k < |ps| {
      var init := ps[..|ps| - 1];
      assert init[..k] == ps[..k];
      assert forall c | c in init :: c in ps;
      NestedChildrenPrefixErr(snap, path, init, k);
    } else {
      assert ps[..k] == ps;
    }
  }

  /** Each entry the walk builds is the value of the child at that position. */
  lemma {:induction false} NestedChildrenAt(snap: Snapshot, path: string, ps: seq<Proxy>, i: nat)
    requires Acyclic(snap) && (forall c | c in ps :: |path| < |c.key|)
    requires NestedChildren(snap, path, ps).Ok? && i < |ps|
    ensures ChildValue(snap, path, ps[i]) == Ok(NestedChildren(snap, path, ps).value[i].1)
  {
    var init := ps[..|ps| - 1];
    assert forall c | c in init :: c in ps;
    if i < |ps| - 1 {
      assert init[i] == ps[i];
      NestedChildrenAt(snap, path, init, i);
    }
  }

  /** Each child's key paired with the value at the same position. */
  function Zip(ps: seq<Proxy>, vs: seq<Value>): (es: Entries)
    requires |ps| == |vs|
    ensures |es| == |ps| && forall i | 0 <= i < |ps| :: es[i] == (ps[i].key, vs[i])
  {
    if ps == [] then [] else Zip(ps[..|ps| - 1], vs[..|vs| - 1]) + [(ps[|ps| - 1].key, vs[|vs| - 1])]
  }

  /** When every child's value is known, the walk pairs each child's key with
      its value, in order. */
  lemma {:induction false} NestedChildrenValues(snap: Snapshot, path: string, ps: seq<Proxy>, vs: seq<Value>)
    requires Acyclic(snap) && (forall c | c in ps :: |path| < |c.key|)
    requires |vs| == |ps| && forall i | 0 <= i < |ps| :: ChildValue(snap, path, ps[i]) == Ok(vs[i])
    ensures NestedChildren(snap, path, ps) == Ok(Zip(ps, vs))
  {
    if ps != [] {
      var n := |ps| - 1;
      var init := ps[..n];
      assert forall c | c in init :: c in ps;
      assert forall i | 0 <= i < n :: init[i] == ps[i];
      NestedChildrenValues(snap, path, init, vs[..n]);
    }
  }

  /** The walk of the children succeeds exactly when every child's value does. */
  lemma {:induction false} NestedChildrenOk(snap: Snapshot, path: string, ps: seq<Proxy>)
    requires Acyclic(snap) && (forall c | c in ps :: |path| < |c.key|)
    ensures NestedChildren(snap, path, ps).Ok? <==> forall i | 0 <= i < |ps| :: ChildValue(snap, path, ps[i]).Ok?
  {
    if NestedChildren(snap, path, ps).Ok? {
      forall i | 0 <= i < |ps| ensures ChildValue(snap, path, ps[i]).Ok? {
        NestedChildrenAt(snap, path, ps, i);
      }
    } else if ps != [] {
      var init := ps[..|ps| - 1];
      assert forall c | c in init :: c in ps;
      NestedChildrenOk(snap, path, init);
      if NestedChildren(snap, path, init).Err? {
        var i :| 0 <= i < |init| && ChildValue(snap, path, init[i]).Err?;
        assert init[i] == ps[i];
      }
    }
  }

  /** `listNested(path)` has exactly the keys `listKeys(path)` returns, in the
      same order, each once. */
  lemma ListNestedHasChildKeys(snap: Snapshot, path: string)
    requires Acyclic(snap) && ListNested(snap, path).Ok?
    ensures ListKeys(snap, path) == Ok(Keys(ListNested(snap, path).value))
    ensures DistinctKeys(ListNested(snap, path).value)
  {
  }

  /** What `listNested(path)` stores under each child: for a directory child,
      its own nested map passed through list inference; for any other child,
      the value the child list carries. */
  lemma ListNestedEntry(snap: Snapshot, path: string, i: nat)
    requires Acyclic(snap) && ListNested(snap, path).Ok?
    requires i < |ListNested(snap, path).value|
    ensures path in snap && snap[path].Ok? && snap[path].value.nodes.Some?
    ensures var m := ListNested(snap, path).value; var c := snap[path].value.nodes.value[i];
      && m[i].0 == c.key
      && IsDirectory(snap, c.key).Ok?
      && (IsDirectory(snap, c.key).value ==>
            ListNested(snap, c.key).Ok? && m[i].1 == ConvertIfReallyList(c.key, ListNested(snap, c.key).value))
      && (!IsDirectory(snap, c.key).value ==> c.value.Some? && m[i].1 == Str(c.value.value))
  {
    var cs := snap[path].value.nodes.value;
    assert ChildrenDeeper(path, snap[path].value);
    NestedChildrenAt(snap, path, cs, i);
  }

  /** The first child (in order) whose value fails decides the failure of
      the walk over all the children. */
  lemma NestedChildrenFirstFailure(snap: Snapshot, path: string, ps: seq<Proxy>, i: nat, e: Error)
    requires Acyclic(snap) && (forall c | c in ps :: |path| < |c.key|)
    requires i < |ps| && (forall j | 0 <= j < i :: ChildValue(snap, path, ps[j]).Ok?)
    requires ChildValue(snap, path, ps[i]) == Err(e)
    ensures NestedChildren(snap, path, ps) == Err(e)
  {
    var upto := ps[..i + 1];
    assert forall c | c in upto :: c in ps;
    var before := upto[..i];
    assert forall c | c in before :: c in ps;
    assert forall j | 0 <= j < i :: before[j] == ps[j];
    NestedChildrenOk(snap, path, before);
    assert upto[..|upto| - 1] == before && upto[i] == ps[i];
    assert NestedChildren(snap, path, upto) == Err(e);
    NestedChildrenPrefixErr(snap, path, ps, i + 1);
  }

  /** A failure anywhere in the walk ends the whole `listNested` call with
      that failure and no partial result: the first child (in store order)
      whose value fails decides the error. */
  lemma ListNestedFirstFailure(snap: Snapshot, path: string, i: nat, e: Error)
    requires Acyclic(snap)
    requires path != "" && path in snap && snap[path].Ok? && snap[path].value.nodes.Some?
    requires var cs := snap[path].value.nodes.value;
      && i < |cs|
      && (forall j | 0 <= j < i :: ChildValue(snap, path, cs[j]).Ok?)
      && ChildValue(snap, path, cs[i]) == Err(e)
    ensures ListNested(snap, path) == Err(e)
  {
    assert ChildrenDeeper(path, snap[path].value);
    NestedChildrenFirstFailure(snap, path, snap[path].value.nodes.value, i, e);
  }

  /** A store failure on a child's fetch, with every earlier child fine,
      aborts `listNested` of the parent with that store failure. */
  lemma StoreFailureAborts(snap: Snapshot, path: string, i: nat, e: StoreError)
    requires Acyclic(snap)
    requires path != "" && path in snap && snap[path].Ok? && snap[path].value.nodes.Some?
    requires var cs := snap[path].value.nodes.value;
      && i < |cs|
      && (forall j | 0 <= j < i :: ChildValue(snap, path, cs[j]).Ok?)
      && Fetch(snap, cs[i].key) == Err(e)
    ensures ListNested(snap, path) == Err(Store(e))
  {
    var cs := snap[path].value.nodes.value;
    assert ChildrenDeeper(path, snap[path].value);
    assert cs[i] in cs;
    ListNestedFirstFailure(snap, path, i, Store(e));
  }

  /** A failure anywhere below a directory child, with every earlier child
      fine, aborts `listNested` of the parent with that same failure. With
      `PathFetchFailure` this carries a store failure at any depth up to the
      top of the walk. */
  lemma NestedFailureAborts(snap: Snapshot, path: string, i: nat, e: Error)
    requires Acyclic(snap)
    requires path != "" && path in snap && snap[path].Ok? && snap[path].value.nodes.Some?
    requires var cs := snap[path].value.nodes.value;
      && i < |cs|
      && (forall j | 0 <= j < i :: ChildValue(snap, path, cs[j]).Ok?)
      && IsDirectory(snap, cs[i].key) == Ok(true)
      && ListNested(snap, cs[i].key) == Err(e)
    ensures ListNested(snap, path) == Err(e)
  {
    var cs := snap[path].value.nodes.value;
    assert ChildrenDeeper(path, snap[path].value);
    assert cs[i] in cs;
    ListNestedFirstFailure(snap, path, i, e);
  }

  /** When every child's value succeeds, `listNested` pairs each child's key
      with its value, in store order, unless two children share a key, which
      the builder rejects. */
  lemma ListNestedValues(snap: Snapshot, path: string, vs: seq<Value>)
    requires Acyclic(snap)
    requires path != "" && path in snap && snap[path].Ok? && snap[path].value.nodes.Some?
    requires var cs := snap[path].value.nodes.value;
      |vs| == |cs| && forall i | 0 <= i < |cs| :: ChildValue(snap, path, cs[i]) == Ok(vs[i])
    ensures var z := Zip(snap[path].value.nodes.value, vs);
      ListNested(snap, path) == if DistinctKeys(z) then Ok(z) else Err(DuplicateKey)
  {
    assert ChildrenDeeper(path, snap[path].value);
    NestedChildrenValues(snap, path, snap[path].value.nodes.value, vs);
  }

  /** A directory whose children are all leaves with a value becomes the map
      of those keys to their strings, in store order, unless two children
      share a key. */
  lemma ListNestedAllLeaves(snap: Snapshot, path: string)
    requires Acyclic(snap)
    requires path != "" && path in snap && snap[path].Ok? && snap[path].value.nodes.Some?
    requires var cs := snap[path].value.nodes.value;
      forall i | 0 <= i < |cs| :: IsDirectory(snap, cs[i].key) == Ok(false) && cs[i].value.Some?
    ensures var cs := snap[path].value.nodes.value; var r := ListNested(snap, path);
      && (r.Ok? ==> |r.value| == |cs| && forall i | 0 <= i < |cs| :: r.value[i] == (cs[i].key, Str(cs[i].value.value)))
      && (r.Err? ==> r.error == DuplicateKey)
  {
    var cs := snap[path].value.nodes.value;
    assert ChildrenDeeper(path, snap[path].value);
    var vs := seq(|cs|, i requires 0 <= i < |cs| => Str(cs[i].value.value));
    assert forall i | 0 <= i < |cs| :: cs[i] in cs;
    ListNestedValues(snap, path, vs);
  }

  /** List inference is only ever applied to non-empty maps: a directory
      child has at least one child, so its value is a non-empty list or map.
      Hence the empty map never turns into an empty list inside `listNested`. */
  lemma SubdirectoryValueNotEmpty(snap: Snapshot, path: string, c: Proxy)
    requires Acyclic(snap) && |path| < |c.key|
    requires IsDirectory(snap, c.key) == Ok(true) && ChildValue(snap, path, c).Ok?
    ensures match ChildValue(snap, path, c).value
      case Lst(items) => |items| > 0
      case Dir(entries) => |entries| > 0
      case Str(_) => false
  {
    var sub := ListNested(snap, c.key).value;
    assert |Keys(sub)| == |snap[c.key].value.nodes.value|;
  }

  // ---------------------------------------------------- list inference

  /** The shape rule: a list exactly when every index key below `|m|` is
      present; then its element `i` is the value under `key/i`; otherwise the
      very same map. */
  lemma ConvertIfReallyListShape(key: string, m: Entries)
    ensures var r := ConvertIfReallyList(key, m);
      && (r.Lst? <==> forall i: nat | i < |m| :: Lookup(m, IndexKey(key, i)).Some?)
      && (r.Lst? ==> |r.items| == |m| && forall i | 0 <= i < |m| :: Lookup(m, IndexKey(key, i)) == Some(r.items[i]))
      && (!r.Lst? ==> r == Dir(m))
  {
  }

  /** With no entries the counted loop does not run and the result is the
      empty list. */
  lemma ConvertEmptyMap(key: string)
    ensures ConvertIfReallyList(key, []) == Lst([])
  {
  }

  /** List inference never invents or alters a value: every element of the
      list is a value of the map. */
  lemma ConvertKeepsValues(key: string, m: Entries)
    requires ConvertIfReallyList(key, m).Lst?
    ensures forall v | v in ConvertIfReallyList(key, m).items :: v in Values(m)
  {
  }

  /** Different indices give different keys. */
  lemma IndexKeyInjective(key: string, i: nat, j: nat)
    requires IndexKey(key, i) == IndexKey(key, j)
    ensures i == j
  {
    assert IndexKey(key, i)[|key| + 1..] == Decimal.FromNat(i);
    assert IndexKey(key, j)[|key| + 1..] == Decimal.FromNat(j);
    Decimal.FromNatInjective(i, j);
  }

  /** A zero-padded index such as `key/00` or `key/01` is never a candidate. */
  lemma PaddedIndexNeverMatches(key: string, i: nat, digits: string)
    requires |digits| > 1 && digits[0] == '0'
    ensures IndexKey(key, i) != key + "/" + digits
  {
    var s := Decimal.FromNat(i);
    assert s != digits by {
      if s[0] == '0' { assert |s| == 1; }
    }
    assert IndexKey(key, i)[|key| + 1..] == s;
    assert (key + "/" + digits)[|key| + 1..] == digits;
  }

  /** The keys `key/0` to `key/(n-1)`. */
  function IndexKeySet(key: string, n: nat): (s: set<string>)
    ensures forall k :: k in s <==> exists i | 0 <= i < n :: k == IndexKey(key, i)
    ensures |s| == n
  {
    if n == 0 then {}
    else
      var s := IndexKeySet(key, n - 1);
      assert IndexKey(key, n - 1) !in s by {
        if IndexKey(key, n - 1) in s {
          var i :| 0 <= i < n - 1 && IndexKey(key, n - 1) == IndexKey(key, i);
          IndexKeyInjective(key, i, n - 1);
        }
      }
      s + {IndexKey(key, n - 1)}
  }

  /** When a map becomes a list, its keys are exactly the index keys: there
      is no other key beside them, so nothing is dropped. */
  lemma ListCoversMap(key: string, m: Entries)
    requires DistinctKeys(m) && ConvertIfReallyList(key, m).Lst?
    ensures KeySet(m) == IndexKeySet(key, |m|)
  {
    var keys, index := KeySet(m), IndexKeySet(key, |m|);
    KeySetSize(m);
    assert index <= keys;
    assert keys * index == index;
    assert |keys - index| == |keys| - |index| == 0;
  }

  /** The entries a list stands for: element `i` under `key/i`. */
  function Unlist(key: string, items: seq<Value>): (m: Entries)
    ensures |m| == |items|
    ensures forall i | 0 <= i < |items| :: m[i] == (IndexKey(key, i), items[i])
  {
    seq(|items|, i requires 0 <= i < |items| => (IndexKey(key, i), items[i]))
  }

  /** List inference loses nothing: putting each element back under its
      index key gives a map with the same lookups as the original. */
  lemma ConvertRoundTrip(key: string, m: Entries)
    requires DistinctKeys(m) && ConvertIfReallyList(key, m).Lst?
    ensures var back := Unlist(key, ConvertIfReallyList(key, m).items);
      DistinctKeys(back) && |back| == |m| && forall k :: Lookup(back, k) == Lookup(m, k)
  {
    var items := ConvertIfReallyList(key, m).items;
    ConvertIfReallyListShape(key, m);
    ListCoversMap(key, m);
    var back := Unlist(key, items);
    UnlistDistinct(key, items);
    forall k ensures Lookup(back, k) == Lookup(m, k) {
      UnlistLookup(key, items, m, k);
    }
  }

  lemma UnlistDistinct(key: string, items: seq<Value>)
    ensures DistinctKeys(Unlist(key, items))
  {
    var back := Unlist(key, items);
    forall i, j | 0 <= i < j < |back| ensures back[i].0 != back[j].0 {
      if back[i].0 == back[j].0 { IndexKeyInjective(key, i, j); }
    }
  }

  lemma UnlistLookup(key: string, items: seq<Value>, m: Entries, k: string)
    requires |items| == |m| && KeySet(m) == IndexKeySet(key, |m|)
    requires forall i | 0 <= i < |m| :: Lookup(m, IndexKey(key, i)) == Some(items[i])
    ensures Lookup(Unlist(key, items), k) == Lookup(m, k)
  {
    var back := Unlist(key, items);
    if k in KeySet(m) {
      var i :| 0 <= i < |m| && k == IndexKey(key, i);
      assert back[i].0 == k;
      UnlistDistinct(key, items);
      LookupDistinct(back, i);
    } else {
      forall j | 0 <= j < |back| ensures Keys(back)[j] != k {
        assert back[j].0 == IndexKey(key, j);
      }
      assert k !in Keys(m);
    }
  }
}
