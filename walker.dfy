/**
 * What the client's tree-reading operations compute, stated as functions of
 * the store snapshot: `getChildrenProxies`, `isDirectory`, `listKeys`,
 * `list`, `convertIfReallyList` and the recursive `listNested`.
 */
module Walker {
  import opened Wrappers
  import opened Etcd
  import opened Nested
  import Decimal

  /** The exceptions the operations can end with. */
  datatype Error =
    | InvalidArgument            // Preconditions.checkArgument on a null or empty path
    | NullChildList(path: string) // a for-each over the null child list of a leaf
    | NullValue(key: string)      // ImmutableMap.Builder.put of a null value
    | DuplicateKey                // ImmutableMap.Builder.build with a key put twice
    | Store(cause: StoreError)    // an EtcdException raised by the store

  /** The child list of `path` as one `get` returns it; absent for a leaf. */
  function GetChildrenProxies(snap: Snapshot, path: string): (r: Result<Option<seq<Proxy>>, Error>)
    ensures path == "" ==> r == Err(InvalidArgument)
    ensures r.Ok? <==> path != "" && path in snap && snap[path].Ok?
    ensures r.Ok? ==> r.value == snap[path].value.nodes
    ensures path != "" && path !in snap ==> r == Err(Store(KeyNotFound(path)))
    ensures path != "" && path in snap && snap[path].Err? ==> r == Err(Store(snap[path].error))
  {
    if path == "" then Err(InvalidArgument)
    else match Fetch(snap, path)
      case Ok(root) => Ok(root.nodes)
      case Err(e) => Err(Store(e))
  }

  /** A path is a directory when its child list is present and not empty. */
  function IsDirectory(snap: Snapshot, path: string): (r: Result<bool, Error>)
    ensures r.Err? <==> GetChildrenProxies(snap, path).Err?
    ensures r.Err? ==> r.error == GetChildrenProxies(snap, path).error
    ensures r == Ok(true) <==>
      path != "" && path in snap && snap[path].Ok? &&
      snap[path].value.nodes.Some? && |snap[path].value.nodes.value| > 0
  {
    match GetChildrenProxies(snap, path)
    case Err(e) => Err(e)
    case Ok(children) => Ok(children.Some? && |children.value| > 0)
  }

  /** The keys of the children of `path`, one per child, in store order. */
  function ListKeys(snap: Snapshot, path: string): (r: Result<seq<string>, Error>)
    ensures path == "" ==> r == Err(InvalidArgument)
    ensures r.Ok? <==> path != "" && path in snap && snap[path].Ok? && snap[path].value.nodes.Some?
    ensures r.Ok? ==>
      var cs := snap[path].value.nodes.value;
      |r.value| == |cs| && forall i | 0 <= i < |cs| :: r.value[i] == cs[i].key
    ensures path != "" && path in snap && snap[path].Ok? && snap[path].value.nodes.None? ==>
      r == Err(NullChildList(path))
    ensures path != "" && path !in snap ==> r == Err(Store(KeyNotFound(path)))
    ensures path != "" && path in snap && snap[path].Err? ==> r == Err(Store(snap[path].error))
  {
    match GetChildrenProxies(snap, path)
    case Err(e) => Err(e)
    case Ok(None) => Err(NullChildList(path))
    case Ok(Some(children)) => Ok(ChildKeys(children))
  }

  /** The children that carry a value, as (key, value) pairs in store order. */
  function Valued(cs: seq<Proxy>): (r: seq<(string, string)>)
    ensures |r| <= |cs|
    ensures forall e | e in r :: Proxy(e.0, Some(e.1)) in cs
  {
    if cs == [] then []
    else
      var c := cs[|cs| - 1];
      Valued(cs[..|cs| - 1]) + if c.value.Some? then [(c.key, c.value.value)] else []
  }

  /** One level of children, keeping those that carry a value. */
  function List(snap: Snapshot, path: string): (r: Result<seq<(string, string)>, Error>)
    ensures path == "" ==> r == Err(InvalidArgument)
    ensures r.Ok? ==> ListKeys(snap, path).Ok? && DistinctKeys(r.value)
    ensures r.Ok? ==> forall e | e in r.value :: Proxy(e.0, Some(e.1)) in snap[path].value.nodes.value
    ensures ListKeys(snap, path).Err? ==> r.Err? && r.error == ListKeys(snap, path).error
  {
    if path == "" then Err(InvalidArgument)
    else match Fetch(snap, path)
      case Err(e) => Err(Store(e))
      case Ok(root) =>
        if root.nodes.None? then Err(NullChildList(path))
        else
          var pairs := Valued(root.nodes.value);
          if DistinctKeys(pairs) then Ok(pairs) else Err(DuplicateKey)
  }

  /** The key under which element `i` of a list stored at `key` lives. */
  function IndexKey(key: string, i: nat): (k: string)
    ensures |k| > |key| + 1 && k[..|key|] == key && k[|key|] == '/'
    ensures Decimal.AllDigits(k[|key| + 1..])
  {
    key + "/" + Decimal.FromNat(i)
  }

  /** The value under a key known to be present. */
  function Get(m: Entries, k: string): Value
    requires k in Keys(m)
  {
    Lookup(m, k).value
  }

  /** A map level is a list when it holds `key/0` to `key/(n-1)`, where `n` is
      its size; then it becomes the list of those values in index order.
      Otherwise it stays the same map. */
  function ConvertIfReallyList(key: string, m: Entries): (r: Value)
    ensures r.Dir? ==> r.entries == m
    ensures r.Lst? ==> |r.items| == |m|
    ensures !r.Str?
  {
    if forall i: nat | i < |m| :: IndexKey(key, i) in Keys(m)
    then Lst(seq(|m|, i requires 0 <= i < |m| => Get(m, IndexKey(key, i))))
    else Dir(m)
  }

  /** The value `listNested` stores for one child of `path`: the converted
      nested map when the child's own key is a directory, else its value. */
  function ChildValue(snap: Snapshot, path: string, c: Proxy): (r: Result<Value, Error>)
    requires Acyclic(snap) && |path| < |c.key|
    ensures IsDirectory(snap, c.key).Err? ==> r == Err(IsDirectory(snap, c.key).error)
    ensures IsDirectory(snap, c.key) == Ok(false) && c.value.None? ==> r == Err(NullValue(c.key))
    ensures IsDirectory(snap, c.key) == Ok(false) && c.value.Some? ==> r == Ok(Str(c.value.value))
    ensures r.Ok? ==> (r.value.Str? <==> IsDirectory(snap, c.key) == Ok(false))
    ensures r.Ok? && r.value.Str? ==> c.value == Some(r.value.s)
    ensures IsDirectory(snap, c.key) == Ok(true) ==>
      && |Deeper(snap, c.key)| < |Deeper(snap, path)|
      && (r.Err? <==> ListNested(snap, c.key).Err?)
      && (r.Err? ==> r.error == ListNested(snap, c.key).error)
      && (r.Ok? ==> r.value == ConvertIfReallyList(c.key, ListNested(snap, c.key).value))
    decreases |Deeper(snap, path)|, 0, 0
  {
    match IsDirectory(snap, c.key)
    case Err(e) => Err(e)
    case Ok(isDir) =>
      if isDir then
        DeeperShrinks(snap, path, c.key);
        var sub := ListNested(snap, c.key);
        if sub.Err? then Err(sub.error) else Ok(ConvertIfReallyList(c.key, sub.value))
      else if c.value.Some? then Ok(Str(c.value.value))
      else Err(NullValue(c.key))
  }

  /** The entries for the children `ps` of `path`, built in order; the first
      child that fails ends the walk with its error. */
  function NestedChildren(snap: Snapshot, path: string, ps: seq<Proxy>): (r: Result<Entries, Error>)
    requires Acyclic(snap)
    requires forall c | c in ps :: |path| < |c.key|
    ensures r.Ok? ==> Keys(r.value) == ChildKeys(ps)
    decreases |Deeper(snap, path)|, 1, |ps|
  {
    if ps == [] then Ok([])
    else
      var init := ps[..|ps| - 1];
      var c := ps[|ps| - 1];
      assert forall d | d in init :: d in ps;
      var done := NestedChildren(snap, path, init);
      if done.Err? then done
      else
        var v := ChildValue(snap, path, c);
        if v.Err? then Err(v.error) else Ok(done.value + [(c.key, v.value)])
  }

  /** The whole subtree below `path` as nested entries; the level of `path`
      itself is never converted to a list. */
  function ListNested(snap: Snapshot, path: string): (r: Result<Entries, Error>)
    requires Acyclic(snap)
    ensures r.Ok? ==> DistinctKeys(r.value)
    ensures ListKeys(snap, path).Err? ==> r == Err(ListKeys(snap, path).error)
    decreases |Deeper(snap, path)|, 2, 0
  {
    if path == "" then Err(InvalidArgument)
    else match GetChildrenProxies(snap, path)
      case Err(e) => Err(e)
      case Ok(None) => Err(NullChildList(path))
      case Ok(Some(children)) =>
        assert ChildrenDeeper(path, snap[path].value);
        var built := NestedChildren(snap, path, children);
        if built.Err? then built
        else if DistinctKeys(built.value) then built
        else Err(DuplicateKey)
  }
}
