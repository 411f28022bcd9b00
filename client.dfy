/**
 * The client's tree-reading operations as the loops that compute them, each
 * proved to return what the corresponding function of module Walker says.
 * The connection to the store is the snapshot parameter `etcd`.
 */
module StuccoClientImpl {
  import opened Wrappers
  import opened Etcd
  import opened Nested
  import opened Walker
  import Decimal
  import WalkerProperties

  /** The child keys of `path`, gathered one child at a time. */
  method ListKeys(etcd: Snapshot, path: string) returns (r: Result<seq<string>, Error>)
    ensures r == Walker.ListKeys(etcd, path)
  {
    if path == "" {
      return Err(InvalidArgument);
    }
    var proxies := GetChildrenProxies(etcd, path);
    if proxies.Err? {
      return Err(proxies.error);
    }
    if proxies.value.None? {
      return Err(NullChildList(path));
    }
    var children := proxies.value.value;
    var builder: seq<string> := [];
    for i := 0 to |children|
      invariant builder == ChildKeys(children[..i])
    {
      builder := builder + [children[i].key];
    }
    assert children[..|children|] == children;
    return Ok(builder);
  }

  /** One level of children, skipping every child without a value. */
  method List(etcd: Snapshot, path: string) returns (r: Result<seq<(string, string)>, Error>)
    ensures r == Walker.List(etcd, path)
  {
    if path == "" {
      return Err(InvalidArgument);
    }
    var root := Fetch(etcd, path);
    if root.Err? {
      return Err(Store(root.error));
    }
    if root.value.nodes.None? {
      return Err(NullChildList(path));
    }
    var nodes := root.value.nodes.value;
    var builder: seq<(string, string)> := [];
    for i := 0 to |nodes|
      invariant builder == Valued(nodes[..i])
    {
      var node := nodes[i];
      assert nodes[..i + 1][..i] == nodes[..i];
      if node.value.Some? {
        builder := builder + [(node.key, node.value.value)];
      }
    }
    assert nodes[..|nodes|] == nodes;
    if !DistinctKeys(builder) {
      return Err(DuplicateKey);
    }
    return Ok(builder);
  }

  /** Replaces a map level by the list of its values when its keys are
      `key/0`, `key/1`, ... up to its size; stops at the first missing one. */
  method ConvertIfReallyList(key: string, m: Entries) returns (r: Value)
    ensures r == Walker.ConvertIfReallyList(key, m)
  {
    var count := |m|;
    var valueList: seq<Value> := [];
    for i := 0 to count
      invariant |valueList| == i
      invariant forall j | 0 <= j < i :: IndexKey(key, j) in Keys(m) && valueList[j] == Get(m, IndexKey(key, j))
    {
      var keyStr := key + "/" + Decimal.FromNat(i);
      if keyStr !in Keys(m) {
        assert keyStr == IndexKey(key, i);
        return Dir(m);
      }
      valueList := valueList + [Get(m, keyStr)];
    }
    assert valueList == seq(|m|, i requires 0 <= i < |m| => Get(m, IndexKey(key, i)));
    return Lst(valueList);
  }

  /** The whole subtree below `path`: every child is classified by a fetch
      of its own key, and directories are walked recursively and then
      passed through list inference. */
  method ListNested(etcd: Snapshot, path: string) returns (r: Result<Entries, Error>)
    requires Acyclic(etcd)
    ensures r == Walker.ListNested(etcd, path)
    decreases |Deeper(etcd, path)|
  {
    if path == "" {
      return Err(InvalidArgument);
    }
    var proxies := GetChildrenProxies(etcd, path);
    if proxies.Err? {
      return Err(proxies.error);
    }
    if proxies.value.None? {
      return Err(NullChildList(path));
    }
    var children := proxies.value.value;
    assert ChildrenDeeper(path, etcd[path].value);
    var builder: Entries := [];
    for i := 0 to |children|
      invariant forall c | c in children[..i] :: |path| < |c.key|
      invariant NestedChildren(etcd, path, children[..i]) == Ok(builder)
    {
      var node := children[i];
      var key := node.key;
      ghost var upto := children[..i + 1];
      assert upto[..i] == children[..i] && upto[i] == node;
      assert forall c | c in upto :: c in children;
      var value: Value;
      var isDir := IsDirectory(etcd, key);
      if isDir.Err? {
        WalkerProperties.NestedChildrenPrefixErr(etcd, path, children, i + 1);
        return Err(isDir.error);
      }
      if isDir.value {
        DeeperShrinks(etcd, path, key);
        var sub := ListNested(etcd, key);
        if sub.Err? {
          WalkerProperties.NestedChildrenPrefixErr(etcd, path, children, i + 1);
          return Err(sub.error);
        }
        value := ConvertIfReallyList(key, sub.value);
      } else {
        if node.value.None? {
          WalkerProperties.NestedChildrenPrefixErr(etcd, path, children, i + 1);
          return Err(NullValue(key));
        }
        value := Str(node.value.value);
      }
      builder := builder + [(key, value)];
    }
    assert children[..|children|] == children;
    if !DistinctKeys(builder) {
      return Err(DuplicateKey);
    }
    return Ok(builder);
  }
}
