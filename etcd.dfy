/**
 * The key-value store as the client sees it: a fixed snapshot that answers a
 * `get` of each key with the node the server returns, or with an error.
 */
module Etcd {
  import opened Wrappers

  /** A child as a one-level listing returns it: its key and, for a leaf, its
      value. Its own children are not populated by that listing. */
  datatype Proxy = Proxy(key: string, value: Option<string>)

  /** The node a `get` of one key returns: a value (leaves) and a child list,
      which is absent for a leaf and may be empty for an empty directory. */
  datatype Listing = Listing(value: Option<string>, nodes: Option<seq<Proxy>>)

  /** What an `EtcdException` can report: the key does not exist, the store
      could not be reached, or its answer could not be read. */
  datatype StoreError = KeyNotFound(key: string) | Unavailable | ProtocolError

  /** The reply the store gives for every key that it knows; a key may be
      recorded with a failure, standing for a transport or protocol error on
      that fetch. Every other key is not found. */
  type Snapshot = map<string, Result<Listing, StoreError>>

  /** `etcd.get(path).getNode()`: a lookup in the snapshot. This is the
      store's definition and has no contract of its own; what callers see is
      stated by `Walker.GetChildrenProxies` and `Walker.List`. */
  function Fetch(snap: Snapshot, path: string): Result<Listing, StoreError> {
    if path in snap then snap[path] else Err(KeyNotFound(path))
  }

  /** The keys of a child list, in store order. */
  function ChildKeys(cs: seq<Proxy>): (ks: seq<string>)
    ensures |ks| == |cs| && forall i | 0 <= i < |cs| :: ks[i] == cs[i].key
  {
    seq(|cs|, i requires 0 <= i < |cs| => cs[i].key)
  }

  ghost predicate ChildrenDeeper(path: string, l: Listing) {
    l.nodes.Some? ==> forall c | c in l.nodes.value :: |path| < |c.key|
  }

  /** The store is a finite tree: in etcd every child key extends its parent's
      key, so it is strictly longer, and no key is its own descendant. */
  ghost predicate Acyclic(snap: Snapshot) {
    forall k | k in snap && snap[k].Ok? :: ChildrenDeeper(k, snap[k].value)
  }

  /** The keys of the snapshot longer than `path`: the measure that makes the
      recursive walk terminate. */
  ghost function Deeper(snap: Snapshot, path: string): set<string> {
    set k | k in snap && |path| < |k|
  }

  lemma DeeperShrinks(snap: Snapshot, path: string, child: string)
    requires child in snap && |path| < |child|
    ensures |Deeper(snap, child)| < |Deeper(snap, path)|
  {
    var outer, inner := Deeper(snap, path), Deeper(snap, child);
    assert outer * inner == inner;
    assert child in outer - inner;
    assert |outer - inner| == |outer| - |inner|;
  }
}
