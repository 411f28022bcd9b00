# Subtree materialisation of the Stucco etcd client

This project models the tree-reading part of `StuccoClientImpl`, a client for the
etcd key-value store. Given a key path, the client lists its children
(`listKeys`), tells whether a path is a directory (`isDirectory`), reads one
level of leaf values (`list`), and materialises a whole subtree as nested maps
(`listNested`). While materialising, `convertIfReallyList` turns every
subdirectory whose keys are `key/0`, `key/1`, ... up to its size into a list.

The store is a fixed snapshot (`Etcd.Snapshot`). It maps each key to the reply a
`get` of that key returns. The reply is either a node or a store failure, and a
key the snapshot lacks is "key not found". `Etcd.Fetch` is that lookup. A node carries an optional value and
an optional child list of proxies. A proxy is the key and value of a child, with
the child's own children not filled in. The snapshot is read-only. Re-fetching a
key, as `isDirectory` does for every child, gives the same answer each time.

Each Java exception becomes a `Walker.Error`:
- `InvalidArgument`: `Preconditions.checkArgument` on an empty path.
- `NullChildList`: the `NullPointerException` from looping over the missing child list of a leaf.
- `NullValue`: `ImmutableMap.Builder.put` of a null value.
- `DuplicateKey`: `ImmutableMap.Builder.build` with a key put twice.
- `Store`: an `EtcdException` from the store.

A nested value is `Nested.Value`: a string, a map level, or a list. A map level
is `Entries`, the (key, value) pairs in insertion order, as `ImmutableMap`
iterates them.

Layout:
- `walker.dfy` (module `Walker`): what each operation returns, written as functions.
- `walker_props.dfy`: the lemmas about those functions.
- `client.dfy` (module `StuccoClientImpl`): the Java loops as methods. Each method is proved to return exactly what its `Walker` function says.
- `examples.dfy`: worked cases on small concrete snapshots.
- `decimal.dfy`: the decimal rendering of indices (`String.valueOf`).
- `etcd.dfy`, `nested.dfy`, `wrappers.dfy`: the store, the nested values, Option and Result.

`getChildrenProxies` and `isDirectory` are straight-line code with no loop in
the source, so they are functions. The top-level `listNested` map has type `Entries`, not
`Value`, so the level being walked is never converted to a list.

In these cases the code behaves differently from what a reader might expect,
and the model follows the code:
- A path that does not exist makes every operation fail with the store's "key not found" error. It does not give an empty key list or `false`.
- For a leaf path, `listKeys`, `list` and `listNested` fail with `NullChildList`, because the code loops over a null child list.
- An empty subdirectory below the walked path makes `listNested` fail with `NullValue` (`WalkerExamples.EmptySubdirectoryFails`). Its child count says it is not a directory, and its value is null. Only the walked directory itself, when empty, gives the empty map.
- `convertIfReallyList` turns an empty map into an empty list (`WalkerProperties.ConvertEmptyMap`). Inside `listNested` it only ever sees non-empty maps (`WalkerProperties.SubdirectoryValueNotEmpty`), so this choice cannot be observed there.

`listNested` needs `Etcd.Acyclic`: every child key is strictly longer than its
parent's key. This holds in etcd, where a child's key extends its parent's key.
The recursion decreases the number of snapshot keys longer than the current
path. Without this condition the recursion need not end; a cycle of keys
recurses until the stack overflows.

## Model

| member | source | states |
|---|---|---|
| `Decimal.FromNat` | src/main/java/jetcd/StuccoClientImpl.java:192 | the rendering of an index is a non-empty string of digits, with no leading zero unless the index is 0 |
| `Decimal.ToNatFromNat` | src/main/java/jetcd/StuccoClientImpl.java:192 | reading the decimal rendering back gives the index |
| `Decimal.FromNatInjective` | src/main/java/jetcd/StuccoClientImpl.java:192 | distinct indices render differently |
| `Etcd.DeeperShrinks` | src/main/java/jetcd/StuccoClientImpl.java:150-152 | recursing into a child key of an acyclic store strictly shrinks the set of deeper keys, so the walk ends |
| `Nested.LookupDistinct` | src/main/java/jetcd/StuccoClientImpl.java:199 | in a map with distinct keys, `get` of an entry's key returns that entry's value |
| `Nested.KeySetSize` | src/main/java/jetcd/StuccoClientImpl.java:187 | `map.size()` of a map with distinct keys is its number of keys |
| `Walker.GetChildrenProxies` | src/main/java/jetcd/StuccoClientImpl.java:174-179 | an empty path is rejected; otherwise the result is the stored node's child list (absent for a leaf), or the store's error, or "key not found" for a missing key |
| `Walker.IsDirectory` | src/main/java/jetcd/StuccoClientImpl.java:135-138 | true exactly when the stored node of the path has a present, non-empty child list; fetch errors propagate, and leaves and empty directories give false |
| `Walker.ListKeys` | src/main/java/jetcd/StuccoClientImpl.java:122-132 | succeeds exactly when the path has a stored child list; the result has one key per child, in store order; an empty path gives `InvalidArgument`, a leaf `NullChildList`, a missing path the store's "key not found" and a stored failure that failure |
| `Walker.Valued` | src/main/java/jetcd/StuccoClientImpl.java:89-95 | the pairs kept from a child list are children carrying a value, at most one per child (`WalkerProperties.ValuedExact` states exactly which, `WalkerProperties.ValuedInOrder` that they keep store order) |
| `WalkerProperties.ValuedPositions` | src/main/java/jetcd/StuccoClientImpl.java:89-95 | the positions of the children with a non-null value, strictly increasing |
| `WalkerProperties.ValuedInOrder` | src/main/java/jetcd/StuccoClientImpl.java:89-95 | the k-th pair `list` puts is the key and value of the child at the k-th valued position, so the pairs keep store order |
| `WalkerProperties.ValuedPositionsComplete` | src/main/java/jetcd/StuccoClientImpl.java:92-94 | every child with a non-null value is at one of those positions, so none is skipped |
| `Walker.List` | src/main/java/jetcd/StuccoClientImpl.java:86-97 | an empty path is rejected; a `listKeys` failure is `list`'s failure; a successful map has distinct keys and holds only children of the path with their own values (`WalkerProperties.ListExact` and `ListSucceedsWithListKeys` state the rest) |
| `Walker.IndexKey` | src/main/java/jetcd/StuccoClientImpl.java:192 | the candidate key for index `i` is the key, a `/`, then a non-empty string of digits |
| `Walker.ConvertIfReallyList` | src/main/java/jetcd/StuccoClientImpl.java:186-203 | the result is a list with one element per entry, or the map unchanged, never a plain string (`WalkerProperties.ConvertIfReallyListShape` and `ConvertRoundTrip` state when and how) |
| `Walker.ChildValue` | src/main/java/jetcd/StuccoClientImpl.java:148-160 | a fetch error from `isDirectory` propagates; a non-directory child with a value always gives that string (line 159), and one without a value fails with `NullValue`; a directory child fails exactly when the recursive `listNested(key)` fails, with that error (line 152), and otherwise its value is `convertIfReallyList(key, listNested(key))` (line 155) (`WalkerProperties.ListNestedEntry` and `NestedChildrenAt` relate it to the walk) |
| `Walker.NestedChildren` | src/main/java/jetcd/StuccoClientImpl.java:147-162 | a successful walk of a child list has exactly the children's keys, in order |
| `Walker.ListNested` | src/main/java/jetcd/StuccoClientImpl.java:141-164 | a successful result has distinct keys (the builder rejects a repeated key, line 163); whenever `listKeys` of the same path fails, `listNested` fails with the same error, so an empty path gives `InvalidArgument`, a leaf `NullChildList` (line 146), a missing path "key not found" and a stored failure that failure |
| `WalkerProperties.EntryPointsRejectEmptyPath` | src/main/java/jetcd/StuccoClientImpl.java:174-175 | `getChildrenProxies`, `isDirectory`, `listKeys` (line 123) and `list` (line 87) give `InvalidArgument` for an empty path whatever the store holds, so no fetch can affect the result |
| `WalkerProperties.ListNestedRejectsEmptyPath` | src/main/java/jetcd/StuccoClientImpl.java:142 | `listNested` gives `InvalidArgument` for an empty path on any acyclic store |
| `WalkerProperties.PathFetchFailure` | src/main/java/jetcd/StuccoClientImpl.java:176 | a failed fetch of the path itself makes `isDirectory`, `listKeys`, `list` and `listNested` fail with that store error (the fetch of `list` is line 89) |
| `WalkerProperties.ValuedExact` | src/main/java/jetcd/StuccoClientImpl.java:89-95 | the kept pairs are exactly the children that carry a value, each with that value |
| `WalkerProperties.ListExact` | src/main/java/jetcd/StuccoClientImpl.java:86-97 | a successful `list` maps exactly the children with a non-null value to that value, with distinct keys, and omits the rest |
| `WalkerProperties.ListSucceedsWithListKeys` | src/main/java/jetcd/StuccoClientImpl.java:86-97 | `list` succeeds exactly when `listKeys` does and the valued keys are distinct; otherwise it fails with the same error as `listKeys` or with `DuplicateKey` |
| `WalkerProperties.NestedChildrenPrefixErr` | src/main/java/jetcd/StuccoClientImpl.java:147-162 | once the walk of a prefix of the children fails, the walk of all of them fails with the same error |
| `WalkerProperties.NestedChildrenAt` | src/main/java/jetcd/StuccoClientImpl.java:147-162 | entry `i` of a successful walk holds the value computed for child `i` |
| `WalkerProperties.Zip` | src/main/java/jetcd/StuccoClientImpl.java:161 | pairs child `i`'s key with value `i` |
| `WalkerProperties.NestedChildrenValues` | src/main/java/jetcd/StuccoClientImpl.java:147-162 | when every child's value succeeds, the walk is the children's keys paired with those values, in order |
| `WalkerProperties.NestedChildrenOk` | src/main/java/jetcd/StuccoClientImpl.java:147-162 | the walk of the children succeeds exactly when every child's value succeeds |
| `WalkerProperties.ListNestedHasChildKeys` | src/main/java/jetcd/StuccoClientImpl.java:141-164 | a successful `listNested(p)` has exactly the keys `listKeys(p)` returns, in that order, each once |
| `WalkerProperties.ListNestedEntry` | src/main/java/jetcd/StuccoClientImpl.java:147-161 | under each child's key: if the child's own key is a directory, `convertIfReallyList(key, listNested(key))`; otherwise the child's own non-null value |
| `WalkerProperties.NestedChildrenFirstFailure` | src/main/java/jetcd/StuccoClientImpl.java:147-162 | the first child, in order, whose value fails decides the error of the walk |
| `WalkerProperties.ListNestedFirstFailure` | src/main/java/jetcd/StuccoClientImpl.java:141-164 | the first child, in store order, whose value fails decides the error; no partial result |
| `WalkerProperties.NestedFailureAborts` | src/main/java/jetcd/StuccoClientImpl.java:150-153 | a failure of the recursive `listNested` of a directory child, with every earlier child fine, makes the parent's `listNested` fail with that same error, so a store failure at any depth reaches the top |
| `WalkerProperties.ListNestedValues` | src/main/java/jetcd/StuccoClientImpl.java:141-164 | when every child's value succeeds, `listNested` is the children's keys paired with those values in store order if the keys are distinct, and `DuplicateKey` otherwise |
| `WalkerProperties.ListNestedAllLeaves` | src/main/java/jetcd/StuccoClientImpl.java:141-164 | a directory whose children are all leaves with a value becomes exactly those keys mapped to their strings, in store order, or fails with `DuplicateKey` |
| `WalkerProperties.StoreFailureAborts` | src/main/java/jetcd/StuccoClientImpl.java:150 | a store failure on a child's re-fetch, with every earlier child fine, makes the parent's `listNested` fail with that store error |
| `WalkerProperties.SubdirectoryValueNotEmpty` | src/main/java/jetcd/StuccoClientImpl.java:150-155 | the value of a directory child is a non-empty list or a non-empty map |
| `WalkerProperties.ConvertIfReallyListShape` | src/main/java/jetcd/StuccoClientImpl.java:186-202 | a list exactly when every key `key/i` for `i` below the map's size is present; then it has the map's size and element `i` is the value under `key/i`; otherwise it is the original map unchanged |
| `WalkerProperties.ConvertEmptyMap` | src/main/java/jetcd/StuccoClientImpl.java:187-202 | an empty map gives the empty list |
| `WalkerProperties.ConvertKeepsValues` | src/main/java/jetcd/StuccoClientImpl.java:199 | every element of a produced list is a value of the map |
| `WalkerProperties.IndexKeyInjective` | src/main/java/jetcd/StuccoClientImpl.java:192 | different indices give different candidate keys |
| `WalkerProperties.PaddedIndexNeverMatches` | src/main/java/jetcd/StuccoClientImpl.java:192 | a zero-padded suffix such as `key/00` or `key/01` is never a candidate key |
| `WalkerProperties.IndexKeySet` | src/main/java/jetcd/StuccoClientImpl.java:191-192 | the candidate keys for `n` entries form a set of exactly `n` keys |
| `WalkerProperties.ListCoversMap` | src/main/java/jetcd/StuccoClientImpl.java:186-202 | when a map becomes a list, its keys are exactly the candidate keys, so no entry is left out |
| `WalkerProperties.ConvertRoundTrip` | src/main/java/jetcd/StuccoClientImpl.java:186-202 | putting the list's elements back under their index keys gives a map with distinct keys, the same size and the same lookups as the original |
| `StuccoClientImpl.ListKeys` | src/main/java/jetcd/StuccoClientImpl.java:122-132 | the loop that adds each child's key returns `Walker.ListKeys` |
| `StuccoClientImpl.List` | src/main/java/jetcd/StuccoClientImpl.java:86-97 | the loop that puts each valued child returns `Walker.List` |
| `StuccoClientImpl.ConvertIfReallyList` | src/main/java/jetcd/StuccoClientImpl.java:186-203 | the counted loop with its early return on the first missing index key returns `Walker.ConvertIfReallyList` |
| `StuccoClientImpl.ListNested` | src/main/java/jetcd/StuccoClientImpl.java:141-164 | the recursive loop that classifies each child by re-fetching its key and converts subdirectory maps returns `Walker.ListNested` |
| `WalkerExamples.NumberedChildrenBecomeList` | src/main/java/jetcd/StuccoClientImpl.java:186-202 | children `p/0`, `p/1`, `p/2` holding "a", "b", "c" appear in the parent as the list ["a", "b", "c"] |
| `WalkerExamples.GapKeepsMap` | src/main/java/jetcd/StuccoClientImpl.java:193-196 | children `p/0` and `p/2` stay a map with both keys |
| `WalkerExamples.PaddedKeyKeepsMap` | src/main/java/jetcd/StuccoClientImpl.java:192-195 | a single child `p/00` stays a map |
| `WalkerExamples.UnavailableChildAborts` | src/main/java/jetcd/StuccoClientImpl.java:150 | an unreachable subdirectory makes the whole walk fail with that store error |
| `WalkerExamples.EmptySubdirectoryFails` | src/main/java/jetcd/StuccoClientImpl.java:159-161 | an empty subdirectory below the walked path makes the walk fail with `NullValue` |
| `WalkerExamples.EmptyDirectoryIsEmptyMap` | src/main/java/jetcd/StuccoClientImpl.java:141-163 | walking an empty directory gives the empty map |

## Left out

- The single-key operations `get`, both `set` overloads, `delete` and `compareAndSwap` only check their arguments and pass them to the remote API.
- The connection constructor, the Retrofit adapter, the Jackson mapper and `EtcdErrorHandler` are transport. The store is a snapshot parameter, and a failure stored under a key stands for a transport or protocol error on that fetch.
- Concurrent writers are not modelled. The snapshot is fixed, so the repeated fetch in `isDirectory` re-reads the same reply.
- Fetches are not counted. "Rejected before any fetch" is stated as the empty-path result not depending on the store.
- Null arguments are not modelled because Dafny strings cannot be null. Only the empty path is.
- The server's normalisation of keys, such as adding a leading `/`, is not modelled. A path is looked up as the snapshot's key verbatim.
- Guava's hash-based `ImmutableMap` lookup is modelled as a search through the insertion-ordered entries.
- Java `int` width is not modelled. Map sizes and the loop index stay far below 2^31.
- A store in which some child key is not longer than its parent's key is excluded by a precondition. On such a store the recursion need not end; a cycle of keys recurses until the stack overflows.
- Walker.ListNested: its own contract states that the keys are distinct and gives the errors it shares with `listKeys`. The lemmas in `WalkerProperties` state the rest of its result. Its keys are in `ListNestedHasChildKeys`, its values in `ListNestedEntry` and `ListNestedValues`. Its errors are in its own clause relating it to `listKeys` (empty path, leaf, missing path, stored failure) and in `ListNestedRejectsEmptyPath`, `PathFetchFailure`, `ListNestedFirstFailure`, `NestedFailureAborts` and `ListNestedValues`.
- The test harness prints results. `StuccoJetcdUtil.trimKeyPaths`, which it calls, is not part of this model.
