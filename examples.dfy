/** Worked cases of the walker over small concrete snapshots. */
module WalkerExamples {
  import opened Wrappers
  import opened Etcd
  import opened Nested
  import opened Walker
  import Decimal
  import WalkerProperties

  function Leaf(v: string): Result<Listing, StoreError> {
    Ok(Listing(Some(v), None))
  }

  function Directory(cs: seq<Proxy>): Result<Listing, StoreError> {
    Ok(Listing(None, Some(cs)))
  }

  /** `/a` holds the directory `/a/p`, whose children are `/a/p/0`,
      `/a/p/1` and `/a/p/2` with values "a", "b" and "c". */
  function Numbered(): Snapshot {
    map[
      "/a" := Directory([Proxy("/a/p", None)]),
      "/a/p" := Directory([Proxy("/a/p/0", Some("a")), Proxy("/a/p/1", Some("b")), Proxy("/a/p/2", Some("c"))]),
      "/a/p/0" := Leaf("a"),
      "/a/p/1" := Leaf("b"),
      "/a/p/2" := Leaf("c")
    ]
  }

  lemma DigitsOfSmallIndices()
    ensures Decimal.FromNat(0) == "0" && Decimal.FromNat(1) == "1" && Decimal.FromNat(2) == "2"
  {
  }

  lemma NumberedAcyclic()
    ensures Acyclic(Numbered())
  {
  }

  function NumberedEntries(): Entries {
    [("/a/p/0", Str("a")), ("/a/p/1", Str("b")), ("/a/p/2", Str("c"))]
  }

  lemma NumberedLevel()
    ensures Acyclic(Numbered())
    ensures ListNested(Numbered(), "/a/p") == Ok(NumberedEntries())
  {
    NumberedAcyclic();
    var snap := Numbered();
    var cs := snap["/a/p"].value.nodes.value;
    var vs := [Str("a"), Str("b"), Str("c")];
    assert ChildValue(snap, "/a/p", cs[0]) == Ok(vs[0]);
    assert ChildValue(snap, "/a/p", cs[1]) == Ok(vs[1]);
    assert ChildValue(snap, "/a/p", cs[2]) == Ok(vs[2]);
    WalkerProperties.NestedChildrenValues(snap, "/a/p", cs, vs);
    assert WalkerProperties.Zip(cs, vs) == NumberedEntries();
  }

  lemma NumberedConverts()
    ensures ConvertIfReallyList("/a/p", NumberedEntries()) == Lst([Str("a"), Str("b"), Str("c")])
  {
    DigitsOfSmallIndices();
    var m := NumberedEntries();
    assert IndexKey("/a/p", 0) == "/a/p/0" && IndexKey("/a/p", 1) == "/a/p/1" && IndexKey("/a/p", 2) == "/a/p/2";
    assert Keys(m) == ["/a/p/0", "/a/p/1", "/a/p/2"];
    assert Get(m, "/a/p/1") == Str("b");
    assert Get(m, "/a/p/2") == Str("c");
  }

  /** Children `p/0`, `p/1`, `p/2` with values "a", "b", "c" are presented
      to the parent as the list ["a", "b", "c"]. */
  lemma NumberedChildrenBecomeList()
    ensures Acyclic(Numbered())
    ensures ListNested(Numbered(), "/a") == Ok([("/a/p", Lst([Str("a"), Str("b"), Str("c")]))])
  {
    NumberedLevel();
    NumberedConverts();
    var snap := Numbered();
    var cs := snap["/a"].value.nodes.value;
    var vs := [Lst([Str("a"), Str("b"), Str("c")])];
    assert ChildValue(snap, "/a", cs[0]) == Ok(vs[0]);
    WalkerProperties.NestedChildrenValues(snap, "/a", cs, vs);
    assert WalkerProperties.Zip(cs, vs) == [("/a/p", vs[0])];
  }

  /** `/a` holds the directory `/a/p` with the given reply. */
  function Nest(sub: Result<Listing, StoreError>, leaves: map<string, Result<Listing, StoreError>>): Snapshot {
    leaves["/a" := Directory([Proxy("/a/p", None)])]["/a/p" := sub]
  }

  function Gapped(): Snapshot {
    Nest(Directory([Proxy("/a/p/0", Some("a")), Proxy("/a/p/2", Some("c"))]),
         map["/a/p/0" := Leaf("a"), "/a/p/2" := Leaf("c")])
  }

  lemma GappedAcyclic()
    ensures Acyclic(Gapped())
  {
  }

  /** Children `p/0` and `p/2` (no `p/1`) stay a map with both keys. */
  lemma GapKeepsMap()
    ensures Acyclic(Gapped())
    ensures ListNested(Gapped(), "/a") == Ok([("/a/p", Dir([("/a/p/0", Str("a")), ("/a/p/2", Str("c"))]))])
  {
    GappedAcyclic();
    var snap := Gapped();
    var cs := snap["/a/p"].value.nodes.value;
    var vs := [Str("a"), Str("c")];
    assert ChildValue(snap, "/a/p", cs[0]) == Ok(vs[0]);
    assert ChildValue(snap, "/a/p", cs[1]) == Ok(vs[1]);
    WalkerProperties.NestedChildrenValues(snap, "/a/p", cs, vs);
    var m := WalkerProperties.Zip(cs, vs);
    assert m == [("/a/p/0", Str("a")), ("/a/p/2", Str("c"))];
    assert ListNested(snap, "/a/p") == Ok(m);
    assert ConvertIfReallyList("/a/p", m) == Dir(m) by {
      assert Decimal.FromNat(1) == "1";
      assert IndexKey("/a/p", 1) == "/a/p/1";
      assert Keys(m) == ["/a/p/0", "/a/p/2"];
    }
    var top := snap["/a"].value.nodes.value;
    assert ChildValue(snap, "/a", top[0]) == Ok(Dir(m));
    WalkerProperties.NestedChildrenValues(snap, "/a", top, [Dir(m)]);
    assert WalkerProperties.Zip(top, [Dir(m)]) == [("/a/p", Dir(m))];
  }

  /** A zero-padded child such as `p/00` is not taken for index 0. */
  lemma PaddedKeyKeepsMap(v: Value)
    ensures ConvertIfReallyList("p", [("p/00", v)]) == Dir([("p/00", v)])
  {
    WalkerProperties.PaddedIndexNeverMatches("p", 0, "00");
    assert Keys([("p/00", v)]) == ["p/00"];
  }

  /** A store failure while classifying `/a/p` aborts the whole walk of `/a`
      with that failure. */
  lemma UnavailableChildAborts()
    ensures Acyclic(Nest(Err(Unavailable), map[]))
    ensures ListNested(Nest(Err(Unavailable), map[]), "/a") == Err(Store(Unavailable))
  {
    var snap := Nest(Err(Unavailable), map[]);
    WalkerProperties.StoreFailureAborts(snap, "/a", 0, Unavailable);
  }

  /** An empty directory below the walked path is not a directory by the
      child-count test and carries no value, so putting its null value
      into the map fails. */
  lemma EmptySubdirectoryFails()
    ensures Acyclic(Nest(Directory([]), map[]))
    ensures ListNested(Nest(Directory([]), map[]), "/a") == Err(NullValue("/a/p"))
  {
    var snap := Nest(Directory([]), map[]);
    var cs := snap["/a"].value.nodes.value;
    assert ChildValue(snap, "/a", cs[0]) == Err(NullValue("/a/p"));
    WalkerProperties.ListNestedFirstFailure(snap, "/a", 0, NullValue("/a/p"));
  }

  /** The walked directory itself, when empty, is the empty map. */
  lemma EmptyDirectoryIsEmptyMap()
    ensures Acyclic(Nest(Directory([]), map[]))
    ensures ListNested(Nest(Directory([]), map[]), "/a/p") == Ok([])
  {
  }
}
