/**
  What `attribute_info_from` promises, proved about its specification
  (AttributeInformable.Writes and InfoFrom): every write comes from exactly
  one leaf and carries that leaf's chain of enclosing keys, every leaf is
  written, a caller's namespace prefixes every name and every `in`, and
  colliding names keep the last write.
 */
module AttributeInfoProperties {
  import opened Hashes
  import opened Payloads
  import opened AttributeInformable

  /** Joining two non-empty key lists is joining each and putting `_` between. */
  lemma {:induction false} JoinAppend(a: seq<string>, b: seq<string>)
    requires |a| > 0 && |b| > 0
    ensures Join(a + b) == Join(a) + Separator + Join(b)
    decreases |b|
  {
    var n := |b| - 1;
    assert (a + b)[..|a + b| - 1] == a + b[..n];
    if n > 0 {
      JoinAppend(a, b[..n]);
    }
  }

  /** Concatenation regroups. Stated once as a lemma: asserting the regrouped strings in
      place makes the proofs that use it much more expensive. */
  lemma Associative<T>(a: seq<T>, b: seq<T>, c: seq<T>)
    ensures a + b + c == a + (b + c)
  {
  }

  /** `s` ends with `t`. */
  predicate EndsWith(s: string, t: string)
  {
    |t| <= |s| && s[|s| - |t|..] == t
  }

  /** A join of keys starts with the first key and ends with the last. */
  lemma {:induction false} JoinEnds(keys: seq<string>)
    requires |keys| > 0
    ensures keys[0] <= Join(keys) && EndsWith(Join(keys), keys[|keys| - 1])
  {
    if |keys| > 1 {
      var init := keys[..|keys| - 1];
      JoinEnds(init);
      assert init[0] == keys[0];
      var r := Join(keys);
      assert r == Join(init) + (Separator + keys[|keys| - 1]);
    }
  }

  /** A qualified name ends with the leaf's key; under a non-empty namespace it starts with
      the outermost key and is longer than the leaf's key. Its record holds the key and the
      namespace as `{attribute_name:, in:}`. */
  lemma RecordFields(namespace: seq<string>, key: string)
    ensures EndsWith(Record(namespace, key).0, key)
    ensures |namespace| > 0 ==> namespace[0] <= Record(namespace, key).0 && |Record(namespace, key).0| > |key|
    ensures Record(namespace, key).1 == AttributeInfo(key, namespace)
  {
    if |namespace| > 0 {
      JoinEnds(namespace);
      var r := QualifiedName(namespace, key);
      assert r == Join(namespace) + (Separator + key);
    }
  }

  /** The qualified name of `key` under `namespace` is the whole chain joined with `_`. */
  lemma QualifiedNameIsJoin(namespace: seq<string>, key: string)
    ensures QualifiedName(namespace, key) == Join(namespace + [key])
  {
    assert (namespace + [key])[..|namespace|] == namespace;
  }

  /** A caller's non-empty namespace prefixes the qualified name: `ns_` followed by the
      name the leaf would have without it. */
  lemma QualifiedNamePrefix(namespace: seq<string>, chain: seq<string>, key: string)
    requires |namespace| > 0
    ensures QualifiedName(namespace + chain, key) == Join(namespace) + Separator + QualifiedName(chain, key)
  {
    if |chain| > 0 {
      var outer, inner := Join(namespace), Join(chain);
      JoinAppend(namespace, chain);
      assert QualifiedName(namespace + chain, key) == (outer + Separator + inner) + Separator + key;
      assert QualifiedName(chain, key) == inner + Separator + key;
      Associative(outer + Separator, inner, Separator);
      Associative(outer + Separator, inner + Separator, key);
    } else {
      assert namespace + chain == namespace;
    }
  }

  /** The writes of the entry at `i` are among the writes of any longer prefix. */
  lemma {:induction false} EntryWritesIncluded<V>(hash: seq<(string, Payload<V>)>, i: nat, n: nat, namespace: seq<string>,
                                                  w: (string, AttributeInfo))
    requires i < n <= |hash| && w in EntryWrites(hash[i].0, hash[i].1, namespace)
    ensures w in WritesUpTo(hash, n, namespace)
    decreases n
  {
    var m := n - 1;
    WritesStep(hash, m, namespace);
    assert m + 1 == n;
    var prefix := WritesUpTo(hash, m, namespace);
    var last := EntryWrites(hash[m].0, hash[m].1, namespace);
    if i < m {
      EntryWritesIncluded(hash, i, m, namespace, w);
    }
    assert w in prefix + last;
  }

  /** Only leaves are written, each under its qualified name with its exact chain of
      enclosing keys (the namespace followed by the keys of the Hashes around it) as `in`. */
  lemma {:induction false} WritesSound<V>(hash: seq<(string, Payload<V>)>, n: nat, namespace: seq<string>,
                                          w: (string, AttributeInfo))
    requires n <= |hash| && w in WritesUpTo(hash, n, namespace)
    ensures exists chain, key, leaf | LeafAt(hash, chain, key, leaf) :: w == Record(namespace + chain, key)
    decreases Node(hash), n
  {
    var i := n - 1;
    WritesStep(hash, i, namespace);
    var key := hash[i].0;
    assert hash[i] in hash;
    assert w in WritesUpTo(hash, i, namespace) || w in EntryWrites(key, hash[i].1, namespace);
    if w in WritesUpTo(hash, i, namespace) {
      WritesSound(hash, i, namespace, w);
    } else if !hash[i].1.Node? {
      assert LeafAt(hash, [], key, hash[i].1);
      assert namespace + [] == namespace;
    } else {
      var children := hash[i].1.entries;
      WritesSound(children, |children|, namespace + [key], w);
      var chain, key', leaf :| LeafAt(children, chain, key', leaf) && w == Record(namespace + [key] + chain, key');
      assert ([key] + chain)[1..] == chain;
      assert LeafAt(hash, [key] + chain, key', leaf);
      Associative(namespace, [key], chain);
    }
  }

  /** Every leaf is written, under its qualified name with its exact chain as `in`. */
  lemma {:induction false} WritesComplete<V>(hash: seq<(string, Payload<V>)>, namespace: seq<string>,
                                             chain: seq<string>, key: string, leaf: Payload<V>)
    requires LeafAt(hash, chain, key, leaf)
    ensures Record(namespace + chain, key) in Writes(hash, namespace)
    decreases |chain|
  {
    if |chain| == 0 {
      var i :| 0 <= i < |hash| && hash[i] == (key, leaf);
      assert namespace + chain == namespace;
      EntryWritesIncluded(hash, i, |hash|, namespace, Record(namespace, key));
    } else {
      var i :| 0 <= i < |hash| && hash[i].0 == chain[0] && hash[i].1.Node? && LeafAt(hash[i].1.entries, chain[1..], key, leaf);
      WritesComplete(hash[i].1.entries, namespace + [chain[0]], chain[1..], key, leaf);
      assert namespace + [chain[0]] + chain[1..] == namespace + chain;
      EntryWritesIncluded(hash, i, |hash|, namespace, Record(namespace + chain, key));
    }
  }

  /** A leaf at the top level, visited with a blank namespace, is written under its own key
      as `{attribute_name: key, in: []}`. */
  lemma TopLevelLeaf<V>(hash: seq<(string, Payload<V>)>, i: nat)
    requires i < |hash| && !hash[i].1.Node?
    ensures (hash[i].0, AttributeInfo(hash[i].0, [])) in Writes(hash, [])
  {
    assert LeafAt(hash, [], hash[i].0, hash[i].1);
    WritesComplete(hash, [], [], hash[i].0, hash[i].1);
  }

  /** A leaf under the keys `chain`, visited with a blank namespace, is written under
      `k1_..._kn_key` as `{attribute_name: key, in: chain}`. */
  lemma NestedLeaf<V>(hash: seq<(string, Payload<V>)>, chain: seq<string>, key: string, leaf: Payload<V>)
    requires |chain| > 0 && LeafAt(hash, chain, key, leaf)
    ensures (Join(chain) + Separator + key, AttributeInfo(key, chain)) in Writes(hash, [])
  {
    WritesComplete(hash, [], chain, key, leaf);
    assert [] + chain == chain;
  }

  /** The number of leaves of a payload Hash, Hashes nested in it included. */
  function LeafCountUpTo<V>(hash: seq<(string, Payload<V>)>, n: nat): nat
    requires n <= |hash|
    decreases Node(hash), n
  {
    if n == 0 then 0
    else
      assert hash[n - 1] in hash;
      LeafCountUpTo(hash, n - 1) +
        match hash[n - 1].1
        case Node(children) => LeafCountUpTo(children, |children|)
        case _ => 1
  }

  function LeafCount<V>(hash: seq<(string, Payload<V>)>): nat
  {
    LeafCountUpTo(hash, |hash|)
  }

  /** One write per leaf, whatever the namespace. */
  lemma {:induction false} WritesCount<V>(hash: seq<(string, Payload<V>)>, n: nat, namespace: seq<string>)
    requires n <= |hash|
    ensures |WritesUpTo(hash, n, namespace)| == LeafCountUpTo(hash, n)
    decreases Node(hash), n
  {
    if n > 0 {
      WritesCount(hash, n - 1, namespace);
      assert hash[n - 1] in hash;
      if hash[n - 1].1.Node? {
        var children := hash[n - 1].1.entries;
        WritesCount(children, |children|, namespace + [hash[n - 1].0]);
      }
    }
  }

  /** Starting from an empty accumulator there are at most as many entries as leaves. */
  lemma AtMostOneEntryPerLeaf<V>(hash: seq<(string, Payload<V>)>, namespace: seq<string>)
    ensures |InfoFrom(hash, namespace, [])| <= LeafCount(hash)
  {
    WritesCount(hash, |hash|, namespace);
  }

  /** Looking a name up in the result: the last leaf written under it wins; a name no leaf
      is written under keeps what the passed accumulator held. */
  lemma LastWriteWins<V>(hash: seq<(string, Payload<V>)>, namespace: seq<string>, info: seq<(string, AttributeInfo)>, name: string)
    ensures Lookup(InfoFrom(hash, namespace, info), name) ==
      if name in Keys(Writes(hash, namespace)) then LastWrite(Writes(hash, namespace), name) else Lookup(info, name)
  {
    LookupUpsertAll(info, Writes(hash, namespace), name);
  }

  /** Without colliding names, the result from an empty accumulator lists every leaf's
      entry in depth-first order. */
  lemma DepthFirstOrder<V>(hash: seq<(string, Payload<V>)>, namespace: seq<string>)
    requires DistinctKeys(Writes(hash, namespace))
    ensures InfoFrom(hash, namespace, []) == Writes(hash, namespace)
  {
    UpsertAllDistinct(Writes(hash, namespace));
  }

  /** Every entry of the result from an empty accumulator describes a leaf of `hash`: its
      name is the leaf's qualified name and its `in` the namespace followed by the leaf's
      chain. */
  lemma EntriesAreLeaves<V>(hash: seq<(string, Payload<V>)>, namespace: seq<string>, e: (string, AttributeInfo))
    requires e in InfoFrom(hash, namespace, [])
    ensures exists chain, key, leaf | LeafAt(hash, chain, key, leaf) :: e == Record(namespace + chain, key)
  {
    UpsertAllMember([], Writes(hash, namespace), e);
    WritesSound(hash, |hash|, namespace, e);
  }

  /** The example in the module's documentation: a top-level leaf and a leaf in `address`. */
  lemma DocumentedExample()
    ensures InfoFrom([("first_name", Leaf("first_name")), ("address", Node([("street", Leaf(""))]))], [], []) ==
      [("first_name", AttributeInfo("first_name", [])), ("address_street", AttributeInfo("street", ["address"]))]
  {
    var inner: seq<(string, Payload<string>)> := [("street", Leaf(""))];
    var hash := [("first_name", Leaf("first_name")), ("address", Node(inner))];
    var expected := [("first_name", AttributeInfo("first_name", [])), ("address_street", AttributeInfo("street", ["address"]))];
    assert Join(["address"]) == "address";
    assert QualifiedName(["address"], "street") == "address_street";
    assert Record(["address"], "street") == expected[1];
    WritesStep(inner, 0, ["address"]);
    assert Writes(inner, ["address"]) == [expected[1]];
    assert [] + ["address"] == ["address"];
    WritesStep(hash, 0, []);
    assert WritesUpTo(hash, 1, []) == [expected[0]];
    WritesStep(hash, 1, []);
    assert Writes(hash, []) == expected;
    DepthFirstOrder(hash, []);
  }

  /** A nested Hash between two leaves: the `in` of the leaf before it is not touched by
      the push and pop around it, and the leaf after it is back at the top level. */
  lemma SiblingsExample()
    ensures InfoFrom([("a", Leaf(1)), ("b", Node([("c", Leaf(2))])), ("d", Leaf(3))], [], []) ==
      [("a", AttributeInfo("a", [])), ("b_c", AttributeInfo("c", ["b"])), ("d", AttributeInfo("d", []))]
  {
    var inner := [("c", Leaf(2))];
    var hash := [("a", Leaf(1)), ("b", Node(inner)), ("d", Leaf(3))];
    var expected := [("a", AttributeInfo("a", [])), ("b_c", AttributeInfo("c", ["b"])), ("d", AttributeInfo("d", []))];
    assert Join(["b"]) == "b";
    assert QualifiedName(["b"], "c") == "b_c";
    assert Record(["b"], "c") == expected[1];
    WritesStep(inner, 0, ["b"]);
    assert Writes(inner, ["b"]) == [expected[1]];
    assert [] + ["b"] == ["b"];
    WritesStep(hash, 0, []);
    assert WritesUpTo(hash, 1, []) == [expected[0]];
    WritesStep(hash, 1, []);
    assert WritesUpTo(hash, 2, []) == expected[..2];
    WritesStep(hash, 2, []);
    assert Writes(hash, []) == expected;
    DepthFirstOrder(hash, []);
  }

  /** The same payload run through the method itself: the first leaf's `in` is the array that
      the push and pop around `b` work on, and after the pop it reads `[]` again. */
  method SiblingsThroughTheHeap() returns (r: AttributeNameInfo)
    ensures r.Valid()
    ensures r.Contents() == [("a", AttributeInfo("a", [])), ("b_c", AttributeInfo("c", ["b"])), ("d", AttributeInfo("d", []))]
  {
    r := AttributeInfoFromPayload([("a", Leaf(1)), ("b", Node([("c", Leaf(2))])), ("d", Leaf(3))]);
    SiblingsExample();
  }

  /** A top-level key spelled like a qualified name collides with the nested leaf: one
      entry for two leaves, holding the later one, in the earlier one's place. */
  lemma CollisionExample()
    ensures InfoFrom([("a_b", Leaf(1)), ("a", Node([("b", Leaf(2))]))], [], []) == [("a_b", AttributeInfo("b", ["a"]))]
  {
    var inner := [("b", Leaf(2))];
    var hash := [("a_b", Leaf(1)), ("a", Node(inner))];
    assert Join(["a"]) == "a";
    var writes := [("a_b", AttributeInfo("a_b", [])), ("a_b", AttributeInfo("b", ["a"]))];
    assert QualifiedName(["a"], "b") == "a_b";
    assert Record(["a"], "b") == writes[1];
    WritesStep(inner, 0, ["a"]);
    assert Writes(inner, ["a"]) == [writes[1]];
    assert [] + ["a"] == ["a"];
    WritesStep(hash, 0, []);
    assert WritesUpTo(hash, 1, []) == [writes[0]];
    WritesStep(hash, 1, []);
    assert Writes(hash, []) == writes;
    assert writes[..1][..0] == [];
    assert UpsertAll([], writes[..1]) == [writes[0]];
  }

  /** An empty nested Hash anywhere among the entries of a Hash contributes no write, so
      the result is the same whatever the accumulator. */
  lemma EmptyNestedHash<V>(a: seq<(string, Payload<V>)>, key: string, b: seq<(string, Payload<V>)>,
                           namespace: seq<string>, info: seq<(string, AttributeInfo)>)
    ensures Writes(a + [(key, Node([]))] + b, namespace) == Writes(a + b, namespace)
    ensures InfoFrom(a + [(key, Node([]))] + b, namespace, info) == InfoFrom(a + b, namespace, info)
  {
    var e: seq<(string, Payload<V>)> := [(key, Node([]))];
    var empty: seq<(string, Payload<V>)> := [];
    WritesUpToAppend(a, e, 1, namespace);
    WritesStep(e, 0, namespace);
    assert EntryWrites(key, Node(empty), namespace) == WritesUpTo(empty, 0, namespace + [key]) == [];
    assert Writes(a + e, namespace) == Writes(a, namespace);
    WritesUpToAppend(a + e, b, |b|, namespace);
    WritesUpToAppend(a, b, |b|, namespace);
  }

  /** Visiting `a + b` is visiting `a` and then the first `n` entries of `b`. */
  lemma {:induction false} WritesUpToAppend<V>(a: seq<(string, Payload<V>)>, b: seq<(string, Payload<V>)>, n: nat, namespace: seq<string>)
    requires n <= |b|
    ensures WritesUpTo(a + b, |a| + n, namespace) == Writes(a, namespace) + WritesUpTo(b, n, namespace)
    decreases n
  {
    if n == 0 {
      assert (a + b)[..|a|] == a[..|a|];
      WritesPrefix(a, a + b, |a|, namespace);
    } else {
      var m := |a| + n - 1;
      var before := Writes(a, namespace);
      var upTo := WritesUpTo(b, n - 1, namespace);
      var last := EntryWrites(b[n - 1].0, b[n - 1].1, namespace);
      WritesUpToAppend(a, b, n - 1, namespace);
      assert (a + b)[m] == b[n - 1];
      WritesStep(a + b, m, namespace);
      assert WritesUpTo(a + b, m + 1, namespace) == before + upTo + last;
      WritesStep(b, n - 1, namespace);
      Associative(before, upTo, last);
    }
  }

  /** The writes of a prefix depend only on the prefix. */
  lemma {:induction false} WritesPrefix<V>(hash: seq<(string, Payload<V>)>, longer: seq<(string, Payload<V>)>, n: nat, namespace: seq<string>)
    requires n <= |hash| <= |longer| && hash[..n] == longer[..n]
    ensures WritesUpTo(hash, n, namespace) == WritesUpTo(longer, n, namespace)
    decreases n
  {
    if n > 0 {
      assert hash[n - 1] == hash[..n][n - 1] == longer[..n][n - 1] == longer[n - 1];
      assert hash[..n - 1] == hash[..n][..n - 1];
      assert longer[..n - 1] == longer[..n][..n - 1];
      WritesPrefix(hash, longer, n - 1, namespace);
    }
  }
}
