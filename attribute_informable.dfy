/**
  Deco::AttributeInformable#attribute_info_from: flattens a nested payload
  Hash into qualified attribute names, each with the unqualified name it
  came from and the chain of Hash keys that encloses it.

  The specification (Writes, InfoFrom) is a pure description of the
  result. The method AttributeInfoFrom follows the Ruby code step by step:
  one mutable namespace array that is pushed and popped around nested
  Hashes and rebound to a copy before each leaf, and one accumulator Hash
  that stores a reference to that copy as the leaf's `in`.
 */
module AttributeInformable {
  import opened Hashes
  import opened Payloads

  /** The separator of qualified names. */
  const Separator: string := "_"

  /** `keys.join('_')`. */
  function Join(keys: seq<string>): string
  {
    if |keys| == 0 then ""
    else if |keys| == 1 then keys[0]
    else Join(keys[..|keys| - 1]) + Separator + keys[|keys| - 1]
  }

  /** The qualified name of a leaf `key` under `namespace`: the key itself
      when the namespace is blank, else the joined namespace, `_`, and the key. */
  function QualifiedName(namespace: seq<string>, key: string): string
  {
    if |namespace| == 0 then key else Join(namespace) + Separator + key
  }

  /** `{attribute_name: key, in: namespace}`. */
  datatype AttributeInfo = AttributeInfo(attributeName: string, within: seq<string>)

  /** The write `attribute_name_info[qualified name] = {attribute_name: key, in: namespace}`
      for a leaf `key` met under `namespace`. */
  function Record(namespace: seq<string>, key: string): (string, AttributeInfo)
  {
    (QualifiedName(namespace, key), AttributeInfo(key, namespace))
  }

  /** The writes made while visiting the first `n` entries of `hash` under `namespace`:
      one per leaf, depth first, in the Hash's iteration order. */
  function WritesUpTo<V>(hash: seq<(string, Payload<V>)>, n: nat, namespace: seq<string>): seq<(string, AttributeInfo)>
    requires n <= |hash|
    decreases Node(hash), n
  {
    if n == 0 then []
    else
      assert hash[n - 1] in hash;
      WritesUpTo(hash, n - 1, namespace) + EntryWrites(hash[n - 1].0, hash[n - 1].1, namespace)
  }

  /** The writes made while visiting all of `hash` under `namespace`. */
  function Writes<V>(hash: seq<(string, Payload<V>)>, namespace: seq<string>): seq<(string, AttributeInfo)>
  {
    WritesUpTo(hash, |hash|, namespace)
  }

  /** The writes made while visiting one entry `key => value` under `namespace`. */
  function EntryWrites<V>(key: string, value: Payload<V>, namespace: seq<string>): seq<(string, AttributeInfo)>
    decreases value, if value.Node? then |value.entries| + 1 else 0
  {
    match value
    case Node(children) => WritesUpTo(children, |children|, namespace + [key])
    case _ => [Record(namespace, key)]
  }

  lemma WritesStep<V>(hash: seq<(string, Payload<V>)>, n: nat, namespace: seq<string>)
    requires n < |hash|
    ensures WritesUpTo(hash, n + 1, namespace) == WritesUpTo(hash, n, namespace) + EntryWrites(hash[n].0, hash[n].1, namespace)
  {
  }

  /** The accumulator after `attribute_info_from(hash:, namespace:, attribute_name_info: info)`. */
  function InfoFrom<V>(hash: seq<(string, Payload<V>)>, namespace: seq<string>, info: seq<(string, AttributeInfo)>): seq<(string, AttributeInfo)>
  {
    UpsertAll(info, Writes(hash, namespace))
  }

  /** The accumulator after a nested call and the pop that follows it: what the nested
      call wrote, over what the accumulator read before the push. */
  lemma RestoredAfterNested(before: seq<(string, AttributeInfo)>, pushed: seq<(string, AttributeInfo)>,
                            inner: seq<(string, AttributeInfo)>, afterCall: seq<(string, AttributeInfo)>,
                            afterPop: seq<(string, AttributeInfo)>)
    requires DistinctKeys(before) && Keys(before) == Keys(pushed)
    requires afterCall == UpsertAll(pushed, inner)
    requires Keys(afterPop) == Keys(afterCall)
    requires forall j | 0 <= j < |afterPop| ::
      if j < |before| && afterPop[j].0 !in Keys(inner) then afterPop[j] == before[j] else afterPop[j] == afterCall[j]
    ensures afterPop == UpsertAll(before, inner)
  {
    UpsertAllCongruent(before, pushed, inner);
    var r := UpsertAll(before, inner);
    assert |afterPop| == |Keys(afterPop)| == |Keys(afterCall)| == |afterCall|;
    forall j | 0 <= j < |afterPop| ensures afterPop[j] == r[j] {
      if j < |before| {
        assert afterPop[j].0 == Keys(afterPop)[j] == Keys(afterCall)[j] == Keys(pushed)[j] == Keys(before)[j] == before[j].0;
      }
    }
  }

  /** A visit that kept what an earlier one left, after that earlier one kept what it found,
      kept what the earlier one found. */
  lemma KeptAppend(entries: seq<(string, InfoRef)>, middle: seq<(string, InfoRef)>, found: seq<(string, InfoRef)>,
                   written: seq<(string, AttributeInfo)>, more: seq<(string, AttributeInfo)>, enclosing: set<Namespace>)
    requires Kept(middle, found, written, enclosing) && Kept(entries, middle, more, enclosing)
    ensures Kept(entries, found, written + more, enclosing)
  {
    assert Keys(written + more) == Keys(written) + Keys(more);
    forall j | 0 <= j < |entries| && j < |found| && entries[j].0 !in Keys(written + more)
      ensures entries[j] == found[j]
    {
      assert entries[j] == middle[j];
    }
  }

  /** A Ruby Array of keys, shared by reference and changed in place. */
  class Namespace {
    var keys: seq<string>

    constructor (keys: seq<string>)
      ensures this.keys == keys
    {
      this.keys := keys;
    }

    /** `namespace << key`. */
    method Push(key: string)
      modifies this
      ensures keys == old(keys) + [key]
    {
      keys := keys + [key];
    }

    /** `namespace.pop`: drops the last key; an empty array stays empty. */
    method Pop()
      modifies this
      ensures keys == if |old(keys)| == 0 then old(keys) else old(keys)[..|old(keys)| - 1]
    {
      if |keys| > 0 {
        keys := keys[..|keys| - 1];
      }
    }

    /** `namespace.dup`: a new array with the same keys. */
    method Dup() returns (copy: Namespace)
      ensures fresh(copy) && copy.keys == keys
    {
      copy := new Namespace(keys);
    }

    /** `namespace.blank?`. */
    predicate Blank()
      reads this
    {
      |keys| == 0
    }
  }

  /** A stored `{attribute_name:, in:}` whose `in` is the namespace array itself, not a copy of its keys. */
  datatype InfoRef = InfoRef(attributeName: string, within: Namespace)

  /** What a stored entry reads as, given the current keys of its namespace array. */
  ghost function Resolve(info: InfoRef): AttributeInfo
    reads info.within
  {
    AttributeInfo(info.attributeName, info.within.keys)
  }

  /** The entries as they read now. */
  ghost function Snapshot(entries: seq<(string, InfoRef)>): (r: seq<(string, AttributeInfo)>)
    reads set j | 0 <= j < |entries| :: entries[j].1.within
    ensures Keys(r) == Keys(entries)
    ensures |r| == |entries| && forall j | 0 <= j < |entries| :: r[j] == (entries[j].0, Resolve(entries[j].1))
  {
    if |entries| == 0 then []
    else
      var r := [(entries[0].0, Resolve(entries[0].1))] + Snapshot(entries[1..]);
      assert Keys(r) == [entries[0].0] + Keys(entries[1..]);
      r
  }

  /** Storing an entry and then reading the entries is reading them and then storing what the entry reads as. */
  lemma {:induction false} SnapshotUpsert(entries: seq<(string, InfoRef)>, key: string, info: InfoRef)
    ensures Snapshot(Upsert(entries, key, info)) == Upsert(Snapshot(entries), key, Resolve(info))
  {
    if |entries| > 0 && entries[0].0 != key {
      SnapshotUpsert(entries[1..], key, info);
    }
  }

  /** The accumulator Hash `attribute_name_info`. */
  class AttributeNameInfo {
    var entries: seq<(string, InfoRef)>
    /** The namespace arrays the entries hold. */
    ghost var refs: set<Namespace>

    constructor ()
      ensures entries == [] && Valid()
    {
      entries := [];
      refs := {};
    }

    ghost predicate Valid()
      reads this
    {
      DistinctKeys(entries) && forall j | 0 <= j < |entries| :: entries[j].1.within in refs
    }

    /** The entries with each `in` read as the current keys of its array. */
    ghost function Contents(): seq<(string, AttributeInfo)>
      requires Valid()
      reads this, refs
    {
      Snapshot(entries)
    }

    /** `attribute_name_info[key] = info`. */
    method Store(key: string, info: InfoRef)
      requires Valid()
      modifies this
      ensures Valid() && entries == Upsert(old(entries), key, info) && refs == old(refs) + {info.within}
    {
      UpsertInPlace(entries, key, info);
      entries := Upsert(entries, key, info);
      refs := refs + {info.within};
      forall j | 0 <= j < |entries| ensures entries[j].1.within in refs {
        if j < |old(entries)| {
          assert entries[j] == if old(entries)[j].0 == key then (key, info) else old(entries)[j];
        } else {
          assert |entries| == |Keys(entries)|;
        }
      }
    }
  }

  /** The entries a visit did not write are those it found, in place; each entry it wrote
      holds an array none of the enclosing visits works on. */
  ghost predicate Kept(entries: seq<(string, InfoRef)>, found: seq<(string, InfoRef)>,
                       written: seq<(string, AttributeInfo)>, enclosing: set<Namespace>)
  {
    |found| <= |entries| &&
    forall j | 0 <= j < |entries| ::
      if j < |found| && entries[j].0 !in Keys(written) then entries[j] == found[j]
      else entries[j].1.within !in enclosing
  }

  /** Before the first entry nothing has been written and everything is in place. */
  lemma VisitStart<V>(hash: seq<(string, Payload<V>)>, path: seq<string>, entries: seq<(string, InfoRef)>,
                      contents: seq<(string, AttributeInfo)>, enclosing: set<Namespace>)
    ensures UpsertAll(contents, WritesUpTo(hash, 0, path)) == contents
    ensures Kept(entries, entries, WritesUpTo(hash, 0, path), enclosing)
  {
    assert WritesUpTo(hash, 0, path) == [];
  }

  /** `attribute_info_from(hash:, namespace:, attribute_name_info:)` (lines 37-57): visits the
      entries in order, descending into nested Hashes and recording leaves. `enclosing` holds
      this visit's own namespace array and those of the visits it is nested in. */
  method AttributeInfoFrom<V>(hash: seq<(string, Payload<V>)>, namespace: Namespace, attributeNameInfo: AttributeNameInfo,
                              ghost enclosing: set<Namespace>)
    returns (result: AttributeNameInfo)
    requires attributeNameInfo.Valid()
    modifies namespace, attributeNameInfo
    decreases Node(hash), 2
    ensures result == attributeNameInfo && result.Valid()
    ensures namespace.keys == old(namespace.keys)
    ensures result.Contents() == InfoFrom(hash, old(namespace.keys), old(attributeNameInfo.Contents()))
    ensures Kept(result.entries, old(result.entries), Writes(hash, old(namespace.keys)), enclosing)
  {
    var acc := attributeNameInfo;
    var ns := namespace;
    ghost var path := namespace.keys;
    ghost var entries0 := acc.entries;
    ghost var contents0 := acc.Contents();
    var i := 0;
    VisitStart(hash, path, entries0, contents0, enclosing);
    while i < |hash|
      invariant 0 <= i <= |hash|
      invariant acc.Valid()
      invariant ns == namespace || fresh(ns)
      invariant ns.keys == path && namespace.keys == path
      invariant acc.Contents() == UpsertAll(contents0, WritesUpTo(hash, i, path))
      invariant Kept(acc.entries, entries0, WritesUpTo(hash, i, path), enclosing)
    {
      ns := VisitEntry(hash, i, ns, acc, enclosing, path, entries0, contents0);
      i := i + 1;
    }
    assert WritesUpTo(hash, i, path) == Writes(hash, path);
    result := acc;
  }

  /** `attribute_info_from(hash: hash)` with the default arguments: a new empty namespace
      array and a new empty accumulator, which is returned. */
  method AttributeInfoFromPayload<V>(hash: seq<(string, Payload<V>)>) returns (result: AttributeNameInfo)
    ensures fresh(result) && result.Valid()
    ensures result.Contents() == InfoFrom(hash, [], [])
  {
    var namespace := new Namespace([]);
    var attributeNameInfo := new AttributeNameInfo();
    assert attributeNameInfo.Contents() == [];
    result := AttributeInfoFrom(hash, namespace, attributeNameInfo, {namespace});
  }

  /** The body of the loop (lines 38-54) for the entry at `i`: a nested Hash is visited under
      `namespace + [key]`, a leaf is recorded. Returns the array the loop goes on with: the
      same one after a nested Hash, its copy after a leaf. */
  method VisitEntry<V>(hash: seq<(string, Payload<V>)>, i: nat, namespace: Namespace, acc: AttributeNameInfo,
                       ghost enclosing: set<Namespace>, ghost path: seq<string>, ghost entries0: seq<(string, InfoRef)>,
                       ghost contents0: seq<(string, AttributeInfo)>)
    returns (next: Namespace)
    requires i < |hash| && acc.Valid() && namespace.keys == path
    requires acc.Contents() == UpsertAll(contents0, WritesUpTo(hash, i, path))
    requires Kept(acc.entries, entries0, WritesUpTo(hash, i, path), enclosing)
    modifies namespace, acc
    decreases Node(hash), 1
    ensures acc.Valid()
    ensures namespace.keys == path
    ensures (next == namespace || fresh(next)) && next.keys == path
    ensures hash[i].1.Node? ==> next == namespace
    ensures !hash[i].1.Node? ==> fresh(next)
    ensures acc.Contents() == UpsertAll(contents0, WritesUpTo(hash, i + 1, path))
    ensures Kept(acc.entries, entries0, WritesUpTo(hash, i + 1, path), enclosing)
  {
    ghost var written := WritesUpTo(hash, i, path);
    ghost var before := acc.entries;
    ghost var contentsBefore := acc.Contents();
    var key := hash[i].0;
    var value := hash[i].1;
    ghost var inner := EntryWrites(key, value, path);
    assert hash[i] in hash;
    if value.Node? {
      VisitNested(key, value.entries, namespace, acc, enclosing);
      next := namespace;
    } else {
      next := RecordLeaf(key, namespace, acc, enclosing);
    }
    WritesStep(hash, i, path);
    UpsertAllAppend(contents0, written, inner);
    KeptAppend(acc.entries, before, entries0, written, inner, enclosing);
  }

  /** Lines 39-44: `namespace << key`, the nested call on the same namespace array
      and accumulator, then `namespace.pop`. */
  method VisitNested<V>(key: string, children: seq<(string, Payload<V>)>, namespace: Namespace, acc: AttributeNameInfo,
                        ghost enclosing: set<Namespace>)
    requires acc.Valid()
    modifies namespace, acc
    decreases Node(children), 3
    ensures acc.Valid()
    ensures namespace.keys == old(namespace.keys)
    ensures acc.Contents() == UpsertAll(old(acc.Contents()), Writes(children, old(namespace.keys) + [key]))
    ensures Kept(acc.entries, old(acc.entries), Writes(children, old(namespace.keys) + [key]), enclosing + {namespace})
  {
    ghost var path := namespace.keys;
    ghost var before := acc.entries;
    ghost var contentsBefore := acc.Contents();
    ghost var inner := Writes(children, path + [key]);
    namespace.Push(key);
    ghost var contentsPushed := acc.Contents();
    var _ := AttributeInfoFrom(children, namespace, acc, enclosing + {namespace});
    ghost var contentsAfterCall := acc.Contents();
    label AfterCall:
    namespace.Pop();
    assert namespace.keys == path;
    // Popping gives back to every entry still holding this array (an earlier sibling
    // leaf's copy, or the caller's array) the keys it had before the push; every other
    // entry reads as the nested call left it.
    ghost var now := Snapshot(acc.entries);
    assert now == acc.Contents();
    forall j | 0 <= j < |acc.entries|
      ensures if j < |before| && acc.entries[j].0 !in Keys(inner)
              then now[j] == contentsBefore[j]
              else now[j] == contentsAfterCall[j]
    {
      var o := acc.entries[j].1.within;
      if j < |before| && acc.entries[j].0 !in Keys(inner) {
        assert acc.entries[j] == before[j];
        assert o.keys == old(o.keys);
      } else {
        assert o != namespace;
        assert o.keys == old@AfterCall(o.keys);
      }
    }
    RestoredAfterNested(contentsBefore, contentsPushed, inner, contentsAfterCall, now);
  }

  /** Storing one entry whose array is new to the enclosing visits keeps every other entry in place. */
  lemma StoreKept(before: seq<(string, InfoRef)>, key: string, info: InfoRef,
                  written: seq<(string, AttributeInfo)>, enclosing: set<Namespace>)
    requires DistinctKeys(before) && Keys(written) == [key] && info.within !in enclosing
    ensures Kept(Upsert(before, key, info), before, written, enclosing)
  {
    var after := Upsert(before, key, info);
    UpsertInPlace(before, key, info);
    forall j | 0 <= j < |after|
      ensures if j < |before| && after[j].0 !in Keys(written) then after[j] == before[j]
              else after[j].1.within !in enclosing
    {
      if j < |before| {
        assert after[j] == if before[j].0 == key then (key, info) else before[j];
      } else {
        assert |after| == |Keys(after)|;
        assert j == |before|;
      }
    }
  }

  /** Lines 47-53: `namespace = namespace.dup`, then the leaf is stored under its qualified
      name with the copy itself as its `in`. Returns the copy, which the caller's loop
      goes on using as its namespace. */
  method RecordLeaf(key: string, namespace: Namespace, acc: AttributeNameInfo, ghost enclosing: set<Namespace>)
    returns (copy: Namespace)
    requires acc.Valid()
    modifies acc
    ensures fresh(copy) && copy.keys == namespace.keys
    ensures acc.Valid()
    ensures acc.Contents() == UpsertAll(old(acc.Contents()), [Record(namespace.keys, key)])
    ensures Kept(acc.entries, old(acc.entries), [Record(namespace.keys, key)], enclosing)
  {
    ghost var before := acc.entries;
    copy := namespace.Dup();
    var qualified := if copy.Blank() then key else Join(copy.keys) + Separator + key;
    var info := InfoRef(key, copy);
    acc.Store(qualified, info);
    assert qualified == QualifiedName(namespace.keys, key);
    ghost var written := [Record(namespace.keys, key)];
    assert written[..0] == [] && Keys(written) == [qualified];
    assert Snapshot(before) == old(acc.Contents());
    SnapshotUpsert(before, qualified, info);
    StoreKept(before, qualified, info, written, enclosing);
  }
}
