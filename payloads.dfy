/**
  The nested payload the core reads: a Hash whose values are scalars or
  further Hashes, and Ruby's `Hash#dig` over it.
 */
module Payloads {
  import opened Wrappers
  import opened Hashes

  /** A payload value: nil, a scalar leaf or a nested Hash. Nil is Ruby's one nil value:
      a missing key digs to it and an unassigned attribute holds it. */
  datatype Payload<V> = Nil | Leaf(value: V) | Node(entries: seq<(string, Payload<V>)>)

  /** Every Hash in the payload, the top one included, has distinct keys (as Ruby Hashes do). */
  ghost predicate WellFormed<V>(hash: seq<(string, Payload<V>)>)
    decreases Node(hash)
  {
    && DistinctKeys(hash)
    && forall i | 0 <= i < |hash| :: hash[i].1.Node? ==> (assert hash[i] in hash; WellFormed(hash[i].1.entries))
  }

  /** `hash` holds the value `leaf`, which is not a Hash (so nil or a scalar), under `key`
      inside the Hashes named by `chain`, in turn. */
  ghost predicate LeafAt<V>(hash: seq<(string, Payload<V>)>, chain: seq<string>, key: string, leaf: Payload<V>)
    decreases |chain|
  {
    if |chain| == 0 then !leaf.Node? && exists i | 0 <= i < |hash| :: hash[i] == (key, leaf)
    else exists i | 0 <= i < |hash| :: hash[i].0 == chain[0] && hash[i].1.Node? && LeafAt(hash[i].1.entries, chain[1..], key, leaf)
  }

  /** `hash` holds the Hash `child` inside the Hashes named by `chain`, in turn. */
  ghost predicate NodeAt<V>(hash: seq<(string, Payload<V>)>, chain: seq<string>, child: seq<(string, Payload<V>)>)
    decreases |chain|
  {
    if |chain| == 0 then child == hash
    else exists i | 0 <= i < |hash| :: hash[i].0 == chain[0] && hash[i].1.Node? && NodeAt(hash[i].1.entries, chain[1..], child)
  }

  /** What `Hash#dig` gives: a value (nil when a key is missing), or a TypeError when it must dig into a scalar. */
  datatype DigResult<V> = Dug(value: Payload<V>) | TypeError

  /** `hash.dig(*keys)`: a missing key, or nil met with keys left, ends the dig with nil; a
      scalar met with keys left raises TypeError. */
  function Dig<V>(hash: seq<(string, Payload<V>)>, keys: seq<string>): (r: DigResult<V>)
    requires |keys| > 0
    ensures |keys| == 1 ==> r.Dug?
    ensures keys[0] !in Keys(hash) ==> r == Dug(Nil)
    ensures r.Dug? && r.value != Nil ==> keys[0] in Keys(hash)
    decreases |keys|
  {
    match Lookup(hash, keys[0])
    case None => Dug(Nil)
    case Some(v) =>
      if |keys| == 1 then Dug(v)
      else match v
        case Nil => Dug(Nil)
        case Leaf(_) => TypeError
        case Node(child) => Dig(child, keys[1..])
  }

  /** Digging along the chain of a leaf, then its key, finds that leaf. */
  lemma {:induction false} DigFindsLeaf<V>(hash: seq<(string, Payload<V>)>, chain: seq<string>, key: string, leaf: Payload<V>)
    requires WellFormed(hash) && LeafAt(hash, chain, key, leaf)
    ensures Dig(hash, chain + [key]) == Dug(leaf)
    decreases |chain|
  {
    var keys := chain + [key];
    if |chain| == 0 {
      var i :| 0 <= i < |hash| && hash[i] == (key, leaf);
      LookupAt(hash, i);
    } else {
      var i :| 0 <= i < |hash| && hash[i].0 == chain[0] && hash[i].1.Node? && LeafAt(hash[i].1.entries, chain[1..], key, leaf);
      LookupAt(hash, i);
      DigFindsLeaf(hash[i].1.entries, chain[1..], key, leaf);
      assert keys[1..] == chain[1..] + [key];
    }
  }

  /** A key missing below the Hash that `chain` names makes the whole dig nil, not an error. */
  lemma {:induction false} DigMissingKey<V>(hash: seq<(string, Payload<V>)>, chain: seq<string>, child: seq<(string, Payload<V>)>, key: string, rest: seq<string>)
    requires WellFormed(hash) && NodeAt(hash, chain, child) && key !in Keys(child)
    ensures Dig(hash, chain + [key] + rest) == Dug(Nil)
    decreases |chain|
  {
    if |chain| > 0 {
      var i :| 0 <= i < |hash| && hash[i].0 == chain[0] && hash[i].1.Node? && NodeAt(hash[i].1.entries, chain[1..], child);
      LookupAt(hash, i);
      DigMissingKey(hash[i].1.entries, chain[1..], child, key, rest);
      assert (chain + [key] + rest)[1..] == chain[1..] + [key] + rest;
    }
  }

  /** Digging past a scalar (not nil) below the Hash that `chain` names raises TypeError. */
  lemma {:induction false} DigThroughScalar<V>(hash: seq<(string, Payload<V>)>, chain: seq<string>, child: seq<(string, Payload<V>)>, key: string, rest: seq<string>)
    requires WellFormed(hash) && NodeAt(hash, chain, child) && |rest| > 0
    requires Lookup(child, key).Some? && Lookup(child, key).value.Leaf?
    ensures Dig(hash, chain + [key] + rest) == TypeError
    decreases |chain|
  {
    var keys := chain + [key] + rest;
    if |chain| > 0 {
      var i :| 0 <= i < |hash| && hash[i].0 == chain[0] && hash[i].1.Node? && NodeAt(hash[i].1.entries, chain[1..], child);
      LookupAt(hash, i);
      DigThroughScalar(hash[i].1.entries, chain[1..], child, key, rest);
      assert keys[0] == chain[0] && keys[1..] == chain[1..] + [key] + rest;
    } else {
      assert keys[0] == key && |keys| > 1;
    }
  }

  /** Digging past nil below the Hash that `chain` names stops there with nil, whatever keys follow. */
  lemma {:induction false} DigThroughNil<V>(hash: seq<(string, Payload<V>)>, chain: seq<string>, child: seq<(string, Payload<V>)>, key: string, rest: seq<string>)
    requires WellFormed(hash) && NodeAt(hash, chain, child) && |rest| > 0
    requires Lookup(child, key) == Some(Nil)
    ensures Dig(hash, chain + [key] + rest) == Dug(Nil)
    decreases |chain|
  {
    var keys := chain + [key] + rest;
    if |chain| > 0 {
      var i :| 0 <= i < |hash| && hash[i].0 == chain[0] && hash[i].1.Node? && NodeAt(hash[i].1.entries, chain[1..], child);
      LookupAt(hash, i);
      DigThroughNil(hash[i].1.entries, chain[1..], child, key, rest);
      assert keys[0] == chain[0] && keys[1..] == chain[1..] + [key] + rest;
    } else {
      assert keys[0] == key && |keys| > 1;
    }
  }
}
