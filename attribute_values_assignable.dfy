/**
  Deco::AttributeValuesAssignable: assigns the values of a payload Hash to a
  model's attributes, entry by entry, following attribute information such as
  `attribute_info_from` derives.

  The model is a class with a fixed set of attributes (what `respond_to?`
  answers for) and a map from each attribute to its current value (what the
  setter writes). A raise is an error outcome that ends the assignment.
 */
module AttributeValuesAssignable {
  import opened Wrappers
  import opened Hashes
  import opened Payloads
  import opened AttributeInformable
  import opened AttributeInfoProperties

  /** Why an assignment stops. */
  datatype Error =
    | NotDefined(attributeName: string)  // the model has no such attribute
    | DigTypeError                       // `Hash#dig` met a scalar with keys left to dig

  /** `[info[:in], info[:attribute_name]].flatten.compact`: the enclosing keys, then the
      name. The keys are strings, so neither flattening nor dropping nils changes them. */
  function DigPath(info: AttributeInfo): (path: seq<string>)
    ensures |path| > 0 && path[|path| - 1] == info.attributeName
  {
    info.within + [info.attributeName]
  }

  /** The entry can be assigned: digging for it raises nothing and the model has the attribute. */
  predicate Assignable<V>(attributes: set<string>, hash: seq<(string, Payload<V>)>, entry: (string, AttributeInfo))
  {
    Dig(hash, DigPath(entry.1)).Dug? && entry.0 in attributes
  }

  /** The error the entry raises when it cannot be assigned: the dig is attempted first. */
  function ErrorOf<V>(hash: seq<(string, Payload<V>)>, entry: (string, AttributeInfo)): Error
  {
    if Dig(hash, DigPath(entry.1)).TypeError? then DigTypeError else NotDefined(entry.0)
  }

  /** The values and the outcome after assigning `info` in order, starting from `values`. */
  function Assigned<V>(attributes: set<string>, values: map<string, Payload<V>>,
                       hash: seq<(string, Payload<V>)>, info: seq<(string, AttributeInfo)>)
    : (r: (map<string, Payload<V>>, Outcome<Error>))
    ensures values.Keys == attributes ==> r.0.Keys == attributes
    ensures forall a | a in values && a !in Keys(info) :: a in r.0 && r.0[a] == values[a]
    decreases |info|
  {
    if |info| == 0 then (values, Pass)
    else
      var name := info[0].0;
      assert Keys(info) == [name] + Keys(info[1..]);
      match Dig(hash, DigPath(info[0].1))
      case TypeError => (values, Fail(DigTypeError))
      case Dug(value) =>
        if name !in attributes then (values, Fail(NotDefined(name)))
        else Assigned(attributes, values[name := value], hash, info[1..])
  }

  /** The index of the first entry that cannot be assigned, or `|info|` when there is none. */
  function FirstFailure<V>(attributes: set<string>, hash: seq<(string, Payload<V>)>, info: seq<(string, AttributeInfo)>): (f: nat)
    ensures f <= |info|
    ensures forall j | 0 <= j < f :: Assignable(attributes, hash, info[j])
    ensures f < |info| ==> !Assignable(attributes, hash, info[f])
    decreases |info|
  {
    if |info| == 0 || !Assignable(attributes, hash, info[0]) then 0
    else
      var f := 1 + FirstFailure(attributes, hash, info[1..]);
      assert forall j | 1 <= j < f :: info[j] == info[1..][j - 1];
      f
  }

  /** The dig comes before `respond_to?`: an entry whose dig raises ends the batch with
      `DigTypeError` and no change, whether or not the model has the attribute. */
  lemma DigBeforeRespondTo<V>(attributes: set<string>, values: map<string, Payload<V>>,
                              hash: seq<(string, Payload<V>)>, entry: (string, AttributeInfo),
                              rest: seq<(string, AttributeInfo)>)
    requires Dig(hash, DigPath(entry.1)).TypeError?
    ensures Assigned(attributes, values, hash, [entry] + rest) == (values, Fail(DigTypeError))
  {
    assert ([entry] + rest)[0] == entry;
  }

  /** An entry that digs without raising but names no attribute of the model ends the
      batch with `NotDefined` of that name and no change. */
  lemma UndefinedAfterDig<V>(attributes: set<string>, values: map<string, Payload<V>>,
                             hash: seq<(string, Payload<V>)>, entry: (string, AttributeInfo),
                             rest: seq<(string, AttributeInfo)>)
    requires Dig(hash, DigPath(entry.1)).Dug? && entry.0 !in attributes
    ensures Assigned(attributes, values, hash, [entry] + rest) == (values, Fail(NotDefined(entry.0)))
  {
    assert ([entry] + rest)[0] == entry;
  }

  /** The first entry that cannot be assigned ends the batch with its error: every entry
      before it has been assigned as if the batch ended there, and no attribute outside
      those entries has changed. With no such entry the batch passes. */
  lemma {:induction false} StopsAtFirstFailure<V>(attributes: set<string>, values: map<string, Payload<V>>,
                                                 hash: seq<(string, Payload<V>)>, info: seq<(string, AttributeInfo)>)
    ensures var f := FirstFailure(attributes, hash, info);
      var r := Assigned(attributes, values, hash, info);
      && r.1 == (if f == |info| then Pass else Fail(ErrorOf(hash, info[f])))
      && r.0 == Assigned(attributes, values, hash, info[..f]).0
      && Assigned(attributes, values, hash, info[..f]).1 == Pass
      && forall a | a in values && a !in Keys(info[..f]) :: a in r.0 && r.0[a] == values[a]
    decreases |info|
  {
    var f := FirstFailure(attributes, hash, info);
    if |info| > 0 {
      if f == 0 {
        assert info[..0] == [];
      } else {
        var name := info[0].0;
        var value := Dig(hash, DigPath(info[0].1)).value;
        StopsAtFirstFailure(attributes, values[name := value], hash, info[1..]);
        assert info[..f][1..] == info[1..][..f - 1];
        assert info[..f][0] == info[0];
      }
    }
  }

  /** The batch passes exactly when every entry can be assigned. */
  lemma PassesIffAllAssignable<V>(attributes: set<string>, values: map<string, Payload<V>>,
                                  hash: seq<(string, Payload<V>)>, info: seq<(string, AttributeInfo)>)
    ensures Assigned(attributes, values, hash, info).1.Pass? <==> forall j | 0 <= j < |info| :: Assignable(attributes, hash, info[j])
  {
    StopsAtFirstFailure(attributes, values, hash, info);
  }

  /** With distinct names (as the keys of a Hash are), each assigned attribute ends up with
      the value dug for its own entry: no entry is written twice. */
  lemma {:induction false} EachAssignedOnce<V>(attributes: set<string>, values: map<string, Payload<V>>,
                                              hash: seq<(string, Payload<V>)>, info: seq<(string, AttributeInfo)>, j: nat)
    requires DistinctKeys(info) && j < FirstFailure(attributes, hash, info)
    ensures info[j].0 in Assigned(attributes, values, hash, info).0
    ensures Assigned(attributes, values, hash, info).0[info[j].0] == Dig(hash, DigPath(info[j].1)).value
    decreases |info|
  {
    var name := info[0].0;
    var value := Dig(hash, DigPath(info[0].1)).value;
    assert DistinctKeys(info[1..]);
    if j == 0 {
      assert name !in Keys(info[1..]) by {
        forall k | 0 <= k < |info[1..]| ensures Keys(info[1..])[k] != name {
          assert info[1..][k] == info[k + 1];
        }
      }
    } else {
      EachAssignedOnce(attributes, values[name := value], hash, info[1..], j - 1);
    }
  }

  /** A key missing along the path makes the looked-up value nil, and nil is assigned. */
  lemma MissingKeyAssignsNil<V>(attributes: set<string>, values: map<string, Payload<V>>,
                                hash: seq<(string, Payload<V>)>, entry: (string, AttributeInfo),
                                chain: seq<string>, child: seq<(string, Payload<V>)>, key: string, rest: seq<string>)
    requires WellFormed(hash) && NodeAt(hash, chain, child) && key !in Keys(child)
    requires DigPath(entry.1) == chain + [key] + rest && entry.0 in attributes
    ensures Assigned(attributes, values, hash, [entry]) == (values[entry.0 := Nil], Pass)
  {
    DigMissingKey(hash, chain, child, key, rest);
    assert [entry][1..] == [];
  }

  /** A scalar (not nil) along the path raises TypeError, and nothing is assigned. */
  lemma ScalarOnPathStops<V>(attributes: set<string>, values: map<string, Payload<V>>,
                             hash: seq<(string, Payload<V>)>, info: seq<(string, AttributeInfo)>,
                             chain: seq<string>, child: seq<(string, Payload<V>)>, key: string, rest: seq<string>)
    requires WellFormed(hash) && NodeAt(hash, chain, child) && |rest| > 0
    requires Lookup(child, key).Some? && Lookup(child, key).value.Leaf?
    requires |info| > 0 && DigPath(info[0].1) == chain + [key] + rest
    ensures Assigned(attributes, values, hash, info) == (values, Fail(DigTypeError))
  {
    DigThroughScalar(hash, chain, child, key, rest);
  }

  /** Nil along the path ends the dig with nil, and nil is assigned: the entry passes. */
  lemma NilOnPathAssignsNil<V>(attributes: set<string>, values: map<string, Payload<V>>,
                               hash: seq<(string, Payload<V>)>, entry: (string, AttributeInfo),
                               chain: seq<string>, child: seq<(string, Payload<V>)>, key: string, rest: seq<string>)
    requires WellFormed(hash) && NodeAt(hash, chain, child) && |rest| > 0 && Lookup(child, key) == Some(Nil)
    requires DigPath(entry.1) == chain + [key] + rest && entry.0 in attributes
    ensures Assigned(attributes, values, hash, [entry]) == (values[entry.0 := Nil], Pass)
  {
    DigThroughNil(hash, chain, child, key, rest);
    assert [entry][1..] == [];
  }

  /** `{a: nil}` with the entry `a_b => {attribute_name: b, in: [a]}`: the dig stops at the
      nil under `a`, and `a_b` is set to nil without a raise. */
  lemma NilOnPathExample(values: map<string, Payload<int>>)
    ensures Assigned({"a_b"}, values, [("a", Nil)], [("a_b", AttributeInfo("b", ["a"]))]) == (values["a_b" := Nil], Pass)
  {
    var hash: seq<(string, Payload<int>)> := [("a", Nil)];
    LookupAt(hash, 0);
    assert DigPath(AttributeInfo("b", ["a"])) == ["a", "b"];
    assert Dig(hash, ["a", "b"]) == Dug(Nil);
    assert [("a_b", AttributeInfo("b", ["a"]))][1..] == [];
  }

  /** Each entry derived from a payload digs, in that payload, the leaf it was derived from. */
  lemma DerivedEntryDigsItsLeaf<V>(hash: seq<(string, Payload<V>)>, e: (string, AttributeInfo))
    requires WellFormed(hash) && e in InfoFrom(hash, [], [])
    ensures Dig(hash, DigPath(e.1)).Dug? && LeafAt(hash, e.1.within, e.1.attributeName, Dig(hash, DigPath(e.1)).value)
  {
    EntriesAreLeaves(hash, [], e);
    var chain, key, leaf :| LeafAt(hash, chain, key, leaf) && e == Record([] + chain, key);
    assert [] + chain == chain;
    assert e.1 == AttributeInfo(key, chain);
    DigFindsLeaf(hash, chain, key, leaf);
    assert DigPath(e.1) == chain + [key];
  }

  /** The information derived from a payload, assigned from that same payload to a model
      that has every derived attribute: the batch passes and every attribute receives
      the value of the leaf its entry was derived from. */
  lemma RoundTrip<V>(attributes: set<string>, values: map<string, Payload<V>>, hash: seq<(string, Payload<V>)>)
    requires WellFormed(hash)
    requires forall e | e in InfoFrom(hash, [], []) :: e.0 in attributes
    ensures Assigned(attributes, values, hash, InfoFrom(hash, [], [])).1 == Pass
    ensures var info := InfoFrom(hash, [], []);
      forall j | 0 <= j < |info| :: info[j].0 in Assigned(attributes, values, hash, info).0 &&
        LeafAt(hash, info[j].1.within, info[j].1.attributeName, Assigned(attributes, values, hash, info).0[info[j].0])
  {
    var info := InfoFrom(hash, [], []);
    forall j | 0 <= j < |info|
      ensures Assignable(attributes, hash, info[j])
    {
      assert info[j] in info;
      DerivedEntryDigsItsLeaf(hash, info[j]);
    }
    var f := FirstFailure(attributes, hash, info);
    assert f == |info|;
    PassesIffAllAssignable(attributes, values, hash, info);
    UpsertAllKeepsDistinct([], Writes(hash, []));
    var r := Assigned(attributes, values, hash, info);
    forall j | 0 <= j < |info|
      ensures info[j].0 in r.0
      ensures LeafAt(hash, info[j].1.within, info[j].1.attributeName, r.0[info[j].0])
    {
      assert info[j] in info;
      DerivedEntryDigsItsLeaf(hash, info[j]);
      EachAssignedOnce(attributes, values, hash, info, j);
    }
  }

  /** The model whose attributes are assigned. */
  class Model<V> {
    /** The attributes the model defines: those `respond_to?` answers true for. */
    const attributes: set<string>
    /** The current value of each attribute. */
    var values: map<string, Payload<V>>

    ghost predicate Valid()
      reads this
    {
      values.Keys == attributes
    }

    /** A model with the given attributes, all nil. */
    constructor (attributes: set<string>)
      ensures this.attributes == attributes && Valid()
      ensures forall a | a in attributes :: values[a] == Nil
    {
      this.attributes := attributes;
      values := map a | a in attributes :: Nil;
    }

    /** `assign_attribute_value(attribute_name:, value:)` (lines 13-18): raises, changing
        nothing, when the model has no such attribute; otherwise sets that attribute only. */
    method AssignAttributeValue(name: string, value: Payload<V>) returns (outcome: Outcome<Error>)
      requires Valid()
      modifies this
      ensures Valid()
      ensures outcome == if name in attributes then Pass else Fail(NotDefined(name))
      ensures values == if name in attributes then old(values)[name := value] else old(values)
    {
      if name !in attributes {
        return Fail(NotDefined(name));
      }
      values := values[name := value];
      return Pass;
    }

    /** `assign_attribute_values(hash:, attribute_info:)` (lines 6-11): digs the value for
        each entry in order and assigns it, stopping at the first raise. */
    method AssignAttributeValues(hash: seq<(string, Payload<V>)>, attributeInfo: seq<(string, AttributeInfo)>)
      returns (outcome: Outcome<Error>)
      requires Valid()
      modifies this
      ensures Valid()
      ensures (values, outcome) == Assigned(attributes, old(values), hash, attributeInfo)
    {
      var i := 0;
      while i < |attributeInfo|
        invariant 0 <= i <= |attributeInfo|
        invariant Valid()
        invariant Assigned(attributes, old(values), hash, attributeInfo) == Assigned(attributes, values, hash, attributeInfo[i..])
      {
        var name := attributeInfo[i].0;
        var value := Dig(hash, DigPath(attributeInfo[i].1));
        assert attributeInfo[i..][1..] == attributeInfo[i + 1..];
        if value.TypeError? {
          return Fail(DigTypeError);
        }
        outcome := AssignAttributeValue(name, value.value);
        if outcome.Fail? {
          return;
        }
        i := i + 1;
      }
      return Pass;
    }
  }
}
