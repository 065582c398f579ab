# deco: deriving attribute information from a payload and assigning it

This project models, in Dafny, the two modules of the Ruby gem `deco` that
turn a nested payload Hash into model attributes.

- `Deco::AttributeInformable#attribute_info_from` walks the payload Hash
  depth first. For every value that is not a Hash (nil included) it records a
  qualified attribute name: the enclosing keys and the value's key joined
  with `_`. It records the name
  under an accumulator Hash, together with `{attribute_name:, in:}`: the
  unqualified key and the array of enclosing keys.
  The Ruby code works imperatively:
  - one namespace array is pushed before a nested Hash and popped after it;
  - before each leaf the namespace is rebound to a `dup` of itself, and that
    copy is stored as the leaf's `in` by reference. A later push onto the copy
    is seen through that earlier `in` until the matching pop.

  The model keeps this form. `Namespace` is a class around the array. The
  accumulator `AttributeNameInfo` stores references to namespace objects.
  `Contents()` reads every stored `in` through the heap as it is now. The
  methods `AttributeInfoFrom`, `VisitEntry`, `VisitNested` and `RecordLeaf`
  follow the loop and its two branches. They are proved against a pure
  specification, `InfoFrom` = the writes `Writes(hash, namespace)` applied in
  order to the accumulator. The properties of that specification are proved
  in `AttributeInfoProperties`.
- `Deco::AttributeValuesAssignable` walks the attribute information in order.
  For each entry it digs the payload along `in + [attribute_name]` and
  assigns the result through the model's setter. It raises when the model
  has no such attribute. `Model` is a class with a fixed attribute set, which
  plays the part of `respond_to?`, and a mutable map of values, which plays
  the part of the setters. A raise is an `Outcome` of `Fail`, and it ends
  the loop. `Assigned` is the pure specification of the loop.

A Ruby Hash is modelled as an association list that keeps insertion order
(module `Hashes`). `h[k] = x` replaces an existing key's value where the key
stands, and appends a new key at the end. `Hash#dig` is modelled over nested
payloads in module `Payloads`.

Payload values are `Nil`, a scalar `Leaf` or a nested Hash (`Node`). `Nil`
is Ruby's single nil value: a missing key digs to it, and a new model's
attributes hold it. `Hash#dig` in the code ends with nil at a missing key,
and also when it reaches nil with keys left to dig. It raises `TypeError`
when it reaches a scalar that is not nil with keys left to dig. The model
keeps that error (`DigTypeError`) and does not assume that every dig
succeeds.

## Model

| member | source | states |
|---|---|---|
| AttributeInformable.Join | lib/deco/attribute_informable.rb:51 | `namespace.join('_')`: the keys with `_` between consecutive ones. It has no contract of its own: `JoinEnds` and `JoinAppend` state what it gives. |
| AttributeInformable.QualifiedName | lib/deco/attribute_informable.rb:48-52 | The key chosen for a leaf: the key itself under a blank namespace, else the joined namespace, `_` and the key. It has no contract of its own: `QualifiedNameIsJoin`, `QualifiedNamePrefix` and `RecordFields` state what it gives. |
| AttributeInformable.Record | lib/deco/attribute_informable.rb:48-52 | The store made for one leaf: its qualified name mapped to `{attribute_name: key, in: namespace}`. It has no contract of its own: `RecordFields` states it. |
| AttributeInformable.Namespace.Blank | lib/deco/attribute_informable.rb:48 | `namespace.blank?`: the array has no keys. It has no contract of its own: `RecordLeaf` asserts that its branch on `Blank()` gives `QualifiedName(namespace.keys, key)`, which ties the `blank?` test to the specification. |
| AttributeInformable.AttributeInfoFrom | lib/deco/attribute_informable.rb:37-57 | Returns the very accumulator it was given. The namespace array ends with the keys it started with (push and pop balance). The accumulator then reads as the old contents with every leaf's write applied in visiting order. Entries it did not write stay in place, and each entry it wrote holds an array that no enclosing visit works on. |
| AttributeInformable.AttributeInfoFromPayload | lib/deco/attribute_informable.rb:37 | With the default empty namespace and empty accumulator, the result is a new accumulator whose contents are exactly the writes of the payload applied to an empty Hash. |
| AttributeInformable.VisitEntry | lib/deco/attribute_informable.rb:38-54 | One turn of the loop takes the loop invariant from entry i to entry i + 1. The loop goes on with the same namespace array after a nested Hash, or with a fresh copy holding the same keys after a leaf. |
| AttributeInformable.VisitNested | lib/deco/attribute_informable.rb:39-44 | The push, the nested call and the pop write the nested Hash's leaves under `namespace + [key]`. Afterwards every earlier entry that shares the array reads as it did before the push. |
| AttributeInformable.RecordLeaf | lib/deco/attribute_informable.rb:47-53 | The copy is fresh and holds the current keys. The accumulator gains exactly one write: the qualified name, mapped to the key and the copy's keys. No other entry changes. |
| AttributeInformable.Namespace.Push | lib/deco/attribute_informable.rb:40 | `namespace << key` appends the key. |
| AttributeInformable.Namespace.Pop | lib/deco/attribute_informable.rb:43 | `namespace.pop` drops the last key, and leaves an empty array empty. |
| AttributeInformable.Namespace.Dup | lib/deco/attribute_informable.rb:47 | `namespace.dup` is a new array with the same keys. |
| AttributeInformable.AttributeNameInfo.Store | lib/deco/attribute_informable.rb:49-52 | Storing under a key is the Hash upsert on the entries, and it keeps the keys distinct. |
| AttributeInformable.Snapshot | lib/deco/attribute_informable.rb:49-52 | Reading the stored entries keeps their keys and order. Each `in` reads as the current keys of the array it references. |
| AttributeInformable.SnapshotUpsert | lib/deco/attribute_informable.rb:49-52 | Storing a reference and then reading gives the same result as reading and then storing what the reference reads as. |
| AttributeInformable.RestoredAfterNested | lib/deco/attribute_informable.rb:40-43 | After the pop, the accumulator is what the nested call wrote over what it read before the push. The push is invisible once it is undone. |
| AttributeInformable.KeptAppend | lib/deco/attribute_informable.rb:38-54 | "Entries not written stay in place" composes over consecutive entries of the loop. |
| AttributeInformable.StoreKept | lib/deco/attribute_informable.rb:47-52 | Storing one entry keeps every other entry in place (distinct keys), and the stored entry holds an array that none of the enclosing visits works on. |
| Hashes.Upsert | lib/deco/attribute_informable.rb:49-52 | `h[k] = x` keeps the key order and appends `k` only when it is new. A new key lands at the end with `x`. |
| Hashes.Lookup | lib/deco/attribute_values_assignable.rb:8 | `h[k]` is present exactly when `k` is a key, and then it is the value of an entry with that key. |
| Hashes.UpsertInPlace | lib/deco/attribute_informable.rb:49-52 | With distinct keys, `h[k] = x` replaces the entry of `k` and no other, and the keys stay distinct. |
| Hashes.LookupUpsert | lib/deco/attribute_informable.rb:49-52 | After `h[k] = x`, looking up `k` gives `x`, and every other key gives what it gave before. |
| Hashes.LookupUpsertAll | lib/deco/attribute_informable.rb:38-54 | After a sequence of stores, a key's lookup is its last write. A key never written keeps its old value. |
| Hashes.UpsertAllKeepsDistinct | lib/deco/attribute_informable.rb:38-54 | Any sequence of stores keeps the keys of the accumulator distinct. |
| Payloads.Dig | lib/deco/attribute_values_assignable.rb:8 | `hash.dig(*keys)`. Digging one key never raises. A missing first key gives nil. A result other than nil needs the first key present. |
| Payloads.DigFindsLeaf | lib/deco/attribute_values_assignable.rb:8 | Digging along a leaf's chain of keys and then its key finds that leaf's value, nil included. |
| Payloads.DigMissingKey | lib/deco/attribute_values_assignable.rb:8 | A key missing on the path makes the whole dig nil, not an error, whatever keys follow. |
| Payloads.DigThroughScalar | lib/deco/attribute_values_assignable.rb:8 | Digging past a scalar that is not nil raises `TypeError`, whatever keys follow. |
| Payloads.DigThroughNil | lib/deco/attribute_values_assignable.rb:8 | Digging past nil stops there with nil, whatever keys follow. |
| AttributeInfoProperties.JoinAppend | lib/deco/attribute_informable.rb:51 | Joining two non-empty key lists gives each one joined, with `_` between them. |
| AttributeInfoProperties.JoinEnds | lib/deco/attribute_informable.rb:51 | A join of keys starts with the first key and ends with the last. |
| AttributeInfoProperties.RecordFields | lib/deco/attribute_informable.rb:48-52 | A leaf's stored name ends with its key. Under a non-empty namespace the name also starts with the outermost key and is longer than the key. The stored value is `{attribute_name: key, in: namespace}`. |
| AttributeInfoProperties.QualifiedNameIsJoin | lib/deco/attribute_informable.rb:48-52 | Both branches (blank namespace, or joined namespace and `_`) give the whole chain joined with `_`. |
| AttributeInfoProperties.QualifiedNamePrefix | lib/deco/attribute_informable.rb:37-52 | A non-empty namespace passed by the caller prefixes every qualified name with the joined namespace and `_`. |
| AttributeInfoProperties.WritesSound | lib/deco/attribute_informable.rb:38-53 | Only leaves are written. Each write is the leaf's qualified name, mapped to its key and its exact chain of enclosing keys. |
| AttributeInfoProperties.WritesComplete | lib/deco/attribute_informable.rb:38-53 | Every leaf, at any depth, is written with its qualified name and exact chain. |
| AttributeInfoProperties.TopLevelLeaf | lib/deco/attribute_informable.rb:48-49 | A top-level leaf is written under its own key, with `in: []`. |
| AttributeInfoProperties.NestedLeaf | lib/deco/attribute_informable.rb:40-52 | A leaf under the keys `chain` is written under `chain` joined with `_`, then `_` and its key, with `in: chain`. |
| AttributeInfoProperties.WritesCount | lib/deco/attribute_informable.rb:38-53 | There is exactly one write per leaf. |
| AttributeInfoProperties.AtMostOneEntryPerLeaf | lib/deco/attribute_informable.rb:37-57 | From an empty accumulator, the result has at most as many entries as the payload has leaves. |
| AttributeInfoProperties.LastWriteWins | lib/deco/attribute_informable.rb:49-52 | The entry of a name is the last leaf written under it. A name that no leaf writes keeps what the caller's accumulator held. |
| AttributeInfoProperties.DepthFirstOrder | lib/deco/attribute_informable.rb:38-45 | Without colliding names, the result is exactly the leaves in depth-first, insertion order. |
| AttributeInfoProperties.EntriesAreLeaves | lib/deco/attribute_informable.rb:37-57 | Every entry of the result describes a leaf of the payload. |
| AttributeInfoProperties.DocumentedExample | lib/deco/attribute_informable.rb:14-30 | The documented example gives `first_name` with `in: []` and `address_street` with `in: [address]`. |
| AttributeInfoProperties.SiblingsExample | lib/deco/attribute_informable.rb:38-53 | For a leaf, a nested Hash and a leaf, the specification gives `a` with `in: []`, `b_c` with `in: [b]` and `d` with `in: []`. |
| AttributeInfoProperties.SiblingsThroughTheHeap | lib/deco/attribute_informable.rb:37-57 | Running the method on the same payload, where `a` stores the copied array that the later push and pop around `b` work on, leaves a valid accumulator that reads `a` with `in: []`, then `b_c` with `in: [b]`, then `d` with `in: []`. |
| AttributeInfoProperties.CollisionExample | lib/deco/attribute_informable.rb:49-52 | A top-level key spelled like a qualified name is overwritten by the nested leaf that qualifies to the same name. |
| AttributeInfoProperties.EmptyNestedHash | lib/deco/attribute_informable.rb:39-44 | An empty Hash anywhere among the entries of the visited Hash contributes no write. The result is the same for any accumulator. |
| AttributeInfoProperties.WritesUpToAppend | lib/deco/attribute_informable.rb:38-54 | Visiting `a + b` writes what visiting `a` writes, followed by the writes of `b`'s entries. |
| AttributeValuesAssignable.DigPath | lib/deco/attribute_values_assignable.rb:8 | The dig path is non-empty and ends with the unqualified attribute name. |
| AttributeValuesAssignable.ErrorOf | lib/deco/attribute_values_assignable.rb:8-15 | The error an entry that cannot be assigned ends the batch with: `DigTypeError` when its dig raises, else `NotDefined` of its name. It has no contract of its own: `DigBeforeRespondTo`, `UndefinedAfterDig` and `StopsAtFirstFailure` state how the loop produces it. |
| AttributeValuesAssignable.DigBeforeRespondTo | lib/deco/attribute_values_assignable.rb:8-15 | The dig is tried before `respond_to?`: an entry whose dig raises ends the batch with `DigTypeError` and unchanged values, whether or not the model has the attribute. |
| AttributeValuesAssignable.UndefinedAfterDig | lib/deco/attribute_values_assignable.rb:8-15 | An entry that digs without raising but names an attribute the model lacks ends the batch with `NotDefined` of that name and unchanged values. |
| AttributeValuesAssignable.Assigned | lib/deco/attribute_values_assignable.rb:6-18 | The attribute set of the model is kept. An attribute that no entry names keeps its value. |
| AttributeValuesAssignable.FirstFailure | lib/deco/attribute_values_assignable.rb:7-17 | Every entry before the index can be assigned, and the entry at the index cannot. |
| AttributeValuesAssignable.StopsAtFirstFailure | lib/deco/attribute_values_assignable.rb:7-17 | The first entry that cannot be assigned ends the batch with its error. The entries before it are assigned as if the batch ended there. No attribute outside them changes. With no such entry, the batch passes. |
| AttributeValuesAssignable.PassesIffAllAssignable | lib/deco/attribute_values_assignable.rb:7-17 | The batch passes if and only if every entry can be assigned. |
| AttributeValuesAssignable.EachAssignedOnce | lib/deco/attribute_values_assignable.rb:7-9 | With distinct names, every entry before the first failure leaves its attribute holding the value dug for that entry. |
| AttributeValuesAssignable.MissingKeyAssignsNil | lib/deco/attribute_values_assignable.rb:8-9 | A key missing on the path assigns nil, and the entry passes. |
| AttributeValuesAssignable.ScalarOnPathStops | lib/deco/attribute_values_assignable.rb:8 | A scalar that is not nil on the path raises before anything is assigned, and the values are unchanged. |
| AttributeValuesAssignable.NilOnPathAssignsNil | lib/deco/attribute_values_assignable.rb:8-9 | Nil on the path makes the dig give nil, nil is assigned, and the entry passes. |
| AttributeValuesAssignable.NilOnPathExample | lib/deco/attribute_values_assignable.rb:6-10 | For `{a: nil}` and the entry `a_b => {attribute_name: b, in: [a]}`, `a_b` is set to nil and nothing raises. |
| AttributeValuesAssignable.DerivedEntryDigsItsLeaf | lib/deco/attribute_values_assignable.rb:8 | An entry derived from a payload digs, in that payload, the leaf it was derived from (nil or a scalar), without raising. |
| AttributeValuesAssignable.RoundTrip | lib/deco/attribute_values_assignable.rb:6-10 | Assigning a payload's own derived information to a model that has all its attributes passes. Every attribute then holds the value of its leaf, nil included. |
| AttributeValuesAssignable.Model.AssignAttributeValue | lib/deco/attribute_values_assignable.rb:13-18 | An unknown name raises `NotDefined` and changes nothing. A known name sets that attribute only. |
| AttributeValuesAssignable.Model.AssignAttributeValues | lib/deco/attribute_values_assignable.rb:6-11 | The loop ends with the values and outcome of `Assigned` (dig, then assign, in order, stopping at the first raise). |

## Left out

- Symbols are modelled as strings. The `.to_sym` of the joined name and the distinction between Symbol and String keys are not modelled.
  - A top-level leaf is stored under its key as given (line 49). A nested leaf is stored under a Symbol (line 51).
  - So with String payload keys, a top-level `"a_b"` and a nested `a` / `b` are two different keys in Ruby, and they do not collide.
  - As a result, `CollisionExample` and `LastWriteWins` describe payloads whose keys are Symbols, as in the documented example.
  - `AtMostOneEntryPerLeaf` still holds as an upper bound for any keys.
- Payload values are nil, scalars or Hashes. Arrays and other objects that respond to `dig` are not modelled. `is_a? Hash` becomes the `Node` case.
- `blank?` on the namespace array is modelled as emptiness, which is what it means for an Array.
- `flatten.compact` on the dig path is the identity here. The enclosing keys are strings and the attribute name is never nil, so there is nothing to flatten or drop.
- The text of the raised message is not modelled. It is the error value `NotDefined(name)`.
- `respond_to?` and `public_send` are modelled as membership in a fixed attribute set and an update of a value map. A setter's own validation, its side effects and its own exceptions are not modelled.
- The payload Hash passed as the accumulator, or a Hash mutated while it is being iterated, is not modelled. The payload is a value.
- AttributeInformable.AttributeInfoFrom: the frame says that each written entry holds an array none of the enclosing visits works on. It does not say that the array was newly allocated.
- AttributeInfoProperties.EmptyNestedHash: stated for an empty Hash among the entries of the Hash being visited. An empty Hash deeper down is covered only by applying the lemma to the nested entries; no lemma states it for a path of any depth.
- AttributeInformable.VisitNested: states the same frame, relative to the enclosing visits plus the array it pushes onto. Like AttributeInfoFrom, it does not say that the arrays of the written entries were newly allocated.
