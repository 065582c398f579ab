/**
  Ruby's Hash as the core uses it: an association list that remembers
  insertion order. Assigning to a key that is present replaces its value
  where it stands; assigning to a new key appends it. Keys are strings
  throughout (Ruby symbols are modelled as their names).
 */
module Hashes {
  import opened Wrappers

  /** The keys of an association list, in order. */
  function Keys<X>(h: seq<(string, X)>): (ks: seq<string>)
    ensures |ks| == |h|
  {
    seq(|h|, i requires 0 <= i < |h| => h[i].0)
  }

  /** Every key occurs once, as in a Ruby Hash. */
  ghost predicate DistinctKeys<X>(h: seq<(string, X)>)
  {
    forall i, j | 0 <= i < j < |h| :: h[i].0 != h[j].0
  }

  /** `h[k]`: the value stored under `k`, or nil. */
  function Lookup<X>(h: seq<(string, X)>, k: string): (r: Option<X>)
    ensures r.Some? <==> k in Keys(h)
    ensures r.Some? ==> exists i | 0 <= i < |h| :: h[i] == (k, r.value)
  {
    if |h| == 0 then None
    else if h[0].0 == k then assert Keys(h)[0] == k; Some(h[0].1)
    else
      var r := Lookup(h[1..], k);
      assert Keys(h) == [h[0].0] + Keys(h[1..]);
      assert r.Some? ==> exists i | 0 <= i < |h[1..]| :: h[1..][i] == (k, r.value);
      r
  }

  /** The keys of a list with one more entry in front. Stated once as a lemma: asserting
      it in place makes the proofs about `Upsert` much more expensive. */
  lemma KeysCons<X>(e: (string, X), t: seq<(string, X)>)
    ensures Keys([e] + t) == [e.0] + Keys(t)
  {
  }

  /** `h[k] = x`: replace the value of `k` where it stands, or append `(k, x)`. */
  function Upsert<X>(h: seq<(string, X)>, k: string, x: X): (r: seq<(string, X)>)
    ensures Keys(r) == if k in Keys(h) then Keys(h) else Keys(h) + [k]
    ensures k !in Keys(h) ==> r[|h|] == (k, x)
  {
    if |h| == 0 then [(k, x)]
    else
      assert h == [h[0]] + h[1..];
      KeysCons(h[0], h[1..]);
      if h[0].0 == k then
        KeysCons((k, x), h[1..]);
        [(k, x)] + h[1..]
      else
        var t := Upsert(h[1..], k, x);
        KeysCons(h[0], t);
        assert k in Keys(h) <==> k in Keys(h[1..]);
        assert k !in Keys(h) ==> [h[0].0] + (Keys(h[1..]) + [k]) == Keys(h) + [k];
        [h[0]] + t
  }

  /** In a list with distinct keys, `h[k] = x` changes the entry of `k` and no other, and keeps keys distinct. */
  lemma UpsertInPlace<X>(h: seq<(string, X)>, k: string, x: X)
    requires DistinctKeys(h)
    ensures DistinctKeys(Upsert(h, k, x))
    ensures forall i | 0 <= i < |h| :: Upsert(h, k, x)[i] == if h[i].0 == k then (k, x) else h[i]
  {
    var r := Upsert(h, k, x);
    forall i, j | 0 <= i < j < |r| ensures r[i].0 != r[j].0 {
      assert r[i].0 == Keys(r)[i] && r[j].0 == Keys(r)[j];
      assert Keys(r)[i] == Keys(h)[i] == h[i].0;
      if j < |h| {
        assert Keys(r)[j] == Keys(h)[j] == h[j].0;
      } else {
        assert Keys(r)[j] == k && k !in Keys(h);
      }
    }
    UpsertAt(h, k, x);
  }

  /** Entry by entry, `h[k] = x` replaces the entry of `k`, and only that one when keys are distinct. */
  lemma {:induction false} UpsertAt<X>(h: seq<(string, X)>, k: string, x: X)
    requires DistinctKeys(h)
    ensures forall i | 0 <= i < |h| :: Upsert(h, k, x)[i] == if h[i].0 == k then (k, x) else h[i]
  {
    if |h| > 0 {
      var t := h[1..];
      assert h == [h[0]] + t;
      if h[0].0 == k {
        assert Upsert(h, k, x) == [(k, x)] + t;
        assert forall i | 0 < i < |h| :: h[i].0 != k;
      } else {
        UpsertAt(t, k, x);
        assert Upsert(h, k, x) == [h[0]] + Upsert(t, k, x);
      }
    }
  }

  /** After `h[k] = x`, only the lookup of `k` changes. */
  lemma {:induction false} LookupUpsert<X>(h: seq<(string, X)>, k: string, x: X, k': string)
    ensures Lookup(Upsert(h, k, x), k') == if k' == k then Some(x) else Lookup(h, k')
  {
    if |h| > 0 && h[0].0 != k {
      LookupUpsert(h[1..], k, x, k');
    }
  }

  /** Applies the writes `ws` to `h` one after the other, in order. */
  function UpsertAll<X>(h: seq<(string, X)>, ws: seq<(string, X)>): (r: seq<(string, X)>)
    ensures |h| <= |r| <= |h| + |ws|
    ensures Keys(r)[..|h|] == Keys(h)
  {
    if |ws| == 0 then h
    else
      var n := |ws| - 1;
      assert Keys(ws) == Keys(ws[..n]) + [ws[n].0];
      Upsert(UpsertAll(h, ws[..n]), ws[n].0, ws[n].1)
  }

  /** Writes keep the keys distinct. */
  lemma {:induction false} UpsertAllKeepsDistinct<X>(h: seq<(string, X)>, ws: seq<(string, X)>)
    requires DistinctKeys(h)
    ensures DistinctKeys(UpsertAll(h, ws))
  {
    if |ws| > 0 {
      var n := |ws| - 1;
      UpsertAllKeepsDistinct(h, ws[..n]);
      UpsertInPlace(UpsertAll(h, ws[..n]), ws[n].0, ws[n].1);
    }
  }

  /** The value of the last write to `k` in `ws`, or nil when `ws` never writes `k`. */
  function LastWrite<X>(ws: seq<(string, X)>, k: string): (r: Option<X>)
    ensures r.Some? <==> k in Keys(ws)
  {
    if |ws| == 0 then None
    else
      var n := |ws| - 1;
      assert Keys(ws) == Keys(ws[..n]) + [ws[n].0];
      if ws[n].0 == k then Some(ws[n].1) else LastWrite(ws[..n], k)
  }

  /** Writing `a` and then `b` is writing `a + b`. */
  lemma {:induction false} UpsertAllAppend<X>(h: seq<(string, X)>, a: seq<(string, X)>, b: seq<(string, X)>)
    ensures UpsertAll(h, a + b) == UpsertAll(UpsertAll(h, a), b)
  {
    if |b| == 0 {
      assert a + b == a;
    } else {
      var n := |b| - 1;
      assert (a + b)[..|a + b| - 1] == a + b[..n];
      UpsertAllAppend(h, a, b[..n]);
    }
  }

  /** Looking a key up after the writes: the last write to it wins, else the old value stays. */
  lemma {:induction false} LookupUpsertAll<X>(h: seq<(string, X)>, ws: seq<(string, X)>, k: string)
    ensures Lookup(UpsertAll(h, ws), k) == if k in Keys(ws) then LastWrite(ws, k) else Lookup(h, k)
  {
    if |ws| > 0 {
      var n := |ws| - 1;
      assert Keys(ws) == Keys(ws[..n]) + [ws[n].0];
      LookupUpsertAll(h, ws[..n], k);
      LookupUpsert(UpsertAll(h, ws[..n]), ws[n].0, ws[n].1, k);
    }
  }

  /** Where a key of `h` stands after the writes: in place, with its last written value if any. */
  lemma {:induction false} UpsertAllAt<X>(h: seq<(string, X)>, ws: seq<(string, X)>, i: nat)
    requires DistinctKeys(h) && i < |h|
    ensures UpsertAll(h, ws)[i] == if h[i].0 in Keys(ws) then (h[i].0, LastWrite(ws, h[i].0).value) else h[i]
  {
    if |ws| > 0 {
      var n := |ws| - 1;
      assert Keys(ws) == Keys(ws[..n]) + [ws[n].0];
      UpsertAllAt(h, ws[..n], i);
      UpsertAllKeepsDistinct(h, ws[..n]);
      var a := UpsertAll(h, ws[..n]);
      assert a[i].0 == Keys(a)[i] == Keys(h)[i] == h[i].0;
      UpsertInPlace(a, ws[n].0, ws[n].1);
    }
  }

  /** In a list with distinct keys, every entry is what looking its key up gives. */
  lemma {:induction false} LookupAt<X>(h: seq<(string, X)>, j: nat)
    requires DistinctKeys(h) && j < |h|
    ensures Lookup(h, h[j].0) == Some(h[j].1)
  {
    if j > 0 {
      LookupAt(h[1..], j - 1);
    }
  }

  /** The keys after the writes depend only on the keys before them. */
  lemma {:induction false} UpsertAllKeys<X>(h: seq<(string, X)>, h': seq<(string, X)>, ws: seq<(string, X)>)
    requires Keys(h) == Keys(h')
    ensures Keys(UpsertAll(h, ws)) == Keys(UpsertAll(h', ws))
  {
    if |ws| > 0 {
      UpsertAllKeys(h, h', ws[..|ws| - 1]);
    }
  }

  /** An entry that the writes appended past the end of `h` holds a written key and its last value. */
  lemma UpsertAllBeyond<X>(h: seq<(string, X)>, ws: seq<(string, X)>, j: nat)
    requires DistinctKeys(h) && |h| <= j < |UpsertAll(h, ws)|
    ensures UpsertAll(h, ws)[j].0 in Keys(ws)
    ensures UpsertAll(h, ws)[j] == (UpsertAll(h, ws)[j].0, LastWrite(ws, UpsertAll(h, ws)[j].0).value)
  {
    var r := UpsertAll(h, ws);
    var k := r[j].0;
    UpsertAllKeepsDistinct(h, ws);
    assert k !in Keys(h) by {
      forall i | 0 <= i < |h| ensures Keys(h)[i] != k {
        assert Keys(h)[i] == Keys(r)[..|h|][i] == r[i].0;
      }
    }
    LookupAt(r, j);
    LookupUpsertAll(h, ws, k);
  }

  /** Two lists with the same keys in the same places stay equal under the same writes
      everywhere except at the keys of theirs that no write touches. */
  lemma UpsertAllCongruent<X>(h: seq<(string, X)>, h': seq<(string, X)>, ws: seq<(string, X)>)
    requires DistinctKeys(h) && Keys(h) == Keys(h')
    ensures Keys(UpsertAll(h, ws)) == Keys(UpsertAll(h', ws))
    ensures forall j | 0 <= j < |UpsertAll(h, ws)| ::
      if j < |h| && h[j].0 !in Keys(ws)
      then UpsertAll(h, ws)[j] == h[j] && UpsertAll(h', ws)[j] == h'[j]
      else UpsertAll(h, ws)[j] == UpsertAll(h', ws)[j]
  {
    UpsertAllKeys(h, h', ws);
    var r, r' := UpsertAll(h, ws), UpsertAll(h', ws);
    assert DistinctKeys(h') by {
      assert forall i | 0 <= i < |h| :: h[i].0 == Keys(h)[i] == Keys(h')[i] == h'[i].0;
    }
    forall j | 0 <= j < |r|
      ensures if j < |h| && h[j].0 !in Keys(ws) then r[j] == h[j] && r'[j] == h'[j] else r[j] == r'[j]
    {
      assert |r| == |Keys(r)| == |Keys(r')| == |r'|;
      if j < |h| {
        UpsertAllAt(h, ws, j);
        UpsertAllAt(h', ws, j);
        assert h[j].0 == Keys(h)[j] == Keys(h')[j] == h'[j].0;
      } else {
        UpsertAllBeyond(h, ws, j);
        UpsertAllBeyond(h', ws, j);
        assert r[j].0 == Keys(r)[j] == Keys(r')[j] == r'[j].0;
      }
    }
  }

  /** Writes with distinct keys into an empty list give back the writes, in order. */
  lemma {:induction false} UpsertAllDistinct<X>(ws: seq<(string, X)>)
    requires DistinctKeys(ws)
    ensures UpsertAll([], ws) == ws
  {
    if |ws| > 0 {
      var n := |ws| - 1;
      var k := ws[n].0;
      assert DistinctKeys(ws[..n]);
      UpsertAllDistinct(ws[..n]);
      assert k !in Keys(ws[..n]) by {
        forall i | 0 <= i < n ensures Keys(ws[..n])[i] != k {
          assert Keys(ws[..n])[i] == ws[i].0;
        }
      }
      UpsertAbsent(ws[..n], k, ws[n].1);
      assert ws[..n] + [(k, ws[n].1)] == ws;
    }
  }

  /** Writing a key that is absent appends it. */
  lemma {:induction false} UpsertAbsent<X>(h: seq<(string, X)>, k: string, x: X)
    requires k !in Keys(h)
    ensures Upsert(h, k, x) == h + [(k, x)]
  {
    if |h| > 0 {
      var t := h[1..];
      assert h == [h[0]] + t;
      KeysCons(h[0], t);
      UpsertAbsent(t, k, x);
      calc {
        Upsert(h, k, x);
        [h[0]] + Upsert(t, k, x);
        [h[0]] + (t + [(k, x)]);
        ([h[0]] + t) + [(k, x)];
      }
    }
  }

  /** Every entry after a write is an old entry or the written one. */
  lemma {:induction false} UpsertMember<X>(h: seq<(string, X)>, k: string, x: X, e: (string, X))
    requires e in Upsert(h, k, x)
    ensures e in h || e == (k, x)
  {
    if |h| > 0 && h[0].0 != k {
      if e != h[0] {
        UpsertMember(h[1..], k, x, e);
      }
    }
  }

  /** Every entry after the writes is an old entry or one of the writes. */
  lemma {:induction false} UpsertAllMember<X>(h: seq<(string, X)>, ws: seq<(string, X)>, e: (string, X))
    requires e in UpsertAll(h, ws)
    ensures e in h || e in ws
  {
    if |ws| > 0 {
      var n := |ws| - 1;
      UpsertMember(UpsertAll(h, ws[..n]), ws[n].0, ws[n].1, e);
      if e != ws[n] {
        UpsertAllMember(h, ws[..n], e);
      }
    }
  }
}
