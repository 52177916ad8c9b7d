/** Python's `dict` with string keys as an insertion-ordered map: `keys` lists the keys in the
    order they were first inserted and `entries` holds the values.  Assigning
    to a present key keeps its position; a new key is appended at the end. */
module Dicts {
  import opened Wrappers

  datatype Dict<V> = Dict(keys: seq<string>, entries: map<string, V>) {

    /** Each key is listed exactly once, and exactly the listed keys are mapped. */
    ghost predicate Valid() {
      && (forall i, j :: 0 <= i < j < |keys| ==> keys[i] != keys[j])
      && (forall k :: k in entries <==> k in keys)
    }
  }

  function Empty<V>(): (d: Dict<V>)
    ensures d.Valid()
    ensures |d.keys| == 0 && d.entries == map[]
  {
    Dict([], map[])
  }

  /** `d.get(k)`: the value stored under `k`, if any. */
  function Get<V>(d: Dict<V>, k: string): Option<V> {
    if k in d.entries then Some(d.entries[k]) else None
  }

  /** `len(d)`. */
  function Len<V>(d: Dict<V>): nat {
    |d.keys|
  }

  /** `d[k] = v`. */
  function Put<V>(d: Dict<V>, k: string, v: V): (r: Dict<V>)
    requires d.Valid()
    ensures r.Valid()
    ensures r.entries == d.entries[k := v]
    ensures Get(r, k) == Some(v)
    ensures forall k' :: k' != k ==> Get(r, k') == Get(d, k')
    ensures |r.keys| >= |d.keys| && r.keys[..|d.keys|] == d.keys
    ensures Len(r) == if k in d.entries then Len(d) else Len(d) + 1
  {
    if k in d.entries then Dict(d.keys, d.entries[k := v])
    else Dict(d.keys + [k], d.entries[k := v])
  }

  /** Assigns `vals[k]` to every key of `ks`, in order. */
  function PutAll<V>(d: Dict<V>, ks: seq<string>, vals: map<string, V>): (r: Dict<V>)
    requires d.Valid()
    requires forall i :: 0 <= i < |ks| ==> ks[i] in vals
    ensures r.Valid()
    ensures forall k :: k in r.entries <==> k in d.entries || k in ks
    ensures forall k :: k in ks ==> r.entries[k] == vals[k]
    ensures forall k :: k in d.entries && k !in ks ==> r.entries[k] == d.entries[k]
    ensures |r.keys| >= |d.keys| && r.keys[..|d.keys|] == d.keys
    decreases |ks|
  {
    if |ks| == 0 then d
    else
      var d' := Put(d, ks[0], vals[ks[0]]);
      var r := PutAll(d', ks[1..], vals);
      PutAllStep(d, d', r, ks, vals);
      r
  }

  /** One step of `PutAll`: what the rest of the assignments establish about
      `d'` carries over to `d` once the first key is accounted for. */
  lemma PutAllStep<V>(d: Dict<V>, d': Dict<V>, r: Dict<V>, ks: seq<string>, vals: map<string, V>)
    requires |ks| > 0 && forall k :: k in ks ==> k in vals
    requires d'.entries == d.entries[ks[0] := vals[ks[0]]]
    requires |d'.keys| >= |d.keys| && d'.keys[..|d.keys|] == d.keys
    requires forall k :: k in r.entries <==> k in d'.entries || k in ks[1..]
    requires forall k :: k in ks[1..] ==> r.entries[k] == vals[k]
    requires forall k :: k in d'.entries && k !in ks[1..] ==> r.entries[k] == d'.entries[k]
    requires |r.keys| >= |d'.keys| && r.keys[..|d'.keys|] == d'.keys
    ensures forall k :: k in r.entries <==> k in d.entries || k in ks
    ensures forall k :: k in ks ==> r.entries[k] == vals[k]
    ensures forall k :: k in d.entries && k !in ks ==> r.entries[k] == d.entries[k]
    ensures |r.keys| >= |d.keys| && r.keys[..|d.keys|] == d.keys
  {
    assert forall k :: k in ks <==> k == ks[0] || k in ks[1..];
    assert r.keys[..|d.keys|] == r.keys[..|d'.keys|][..|d.keys|];
  }

  /** `d.update(o)`: every key of `o` takes `o`'s value, in `o`'s key order;
      the other keys of `d` keep their values and positions. */
  function Update<V>(d: Dict<V>, o: Dict<V>): (r: Dict<V>)
    requires d.Valid() && o.Valid()
    ensures r.Valid()
    ensures forall k :: k in r.entries <==> k in d.entries || k in o.entries
    ensures forall k :: k in o.entries ==> r.entries[k] == o.entries[k]
    ensures forall k :: k in d.entries && k !in o.entries ==> r.entries[k] == d.entries[k]
    ensures |r.keys| >= |d.keys| && r.keys[..|d.keys|] == d.keys
  {
    PutAll(d, o.keys, o.entries)
  }

  /** A key list without repetitions is as long as its key set is large. */
  lemma {:induction false} DistinctCard(s: seq<string>)
    requires forall i, j :: 0 <= i < j < |s| ==> s[i] != s[j]
    ensures |set x | x in s| == |s|
    decreases |s|
  {
    if |s| > 0 {
      var t := s[..|s| - 1];
      DistinctCard(t);
      assert (set x | x in s) == (set x | x in t) + {s[|s| - 1]} by {
        assert s == t + [s[|s| - 1]];
      }
      assert s[|s| - 1] !in t;
    }
  }

  /** `len(d)` is the number of stored keys. */
  lemma LenIsCardinality<V>(d: Dict<V>)
    requires d.Valid()
    ensures Len(d) == |d.entries.Keys|
  {
    DistinctCard(d.keys);
    assert d.entries.Keys == set x | x in d.keys;
  }
}
