/**
 * Python's dict and collections.Counter as values.  A dict remembers the
 * order in which its keys were first inserted; assigning to a key that is
 * already present keeps its place.
 */
module Dicts {

  /** The keys in first-insertion order, and what each key maps to. */
  datatype Dict<K, V> = Dict(keys: seq<K>, vals: map<K, V>)

  predicate Distinct<T(==)>(s: seq<T>) {
    forall i, j :: 0 <= i < j < |s| ==> s[i] != s[j]
  }

  /** A distinct sequence stays distinct when a new element is appended. */
  lemma DistinctSnoc<T>(s: seq<T>, x: T)
    requires Distinct(s) && x !in s
    ensures Distinct(s + [x])
  {
  }

  /** The key order lists every key of the map exactly once. */
  ghost predicate Valid<K, V>(d: Dict<K, V>) {
    Distinct(d.keys) && d.vals.Keys == set k | k in d.keys
  }

  function Empty<K, V>(): (r: Dict<K, V>)
    ensures Valid(r) && r.vals == map[]
  {
    Dict([], map[])
  }

  /** d[k], or the default when k is absent (defaultdict's factory value). */
  function Get<K, V>(d: Dict<K, V>, k: K, default: V): V {
    if k in d.vals then d.vals[k] else default
  }

  /** d[k] = v: a new key goes to the end, an old key keeps its place. */
  function Put<K, V>(d: Dict<K, V>, k: K, v: V): (r: Dict<K, V>)
    ensures Valid(d) ==> Valid(r)
    ensures r.vals == d.vals[k := v]
  {
    if k in d.vals then Dict(d.keys, d.vals[k := v]) else Dict(d.keys + [k], d.vals[k := v])
  }

  /** A Counter: how many times each key was seen. */
  type Counter<K> = Dict<K, nat>

  /** Counter.update([k]): count one more k, and nothing else. */
  function Add<K(!new)>(c: Counter<K>, k: K): (r: Counter<K>)
    ensures Valid(c) ==> Valid(r)
    ensures forall j :: Get(r, j, 0) == Get(c, j, 0) + (if j == k then 1 else 0)
    ensures forall j :: j in r.vals <==> j in c.vals || j == k
  {
    Put(c, k, Get(c, k, 0) + 1)
  }

  /** d[k] = v on a valid dict: a new key goes last, and the old keys keep their places. */
  lemma PutKeys<K, V>(d: Dict<K, V>, k: K, v: V)
    requires Valid(d)
    ensures Put(d, k, v).keys == if k in d.keys then d.keys else d.keys + [k]
  {
  }

  /** Counter.update([k]) on a valid counter: a new key goes last, the old keys keep their places. */
  lemma AddKeys<K(!new)>(c: Counter<K>, k: K)
    requires Valid(c)
    ensures Add(c, k).keys == if k in c.keys then c.keys else c.keys + [k]
  {
    PutKeys(c, k, Get(c, k, 0) + 1);
  }

  /** The sum of the values stored under the given keys. */
  function SumOver<K>(keys: seq<K>, vals: map<K, nat>): nat
    requires forall k :: k in keys ==> k in vals
  {
    if keys == [] then 0 else SumOver(keys[..|keys| - 1], vals) + vals[keys[|keys| - 1]]
  }

  /** sum(c.values()) */
  function Total<K>(c: Counter<K>): nat
    requires Valid(c)
  {
    SumOver(c.keys, c.vals)
  }

  lemma {:induction false} SumOverAgree<K>(keys: seq<K>, m1: map<K, nat>, m2: map<K, nat>)
    requires forall k :: k in keys ==> k in m1 && k in m2 && m1[k] == m2[k]
    ensures SumOver(keys, m1) == SumOver(keys, m2)
  {
    if keys != [] {
      SumOverAgree(keys[..|keys| - 1], m1, m2);
    }
  }

  /** Raising the value of a key listed once raises the sum by as much. */
  lemma {:induction false} SumOverBump<K>(keys: seq<K>, m: map<K, nat>, k: K)
    requires Distinct(keys) && k in keys
    requires forall j :: j in keys ==> j in m
    ensures SumOver(keys, m[k := m[k] + 1]) == SumOver(keys, m) + 1
  {
    var p, x := keys[..|keys| - 1], keys[|keys| - 1];
    if x == k {
      SumOverAgree(p, m, m[k := m[k] + 1]);
    } else {
      assert k in p by { assert k in keys; }
      SumOverBump(p, m, k);
    }
  }

  /** Counting one more item raises the sum of the counts by one. */
  lemma AddTotal<K(!new)>(c: Counter<K>, k: K)
    requires Valid(c)
    ensures Valid(Add(c, k)) && Total(Add(c, k)) == Total(c) + 1
  {
    if k in c.vals {
      SumOverBump(c.keys, c.vals, k);
    } else {
      SumOverAgree(c.keys, c.vals, c.vals[k := 1]);
    }
  }
}
