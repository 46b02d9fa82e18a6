/**
 * The JavaScript `Map` the store keeps its tables in: a finite map from keys to
 * entries that also remembers the order in which keys were first inserted, which
 * is the order `Map.prototype.values()` yields them in.
 */
module OrderedMaps {
  import opened Wrappers

  /** `keys` lists every key once, oldest first; `entries` holds what is stored under each. */
  datatype OrderedMap<K(==,!new), V(!new)> = OrderedMap(keys: seq<K>, entries: map<K, V>)

  ghost predicate NoDuplicates<K>(s: seq<K>)
  {
    forall i, j :: 0 <= i < j < |s| ==> s[i] != s[j]
  }

  /** The insertion list and the map agree on the set of keys, and no key is listed twice. */
  ghost predicate WellFormed<K(!new), V(!new)>(m: OrderedMap<K, V>)
  {
    && NoDuplicates(m.keys)
    && (forall k :: k in m.entries <==> k in m.keys)
  }

  /** `new Map()`. */
  function Empty<K(!new), V(!new)>(): (m: OrderedMap<K, V>)
    ensures WellFormed(m) && m.entries == map[] && m.keys == []
  {
    OrderedMap([], map[])
  }

  /** `m.get(k)`. */
  function Get<K(!new), V(!new)>(m: OrderedMap<K, V>, k: K): (r: Option<V>)
    ensures r.Some? <==> k in m.entries
    ensures r.Some? ==> r.value == m.entries[k]
  {
    if k in m.entries then Some(m.entries[k]) else None
  }

  /** Reading after `set`: the key just set has the new value, every other key is unaffected. */
  lemma GetAfterSet<K(!new), V(!new)>(m: OrderedMap<K, V>, k: K, v: V, j: K)
    requires WellFormed(m)
    ensures Get(Set(m, k, v), j) == if j == k then Some(v) else Get(m, j)
  {
  }

  /** Reading after `delete`: the deleted key is gone, every other key is unaffected. */
  lemma GetAfterDelete<K(!new), V(!new)>(m: OrderedMap<K, V>, k: K, j: K)
    requires WellFormed(m)
    ensures Get(Delete(m, k), j) == if j == k then None else Get(m, j)
  {
  }

  /**
   * `m.set(k, v)`: the entry under `k` becomes `v`; a key already present keeps
   * its place in the iteration order, a new key goes last.
   */
  function Set<K(!new), V(!new)>(m: OrderedMap<K, V>, k: K, v: V): (r: OrderedMap<K, V>)
    requires WellFormed(m)
    ensures WellFormed(r)
    ensures r.entries == m.entries[k := v]
    ensures k in m.entries ==> r.keys == m.keys
    ensures k !in m.entries ==> r.keys == m.keys + [k]
  {
    if k in m.entries then OrderedMap(m.keys, m.entries[k := v])
    else OrderedMap(m.keys + [k], m.entries[k := v])
  }

  /** `s` without the occurrences of `x`, the other elements in their order. */
  function Without<K(==,!new)>(s: seq<K>, x: K): (r: seq<K>)
    ensures forall y :: y in r <==> y in s && y != x
    ensures x !in s ==> r == s
    ensures NoDuplicates(s) ==> NoDuplicates(r)
  {
    if s == [] then []
    else if s[0] == x then Without(s[1..], x)
    else
      var rest := Without(s[1..], x);
      assert NoDuplicates(s) ==> s[0] !in s[1..] && NoDuplicates(s[1..]);
      [s[0]] + rest
  }

  /**
   * `m.delete(k)`: the key and its entry are gone and the other keys keep their
   * order; deleting a missing key changes nothing, so deleting twice is deleting once.
   */
  function Delete<K(!new), V(!new)>(m: OrderedMap<K, V>, k: K): (r: OrderedMap<K, V>)
    requires WellFormed(m)
    ensures WellFormed(r)
    ensures r.entries == m.entries - {k}
    ensures r.keys == Without(m.keys, k)
    ensures k !in m.entries ==> r == m
  {
    OrderedMap(Without(m.keys, k), m.entries - {k})
  }

  /** `Array.from(m.values())`: the entries in the order their keys were inserted. */
  function Values<K(!new), V(!new)>(m: OrderedMap<K, V>): (r: seq<V>)
    requires WellFormed(m)
    ensures |r| == |m.keys| == |m.entries|
    ensures forall i :: 0 <= i < |r| ==> r[i] == m.entries[m.keys[i]]
  {
    DistinctKeysCount(m);
    seq(|m.keys|, i requires 0 <= i < |m.keys| => m.entries[m.keys[i]])
  }

  /** A well-formed map has as many entries as its insertion list has keys. */
  lemma DistinctKeysCount<K(!new), V(!new)>(m: OrderedMap<K, V>)
    requires WellFormed(m)
    ensures |m.entries| == |m.keys|
  {
    assert m.entries.Keys == set k | k in m.keys;
    DistinctCard(m.keys);
  }

  lemma {:induction false} DistinctCard<K>(s: seq<K>)
    requires NoDuplicates(s)
    ensures |set k | k in s| == |s|
  {
    if s != [] {
      DistinctCard(s[1..]);
      assert (set k | k in s) == (set k | k in s[1..]) + {s[0]};
      assert s[0] !in s[1..];
    }
  }
}
