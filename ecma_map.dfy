/**
 * An ECMAScript `Map`, reduced to what the grouping strategies use: `get` and
 * `set` on an insertion-ordered dictionary. Iteration order is the order in
 * which keys were first added (ECMA-262, section 24.1.3.9: `set` on a key that
 * is already present overwrites the value in its existing record, and only a
 * new key appends a record at the end).
 *
 * The map is a value: `keys` is the iteration order and `entries` the values.
 */
module OrderedMaps {
  import opened Wrappers

  /** No element is listed twice. */
  ghost predicate Distinct<T>(s: seq<T>) {
    forall i, j :: 0 <= i < j < |s| ==> s[i] != s[j]
  }

  datatype OrderedMap<K(==, !new), V> = OrderedMap(keys: seq<K>, entries: map<K, V>)
  {
    /** Keys are listed once each, and exactly the keys that have a value. */
    ghost predicate Valid() {
      && Distinct(keys)
      && (forall k :: k in entries <==> k in keys)
    }

    /** `Map.prototype.get`: the value under `k`, or nothing. */
    function Get(k: K): (r: Option<V>)
      ensures r.Some? <==> k in entries
      ensures r.Some? ==> r.value == entries[k]
    {
      if k in entries then Some(entries[k]) else None
    }

    /**
     * `Map.prototype.set`: afterwards `k` maps to `v` and every other key keeps
     * its value; a key already present keeps its place in the order, and a new
     * key goes last.
     */
    function Set(k: K, v: V): (r: OrderedMap<K, V>)
      requires Valid()
      ensures r.Valid()
      ensures r.Get(k) == Some(v)
      ensures forall k' :: k' != k ==> r.Get(k') == Get(k')
      ensures k in keys ==> r.keys == keys
      ensures k !in keys ==> r.keys == keys + [k]
    {
      if k in entries then OrderedMap(keys, entries[k := v])
      else OrderedMap(keys + [k], entries[k := v])
    }
  }

  /** `new Map()`. */
  function Empty<K(==, !new), V>(): (m: OrderedMap<K, V>)
    ensures m.Valid()
    ensures m.keys == []
    ensures forall k :: m.Get(k).None?
  {
    OrderedMap([], map[])
  }
}
