/**
 * A finite map that remembers the order in which its keys were first
 * inserted, as a JavaScript `Map` does and as a plain object does for
 * non-index string keys. Setting a key that is already present replaces its
 * value and keeps its position; setting a new key appends it.
 */
module OrderedMaps {

  datatype OrderedMap<K(==, !new), V> = OrderedMap(keys: seq<K>, entries: map<K, V>) {

    /** The key sequence lists every key of the map exactly once. */
    ghost predicate Valid() {
      && (forall i, j :: 0 <= i < j < |keys| ==> keys[i] != keys[j])
      && (forall k :: k in entries <==> k in keys)
    }

    /** `map.set(k, v)` / `object[k] = v`. */
    function Set(k: K, v: V): (r: OrderedMap<K, V>)
      ensures k in r.entries && r.entries[k] == v
      ensures forall k' :: k' != k ==> (k' in r.entries <==> k' in entries)
      ensures forall k' :: k' != k && k' in entries ==> r.entries[k'] == entries[k']
      ensures k in entries ==> r.keys == keys
      ensures k !in entries ==> r.keys == keys + [k]
    {
      if k in entries then OrderedMap(keys, entries[k := v])
      else OrderedMap(keys + [k], entries[k := v])
    }

    /** `Array.from(map.values())`: the values in key order. */
    function Values(): (vs: seq<V>)
      requires Valid()
      ensures |vs| == |keys|
      ensures forall i :: 0 <= i < |keys| ==> keys[i] in entries && vs[i] == entries[keys[i]]
    {
      seq(|keys|, i requires 0 <= i < |keys| => entries[keys[i]])
    }
  }

  /** `new Map()` / `{}`. */
  function Empty<K(==, !new), V>(): (m: OrderedMap<K, V>)
    ensures m.Valid() && m.keys == [] && m.entries == map[]
  {
    OrderedMap([], map[])
  }

  /** Setting a key keeps the map well formed. */
  lemma SetValid<K(!new), V>(m: OrderedMap<K, V>, k: K, v: V)
    requires m.Valid()
    ensures m.Set(k, v).Valid()
  {
    var r := m.Set(k, v);
    if k !in m.entries {
      assert forall i :: 0 <= i < |m.keys| ==> m.keys[i] != k;
      assert forall i :: 0 <= i < |m.keys| ==> r.keys[i] == m.keys[i];
    }
  }

  /** Setting the same key to the same value twice is the same as once. */
  lemma SetIdempotent<K(!new), V>(m: OrderedMap<K, V>, k: K, v: V)
    ensures m.Set(k, v).Set(k, v) == m.Set(k, v)
  {
  }

  /**
   * The effect of a set on the ordered values: an existing key keeps its
   * position and only its value changes; a new key's value goes last.
   */
  lemma SetValues<K(!new), V>(m: OrderedMap<K, V>, k: K, v: V)
    requires m.Valid()
    ensures m.Set(k, v).Valid()
    ensures k !in m.entries ==> m.Set(k, v).Values() == m.Values() + [v]
    ensures k in m.entries ==>
      && |m.Set(k, v).Values()| == |m.Values()|
      && forall i :: 0 <= i < |m.keys| ==>
           m.Set(k, v).Values()[i] == if m.keys[i] == k then v else m.Values()[i]
  {
    SetValid(m, k, v);
    var r := m.Set(k, v);
    if k !in m.entries {
      assert forall i :: 0 <= i < |m.keys| ==> m.keys[i] != k;
      assert r.Values() == m.Values() + [v];
    }
  }
}
