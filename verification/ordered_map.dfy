/** The JavaScript `Map` the registry stores its rooms in: a finite map that
    also remembers the order in which its keys were first inserted, which is
    the order `values()` and `entries()` iterate in. */
module OrderedMaps {
  import opened Wrappers
  import opened Sequences

  datatype OMap<K(==), V> = OMap(order: seq<K>, entries: map<K, V>)

  /** The Map's own invariant: the order lists every key exactly once. */
  predicate Ordered<K(!new), V>(m: OMap<K, V>) {
    && NoDuplicates(m.order)
    && (forall k :: k in m.order ==> k in m.entries)
    && (forall k :: k in m.entries ==> k in m.order)
  }

  type OrderedMap<K(!new), V> = m: OMap<K, V> | Ordered(m) witness OMap([], map[])

  /** `new Map()`. */
  function EmptyMap<K(!new), V>(): (m: OrderedMap<K, V>)
    ensures m.entries == map[]
  {
    OMap([], map[])
  }

  /** `map.get(k)`. */
  function Get<K(!new), V>(m: OrderedMap<K, V>, k: K): (r: Option<V>)
    ensures r.Some? <==> k in m.entries
    ensures r.Some? ==> r.value == m.entries[k]
  {
    if k in m.entries then Some(m.entries[k]) else None
  }

  /** `map.set(k, v)`: a new key goes to the end of the iteration order, an
      existing key keeps its place and only its value changes. */
  function Set<K(!new), V>(m: OrderedMap<K, V>, k: K, v: V): (r: OrderedMap<K, V>)
    ensures r.entries == m.entries[k := v]
    ensures k in m.entries ==> r.order == m.order
    ensures k !in m.entries ==> r.order == m.order + [k]
  {
    if k in m.entries then
      OMap(m.order, m.entries[k := v])
    else
      assert NoDuplicates(m.order + [k]) by {
        forall i, j | 0 <= i < j < |m.order + [k]|
          ensures (m.order + [k])[i] != (m.order + [k])[j]
        {
          if j == |m.order| {
            assert m.order[i] in m.order;
          }
        }
      }
      OMap(m.order + [k], m.entries[k := v])
  }

  /** `map.delete(k)`: the key leaves both the entries and the order; the
      other keys keep their relative order. */
  function Delete<K(!new), V>(m: OrderedMap<K, V>, k: K): (r: OrderedMap<K, V>)
    ensures r.entries == m.entries - {k}
    ensures r.order == Restrict(m.order, m.entries.Keys - {k})
  {
    WithoutIsRestrict(m.order, m.entries.Keys, k);
    OMap(Without(m.order, k), m.entries - {k})
  }

  /** `Array.from(map.values())`: the values in key order. */
  function Values<K(!new), V>(m: OrderedMap<K, V>): (r: seq<V>)
    ensures |r| == |m.order|
    ensures forall i :: 0 <= i < |r| ==> r[i] == m.entries[m.order[i]]
  {
    seq(|m.order|, i requires 0 <= i < |m.order| => m.entries[m.order[i]])
  }
}
