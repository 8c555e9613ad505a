/**
 * A JavaScript `Map`: entries keyed by value, iterated in the order their
 * keys were first inserted. `set` on a key already present replaces the
 * value and keeps the key where it was.
 */
module OrderedMap {
  import opened Wrappers

  predicate NoDuplicates<K(==)>(s: seq<K>)
  {
    forall i, j :: 0 <= i < j < |s| ==> s[i] != s[j]
  }

  /** `order` lists the keys in insertion order; `entries` holds the values. */
  datatype OMap<K(==,!new), V> = OMap(order: seq<K>, entries: map<K, V>)
  {
    ghost predicate Valid()
    {
      NoDuplicates(order) && (forall k :: k in entries <==> k in order)
    }

    /** `m.set(k, v)`. */
    function Set(k: K, v: V): (r: OMap<K, V>)
      requires Valid()
      ensures r.Valid()
      ensures r.entries == entries[k := v]
      ensures k in entries ==> r.order == order
      ensures k !in entries ==> r.order == order + [k]
    {
      OMap(if k in entries then order else order + [k], entries[k := v])
    }

    /** `m.get(k)`, with a missing key as `None`. */
    function Get(k: K): (r: Option<V>)
      ensures r.Some? <==> k in entries
      ensures r.Some? ==> r.value == entries[k]
    {
      if k in entries then Some(entries[k]) else None
    }

    /** `Array.from(m.values())`: the values, in key insertion order. */
    function Values(): (r: seq<V>)
      requires Valid()
      ensures |r| == |order|
      ensures forall i :: 0 <= i < |order| ==> r[i] == entries[order[i]]
    {
      seq(|order|, i requires 0 <= i < |order| => entries[order[i]])
    }
  }

  /** `get` after `set`: the key just set reads back its new value, every
      other key reads what it read before. */
  lemma GetAfterSet<K(!new), V>(m: OMap<K, V>, k: K, v: V, k2: K)
    requires m.Valid()
    ensures m.Set(k, v).Get(k2) == if k2 == k then Some(v) else m.Get(k2)
  {
  }

  /** `values()` after `set`: a new key appends its value at the end; a known
      key at position `i` has its value replaced in place, and no other value
      moves. */
  lemma {:induction false} ValuesAfterSet<K(!new), V>(m: OMap<K, V>, k: K, v: V)
    requires m.Valid()
    ensures k !in m.entries ==> m.Set(k, v).Values() == m.Values() + [v]
    ensures forall i :: 0 <= i < |m.order| && m.order[i] == k ==>
              m.Set(k, v).Values() == m.Values()[i := v]
  {
    var r := m.Set(k, v);
    if k !in m.entries {
      assert |r.Values()| == |m.Values()| + 1;
      forall i | 0 <= i < |r.order| ensures r.Values()[i] == (m.Values() + [v])[i] {
        if i < |m.order| {
          assert r.order[i] == m.order[i] && m.order[i] != k;
        }
      }
    } else {
      forall i | 0 <= i < |m.order| && m.order[i] == k ensures r.Values() == m.Values()[i := v] {
        forall j | 0 <= j < |m.order| ensures r.Values()[j] == m.Values()[i := v][j] {
          if j != i {
            assert m.order[j] != k;
          }
        }
      }
    }
  }

  /** `new Map()`. */
  function Empty<K(==,!new), V>(): (r: OMap<K, V>)
    ensures r.Valid() && r.order == [] && r.entries == map[]
  {
    OMap([], map[])
  }
}
