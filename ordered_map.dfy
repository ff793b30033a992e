/**
 * An insertion-ordered map, as a JavaScript `Map` behaves under `set` and
 * `values()`: a new key goes to the end, and setting a key that is already
 * present replaces its value and leaves its position alone.
 */
module OrderedMaps {

  datatype OrderedMap<K, V> = OrderedMap(keys: seq<K>, entries: map<K, V>)
  {
    /** Each key is listed once, and exactly the keys of `entries` are listed. */
    ghost predicate Valid()
    {
      && (forall i, j | 0 <= i < j < |keys| :: keys[i] != keys[j])
      && (forall k | k in entries :: k in keys)
      && (forall i | 0 <= i < |keys| :: keys[i] in entries)
    }

    /** `map.set(k, v)`. */
    function Set(k: K, v: V): (r: OrderedMap<K, V>)
      ensures r.entries == entries[k := v]
      ensures k in entries ==> r.keys == keys
      ensures k !in entries ==> r.keys == keys + [k]
      ensures Valid() ==> r.Valid()
    {
      if k in entries then OrderedMap(keys, entries[k := v]) else OrderedMap(keys + [k], entries[k := v])
    }

    /** `[...map.values()]`: the values in key order. */
    function Values(): (vs: seq<V>)
      requires Valid()
      ensures |vs| == |keys|
      ensures forall i | 0 <= i < |keys| :: keys[i] in entries && vs[i] == entries[keys[i]]
    {
      seq(|keys|, i requires 0 <= i < |keys| => entries[keys[i]])
    }
  }

  /**
   * The keys that setting each of `ks` in turn appends to a map whose keys are
   * `keys`: every key not yet present, once, in order of first occurrence.
   */
  function NewKeys<K(==)>(keys: seq<K>, ks: seq<K>): (added: seq<K>)
    ensures forall k | k in added :: k in ks && k !in keys
    ensures forall k | k in ks && k !in keys :: k in added
    ensures forall i, j | 0 <= i < j < |added| :: added[i] != added[j]
    decreases |ks|
  {
    if ks == [] then []
    else
      var prior := NewKeys(keys, ks[..|ks| - 1]);
      var k := ks[|ks| - 1];
      assert forall x | x in ks :: x in ks[..|ks| - 1] || x == k;
      if k in keys || k in prior then prior else prior + [k]
  }

  /** Setting one more key extends the keys appended so far by that key, if it is new. */
  lemma SetNewKeys<K, V>(m: OrderedMap<K, V>, keys: seq<K>, ks: seq<K>, k: K, v: V)
    requires m.Valid() && m.keys == keys + NewKeys(keys, ks)
    ensures m.Set(k, v).keys == keys + NewKeys(keys, ks + [k])
  {
    assert (ks + [k])[..|ks|] == ks;
    var added := NewKeys(keys, ks);
    if k in m.keys {
      var i :| 0 <= i < |m.keys| && m.keys[i] == k;
    }
    assert k in m.entries <==> k in keys || k in added;
    if k !in keys && k !in added {
      assert keys + (added + [k]) == (keys + added) + [k];
    }
  }

  function Empty<K, V>(): (m: OrderedMap<K, V>)
    ensures m.Valid() && m.keys == [] && m.entries == map[]
  {
    OrderedMap([], map[])
  }

  /**
   * Setting a present key replaces its value in place in the value list;
   * setting a new key appends its value.
   */
  lemma SetValues<K, V>(m: OrderedMap<K, V>, k: K, v: V)
    requires m.Valid()
    ensures k in m.entries ==>
              |m.Set(k, v).Values()| == |m.Values()| &&
              forall i | 0 <= i < |m.keys| ::
                m.Set(k, v).Values()[i] == if m.keys[i] == k then v else m.Values()[i]
    ensures k !in m.entries ==> m.Set(k, v).Values() == m.Values() + [v]
  {
    var r := m.Set(k, v);
    if k !in m.entries {
      assert r.Values() == m.Values() + [v];
    }
  }
}
