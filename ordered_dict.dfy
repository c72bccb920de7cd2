/**
 * Python's `collections.OrderedDict`: a finite map whose keys are kept in
 * insertion order. Assigning to an existing key replaces its value and keeps
 * its position; assigning to a new key appends it at the end.
 */
module OrderedDicts {

  /** Keys are observable names. */
  type Key = string

  /** The raw representation: the keys in insertion order and the key/value map. */
  datatype Dict<V> = Dict(keys: seq<Key>, entries: map<Key, V>)

  /** No key is listed twice, and the listed keys are exactly the mapped ones. */
  ghost predicate WellFormed<V>(d: Dict<V>)
  {
    && (forall i, j :: 0 <= i < j < |d.keys| ==> d.keys[i] != d.keys[j])
    && (forall k :: k in d.entries <==> k in d.keys)
  }

  type OrderedDict<V> = d: Dict<V> | WellFormed(d) witness Dict([], map[])

  /** `OrderedDict()` */
  function Empty<V>(): (r: OrderedDict<V>)
    ensures r.keys == [] && r.entries == map[]
  {
    Dict([], map[])
  }

  /** `len(d)` */
  function Size<V>(d: OrderedDict<V>): (n: nat)
    ensures n == |d.entries|
  {
    DistinctKeysCount(d.keys, d.entries);
    |d.keys|
  }

  /** `d[k] = v` */
  function Set<V>(d: OrderedDict<V>, k: Key, v: V): (r: OrderedDict<V>)
    ensures k in r.entries && r.entries[k] == v
    ensures forall k' :: k' != k ==> (k' in r.entries <==> k' in d.entries)
    ensures forall k' :: k' != k && k' in d.entries ==> r.entries[k'] == d.entries[k']
    // an existing key keeps its position and the number of keys is unchanged
    ensures k in d.entries ==> r.keys == d.keys
    // a new key goes at the end, after all earlier keys in their order
    ensures k !in d.entries ==> r.keys == d.keys + [k]
  {
    if k in d.entries then
      Dict(d.keys, d.entries[k := v])
    else
      var r := Dict(d.keys + [k], d.entries[k := v]);
      assert forall i :: 0 <= i < |d.keys| ==> r.keys[i] == d.keys[i];
      r
  }

  /** A duplicate-free key list that matches a map's domain has that map's size. */
  lemma {:induction false} DistinctKeysCount<V>(keys: seq<Key>, entries: map<Key, V>)
    requires forall i, j :: 0 <= i < j < |keys| ==> keys[i] != keys[j]
    requires forall k :: k in entries <==> k in keys
    ensures |keys| == |entries|
  {
    if keys == [] {
      assert entries.Keys == {};
    } else {
      var last := keys[|keys| - 1];
      var rest := keys[..|keys| - 1];
      var smaller := entries - {last};
      forall k ensures k in smaller <==> k in rest {
        if k in rest {
          var i :| 0 <= i < |rest| && rest[i] == k;
          assert keys[i] == k && i < |keys| - 1;
        }
        if k in keys && k != last {
          var i :| 0 <= i < |keys| && keys[i] == k;
          assert i != |keys| - 1;
          assert rest[i] == k;
        }
      }
      DistinctKeysCount(rest, smaller);
      assert last in entries;
      assert entries.Keys == smaller.Keys + {last};
    }
  }
}
