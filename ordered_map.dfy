/**
  A string-keyed map that remembers the order its keys were first set in,
  as a JavaScript `Map` does, and an object does for keys that are not
  integer-like: a new key goes last, and setting an existing key replaces
  its value in place.
  It is the list of keys in that order together with the key-value map.
 */
module OrderedMaps {
  datatype Mapping = Mapping(keys: seq<string>, values: map<string, string>)

  /** Every key is listed once, and the listed keys are the keys of the map. */
  ghost predicate Valid(m: Mapping) {
    && (forall i, j :: 0 <= i < j < |m.keys| ==> m.keys[i] != m.keys[j])
    && (forall k :: k in m.values <==> k in m.keys)
  }

  type OrderedMap = m: Mapping | Valid(m) witness Mapping([], map[])

  const Empty: OrderedMap := Mapping([], map[])

  /** `m[key] = value` or `m.set(key, value)`: a new key goes last, an existing key keeps its place. */
  function Insert(m: OrderedMap, key: string, value: string): (r: OrderedMap)
    ensures r.values == m.values[key := value]
    ensures key in m.values ==> r.keys == m.keys
    ensures key !in m.values ==> r.keys == m.keys + [key]
  {
    if key in m.values then Mapping(m.keys, m.values[key := value])
    else Mapping(m.keys + [key], m.values[key := value])
  }

  /** `Map.prototype.values()`: the values, in the order of their keys. */
  function Values(m: OrderedMap): (r: seq<string>)
    ensures |r| == |m.keys|
    ensures forall k :: 0 <= k < |r| ==> r[k] == m.values[m.keys[k]]
  {
    seq(|m.keys|, k requires 0 <= k < |m.keys| => m.values[m.keys[k]])
  }

  /** There are as many listed keys as keys in the map. */
  lemma KeyCount(m: OrderedMap)
    ensures |m.keys| == |m.values|
  {
    DistinctKeysCount(m.keys, m.values);
  }

  /** Removing a present key leaves one entry fewer. */
  lemma RemoveKeyCount(m: map<string, string>, k: string)
    requires k in m
    ensures |m - {k}| + 1 == |m|
  {
    assert m.Keys == (m - {k}).Keys + {k};
  }

  lemma {:induction false} DistinctKeysCount(keys: seq<string>, values: map<string, string>)
    requires forall i, j :: 0 <= i < j < |keys| ==> keys[i] != keys[j]
    requires forall k :: k in values <==> k in keys
    ensures |keys| == |values|
  {
    if keys != [] {
      var last := keys[|keys| - 1];
      var front := keys[..|keys| - 1];
      assert last !in front;
      assert keys == front + [last];
      DistinctKeysCount(front, values - {last});
      RemoveKeyCount(values, last);
    } else {
      assert values.Keys == {};
    }
  }
}
