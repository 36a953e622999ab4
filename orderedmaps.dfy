/** A JavaScript `Map`: values by key, and the keys in the order of their first insertion,
    which is the order `Map.prototype.values()` visits them in. */
module OrderedMaps {
  import opened Base

  datatype OrderedMap<K(==), V> = OrderedMap(keys: seq<K>, vals: map<K, V>)

  /** Keys are listed once each, and exactly the keys that have a value are listed. */
  ghost predicate Valid<K, V>(m: OrderedMap<K, V>) {
    (forall i, j :: 0 <= i < j < |m.keys| ==> m.keys[i] != m.keys[j])
    && (forall k :: k in m.keys ==> k in m.vals)
    && (forall k :: k in m.vals ==> k in m.keys)
  }

  /** `new Map()`. */
  function Empty<K(==), V>(): (m: OrderedMap<K, V>)
    ensures Valid(m) && m.keys == []
  {
    OrderedMap([], map[])
  }

  /** `m.get(k)`, with `None` for `undefined`. */
  function Get<K(==), V>(m: OrderedMap<K, V>, k: K): Option<V> {
    if k in m.vals then Some(m.vals[k]) else None
  }

  /** `m.set(k, v)`: a new key goes last, an existing one keeps its place. */
  function Set<K(==), V>(m: OrderedMap<K, V>, k: K, v: V): OrderedMap<K, V> {
    if k in m.vals then OrderedMap(m.keys, m.vals[k := v])
    else OrderedMap(m.keys + [k], m.vals[k := v])
  }

  /** `Array.from(m.values())`. */
  function Values<K(==), V>(m: OrderedMap<K, V>): (vs: seq<V>)
    requires Valid(m)
    ensures |vs| == |m.keys|
  {
    ValuesOf(m.keys, m.vals)
  }

  function ValuesOf<K(==), V>(keys: seq<K>, vals: map<K, V>): (vs: seq<V>)
    requires forall k :: k in keys ==> k in vals
    ensures |vs| == |keys|
  {
    if keys == [] then [] else ValuesOf(keys[..|keys| - 1], vals) + [vals[keys[|keys| - 1]]]
  }

  /** The value at each position is the value of the key at that position. */
  lemma {:induction false} ValuesOfAt<K, V>(keys: seq<K>, vals: map<K, V>, i: nat)
    requires forall k :: k in keys ==> k in vals
    requires i < |keys|
    ensures ValuesOf(keys, vals)[i] == vals[keys[i]]
  {
    if i < |keys| - 1 {
      var init := keys[..|keys| - 1];
      assert init[i] == keys[i];
      ValuesOfAt(init, vals, i);
    }
  }

  /** Values of keys that are untouched do not change. */
  lemma {:induction false} ValuesOfFrame<K, V>(keys: seq<K>, vals: map<K, V>, k: K, v: V)
    requires forall x :: x in keys ==> x in vals
    requires k !in keys
    ensures ValuesOf(keys, vals[k := v]) == ValuesOf(keys, vals)
  {
    if keys != [] {
      ValuesOfFrame(keys[..|keys| - 1], vals, k, v);
    }
  }

  /** `set` keeps the map well formed, and `get` sees the new binding and only it. */
  lemma {:induction false} SetGet<K, V>(m: OrderedMap<K, V>, k: K, v: V)
    requires Valid(m)
    ensures Valid(Set(m, k, v))
    ensures forall x :: Get(Set(m, k, v), x) == if x == k then Some(v) else Get(m, x)
  {
  }

  /** Setting a key the map does not have appends its value to `values()`. */
  lemma {:induction false} SetFreshValues<K, V>(m: OrderedMap<K, V>, k: K, v: V)
    requires Valid(m) && Get(m, k).None?
    ensures Valid(Set(m, k, v))
    ensures Values(Set(m, k, v)) == Values(m) + [v]
  {
    var m' := Set(m, k, v);
    SetGet(m, k, v);
    assert m'.keys[..|m'.keys| - 1] == m.keys;
    ValuesOfFrame(m.keys, m.vals, k, v);
  }
}
