/**
 * Python's `dict` as the script uses it: a table from distinct keys to
 * values that remembers the order in which keys were first inserted.
 * `d[k] = v` on a key already present replaces its value and leaves the key
 * where it stands; on a new key it appends the key. Iteration
 * (`d.items()`) visits the keys in that order.
 */
module OrderedDict {
  import opened Options

  datatype Dict<K(!new), V> = Dict(order: seq<K>, table: map<K, V>)
  {
    /** The dictionary invariant: every key once, in order, and nothing else. */
    ghost predicate Valid()
    {
      (forall i, j :: 0 <= i < j < |order| ==> order[i] != order[j])
      && (forall k :: k in table <==> k in order)
    }
  }

  /** `{}`. */
  function Empty<K(!new), V>(): (d: Dict<K, V>)
    ensures d.Valid() && |d.order| == 0
  {
    Dict([], map[])
  }

  /** `d[k] if k in d else None`. */
  function Get<K(!new), V>(d: Dict<K, V>, k: K): Option<V>
  {
    if k in d.table then Some(d.table[k]) else None
  }

  /** `d[k] = v`. */
  function Set<K(!new), V>(d: Dict<K, V>, k: K, v: V): (r: Dict<K, V>)
    requires d.Valid()
    ensures r.Valid()
    ensures Get(r, k) == Some(v)
    ensures forall k' :: k' != k ==> Get(r, k') == Get(d, k')
    ensures r.order == if k in d.order then d.order else d.order + [k]
  {
    Dict(if k in d.table then d.order else d.order + [k], d.table[k := v])
  }

  /** The i-th item that `d.items()` yields. */
  function Item<K(!new), V>(d: Dict<K, V>, i: nat): (kv: (K, V))
    requires d.Valid() && i < |d.order|
    ensures kv.0 == d.order[i] && Get(d, kv.0) == Some(kv.1)
  {
    (d.order[i], d.table[d.order[i]])
  }
}
