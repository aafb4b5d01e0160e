/**
 * A Python `dict`: a finite map that remembers the order in which its keys
 * were first inserted. The order is observable in the tokenizer: `max` and
 * `min` over a dict return the first best key, and `save` writes the
 * merges in dict order.
 */
module PyDict {

  datatype Dict<K(==), V> = Dict(keys: seq<K>, items: map<K, V>)

  /** Each key is listed once, and the listed keys are exactly the mapped ones. */
  ghost predicate Valid<K(!new), V>(d: Dict<K, V>) {
    (forall i, j :: 0 <= i < j < |d.keys| ==> d.keys[i] != d.keys[j]) &&
    (forall k :: k in d.items <==> k in d.keys)
  }

  function Empty<K(==, !new), V>(): (d: Dict<K, V>)
    ensures Valid(d) && d.keys == [] && d.items == map[]
  {
    Dict([], map[])
  }

  /** `d[k] = v`: a new key goes last, an existing key keeps its place. */
  function Put<K(==, !new), V>(d: Dict<K, V>, k: K, v: V): (d': Dict<K, V>)
    requires Valid(d)
    ensures Valid(d')
    ensures d'.items == d.items[k := v]
    ensures k in d.items ==> d'.keys == d.keys
    ensures k !in d.items ==> d'.keys == d.keys + [k]
  {
    if k in d.items then Dict(d.keys, d.items[k := v]) else Dict(d.keys + [k], d.items[k := v])
  }

  /** Two dicts with the same keys in the same order and the same value at each key are equal. */
  lemma Extensional<K(!new), V>(a: Dict<K, V>, b: Dict<K, V>)
    requires Valid(a) && Valid(b) && a.keys == b.keys
    requires forall i :: 0 <= i < |a.keys| ==> a.items[a.keys[i]] == b.items[a.keys[i]]
    ensures a == b
  {
    forall k | k in a.items
      ensures k in b.items && a.items[k] == b.items[k]
    {
      var i := IndexOf(a, k);
    }
    assert a.items == b.items;
  }

  /** The position of a key in insertion order. */
  function IndexOf<K(==, !new), V>(d: Dict<K, V>, k: K): (i: nat)
    requires Valid(d) && k in d.items
    ensures i < |d.keys| && d.keys[i] == k
  {
    IndexIn(d.keys, k)
  }

  function IndexIn<K(==)>(s: seq<K>, k: K): (i: nat)
    requires k in s
    ensures i < |s| && s[i] == k
  {
    if s[0] == k then 0 else 1 + IndexIn(s[1..], k)
  }
}
