/**
 * Python dictionaries as the analysis uses them: insertion-ordered,
 * assignment to an existing key keeps the key's position, assignment to
 * a new key appends it. A dictionary is a list of key/value pairs.
 */
module Dicts {
  import opened Wrappers

  function DictKeys<K, V>(d: seq<(K, V)>): (r: seq<K>)
    ensures |r| == |d|
    ensures forall i :: 0 <= i < |d| ==> r[i] == d[i].0
  {
    seq(|d|, i requires 0 <= i < |d| => d[i].0)
  }

  predicate DistinctKeys<K(==), V>(d: seq<(K, V)>) {
    forall i, j :: 0 <= i < j < |d| ==> d[i].0 != d[j].0
  }

  /** The position of the first occurrence of `k`. */
  function IndexOf<K(==)>(keys: seq<K>, k: K): (i: nat)
    requires k in keys
    ensures i < |keys| && keys[i] == k
    ensures forall j :: 0 <= j < i ==> keys[j] != k
  {
    if keys[0] == k then 0 else 1 + IndexOf(keys[1..], k)
  }

  lemma IndexOfAppend<K>(keys: seq<K>, extra: K, k: K)
    requires k in keys
    ensures k in keys + [extra] && IndexOf(keys + [extra], k) == IndexOf(keys, k)
  {
    var i, j := IndexOf(keys, k), IndexOf(keys + [extra], k);
    assert (keys + [extra])[i] == k;
    assert j <= i;
    assert keys[j] == k;
  }

  /** `d.get(k)`. */
  function Get<K(==), V>(d: seq<(K, V)>, k: K): (r: Option<V>)
    ensures r.None? <==> k !in DictKeys(d)
    ensures r.Some? ==> (k, r.value) in d
  {
    var keys := DictKeys(d);
    if k in keys then Some(d[IndexOf(keys, k)].1) else None
  }

  /** `d[k] = v`. */
  function Put<K(==), V>(d: seq<(K, V)>, k: K, v: V): (r: seq<(K, V)>)
    ensures DictKeys(r) == if k in DictKeys(d) then DictKeys(d) else DictKeys(d) + [k]
    ensures Get(r, k) == Some(v)
    ensures forall k' :: k' in DictKeys(d) && k' != k ==> Get(r, k') == Get(d, k')
    ensures DistinctKeys(d) ==> DistinctKeys(r)
  {
    var keys := DictKeys(d);
    if k in keys then
      var r := d[IndexOf(keys, k) := (k, v)];
      assert DictKeys(r) == keys;
      r
    else
      var r := d + [(k, v)];
      assert DictKeys(r) == keys + [k];
      forall k' | k' in keys ensures IndexOf(keys + [k], k') == IndexOf(keys, k') {
        IndexOfAppend(keys, k, k');
      }
      r
  }
}
