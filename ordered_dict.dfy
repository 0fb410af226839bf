/**
 * An insertion-ordered dictionary, as a Python `dict` behaves: a sequence of
 * (key, value) entries in the order they were inserted, each key at most once.
 * Iterating over `.keys()` or `.values()` visits the entries in that order.
 */
module OrderedDict {
  import opened Wrappers

  type Dict<K, V> = seq<(K, V)>

  /** No key is stored twice: what makes a sequence of pairs a dictionary. */
  predicate DistinctKeys<K(==), V>(d: Dict<K, V>) {
    forall i, j :: 0 <= i < j < |d| ==> d[i].0 != d[j].0
  }

  /** `list(d.keys())`: the keys, in insertion order. */
  function Keys<K, V>(d: Dict<K, V>): (ks: seq<K>)
    ensures |ks| == |d|
    ensures forall i :: 0 <= i < |d| ==> ks[i] == d[i].0
  {
    if d == [] then [] else [d[0].0] + Keys(d[1..])
  }

  /** `list(d.values())`: the values, in insertion order. */
  function Values<K, V>(d: Dict<K, V>): (vs: seq<V>)
    ensures |vs| == |d|
    ensures forall i :: 0 <= i < |d| ==> vs[i] == d[i].1
  {
    if d == [] then [] else [d[0].1] + Values(d[1..])
  }

  /** `d.get(k)`: the value stored under `k`, if any. */
  function Get<K(==), V>(d: Dict<K, V>, k: K): (r: Option<V>)
    ensures r.Some? ==> exists i :: 0 <= i < |d| && d[i] == (k, r.value)
    ensures r.None? ==> forall i :: 0 <= i < |d| ==> d[i].0 != k
  {
    if d == [] then None
    else if d[0].0 == k then Some(d[0].1)
    else Get(d[1..], k)
  }

  /** In a dictionary, the i-th key retrieves exactly the i-th value. */
  lemma GetAt<K, V>(d: Dict<K, V>, i: nat)
    requires DistinctKeys(d)
    requires i < |d|
    ensures Get(d, d[i].0) == Some(d[i].1)
  {
    if i > 0 {
      assert d[0].0 != d[i].0;
      assert DistinctKeys(d[1..]) by {
        forall a, b | 0 <= a < b < |d[1..]| ensures d[1..][a].0 != d[1..][b].0 {
          assert d[1..][a] == d[a + 1] && d[1..][b] == d[b + 1];
        }
      }
      assert d[1..][i - 1] == d[i];
      GetAt(d[1..], i - 1);
    }
  }

  /** A key is found exactly when it is one of the listed keys. */
  lemma GetSomeIffKey<K, V>(d: Dict<K, V>, k: K)
    ensures Get(d, k).Some? <==> k in Keys(d)
  {
  }

  /** The keys and the values, paired up index by index, give the dictionary back. */
  lemma ZipKeysValues<K, V>(d: Dict<K, V>)
    ensures seq(|d|, i requires 0 <= i < |d| => (Keys(d)[i], Values(d)[i])) == d
  {
    var ks, vs := Keys(d), Values(d);
    var z := seq(|d|, i requires 0 <= i < |d| => (ks[i], vs[i]));
    forall i | 0 <= i < |d| ensures z[i] == d[i] {
      assert z[i] == (ks[i], vs[i]) == (d[i].0, d[i].1);
    }
  }
}
