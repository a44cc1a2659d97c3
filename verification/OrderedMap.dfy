// A JavaScript Map: entries in insertion order, updates in place.
module OrderedMap {
  import opened Numbers

  type Entries<K, V> = seq<(K, V)>

  function Get<K(==), V>(m: Entries<K, V>, k: K): Option<V> {
    if m == [] then None
    else if m[0].0 == k then Some(m[0].1)
    else Get(m[1..], k)
  }

  function GetOr<K(==), V>(m: Entries<K, V>, k: K, default: V): V {
    match Get(m, k)
    case Some(v) => v
    case None => default
  }

  function Put<K(==), V>(m: Entries<K, V>, k: K, v: V): Entries<K, V> {
    if m == [] then [(k, v)]
    else if m[0].0 == k then [(k, v)] + m[1..]
    else [m[0]] + Put(m[1..], k, v)
  }

  /** The keys in insertion order. */
  function Keys<K, V>(m: Entries<K, V>): (ks: seq<K>)
    ensures |ks| == |m| && forall i :: 0 <= i < |m| ==> ks[i] == m[i].0
  {
    if m == [] then [] else [m[0].0] + Keys(m[1..])
  }

  ghost predicate Distinct<K>(ks: seq<K>) {
    forall i, j :: 0 <= i < j < |ks| ==> ks[i] != ks[j]
  }

  lemma {:induction false} GetPut<K, V>(m: Entries<K, V>, k: K, v: V, q: K)
    ensures Get(Put(m, k, v), q) == if q == k then Some(v) else Get(m, q)
  {
    if m != [] && m[0].0 != k {
      GetPut(m[1..], k, v, q);
    }
  }

  /** A new key goes last, a known one keeps its place. */
  lemma {:induction false} KeysPut<K, V>(m: Entries<K, V>, k: K, v: V)
    ensures Keys(Put(m, k, v)) == if k in Keys(m) then Keys(m) else Keys(m) + [k]
  {
    if m != [] && m[0].0 != k {
      KeysPut(m[1..], k, v);
    }
  }

  lemma KeyInPut<K, V>(m: Entries<K, V>, k: K, v: V, q: K)
    ensures q in Keys(Put(m, k, v)) <==> q in Keys(m) || q == k
  {
    KeysPut(m, k, v);
  }

  lemma {:induction false} GetIsKey<K, V>(m: Entries<K, V>, k: K)
    ensures Get(m, k).Some? <==> k in Keys(m)
  {
    if m != [] {
      GetIsKey(m[1..], k);
    }
  }

  lemma {:induction false} GetAt<K, V>(m: Entries<K, V>, i: nat)
    requires Distinct(Keys(m)) && i < |m|
    ensures Get(m, m[i].0) == Some(m[i].1)
  {
    if i > 0 {
      assert Keys(m)[0] != Keys(m)[i];
      assert Keys(m)[1..] == Keys(m[1..]);
      forall a, b | 0 <= a < b < |m[1..]| ensures Keys(m[1..])[a] != Keys(m[1..])[b] {
        assert Keys(m)[a + 1] != Keys(m)[b + 1];
      }
      GetAt(m[1..], i - 1);
    }
  }

  lemma PutDistinct<K, V>(m: Entries<K, V>, k: K, v: V)
    requires Distinct(Keys(m))
    ensures Distinct(Keys(Put(m, k, v)))
  {
    KeysPut(m, k, v);
  }

  lemma KeysTake<K, V>(m: Entries<K, V>, n: nat)
    requires n <= |m|
    ensures Keys(m[..n]) == Keys(m)[..n]
  {
    hide Keys;
  }

  lemma DistinctLast<K, V>(m: Entries<K, V>, i: nat)
    requires Distinct(Keys(m)) && i < |m| - 1
    ensures m[i].0 != m[|m| - 1].0
  {
    hide Keys;
    assert Keys(m)[i] != Keys(m)[|m| - 1];
  }
}
