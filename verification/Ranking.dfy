// The array sort of the language runtime: stable, ascending by a numeric key.
// (A comparator b.k - a.k is an ascending sort by -k.)
module Ranking {

  ghost predicate SortedBy<T(!new)>(s: seq<T>, key: T -> real) {
    forall i, j :: 0 <= i < j < |s| ==> key(s[i]) <= key(s[j])
  }

  /** The elements of one key, in order: what stability preserves. */
  ghost function WithKey<T(!new)>(s: seq<T>, key: T -> real, k: real): seq<T> {
    if s == [] then []
    else WithKey(s[..|s| - 1], key, k) + if key(s[|s| - 1]) == k then [s[|s| - 1]] else []
  }

  /** Places x after every element whose key is at most its own. */
  function Insert<T(!new)>(s: seq<T>, x: T, key: T -> real): (r: seq<T>)
    ensures multiset(r) == multiset(s) + multiset{x}
    ensures |r| == |s| + 1
  {
    if s == [] then [x]
    else
      var n := |s| - 1;
      assert s == s[..n] + [s[n]];
      if key(s[n]) <= key(x) then s + [x] else Insert(s[..n], x, key) + [s[n]]
  }

  function SortBy<T(!new)>(s: seq<T>, key: T -> real): (r: seq<T>)
    ensures multiset(r) == multiset(s)
    ensures |r| == |s|
  {
    if s == [] then []
    else
      assert s == s[..|s| - 1] + [s[|s| - 1]];
      Insert(SortBy(s[..|s| - 1], key), s[|s| - 1], key)
  }

  lemma {:induction false} InsertSorted<T(!new)>(s: seq<T>, x: T, key: T -> real)
    requires SortedBy(s, key)
    ensures SortedBy(Insert(s, x, key), key)
  {
    if s != [] && !(key(s[|s| - 1]) <= key(x)) {
      var n := |s| - 1;
      var r := Insert(s[..n], x, key);
      InsertSorted(s[..n], x, key);
      forall i | 0 <= i < |r| ensures key(r[i]) <= key(s[n]) {
        assert r[i] in multiset(r);
        assert r[i] in multiset(s[..n]) || r[i] == x;
      }
    }
  }

  lemma {:induction false} SortSorted<T(!new)>(s: seq<T>, key: T -> real)
    ensures SortedBy(SortBy(s, key), key)
  {
    if s != [] {
      SortSorted(s[..|s| - 1], key);
      InsertSorted(SortBy(s[..|s| - 1], key), s[|s| - 1], key);
    }
  }

  lemma WithKeyAppend<T(!new)>(s: seq<T>, x: T, key: T -> real, k: real)
    ensures WithKey(s + [x], key, k) == WithKey(s, key, k) + if key(x) == k then [x] else []
  {
    assert (s + [x])[..|s|] == s;
  }

  lemma {:induction false} WithKeyEmpty<T(!new)>(s: seq<T>, key: T -> real, k: real)
    ensures WithKey(s, key, k) == [] <==> forall x :: x in s ==> key(x) != k
  {
    if s != [] {
      var n := |s| - 1;
      assert s == s[..n] + [s[n]];
      WithKeyEmpty(s[..n], key, k);
    }
  }

  lemma LastHasKey<T(!new)>(s: seq<T>, key: T -> real)
    ensures s == [] || WithKey(s, key, key(s[|s| - 1])) != []
  {}

  lemma {:induction false} InsertStable<T(!new)>(s: seq<T>, x: T, key: T -> real, k: real)
    requires SortedBy(s, key)
    ensures WithKey(Insert(s, x, key), key, k) == WithKey(s + [x], key, k)
  {
    if s != [] && !(key(s[|s| - 1]) <= key(x)) {
      var n := |s| - 1;
      assert s == s[..n] + [s[n]];
      InsertStable(s[..n], x, key, k);
      WithKeyAppend(Insert(s[..n], x, key), s[n], key, k);
      WithKeyAppend(s[..n], x, key, k);
      WithKeyAppend(s, x, key, k);
    } else if s == [] {
      assert s + [x] == [x];
    }
  }

  lemma {:induction false} SortStable<T(!new)>(s: seq<T>, key: T -> real, k: real)
    ensures WithKey(SortBy(s, key), key, k) == WithKey(s, key, k)
  {
    if s != [] {
      var n := |s| - 1;
      assert s == s[..n] + [s[n]];
      SortStable(s[..n], key, k);
      SortSorted(s[..n], key);
      InsertStable(SortBy(s[..n], key), s[n], key, k);
      WithKeyAppend(SortBy(s[..n], key), s[n], key, k);
      WithKeyAppend(s[..n], s[n], key, k);
    }
  }

  ghost predicate SameByKey<T(!new)>(a: seq<T>, b: seq<T>, key: T -> real) {
    forall k :: WithKey(a, key, k) == WithKey(b, key, k)
  }

  lemma SameLast<T(!new)>(a: seq<T>, b: seq<T>, key: T -> real)
    requires SortedBy(a, key) && SortedBy(b, key) && a != [] && b != []
    requires SameByKey(a, b, key)
    ensures a[|a| - 1] == b[|b| - 1]
  {
    var x, y := a[|a| - 1], b[|b| - 1];
    LastHasKey(a, key);
    LastHasKey(b, key);
    assert WithKey(a, key, key(x)) == WithKey(b, key, key(x));
    assert WithKey(a, key, key(y)) == WithKey(b, key, key(y));
    hide SameByKey;
    WithKeyEmpty(a, key, key(y));
    WithKeyEmpty(b, key, key(x));
    assert key(x) == key(y);
    LastOfKey(a, key);
    LastOfKey(b, key);
  }

  lemma LastOfKey<T(!new)>(s: seq<T>, key: T -> real)
    requires s != []
    ensures var w := WithKey(s, key, key(s[|s| - 1])); w != [] && w[|w| - 1] == s[|s| - 1]
  {}

  lemma DropLastWithKey<T(!new)>(s: seq<T>, key: T -> real, k: real)
    requires s != []
    ensures WithKey(s[..|s| - 1], key, k) ==
            var w := WithKey(s, key, k); if key(s[|s| - 1]) == k && w != [] then w[..|w| - 1] else w
  {}

  lemma DropLastSame<T(!new)>(a: seq<T>, b: seq<T>, key: T -> real)
    requires SameByKey(a, b, key) && a != [] && b != [] && a[|a| - 1] == b[|b| - 1]
    ensures SameByKey(a[..|a| - 1], b[..|b| - 1], key)
  {
    var c, d := a[..|a| - 1], b[..|b| - 1];
    forall k ensures WithKey(c, key, k) == WithKey(d, key, k) {
      DropLastWithKey(a, key, k);
      DropLastWithKey(b, key, k);
      assert WithKey(a, key, k) == WithKey(b, key, k);
    }
  }

  /** A sorted sequence is determined by the order inside each key, so a stable
      sort has exactly one result. */
  lemma {:induction false} StableSortUnique<T(!new)>(a: seq<T>, b: seq<T>, key: T -> real)
    requires SortedBy(a, key) && SortedBy(b, key)
    requires SameByKey(a, b, key)
    ensures a == b
    decreases |a|
  {
    LastHasKey(a, key);
    LastHasKey(b, key);
    if a != [] && b != [] {
      SameLast(a, b, key);
      DropLastSame(a, b, key);
      hide SameByKey;
      StableSortUnique(a[..|a| - 1], b[..|b| - 1], key);
      assert a == a[..|a| - 1] + [a[|a| - 1]];
      assert b == b[..|b| - 1] + [b[|b| - 1]];
    }
  }

  /** So any sorted list with the same order inside each key is what the sort gives. */
  lemma ArrangementIsSort<T(!new)>(r: seq<T>, s: seq<T>, key: T -> real)
    requires SortedBy(r, key) && SameByKey(r, s, key)
    ensures r == SortBy(s, key)
  {
    SortSorted(s, key);
    forall k ensures WithKey(r, key, k) == WithKey(SortBy(s, key), key, k) {
      SortStable(s, key, k);
      assert WithKey(r, key, k) == WithKey(s, key, k);
    }
    StableSortUnique(r, SortBy(s, key), key);
  }

  /** Array slice(0, k): a negative k counts from the end. */
  function SliceTo<T(!new)>(s: seq<T>, k: int): (r: seq<T>)
    ensures r <= s
    ensures k >= 0 ==> |r| == if k < |s| then k else |s|
    ensures k < 0 ==> |r| == if |s| + k > 0 then |s| + k else 0
  {
    if k >= |s| then s
    else if k >= 0 then s[..k]
    else if |s| + k > 0 then s[..|s| + k] else []
  }

  /** The best k: sorted, a sub-multiset of the input, and nothing left out
      ranks strictly before anything kept. */
  ghost predicate IsTop<T(!new)>(top: seq<T>, s: seq<T>, key: T -> real) {
    && SortedBy(top, key)
    && multiset(top) <= multiset(s)
    && forall x, y :: x in multiset(s) - multiset(top) && y in top ==> key(y) <= key(x)
  }

  lemma PrefixBelowRest<T(!new)>(r: seq<T>, m: nat, key: T -> real, x: T, y: T)
    requires m <= |r| && SortedBy(r, key) && x in r[m..] && y in r[..m]
    ensures key(y) <= key(x)
  {
    var i :| 0 <= i < m && r[i] == y;
    var j :| m <= j < |r| && r[j] == x;
  }

  lemma PrefixIsTop<T(!new)>(r: seq<T>, m: nat, key: T -> real)
    requires m <= |r| && SortedBy(r, key)
    ensures IsTop(r[..m], r, key)
  {
    assert SortedBy(r[..m], key);
    hide SortedBy;
    var top, rest := r[..m], r[m..];
    assert r == top + rest;
    assert multiset(r) == multiset(top) + multiset(rest);
    forall x, y | x in multiset(r) - multiset(top) && y in top ensures key(y) <= key(x) {
      assert x in multiset(rest);
      PrefixBelowRest(r, m, key, x, y);
    }
  }

  lemma TopOmits<T(!new)>(top: seq<T>, s: seq<T>, key: T -> real, x: T, y: T)
    requires IsTop(top, s, key) && x in s && y in top
    ensures x in top || key(y) <= key(x)
  {
    hide SortedBy;
    assert x in multiset(s);
    if x !in top {
      assert x in multiset(s) - multiset(top);
    }
  }

  lemma TopOfSort<T(!new)>(s: seq<T>, key: T -> real, k: int)
    ensures IsTop(SliceTo(SortBy(s, key), k), s, key)
  {
    SortSorted(s, key);
    var top := SliceTo(SortBy(s, key), k);
    PrefixIsTop(SortBy(s, key), |top|, key);
    assert SortBy(s, key)[..|top|] == top;
  }
}
