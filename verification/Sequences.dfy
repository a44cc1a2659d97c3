// Folds over sequences.  They recurse on the last element, the order in which
// the loops of the program extend their accumulators.
module Sequences {

  function Filter<T(!new)>(s: seq<T>, p: T -> bool): (r: seq<T>)
    ensures forall x :: x in r <==> x in s && p(x)
    ensures |r| <= |s|
  {
    if s == [] then []
    else
      var n := |s| - 1;
      assert s == s[..n] + [s[n]];
      if p(s[n]) then Filter(s[..n], p) + [s[n]] else Filter(s[..n], p)
  }

  function SumBy<T(!new)>(s: seq<T>, f: T -> real): real {
    if s == [] then 0.0 else SumBy(s[..|s| - 1], f) + f(s[|s| - 1])
  }

  lemma SumByAppend<T(!new)>(s: seq<T>, x: T, f: T -> real)
    ensures SumBy(s + [x], f) == SumBy(s, f) + f(x)
  {
    assert (s + [x])[..|s|] == s;
  }

  lemma SumByOne<T(!new)>(x: T, f: T -> real)
    ensures SumBy([x], f) == f(x)
  {
    assert [x][..0] == [];
  }

  /** A constant multiple of every term is that multiple of the sum. */
  lemma {:induction false} SumByScaled<T(!new)>(s: seq<T>, f: T -> real, g: T -> real, k: real)
    requires forall x :: x in s ==> g(x) == k * f(x)
    ensures SumBy(s, g) == k * SumBy(s, f)
  {
    if s != [] {
      SumByScaled(s[..|s| - 1], f, g, k);
      assert s[|s| - 1] in s;
    }
  }

  lemma FilterAppend<T(!new)>(s: seq<T>, x: T, p: T -> bool)
    ensures Filter(s + [x], p) == if p(x) then Filter(s, p) + [x] else Filter(s, p)
  {
    assert (s + [x])[..|s|] == s;
  }

  lemma {:induction false} FilterSame<T(!new)>(s: seq<T>, p: T -> bool, q: T -> bool)
    requires forall x :: p(x) <==> q(x)
    ensures Filter(s, p) == Filter(s, q)
  {
    if s != [] {
      FilterSame(s[..|s| - 1], p, q);
    }
  }

  lemma {:induction false} FilterEvery<T(!new)>(s: seq<T>, p: T -> bool)
    requires forall x :: x in s ==> p(x)
    ensures Filter(s, p) == s
  {
    if s != [] {
      var init, x := s[..|s| - 1], s[|s| - 1];
      assert s == init + [x];
      assert x in s && forall y :: y in init ==> y in s;
      FilterEvery(init, p);
      FilterAppend(init, x, p);
    }
  }

  lemma {:induction false} FilterConcat<T(!new)>(a: seq<T>, b: seq<T>, p: T -> bool)
    ensures Filter(a + b, p) == Filter(a, p) + Filter(b, p)
  {
    if b == [] {
      assert a + b == a;
    } else {
      var n := |b| - 1;
      assert a + b == (a + b[..n]) + [b[n]];
      FilterAppend(a + b[..n], b[n], p);
      FilterConcat(a, b[..n], p);
    }
  }

  lemma {:induction false} SumByConcat<T(!new)>(a: seq<T>, b: seq<T>, f: T -> real)
    ensures SumBy(a + b, f) == SumBy(a, f) + SumBy(b, f)
  {
    if b == [] {
      assert a + b == a;
    } else {
      var n := |b| - 1;
      assert a + b == (a + b[..n]) + [b[n]];
      SumByAppend(a + b[..n], b[n], f);
      SumByConcat(a, b[..n], f);
    }
  }

  /** Splitting an occurrence of a value out of a sequence. */
  function RemoveAt<T(!new)>(s: seq<T>, i: nat): (r: seq<T>)
    requires i < |s|
    ensures multiset(s) == multiset(r) + multiset{s[i]}
    ensures |r| == |s| - 1
  {
    assert s == s[..i] + ([s[i]] + s[i + 1..]);
    s[..i] + s[i + 1..]
  }

  lemma SumBySplit<T(!new)>(a: seq<T>, x: T, b: seq<T>, f: T -> real)
    ensures SumBy(a + [x] + b, f) == SumBy(a + b, f) + f(x)
  {
    SumByConcat(a + [x], b, f);
    SumByAppend(a, x, f);
    SumByConcat(a, b, f);
  }

  lemma SplitAt<T(!new)>(s: seq<T>, i: nat)
    requires i < |s|
    ensures s == s[..i] + [s[i]] + s[i + 1..]
    ensures RemoveAt(s, i) == s[..i] + s[i + 1..]
  {}

  lemma SumByRemove<T(!new)>(s: seq<T>, i: nat, f: T -> real)
    requires i < |s|
    ensures SumBy(s, f) == SumBy(RemoveAt(s, i), f) + f(s[i])
  {
    hide *;
    SplitAt(s, i);
    SumBySplit(s[..i], s[i], s[i + 1..], f);
  }

  lemma MultisetCancel<T(!new)>(a: multiset<T>, b: multiset<T>, x: T)
    requires a + multiset{x} <= b + multiset{x}
    ensures a <= b
  {
    forall y ensures a[y] <= b[y] {
      assert (a + multiset{x})[y] <= (b + multiset{x})[y];
    }
  }

  lemma OneOfSum<T(!new)>(s: seq<T>, x: T, f: T -> real)
    requires x in s && forall y :: y in s ==> f(y) >= 0.0
    ensures f(x) <= SumBy(s, f)
  {
    assert multiset([x]) <= multiset(s) by {
      assert x in multiset(s);
    }
    SumBySubset([x], s, f);
    SumByOne(x, f);
  }

  /** A sum of non-negative terms over part of a multiset is at most the sum over all of it. */
  lemma {:induction false} SumBySubset<T(!new)>(part: seq<T>, whole: seq<T>, f: T -> real)
    requires multiset(part) <= multiset(whole)
    requires forall x :: x in whole ==> f(x) >= 0.0
    ensures SumBy(part, f) <= SumBy(whole, f)
    decreases |part|
  {
    if part == [] {
      SumByNonNegative(whole, f);
    } else {
      var n := |part| - 1;
      var x := part[n];
      assert part == part[..n] + [x];
      assert x in multiset(part);
      var i :| 0 <= i < |whole| && whole[i] == x;
      assert multiset(part) == multiset(part[..n]) + multiset{x};
      MultisetCancel(multiset(part[..n]), multiset(RemoveAt(whole, i)), x);
      forall y | y in RemoveAt(whole, i) ensures f(y) >= 0.0 {
        assert y in multiset(RemoveAt(whole, i));
        assert y in multiset(whole);
      }
      SumBySubset(part[..n], RemoveAt(whole, i), f);
      SumByRemove(whole, i, f);
    }
  }

  lemma {:induction false} SumByNonNegative<T(!new)>(s: seq<T>, f: T -> real)
    requires forall x :: x in s ==> f(x) >= 0.0
    ensures SumBy(s, f) >= 0.0
  {
    if s != [] {
      SumByNonNegative(s[..|s| - 1], f);
    }
  }

  /** Sums do not depend on order. */
  lemma {:induction false} SumByPermutation<T(!new)>(a: seq<T>, b: seq<T>, f: T -> real)
    requires multiset(a) == multiset(b)
    ensures SumBy(a, f) == SumBy(b, f)
    decreases |a|
  {
    if a == [] {
      assert |multiset(b)| == 0;
      assert b == [];
    } else {
      var n := |a| - 1;
      assert a == a[..n] + [a[n]];
      assert a[n] in multiset(b);
      var i :| 0 <= i < |b| && b[i] == a[n];
      assert multiset(a) == multiset(a[..n]) + multiset{a[n]};
      MultisetCancel(multiset(a[..n]), multiset(RemoveAt(b, i)), a[n]);
      MultisetCancel(multiset(RemoveAt(b, i)), multiset(a[..n]), a[n]);
      SumByPermutation(a[..n], RemoveAt(b, i), f);
      SumByRemove(b, i, f);
    }
  }

  lemma {:induction false} FilterMultiset<T(!new)>(s: seq<T>, p: T -> bool, x: T)
    ensures multiset(Filter(s, p))[x] == if p(x) then multiset(s)[x] else 0
  {
    if s != [] {
      var init, y := s[..|s| - 1], s[|s| - 1];
      assert s == init + [y];
      FilterMultiset(init, p, x);
      FilterAppend(init, y, p);
      assert multiset(init + [y]) == multiset(init) + multiset{y};
      assert multiset(Filter(init, p) + [y]) == multiset(Filter(init, p)) + multiset{y};
    }
  }

  lemma FilterPermutation<T(!new)>(a: seq<T>, b: seq<T>, p: T -> bool)
    requires multiset(a) == multiset(b)
    ensures multiset(Filter(a, p)) == multiset(Filter(b, p))
  {
    forall x ensures multiset(Filter(a, p))[x] == multiset(Filter(b, p))[x] {
      FilterMultiset(a, p, x);
      FilterMultiset(b, p, x);
    }
  }

  lemma PermutationMember<T(!new)>(a: seq<T>, b: seq<T>, x: T)
    requires multiset(a) == multiset(b)
    ensures |a| == |b| && (x in a <==> x in b)
  {
    assert |multiset(a)| == |multiset(b)|;
    assert x in a <==> x in multiset(a);
    assert x in b <==> x in multiset(b);
  }

  function Mul(a: real, b: real): real {
    a * b
  }

  lemma MulAssociates(a: real, b: real, c: real)
    ensures Mul(a, Mul(b, c)) == Mul(Mul(a, b), c)
  {}

  lemma MulCommutes(a: real, b: real, c: real)
    ensures Mul(Mul(a, b), c) == Mul(Mul(a, c), b)
  {}

  function ProductBy<T>(s: seq<T>, f: T -> real): real {
    if s == [] then 1.0 else Mul(ProductBy(s[..|s| - 1], f), f(s[|s| - 1]))
  }

  lemma ProductByAppend<T(!new)>(s: seq<T>, x: T, f: T -> real)
    ensures ProductBy(s + [x], f) == Mul(ProductBy(s, f), f(x))
  {
    hide Mul;
    assert (s + [x])[..|s|] == s;
  }

  lemma {:induction false} ProductByConcat<T(!new)>(a: seq<T>, b: seq<T>, f: T -> real)
    ensures ProductBy(a + b, f) == Mul(ProductBy(a, f), ProductBy(b, f))
  {
    if b == [] {
      assert a + b == a;
    } else {
      hide *;
      var init, x := b[..|b| - 1], b[|b| - 1];
      assert a + b == (a + init) + [x];
      assert b == init + [x];
      ProductByAppend(a + init, x, f);
      ProductByAppend(init, x, f);
      ProductByConcat(a, init, f);
      MulAssociates(ProductBy(a, f), ProductBy(init, f), f(x));
    }
  }

  lemma ProductBySplit<T(!new)>(a: seq<T>, x: T, b: seq<T>, f: T -> real)
    ensures ProductBy(a + [x] + b, f) == Mul(ProductBy(a + b, f), f(x))
  {
    hide *;
    ProductByConcat(a + [x], b, f);
    ProductByAppend(a, x, f);
    ProductByConcat(a, b, f);
    MulCommutes(ProductBy(a, f), f(x), ProductBy(b, f));
  }

  lemma ProductByRemove<T(!new)>(s: seq<T>, i: nat, f: T -> real)
    requires i < |s|
    ensures ProductBy(s, f) == Mul(ProductBy(RemoveAt(s, i), f), f(s[i]))
  {
    hide *;
    SplitAt(s, i);
    ProductBySplit(s[..i], s[i], s[i + 1..], f);
  }

  /** Products do not depend on order. */
  lemma {:induction false} ProductByPermutation<T(!new)>(a: seq<T>, b: seq<T>, f: T -> real)
    requires multiset(a) == multiset(b)
    ensures ProductBy(a, f) == ProductBy(b, f)
    decreases |a|
  {
    hide Mul;
    if a == [] {
      assert |multiset(b)| == 0;
      assert b == [];
    } else {
      var n := |a| - 1;
      assert a == a[..n] + [a[n]];
      assert a[n] in multiset(b);
      var i :| 0 <= i < |b| && b[i] == a[n];
      assert multiset(a) == multiset(a[..n]) + multiset{a[n]};
      MultisetCancel(multiset(a[..n]), multiset(RemoveAt(b, i)), a[n]);
      MultisetCancel(multiset(RemoveAt(b, i)), multiset(a[..n]), a[n]);
      ProductByPermutation(a[..n], RemoveAt(b, i), f);
      ProductByRemove(b, i, f);
    }
  }
}
