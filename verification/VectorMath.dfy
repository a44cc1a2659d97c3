// src/analytics/vectorMath.ts: dot products, normalisation and nearest vectors, on exact reals.
// Math.sqrt is a parameter: a non-negative root of the sum of squares.
module VectorMath {
  import opened Numbers
  import opened Sequences
  import opened Ranking

  function MinLength(a: seq<real>, b: seq<real>): nat {
    if |a| <= |b| then |a| else |b|
  }

  /** The sum of the first n products. */
  function DotTo(a: seq<real>, b: seq<real>, n: nat): real
    requires n <= |a| && n <= |b|
  {
    if n == 0 then 0.0 else DotTo(a, b, n - 1) + a[n - 1] * b[n - 1]
  }

  /** Coordinates beyond the shorter vector are ignored. */
  function Dot(a: seq<real>, b: seq<real>): real {
    DotTo(a, b, MinLength(a, b))
  }

  method ComputeDot(a: seq<real>, b: seq<real>) returns (s: real)
    ensures s == Dot(a, b)
  {
    s := 0.0;
    var n := MinLength(a, b);
    for i := 0 to n
      invariant s == DotTo(a, b, i)
    {
      s := s + a[i] * b[i];
    }
  }

  // ---------------------------------------------------------------------
  // Cauchy-Schwarz
  // ---------------------------------------------------------------------

  /** The sum of the first n squares (t*a[i] - b[i])^2, expanded. */
  function Quadratic(a: real, s: real, b: real, t: real): real {
    a * t * t - 2.0 * s * t + b
  }

  lemma QuadraticStep(a: real, s: real, b: real, t: real, x: real, y: real, a': real, s': real, b': real)
    requires Quadratic(a, s, b, t) >= 0.0
    requires a' == a + x * x && s' == s + x * y && b' == b + y * y
    ensures Quadratic(a', s', b', t) >= 0.0
  {
    var d := x * t - y;
    assert d * d >= 0.0;
    assert Quadratic(a', s', b', t) == Quadratic(a, s, b, t) + d * d;
  }

  lemma QuadraticZero(t: real)
    ensures Quadratic(0.0, 0.0, 0.0, t) == 0.0
  {}

  lemma DotNothing(a: seq<real>, b: seq<real>)
    ensures DotTo(a, b, 0) == 0.0
  {}

  lemma DotStep(a: seq<real>, b: seq<real>, n: nat)
    requires 0 < n <= |a| && n <= |b|
    ensures DotTo(a, b, n) == DotTo(a, b, n - 1) + a[n - 1] * b[n - 1]
  {}

  lemma {:induction false} QuadraticNonNegative(a: seq<real>, b: seq<real>, n: nat, t: real)
    requires n <= |a| && n <= |b|
    ensures Quadratic(DotTo(a, a, n), DotTo(a, b, n), DotTo(b, b, n), t) >= 0.0
  {
    hide DotTo, Quadratic;
    DotNothing(a, a);
    DotNothing(a, b);
    DotNothing(b, b);
    QuadraticZero(t);
    if n > 0 {
      QuadraticNonNegative(a, b, n - 1, t);
      DotStep(a, a, n);
      DotStep(a, b, n);
      DotStep(b, b, n);
      QuadraticStep(
        DotTo(a, a, n - 1), DotTo(a, b, n - 1), DotTo(b, b, n - 1), t, a[n - 1], b[n - 1],
        DotTo(a, a, n), DotTo(a, b, n), DotTo(b, b, n));
    }
  }

  /** A quadratic that is never negative has no positive discriminant. */
  lemma Discriminant(a: real, s: real, b: real)
    requires a >= 0.0
    requires Quadratic(a, s, b, if a > 0.0 then s / a else if s != 0.0 then (b + 1.0) / (2.0 * s) else 0.0) >= 0.0
    ensures s * s <= a * b
  {
    if a > 0.0 {
      var t := s / a;
      assert a * t == s;
      assert a * t * t == s * t;
      assert b - s * t >= 0.0;
      MulMonotone(s * t, b, a);
      assert a * (s * t) == s * (a * t);
    } else if s != 0.0 {
      DivideBack(b + 1.0, 2.0 * s);
    }
  }

  lemma DivideBack(x: real, y: real)
    requires y != 0.0
    ensures y * (x / y) == x
  {}

  lemma {:induction false} SquaresNonNegative(a: seq<real>, n: nat)
    requires n <= |a|
    ensures DotTo(a, a, n) >= 0.0
  {
    if n > 0 {
      SquaresNonNegative(a, n - 1);
      assert a[n - 1] * a[n - 1] >= 0.0;
    }
  }

  lemma {:induction false} SquaresGrow(a: seq<real>, n: nat, m: nat)
    requires n <= m <= |a|
    ensures DotTo(a, a, n) <= DotTo(a, a, m)
    decreases m
  {
    if n < m {
      SquaresGrow(a, n, m - 1);
      assert a[m - 1] * a[m - 1] >= 0.0;
    }
  }

  lemma PrefixCauchySchwarz(a: seq<real>, b: seq<real>, n: nat)
    requires n <= |a| && n <= |b|
    ensures DotTo(a, b, n) * DotTo(a, b, n) <= DotTo(a, a, n) * DotTo(b, b, n)
  {
    hide DotTo, Quadratic;
    var p, s, q := DotTo(a, a, n), DotTo(a, b, n), DotTo(b, b, n);
    SquaresNonNegative(a, n);
    QuadraticNonNegative(a, b, n, if p > 0.0 then s / p else if s != 0.0 then (q + 1.0) / (2.0 * s) else 0.0);
    Discriminant(p, s, q);
  }

  /** The dot product never exceeds the product of the norms, for vectors of any two lengths. */
  lemma CauchySchwarz(a: seq<real>, b: seq<real>)
    ensures Dot(a, b) * Dot(a, b) <= Dot(a, a) * Dot(b, b)
  {
    hide DotTo;
    var n := MinLength(a, b);
    PrefixCauchySchwarz(a, b, n);
    SquaresNonNegative(a, n);
    SquaresNonNegative(b, n);
    SquaresGrow(a, n, |a|);
    SquaresGrow(b, n, |b|);
    MulMonotone(DotTo(a, a, n), DotTo(a, a, |a|), DotTo(b, b, n));
    MulMonotone(DotTo(b, b, n), DotTo(b, b, |b|), DotTo(a, a, |a|));
  }

  // ---------------------------------------------------------------------
  // Normalisation
  // ---------------------------------------------------------------------

  /** What norm(v) stands for. */
  predicate IsNorm(v: seq<real>, n: real) {
    n >= 0.0 && Square(n) == Dot(v, v)
  }

  function Square(x: real): real {
    x * x
  }

  lemma SquarePositive(n: real)
    requires n > 0.0
    ensures Square(n) > 0.0
  {
    var p := Product(n, n);
  }

  lemma Product(a: real, b: real) returns (p: real)
    requires a > 0.0 && b > 0.0
    ensures p == a * b && p > 0.0
  {
    p := a * b;
  }

  function L2Normalize(v: seq<real>, n: real): (r: seq<real>)
    ensures |r| == |v|
  {
    if n == 0.0 then v else seq(|v|, i requires 0 <= i < |v| => v[i] / n)
  }

  lemma {:induction false} ScaledSquares(v: seq<real>, n: real, m: nat)
    requires n > 0.0 && m <= |v|
    ensures DotTo(L2Normalize(v, n), L2Normalize(v, n), m) * Square(n) == DotTo(v, v, m)
  {
    if m > 0 {
      ScaledSquares(v, n, m - 1);
      var w := L2Normalize(v, n);
      assert w[m - 1] == v[m - 1] / n;
      hide DotTo, L2Normalize, Square;
      ScaledTerm(DotTo(w, w, m - 1), v[m - 1], w[m - 1], n);
      DotStep(w, w, m);
      DotStep(v, v, m);
    }
  }

  lemma ScaledTerm(rest: real, x: real, y: real, n: real)
    requires n > 0.0 && y == x / n
    ensures (rest + y * y) * Square(n) == rest * Square(n) + x * x
  {
    assert y * n == x;
    assert y * y * (n * n) == (y * n) * (y * n);
  }

  /** Normalising gives length exactly 1, except that a zero vector stays as it is. */
  lemma NormalizedLength(v: seq<real>, n: real)
    requires IsNorm(v, n)
    ensures var w := L2Normalize(v, n); Dot(w, w) == if Dot(v, v) == 0.0 then 0.0 else 1.0
  {
    if n > 0.0 {
      ScaledSquares(v, n, |v|);
      hide DotTo, L2Normalize, Square;
      SquarePositive(n);
      UnitFromScale(Dot(L2Normalize(v, n), L2Normalize(v, n)), Square(n));
    }
  }

  lemma UnitFromScale(x: real, q: real)
    requires q > 0.0 && x * q == q
    ensures x == 1.0
  {
    assert (x - 1.0) * q == 0.0;
    if x > 1.0 {
      MulPositive(x - 1.0, q);
    } else if x < 1.0 {
      MulPositive(1.0 - x, q);
    }
  }

  /** The cosine of two normalised vectors is in [-1, 1]. */
  lemma CosineRange(v: seq<real>, n: real, w: seq<real>, m: real)
    requires IsNorm(v, n) && IsNorm(w, m)
    ensures -1.0 <= Dot(L2Normalize(v, n), L2Normalize(w, m)) <= 1.0
  {
    NormalizedLength(v, n);
    NormalizedLength(w, m);
    WithinUnit(L2Normalize(v, n), L2Normalize(w, m));
  }

  ghost predicate AtMostUnit(v: seq<real>) {
    Dot(v, v) <= 1.0
  }

  lemma WithinUnit(a: seq<real>, b: seq<real>)
    requires AtMostUnit(a) && AtMostUnit(b)
    ensures -1.0 <= Dot(a, b) <= 1.0
  {
    hide DotTo;
    CauchySchwarz(a, b);
    SquaresNonNegative(a, |a|);
    SquaresNonNegative(b, |b|);
    UnitBound(Dot(a, b), Dot(a, a), Dot(b, b));
  }

  lemma UnitBound(d: real, p: real, q: real)
    requires 0.0 <= p <= 1.0 && 0.0 <= q <= 1.0 && d * d <= p * q
    ensures -1.0 <= d <= 1.0
  {
    MulMonotone(p, 1.0, q);
    assert p * q <= q;
    assert d * d <= 1.0;
    SquareOrder(d, 1.0);
  }

  // ---------------------------------------------------------------------
  // Nearest vectors
  // ---------------------------------------------------------------------

  datatype Entry = Entry(id: string, vector: seq<real>)
  datatype Hit = Hit(id: string, cosine: real)

  /** The entries that pass the exclusion and the threshold, in registry order. */
  function Hits(query: seq<real>, registry: seq<Entry>, excludeIds: set<string>, minCosine: real): seq<Hit> {
    if registry == [] then []
    else
      var n := |registry| - 1;
      var before, cosine := Hits(query, registry[..n], excludeIds, minCosine), Dot(query, registry[n].vector);
      if registry[n].id in excludeIds || cosine < minCosine then before else before + [Hit(registry[n].id, cosine)]
  }

  function TopK(query: seq<real>, registry: seq<Entry>, k: int, excludeIds: set<string>, minCosine: real): seq<Hit> {
    SliceTo(SortBy(Hits(query, registry, excludeIds, minCosine), (h: Hit) => -h.cosine), k)
  }

  method TopKCosine(query: seq<real>, registry: seq<Entry>, k: int, excludeIds: set<string>, minCosine: real)
    returns (top: seq<Hit>)
    ensures top == TopK(query, registry, k, excludeIds, minCosine)
  {
    var results: seq<Hit> := [];
    for i := 0 to |registry|
      invariant results == Hits(query, registry[..i], excludeIds, minCosine)
    {
      assert registry[..i + 1][..i] == registry[..i];
      if registry[i].id in excludeIds {
        continue;
      }
      var cos := ComputeDot(query, registry[i].vector);
      if cos >= minCosine {
        results := results + [Hit(registry[i].id, cos)];
      }
    }
    assert registry[..|registry|] == registry;
    top := SliceTo(SortBy(results, (h: Hit) => -h.cosine), k);
  }

  ghost predicate Qualifies(e: Entry, query: seq<real>, excludeIds: set<string>, minCosine: real) {
    e.id !in excludeIds && Dot(query, e.vector) >= minCosine
  }

  ghost predicate IsHitOf(h: Hit, e: Entry, query: seq<real>) {
    h == Hit(e.id, Dot(query, e.vector))
  }

  lemma {:induction false} HitsExact(query: seq<real>, registry: seq<Entry>, excludeIds: set<string>, minCosine: real, h: Hit)
    ensures h in Hits(query, registry, excludeIds, minCosine) <==>
            exists i :: 0 <= i < |registry| && Qualifies(registry[i], query, excludeIds, minCosine) && IsHitOf(h, registry[i], query)
  {
    if registry != [] {
      hide Dot;
      var n := |registry| - 1;
      var init := registry[..n];
      HitsExact(query, init, excludeIds, minCosine, h);
      if h in Hits(query, registry, excludeIds, minCosine) {
        if h in Hits(query, init, excludeIds, minCosine) {
          var i :| 0 <= i < n && Qualifies(init[i], query, excludeIds, minCosine) && IsHitOf(h, init[i], query);
          assert init[i] == registry[i];
        } else {
          assert Qualifies(registry[n], query, excludeIds, minCosine) && IsHitOf(h, registry[n], query);
        }
      }
      if i :| 0 <= i < |registry| && Qualifies(registry[i], query, excludeIds, minCosine) && IsHitOf(h, registry[i], query) {
        assert i < n ==> init[i] == registry[i];
      }
    }
  }

  /** The result is exactly the k best: sorted by falling cosine, only qualifying entries with their
      own cosine, and no qualifying entry that is left out beats a returned one. */
  lemma TopKBest(query: seq<real>, registry: seq<Entry>, k: int, excludeIds: set<string>, minCosine: real)
    ensures var top, hits := TopK(query, registry, k, excludeIds, minCosine), Hits(query, registry, excludeIds, minCosine);
            IsTop(top, hits, (g: Hit) => -g.cosine) && (k >= 0 ==> |top| == if k < |hits| then k else |hits|)
  {
    TopOfSort(Hits(query, registry, excludeIds, minCosine), (h: Hit) => -h.cosine, k);
  }

  lemma OmittedNotBetter(query: seq<real>, registry: seq<Entry>, k: int, excludeIds: set<string>, minCosine: real, i: nat, h: Hit)
    requires i < |registry| && Qualifies(registry[i], query, excludeIds, minCosine)
    requires h in TopK(query, registry, k, excludeIds, minCosine)
    ensures Hit(registry[i].id, Dot(query, registry[i].vector)) in TopK(query, registry, k, excludeIds, minCosine)
         || Dot(query, registry[i].vector) <= h.cosine
  {
    var top, hits := TopK(query, registry, k, excludeIds, minCosine), Hits(query, registry, excludeIds, minCosine);
    var mine := Hit(registry[i].id, Dot(query, registry[i].vector));
    TopKBest(query, registry, k, excludeIds, minCosine);
    HitsExact(query, registry, excludeIds, minCosine, mine);
    hide TopK, Hits, Dot, IsTop;
    assert IsHitOf(mine, registry[i], query);
    TopOmits(top, hits, (g: Hit) => -g.cosine, mine, h);
  }

  /** Every returned hit is a qualifying entry with its own cosine, in [-1, 1] for normalised vectors. */
  lemma TopKCosines(query: seq<real>, registry: seq<Entry>, k: int, excludeIds: set<string>, minCosine: real, h: Hit)
    requires AtMostUnit(query) && forall i :: 0 <= i < |registry| ==> AtMostUnit(registry[i].vector)
    requires h in TopK(query, registry, k, excludeIds, minCosine)
    ensures -1.0 <= h.cosine <= 1.0 && h.cosine >= minCosine && h.id !in excludeIds
    ensures exists i :: 0 <= i < |registry| && IsHitOf(h, registry[i], query)
  {
    var top, hits := TopK(query, registry, k, excludeIds, minCosine), Hits(query, registry, excludeIds, minCosine);
    TopKBest(query, registry, k, excludeIds, minCosine);
    assert h in hits by {
      hide TopK, Hits, SortedBy;
      assert h in multiset(top);
      assert h in multiset(hits);
    }
    hide TopK, Hits, Dot, IsTop, AtMostUnit;
    HitsExact(query, registry, excludeIds, minCosine, h);
    var i :| 0 <= i < |registry| && Qualifies(registry[i], query, excludeIds, minCosine) && IsHitOf(h, registry[i], query);
    WithinUnit(query, registry[i].vector);
  }

  /** With normalised vectors the default threshold of -1 drops nothing. */
  lemma {:induction false} DefaultThresholdKeepsAll(query: seq<real>, registry: seq<Entry>, excludeIds: set<string>)
    requires AtMostUnit(query) && forall i :: 0 <= i < |registry| ==> AtMostUnit(registry[i].vector)
    ensures |Hits(query, registry, excludeIds, -1.0)| == |Filter(registry, (e: Entry) => e.id !in excludeIds)|
  {
    if registry != [] {
      hide Dot, AtMostUnit;
      var n := |registry| - 1;
      DefaultThresholdKeepsAll(query, registry[..n], excludeIds);
      WithinUnit(query, registry[n].vector);
    }
  }

  // ---------------------------------------------------------------------
  // Local refinement
  // ---------------------------------------------------------------------

  datatype Force = Force(fx: real, fy: real)
  datatype Place = Place(x: real, y: real)

  /** The factor that limits a force of the given magnitude. */
  function Clipped(mag: real): real {
    if mag > 0.3 then 0.3 / mag else 1.0
  }

  function Moved(p: Place, f: Force, mag: real, stepSize: real): Place {
    Place(p.x + f.fx * Clipped(mag) * stepSize, p.y + f.fy * Clipped(mag) * stepSize)
  }

  /** mag is the Euclidean length of the force. */
  predicate IsMagnitude(f: Force, mag: real) {
    mag >= 0.0 && Square(mag) == Square(f.fx) + Square(f.fy)
  }

  predicate WithinDistance(p: Place, q: Place, d: real) {
    Square(q.x - p.x) + Square(q.y - p.y) <= Square(d)
  }

  lemma ProductSquare(a: real, b: real)
    ensures Square(a * b) == Square(a) * Square(b)
  {
    assert (a * b) * (a * b) == (a * a) * (b * b);
  }

  lemma ClippedLength(mag: real)
    requires mag >= 0.0
    ensures 0.0 <= mag * Clipped(mag) <= 0.3
  {}

  lemma SquareMonotone(a: real, b: real)
    requires 0.0 <= a <= b
    ensures Square(a) <= Square(b)
  {
    MulMonotone(a, b, a);
    MulMonotone(a, b, b);
  }

  /** However strong the force, one iteration moves a point by at most 0.3 * stepSize. */
  lemma StepIsBounded(p: Place, f: Force, mag: real, stepSize: real)
    requires IsMagnitude(f, mag)
    ensures WithinDistance(p, Moved(p, f, mag, stepSize), 0.3 * stepSize)
  {
    var c := Clipped(mag);
    ClippedLength(mag);
    SquareMonotone(mag * c, 0.3);
    ProductSquare(mag, c);
    ProductSquare(f.fx, c);
    ProductSquare(f.fy, c);
    ProductSquare(f.fx * c, stepSize);
    ProductSquare(f.fy * c, stepSize);
    ProductSquare(0.3, stepSize);
    var q := Moved(p, f, mag, stepSize);
    assert q.x - p.x == f.fx * c * stepSize && q.y - p.y == f.fy * c * stepSize;
    ScaleDown(Square(f.fx), Square(f.fy), Square(mag), Square(c), Square(stepSize));
  }

  lemma ScaleDown(x: real, y: real, m: real, c: real, s: real)
    requires x + y == m && m * c <= Square(0.3) && s >= 0.0
    ensures x * c * s + y * c * s <= Square(0.3) * s
  {
    assert x * c + y * c == m * c;
    assert x * c * s + y * c * s == (m * c) * s;
    MulMonotone(m * c, Square(0.3), s);
  }
}
