// What the parts of the vector code compute: src/analytics/vectorMath.ts, routes/getProjector.ts and the
// seasonal profile of src/analytics/derivedFacets.ts.
module VectorLaws {
  import opened Numbers
  import opened Sequences
  import opened VectorMath
  import P = Projector
  import R = Ranking
  import S = Seasonality

  // ---------------------------------------------------------------------
  // Dot products and normalisation
  // ---------------------------------------------------------------------

  lemma {:induction false} DotToFront(x: real, a: seq<real>, y: real, b: seq<real>, n: nat)
    requires n <= |a| && n <= |b|
    ensures DotTo([x] + a, [y] + b, n + 1) == x * y + DotTo(a, b, n)
  {
    if n > 0 {
      DotToFront(x, a, y, b, n - 1);
    }
  }

  /** A dot product, coordinate by coordinate from the front; what only one vector has counts nothing. */
  lemma DotLaw(x: real, a: seq<real>, y: real, b: seq<real>)
    ensures Dot([], b) == 0.0 && Dot(a, []) == 0.0
    ensures Dot([x] + a, [y] + b) == x * y + Dot(a, b)
  {
    DotToFront(x, a, y, b, MinLength(a, b));
  }

  lemma {:induction false} SquareSum(v: seq<real>, n: nat)
    requires n <= |v|
    ensures DotTo(v, v, n) == SumBy(v[..n], (x: real) => x * x)
  {
    if n > 0 {
      SquareSum(v, n - 1);
      assert v[..n] == v[..n - 1] + [v[n - 1]];
      SumByAppend(v[..n - 1], v[n - 1], (x: real) => x * x);
    }
  }

  /** A length is the non-negative root of the sum of squares; that of (3, 4) is 5, whether of a vector, of a force
      or of a distance. */
  lemma LengthLaw(v: seq<real>, n: real)
    ensures IsNorm(v, n) <==> n >= 0.0 && n * n == SumBy(v, (x: real) => x * x)
    ensures IsMagnitude(Force(3.0, 4.0), n) <==> n == 5.0
    ensures IsMagnitude(Force(0.0, 0.0), n) <==> n == 0.0
    ensures n >= 0.0 ==> (WithinDistance(Place(1.0, 1.0), Place(4.0, 5.0), n) <==> n >= 5.0)
  {
    SquareSum(v, |v|);
    assert v[..|v|] == v;
    hide DotTo, SumBy;
    if n >= 0.0 {
      RootOf(n, 5.0);
      RootOf(n, 0.0);
    }
  }

  lemma RootOf(n: real, r: real)
    requires n >= 0.0 && r >= 0.0
    ensures n * n == r * r <==> n == r
    ensures n * n >= r * r <==> n >= r
  {
    if n < r {
      SquareStrict(n, r);
    } else if r < n {
      SquareStrict(r, n);
    }
  }

  /** Normalising divides every coordinate by the same length. */
  lemma NormalizedCoordinate(v: seq<real>, n: real, i: nat)
    requires i < |v|
    ensures n != 0.0 ==> L2Normalize(v, n)[i] * n == v[i]
    ensures n == 0.0 ==> L2Normalize(v, n) == v
  {
    if n != 0.0 {
      DivideBack(v[i], n);
    }
  }

  // ---------------------------------------------------------------------
  // Nearest vectors
  // ---------------------------------------------------------------------

  /** One more entry is a hit, with its own cosine, exactly when it is not excluded and reaches the threshold. */
  lemma HitsLaw(query: seq<real>, registry: seq<Entry>, e: Entry, excludeIds: set<string>, minCosine: real)
    ensures Hits(query, [], excludeIds, minCosine) == []
    ensures var before, after := Hits(query, registry, excludeIds, minCosine), Hits(query, registry + [e], excludeIds, minCosine);
            after == if e.id !in excludeIds && minCosine <= Dot(query, e.vector) then before + [Hit(e.id, Dot(query, e.vector))] else before
  {
    hide Dot;
    assert (registry + [e])[..|registry|] == registry;
  }

  /** Equal cosines stay in registry order: the result is the only list that is sorted by falling cosine and
      keeps the order of the hits inside each cosine, cut to k. */
  lemma TopKUnique(query: seq<real>, registry: seq<Entry>, k: int, excludeIds: set<string>, minCosine: real, arranged: seq<Hit>)
    requires R.SortedBy(arranged, (h: Hit) => -h.cosine)
    requires R.SameByKey(arranged, Hits(query, registry, excludeIds, minCosine), (h: Hit) => -h.cosine)
    ensures TopK(query, registry, k, excludeIds, minCosine) == R.SliceTo(arranged, k)
  {
    hide Hits;
    var hits := Hits(query, registry, excludeIds, minCosine);
    R.ArrangementIsSort(arranged, hits, (h: Hit) => -h.cosine);
  }

  /** The returned cosines fall, there are as many as asked for or as there are hits, and a hit that is left out
      is not above any of them. */
  lemma TopKLaw(query: seq<real>, registry: seq<Entry>, k: int, excludeIds: set<string>, minCosine: real, i: nat, j: nat, h: Hit)
    ensures var top, hits := TopK(query, registry, k, excludeIds, minCosine), Hits(query, registry, excludeIds, minCosine);
            && |top| == (if k >= |hits| then |hits| else if k >= 0 then k else if |hits| + k > 0 then |hits| + k else 0)
            && (i < j < |top| ==> top[j].cosine <= top[i].cosine)
            && (i < |top| && h in hits && h !in top ==> h.cosine <= top[i].cosine)
  {
    hide Hits;
    var top, hits := TopK(query, registry, k, excludeIds, minCosine), Hits(query, registry, excludeIds, minCosine);
    TopKBest(query, registry, k, excludeIds, minCosine);
    var key := (g: Hit) => -g.cosine;
    if i < j < |top| {
      assert key(top[i]) <= key(top[j]);
    }
    if i < |top| && h in hits && h !in top {
      hide TopK;
      R.TopOmits(top, hits, key, h, top[i]);
    }
  }

  // ---------------------------------------------------------------------
  // Local refinement
  // ---------------------------------------------------------------------

  /** A force of at most 0.3 moves a point by itself times the step; a stronger one, in its own direction, by
      exactly 0.3 times the step. */
  lemma MoveLaw(p: Place, f: Force, mag: real, stepSize: real)
    ensures var q := Moved(p, f, mag, stepSize);
            && (mag <= 0.3 ==> q.x - p.x == f.fx * stepSize && q.y - p.y == f.fy * stepSize)
            && (mag > 0.3 ==> (q.x - p.x) * mag == 0.3 * (f.fx * stepSize) && (q.y - p.y) * mag == 0.3 * (f.fy * stepSize))
  {
    if mag > 0.3 {
      Rescale(f.fx, mag, stepSize);
      Rescale(f.fy, mag, stepSize);
    }
  }

  lemma Rescale(x: real, mag: real, step: real)
    requires mag > 0.3
    ensures x * (0.3 / mag) * step * mag == 0.3 * (x * step)
  {
    DivideBack(0.3, mag);
    assert x * (0.3 / mag) * step * mag == (mag * (0.3 / mag)) * (x * step);
  }

  // ---------------------------------------------------------------------
  // Covariance and seasonality
  // ---------------------------------------------------------------------

  /** One more pair of rows adds the product of coordinate r of the first with coordinate c of the second. */
  lemma CovarianceLaw(a: P.Matrix, b: P.Matrix, v: seq<real>, w: seq<real>, d: nat, r: nat, c: nat)
    requires |a| == |b| && P.HasWidth(a, d) && P.HasWidth(b, d) && |v| == |w| == d && r < d && c < d
    ensures P.CovarianceAt([], [], d, r, c) == 0.0
    ensures P.HasWidth(a + [v], d) && P.HasWidth(b + [w], d)
    ensures P.CovarianceAt(a + [v], b + [w], d, r, c) == P.CovarianceAt(a, b, d, r, c) + v[r] * w[c]
  {
    assert (a + [v])[..|a|] == a && (b + [w])[..|b|] == b;
  }

  /** Swapping the two sets transposes the matrix. */
  lemma {:induction false} CovarianceTransposes(a: P.Matrix, b: P.Matrix, d: nat, r: nat, c: nat)
    requires |a| == |b| && P.HasWidth(a, d) && P.HasWidth(b, d) && r < d && c < d
    ensures P.CovarianceAt(a, b, d, r, c) == P.CovarianceAt(b, a, d, c, r)
  {
    if a != [] {
      var n := |a| - 1;
      CovarianceTransposes(a[..n], b[..n], d, r, c);
    }
  }

  /** Each month keeps its share of the year. */
  lemma MonthShare(raw: seq<real>, i: nat)
    requires |raw| == 12 && S.SumTo(raw, 12) != 0.0 && i < 12
    ensures S.Normalized(raw)[i] * S.SumTo(raw, 12) == 12.0 * raw[i]
  {
    ShareBack(raw[i], S.SumTo(raw, 12));
  }

  lemma ShareBack(x: real, sum: real)
    requires sum != 0.0
    ensures x / sum * 12.0 * sum == 12.0 * x
  {
    DivideBack(x, sum);
  }

  /** The sum of a year and its variance, month by month. */
  lemma YearLaw(v: seq<real>)
    requires |v| == 12
    ensures S.SumTo(v, 12) == SumBy(v, (x: real) => x)
    ensures S.Variance(v) * 12.0 == SumBy(v, (x: real) => (x - S.SumTo(v, 12) / 12.0) * (x - S.SumTo(v, 12) / 12.0))
  {
    SumIs(v, 12);
    DeviationsAre(v, S.SumTo(v, 12) / 12.0, 12);
    assert v[..12] == v;
  }

  lemma {:induction false} SumIs(v: seq<real>, n: nat)
    requires n <= |v|
    ensures S.SumTo(v, n) == SumBy(v[..n], (x: real) => x)
  {
    if n > 0 {
      SumIs(v, n - 1);
      assert v[..n] == v[..n - 1] + [v[n - 1]];
      SumByAppend(v[..n - 1], v[n - 1], (x: real) => x);
    }
  }

  lemma {:induction false} DeviationsAre(v: seq<real>, mean: real, n: nat)
    requires n <= |v|
    ensures S.SquaredDeviations(v, mean, n) == SumBy(v[..n], (x: real) => (x - mean) * (x - mean))
  {
    if n > 0 {
      DeviationsAre(v, mean, n - 1);
      assert v[..n] == v[..n - 1] + [v[n - 1]];
      SumByAppend(v[..n - 1], v[n - 1], (x: real) => (x - mean) * (x - mean));
    }
  }
}
