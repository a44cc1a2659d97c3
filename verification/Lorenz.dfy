// src/analytics/portfolioOptimizer.ts: Lorenz curve and Gini coefficient.
module Lorenz {
  import opened Numbers
  import opened Sequences
  import opened Ranking

  datatype Point = Point(x: real, y: real)

  function Size(v: real): real {
    v
  }

  function Total(s: seq<real>): real {
    SumBy(s, Size)
  }

  /** The point of the first i sizes of a sorted list. */
  function PointAt(s: seq<real>, i: nat): Point
    requires i <= |s| && s != []
  {
    Point(i as real / |s| as real, if Total(s) > 0.0 then Total(s[..i]) / Total(s) else 0.0)
  }

  /** Area under a polyline by the trapezoid rule. */
  function Area(curve: seq<Point>): real {
    if |curve| < 2 then 0.0
    else
      var a, b := curve[|curve| - 2], curve[|curve| - 1];
      Area(curve[..|curve| - 1]) + ((a.y + b.y) / 2.0) * (b.x - a.x)
  }

  function RawGini(curve: seq<Point>): real {
    1.0 - 2.0 * Area(curve)
  }

  ghost predicate IsCurveOf(curve: seq<Point>, s: seq<real>) {
    s != [] && |curve| == |s| + 1 && forall i :: 0 <= i < |curve| ==> curve[i] == PointAt(s, i)
  }

  /** What is reported for a list of sizes: the curve of the sorted list, and the clamped coefficient
      rounded to three decimals. */
  ghost predicate IsReport(sizes: seq<real>, curve: seq<Point>, gini: real) {
    && (sizes == [] ==> curve == [Point(0.0, 0.0), Point(1.0, 1.0)] && gini == 0.0)
    && (sizes != [] ==> IsCurveOf(curve, SortBy(sizes, Size)))
    && (sizes != [] ==> gini == ThreeDecimals(Max(0.0, Min(1.0, RawGini(curve)))))
  }

  function ThreeDecimals(g: real): real {
    Round(g * 1000.0) as real / 1000.0
  }

  method LorenzCurve(sizes: seq<real>) returns (curve: seq<Point>, gini: real)
    ensures IsReport(sizes, curve, gini)
  {
    if |sizes| == 0 {
      return [Point(0.0, 0.0), Point(1.0, 1.0)], 0.0;
    }
    var sorted := SortBy(sizes, Size);
    curve := CurvePoints(sorted);
    var area := ComputeArea(curve);
    var g := Max(0.0, Min(1.0, 1.0 - 2.0 * area));
    gini := ThreeDecimals(g);
  }

  method CurvePoints(sorted: seq<real>) returns (curve: seq<Point>)
    requires sorted != []
    ensures IsCurveOf(curve, sorted)
  {
    var total, n := Total(sorted), |sorted|;
    curve := [Point(0.0, 0.0)];
    var cum := 0.0;
    assert sorted[..0] == [];
    for i := 0 to n
      invariant cum == Total(sorted[..i])
      invariant |curve| == i + 1 && forall j :: 0 <= j <= i ==> curve[j] == PointAt(sorted, j)
    {
      assert sorted[..i + 1] == sorted[..i] + [sorted[i]];
      SumByAppend(sorted[..i], sorted[i], Size);
      cum := cum + sorted[i];
      curve := curve + [Point((i + 1) as real / n as real, if total > 0.0 then cum / total else 0.0)];
    }
  }

  method ComputeArea(curve: seq<Point>) returns (area: real)
    requires curve != []
    ensures area == Area(curve)
  {
    area := 0.0;
    for i := 1 to |curve|
      invariant area == Area(curve[..i])
    {
      var p, q := curve[i - 1], curve[i];
      assert curve[..i + 1][..i] == curve[..i];
      area := area + ((p.y + q.y) / 2.0) * (q.x - p.x);
    }
    assert curve[..|curve|] == curve;
  }

  // ---------------------------------------------------------------------
  // Shape of the curve
  // ---------------------------------------------------------------------

  ghost predicate NonNegative(s: seq<real>) {
    forall i :: 0 <= i < |s| ==> s[i] >= 0.0
  }

  ghost predicate Sizes(s: seq<real>) {
    s != [] && SortedBy(s, Size) && NonNegative(s) && Total(s) > 0.0
  }

  lemma SortedSizes(sizes: seq<real>)
    requires NonNegative(sizes) && Total(sizes) > 0.0
    ensures Sizes(SortBy(sizes, Size))
  {
    var s := SortBy(sizes, Size);
    SortSorted(sizes, Size);
    SumByPermutation(sizes, s, Size);
    forall i | 0 <= i < |s| ensures s[i] >= 0.0 {
      assert s[i] in multiset(s) && s[i] in multiset(sizes);
      var j :| 0 <= j < |sizes| && sizes[j] == s[i];
    }
  }

  lemma {:induction false} TotalAtMost(s: seq<real>, v: real)
    requires forall i :: 0 <= i < |s| ==> s[i] <= v
    ensures Total(s) <= |s| as real * v
  {
    if s != [] {
      TotalAtMost(s[..|s| - 1], v);
      Distribute(|s| as real - 1.0, 1.0, v);
    }
  }

  lemma {:induction false} TotalAtLeast(s: seq<real>, v: real)
    requires forall i :: 0 <= i < |s| ==> v <= s[i]
    ensures |s| as real * v <= Total(s)
  {
    if s != [] {
      TotalAtLeast(s[..|s| - 1], v);
      Distribute(|s| as real - 1.0, 1.0, v);
    }
  }

  lemma Distribute(x: real, y: real, z: real)
    ensures (x + y) * z == x * z + y * z
  {}

  lemma SplitTotal(s: seq<real>, k: nat)
    requires k <= |s|
    ensures Total(s) == Total(s[..k]) + Total(s[k..])
  {
    assert s == s[..k] + s[k..];
    SumByConcat(s[..k], s[k..], Size);
  }

  lemma PivotSplits(s: seq<real>, k: nat)
    requires SortedBy(s, Size) && k < |s|
    ensures forall i :: 0 <= i < k ==> s[..k][i] <= s[k]
    ensures forall i :: 0 <= i < |s| - k ==> s[k] <= s[k..][i]
  {
    forall i | 0 <= i < k ensures s[..k][i] <= s[k] {
      assert Size(s[i]) <= Size(s[k]);
    }
    forall i | 0 <= i < |s| - k ensures s[k] <= s[k..][i] {
      assert i == 0 || Size(s[k]) <= Size(s[k + i]);
    }
  }

  /** The k smallest of n sizes hold at most k/n of the total. */
  lemma PrefixShare(s: seq<real>, k: nat)
    requires SortedBy(s, Size) && k <= |s|
    ensures |s| as real * Total(s[..k]) <= k as real * Total(s)
  {
    hide Total;
    SplitTotal(s, k);
    if k == |s| {
      assert s[..k] == s;
    } else {
      var v := s[k];
      PivotSplits(s, k);
      hide SortedBy;
      TotalAtMost(s[..k], v);
      TotalAtLeast(s[k..], v);
      ShareArithmetic(k as real, (|s| - k) as real, v, Total(s[..k]), Total(s[k..]));
    }
  }

  lemma ShareArithmetic(k: real, m: real, v: real, low: real, high: real)
    requires k >= 0.0 && m >= 0.0 && low <= k * v && m * v <= high
    ensures (k + m) * low <= k * (low + high)
  {
    MulMonotone(low, k * v, m);
    MulMonotone(m * v, high, k);
    assert m * (k * v) == k * (m * v);
  }

  /** The curve lies on or below the diagonal and is convex. */
  lemma CurveShape(s: seq<real>, curve: seq<Point>, i: nat)
    requires Sizes(s) && IsCurveOf(curve, s) && i <= |s|
    ensures curve[i].y <= curve[i].x
    ensures i + 2 <= |s| ==> curve[i + 1].y - curve[i].y <= curve[i + 2].y - curve[i + 1].y
  {
    var t, n := Total(s), |s| as real;
    PrefixShare(s, i);
    BelowDiagonal(Total(s[..i]), t, i as real, n);
    if i + 2 <= |s| {
      assert s[..i + 1] == s[..i] + [s[i]] && s[..i + 2] == s[..i + 1] + [s[i + 1]];
      SumByAppend(s[..i], s[i], Size);
      SumByAppend(s[..i + 1], s[i + 1], Size);
      assert Size(s[i]) <= Size(s[i + 1]);
      hide Total;
      Quotients(Total(s[..i]), s[i], s[i + 1], t);
    }
  }

  lemma BelowDiagonal(c: real, t: real, i: real, n: real)
    requires t > 0.0 && n > 0.0 && n * c <= i * t
    ensures c / t <= i / n
  {
    var q := c / t;
    DivBounds(c, t, q);
    assert (n * q) * t == n * c;
    CancelPositive(n * q, i, t);
    DivBounds(i, n, q);
  }

  lemma CancelPositive(x: real, y: real, b: real)
    requires b > 0.0 && x * b <= y * b
    ensures x <= y
  {
    if x > y {
      MulPositive(x - y, b);
      Distribute(x, -y, b);
    }
  }

  lemma Quotients(c: real, a: real, b: real, t: real)
    requires t > 0.0 && a <= b
    ensures (c + a) / t - c / t <= (c + a + b) / t - (c + a) / t
  {
    assert (c + a) / t == c / t + a / t;
    assert (c + a + b) / t == (c + a) / t + b / t;
    assert (b - a) / t >= 0.0;
    assert b / t - a / t == (b - a) / t;
  }

  // ---------------------------------------------------------------------
  // The Gini coefficient
  // ---------------------------------------------------------------------

  /** Sum of i * x(i), sizes counted from 1. */
  function Weighted(s: seq<real>): real {
    if s == [] then 0.0 else Weighted(s[..|s| - 1]) + |s| as real * s[|s| - 1]
  }

  /** Twice the area, in units of one size step and one unit of size. */
  function Doubled(s: seq<real>): real {
    if s == [] then 0.0 else Doubled(s[..|s| - 1]) + Total(s[..|s| - 1]) + Total(s)
  }

  lemma {:induction false} DoubledWeighted(s: seq<real>)
    ensures Doubled(s) + 2.0 * Weighted(s) == (2 * |s| + 1) as real * Total(s)
  {
    if s != [] {
      var init, x := s[..|s| - 1], s[|s| - 1];
      DoubledWeighted(init);
      var n, c := |s| as real, Total(init);
      assert Total(s) == c + x;
      assert (2 * |init| + 1) as real == 2.0 * n - 1.0 && (2 * |s| + 1) as real == 2.0 * n + 1.0;
      hide Total, Doubled, Weighted;
      Distribute(2.0 * n - 1.0, 2.0, c);
      assert (2.0 * n + 1.0) * (c + x) == (2.0 * n + 1.0) * c + (2.0 * n + 1.0) * x;
      Distribute(2.0 * n, 1.0, x);
    } else {
      assert (2 * |s| + 1) as real * 0.0 == 0.0;
    }
  }

  lemma Trapezoid(a: real, b: real, k: real, n: real, t: real)
    requires n > 0.0 && t > 0.0
    ensures (a / t + b / t) / 2.0 * ((k + 1.0) / n - k / n) * (2.0 * n * t) == a + b
  {
    var h, w := a / t + b / t, (k + 1.0) / n - k / n;
    DivBounds(a, t, 0.0);
    DivBounds(b, t, 0.0);
    DivBounds(k, n, 0.0);
    DivBounds(k + 1.0, n, 0.0);
    assert h * t == a + b by { Distribute(a / t, b / t, t); }
    assert w * n == 1.0 by { Distribute((k + 1.0) / n, -(k / n), n); }
    calc {
      h / 2.0 * w * (2.0 * n * t);
      (h * t) * (w * n);
      a + b;
    }
  }

  function Slice(p: Point, q: Point): real {
    ((p.y + q.y) / 2.0) * (q.x - p.x)
  }

  lemma AreaAppend(curve: seq<Point>, k: nat)
    requires 0 < k < |curve|
    ensures Area(curve[..k + 1]) == Area(curve[..k]) + Slice(curve[k - 1], curve[k])
  {
    assert curve[..k + 1][..k] == curve[..k];
  }

  /** One step in x times the total, twice: the unit that makes every slice a plain sum. */
  function Scale(s: seq<real>): real {
    2.0 * |s| as real * Total(s)
  }

  lemma SliceScaled(s: seq<real>, curve: seq<Point>, k: nat)
    requires Total(s) > 0.0 && IsCurveOf(curve, s) && 0 < k <= |s|
    ensures Slice(curve[k - 1], curve[k]) * Scale(s) == Total(s[..k - 1]) + Total(s[..k])
  {
    assert curve[k - 1] == PointAt(s, k - 1) && curve[k] == PointAt(s, k);
    hide Total;
    assert k as real == (k - 1) as real + 1.0;
    Trapezoid(Total(s[..k - 1]), Total(s[..k]), (k - 1) as real, |s| as real, Total(s));
  }

  lemma DoubledStep(s: seq<real>, k: nat)
    requires 0 < k <= |s|
    ensures Doubled(s[..k]) == Doubled(s[..k - 1]) + Total(s[..k - 1]) + Total(s[..k])
  {
    hide Total;
    assert s[..k][..k - 1] == s[..k - 1];
  }

  /** area, in units of one slice of a size-t list of length n, is d. */
  ghost predicate ScaledTo(area: real, scale: real, d: real) {
    area * scale == d
  }

  lemma AddScaled(area: real, slice: real, scale: real, d: real, e: real)
    requires ScaledTo(area, scale, d) && slice * scale == e
    ensures ScaledTo(area + slice, scale, d + e)
  {
    Distribute(area, slice, scale);
  }

  ghost predicate AreaIsScaled(s: seq<real>, curve: seq<Point>, k: nat) {
    |curve| == |s| + 1 && k <= |s| && ScaledTo(Area(curve[..k + 1]), Scale(s), Doubled(s[..k]))
  }

  lemma AreaBase(s: seq<real>, curve: seq<Point>)
    requires |curve| == |s| + 1
    ensures AreaIsScaled(s, curve, 0)
  {
    hide Scale;
    assert s[..0] == [];
    assert Area(curve[..1]) == 0.0;
  }

  lemma AreaStep(s: seq<real>, curve: seq<Point>, k: nat)
    requires Total(s) > 0.0 && IsCurveOf(curve, s) && 0 < k <= |s| && AreaIsScaled(s, curve, k - 1)
    ensures AreaIsScaled(s, curve, k)
  {
    hide Area, Doubled, Total, Scale, ScaledTo, Slice, IsCurveOf;
    AreaAppend(curve, k);
    SliceScaled(s, curve, k);
    DoubledStep(s, k);
    AddScaled(Area(curve[..k]), Slice(curve[k - 1], curve[k]), Scale(s), Doubled(s[..k - 1]), Total(s[..k - 1]) + Total(s[..k]));
  }

  lemma {:induction false} AreaScaled(s: seq<real>, curve: seq<Point>, k: nat)
    requires Total(s) > 0.0 && IsCurveOf(curve, s) && k <= |s|
    ensures AreaIsScaled(s, curve, k)
  {
    hide Total, AreaIsScaled;
    if k > 0 {
      AreaScaled(s, curve, k - 1);
      AreaStep(s, curve, k);
    } else {
      AreaBase(s, curve);
    }
  }

  function GiniClosed(weighted: real, n: real, t: real): real
    requires n > 0.0 && t > 0.0
  {
    MulPositive(n, t);
    2.0 * weighted / (n * t) - (n + 1.0) / n
  }

  ghost predicate GiniScaled(g: real, d: real, n: real, t: real) {
    g * (n * t) == n * t - d
  }

  ghost predicate AreaRelation(area: real, d: real, n: real, t: real) {
    area * (2.0 * n * t) == d
  }

  ghost predicate Balanced(d: real, w: real, n: real, t: real) {
    d + 2.0 * w == (2.0 * n + 1.0) * t
  }

  lemma BalancedSizes(s: seq<real>)
    ensures Balanced(Doubled(s), Weighted(s), |s| as real, Total(s))
  {
    hide Doubled, Total, Weighted;
    DoubledWeighted(s);
    assert (2 * |s| + 1) as real == 2.0 * |s| as real + 1.0;
  }

  lemma AreaWhole(s: seq<real>, curve: seq<Point>)
    requires Total(s) > 0.0 && IsCurveOf(curve, s)
    ensures AreaRelation(Area(curve), Doubled(s), |s| as real, Total(s))
  {
    hide Area, Doubled, Total, IsCurveOf, ScaledTo, AreaRelation;
    AreaScaled(s, curve, |s|);
    CurveLength(s, curve);
    assert curve[..|s| + 1] == curve && s[..|s|] == s;
    AsRelation(Area(curve), Doubled(s), s);
  }

  lemma CurveLength(s: seq<real>, curve: seq<Point>)
    requires IsCurveOf(curve, s)
    ensures |curve| == |s| + 1
  {}

  lemma AsRelation(area: real, d: real, s: seq<real>)
    requires ScaledTo(area, Scale(s), d)
    ensures AreaRelation(area, d, |s| as real, Total(s))
  {
    hide Total;
  }

  /** The trapezoid Gini in closed form, over the sorted sizes. */
  lemma GiniFormula(s: seq<real>, curve: seq<Point>)
    requires Total(s) > 0.0 && IsCurveOf(curve, s)
    ensures |s| > 0 && RawGini(curve) == GiniClosed(Weighted(s), |s| as real, Total(s))
    ensures GiniScaled(RawGini(curve), Doubled(s), |s| as real, Total(s))
  {
    assert |s| > 0;
    hide Area, Doubled, Total, Weighted, IsCurveOf, AreaRelation, GiniClosed, GiniScaled, Balanced;
    AreaWhole(s, curve);
    BalancedSizes(s);
    ClosedForm(Area(curve), Doubled(s), Weighted(s), |s| as real, Total(s));
  }

  lemma ClosedForm(area: real, d: real, w: real, n: real, t: real)
    requires n > 0.0 && t > 0.0 && AreaRelation(area, d, n, t) && Balanced(d, w, n, t)
    ensures 1.0 - 2.0 * area == GiniClosed(w, n, t)
    ensures GiniScaled(1.0 - 2.0 * area, d, n, t)
  {
    MulPositive(n, t);
    var m := n * t;
    var g := 1.0 - 2.0 * area;
    assert area * (2.0 * n * t) == 2.0 * area * m;
    Distribute(1.0, -2.0 * area, m);
    assert (2.0 * n + 1.0) * t == 2.0 * m + t by { Distribute(2.0 * n, 1.0, t); }
    assert g * m == 2.0 * w - m - t;
    var r := 2.0 * w / m - (n + 1.0) / n;
    DivBounds(2.0 * w, m, 0.0);
    DivBounds(n + 1.0, n, 0.0);
    assert r * m == 2.0 * w - ((n + 1.0) / n) * m by { Distribute(2.0 * w / m, -((n + 1.0) / n), m); }
    assert ((n + 1.0) / n) * m == (((n + 1.0) / n) * n) * t;
    assert (n + 1.0) * t == m + t by { Distribute(n, 1.0, t); }
    assert g * m == r * m;
    CancelPositive(g, r, m);
    CancelPositive(r, g, m);
  }

  ghost predicate AtMostSquare(n: real, d: real, k: nat, t: real) {
    n * d <= (k * k) as real * t
  }

  lemma {:induction false} DoubledAtMost(s: seq<real>, k: nat)
    requires SortedBy(s, Size) && k <= |s|
    ensures AtMostSquare(|s| as real, Doubled(s[..k]), k, Total(s))
  {
    if k > 0 {
      hide *;
      DoubledAtMost(s, k - 1);
      PrefixShare(s, k - 1);
      PrefixShare(s, k);
      DoubledStep(s, k);
      QuadraticStep(|s| as real, Doubled(s[..k - 1]), Total(s[..k - 1]), Total(s[..k]), k, Total(s));
    } else {
      hide Total;
      assert s[..0] == [];
    }
  }

  lemma QuadraticStep(n: real, d: real, a: real, b: real, k: nat, t: real)
    requires k > 0 && AtMostSquare(n, d, k - 1, t)
    requires n * a <= (k - 1) as real * t && n * b <= k as real * t
    ensures AtMostSquare(n, d + a + b, k, t)
  {
    assert n * (d + a + b) == n * d + n * a + n * b;
    assert (k * k) as real == ((k - 1) * (k - 1)) as real + (k - 1) as real + k as real by {
      assert k * k == (k - 1) * (k - 1) + (k - 1) + k;
    }
    Distribute(((k - 1) * (k - 1)) as real, (k - 1) as real + k as real, t);
    Distribute((k - 1) as real, k as real, t);
  }

  lemma {:induction false} DoubledNonNegative(s: seq<real>)
    requires NonNegative(s)
    ensures Doubled(s) >= Total(s) >= 0.0
  {
    if s != [] {
      DoubledNonNegative(s[..|s| - 1]);
    }
  }

  /** For non-negative sizes with a positive total the Gini lies in [0, (n-1)/n]:
      the clamp in the program never acts. */
  lemma GiniRange(s: seq<real>, curve: seq<Point>)
    requires Sizes(s) && IsCurveOf(curve, s)
    ensures 0.0 <= RawGini(curve) <= (|s| - 1) as real / |s| as real
    ensures Max(0.0, Min(1.0, RawGini(curve))) == RawGini(curve)
  {
    hide Doubled, Total, Area, RawGini;
    var n, t, d := |s| as real, Total(s), Doubled(s);
    GiniFormula(s, curve);
    DoubledAtMost(s, |s|);
    DoubledNonNegative(s);
    assert s[..|s|] == s;
    assert (|s| * |s|) as real == n * n;
    assert (|s| - 1) as real == n - 1.0;
    hide IsCurveOf, Sizes;
    RangeArithmetic(RawGini(curve), d, n, t);
  }

  lemma RangeArithmetic(g: real, d: real, n: real, t: real)
    requires n >= 1.0 && t > 0.0
    requires GiniScaled(g, d, n, t) && n * d <= n * n * t && d >= t
    ensures 0.0 <= g <= (n - 1.0) / n <= 1.0
  {
    var m := n * t;
    MulPositive(n, t);
    assert d * n <= m * n;
    CancelPositive(d, m, n);
    CancelPositive(0.0, g, m);
    var q := (n - 1.0) / n;
    DivBounds(n - 1.0, n, 1.0);
    assert q * m == (q * n) * t;
    assert (n - 1.0) * t == m - t by { Distribute(n, -1.0, t); }
    CancelPositive(g, q, m);
  }

  lemma {:induction false} FlatArea(curve: seq<Point>)
    requires forall p :: p in curve ==> p.y == 0.0
    ensures Area(curve) == 0.0
  {
    if |curve| >= 2 {
      FlatArea(curve[..|curve| - 1]);
    }
  }

  /** Before rounding, the coefficient 1 is reached among non-negative sizes exactly where all are zero. */
  lemma GiniOneIff(s: seq<real>, curve: seq<Point>)
    requires s != [] && SortedBy(s, Size) && NonNegative(s) && IsCurveOf(curve, s)
    ensures RawGini(curve) == 1.0 <==> forall i :: 0 <= i < |s| ==> s[i] == 0.0
  {
    DoubledNonNegative(s);
    if Total(s) > 0.0 {
      GiniRange(s, curve);
      hide Area;
      DivBounds((|s| - 1) as real, |s| as real, 1.0);
      assert (|s| - 1) as real / |s| as real < 1.0;
      AllZero(s);
    } else {
      FlatArea(curve);
      AllZero(s);
    }
  }

  lemma {:induction false} AllZero(s: seq<real>)
    requires NonNegative(s)
    ensures Total(s) >= 0.0
    ensures Total(s) == 0.0 <==> forall i :: 0 <= i < |s| ==> s[i] == 0.0
  {
    if s != [] {
      var n := |s| - 1;
      AllZero(s[..n]);
      assert s == s[..n] + [s[n]];
    }
  }

  // ---------------------------------------------------------------------
  // What a caller is told, for any list
  // ---------------------------------------------------------------------

  /** For every list of non-negative sizes with a positive total, in any order: the reported curve is
      convex and on or below the diagonal, the coefficient has its closed form and lies in [0, (n-1)/n],
      and the reported figure is that coefficient to three decimals, not clamped. */
  lemma ReportShape(sizes: seq<real>, curve: seq<Point>, gini: real, i: nat)
    requires IsReport(sizes, curve, gini) && NonNegative(sizes) && Total(sizes) > 0.0 && i <= |sizes|
    ensures |curve| == |sizes| + 1 && curve[i].y <= curve[i].x
    ensures i + 2 <= |sizes| ==> curve[i + 1].y - curve[i].y <= curve[i + 2].y - curve[i + 1].y
    ensures sizes != [] && RawGini(curve) == GiniClosed(Weighted(SortBy(sizes, Size)), |sizes| as real, Total(sizes))
    ensures 0.0 <= RawGini(curve) <= (|sizes| - 1) as real / |sizes| as real
    ensures gini == ThreeDecimals(RawGini(curve))
  {
    var s := SortBy(sizes, Size);
    SortedSizes(sizes);
    SumByPermutation(sizes, s, Size);
    assert sizes != [];
    hide RawGini, GiniClosed, Weighted, SortBy, ThreeDecimals, SumBy;
    CurveShape(s, curve, i);
    GiniFormula(s, curve);
    GiniRange(s, curve);
  }

  ghost predicate AllZeros(sizes: seq<real>) {
    forall i :: 0 <= i < |sizes| ==> sizes[i] == 0.0
  }

  lemma ZerosReportOne(sizes: seq<real>, curve: seq<Point>, gini: real)
    requires IsReport(sizes, curve, gini) && sizes != [] && AllZeros(sizes)
    ensures gini == 1.0
  {
    var s := SortBy(sizes, Size);
    SortSorted(sizes, Size);
    forall i | 0 <= i < |s| ensures s[i] == 0.0 {
      SortedMember(sizes, s[i]);
    }
    GiniOneIff(s, curve);
  }

  lemma SortedMember(sizes: seq<real>, v: real)
    requires v in SortBy(sizes, Size)
    ensures exists j :: 0 <= j < |sizes| && sizes[j] == v
  {
    assert v in multiset(SortBy(sizes, Size));
    assert v in multiset(sizes);
  }

  lemma BelowRounding(g: real, n: real)
    requires 1.0 <= n <= 1999.0 && g <= (n - 1.0) / n
    ensures g < 0.9995
  {
    assert (n - 1.0) / n < 0.9995 by {
      DivBounds(n - 1.0, n, 0.99949975);
    }
  }

  lemma ThreeDecimalsOne(g: real)
    ensures g < 0.9995 ==> ThreeDecimals(g) < 1.0
    ensures 0.9995 <= g <= 1.0 ==> ThreeDecimals(g) == 1.0
  {}

  /** Below 2000 sizes a reported coefficient of 1 means that all sizes are zero. */
  lemma ReportedOneIff(sizes: seq<real>, curve: seq<Point>, gini: real)
    requires IsReport(sizes, curve, gini) && NonNegative(sizes) && 1 <= |sizes| < 2000
    ensures gini == 1.0 <==> AllZeros(sizes)
  {
    hide *;
    ZeroOrPositive(sizes);
    assert sizes != [];
    if Total(sizes) > 0.0 {
      BelowOne(sizes, curve, gini);
    } else {
      ZerosReportOne(sizes, curve, gini);
    }
  }

  lemma ZeroOrPositive(sizes: seq<real>)
    requires NonNegative(sizes)
    ensures Total(sizes) > 0.0 <==> !AllZeros(sizes)
  {
    AllZero(sizes);
  }

  lemma BelowOne(sizes: seq<real>, curve: seq<Point>, gini: real)
    requires IsReport(sizes, curve, gini) && NonNegative(sizes) && Total(sizes) > 0.0 && |sizes| < 2000
    ensures gini < 1.0
  {
    hide *;
    ReportShape(sizes, curve, gini, 0);
    BelowRounding(RawGini(curve), |sizes| as real);
    ThreeDecimalsOne(RawGini(curve));
  }

  /** n - 1 zeros and a single 1. */
  function OneHolder(n: nat): (s: seq<real>)
    requires n >= 1
    ensures |s| == n && s[n - 1] == 1.0 && forall i :: 0 <= i < n - 1 ==> s[i] == 0.0
  {
    seq(n, i => if i == n - 1 then 1.0 else 0.0)
  }

  function CurveOf(s: seq<real>): (curve: seq<Point>)
    requires s != []
    ensures IsCurveOf(curve, s)
  {
    seq(|s| + 1, i requires 0 <= i <= |s| => PointAt(s, i))
  }

  lemma SortOfSorted(s: seq<real>)
    requires SortedBy(s, Size)
    ensures SortBy(s, Size) == s
  {
    SortSorted(s, Size);
    forall k ensures WithKey(SortBy(s, Size), Size, k) == WithKey(s, Size, k) {
      SortStable(s, Size, k);
    }
    StableSortUnique(SortBy(s, Size), s, Size);
  }

  lemma {:induction false} ZeroDoubled(s: seq<real>)
    requires AllZeros(s)
    ensures Doubled(s) == 0.0 && Total(s) == 0.0
  {
    if s != [] {
      ZeroDoubled(s[..|s| - 1]);
    }
  }

  lemma OneHolderGini(n: nat)
    requires n >= 1
    ensures RawGini(CurveOf(OneHolder(n))) == (n - 1) as real / n as real
  {
    var s := OneHolder(n);
    var curve := CurveOf(s);
    ZeroDoubled(s[..n - 1]);
    assert Total(s) == 1.0 && Doubled(s) == 1.0;
    hide CurveOf, Total, Doubled, RawGini;
    GiniFormula(s, curve);
    assert (n - 1) as real == n as real - 1.0;
    OneShare(RawGini(curve), n as real);
  }

  lemma OneShare(g: real, n: real)
    requires n >= 1.0 && GiniScaled(g, 1.0, n, 1.0)
    ensures g == (n - 1.0) / n
  {
    assert g * n == n - 1.0;
  }

  /** From 2000 sizes on, one holder of everything is reported as 1 as well. */
  lemma OneHolderReported(n: nat, gini: real)
    requires n >= 2000
    requires IsReport(OneHolder(n), CurveOf(OneHolder(n)), gini)
    ensures gini == 1.0 && !AllZeros(OneHolder(n))
  {
    OneHolderGini(n);
    assert OneHolder(n)[n - 1] == 1.0;
    var g := (n - 1) as real / n as real;
    assert 0.9995 <= g <= 1.0 by {
      assert 0.9995 * n as real <= (n - 1) as real;
      DivBounds((n - 1) as real, n as real, 0.9995);
      DivBounds((n - 1) as real, n as real, 1.0);
    }
    ThreeDecimalsOne(g);
    hide RawGini, ThreeDecimals;
  }

  /** Among lists of n sizes only the all-zero one is reported with coefficient 1. */
  ghost predicate OnlyZerosReportOne(n: nat) {
    forall sizes, curve, gini ::
      |sizes| == n && NonNegative(sizes) && IsReport(sizes, curve, gini) && gini == 1.0 ==> AllZeros(sizes)
  }

  /** The exact limit of the rounding: that holds if and only if there are fewer than 2000 sizes. */
  lemma OnlyZerosReportOneIff(n: nat)
    requires n >= 1
    ensures OnlyZerosReportOne(n) <==> n < 2000
  {
    hide IsReport, ThreeDecimals, RawGini, CurveOf;
    if n < 2000 {
      forall sizes, curve, gini | |sizes| == n && NonNegative(sizes) && IsReport(sizes, curve, gini) && gini == 1.0
        ensures AllZeros(sizes)
      {
        ReportedOneIff(sizes, curve, gini);
      }
    } else {
      var s := OneHolder(n);
      var gini := OneHolderReport(n);
      OneHolderReported(n, gini);
    }
  }

  lemma OneHolderReport(n: nat) returns (gini: real)
    requires n >= 1
    ensures IsReport(OneHolder(n), CurveOf(OneHolder(n)), gini) && NonNegative(OneHolder(n))
  {
    var s := OneHolder(n);
    assert SortedBy(s, Size);
    SortOfSorted(s);
    gini := ThreeDecimals(Max(0.0, Min(1.0, RawGini(CurveOf(s)))));
  }
}
