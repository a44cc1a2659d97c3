// src/analytics/audienceMath.ts and src/analytics/portfolioOptimizer.ts: what the reported concentration, the
// funnel and the Lorenz curve say about their inputs.
module ReportLaws {
  import opened Numbers
  import opened Sequences
  import opened AudienceReports
  import R = Ranking
  import Z = Lorenz

  // ---------------------------------------------------------------------
  // Concentration
  // ---------------------------------------------------------------------

  /** What some rows carry together. */
  function Carried(rows: seq<AffinityRow>): real {
    SumBy(rows, (r: AffinityRow) => r.selectionShare)
  }

  lemma CarriedIs(rows: seq<AffinityRow>)
    ensures Carried(rows) == SumBy(rows, Share)
  {
    SumByScaled(rows, Share, (r: AffinityRow) => r.selectionShare, 1.0);
  }

  function Positive(rows: seq<AffinityRow>): seq<AffinityRow> {
    Filter(rows, (r: AffinityRow) => r.selectionShare > 0.0)
  }

  lemma {:induction false} PositiveIs(rows: seq<AffinityRow>)
    ensures Positive(rows) == Filter(rows, IsLive)
  {
    if rows != [] {
      PositiveIs(rows[..|rows| - 1]);
    }
  }

  /** A choice of rows. */
  ghost predicate Chosen(sel: seq<AffinityRow>, rows: seq<AffinityRow>) {
    multiset(sel) <= multiset(rows)
  }

  lemma {:induction false} FilterChosen(rows: seq<AffinityRow>, p: AffinityRow -> bool)
    ensures Chosen(Filter(rows, p), rows)
  {
    if rows != [] {
      var init, r := rows[..|rows| - 1], rows[|rows| - 1];
      assert rows == init + [r];
      FilterChosen(init, p);
      FilterAppend(init, r, p);
    }
  }

  /** The reported figure k, for every list of rows: fewer than k rows never carry 80%.  If some choice of rows
      carries 80%, so does some choice of k rows; if none does, k is the number of rows with a positive share. */
  lemma ConcentrationMeans(rows: seq<AffinityRow>, k: nat) returns (best: seq<AffinityRow>)
    requires FirstReaching(Ranked(rows), k)
    ensures forall sel :: Chosen(sel, rows) && |sel| < k ==> Carried(sel) < 0.8
    ensures Chosen(best, rows) && |best| == k
    ensures (exists sel :: Chosen(sel, rows) && Carried(sel) >= 0.8) ==> Carried(best) >= 0.8
    ensures (forall sel :: Chosen(sel, rows) ==> Carried(sel) < 0.8) ==> k == |Positive(rows)|
  {
    PositiveIs(rows);
    FilterChosen(rows, IsLive);
    best := Ranked(rows)[..k];
    PrefixChosen(Ranked(rows), k, rows);
    CarriedIs(best);
    hide Ranked, Carried, SumBy, Chosen, FirstReaching;
    forall sel | Chosen(sel, rows) && |sel| < k ensures Carried(sel) < 0.8 {
      Fewer(rows, k, sel);
    }
    if sel :| Chosen(sel, rows) && Carried(sel) >= 0.8 {
      Enough(rows, k, sel);
    } else {
      NotReached(rows, k);
    }
  }

  lemma PrefixChosen(ranked: seq<AffinityRow>, k: nat, rows: seq<AffinityRow>)
    requires k <= |ranked| && Chosen(ranked, rows)
    ensures Chosen(ranked[..k], rows)
  {
    assert ranked == ranked[..k] + ranked[k..];
  }

  lemma Fewer(rows: seq<AffinityRow>, k: nat, sel: seq<AffinityRow>)
    requires FirstReaching(Ranked(rows), k) && Chosen(sel, rows) && |sel| < k
    ensures Carried(sel) < 0.8
  {
    hide Ranked, FirstReaching;
    CarriedIs(sel);
    ConcentrationOptimal(rows, k, sel);
  }

  lemma Enough(rows: seq<AffinityRow>, k: nat, sel: seq<AffinityRow>)
    requires FirstReaching(Ranked(rows), k) && Chosen(sel, rows) && Carried(sel) >= 0.8
    ensures k <= |Ranked(rows)| && SumBy(Ranked(rows)[..k], Share) >= 0.8
  {
    hide Ranked;
    CarriedIs(sel);
    ConcentrationReached(rows, k, sel);
  }

  lemma NotReached(rows: seq<AffinityRow>, k: nat)
    requires FirstReaching(Ranked(rows), k)
    requires forall sel :: Chosen(sel, rows) ==> Carried(sel) < 0.8
    ensures k == |Filter(rows, IsLive)|
  {
    FilterChosen(rows, IsLive);
    PrefixChosen(Ranked(rows), k, rows);
    CarriedIs(Ranked(rows)[..k]);
    hide SumBy, Carried;
    assert Carried(Ranked(rows)[..k]) < 0.8;
  }

  // ---------------------------------------------------------------------
  // Funnel
  // ---------------------------------------------------------------------

  /** x is a / b to four decimals, and 0 when b is not positive. */
  ghost predicate IsRate(x: real, a: real, b: real) {
    if b > 0.0 then -0.00005 * b <= x * b - a <= 0.00005 * b else x == 0.0
  }

  lemma {:induction false} RunningMinIs(stages: seq<Stage>)
    requires stages != []
    ensures forall j :: 0 <= j < |stages| ==> RunningMin(stages) <= stages[j].reach
    ensures exists j :: 0 <= j < |stages| && RunningMin(stages) == stages[j].reach
  {
    if |stages| == 1 {
      assert RunningMin(stages) == stages[0].reach;
    } else {
      var n := |stages| - 1;
      RunningMinIs(stages[..n]);
      var j :| 0 <= j < n && RunningMin(stages[..n]) == stages[..n][j].reach;
      assert stages[..n][j] == stages[j];
      forall i | 0 <= i < |stages| ensures RunningMin(stages) <= stages[i].reach {
        if i < n {
          assert stages[..n][i] == stages[i];
        }
      }
      assert RunningMin(stages) == stages[j].reach || RunningMin(stages) == stages[n].reach;
    }
  }

  lemma RateMeans(a: real, b: real)
    ensures IsRate(Rate4(if b > 0.0 then a / b else 0.0), a, b)
  {
    if b > 0.0 {
      DivBounds(a, b, 0.0);
      RateScaled(a / b, b, a);
    }
  }

  lemma RateScaled(q: real, b: real, a: real)
    requires b > 0.0 && q * b == a
    ensures -0.00005 * b <= Rate4(q) * b - a <= 0.00005 * b
  {
    var x := Rate4(q);
    assert -0.00005 <= x - q <= 0.00005;
    MulMonotone(x - q, 0.00005, b);
    MulMonotone(-0.00005, x - q, b);
    assert (x - q) * b == x * b - q * b;
  }

  /** Stage i reaches the least of the reaches so far, and is flagged exactly when that is less than its own; its
      rates are shares of the first and of the previous stage, and its drop-off is the difference to the latter. */
  lemma FunnelMeaning(stages: seq<Stage>, out: seq<StageOut>, i: nat)
    requires |out| == |stages| && i < |out|
    requires forall j :: 0 <= j < |out| ==> StageCorrect(stages, j, out[j])
    ensures out[i].name == stages[i].name && out[i].preClampReach == stages[i].reach
    ensures forall j :: 0 <= j <= i ==> out[i].reach <= stages[j].reach
    ensures exists j :: 0 <= j <= i && out[i].reach == stages[j].reach
    ensures out[i].clamped <==> out[i].reach < stages[i].reach
    ensures IsRate(out[i].cumulativeRate, out[i].reach, stages[0].reach)
    ensures i == 0 ==> out[0].conversionRate == 1.0 && out[0].droppedOff == 0.0
    ensures i > 0 ==> IsRate(out[i].conversionRate, out[i].reach, out[i - 1].reach) && out[i].droppedOff == out[i - 1].reach - out[i].reach
  {
    assert StageCorrect(stages, i, out[i]);
    RateMeans(out[i].reach, stages[0].reach);
    RunningMinIs(stages[..i + 1]);
    if i > 0 {
      assert StageCorrect(stages, i - 1, out[i - 1]);
      RateMeans(out[i].reach, out[i - 1].reach);
    }
    hide RunningMin, Rate4, IsRate;
    forall j | 0 <= j <= i ensures out[i].reach <= stages[j].reach {
      assert stages[..i + 1][j] == stages[j];
    }
    var j :| 0 <= j < i + 1 && RunningMin(stages[..i + 1]) == stages[..i + 1][j].reach;
    assert stages[..i + 1][j] == stages[j];
  }

  // ---------------------------------------------------------------------
  // Lorenz curve
  // ---------------------------------------------------------------------

  function Together(sizes: seq<real>): real {
    SumBy(sizes, (v: real) => v)
  }

  lemma TogetherIs(sizes: seq<real>)
    ensures Together(sizes) == Z.Total(sizes)
  {
    SumByScaled(sizes, Z.Size, (v: real) => v, 1.0);
  }

  /** The reported curve: n + 1 points; point i stands at i / n and has the share of the i smallest sizes.  It
      starts at (0, 0) and, when there is anything to share, ends at (1, 1). */
  lemma CurveMeans(sizes: seq<real>, curve: seq<Z.Point>, gini: real, i: nat) returns (sorted: seq<real>)
    requires Z.IsReport(sizes, curve, gini) && sizes != [] && i <= |sizes|
    ensures multiset(sorted) == multiset(sizes) && |sorted| == |sizes| && forall a, b :: 0 <= a < b < |sorted| ==> sorted[a] <= sorted[b]
    ensures |curve| == |sizes| + 1 && curve[i].x * |sizes| as real == i as real
    ensures Together(sizes) > 0.0 ==> curve[i].y * Together(sizes) == Together(sorted[..i])
    ensures Together(sizes) <= 0.0 ==> curve[i].y == 0.0
    ensures curve[0] == Z.Point(0.0, 0.0)
    ensures Together(sizes) > 0.0 ==> curve[|sizes|] == Z.Point(1.0, 1.0)
  {
    sorted := R.SortBy(sizes, Z.Size);
    hide R.SortBy, R.SortedBy, Together, Z.Total, Z.PointAt;
    R.SortSorted(sizes, Z.Size);
    SameTotal(sizes, sorted);
    TogetherIs(sizes);
    TogetherIs(sorted[..i]);
    Ascending(sorted);
    assert curve[i] == Z.PointAt(sorted, i) && curve[0] == Z.PointAt(sorted, 0) && curve[|sizes|] == Z.PointAt(sorted, |sizes|);
    PointMeans(sorted, i);
    Ends(sorted);
  }

  lemma SameTotal(a: seq<real>, b: seq<real>)
    requires multiset(a) == multiset(b)
    ensures Z.Total(a) == Z.Total(b)
  {
    SumByPermutation(a, b, Z.Size);
  }

  lemma PointMeans(s: seq<real>, i: nat)
    requires s != [] && i <= |s|
    ensures Z.PointAt(s, i).x * |s| as real == i as real
    ensures Z.Total(s) > 0.0 ==> Z.PointAt(s, i).y * Z.Total(s) == Z.Total(s[..i])
    ensures Z.Total(s) <= 0.0 ==> Z.PointAt(s, i).y == 0.0
  {
    hide Z.Total;
    DivBounds(i as real, |s| as real, 0.0);
    if Z.Total(s) > 0.0 {
      DivBounds(Z.Total(s[..i]), Z.Total(s), 0.0);
    }
  }

  lemma Ends(s: seq<real>)
    requires s != []
    ensures Z.PointAt(s, 0) == Z.Point(0.0, 0.0)
    ensures Z.Total(s) > 0.0 ==> Z.PointAt(s, |s|) == Z.Point(1.0, 1.0)
  {
    assert s[..0] == [] && s[..|s|] == s;
    assert Z.Total([]) == 0.0;
    hide Z.Total;
    SelfQuotient(|s| as real);
    if Z.Total(s) > 0.0 {
      SelfQuotient(Z.Total(s));
    }
  }

  lemma SelfQuotient(x: real)
    requires x > 0.0
    ensures x / x == 1.0 && 0.0 / x == 0.0
  {}

  lemma Ascending(s: seq<real>)
    requires R.SortedBy(s, Z.Size)
    ensures forall a, b :: 0 <= a < b < |s| ==> s[a] <= s[b]
  {
    forall a, b | 0 <= a < b < |s| ensures s[a] <= s[b] {
      assert Z.Size(s[a]) <= Z.Size(s[b]);
    }
  }

  /** The coefficient: one less twice the area under the curve, kept within 0 and 1, to three decimals. */
  lemma GiniMeans(sizes: seq<real>, curve: seq<Z.Point>, gini: real)
    requires Z.IsReport(sizes, curve, gini)
    ensures sizes == [] ==> gini == 0.0 && curve == [Z.Point(0.0, 0.0), Z.Point(1.0, 1.0)]
    ensures sizes != [] ==>
              var raw := 1.0 - 2.0 * Z.Area(curve);
              && (0.0 <= raw <= 1.0 ==> -0.5 <= 1000.0 * gini - 1000.0 * raw <= 0.5)
              && (raw < 0.0 ==> gini == 0.0) && (raw > 1.0 ==> gini == 1.0)
  {
    var raw := Z.RawGini(curve);
    hide Z.Area, Z.IsCurveOf, R.SortBy;
    Decimals(Max(0.0, Min(1.0, raw)));
  }

  lemma Decimals(g: real)
    ensures -0.5 <= 1000.0 * Z.ThreeDecimals(g) - 1000.0 * g <= 0.5
    ensures g == 0.0 ==> Z.ThreeDecimals(g) == 0.0
    ensures g == 1.0 ==> Z.ThreeDecimals(g) == 1.0
  {}

  /** The area gains one trapezoid with every point. */
  lemma AreaLaw(curve: seq<Z.Point>, p: Z.Point, q: Z.Point)
    ensures Z.Area([p]) == 0.0 && Z.Area(curve + [p, q]) == Z.Area(curve + [p]) + ((p.y + q.y) / 2.0) * (q.x - p.x)
  {
    var more := curve + [p, q];
    assert more[..|more| - 1] == curve + [p];
  }
}
