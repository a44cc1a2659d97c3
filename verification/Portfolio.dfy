// src/analytics/portfolioOptimizer.ts: the signals, the Pareto filter and the
// overlap heuristic.
module Portfolio {
  import opened Numbers
  import opened Sequences

  datatype PortfolioSignal = PortfolioSignal(
    signalId: string,
    name: string,
    reach: real,
    cpm: real,
    specificity: real,
    category: string)

  // ---------------------------------------------------------------------
  // Pareto frontier: maximise reach, minimise cpm, maximise specificity.
  // ---------------------------------------------------------------------

  predicate Dominates(q: PortfolioSignal, p: PortfolioSignal) {
    && q.reach >= p.reach && q.cpm <= p.cpm && q.specificity >= p.specificity
    && (q.reach > p.reach || q.cpm < p.cpm || q.specificity > p.specificity)
  }

  ghost predicate Dominated(p: PortfolioSignal, points: seq<PortfolioSignal>) {
    exists q :: q in points && Dominates(q, p)
  }

  /** The subsequence of non-dominated points of s, with respect to points. */
  ghost function NonDominated(s: seq<PortfolioSignal>, points: seq<PortfolioSignal>): seq<PortfolioSignal> {
    Filter(s, p => !Dominated(p, points))
  }

  method IsDominated(points: seq<PortfolioSignal>, i: nat) returns (dominated: bool)
    requires i < |points|
    ensures dominated <==> Dominated(points[i], points)
  {
    var p := points[i];
    dominated := false;
    for j := 0 to |points|
      invariant !dominated
      invariant forall k :: 0 <= k < j ==> !Dominates(points[k], p)
    {
      if j != i && Dominates(points[j], p) {
        return true;
      }
    }
  }

  method ParetoFrontier(points: seq<PortfolioSignal>) returns (frontier: seq<PortfolioSignal>)
    ensures frontier == NonDominated(points, points)
  {
    hide Dominated, Filter, Dominates;
    frontier := [];
    for i := 0 to |points|
      invariant frontier == NonDominated(points[..i], points)
    {
      var dominated := IsDominated(points, i);
      FilterAppend(points[..i], points[i], p => !Dominated(p, points));
      assert points[..i + 1] == points[..i] + [points[i]];
      assert dominated <==> Dominated(points[i], points);
      if !dominated {
        frontier := frontier + [points[i]];
      }
    }
    assert points[..|points|] == points;
  }

  /** Soundness and completeness of the filter: exactly the non-dominated points, each as
      often as it was given. */
  lemma {:induction false} FrontierExact(s: seq<PortfolioSignal>, points: seq<PortfolioSignal>, p: PortfolioSignal)
    ensures p in NonDominated(s, points) <==> p in s && !Dominated(p, points)
    ensures multiset(NonDominated(s, points))[p] == if Dominated(p, points) then 0 else multiset(s)[p]
  {
    hide Dominated;
    if s != [] {
      var init, x := s[..|s| - 1], s[|s| - 1];
      assert s == init + [x];
      FrontierExact(init, points, p);
      FilterAppend(init, x, p => !Dominated(p, points));
      assert multiset(init + [x]) == multiset(init) + multiset{x};
      assert NonDominated(s, points) == NonDominated(init, points) + if Dominated(x, points) then [] else [x];
      hide NonDominated;
    }
  }

  function Score(p: PortfolioSignal): real {
    p.reach - p.cpm + p.specificity
  }

  lemma DominationTransitive(a: PortfolioSignal, b: PortfolioSignal, c: PortfolioSignal)
    requires Dominates(a, b) && Dominates(b, c)
    ensures Dominates(a, c)
  {}

  /** Among the dominators of p there is one of largest score. */
  lemma {:induction false} BestDominator(p: PortfolioSignal, s: seq<PortfolioSignal>) returns (best: PortfolioSignal)
    requires Dominated(p, s)
    ensures best in s && Dominates(best, p)
    ensures forall q :: q in s && Dominates(q, p) ==> Score(q) <= Score(best)
  {
    var n := |s| - 1;
    assert s == s[..n] + [s[n]];
    if Dominated(p, s[..n]) {
      best := BestDominator(p, s[..n]);
      if Dominates(s[n], p) && Score(s[n]) > Score(best) {
        best := s[n];
      }
    } else {
      best := s[n];
    }
  }

  /** Every input point is kept or dominated by a point that is kept. */
  lemma FrontierCovers(points: seq<PortfolioSignal>, p: PortfolioSignal)
    requires p in points
    ensures p in NonDominated(points, points) || Dominated(p, NonDominated(points, points))
  {
    FrontierExact(points, points, p);
    if Dominated(p, points) {
      var q := BestDominator(p, points);
      if Dominated(q, points) {
        var r :| r in points && Dominates(r, q);
        DominationTransitive(r, q, p);
      }
      FrontierExact(points, points, q);
    }
  }

  lemma FrontierNonEmpty(points: seq<PortfolioSignal>)
    requires points != []
    ensures NonDominated(points, points) != []
  {
    FrontierCovers(points, points[0]);
  }

  lemma FrontierIdempotent(points: seq<PortfolioSignal>)
    ensures NonDominated(NonDominated(points, points), NonDominated(points, points)) == NonDominated(points, points)
  {
    var f := NonDominated(points, points);
    forall p | p in f ensures !Dominated(p, f) {
      FrontierExact(points, points, p);
      if q :| q in f && Dominates(q, p) {
        FrontierExact(points, points, q);
      }
    }
    KeepAll(f, f);
  }

  lemma {:induction false} KeepAll(s: seq<PortfolioSignal>, points: seq<PortfolioSignal>)
    requires forall p :: p in s ==> !Dominated(p, points)
    ensures NonDominated(s, points) == s
  {
    if s != [] {
      KeepAll(s[..|s| - 1], points);
    }
  }

  // ---------------------------------------------------------------------
  // Overlap heuristic
  // ---------------------------------------------------------------------

  function Affinity(a: PortfolioSignal, b: PortfolioSignal): real {
    if a.category == b.category then 0.55 else 0.20
  }

  function HeuristicJaccard(a: PortfolioSignal, b: PortfolioSignal): real {
    var minR := Min(a.reach, b.reach);
    var maxR := Max(a.reach, b.reach);
    if maxR == 0.0 then 0.0 else Affinity(a, b) * (minR / maxR)
  }

  function SharedReach(c: PortfolioSignal, p: PortfolioSignal): real {
    HeuristicJaccard(c, p) * Min(c.reach, p.reach)
  }

  /** Reach of c that the picked signals are assumed to cover already. */
  function Overlap(c: PortfolioSignal, picked: seq<PortfolioSignal>): real {
    if picked == [] then 0.0
    else Overlap(c, picked[..|picked| - 1]) + SharedReach(c, picked[|picked| - 1])
  }

  function Marginal(c: PortfolioSignal, picked: seq<PortfolioSignal>): real {
    Max(0.0, c.reach - Overlap(c, picked))
  }

  function Cost(c: PortfolioSignal): real {
    c.reach * c.cpm / 1000.0
  }

  lemma SharedReachNonNegative(c: PortfolioSignal, p: PortfolioSignal)
    requires c.reach >= 0.0 && p.reach >= 0.0
    ensures SharedReach(c, p) >= 0.0
  {
    var minR := Min(c.reach, p.reach);
    var maxR := Max(c.reach, p.reach);
    if maxR != 0.0 {
      DivBounds(minR, maxR, 0.0);
      MulNonNegative(Affinity(c, p), minR / maxR);
      MulNonNegative(HeuristicJaccard(c, p), minR);
    }
  }

  /** More picked signals leave less of c's reach unclaimed. */
  lemma {:induction false} MarginalShrinks(c: PortfolioSignal, picked: seq<PortfolioSignal>, k: nat)
    requires k <= |picked|
    requires c.reach >= 0.0 && forall p :: p in picked ==> p.reach >= 0.0
    ensures Overlap(c, picked[..k]) <= Overlap(c, picked)
    ensures Marginal(c, picked) <= Marginal(c, picked[..k])
  {
    if k < |picked| {
      var n := |picked| - 1;
      MarginalShrinks(c, picked[..n], k);
      assert picked[..n][..k] == picked[..k];
      SharedReachNonNegative(c, picked[n]);
    } else {
      assert picked[..k] == picked;
    }
  }
}
