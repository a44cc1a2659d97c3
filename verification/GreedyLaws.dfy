// src/analytics/portfolioOptimizer.ts: what an optimizer run means in terms of the candidates' own reach and
// CPM.  All amounts are in thousandths: a signal costs reach * cpm of them.
module GreedyLaws {
  import opened Numbers
  import opened Sequences
  import opened Portfolio
  import opened Greedy

  lemma CostInThousandths(c: PortfolioSignal)
    ensures 1000.0 * Cost(c) == c.reach * c.cpm
  {}

  lemma SpendInThousandths(picked: seq<PortfolioSignal>)
    ensures 1000.0 * Spend(picked) == SumBy(picked, (p: PortfolioSignal) => p.reach * p.cpm)
  {
    forall p: PortfolioSignal ensures p.reach * p.cpm == 1000.0 * Cost(p) {
      CostInThousandths(p);
    }
    hide Cost;
    SumByScaled(picked, Cost, (p: PortfolioSignal) => p.reach * p.cpm, 1000.0);
  }

  /** Always-in: a candidate that is asked for and not excluded.  The others compete for the rest. */
  ghost predicate AlwaysIn(req: Request, c: PortfolioSignal) {
    c in req.candidates && c.signalId !in req.mustExclude && c.signalId in req.mustInclude
  }

  ghost predicate Competes(req: Request, c: PortfolioSignal) {
    c in req.candidates && c.signalId !in req.mustExclude && c.signalId !in req.mustInclude
  }

  lemma Pools(req: Request, c: PortfolioSignal)
    ensures c in IncludeFirst(req) <==> AlwaysIn(req, c)
    ensures c in Rest(req) <==> Competes(req, c)
  {}

  /** What the selection spends, against 1000 times the budget: within it exactly when the budget is not
      negative or some always-in signal has reach * cpm within it. */
  lemma BudgetInThousandths(req: Request, picked: seq<PortfolioSignal>)
    requires IsRun(req, picked)
    ensures SumBy(picked, (p: PortfolioSignal) => p.reach * p.cpm) <= 1000.0 * req.budget <==>
            req.budget >= 0.0 || exists c :: AlwaysIn(req, c) && c.reach * c.cpm <= 1000.0 * req.budget
  {
    SpendWithinBudget(req, picked);
    SpendInThousandths(picked);
    hide Spend, IsRun, SumBy;
    if c :| c in IncludeFirst(req) && Cost(c) <= req.budget {
      Pools(req, c);
      CostInThousandths(c);
    }
    if c :| AlwaysIn(req, c) && c.reach * c.cpm <= 1000.0 * req.budget {
      Pools(req, c);
      CostInThousandths(c);
    }
  }

  /** An always-in signal is taken exactly when it still fits beside those taken before it. */
  lemma ForcedStep(cs: seq<PortfolioSignal>, c: PortfolioSignal, budget: real)
    ensures var before := Forced(cs, budget);
            Forced(cs + [c], budget) ==
            if SumBy(before, (p: PortfolioSignal) => p.reach * p.cpm) + c.reach * c.cpm <= 1000.0 * budget then before + [c]
            else before
    ensures Forced([], budget) == []
  {
    assert (cs + [c])[..|cs|] == cs;
    SpendInThousandths(Forced(cs, budget));
    CostInThousandths(c);
    hide Spend, Cost, SumBy;
  }

  /** c can still be bought beside the selection, and its id is new to it. */
  ghost predicate Fits(c: PortfolioSignal, picked: seq<PortfolioSignal>, budget: real) {
    && SumBy(picked, (p: PortfolioSignal) => p.reach * p.cpm) + c.reach * c.cpm <= 1000.0 * budget
    && forall i :: 0 <= i < |picked| ==> picked[i].signalId != c.signalId
  }

  lemma FitsIsEligible(c: PortfolioSignal, picked: seq<PortfolioSignal>, budget: real)
    ensures Fits(c, picked, budget) <==> Eligible(c, picked, budget)
  {
    SpendInThousandths(picked);
    CostInThousandths(c);
    hide Spend, Cost, SumBy;
  }

  /** Every greedy pick competes and fits, adds reach, and no competitor that fits the same budget adds more;
      the selection was short of the limit, the budget and (after a greedy pick) the target before it. */
  lemma GreedyPick(req: Request, picked: seq<PortfolioSignal>, k: nat)
    requires IsRun(req, picked) && |Forced(IncludeFirst(req), req.budget)| <= k < |picked|
    ensures Competes(req, picked[k]) && Fits(picked[k], picked[..k], req.budget) && Marginal(picked[k], picked[..k]) > 0.0
    ensures forall c :: Competes(req, c) && Fits(c, picked[..k], req.budget) ==>
              Marginal(c, picked[..k]) <= Marginal(picked[k], picked[..k])
    ensures k < req.maxSignals && SumBy(picked[..k], (p: PortfolioSignal) => p.reach * p.cpm) < 1000.0 * req.budget
    ensures k > |Forced(IncludeFirst(req), req.budget)| && req.targetReach.Some? && req.targetReach.value != 0.0 ==>
              CumReach(picked[..k]) < req.targetReach.value
  {
    var before, rest := picked[..k], Rest(req);
    assert PhaseAt(req, picked, |Forced(IncludeFirst(req), req.budget)|, k);
    assert WantsMore(req, before, |Forced(IncludeFirst(req), req.budget)|);
    SpendInThousandths(before);
    RunPick(req, picked, k);
    var i: nat :| BestAmong(i, |rest|, rest, before, req.budget) && rest[i] == picked[k];
    hide Marginal, Spend, SumBy, IsRun, Fits, CumReach, Eligible;
    Pools(req, picked[k]);
    FitsIsEligible(picked[k], before, req.budget);
    forall c | Competes(req, c) && Fits(c, before, req.budget) ensures Marginal(c, before) <= Marginal(picked[k], before) {
      Pools(req, c);
      FitsIsEligible(c, before, req.budget);
      var j :| 0 <= j < |rest| && rest[j] == c;
    }
  }

  /** A run ends only at the limit, at the budget, at the target of its greedy picks, or when no competitor that
      fits adds any reach. */
  lemma RunEnds(req: Request, picked: seq<PortfolioSignal>)
    requires IsRun(req, picked)
    ensures |picked| >= req.maxSignals
         || SumBy(picked, (p: PortfolioSignal) => p.reach * p.cpm) >= 1000.0 * req.budget
         || (|picked| > |Forced(IncludeFirst(req), req.budget)| && req.targetReach.Some? && req.targetReach.value != 0.0
             && CumReach(picked) >= req.targetReach.value)
         || forall c :: Competes(req, c) && Fits(c, picked, req.budget) ==> Marginal(c, picked) <= 0.0
  {
    var rest := Rest(req);
    SpendInThousandths(picked);
    if WantsMore(req, picked, |Forced(IncludeFirst(req), req.budget)|) {
      assert NothingAmong(|rest|, rest, picked, req.budget);
      hide Marginal, Spend, SumBy, IsRun, Fits, Eligible;
      forall c | Competes(req, c) && Fits(c, picked, req.budget) ensures Marginal(c, picked) <= 0.0 {
        Pools(req, c);
        FitsIsEligible(c, picked, req.budget);
        var j :| 0 <= j < |rest| && rest[j] == c;
      }
    }
  }

  /** The reach two signals share, by category, without a quotient. */
  lemma SharedReachLaw(c: PortfolioSignal, p: PortfolioSignal)
    requires c.reach > 0.0 && p.reach > 0.0
    ensures SharedReach(c, p) * Max(c.reach, p.reach) ==
            (if c.category == p.category then 0.55 else 0.20) * (Min(c.reach, p.reach) * Min(c.reach, p.reach))
  {
    var lo, hi := Min(c.reach, p.reach), Max(c.reach, p.reach);
    var a := if c.category == p.category then 0.55 else 0.20;
    DivBounds(lo, hi, 0.0);
    Requotient(a, lo, hi, lo / hi);
  }

  /** What a candidate adds: its reach less what it shares with each pick, not below zero. */
  lemma MarginalLaw(c: PortfolioSignal, picked: seq<PortfolioSignal>)
    ensures Marginal(c, picked) == Max(0.0, c.reach - SumBy(picked, (p: PortfolioSignal) => SharedReach(c, p)))
  {
    OverlapIsSum(c, picked);
  }

  lemma {:induction false} OverlapIsSum(c: PortfolioSignal, picked: seq<PortfolioSignal>)
    ensures Overlap(c, picked) == SumBy(picked, (p: PortfolioSignal) => SharedReach(c, p))
  {
    hide SharedReach;
    if picked != [] {
      OverlapIsSum(c, picked[..|picked| - 1]);
    }
  }

  /** The reported rows: one per pick, in order, priced at reach * cpm, with the pick's marginal reach and the
      running total of marginals. */
  lemma {:induction false} TrailRows(picked: seq<PortfolioSignal>, i: nat)
    requires i < |picked|
    ensures |Trail(picked)| == |picked|
    ensures var row := Trail(picked)[i];
            && row.signalId == picked[i].signalId && row.name == picked[i].name && row.cpm == picked[i].cpm
            && 1000.0 * row.cost == picked[i].reach * picked[i].cpm
            && row.marginalReach == Marginal(picked[i], picked[..i])
            && row.cumulativeReach == (if i == 0 then 0.0 else Trail(picked)[i - 1].cumulativeReach) + row.marginalReach
  {
    hide Cost, Marginal;
    var n := |picked| - 1;
    CostInThousandths(picked[n]);
    if n > 0 {
      TrailRows(picked[..n], if i < n then i else n - 1);
      LastTotal(picked[..n]);
    }
    if i < n {
      assert picked[..n][..i] == picked[..i];
    }
  }

  lemma LastTotal(picked: seq<PortfolioSignal>)
    requires picked != []
    ensures |Trail(picked)| > 0 && Trail(picked)[|Trail(picked)| - 1].cumulativeReach == CumReach(picked)
  {
    hide Cost, Marginal;
  }

  /** The reported totals: spend in cents, reach and waste rounded, reach per thousand spent. */
  lemma ReportedTotals(req: Request, picked: seq<PortfolioSignal>)
    ensures var result, thousandths := Summarise(req, picked), SumBy(picked, (p: PortfolioSignal) => p.reach * p.cpm);
            && result.picked == Trail(picked) && result.candidatesConsidered == |req.candidates|
            && result.budget == req.budget && result.targetReach == req.targetReach
            && result.totalCost * 100.0 == Round(thousandths / 10.0) as real
            && (picked == [] ==> result.totalUniqueReach == 0)
            && (picked != [] ==> result.totalUniqueReach == Round(Trail(picked)[|Trail(picked)| - 1].cumulativeReach))
            && (thousandths > 0.0 && picked != [] ==>
                  result.efficiency == Round(Trail(picked)[|Trail(picked)| - 1].cumulativeReach / (thousandths / 1_000_000.0)))
            && (thousandths <= 0.0 ==> result.efficiency == 0)
            && result.overlapWaste == Round(Waste(picked))
  {
    SpendInThousandths(picked);
    if picked != [] {
      LastTotal(picked);
    }
    hide SumBy, Trail, CumReach, Waste;
    assert Spend(picked) * 100.0 == (1000.0 * Spend(picked)) / 10.0;
    assert Spend(picked) / 1000.0 == (1000.0 * Spend(picked)) / 1_000_000.0;
    assert CumReach([]) == 0.0 by {
      NothingReached();
    }
  }

  lemma NothingReached()
    ensures CumReach([]) == 0.0
  {}

  /** Waste adds up what each pick shares with the picks before it. */
  lemma WasteStep(picked: seq<PortfolioSignal>, c: PortfolioSignal)
    ensures Waste(picked + [c]) == Waste(picked) + SumBy(picked, (p: PortfolioSignal) => SharedReach(c, p))
    ensures Waste([]) == 0.0
  {
    AppendTotals(picked, c);
    OverlapIsSum(c, picked);
  }

  /** A point is on the frontier exactly when any point at least as good in all three respects is no better in any. */
  lemma FrontierMeaning(points: seq<PortfolioSignal>, p: PortfolioSignal)
    ensures p in NonDominated(points, points) <==>
            p in points && forall q :: q in points && q.reach >= p.reach && q.cpm <= p.cpm && q.specificity >= p.specificity ==>
              q.reach == p.reach && q.cpm == p.cpm && q.specificity == p.specificity
  {
    FrontierExact(points, points, p);
    hide NonDominated;
    if p in points && !Dominated(p, points) {
      forall q | q in points && q.reach >= p.reach && q.cpm <= p.cpm && q.specificity >= p.specificity
        ensures q.reach == p.reach && q.cpm == p.cpm && q.specificity == p.specificity
      {
        assert !Dominates(q, p);
      }
    }
  }
}
