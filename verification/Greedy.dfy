// src/analytics/portfolioOptimizer.ts: budgeted greedy selection.
module Greedy {
  import opened Numbers
  import opened Sequences
  import opened Portfolio

  datatype Request = Request(
    candidates: seq<PortfolioSignal>,
    budget: real,
    maxSignals: int,
    targetReach: Option<real>,
    mustInclude: seq<string>,
    mustExclude: seq<string>)

  datatype TrailRow = TrailRow(
    signalId: string,
    name: string,
    cost: real,
    marginalReach: real,
    cumulativeReach: real,
    cpm: real)

  datatype OptimizationResult = OptimizationResult(
    budget: real,
    targetReach: Option<real>,
    picked: seq<TrailRow>,
    totalCost: real,
    totalUniqueReach: int,
    efficiency: int,
    overlapWaste: int,
    candidatesConsidered: nat)

  // Totals of a selection, in pick order.

  function Spend(picked: seq<PortfolioSignal>): real {
    SumBy(picked, Cost)
  }

  function CumReach(picked: seq<PortfolioSignal>): real {
    if picked == [] then 0.0
    else
      var n := |picked| - 1;
      CumReach(picked[..n]) + Marginal(picked[n], picked[..n])
  }

  function Waste(picked: seq<PortfolioSignal>): real {
    if picked == [] then 0.0
    else
      var n := |picked| - 1;
      Waste(picked[..n]) + Overlap(picked[n], picked[..n])
  }

  function Row(picked: seq<PortfolioSignal>, c: PortfolioSignal): TrailRow {
    TrailRow(c.signalId, c.name, Cost(c), Marginal(c, picked), CumReach(picked) + Marginal(c, picked), c.cpm)
  }

  function Trail(picked: seq<PortfolioSignal>): seq<TrailRow> {
    if picked == [] then []
    else Trail(picked[..|picked| - 1]) + [Row(picked[..|picked| - 1], picked[|picked| - 1])]
  }

  function Summarise(req: Request, picked: seq<PortfolioSignal>): OptimizationResult {
    var spent, cum := Spend(picked), CumReach(picked);
    OptimizationResult(
      req.budget, req.targetReach, Trail(picked),
      Round(spent * 100.0) as real / 100.0,
      Round(cum),
      if spent > 0.0 then Round(cum / (spent / 1000.0)) else 0,
      Round(Waste(picked)),
      |req.candidates|)
  }

  lemma AppendTotals(picked: seq<PortfolioSignal>, c: PortfolioSignal)
    ensures Spend(picked + [c]) == Spend(picked) + Cost(c)
    ensures CumReach(picked + [c]) == CumReach(picked) + Marginal(c, picked)
    ensures Waste(picked + [c]) == Waste(picked) + Overlap(c, picked)
    ensures Trail(picked + [c]) == Trail(picked) + [Row(picked, c)]
  {
    assert (picked + [c])[..|picked|] == picked;
  }

  // ---------------------------------------------------------------------
  // What a run is
  // ---------------------------------------------------------------------

  function Pool(req: Request): seq<PortfolioSignal> {
    Filter(req.candidates, (c: PortfolioSignal) => c.signalId !in req.mustExclude)
  }

  function IncludeFirst(req: Request): seq<PortfolioSignal> {
    Filter(Pool(req), (c: PortfolioSignal) => c.signalId in req.mustInclude)
  }

  function Rest(req: Request): seq<PortfolioSignal> {
    Filter(Pool(req), (c: PortfolioSignal) => c.signalId !in req.mustInclude)
  }

  /** The always-in signals that still fit the budget when their turn comes. */
  function Forced(cs: seq<PortfolioSignal>, budget: real): seq<PortfolioSignal> {
    if cs == [] then []
    else
      var before := Forced(cs[..|cs| - 1], budget);
      var c := cs[|cs| - 1];
      if Spend(before) + Cost(c) > budget then before else before + [c]
  }

  predicate IsPicked(id: string, picked: seq<PortfolioSignal>) {
    exists i :: 0 <= i < |picked| && picked[i].signalId == id
  }

  predicate Eligible(c: PortfolioSignal, picked: seq<PortfolioSignal>, budget: real) {
    !IsPicked(c.signalId, picked) && Spend(picked) + Cost(c) <= budget
  }

  /** rest[i] has the largest positive marginal among the first n candidates that are unpicked and
      affordable, and is the first one that has it. */
  ghost predicate BestAmong(i: nat, n: nat, rest: seq<PortfolioSignal>, picked: seq<PortfolioSignal>, budget: real) {
    && i < n <= |rest|
    && Eligible(rest[i], picked, budget)
    && Marginal(rest[i], picked) > 0.0
    && (forall j {:trigger rest[j]} :: 0 <= j < n && Eligible(rest[j], picked, budget) ==>
          Marginal(rest[j], picked) <= Marginal(rest[i], picked))
    && (forall j {:trigger rest[j]} :: 0 <= j < i && Eligible(rest[j], picked, budget) ==>
          Marginal(rest[j], picked) < Marginal(rest[i], picked))
  }

  ghost predicate NothingAmong(n: nat, rest: seq<PortfolioSignal>, picked: seq<PortfolioSignal>, budget: real) {
    n <= |rest| && forall j {:trigger rest[j]} :: 0 <= j < n && Eligible(rest[j], picked, budget) ==> Marginal(rest[j], picked) <= 0.0
  }

  ghost predicate BestNext(c: PortfolioSignal, rest: seq<PortfolioSignal>, picked: seq<PortfolioSignal>, budget: real) {
    exists i: nat :: BestAmong(i, |rest|, rest, picked, budget) && rest[i] == c
  }

  /** A target of 0 counts as no target. */
  predicate TargetMet(req: Request, picked: seq<PortfolioSignal>) {
    req.targetReach.Some? && req.targetReach.value != 0.0 && CumReach(picked) >= req.targetReach.value
  }

  /** The greedy loop looks for one more pick after the selection `picked`, of which the
      first f were forced; the target is looked at only after a greedy pick. */
  ghost predicate WantsMore(req: Request, picked: seq<PortfolioSignal>, f: nat) {
    && |picked| < req.maxSignals
    && Spend(picked) < req.budget
    && (|picked| > f ==> !TargetMet(req, picked))
  }

  /** Pick k was wanted and was the best one available. */
  ghost predicate PhaseAt(req: Request, picked: seq<PortfolioSignal>, f: nat, k: nat)
    requires k < |picked|
  {
    WantsMore(req, picked[..k], f) && BestNext(picked[k], Rest(req), picked[..k], req.budget)
  }

  ghost predicate GreedyPhase(req: Request, picked: seq<PortfolioSignal>, f: nat) {
    forall k: nat :: f <= k < |picked| ==> PhaseAt(req, picked, f, k)
  }

  ghost predicate IsRun(req: Request, picked: seq<PortfolioSignal>) {
    var forced := Forced(IncludeFirst(req), req.budget);
    && forced <= picked
    && GreedyPhase(req, picked, |forced|)
    && (WantsMore(req, picked, |forced|) ==> NothingAmong(|Rest(req)|, Rest(req), picked, req.budget))
  }

  // ---------------------------------------------------------------------
  // The allocator
  // ---------------------------------------------------------------------

  method ForceInclude(cs: seq<PortfolioSignal>, budget: real)
    returns (picked: seq<PortfolioSignal>, trail: seq<TrailRow>, spent: real, cumReach: real, overlapWaste: real)
    ensures picked == Forced(cs, budget)
    ensures trail == Trail(picked) && spent == Spend(picked) && cumReach == CumReach(picked) && overlapWaste == Waste(picked)
  {
    picked, trail, spent, cumReach, overlapWaste := [], [], 0.0, 0.0, 0.0;
    for i := 0 to |cs|
      invariant picked == Forced(cs[..i], budget)
      invariant trail == Trail(picked) && spent == Spend(picked) && cumReach == CumReach(picked) && overlapWaste == Waste(picked)
    {
      assert cs[..i + 1][..i] == cs[..i];
      var c := cs[i];
      var cost := Cost(c);
      if spent + cost > budget {
        continue;
      }
      var overlap := Overlap(c, picked);
      var marg := Max(0.0, c.reach - overlap);
      AppendTotals(picked, c);
      trail := trail + [TrailRow(c.signalId, c.name, cost, marg, cumReach + marg, c.cpm)];
      picked := picked + [c];
      spent, cumReach, overlapWaste := spent + cost, cumReach + marg, overlapWaste + overlap;
    }
    assert cs[..|cs|] == cs;
  }

  method FindBest(rest: seq<PortfolioSignal>, picked: seq<PortfolioSignal>, spent: real, budget: real)
    returns (best: Option<nat>, bestMarg: real)
    requires spent == Spend(picked)
    ensures best.Some? ==> BestAmong(best.value, |rest|, rest, picked, budget) && bestMarg == Marginal(rest[best.value], picked)
    ensures best.None? ==> NothingAmong(|rest|, rest, picked, budget)
  {
    best, bestMarg := None, 0.0;
    for i := 0 to |rest|
      invariant best.Some? ==> BestAmong(best.value, i, rest, picked, budget) && bestMarg == Marginal(rest[best.value], picked)
      invariant best.None? ==> NothingAmong(i, rest, picked, budget) && bestMarg == 0.0
    {
      var c := rest[i];
      if IsPicked(c.signalId, picked) {
        continue;
      }
      if spent + Cost(c) > budget {
        continue;
      }
      var marg := Max(0.0, c.reach - Overlap(c, picked));
      if marg > bestMarg {
        best, bestMarg := Some(i), marg;
      }
    }
  }

  /** The positions of rest whose signal id is not picked yet: the loop's termination measure. */
  ghost function Unpicked(rest: seq<PortfolioSignal>, picked: seq<PortfolioSignal>): set<nat> {
    set i: nat | i < |rest| && !IsPicked(rest[i].signalId, picked)
  }

  lemma UnpickedShrinks(rest: seq<PortfolioSignal>, picked: seq<PortfolioSignal>, i: nat)
    requires i < |rest| && !IsPicked(rest[i].signalId, picked)
    ensures Unpicked(rest, picked + [rest[i]]) < Unpicked(rest, picked)
  {
    var more := picked + [rest[i]];
    forall id | IsPicked(id, picked) ensures IsPicked(id, more) {
      var k :| 0 <= k < |picked| && picked[k].signalId == id;
      assert more[k].signalId == id;
    }
    assert more[|picked|].signalId == rest[i].signalId;
    assert i in Unpicked(rest, picked) && i !in Unpicked(rest, more);
  }

  lemma PhaseExtends(req: Request, picked: seq<PortfolioSignal>, f: nat, c: PortfolioSignal)
    requires f <= |picked| && GreedyPhase(req, picked, f)
    requires WantsMore(req, picked, f) && BestNext(c, Rest(req), picked, req.budget)
    ensures GreedyPhase(req, picked + [c], f)
  {
    hide WantsMore, BestNext;
    var more := picked + [c];
    forall k: nat | f <= k < |more| ensures PhaseAt(req, more, f, k) {
      if k < |picked| {
        assert PhaseAt(req, picked, f, k);
        assert more[..k] == picked[..k] && more[k] == picked[k];
      } else {
        assert more[..k] == picked && more[k] == c;
      }
    }
  }

  ghost predicate Tally(picked: seq<PortfolioSignal>, trail: seq<TrailRow>, spent: real, cumReach: real, overlapWaste: real) {
    trail == Trail(picked) && spent == Spend(picked) && cumReach == CumReach(picked) && overlapWaste == Waste(picked)
  }

  method GreedyPicks(req: Request, rest: seq<PortfolioSignal>, picked0: seq<PortfolioSignal>, trail0: seq<TrailRow>,
                     spent0: real, cumReach0: real, overlapWaste0: real)
    returns (picked: seq<PortfolioSignal>, trail: seq<TrailRow>, spent: real, cumReach: real, overlapWaste: real)
    requires rest == Rest(req) && Tally(picked0, trail0, spent0, cumReach0, overlapWaste0)
    ensures Tally(picked, trail, spent, cumReach, overlapWaste)
    ensures picked0 <= picked && GreedyPhase(req, picked, |picked0|)
    ensures WantsMore(req, picked, |picked0|) ==> NothingAmong(|rest|, rest, picked, req.budget)
  {
    picked, trail, spent, cumReach, overlapWaste := picked0, trail0, spent0, cumReach0, overlapWaste0;
    var met := false;
    while !met && |picked| < req.maxSignals && spent < req.budget
      invariant Tally(picked, trail, spent, cumReach, overlapWaste)
      invariant picked0 <= picked && GreedyPhase(req, picked, |picked0|)
      invariant met <==> |picked| > |picked0| && TargetMet(req, picked)
      decreases Unpicked(rest, picked)
    {
      var best, bestMarg := FindBest(rest, picked, spent, req.budget);
      if best.None? {
        break;
      }
      var c := rest[best.value];
      AppendTotals(picked, c);
      PhaseExtends(req, picked, |picked0|, c);
      UnpickedShrinks(rest, picked, best.value);
      trail := trail + [TrailRow(c.signalId, c.name, Cost(c), bestMarg, cumReach + bestMarg, c.cpm)];
      spent, cumReach, overlapWaste := spent + Cost(c), cumReach + bestMarg, overlapWaste + Overlap(c, picked);
      picked := picked + [c];
      met := req.targetReach.Some? && req.targetReach.value != 0.0 && cumReach >= req.targetReach.value;
    }
  }

  /** The loops end with the totals of the request's one run. */
  method GreedyMarginalReach(req: Request) returns (result: OptimizationResult)
    ensures exists picked :: IsRun(req, picked) && result == Summarise(req, picked)
    ensures forall picked :: IsRun(req, picked) ==> result == Summarise(req, picked)
  {
    hide GreedyPhase, WantsMore, NothingAmong, Spend, CumReach, Waste, Trail, Forced;
    var includeFirst, rest := IncludeFirst(req), Rest(req);
    var chosen, trail, spent, cumReach, overlapWaste := ForceInclude(includeFirst, req.budget);
    chosen, trail, spent, cumReach, overlapWaste := GreedyPicks(req, rest, chosen, trail, spent, cumReach, overlapWaste);
    result := OptimizationResult(
      req.budget, req.targetReach, trail,
      Round(spent * 100.0) as real / 100.0,
      Round(cumReach),
      if spent > 0.0 then Round(cumReach / (spent / 1000.0)) else 0,
      Round(overlapWaste),
      |req.candidates|);
    assert IsRun(req, chosen) && result == Summarise(req, chosen);
    hide IsRun, Summarise;
    forall picked | IsRun(req, picked) ensures result == Summarise(req, picked) {
      RunUnique(req, picked, chosen);
    }
  }

  // ---------------------------------------------------------------------
  // Properties of every run
  // ---------------------------------------------------------------------

  lemma BestNextUnique(c: PortfolioSignal, d: PortfolioSignal, rest: seq<PortfolioSignal>, picked: seq<PortfolioSignal>, budget: real)
    requires BestNext(c, rest, picked, budget) && BestNext(d, rest, picked, budget)
    ensures c == d
  {
    var i: nat :| BestAmong(i, |rest|, rest, picked, budget) && rest[i] == c;
    var j: nat :| BestAmong(j, |rest|, rest, picked, budget) && rest[j] == d;
  }

  /** IsRun pins the selection down completely: the request has one run. */
  lemma RunUnique(req: Request, a: seq<PortfolioSignal>, b: seq<PortfolioSignal>)
    requires IsRun(req, a) && IsRun(req, b)
    ensures a == b
  {
    AgreeUpTo(req, a, b, if |a| <= |b| then |a| else |b|);
    assert a[..|a|] == a && b[..|b|] == b;
    if |a| < |b| {
      NotStuck(req, b, |a|);
    } else if |b| < |a| {
      NotStuck(req, a, |b|);
    }
  }

  /** The k-th pick of a run: forced, or the best one available. */
  lemma RunPick(req: Request, picked: seq<PortfolioSignal>, k: nat)
    requires IsRun(req, picked) && k < |picked|
    ensures k < |Forced(IncludeFirst(req), req.budget)| ==> picked[k] == Forced(IncludeFirst(req), req.budget)[k]
    ensures k >= |Forced(IncludeFirst(req), req.budget)| ==> BestNext(picked[k], Rest(req), picked[..k], req.budget)
  {
    if k >= |Forced(IncludeFirst(req), req.budget)| {
      assert PhaseAt(req, picked, |Forced(IncludeFirst(req), req.budget)|, k);
    }
  }

  lemma SamePick(req: Request, a: seq<PortfolioSignal>, b: seq<PortfolioSignal>, k: nat)
    requires IsRun(req, a) && IsRun(req, b) && k < |a| && k < |b| && a[..k] == b[..k]
    ensures a[k] == b[k]
  {
    RunPick(req, a, k);
    RunPick(req, b, k);
    if |Forced(IncludeFirst(req), req.budget)| <= k {
      BestNextUnique(a[k], b[k], Rest(req), a[..k], req.budget);
    }
  }

  lemma ExtendAgreement<T>(a: seq<T>, b: seq<T>, k: nat)
    requires k < |a| && k < |b| && a[..k] == b[..k] && a[k] == b[k]
    ensures a[..k + 1] == b[..k + 1]
  {
    assert a[..k + 1] == a[..k] + [a[k]];
    assert b[..k + 1] == b[..k] + [b[k]];
  }

  lemma {:induction false} AgreeUpTo(req: Request, a: seq<PortfolioSignal>, b: seq<PortfolioSignal>, k: nat)
    requires IsRun(req, a) && IsRun(req, b) && k <= |a| && k <= |b|
    ensures a[..k] == b[..k]
  {
    if k > 0 {
      AgreeUpTo(req, a, b, k - 1);
      SamePick(req, a, b, k - 1);
      ExtendAgreement(a, b, k - 1);
    }
  }

  /** Before its last pick a run wants more and has something eligible. */
  lemma NotStuck(req: Request, b: seq<PortfolioSignal>, k: nat)
    requires IsRun(req, b) && |Forced(IncludeFirst(req), req.budget)| <= k < |b|
    ensures WantsMore(req, b[..k], |Forced(IncludeFirst(req), req.budget)|)
    ensures !NothingAmong(|Rest(req)|, Rest(req), b[..k], req.budget)
  {
    assert PhaseAt(req, b, |Forced(IncludeFirst(req), req.budget)|, k);
    assert BestNext(b[k], Rest(req), b[..k], req.budget);
  }

  ghost predicate NonNegative(s: seq<PortfolioSignal>) {
    forall c :: c in s ==> c.reach >= 0.0 && c.cpm >= 0.0
  }

  lemma {:induction false} ForcedWithin(cs: seq<PortfolioSignal>, budget: real)
    ensures forall c :: c in Forced(cs, budget) ==> c in cs
    ensures Forced(cs, budget) != [] ==> Spend(Forced(cs, budget)) <= budget
  {
    if cs != [] {
      ForcedWithin(cs[..|cs| - 1], budget);
      AppendTotals(Forced(cs[..|cs| - 1], budget), cs[|cs| - 1]);
    }
  }

  /** Every pick is a candidate that was not excluded. */
  lemma PickedFromPool(req: Request, picked: seq<PortfolioSignal>, c: PortfolioSignal)
    requires IsRun(req, picked) && c in picked
    ensures c in req.candidates && c.signalId !in req.mustExclude
  {
    var forced := Forced(IncludeFirst(req), req.budget);
    ForcedWithin(IncludeFirst(req), req.budget);
    var k :| 0 <= k < |picked| && picked[k] == c;
    if k < |forced| {
      assert c == forced[k];
      assert c in IncludeFirst(req);
    } else {
      RunPick(req, picked, k);
      assert c in Rest(req);
    }
    assert c in Pool(req);
  }

  lemma PickAffordable(c: PortfolioSignal, rest: seq<PortfolioSignal>, picked: seq<PortfolioSignal>, budget: real)
    requires BestNext(c, rest, picked, budget)
    ensures Spend(picked + [c]) <= budget
  {
    AppendTotals(picked, c);
  }

  lemma LastPickAffordable(req: Request, picked: seq<PortfolioSignal>)
    requires IsRun(req, picked) && picked != []
    ensures Spend(picked) <= req.budget
  {
    var n := |picked| - 1;
    RunPick(req, picked, n);
    hide GreedyPhase, BestNext, Spend;
    if |Forced(IncludeFirst(req), req.budget)| <= n {
      PickAffordable(picked[n], Rest(req), picked[..n], req.budget);
      assert picked == picked[..n] + [picked[n]];
    } else {
      ForcedWithin(IncludeFirst(req), req.budget);
      assert picked == Forced(IncludeFirst(req), req.budget);
    }
  }

  /** Something can be forced: one always-in signal costs no more than the whole budget. */
  ghost predicate SomeFits(cs: seq<PortfolioSignal>, budget: real) {
    exists c :: c in cs && Cost(c) <= budget
  }

  /** Nothing is forced exactly when no always-in signal fits the budget on its own. */
  lemma {:induction false} ForcedNothing(cs: seq<PortfolioSignal>, budget: real)
    ensures Forced(cs, budget) != [] <==> SomeFits(cs, budget)
  {
    hide Cost;
    if cs != [] {
      var init, c := cs[..|cs| - 1], cs[|cs| - 1];
      assert cs == init + [c];
      ForcedNothing(init, budget);
      assert Spend([]) == 0.0;
      assert SomeFits(cs, budget) <==> SomeFits(init, budget) || Cost(c) <= budget by {
        assert c in cs;
        assert forall x :: x in cs <==> x in init || x == c;
      }
    }
  }

  lemma StartsPicking(req: Request, picked: seq<PortfolioSignal>)
    requires IsRun(req, picked) && picked != []
    ensures req.budget >= 0.0 || SomeFits(IncludeFirst(req), req.budget)
  {
    ForcedNothing(IncludeFirst(req), req.budget);
    if Forced(IncludeFirst(req), req.budget) == [] {
      assert PhaseAt(req, picked, 0, 0);
      assert picked[..0] == [] && Spend([]) == 0.0;
    }
  }

  /** Unrounded spend stays within the budget exactly for the requests whose budget is not negative or
      covers one of the always-in signals (a signal of negative cost can fit a negative budget). */
  lemma SpendWithinBudget(req: Request, picked: seq<PortfolioSignal>)
    requires IsRun(req, picked)
    ensures Spend(picked) <= req.budget <==> req.budget >= 0.0 || SomeFits(IncludeFirst(req), req.budget)
  {
    ForcedNothing(IncludeFirst(req), req.budget);
    if picked != [] {
      LastPickAffordable(req, picked);
      StartsPicking(req, picked);
    }
  }

  /** A budget of -1 with no candidate: nothing is picked, and the spend of 0 is above the budget. */
  lemma NegativeBudgetExceeded(picked: seq<PortfolioSignal>)
    requires IsRun(Request([], -1.0, 20, None, [], []), picked)
    ensures picked == [] && Spend(picked) > -1.0
  {
    var req := Request([], -1.0, 20, None, [], []);
    SpendWithinBudget(req, picked);
    assert IncludeFirst(req) == [];
    if picked != [] {
      PickedFromPool(req, picked, picked[0]);
    }
  }

  lemma {:induction false} SpendGrows(picked: seq<PortfolioSignal>, j: nat)
    requires j <= |picked| && NonNegative(picked)
    ensures Spend(picked[..j]) <= Spend(picked)
  {
    if j < |picked| {
      var n := |picked| - 1;
      SpendGrows(picked[..n], j);
      assert picked[..n][..j] == picked[..j];
      MulNonNegative(picked[n].reach, picked[n].cpm);
    } else {
      assert picked[..j] == picked;
    }
  }

  lemma PickedPrefix(id: string, picked: seq<PortfolioSignal>, j: nat)
    requires j <= |picked|
    ensures IsPicked(id, picked[..j]) ==> IsPicked(id, picked)
  {}

  /** Diminishing returns: along the greedy part of the trail the marginal reach never rises. */
  lemma MarginalsNonIncreasing(req: Request, picked: seq<PortfolioSignal>, j: nat, k: nat)
    requires NonNegative(req.candidates) && IsRun(req, picked)
    requires |Forced(IncludeFirst(req), req.budget)| <= j <= k < |picked|
    ensures Marginal(picked[k], picked[..k]) <= Marginal(picked[j], picked[..j])
  {
    var c, rest := picked[k], Rest(req);
    forall p | p in picked ensures p.reach >= 0.0 && p.cpm >= 0.0 {
      PickedFromPool(req, picked, p);
    }
    RunPick(req, picked, k);
    RunPick(req, picked, j);
    var i: nat :| BestAmong(i, |rest|, rest, picked[..k], req.budget) && rest[i] == c;
    assert picked[..k][..j] == picked[..j];
    SpendGrows(picked[..k], j);
    PickedPrefix(c.signalId, picked[..k], j);
    assert Eligible(rest[i], picked[..j], req.budget);
    MarginalShrinks(c, picked[..k], j);
  }

  function ReachOf(c: PortfolioSignal): real {
    c.reach
  }

  ghost predicate NeverClamped(picked: seq<PortfolioSignal>) {
    picked == [] ||
    (NeverClamped(picked[..|picked| - 1]) && Overlap(picked[|picked| - 1], picked[..|picked| - 1]) <= picked[|picked| - 1].reach)
  }

  /** Conservation: claimed plus wasted reach accounts for all reach of the selection, exactly
      when no pick was clamped at zero; clamping only adds. */
  lemma {:induction false} ReachConserved(picked: seq<PortfolioSignal>)
    ensures CumReach(picked) + Waste(picked) >= SumBy(picked, ReachOf)
    ensures CumReach(picked) + Waste(picked) == SumBy(picked, ReachOf) <==> NeverClamped(picked)
  {
    if picked != [] {
      ReachConserved(picked[..|picked| - 1]);
    }
  }
}
