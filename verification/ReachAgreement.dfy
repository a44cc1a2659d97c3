// The optimizer's running total against the audience composer's union fold: two
// implementations of the same cumulative reach.
module ReachAgreement {
  import opened Numbers
  import P = Portfolio
  import G = Greedy
  import A = AudienceMath

  /** The catalog signal an optimizer entry stands for. */
  function AsSignal(p: P.PortfolioSignal): A.Signal {
    A.Signal(p.signalId, p.category, Some(p.reach))
  }

  function AsSignals(ps: seq<P.PortfolioSignal>): (ss: seq<A.Signal>)
    ensures |ss| == |ps|
  {
    if ps == [] then [] else AsSignals(ps[..|ps| - 1]) + [AsSignal(ps[|ps| - 1])]
  }

  /** heuristicJaccard(a, b) * min(a, b) is pairOverlap(a, b), whatever the signs. */
  lemma OverlapsAgree(a: P.PortfolioSignal, b: P.PortfolioSignal)
    ensures P.SharedReach(a, b) == A.PairOverlap(AsSignal(a), AsSignal(b))
  {
    var lo, hi := Min(a.reach, b.reach), Max(a.reach, b.reach);
    if a.reach == 0.0 || b.reach == 0.0 {
      if hi != 0.0 && lo != 0.0 {
        assert false;
      }
      if hi != 0.0 {
        assert lo == 0.0;
        assert lo / hi == 0.0;
      }
    }
  }

  lemma {:induction false} PoolsAgree(c: P.PortfolioSignal, picked: seq<P.PortfolioSignal>)
    ensures P.Overlap(c, picked) == A.PoolOverlap(AsSignal(c), AsSignals(picked))
  {
    if picked != [] {
      hide P.SharedReach, A.PairOverlap;
      PoolsAgree(c, picked[..|picked| - 1]);
      OverlapsAgree(c, picked[|picked| - 1]);
    }
  }

  /** The two totals differ by exactly what clamping a negative first reach adds. */
  lemma {:induction false} TotalsAgree(picked: seq<P.PortfolioSignal>)
    ensures G.CumReach(picked) ==
            A.UnionSum(AsSignals(picked)) + if picked == [] then 0.0 else Max(0.0, -picked[0].reach)
  {
    if picked != [] {
      var n := |picked| - 1;
      TotalsAgree(picked[..n]);
      PoolsAgree(picked[n], picked[..n]);
      hide P.SharedReach, A.PairOverlap;
      if n == 0 {
        assert AsSignals(picked) == [AsSignal(picked[0])];
      }
    }
  }

  /** i is the first always-in candidate whose own cost is within the budget. */
  ghost predicate FirstAffordable(cs: seq<P.PortfolioSignal>, budget: real, i: nat) {
    i < |cs| && P.Cost(cs[i]) <= budget && forall j :: 0 <= j < i ==> P.Cost(cs[j]) > budget
  }

  /** The first always-in candidate that fits the budget on its own, if any, has no negative reach. */
  ghost predicate FirstForcedNonNegative(req: G.Request) {
    forall i: nat :: FirstAffordable(G.IncludeFirst(req), req.budget, i) ==> G.IncludeFirst(req)[i].reach >= 0.0
  }

  /** The allocator forces that candidate first. */
  lemma {:induction false} ForcedFirst(cs: seq<P.PortfolioSignal>, budget: real, i: nat)
    requires FirstAffordable(cs, budget, i)
    ensures G.Forced(cs, budget) != [] && G.Forced(cs, budget)[0] == cs[i]
  {
    hide P.Cost;
    var n := |cs| - 1;
    if i < n {
      ForcedFirst(cs[..n], budget, i);
    } else {
      G.ForcedNothing(cs[..n], budget);
      assert G.Spend([]) == 0.0;
    }
  }

  lemma {:induction false} ForcedHasFirst(cs: seq<P.PortfolioSignal>, budget: real) returns (i: nat)
    requires G.SomeFits(cs, budget)
    ensures FirstAffordable(cs, budget, i)
  {
    hide P.Cost;
    var n := |cs| - 1;
    assert cs == cs[..n] + [cs[n]];
    if G.SomeFits(cs[..n], budget) {
      i := ForcedHasFirst(cs[..n], budget);
    } else {
      i := n;
      forall j | 0 <= j < n ensures P.Cost(cs[j]) > budget {
        assert cs[j] in cs[..n];
      }
    }
  }

  lemma FirstPickPositive(req: G.Request, picked: seq<P.PortfolioSignal>)
    requires G.IsRun(req, picked) && picked != []
    ensures picked[0].reach >= 0.0 <==> FirstForcedNonNegative(req)
  {
    var cs := G.IncludeFirst(req);
    G.RunPick(req, picked, 0);
    G.ForcedNothing(cs, req.budget);
    if G.Forced(cs, req.budget) == [] {
      assert picked[..0] == [];
      assert P.Marginal(picked[0], []) > 0.0;
      NothingFirst(cs, req.budget);
    } else {
      var i := ForcedHasFirst(cs, req.budget);
      ForcedFirst(cs, req.budget, i);
    }
  }

  lemma NothingFirst(cs: seq<P.PortfolioSignal>, budget: real)
    requires !G.SomeFits(cs, budget)
    ensures forall i: nat :: !FirstAffordable(cs, budget, i)
  {}

  /** total_unique_reach is unionReach of the picked signals in pick order: before rounding, exactly
      when the first always-in signal that fits has no negative reach. */
  lemma UniqueReachIsUnion(req: G.Request, picked: seq<P.PortfolioSignal>)
    requires G.IsRun(req, picked)
    ensures G.CumReach(picked) == A.UnionSum(AsSignals(picked)) <==> FirstForcedNonNegative(req)
    ensures FirstForcedNonNegative(req) ==>
              G.Summarise(req, picked).totalUniqueReach == A.UnionReach(AsSignals(picked))
  {
    TotalsAgree(picked);
    if picked != [] {
      FirstPickPositive(req, picked);
    } else {
      assert G.Forced(G.IncludeFirst(req), req.budget) == [];
      G.ForcedNothing(G.IncludeFirst(req), req.budget);
      NothingFirst(G.IncludeFirst(req), req.budget);
    }
  }

  /** For whole-number reaches (head counts) the condition is exact for the rounded total too. */
  lemma RoundedReachIsUnion(req: G.Request, picked: seq<P.PortfolioSignal>)
    requires G.IsRun(req, picked)
    requires forall c :: c in req.candidates ==> IsInteger(c.reach)
    ensures G.Summarise(req, picked).totalUniqueReach == A.UnionReach(AsSignals(picked)) <==> FirstForcedNonNegative(req)
  {
    UniqueReachIsUnion(req, picked);
    TotalsAgree(picked);
    if picked != [] {
      FirstPickPositive(req, picked);
      G.PickedFromPool(req, picked, picked[0]);
      var u, d := A.UnionSum(AsSignals(picked)), picked[0].reach.Floor;
      if d < 0 {
        RoundShift(u, -d);
      }
    }
  }

  lemma RoundShift(u: real, d: int)
    ensures Round(u + d as real) == Round(u) + d
  {}

  /** A request whose one candidate is always in and has reach -1. */
  function NegativeReach(): G.Request {
    G.Request([P.PortfolioSignal("a", "a", -1.0, 1.0, 0.0, "c")], 1.0, 20, None, ["a"], [])
  }

  /** Its total is reported as 0, while the union of the one picked signal is -1. */
  lemma NegativeReachDisagrees(picked: seq<P.PortfolioSignal>)
    requires G.IsRun(NegativeReach(), picked)
    ensures |picked| == 1
    ensures G.Summarise(NegativeReach(), picked).totalUniqueReach == 0 && A.UnionReach(AsSignals(picked)) == -1
  {
    var req := NegativeReach();
    var c := req.candidates[0];
    OnlyForced(req, c);
    assert G.Forced([c], req.budget) == [c] by {
      assert [c][..0] == [];
      assert G.Forced([], req.budget) == [] && G.Spend([]) == 0.0;
    }
    if |picked| > 1 {
      G.RunPick(req, picked, 1);
    }
    assert picked == [c];
    assert [c][..0] == [];
    assert G.CumReach([]) == 0.0 && P.Overlap(c, []) == 0.0;
    assert AsSignals([]) == [];
    assert AsSignals(picked) == [AsSignal(c)];
  }

  lemma OnlyForced(req: G.Request, c: P.PortfolioSignal)
    requires req == NegativeReach() && c == req.candidates[0]
    ensures G.IncludeFirst(req) == [c] && G.Rest(req) == []
  {
    var all := [c];
    assert all[..0] == [];
    assert G.Pool(req) == all;
  }
}
