// src/analytics/audienceMath.ts: what each kind of node evaluates to.
module EvaluateLaws {
  import opened Numbers
  import opened Sequences
  import opened AudienceMath
  import opened ExpressionTree
  import L = AudienceLaws

  /** The category a signal is counted under. */
  function Named(s: Signal): string {
    if s.category == "" then "composite" else s.category
  }

  function InCategory(c: string): Signal -> bool {
    (s: Signal) => Named(s) == c
  }

  lemma {:induction false} CategoryReachIsSum(signals: seq<Signal>, c: string)
    ensures CategoryReach(signals, c) == SumBy(Filter(signals, InCategory(c)), Reach)
  {
    if signals != [] {
      var init, s := signals[..|signals| - 1], signals[|signals| - 1];
      assert signals == init + [s];
      CategoryReachIsSum(init, c);
      FilterAppend(init, s, InCategory(c));
      if Named(s) == c {
        SumByAppend(Filter(init, InCategory(c)), s, Reach);
      }
    }
  }

  /** The stand-in for a subtree reaches what the subtree reaches.  Its category is that of one
      of the signals underneath, and no other category among them reaches more. */
  lemma StandIn(signals: seq<Signal>, reach: real, s: Signal)
    ensures Reach(VirtualComposite(signals, reach)) == reach
    ensures signals == [] ==> VirtualComposite(signals, reach).category == "composite"
    ensures s in signals ==>
              var c := VirtualComposite(signals, reach).category;
              && (exists x :: x in signals && Named(x) == c)
              && SumBy(Filter(signals, InCategory(Named(s))), Reach) <= SumBy(Filter(signals, InCategory(c)), Reach)
  {
    CompositeReach(signals, reach);
    if s in signals {
      DominantIsLargest(signals, s);
      CategoryReachIsSum(signals, Named(s));
      CategoryReachIsSum(signals, Dominant(signals));
    }
  }

  /** The stand-in for one signal has its category. */
  lemma StandInOfOne(s: Signal, reach: real)
    ensures VirtualComposite([s], reach).category == (if s.category == "" then "composite" else s.category)
  {
    hide VirtualComposite, Filter, SumBy, Reach;
    StandIn([s], reach, s);
  }

  function Proxy(node: Node, byId: Catalog): Signal {
    VirtualComposite(Evaluate(node, byId).signalsUnder, Evaluate(node, byId).reach)
  }

  predicate Negates(c: Node) {
    c.Branch? && c.op == NOT
  }

  predicate Keeps(c: Node) {
    !Negates(c)
  }

  function Results(cs: seq<Node>, byId: Catalog): (rs: seq<EvalResult>)
    ensures |rs| == |cs| && forall i :: 0 <= i < |cs| ==> rs[i] == Evaluate(cs[i], byId)
  {
    seq(|cs|, i requires 0 <= i < |cs| => Evaluate(cs[i], byId))
  }

  lemma Unfold(id: string, op: BoolOp, cs: seq<Node>, byId: Catalog)
    ensures Evaluate(Branch(id, op, cs), byId) == Combine(id, op, cs, Results(cs, byId))
  {
    hide Combine;
    var rs := seq(|cs|, i requires 0 <= i < |cs| => Evaluate(cs[i], byId));
    assert rs == Results(cs, byId);
  }

  lemma ResultsAppend(cs: seq<Node>, c: Node, byId: Catalog)
    ensures Results(cs + [c], byId) == Results(cs, byId) + [Evaluate(c, byId)]
  {
    hide Evaluate;
  }

  /** The results of the non-NOT children are the results' own non-NOT part. */
  lemma {:induction false} FilterResults(cs: seq<Node>, byId: Catalog)
    ensures Filter(Results(cs, byId), IsPositive) == Results(Filter(cs, Keeps), byId)
    ensures Filter(Results(cs, byId), IsNot) == Results(Filter(cs, Negates), byId)
  {
    hide Evaluate;
    if cs == [] {
      assert Results(cs, byId) == [];
    } else {
      var init, c := cs[..|cs| - 1], cs[|cs| - 1];
      assert cs == init + [c];
      FilterResults(init, byId);
      ResultsAppend(init, c, byId);
      OpOfResult(c, byId);
      hide Results, Filter;
      FilterAppend(init, c, Keeps);
      FilterAppend(init, c, Negates);
      FilterAppend(Results(init, byId), Evaluate(c, byId), IsPositive);
      FilterAppend(Results(init, byId), Evaluate(c, byId), IsNot);
      ResultsAppend(Filter(init, Keeps), c, byId);
      ResultsAppend(Filter(init, Negates), c, byId);
    }
  }

  lemma {:induction false} FilterAll(cs: seq<Node>)
    requires forall c :: c in cs ==> Keeps(c)
    ensures Filter(cs, Keeps) == cs && Filter(cs, Negates) == []
  {
    if cs != [] {
      var init, c := cs[..|cs| - 1], cs[|cs| - 1];
      assert cs == init + [c];
      FilterAll(init);
      FilterAppend(init, c, Keeps);
      FilterAppend(init, c, Negates);
    }
  }

  // ---------------------------------------------------------------------
  // Leaves and NOT
  // ---------------------------------------------------------------------

  lemma LeafLaw(id: string, signalId: string, byId: Catalog)
    ensures var r := Evaluate(Leaf(id, signalId), byId);
            && r.nodeId == id && r.op.None? && r.children == []
            && (signalId in byId ==>
                  && r.signalsUnder == [byId[signalId]] && r.error.None?
                  && r.reach == (if byId[signalId].size.Some? then byId[signalId].size.value else 0.0))
            && (signalId !in byId ==> r.reach == 0.0 && r.signalsUnder == [] && r.error == Some("unknown signal: " + signalId))
  {}

  /** A NOT reports its child as it is. */
  lemma NotLaw(id: string, cs: seq<Node>, byId: Catalog)
    ensures var r := Evaluate(Branch(id, NOT, cs), byId);
            && (cs == [] ==> r.reach == 0.0 && r.signalsUnder == [] && r.error == Some("NOT has no child"))
            && (cs != [] ==> r.reach == Evaluate(cs[0], byId).reach && r.signalsUnder == Evaluate(cs[0], byId).signalsUnder)
  {
    hide JoinErrors;
    Unfold(id, NOT, cs, byId);
  }

  /** Every branch names itself and holds the results of its children, in order. */
  lemma BranchLaw(id: string, op: BoolOp, cs: seq<Node>, byId: Catalog, i: nat)
    requires i < |cs|
    ensures var r := Evaluate(Branch(id, op, cs), byId);
            r.nodeId == id && r.op == Some(op) && |r.children| == |cs| && r.children[i] == Evaluate(cs[i], byId)
  {
    hide JoinErrors, AndReach, OrReach, SignalsOf;
    Unfold(id, op, cs, byId);
  }

  lemma NegatedResult(n: Node, byId: Catalog)
    requires Negates(n)
    ensures Excluded(Evaluate(n, byId)) == Proxy(n, byId)
    ensures n.children != [] ==> Proxy(n, byId) == Proxy(n.children[0], byId)
  {
    hide VirtualComposite, JoinErrors;
    Unfold(n.id, NOT, n.children, byId);
  }

  // ---------------------------------------------------------------------
  // OR
  // ---------------------------------------------------------------------

  function Proxies(cs: seq<Node>, byId: Catalog): (ss: seq<Signal>)
    ensures |ss| == |cs| && forall i :: 0 <= i < |cs| ==> ss[i] == Proxy(cs[i], byId)
  {
    seq(|cs|, i requires 0 <= i < |cs| => Proxy(cs[i], byId))
  }

  lemma CompositesAre(cs: seq<Node>, byId: Catalog)
    ensures Composites(Results(cs, byId)) == Proxies(cs, byId)
  {
    hide VirtualComposite, Evaluate;
  }

  /** An OR of leaves unites their signals; any other OR unites the stand-ins of its children. */
  lemma OrLaw(id: string, cs: seq<Node>, byId: Catalog)
    ensures var r := Evaluate(Branch(id, OR, cs), byId);
            && ((forall c :: c in cs ==> c.Leaf?) ==> r.reach == UnionReach(r.signalsUnder) as real)
            && ((exists c :: c in cs && c.Branch?) ==> r.reach == UnionReach(Proxies(cs, byId)) as real)
  {
    Unfold(id, OR, cs, byId);
    CompositesAre(cs, byId);
    hide UnionReach, Composites, Proxies, SignalsOf, JoinErrors, Evaluate, Results;
  }

  // ---------------------------------------------------------------------
  // AND
  // ---------------------------------------------------------------------

  lemma AndUnfolds(id: string, cs: seq<Node>, byId: Catalog)
    ensures var ps, ns := Filter(cs, Keeps), Filter(cs, Negates);
            && (ps == [] ==> Evaluate(Branch(id, AND, cs), byId).reach == 0.0)
            && (ps != [] ==> Evaluate(Branch(id, AND, cs), byId).reach == AndReach(Results(ps, byId), Results(ns, byId)))
  {
    Unfold(id, AND, cs, byId);
    FilterResults(cs, byId);
    hide AndReach, Evaluate, Filter, Results, JoinErrors, SignalsOf;
  }

  /** The non-NOT part of an AND: its first child, then each further child intersected with it. */
  lemma AndChain(id: string, cs: seq<Node>, c: Node, byId: Catalog)
    requires Keeps(c) && forall x :: x in cs ==> Keeps(x)
    ensures Evaluate(Branch(id, AND, [c]), byId).reach == Evaluate(c, byId).reach
    ensures cs != [] ==>
              Evaluate(Branch(id, AND, cs + [c]), byId).reach ==
              IntersectReach(Evaluate(Branch(id, AND, cs), byId).reach, Some(Proxy(cs[0], byId)), [Proxy(c, byId)])
  {
    hide Proxy, Evaluate, IntersectReach;
    KeptReach(id, [c], byId);
    assert Proxies([c][1..], byId) == [];
    L.IntersectChain(Evaluate(c, byId).reach, Proxy(c, byId), [], Proxy(c, byId));
    if cs != [] {
      KeptReach(id, cs, byId);
      KeptReach(id, cs + [c], byId);
      assert (cs + [c])[1..] == cs[1..] + [c];
      assert Proxies((cs + [c])[1..], byId) == Proxies(cs[1..], byId) + [Proxy(c, byId)];
      L.IntersectChain(Evaluate(cs[0], byId).reach, Proxy(cs[0], byId), Proxies(cs[1..], byId), Proxy(c, byId));
    }
  }

  lemma KeptReach(id: string, ps: seq<Node>, byId: Catalog)
    requires ps != [] && forall x :: x in ps ==> Keeps(x)
    ensures Evaluate(Branch(id, AND, ps), byId).reach ==
            IntersectReach(Evaluate(ps[0], byId).reach, Some(Proxy(ps[0], byId)), Proxies(ps[1..], byId))
  {
    AndUnfolds(id, ps, byId);
    FilterAll(ps);
    hide VirtualComposite, Evaluate, IntersectReach, Filter;
    CompositesAre(ps[1..], byId);
    assert Results(ps, byId)[1..] == Results(ps[1..], byId);
  }

  /** What the exclusion of a NOT child takes off. */
  function TakenOff(anchor: Node, byId: Catalog): Node -> real {
    (n: Node) => Round(PairOverlap(Proxy(n, byId), Proxy(anchor, byId))) as real
  }

  lemma {:induction false} RemovedByProxies(ns: seq<Node>, anchor: Node, byId: Catalog)
    ensures SumBy(Proxies(ns, byId), L.Removed([Proxy(anchor, byId)])) == SumBy(ns, TakenOff(anchor, byId))
  {
    hide L.Removed, Proxy, PairOverlap, Round;
    if ns != [] {
      var init, n := ns[..|ns| - 1], ns[|ns| - 1];
      RemovedByProxies(init, anchor, byId);
      assert Proxies(ns, byId) == Proxies(init, byId) + [Proxy(n, byId)];
      RemovedOne(Proxy(n, byId), Proxy(anchor, byId));
      SumByAppend(Proxies(init, byId), Proxy(n, byId), L.Removed([Proxy(anchor, byId)]));
    }
  }

  lemma RemovedOne(s: Signal, p: Signal)
    ensures L.Removed([p])(s) == Round(PairOverlap(s, p)) as real
  {
    hide PairOverlap;
    L.RemovedIs([p], s);
    assert [p][..0] == [];
  }

  lemma ExcludedAre(ns: seq<Node>, byId: Catalog)
    requires forall n :: n in ns ==> Negates(n)
    ensures ExcludedAll(Results(ns, byId)) == Proxies(ns, byId)
  {
    hide Excluded, Evaluate, Proxy;
    forall i | 0 <= i < |ns| ensures Excluded(Results(ns, byId)[i]) == Proxy(ns[i], byId) {
      NegatedResult(ns[i], byId);
    }
  }

  lemma ProxiesNonNegative(ns: seq<Node>, byId: Catalog)
    requires HeadCounts(byId)
    ensures NonNegativeReach(Proxies(ns, byId))
  {
    forall s | s in Proxies(ns, byId) ensures Reach(s) >= 0.0 {
      var i :| 0 <= i < |ns| && s == Proxy(ns[i], byId);
      EvaluateBounded(ns[i], byId);
      CompositeReach(Evaluate(ns[i], byId).signalsUnder, Evaluate(ns[i], byId).reach);
    }
  }

  lemma AndReachIs(id: string, ps: seq<Node>, ns: seq<Node>, byId: Catalog)
    requires ps != [] && (forall c :: c in ps ==> Keeps(c)) && (forall c :: c in ns ==> Negates(c))
    ensures AndReach(Results(ps, byId), Results(ns, byId)) ==
            (if ns == [] then Evaluate(Branch(id, AND, ps), byId).reach
             else ExcludeReach(Evaluate(Branch(id, AND, ps), byId).reach, [Proxy(ps[0], byId)], Proxies(ns, byId)))
  {
    hide Evaluate, VirtualComposite, IntersectReach, ExcludeReach;
    KeptReach(id, ps, byId);
    CompositesAre(ps[1..], byId);
    assert Results(ps, byId)[1..] == Results(ps[1..], byId);
    ExcludedAre(ns, byId);
  }

  /** AND with NOT children: what its other children alone reach, less, for each NOT child, the rounded
      overlap of what it negates with the first of the others; never below zero. */
  lemma AndLaw(id: string, cs: seq<Node>, byId: Catalog)
    requires HeadCounts(byId)
    ensures var ps, ns := Filter(cs, Keeps), Filter(cs, Negates);
            && (ps == [] ==> Evaluate(Branch(id, AND, cs), byId).reach == 0.0)
            && (ps != [] ==>
                  Evaluate(Branch(id, AND, cs), byId).reach ==
                  Max(0.0, Evaluate(Branch(id, AND, ps), byId).reach - SumBy(ns, TakenOff(ps[0], byId))))
  {
    hide Evaluate, Filter, VirtualComposite, ExcludeFold, TakenOff, IntersectReach, AndReach;
    AndUnfolds(id, cs, byId);
    var ps, ns := Filter(cs, Keeps), Filter(cs, Negates);
    if ps != [] {
      EvaluateBounded(Branch(id, AND, ps), byId);
      var base := Evaluate(Branch(id, AND, ps), byId).reach;
      AndReachIs(id, ps, ns, byId);
      ProxiesNonNegative(ns, byId);
      ProxiesNonNegative([ps[0]], byId);
      assert Proxies([ps[0]], byId) == [Proxy(ps[0], byId)];
      L.ExcludeFoldIs(base, [Proxy(ps[0], byId)], Proxies(ns, byId));
      RemovedByProxies(ns, ps[0], byId);
    }
  }

  /** A NOT child whose rounded overlap is at least one person lowers a positive AND. */
  lemma NotLowers(id: string, cs: seq<Node>, byId: Catalog, n: Node)
    requires HeadCounts(byId) && n in cs && Negates(n) && Filter(cs, Keeps) != []
    requires Evaluate(Branch(id, AND, Filter(cs, Keeps)), byId).reach > 0.0
    requires Round(PairOverlap(Proxy(n, byId), Proxy(Filter(cs, Keeps)[0], byId))) >= 1
    ensures Evaluate(Branch(id, AND, cs), byId).reach < Evaluate(Branch(id, AND, Filter(cs, Keeps)), byId).reach
  {
    hide Evaluate, Proxy, PairOverlap, SumBy;
    AndLaw(id, cs, byId);
    var ps, ns := Filter(cs, Keeps), Filter(cs, Negates);
    assert n in ns;
    hide Filter;
    forall x | x in ns ensures TakenOff(ps[0], byId)(x) >= 0.0 {
      TakenNonNegative(x, ps[0], byId);
    }
    OneOfSum(ns, n, TakenOff(ps[0], byId));
  }

  lemma TakenNonNegative(n: Node, anchor: Node, byId: Catalog)
    requires HeadCounts(byId)
    ensures TakenOff(anchor, byId)(n) >= 0.0
  {
    EvaluateBounded(n, byId);
    EvaluateBounded(anchor, byId);
    CompositeReach(Evaluate(n, byId).signalsUnder, Evaluate(n, byId).reach);
    CompositeReach(Evaluate(anchor, byId).signalsUnder, Evaluate(anchor, byId).reach);
    hide Evaluate, VirtualComposite;
    PairOverlapBounds(Proxy(n, byId), Proxy(anchor, byId));
    RoundWithin(PairOverlap(Proxy(n, byId), Proxy(anchor, byId)), 0);
  }

  /** The NOT children of an AND may come in any order and at any place. */
  lemma NotsCommute(id: string, a: seq<Node>, b: seq<Node>, byId: Catalog)
    requires HeadCounts(byId)
    requires Filter(a, Keeps) == Filter(b, Keeps) && multiset(Filter(a, Negates)) == multiset(Filter(b, Negates))
    ensures Evaluate(Branch(id, AND, a), byId).reach == Evaluate(Branch(id, AND, b), byId).reach
  {
    hide Evaluate, TakenOff, Filter, SumBy, HeadCounts, PairOverlap;
    AndLaw(id, a, byId);
    AndLaw(id, b, byId);
    if Filter(a, Keeps) != [] {
      SumByPermutation(Filter(a, Negates), Filter(b, Negates), TakenOff(Filter(a, Keeps)[0], byId));
    }
  }

  // ---------------------------------------------------------------------
  // Signals and errors of a branch, child by child
  // ---------------------------------------------------------------------

  lemma SignalsAppend(rs: seq<EvalResult>, r: EvalResult)
    ensures SignalsOf(rs + [r]) == SignalsOf(rs) + r.signalsUnder
  {
    assert (rs + [r])[..|rs|] == rs;
  }

  /** OR lists the signals of all children, AND of those that are not NOT. */
  lemma SignalsLaw(id: string, cs: seq<Node>, c: Node, byId: Catalog)
    ensures Evaluate(Branch(id, OR, []), byId).signalsUnder == [] && Evaluate(Branch(id, AND, []), byId).signalsUnder == []
    ensures Evaluate(Branch(id, OR, cs + [c]), byId).signalsUnder ==
            Evaluate(Branch(id, OR, cs), byId).signalsUnder + Evaluate(c, byId).signalsUnder
    ensures Evaluate(Branch(id, AND, cs + [c]), byId).signalsUnder ==
            Evaluate(Branch(id, AND, cs), byId).signalsUnder
            + if c.Branch? && c.op == NOT then [] else Evaluate(c, byId).signalsUnder
  {
    OrSignals(id, [], byId);
    OrSignals(id, cs, byId);
    OrSignals(id, cs + [c], byId);
    AndSignals(id, [], byId);
    AndSignals(id, cs, byId);
    AndSignals(id, cs + [c], byId);
    ResultsAppend(cs, c, byId);
    ResultsAppend(Filter(cs, Keeps), c, byId);
    FilterAppend(cs, c, Keeps);
    hide Evaluate, Results, SignalsOf;
    SignalsAppend(Results(cs, byId), Evaluate(c, byId));
    SignalsAppend(Results(Filter(cs, Keeps), byId), Evaluate(c, byId));
  }

  lemma OrSignals(id: string, cs: seq<Node>, byId: Catalog)
    ensures Evaluate(Branch(id, OR, cs), byId).signalsUnder == SignalsOf(Results(cs, byId))
    ensures cs == [] ==> SignalsOf(Results(cs, byId)) == []
  {
    hide OrReach, JoinErrors;
    Unfold(id, OR, cs, byId);
  }

  lemma AndSignals(id: string, cs: seq<Node>, byId: Catalog)
    ensures Evaluate(Branch(id, AND, cs), byId).signalsUnder == SignalsOf(Results(Filter(cs, Keeps), byId))
    ensures cs == [] ==> SignalsOf(Results(Filter(cs, Keeps), byId)) == []
  {
    Unfold(id, AND, cs, byId);
    FilterResults(cs, byId);
    hide AndReach, JoinErrors, Evaluate;
  }

  /** The text of one more child's error joins the texts so far. */
  function Joined(a: Option<string>, b: Option<string>): Option<string> {
    if a.None? then b else if b.None? then a else Some(a.value + "; " + b.value)
  }

  lemma ErrorsAppend(rs: seq<EvalResult>, r: EvalResult)
    ensures JoinErrors(rs + [r]) == Joined(JoinErrors(rs), r.error)
  {
    assert (rs + [r])[..|rs|] == rs;
  }

  /** The errors of all children, joined in order; AND and NOT without what they need say so instead. */
  lemma ErrorLaw(id: string, op: BoolOp, cs: seq<Node>, c: Node, byId: Catalog)
    requires op == AND ==> Filter(cs, Keeps) != []
    ensures Evaluate(Branch(id, OR, []), byId).error.None?
    ensures op == OR || cs != [] ==>
              Evaluate(Branch(id, op, cs + [c]), byId).error == Joined(Evaluate(Branch(id, op, cs), byId).error, Evaluate(c, byId).error)
  {
    ErrorOf(id, OR, [], byId);
    ErrorOf(id, op, cs, byId);
    ErrorOf(id, op, cs + [c], byId);
    FilterAppend(cs, c, Keeps);
    ResultsAppend(cs, c, byId);
    hide Evaluate, Results;
    ErrorsAppend(Results(cs, byId), Evaluate(c, byId));
  }

  lemma ErrorOf(id: string, op: BoolOp, cs: seq<Node>, byId: Catalog)
    ensures op == OR || (op == AND && Filter(cs, Keeps) != []) || (op == NOT && cs != []) ==>
              Evaluate(Branch(id, op, cs), byId).error == JoinErrors(Results(cs, byId))
    ensures cs == [] ==> JoinErrors(Results(cs, byId)).None?
    ensures op == AND && Filter(cs, Keeps) == [] ==>
              Evaluate(Branch(id, op, cs), byId).error == Some("AND needs at least one non-NOT child")
  {
    Unfold(id, op, cs, byId);
    FilterResults(cs, byId);
    hide AndReach, OrReach, Evaluate, Filter;
  }

  /** An AND or NOT of a single child has that child's error, if any. */
  lemma OneChildError(id: string, op: BoolOp, c: Node, byId: Catalog)
    requires op == AND ==> Keeps(c)
    ensures Evaluate(Branch(id, op, [c]), byId).error == Evaluate(c, byId).error
  {
    ErrorOf(id, op, [c], byId);
    ErrorOf(id, op, [], byId);
    hide Evaluate;
    ErrorsAppend([], Evaluate(c, byId));
    assert [] + [Evaluate(c, byId)] == Results([c], byId);
    FilterAppend([], c, Keeps);
    assert [] + [c] == [c];
  }

  lemma NothingKept(id: string, cs: seq<Node>, byId: Catalog)
    requires forall c :: c in cs ==> c.Branch? && c.op == NOT
    ensures Evaluate(Branch(id, AND, cs), byId).error == Some("AND needs at least one non-NOT child")
  {
    ErrorOf(id, AND, cs, byId);
    hide Evaluate;
    if Filter(cs, Keeps) != [] {
      SomeMember(Filter(cs, Keeps));
    }
  }

  lemma SomeMember(cs: seq<Node>)
    requires cs != []
    ensures exists c :: c in cs
  {
    assert cs[0] in cs;
  }

  // ---------------------------------------------------------------------
  // Two signals of 1000 in one category
  // ---------------------------------------------------------------------

  function TwoSignals(): Catalog {
    map["a" := Signal("a", "auto", Some(1000.0)), "b" := Signal("b", "auto", Some(1000.0))]
  }

  lemma TwoProxies()
    ensures var a, b := Proxy(Leaf("1", "a"), TwoSignals()), Proxy(Leaf("2", "b"), TwoSignals());
            && Reach(a) == Reach(b) == 1000.0 && a.category == b.category == "auto"
            && Proxy(Branch("3", NOT, [Leaf("2", "b")]), TwoSignals()) == b
            && Round(PairOverlap(b, a)) == 550
  {
    StandInOfOne(TwoSignals()["a"], 1000.0);
    StandInOfOne(TwoSignals()["b"], 1000.0);
    CompositeReach([TwoSignals()["a"]], 1000.0);
    CompositeReach([TwoSignals()["b"]], 1000.0);
    NegatedResult(Branch("3", NOT, [Leaf("2", "b")]), TwoSignals());
    hide VirtualComposite, PairOverlap;
    L.PairOverlapLaw(Proxy(Leaf("2", "b"), TwoSignals()), Proxy(Leaf("1", "a"), TwoSignals()));
  }

  lemma TwoAlike(a: Node, b: Node, byId: Catalog)
    requires Keeps(a) && Keeps(b) && Evaluate(Branch("4", AND, [a]), byId).reach == 1000.0
    requires Reach(Proxy(b, byId)) == 1000.0 && Proxy(a, byId).category == Proxy(b, byId).category
    ensures Evaluate(Branch("4", AND, [a, b]), byId).reach == 550.0
  {
    hide Evaluate, Proxy, IntersectReach, PairOverlap, Round, Keeps;
    assert [a] + [b] == [a, b];
    AndChain("4", [a], b, byId);
    var x := L.IntersectOne(1000.0, Proxy(a, byId), Proxy(b, byId));
    RoundOf(x);
  }

  lemma RoundOf(x: real)
    requires x * Max(1000.0, 1000.0) == 0.55 * (1000.0 * Min(1000.0, 1000.0))
    ensures Round(x) == 550
  {}

  /** Both: 550. */
  lemma BothReached()
    ensures Evaluate(Branch("4", AND, [Leaf("1", "a"), Leaf("2", "b")]), TwoSignals()).reach == 550.0
  {
    LeafLaw("1", "a", TwoSignals());
    AndOfOne(Leaf("1", "a"));
    hide Evaluate, Proxy, PairOverlap;
    TwoProxies();
    TwoAlike(Leaf("1", "a"), Leaf("2", "b"), TwoSignals());
  }

  lemma AndOfOne(a: Node)
    requires a.Leaf?
    ensures Evaluate(Branch("4", AND, [a]), TwoSignals()).reach == Evaluate(a, TwoSignals()).reach
  {
    AndChain("4", [], a, TwoSignals());
  }

  lemma OneWithout(a: Node, n: Node, byId: Catalog)
    requires HeadCounts(byId) && Keeps(a) && Negates(n) && Evaluate(Branch("4", AND, [a]), byId).reach == 1000.0
    requires Round(PairOverlap(Proxy(n, byId), Proxy(a, byId))) == 550
    ensures Evaluate(Branch("4", AND, [a, n]), byId).reach == 450.0
  {
    hide Evaluate, Proxy, PairOverlap, Filter, HeadCounts, SumBy, Keeps, Negates;
    KeepAndNegate(a, n);
    AndLaw("4", [a, n], byId);
    SumByOne(n, TakenOff(a, byId));
  }

  /** The first without the second: 450. */
  lemma FirstWithoutSecond()
    ensures Evaluate(Branch("4", AND, [Leaf("1", "a"), Branch("3", NOT, [Leaf("2", "b")])]), TwoSignals()).reach == 450.0
  {
    LeafLaw("1", "a", TwoSignals());
    assert HeadCounts(TwoSignals());
    AndOfOne(Leaf("1", "a"));
    hide Evaluate, Proxy, PairOverlap, HeadCounts;
    TwoProxies();
    OneWithout(Leaf("1", "a"), Branch("3", NOT, [Leaf("2", "b")]), TwoSignals());
  }

  lemma KeepAndNegate(a: Node, n: Node)
    requires Keeps(a) && Negates(n)
    ensures Filter([a, n], Keeps) == [a] && Filter([a, n], Negates) == [n]
  {
    assert [] + [a] == [a] && [a] + [n] == [a, n];
    FilterAppend([], a, Keeps);
    FilterAppend([], a, Negates);
    FilterAppend([a], n, Keeps);
    FilterAppend([a], n, Negates);
  }
}
