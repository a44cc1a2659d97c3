// src/domain/compositeScorer.ts: which leaves end up included or excluded, and the
// assembly of the final ranked result.
module QueryPolarity {
  import opened Sequences
  import opened CompositeScorer

  // ---------------------------------------------------------------------
  // Leaves seen from the root.  A leaf is described by the NOTs above it and, for the outermost
  // of those NOTs, by whether an OR stands above it.
  // ---------------------------------------------------------------------

  datatype LeafUse = LeafUse(key: string, nots: nat, orAboveNot: bool)

  /** What stands above a node. */
  datatype Above = Above(nots: nat, underOr: bool, orAboveNot: bool)

  function BelowOr(a: Above): Above {
    if a.nots == 0 then a.(underOr := true) else a
  }

  function BelowNot(a: Above): Above {
    if a.nots == 0 then Above(1, a.underOr, a.underOr) else a.(nots := a.nots + 1)
  }

  /** The leaves of a node from left to right; below a NOT only its first child is looked at. */
  function LeafUses(node: QueryNode, a: Above): seq<LeafUse>
    decreases node, 1, 0
  {
    match node
    case LeafNode(dimension, value, _) => [LeafUse(Key(dimension, value), a.nots, a.orAboveNot)]
    case AndNode(cs) => ChildUses(node, cs, |cs|, a)
    case OrNode(cs) => ChildUses(node, cs, |cs|, BelowOr(a))
    case NotNode(cs) => if cs == [] then [] else LeafUses(cs[0], BelowNot(a))
  }

  function ChildUses(node: QueryNode, cs: seq<QueryNode>, k: nat, a: Above): seq<LeafUse>
    requires (node.AndNode? || node.OrNode?) && cs == node.children && k <= |cs|
    decreases node, 0, k
  {
    if k == 0 then [] else ChildUses(node, cs, k - 1, a) + LeafUses(cs[k - 1], a)
  }

  function MatchesOf(key: string, res: Resolutions): seq<ResolvedSignal> {
    if key in res then res[key].matches else []
  }

  /** The matches of the selected leaves, in order. */
  function Matches(uses: seq<LeafUse>, p: LeafUse -> bool, res: Resolutions): seq<ResolvedSignal> {
    if uses == [] then []
    else
      Matches(uses[..|uses| - 1], p, res)
      + if p(uses[|uses| - 1]) then MatchesOf(uses[|uses| - 1].key, res) else []
  }

  function AtLevel(n: nat): LeafUse -> bool {
    (u: LeafUse) => u.nots == n
  }

  predicate Excluding(u: LeafUse) {
    u.nots == 1 && !u.orAboveNot
  }

  lemma {:induction false} MatchesConcat(a: seq<LeafUse>, b: seq<LeafUse>, p: LeafUse -> bool, res: Resolutions)
    ensures Matches(a + b, p, res) == Matches(a, p, res) + Matches(b, p, res)
  {
    if b == [] {
      assert a + b == a;
    } else {
      var n := |b| - 1;
      assert (a + b)[..|a + b| - 1] == a + b[..n];
      MatchesConcat(a, b[..n], p, res);
    }
  }

  lemma MatchesOne(u: LeafUse, p: LeafUse -> bool, res: Resolutions)
    ensures Matches([u], p, res) == if p(u) then MatchesOf(u.key, res) else []
  {
    assert Matches([u][..0], p, res) == [];
  }

  function Scores(cs: seq<QueryNode>, k: nat, res: Resolutions): seq<AudienceNode>
    requires k <= |cs|
  {
    if k == 0 then [] else Scores(cs, k - 1, res) + [Score(cs[k - 1], res)]
  }

  lemma {:induction false} ScoresAre(cs: seq<QueryNode>, k: nat, res: Resolutions)
    requires k <= |cs|
    ensures |Scores(cs, k, res)| == k && forall i :: 0 <= i < k ==> Scores(cs, k, res)[i] == Score(cs[i], res)
  {
    hide Score;
    if k > 0 {
      ScoresAre(cs, k - 1, res);
    }
  }

  lemma ScoresWhole(cs: seq<QueryNode>, res: Resolutions)
    ensures seq(|cs|, i requires 0 <= i < |cs| => Score(cs[i], res)) == Scores(cs, |cs|, res)
  {
    hide Score;
    ScoresAre(cs, |cs|, res);
  }

  /** Unresolved children carry no signals, so the working set carries all of them. */
  lemma {:induction false} ResolvedCarryAll(cs: seq<AudienceNode>)
    ensures AllSignals(Filter(cs, IsResolved)) == AllSignals(cs)
    ensures AllExcludes(Filter(cs, IsResolved)) == AllExcludes(cs)
  {
    if cs != [] {
      var init, c := cs[..|cs| - 1], cs[|cs| - 1];
      ResolvedCarryAll(init);
      assert cs == init + [c];
      FilterAppend(init, c, IsResolved);
      assert (Filter(init, IsResolved) + [c])[..|Filter(init, IsResolved)|] == Filter(init, IsResolved);
      hide Filter;
    }
  }

  /** The signals and exclusions of a node, whatever the sizes. */
  lemma NodeSignals(node: QueryNode, res: Resolutions)
    ensures node.AndNode? || node.OrNode? ==>
              Score(node, res).signals == AllSignals(Scores(node.children, |node.children|, res))
    ensures node.AndNode? ==> Score(node, res).excludes == AllExcludes(Scores(node.children, |node.children|, res))
    ensures node.OrNode? ==> Score(node, res).excludes == []
    ensures node.NotNode? ==> Score(node, res).signals == []
    ensures node.NotNode? ==> Score(node, res).excludes == if node.children == [] then [] else Score(node.children[0], res).signals
    ensures node.LeafNode? ==> Score(node, res).signals == MatchesOf(Key(node.dimension, node.value), res) && Score(node, res).excludes == []
  {
    if node.AndNode? || node.OrNode? {
      ScoresWhole(node.children, res);
      ResolvedCarryAll(Scores(node.children, |node.children|, res));
      hide AndSize, UnionSize, Penalised, MinConfidence, MaxConfidence, Filter, Key;
    }
  }

  /** At any depth, the signals of a node are the matches of its leaves with no further NOT. */
  lemma {:induction false} LevelSignals(node: QueryNode, a: Above, res: Resolutions)
    ensures Matches(LeafUses(node, a), AtLevel(a.nots), res) == Score(node, res).signals
    ensures forall u :: u in LeafUses(node, a) ==> u.nots >= a.nots
    decreases node, 1, 0
  {
    hide Score, Key;
    NodeSignals(node, res);
    match node
    case LeafNode(dimension, value, _) =>
      MatchesOne(LeafUse(Key(dimension, value), a.nots, a.orAboveNot), AtLevel(a.nots), res);
    case AndNode(cs) => ChildLevel(node, |cs|, a, res);
    case OrNode(cs) => ChildLevel(node, |cs|, BelowOr(a), res);
    case NotNode(cs) =>
      if cs != [] {
        LevelSignals(cs[0], BelowNot(a), res);
        NoneMatch(LeafUses(cs[0], BelowNot(a)), AtLevel(a.nots), res);
      }
  }

  lemma {:induction false} ChildLevel(node: QueryNode, k: nat, a: Above, res: Resolutions)
    requires (node.AndNode? || node.OrNode?) && k <= |node.children|
    ensures Matches(ChildUses(node, node.children, k, a), AtLevel(a.nots), res) == AllSignals(Scores(node.children, k, res))
    ensures forall u :: u in ChildUses(node, node.children, k, a) ==> u.nots >= a.nots
    decreases node, 0, k
  {
    hide Score, Matches, LeafUses;
    if k > 0 {
      ChildLevel(node, k - 1, a, res);
      LevelSignals(node.children[k - 1], a, res);
      MatchesConcat(ChildUses(node, node.children, k - 1, a), LeafUses(node.children[k - 1], a), AtLevel(a.nots), res);
      assert Scores(node.children, k, res)[..|Scores(node.children, k, res)| - 1] == Scores(node.children, k - 1, res);
    } else {
      NoneMatch([], AtLevel(a.nots), res);
    }
  }

  lemma {:induction false} NoneMatch(uses: seq<LeafUse>, p: LeafUse -> bool, res: Resolutions)
    requires forall u :: u in uses ==> !p(u)
    ensures Matches(uses, p, res) == []
  {
    if uses != [] {
      NoneMatch(uses[..|uses| - 1], p, res);
    }
  }

  lemma {:induction false} SameMatches(uses: seq<LeafUse>, p: LeafUse -> bool, q: LeafUse -> bool, res: Resolutions)
    requires forall u :: u in uses ==> p(u) == q(u)
    ensures Matches(uses, p, res) == Matches(uses, q, res)
  {
    if uses != [] {
      SameMatches(uses[..|uses| - 1], p, q, res);
    }
  }

  /** Once a NOT stands above, every leaf below remembers whether an OR stood above that NOT. */
  lemma {:induction false} RememberOr(node: QueryNode, a: Above)
    requires a.nots >= 1
    ensures forall u :: u in LeafUses(node, a) ==> u.nots >= 1 && u.orAboveNot == a.orAboveNot
    decreases node, 1, 0
  {
    match node
    case LeafNode(_, _, _) =>
    case AndNode(cs) => RememberOrBelow(node, |cs|, a);
    case OrNode(cs) => RememberOrBelow(node, |cs|, BelowOr(a));
    case NotNode(cs) =>
      if cs != [] {
        RememberOr(cs[0], BelowNot(a));
      }
  }

  lemma {:induction false} RememberOrBelow(node: QueryNode, k: nat, a: Above)
    requires a.nots >= 1 && (node.AndNode? || node.OrNode?) && k <= |node.children|
    ensures forall u :: u in ChildUses(node, node.children, k, a) ==> u.nots >= 1 && u.orAboveNot == a.orAboveNot
    decreases node, 0, k
  {
    if k > 0 {
      RememberOrBelow(node, k - 1, a);
      RememberOr(node.children[k - 1], a);
    }
  }

  /** Below no NOT yet: the exclusions of a node, unless an OR above drops them. */
  lemma {:induction false} LevelExcludes(node: QueryNode, a: Above, res: Resolutions)
    requires a.nots == 0
    ensures Matches(LeafUses(node, a), Excluding, res) == if a.underOr then [] else Score(node, res).excludes
    decreases node, 1, 0
  {
    hide Score, Key;
    NodeSignals(node, res);
    match node
    case LeafNode(dimension, value, _) =>
      MatchesOne(LeafUse(Key(dimension, value), a.nots, a.orAboveNot), Excluding, res);
    case AndNode(cs) => ChildExcludes(node, |cs|, a, res);
    case OrNode(cs) => ChildExcludes(node, |cs|, BelowOr(a), res);
    case NotNode(cs) =>
      if cs != [] {
        var b := BelowNot(a);
        RememberOr(cs[0], b);
        LevelSignals(cs[0], b, res);
        if a.underOr {
          NoneMatch(LeafUses(cs[0], b), Excluding, res);
        } else {
          SameMatches(LeafUses(cs[0], b), Excluding, AtLevel(1), res);
        }
      }
  }

  lemma {:induction false} ChildExcludes(node: QueryNode, k: nat, a: Above, res: Resolutions)
    requires a.nots == 0 && (node.AndNode? || node.OrNode?) && k <= |node.children|
    ensures Matches(ChildUses(node, node.children, k, a), Excluding, res) ==
            if a.underOr then [] else AllExcludes(Scores(node.children, k, res))
    decreases node, 0, k
  {
    hide Score, Matches, LeafUses;
    if k > 0 {
      ChildExcludes(node, k - 1, a, res);
      LevelExcludes(node.children[k - 1], a, res);
      MatchesConcat(ChildUses(node, node.children, k - 1, a), LeafUses(node.children[k - 1], a), Excluding, res);
      assert Scores(node.children, k, res)[..|Scores(node.children, k, res)| - 1] == Scores(node.children, k - 1, res);
    } else {
      NoneMatch([], Excluding, res);
    }
  }

  const TOP: Above := Above(0, false, false)

  /** Polarity: the root's signals are the matches of the leaves under no NOT; its exclusions are the
      matches of the leaves under exactly one NOT that has no OR above it. */
  lemma RootPolarity(root: QueryNode, res: Resolutions)
    ensures Score(root, res).signals == Matches(LeafUses(root, TOP), AtLevel(0), res)
    ensures Score(root, res).excludes == Matches(LeafUses(root, TOP), Excluding, res)
  {
    hide Score, LeafUses, Matches;
    LevelSignals(root, TOP, res);
    LevelExcludes(root, TOP, res);
  }
}
