// src/domain/compositeScorer.ts: what each kind of query node is scored at.
module ScoreLaws {
  import opened Numbers
  import opened Sequences
  import opened CompositeScorer

  // ---------------------------------------------------------------------
  // Leaves
  // ---------------------------------------------------------------------

  /** A leaf without a match is scored at the floor with 30% of its confidence. */
  lemma LeafFallback(dimension: string, value: string, confidence: real, res: Resolutions)
    requires dimension + "::" + value in res ==> res[dimension + "::" + value].matches == []
    ensures var r := Score(LeafNode(dimension, value, confidence), res);
            r.size == 50_000 && r.confidence == 0.3 * confidence && r.signals == [] && r.excludes == []
  {}

  /** A leaf with matches is scored by its first one; its confidence never costs more than 45%. */
  lemma LeafByTopMatch(dimension: string, value: string, confidence: real, res: Resolutions)
    requires dimension + "::" + value in res && res[dimension + "::" + value].matches != []
    ensures var r, matches := Score(LeafNode(dimension, value, confidence), res), res[dimension + "::" + value].matches;
            && r.signals == matches && r.excludes == []
            && r.size == Round(240_000_000.0 * matches[0].coverage)
            && r.confidence >= matches[0].matchScore * confidence
            && r.confidence >= matches[0].matchScore * 0.55
            && (r.confidence == matches[0].matchScore * confidence || r.confidence == matches[0].matchScore * 0.55)
  {}

  // ---------------------------------------------------------------------
  // NOT
  // ---------------------------------------------------------------------

  /** NOT takes the complement of its first child, not below the floor, and turns its signals into exclusions. */
  lemma NotComplement(cs: seq<QueryNode>, res: Resolutions)
    requires cs != [] && 0 <= Score(cs[0], res).size <= 240_000_000
    ensures var r, child := Score(NotNode(cs), res), Score(cs[0], res);
            && (child.size <= 239_950_000 ==> r.size + child.size == 240_000_000)
            && (child.size > 239_950_000 ==> r.size == 50_000)
            && r.confidence == 0.8 * child.confidence
            && r.signals == [] && r.excludes == child.signals
  {}

  lemma NotOfNothing(res: Resolutions)
    ensures var r := Score(NotNode([]), res);
            r.size == 240_000_000 && r.confidence == 0.0 && r.signals == [] && r.excludes == []
  {}

  /** The larger the child, the smaller its negation. */
  lemma NotReverses(a: seq<QueryNode>, b: seq<QueryNode>, res: Resolutions)
    requires CoveragesOk(res) && a != [] && b != [] && Score(a[0], res).size <= Score(b[0], res).size
    ensures Score(NotNode(b), res).size <= Score(NotNode(a), res).size
    ensures Score(NotNode(b), res).size == Score(NotNode(a), res).size <==>
              Score(a[0], res).size == Score(b[0], res).size || Score(a[0], res).size >= 239_950_000
  {
    SizeInRange(a[0], res);
    SizeInRange(b[0], res);
    hide Score;
    NotComplement(a, res);
    NotComplement(b, res);
  }

  /** Negating twice gives the size back exactly when it lies within these limits. */
  lemma NotTwice(node: QueryNode, res: Resolutions)
    requires CoveragesOk(res)
    ensures Score(NotNode([NotNode([node])]), res).size == Score(node, res).size <==> 50_000 <= Score(node, res).size <= 239_950_000
    ensures Score(NotNode([NotNode([node])]), res).confidence == 0.64 * Score(node, res).confidence
    ensures Score(NotNode([NotNode([node])]), res).signals == Score(NotNode([NotNode([node])]), res).excludes == []
  {
    SizeInRange(node, res);
    SizeInRange(NotNode([node]), res);
    hide Score;
    NotComplement([node], res);
    NotComplement([NotNode([node])], res);
  }

  function Tenth(): Resolutions {
    map["age::18" := LeafResolution("age", "18", [ResolvedSignal("s", "s", 0.1, 0, 1.0, "exact")], false)]
  }

  /** A tenth of all adults, and the other nine. */
  lemma NotTenth()
    ensures Score(LeafNode("age", "18", 1.0), Tenth()).size == 24_000_000
    ensures Score(NotNode([LeafNode("age", "18", 1.0)]), Tenth()).size == 216_000_000
  {
    assert "age" + "::" + "18" == "age::18";
    LeafByTopMatch("age", "18", 1.0, Tenth());
    hide Score;
    NotComplement([LeafNode("age", "18", 1.0)], Tenth());
  }

  // ---------------------------------------------------------------------
  // Branches of children
  // ---------------------------------------------------------------------

  function Scores(cs: seq<QueryNode>, res: Resolutions): (rs: seq<AudienceNode>)
    ensures |rs| == |cs| && forall i :: 0 <= i < |cs| ==> rs[i] == Score(cs[i], res)
  {
    seq(|cs|, i requires 0 <= i < |cs| => Score(cs[i], res))
  }

  lemma Unfold(cs: seq<QueryNode>, res: Resolutions)
    ensures Score(AndNode(cs), res) == CombineAnd(Scores(cs, res))
    ensures Score(OrNode(cs), res) == CombineOr(Scores(cs, res))
  {
    hide CombineAnd, CombineOr;
    assert Scores(cs, res) == seq(|cs|, i requires 0 <= i < |cs| => Score(cs[i], res));
  }

  lemma ScoresAppend(cs: seq<QueryNode>, c: QueryNode, res: Resolutions)
    ensures Scores(cs + [c], res) == Scores(cs, res) + [Score(c, res)]
  {
    hide Score;
  }

  lemma EmptyBranches(res: Resolutions)
    ensures Score(AndNode([]), res) == Score(OrNode([]), res) == AudienceNode([], 50_000, 1.0, [])
  {
    assert Scores([], res) == [];
    Unfold([], res);
  }

  // ---------------------------------------------------------------------
  // AND
  // ---------------------------------------------------------------------

  /** A child that found something, to include or to exclude. */
  function Found(res: Resolutions): QueryNode -> bool {
    (c: QueryNode) => Score(c, res).signals != [] || Score(c, res).excludes != []
  }

  function NotFound(res: Resolutions): QueryNode -> bool {
    (c: QueryNode) => Score(c, res).signals == [] && Score(c, res).excludes == []
  }

  lemma {:induction false} FilterScores(cs: seq<QueryNode>, res: Resolutions)
    ensures Filter(Scores(cs, res), IsResolved) == Scores(Filter(cs, Found(res)), res)
    ensures Filter(Scores(cs, res), IsUnresolved) == Scores(Filter(cs, NotFound(res)), res)
  {
    hide Score;
    if cs == [] {
      assert Scores(cs, res) == [];
    } else {
      var init, c := cs[..|cs| - 1], cs[|cs| - 1];
      assert cs == init + [c];
      FilterScores(init, res);
      FoundMeans(c, res);
      hide IsResolved, IsUnresolved, Found, NotFound, Scores;
      ScoresAppend(init, c, res);
      FilterAppend(init, c, Found(res));
      FilterAppend(init, c, NotFound(res));
      FilterAppend(Scores(init, res), Score(c, res), IsResolved);
      FilterAppend(Scores(init, res), Score(c, res), IsUnresolved);
      ScoresAppend(Filter(init, Found(res)), c, res);
      ScoresAppend(Filter(init, NotFound(res)), c, res);
    }
  }

  lemma FoundMeans(c: QueryNode, res: Resolutions)
    ensures Found(res)(c) <==> IsResolved(Score(c, res))
    ensures NotFound(res)(c) <==> IsUnresolved(Score(c, res))
  {}

  /** The children that count: those that found something, or all when none did. */
  function Working(cs: seq<QueryNode>, res: Resolutions): seq<QueryNode> {
    if Filter(cs, Found(res)) != [] then Filter(cs, Found(res)) else cs
  }

  lemma WorkingScores(cs: seq<QueryNode>, res: Resolutions)
    ensures WorkingSet(Scores(cs, res)) == Scores(Working(cs, res), res)
    ensures cs != [] ==> Working(cs, res) != []
  {
    hide Filter, Score;
    FilterScores(cs, res);
  }

  function AtLeastFloor(x: int): int {
    if x >= 50_000 then x else 50_000
  }

  /** Of a share p of all adults, what n further dimensions leave. */
  function Discounted(p: real, n: nat): real {
    p * 240_000_000.0 * Power(0.7, n)
  }

  lemma PowerLaw(b: real, n: nat)
    ensures Power(b, 0) == 1.0 && Power(b, n + 1) == b * Power(b, n)
  {}

  lemma AndUnfolds(cs: seq<QueryNode>, res: Resolutions)
    requires cs != []
    ensures var working := Scores(Working(cs, res), res);
            Score(AndNode(cs), res) ==
            AudienceNode(AllSignals(working), Intersected(ProductBy(working, Coverage), |working|),
                         Penalised(MinConfidence(working), |Filter(cs, NotFound(res))|), AllExcludes(working))
  {
    hide Filter, Working, Scores, WorkingSet, Intersected, Penalised, MinConfidence, Coverage, ProductBy, Score, AllSignals, AllExcludes;
    Unfold(cs, res);
    WorkingScores(cs, res);
    FilterScores(cs, res);
    ScoresLength(cs, res);
    ScoresLength(Filter(cs, NotFound(res)), res);
  }

  lemma ScoresLength(cs: seq<QueryNode>, res: Resolutions)
    ensures |Scores(cs, res)| == |cs|
  {}

  function Share(res: Resolutions): QueryNode -> real {
    (c: QueryNode) => Score(c, res).size as real / 240_000_000.0
  }

  lemma {:induction false} ShareProduct(cs: seq<QueryNode>, res: Resolutions)
    ensures ProductBy(Scores(cs, res), Coverage) == ProductBy(cs, Share(res))
  {
    hide Score, Mul;
    if cs == [] {
      assert Scores(cs, res) == [];
    } else {
      var init, c := cs[..|cs| - 1], cs[|cs| - 1];
      assert cs == init + [c];
      ShareProduct(init, res);
      CoverageIs(c, res);
      hide Coverage, Share, Scores;
      ScoresAppend(init, c, res);
      ProductByAppend(Scores(init, res), Score(c, res), Coverage);
      ProductByAppend(init, c, Share(res));
    }
  }

  lemma CoverageIs(c: QueryNode, res: Resolutions)
    ensures Coverage(Score(c, res)) == Share(res)(c)
  {}

  /** An AND that has children: the shares of those that count multiply, with 0.7 for each beyond the first;
      at least the floor.  Its confidence is the lowest of theirs, with 15% off for each child that found nothing. */
  lemma AndLaw(cs: seq<QueryNode>, res: Resolutions) returns (lowest: real)
    requires cs != []
    ensures var r, working := Score(AndNode(cs), res), Working(cs, res);
            && working != []
            && r.size == AtLeastFloor(Round(Discounted(ProductBy(working, Share(res)), |working| - 1)))
            && r.confidence == lowest * Power(0.85, |Filter(cs, NotFound(res))|)
            && lowest <= 1.0 && (forall c :: c in working ==> lowest <= Score(c, res).confidence)
            && (lowest == 1.0 || exists c :: c in working && Score(c, res).confidence == lowest)
  {
    hide Filter, Working, ProductBy, Power, Share, AllSignals, AllExcludes, MinConfidence, Coverage, NotFound, Score, Intersected, Penalised, AtLeastFloor, Discounted;
    AndUnfolds(cs, res);
    WorkingScores(cs, res);
    var working := Working(cs, res);
    ShareProduct(working, res);
    IntersectedIs(ProductBy(working, Share(res)), |working|);
    lowest := MinConfidence(Scores(working, res));
    LowestOf(working, res);
    PenalisedIs(lowest, |Filter(cs, NotFound(res))|);
  }

  lemma PenalisedIs(x: real, n: nat)
    ensures Penalised(x, n) == x * Power(0.85, n)
  {}

  lemma DiscountedIs(p: real, n: nat, factor: real)
    requires factor == OVERLAP_FACTOR
    ensures Headcount(p) * Power(factor, n) == Discounted(p, n)
  {}

  lemma IntersectedIs(p: real, n: nat)
    requires n > 0
    ensures Intersected(p, n) == AtLeastFloor(Round(Discounted(p, n - 1)))
  {
    hide Power, Round, Headcount, Discounted;
    var factor: real := OVERLAP_FACTOR;
    var q := Power(factor, n - 1);
    var x := Headcount(p) * q;
    assert Intersected(p, n) == MaxInt(Round(x), AUDIENCE_FLOOR);
    DiscountedIs(p, n - 1, factor);
  }

  lemma LowestOf(cs: seq<QueryNode>, res: Resolutions)
    ensures var lowest := MinConfidence(Scores(cs, res));
            && lowest <= 1.0 && (forall c :: c in cs ==> lowest <= Score(c, res).confidence)
            && (lowest == 1.0 || exists c :: c in cs && Score(c, res).confidence == lowest)
  {
    hide Score;
    var rs := Scores(cs, res);
    MinConfidenceIs(rs);
    forall c | c in cs ensures MinConfidence(rs) <= Score(c, res).confidence {
      var i :| 0 <= i < |cs| && cs[i] == c;
      assert rs[i] in rs;
    }
    if MinConfidence(rs) != 1.0 {
      var r :| r in rs && r.confidence == MinConfidence(rs);
      var i :| 0 <= i < |rs| && rs[i] == r;
      assert cs[i] in cs;
    }
  }

  /** The signals and exclusions of an AND are those of the children that count, one after the other. */
  lemma AndSignals(cs: seq<QueryNode>, c: QueryNode, res: Resolutions)
    requires Found(res)(c) && forall x :: x in cs ==> Found(res)(x)
    ensures var r, all, last := Score(AndNode(cs), res), Score(AndNode(cs + [c]), res), Score(c, res);
            all.signals == r.signals + last.signals && all.excludes == r.excludes + last.excludes
  {
    hide Score, Found, Intersected, Penalised, MinConfidence;
    FilterEvery(cs, Found(res));
    FilterEvery(cs + [c], Found(res));
    AndUnfolds(cs + [c], res);
    ScoresAppend(cs, c, res);
    Gathered(Scores(cs, res), Score(c, res));
    if cs == [] {
      EmptyBranches(res);
      assert Scores(cs, res) == [];
    } else {
      AndUnfolds(cs, res);
    }
  }

  /** Children that found nothing add no signals and no exclusions. */
  lemma AndSkips(cs: seq<QueryNode>, res: Resolutions)
    requires Filter(cs, Found(res)) != []
    ensures var r, kept := Score(AndNode(cs), res), Score(AndNode(Filter(cs, Found(res))), res);
            r.signals == kept.signals && r.excludes == kept.excludes && r.size == kept.size
  {
    hide Score, Found, Intersected, Penalised, MinConfidence, AllSignals, AllExcludes, ProductBy, Coverage;
    var kept := Filter(cs, Found(res));
    AndUnfolds(cs, res);
    AndUnfolds(kept, res);
    FilterEvery(kept, Found(res));
  }

  lemma Gathered(rs: seq<AudienceNode>, r: AudienceNode)
    ensures AllSignals(rs + [r]) == AllSignals(rs) + r.signals && AllExcludes(rs + [r]) == AllExcludes(rs) + r.excludes
    ensures AllSignals([]) == [] && AllExcludes([]) == []
  {
    assert (rs + [r])[..|rs|] == rs;
  }

  // ---------------------------------------------------------------------
  // OR
  // ---------------------------------------------------------------------

  function Rest(res: Resolutions): QueryNode -> real {
    (c: QueryNode) => 1.0 - Score(c, res).size as real / 240_000_000.0
  }

  lemma {:induction false} RestProduct(cs: seq<QueryNode>, res: Resolutions)
    ensures ProductBy(Scores(cs, res), Uncovered) == ProductBy(cs, Rest(res))
  {
    hide Score, Mul;
    if cs == [] {
      assert Scores(cs, res) == [];
    } else {
      var init, c := cs[..|cs| - 1], cs[|cs| - 1];
      assert cs == init + [c];
      RestProduct(init, res);
      assert Uncovered(Score(c, res)) == Rest(res)(c);
      hide Uncovered, Rest, Scores;
      ScoresAppend(init, c, res);
      ProductByAppend(Scores(init, res), Score(c, res), Uncovered);
      ProductByAppend(init, c, Rest(res));
    }
  }

  /** Of all adults, what a share of p leaves. */
  function AllBut(p: real): real {
    240_000_000.0 * (1.0 - p)
  }

  function AtMostAll(x: int): int {
    if x <= 240_000_000 then x else 240_000_000
  }

  /** An OR that has children: the baseline less the part that none of them covers, at most the baseline.  Its
      confidence is the highest of theirs and 0, and it drops all exclusions. */
  lemma OrLaw(cs: seq<QueryNode>, res: Resolutions)
    requires cs != []
    ensures var r := Score(OrNode(cs), res);
            && r.size == AtMostAll(Round(AllBut(ProductBy(cs, Rest(res))))) && r.excludes == []
            && r.confidence >= 0.0 && (forall c :: c in cs ==> Score(c, res).confidence <= r.confidence)
            && (r.confidence == 0.0 || exists c :: c in cs && Score(c, res).confidence == r.confidence)
  {
    hide Score, UnionSize, ProductBy, Rest, MaxConfidence, AllBut;
    Unfold(cs, res);
    UnionIs(Scores(cs, res));
    RestProduct(cs, res);
    HighestOf(cs, res);
  }

  lemma {:induction false} UnionIs(rs: seq<AudienceNode>)
    ensures UnionSize(rs) == AllBut(ProductBy(rs, Uncovered))
  {
    hide UnionStep, Uncovered, Mul;
    if rs != [] {
      var init, c := rs[..|rs| - 1], rs[|rs| - 1];
      UnionIs(init);
      StepLaw(UnionSize(init), c);
      ProductScale(240_000_000.0, ProductBy(init, Uncovered), Uncovered(c), UnionSize(init), UnionSize(rs));
    }
  }

  lemma StepLaw(u: real, c: AudienceNode)
    ensures 240_000_000.0 - UnionStep(u, c) == Mul(240_000_000.0 - u, Uncovered(c))
  {
    var b, v := US_ADULT_BASELINE as real, Coverage(c);
    DivBounds(c.size as real, b, 0.0);
    assert v * b == c.size as real;
    hide Coverage;
    OverlapTerm(u, v, b);
    Differences(u, v, b);
    IsMul(b - u, 1.0 - v);
  }

  lemma {:induction false} MaxConfidenceIs(cs: seq<AudienceNode>)
    ensures MaxConfidence(cs) >= 0.0 && forall c :: c in cs ==> c.confidence <= MaxConfidence(cs)
    ensures MaxConfidence(cs) == 0.0 || exists c :: c in cs && c.confidence == MaxConfidence(cs)
  {
    if cs != [] {
      var init, c := cs[..|cs| - 1], cs[|cs| - 1];
      assert cs == init + [c];
      MaxConfidenceIs(init);
      assert c in cs && forall d :: d in init ==> d in cs;
    }
  }

  lemma HighestOf(cs: seq<QueryNode>, res: Resolutions)
    ensures var highest := MaxConfidence(Scores(cs, res));
            && highest >= 0.0 && (forall c :: c in cs ==> Score(c, res).confidence <= highest)
            && (highest == 0.0 || exists c :: c in cs && Score(c, res).confidence == highest)
  {
    hide Score;
    var rs := Scores(cs, res);
    MaxConfidenceIs(rs);
    forall c | c in cs ensures Score(c, res).confidence <= MaxConfidence(rs) {
      var i :| 0 <= i < |cs| && cs[i] == c;
      assert rs[i] in rs;
    }
    if MaxConfidence(rs) != 0.0 {
      var r :| r in rs && r.confidence == MaxConfidence(rs);
      var i :| 0 <= i < |rs| && rs[i] == r;
      assert cs[i] in cs;
    }
  }

  lemma OrSignals(cs: seq<QueryNode>, c: QueryNode, res: Resolutions)
    ensures Score(OrNode(cs + [c]), res).signals == Score(OrNode(cs), res).signals + Score(c, res).signals
  {
    hide Score, UnionSize, MaxConfidence;
    Unfold(cs, res);
    Unfold(cs + [c], res);
    ScoresAppend(cs, c, res);
    Gathered(Scores(cs, res), Score(c, res));
    if cs == [] {
      assert Scores(cs, res) == [];
    }
  }

  // ---------------------------------------------------------------------
  // Two children
  // ---------------------------------------------------------------------

  /** Two children that found something, of a and b people: AND has 0.7 a b / B, or the floor. */
  lemma BothOf(a: QueryNode, b: QueryNode, res: Resolutions) returns (both: real)
    requires Found(res)(a) && Found(res)(b)
    ensures both * 240_000_000.0 == 0.7 * (Score(a, res).size as real * Score(b, res).size as real)
    ensures Score(AndNode([a, b]), res).size == AtLeastFloor(Round(both))
  {
    ShareIs(a, res);
    ShareIs(b, res);
    hide Score, Share, Rest, Found, Filter, ProductBy, Round, Mul, Power;
    FilterEvery([a, b], Found(res));
    ProductOfTwo(a, b, Share(res));
    var lowest := AndLaw([a, b], res);
    PowerLaw(0.7, 0);
    var x, y := Score(a, res).size as real, Score(b, res).size as real;
    both := Mul(x / 240_000_000.0, y / 240_000_000.0) * 240_000_000.0 * 0.7;
    PairArithmetic(x, y);
  }

  lemma ShareIs(a: QueryNode, res: Resolutions)
    ensures Share(res)(a) == Score(a, res).size as real / 240_000_000.0
    ensures Rest(res)(a) == 1.0 - Score(a, res).size as real / 240_000_000.0
  {}

  /** OR has a + b - a b / B, at most B. */
  lemma EitherOf(a: QueryNode, b: QueryNode, res: Resolutions) returns (either: real)
    ensures either * 240_000_000.0 ==
            (Score(a, res).size as real + Score(b, res).size as real) * 240_000_000.0 - Score(a, res).size as real * Score(b, res).size as real
    ensures Score(OrNode([a, b]), res).size == AtMostAll(Round(either))
  {
    ShareIs(a, res);
    ShareIs(b, res);
    hide Score, Share, Rest, ProductBy, Round, Mul;
    ProductOfTwo(a, b, Rest(res));
    OrLaw([a, b], res);
    var x, y := Score(a, res).size as real, Score(b, res).size as real;
    either := 240_000_000.0 * (1.0 - Mul(1.0 - x / 240_000_000.0, 1.0 - y / 240_000_000.0));
    PairArithmetic(x, y);
  }

  lemma PairArithmetic(x: real, y: real)
    ensures Mul(x / 240_000_000.0, y / 240_000_000.0) * 240_000_000.0 * 0.7 * 240_000_000.0 == 0.7 * (x * y)
    ensures 240_000_000.0 * (1.0 - Mul(1.0 - x / 240_000_000.0, 1.0 - y / 240_000_000.0)) * 240_000_000.0 == (x + y) * 240_000_000.0 - x * y
  {}

  lemma ProductOfTwo(a: QueryNode, b: QueryNode, f: QueryNode -> real)
    ensures ProductBy([a, b], f) == Mul(f(a), f(b))
  {
    assert [a] + [b] == [a, b] && [a][..0] == [];
    ProductByAppend([a], b, f);
  }
}
