// src/domain/compositeScorer.ts: scoring an audience query tree over resolved signals.
module CompositeScorer {
  import opened Numbers
  import opened Sequences

  const US_ADULT_BASELINE: int := 240_000_000
  const AUDIENCE_FLOOR: int := 50_000
  const OVERLAP_FACTOR: real := 0.70
  const NEGATION_UNCERTAINTY: real := 0.80

  datatype ResolvedSignal = ResolvedSignal(
    id: string,
    name: string,
    coverage: real,
    audienceSize: int,
    matchScore: real,
    matchMethod: string)

  datatype QueryNode =
    | LeafNode(dimension: string, value: string, confidence: real)
    | AndNode(children: seq<QueryNode>)
    | OrNode(children: seq<QueryNode>)
    | NotNode(children: seq<QueryNode>)

  datatype LeafResolution = LeafResolution(dimension: string, value: string, matches: seq<ResolvedSignal>, isExclusion: bool)

  type Resolutions = map<string, LeafResolution>

  datatype AudienceNode = AudienceNode(
    signals: seq<ResolvedSignal>,
    size: int,
    confidence: real,
    excludes: seq<ResolvedSignal>)

  function Key(dimension: string, value: string): string {
    dimension + "::" + value
  }

  function EmptyNode(confidence: real): AudienceNode {
    AudienceNode([], AUDIENCE_FLOOR, confidence, [])
  }

  function MaxInt(a: int, b: int): int {
    if a >= b then a else b
  }

  function MinInt(a: int, b: int): int {
    if a <= b then a else b
  }

  function Power(b: real, n: nat): real {
    if n == 0 then 1.0 else Power(b, n - 1) * b
  }

  // ---------------------------------------------------------------------
  // The four cases
  // ---------------------------------------------------------------------

  function ScoreLeaf(dimension: string, value: string, confidence: real, res: Resolutions): AudienceNode {
    var key := Key(dimension, value);
    if key !in res || res[key].matches == [] then EmptyNode(confidence * 0.3)
    else
      var top := res[key].matches[0];
      AudienceNode(
        res[key].matches,
        Round(top.coverage * US_ADULT_BASELINE as real),
        Max(top.matchScore * confidence, top.matchScore * 0.55),
        [])
  }

  predicate IsResolved(c: AudienceNode) {
    c.signals != [] || c.excludes != []
  }

  predicate IsUnresolved(c: AudienceNode) {
    !IsResolved(c)
  }

  /** The children whose sizes count: the resolved ones, or all of them if none is. */
  function WorkingSet(children: seq<AudienceNode>): seq<AudienceNode> {
    var resolved := Filter(children, IsResolved);
    if resolved != [] then resolved else children
  }

  function Coverage(c: AudienceNode): real {
    c.size as real / US_ADULT_BASELINE as real
  }

  function MinConfidence(cs: seq<AudienceNode>): real {
    if cs == [] then 1.0 else Min(MinConfidence(cs[..|cs| - 1]), cs[|cs| - 1].confidence)
  }

  function MaxConfidence(cs: seq<AudienceNode>): real {
    if cs == [] then 0.0 else Max(MaxConfidence(cs[..|cs| - 1]), cs[|cs| - 1].confidence)
  }

  function AllSignals(cs: seq<AudienceNode>): seq<ResolvedSignal> {
    if cs == [] then [] else AllSignals(cs[..|cs| - 1]) + cs[|cs| - 1].signals
  }

  function AllExcludes(cs: seq<AudienceNode>): seq<ResolvedSignal> {
    if cs == [] then [] else AllExcludes(cs[..|cs| - 1]) + cs[|cs| - 1].excludes
  }

  function Headcount(p: real): real {
    p * US_ADULT_BASELINE as real
  }

  /** The size of an intersection of n children whose coverages multiply to p. */
  function Intersected(p: real, n: nat): int
    requires n > 0
  {
    MaxInt(Round(Headcount(p) * Power(OVERLAP_FACTOR, n - 1)), AUDIENCE_FLOOR)
  }

  function AndSize(working: seq<AudienceNode>): int
    requires working != []
  {
    Intersected(ProductBy(working, Coverage), |working|)
  }

  /** Each unresolved child costs 15% of the confidence. */
  function Penalised(confidence: real, unresolved: nat): real {
    confidence * Power(0.85, unresolved)
  }

  function CombineAnd(children: seq<AudienceNode>): AudienceNode {
    if children == [] then EmptyNode(1.0)
    else
      var working := WorkingSet(children);
      AudienceNode(
        AllSignals(working),
        AndSize(working),
        Penalised(MinConfidence(working), |Filter(children, IsUnresolved)|),
        AllExcludes(working))
  }

  method ScoreAnd(children: seq<AudienceNode>) returns (node: AudienceNode)
    ensures node == CombineAnd(children)
  {
    if |children| == 0 {
      return EmptyNode(1.0);
    }
    hide Intersected, Penalised, Coverage, Filter, Mul;
    var workingSet := WorkingSet(children);
    var coverageProduct, minConfidence, allSignals, allExcludes := 1.0, 1.0, [], [];
    for i := 0 to |workingSet|
      invariant coverageProduct == ProductBy(workingSet[..i], Coverage)
      invariant minConfidence == MinConfidence(workingSet[..i])
      invariant allSignals == AllSignals(workingSet[..i])
      invariant allExcludes == AllExcludes(workingSet[..i])
    {
      var child := workingSet[i];
      assert workingSet[..i + 1][..i] == workingSet[..i];
      coverageProduct := Mul(coverageProduct, Coverage(child));
      minConfidence := Min(minConfidence, child.confidence);
      allSignals := allSignals + child.signals;
      allExcludes := allExcludes + child.excludes;
    }
    assert workingSet[..|workingSet|] == workingSet;
    node := AudienceNode(
      allSignals,
      Intersected(coverageProduct, |workingSet|),
      Penalised(minConfidence, |Filter(children, IsUnresolved)|),
      allExcludes);
  }

  /** One step of the union: add a child, take off the expected overlap. */
  function UnionStep(u: real, c: AudienceNode): real {
    var b := US_ADULT_BASELINE as real;
    u + c.size as real - (u / b) * Coverage(c) * b
  }

  function UnionSize(cs: seq<AudienceNode>): real {
    if cs == [] then 0.0 else UnionStep(UnionSize(cs[..|cs| - 1]), cs[|cs| - 1])
  }

  function CombineOr(children: seq<AudienceNode>): AudienceNode {
    if children == [] then EmptyNode(1.0)
    else
      AudienceNode(
        AllSignals(children),
        MinInt(Round(UnionSize(children)), US_ADULT_BASELINE),
        MaxConfidence(children),
        [])
  }

  method ScoreOr(children: seq<AudienceNode>) returns (node: AudienceNode)
    ensures node == CombineOr(children)
  {
    if |children| == 0 {
      return EmptyNode(1.0);
    }
    var unionSize, maxConfidence, allSignals := 0.0, 0.0, [];
    for i := 0 to |children|
      invariant unionSize == UnionSize(children[..i])
      invariant maxConfidence == MaxConfidence(children[..i])
      invariant allSignals == AllSignals(children[..i])
    {
      hide UnionStep;
      var child := children[i];
      assert children[..i + 1][..i] == children[..i];
      unionSize := UnionStep(unionSize, child);
      maxConfidence := Max(maxConfidence, child.confidence);
      allSignals := allSignals + child.signals;
    }
    assert children[..|children|] == children;
    node := AudienceNode(allSignals, MinInt(Round(unionSize), US_ADULT_BASELINE), maxConfidence, []);
  }

  /** Only the first child of a NOT is looked at. */
  function CombineNot(first: Option<AudienceNode>): AudienceNode {
    match first
    case None => AudienceNode([], US_ADULT_BASELINE, 0.0, [])
    case Some(c) =>
      AudienceNode([], MaxInt(US_ADULT_BASELINE - c.size, AUDIENCE_FLOOR), c.confidence * NEGATION_UNCERTAINTY, c.signals)
  }

  function Score(node: QueryNode, res: Resolutions): AudienceNode {
    match node
    case LeafNode(dimension, value, confidence) => ScoreLeaf(dimension, value, confidence, res)
    case AndNode(cs) => CombineAnd(seq(|cs|, i requires 0 <= i < |cs| => Score(cs[i], res)))
    case OrNode(cs) => CombineOr(seq(|cs|, i requires 0 <= i < |cs| => Score(cs[i], res)))
    case NotNode(cs) => CombineNot(if cs == [] then None else Some(Score(cs[0], res)))
  }

  // ---------------------------------------------------------------------
  // Sizes
  // ---------------------------------------------------------------------

  ghost predicate CoveragesOk(res: Resolutions) {
    forall k :: k in res ==> forall m :: m in res[k].matches ==> 0.0 <= m.coverage <= 1.0
  }

  ghost predicate InRange(c: AudienceNode) {
    0 <= c.size <= US_ADULT_BASELINE
  }

  ghost predicate AllInRange(cs: seq<AudienceNode>) {
    forall c :: c in cs ==> InRange(c)
  }

  lemma CoverageRange(c: AudienceNode)
    requires InRange(c)
    ensures 0.0 <= Coverage(c) <= 1.0 && Coverage(c) * US_ADULT_BASELINE as real == c.size as real
  {
    var s, b := c.size as real, US_ADULT_BASELINE as real;
    DivBounds(s, b, 0.0);
    DivBounds(s, b, 1.0);
    assert Coverage(c) == s / b;
  }

  lemma UnitProduct(a: real, b: real)
    requires 0.0 <= a <= 1.0 && 0.0 <= b <= 1.0
    ensures 0.0 <= Mul(a, b) <= a && Mul(a, b) <= b
  {
    MulNonNegative(a, b);
    MulMonotone(a, 1.0, b);
    MulMonotone(b, 1.0, a);
    assert a * b <= b && b * a <= a;
  }

  lemma {:induction false} CoverageProduct(cs: seq<AudienceNode>)
    requires AllInRange(cs)
    ensures 0.0 <= ProductBy(cs, Coverage) <= 1.0
    ensures forall i :: 0 <= i < |cs| ==> ProductBy(cs, Coverage) <= Coverage(cs[i])
  {
    if cs != [] {
      hide Coverage, Mul;
      var n := |cs| - 1;
      CoverageProduct(cs[..n]);
      CoverageRange(cs[n]);
      UnitProduct(ProductBy(cs[..n], Coverage), Coverage(cs[n]));
      forall i | 0 <= i < |cs| ensures ProductBy(cs, Coverage) <= Coverage(cs[i]) {
        if i < n {
          assert cs[..n][i] == cs[i];
        }
      }
    }
  }

  lemma {:induction false} PowerUnit(b: real, n: nat)
    requires 0.0 <= b <= 1.0
    ensures 0.0 <= Power(b, n) <= 1.0
  {
    if n > 0 {
      PowerUnit(b, n - 1);
      UnitProduct(Power(b, n - 1), b);
    }
  }

  /** Scaling a size of at most s by a factor of at most 1 and rounding stays within s. */
  lemma ScaledSize(x: real, f: real, s: int)
    requires 0.0 <= x <= s as real && 0.0 <= f <= 1.0
    ensures 0 <= Round(x * f) <= s
  {
    MulNonNegative(x, f);
    MulMonotone(f, 1.0, x);
    RoundWithin(x * f, s);
    RoundWithin(x * f, 0);
  }

  /** An intersection is in range and at most the floor or any one member. */
  lemma AndSizeBounds(working: seq<AudienceNode>, i: nat)
    requires working != [] && AllInRange(working) && i < |working|
    ensures AUDIENCE_FLOOR <= AndSize(working) <= US_ADULT_BASELINE
    ensures AndSize(working) <= MaxInt(AUDIENCE_FLOOR, working[i].size)
  {
    hide Coverage, ProductBy, Intersected;
    CoverageProduct(working);
    CoverageRange(working[i]);
    IntersectedBounds(ProductBy(working, Coverage), |working|, Coverage(working[i]), working[i].size);
  }

  lemma HeadcountWithin(p: real, v: real, s: int)
    requires 0.0 <= p <= v && v * US_ADULT_BASELINE as real == s as real
    ensures 0.0 <= Headcount(p) <= s as real
  {}

  lemma IntersectedBounds(p: real, n: nat, v: real, s: int)
    requires n > 0 && 0.0 <= p <= v && v * US_ADULT_BASELINE as real == s as real && s <= US_ADULT_BASELINE
    ensures AUDIENCE_FLOOR <= Intersected(p, n) <= US_ADULT_BASELINE
    ensures Intersected(p, n) <= MaxInt(AUDIENCE_FLOOR, s)
  {
    PowerUnit(OVERLAP_FACTOR, n - 1);
    hide Power;
    HeadcountWithin(p, v, s);
    hide Headcount;
    ScaledSize(Headcount(p), Power(OVERLAP_FACTOR, n - 1), s);
  }

  lemma UnionStepBounds(u: real, c: AudienceNode)
    requires InRange(c) && 0.0 <= u <= US_ADULT_BASELINE as real
    ensures u <= UnionStep(u, c) <= US_ADULT_BASELINE as real && c.size as real <= UnionStep(u, c)
    ensures US_ADULT_BASELINE as real - UnionStep(u, c) == Mul(US_ADULT_BASELINE as real - u, Uncovered(c))
  {
    var b, v := US_ADULT_BASELINE as real, Coverage(c);
    CoverageRange(c);
    hide Coverage;
    OverlapTerm(u, v, b);
    UnionOfTwo(u, v, b, c.size as real, UnionStep(u, c));
  }

  lemma Differences(u: real, v: real, b: real)
    ensures (b - u) * v == v * b - Mul(u, v) && (b - u) * (1.0 - v) == b - u - v * b + Mul(u, v)
  {}

  lemma UnionOfTwo(u: real, v: real, b: real, s: real, x: real)
    requires 0.0 <= u <= b && 0.0 <= v <= 1.0 && v * b == s && x == u + s - Mul(u, v)
    ensures u <= x <= b && s <= x && b - x == Mul(b - u, 1.0 - v)
  {
    UnitFactor(u, v);
    Differences(u, v, b);
    MulNonNegative(b - u, v);
    MulNonNegative(b - u, 1.0 - v);
    hide Mul;
    IsMul(b - u, 1.0 - v);
  }

  lemma IsMul(x: real, y: real)
    ensures Mul(x, y) == x * y
  {}

  lemma UnitFactor(u: real, v: real)
    requires u >= 0.0 && v <= 1.0
    ensures Mul(u, v) <= u
  {
    MulMonotone(v, 1.0, u);
  }

  lemma OverlapTerm(u: real, v: real, b: real)
    requires b > 0.0
    ensures (u / b) * v * b == Mul(u, v)
  {
    DivBounds(u, b, 0.0);
    assert (u / b) * v * b == ((u / b) * b) * v;
  }

  function Uncovered(c: AudienceNode): real {
    1.0 - Coverage(c)
  }

  /** Before rounding, an OR of sizes s(i) is B * (1 - product of (1 - s(i)/B)), whatever the order
      of the loop, and at least each child. */
  lemma {:induction false} UnionClosedForm(cs: seq<AudienceNode>)
    requires AllInRange(cs)
    ensures UnionSize(cs) == US_ADULT_BASELINE as real * (1.0 - ProductBy(cs, Uncovered))
    ensures 0.0 <= UnionSize(cs) <= US_ADULT_BASELINE as real
    ensures forall c :: c in cs ==> c.size as real <= UnionSize(cs)
  {
    hide UnionStep, Coverage, Uncovered, Mul;
    if cs != [] {
      var init, c := cs[..|cs| - 1], cs[|cs| - 1];
      assert cs == init + [c];
      assert forall d :: d in init ==> d in cs;
      UnionClosedForm(init);
      UnionStepBounds(UnionSize(init), c);
      ProductScale(US_ADULT_BASELINE as real, ProductBy(init, Uncovered), Uncovered(c), UnionSize(init), UnionSize(cs));
    }
  }

  lemma ProductScale(b: real, p: real, q: real, u: real, x: real)
    requires u == b * (1.0 - p) && b - x == Mul(b - u, q)
    ensures x == b * (1.0 - Mul(p, q))
  {
    assert b - u == b * p;
    assert (b * p) * q == b * (p * q);
    assert b * (1.0 - p * q) == b - b * (p * q);
  }

  /** OR: in range, at least each child, and independent of the order of the children. */
  lemma OrBounds(children: seq<AudienceNode>, c: AudienceNode)
    requires AllInRange(children) && c in children
    ensures c.size <= CombineOr(children).size <= US_ADULT_BASELINE
  {
    UnionClosedForm(children);
    hide UnionSize;
    RoundWithin(UnionSize(children), c.size);
  }

  lemma OrOrderIndependent(a: seq<AudienceNode>, b: seq<AudienceNode>)
    requires multiset(a) == multiset(b) && AllInRange(a)
    ensures CombineOr(a).size == CombineOr(b).size
  {
    forall c | c in b ensures InRange(c) {
      PermutationMember(a, b, c);
    }
    assert |multiset(a)| == |multiset(b)|;
    UnionClosedForm(a);
    UnionClosedForm(b);
    ProductByPermutation(a, b, Uncovered);
    hide UnionSize, ProductBy;
  }

  lemma WorkingMember(children: seq<AudienceNode>, c: AudienceNode)
    requires c in WorkingSet(children)
    ensures c in children
  {}

  /** AND: between the floor and the whole population, and at most the floor or any working child. */
  lemma AndBounds(children: seq<AudienceNode>, c: AudienceNode)
    requires AllInRange(children) && c in WorkingSet(children)
    ensures AUDIENCE_FLOOR <= CombineAnd(children).size <= US_ADULT_BASELINE
    ensures CombineAnd(children).size <= MaxInt(AUDIENCE_FLOOR, c.size)
  {
    var working := WorkingSet(children);
    forall d | d in working ensures InRange(d) {
      WorkingMember(children, d);
    }
    WorkingMember(children, c);
    var i :| 0 <= i < |working| && working[i] == c;
    hide AndSize, WorkingSet;
    AndSizeBounds(working, i);
  }

  lemma {:induction false} MinConfidenceIs(cs: seq<AudienceNode>)
    ensures MinConfidence(cs) <= 1.0 && forall c :: c in cs ==> MinConfidence(cs) <= c.confidence
    ensures MinConfidence(cs) == 1.0 || exists c :: c in cs && c.confidence == MinConfidence(cs)
  {
    if cs != [] {
      var init, c := cs[..|cs| - 1], cs[|cs| - 1];
      assert cs == init + [c];
      MinConfidenceIs(init);
      assert c in cs && forall d :: d in init ==> d in cs;
    }
  }

  lemma MinConfidencePermutation(a: seq<AudienceNode>, b: seq<AudienceNode>)
    requires multiset(a) == multiset(b)
    ensures MinConfidence(a) == MinConfidence(b)
  {
    MinConfidenceIs(a);
    MinConfidenceIs(b);
    hide MinConfidence;
    forall c ensures c in a <==> c in b {
      PermutationMember(a, b, c);
    }
  }

  lemma WorkingSetPermutation(a: seq<AudienceNode>, b: seq<AudienceNode>)
    requires multiset(a) == multiset(b)
    ensures multiset(WorkingSet(a)) == multiset(WorkingSet(b)) && |WorkingSet(a)| == |WorkingSet(b)|
    ensures |Filter(a, IsUnresolved)| == |Filter(b, IsUnresolved)|
  {
    FilterPermutation(a, b, IsResolved);
    FilterPermutation(a, b, IsUnresolved);
    assert |multiset(Filter(a, IsResolved))| == |multiset(Filter(b, IsResolved))|;
    assert |multiset(Filter(a, IsUnresolved))| == |multiset(Filter(b, IsUnresolved))|;
    assert |multiset(a)| == |multiset(b)|;
  }

  /** AND does not depend on the order of its children. */
  lemma AndOrderIndependent(a: seq<AudienceNode>, b: seq<AudienceNode>)
    requires multiset(a) == multiset(b)
    ensures CombineAnd(a).size == CombineAnd(b).size && CombineAnd(a).confidence == CombineAnd(b).confidence
  {
    hide WorkingSet, ProductBy, Penalised, Intersected, MinConfidence, Filter;
    assert |multiset(a)| == |multiset(b)|;
    WorkingSetPermutation(a, b);
    ProductByPermutation(WorkingSet(a), WorkingSet(b), Coverage);
    MinConfidencePermutation(WorkingSet(a), WorkingSet(b));
  }

  /** An unresolved conjunct next to a resolved one changes neither size nor signals nor exclusions,
      and costs 15% of the confidence. */
  lemma UnresolvedConjunct(a: seq<AudienceNode>, u: AudienceNode, b: seq<AudienceNode>)
    requires IsUnresolved(u) && Filter(a + b, IsResolved) != []
    ensures CombineAnd(a + [u] + b) == CombineAnd(a + b).(confidence := CombineAnd(a + [u] + b).confidence)
    ensures CombineAnd(a + [u] + b).confidence == CombineAnd(a + b).confidence * 0.85
  {
    hide Filter, AndSize, MinConfidence, WorkingSet, Penalised, IsUnresolved, IsResolved, AllSignals, AllExcludes;
    SkipUnresolved(a, u, b);
    PenalisedOnce(MinConfidence(WorkingSet(a + b)), |Filter(a + b, IsUnresolved)|);
  }

  lemma SkipUnresolved(a: seq<AudienceNode>, u: AudienceNode, b: seq<AudienceNode>)
    requires IsUnresolved(u) && Filter(a + b, IsResolved) != []
    ensures a + b != [] && a + [u] + b != [] && WorkingSet(a + [u] + b) == WorkingSet(a + b) != []
    ensures |Filter(a + [u] + b, IsUnresolved)| == |Filter(a + b, IsUnresolved)| + 1
  {
    FilterConcat(a + [u], b, IsResolved);
    FilterAppend(a, u, IsResolved);
    FilterConcat(a, b, IsResolved);
    FilterConcat(a + [u], b, IsUnresolved);
    FilterAppend(a, u, IsUnresolved);
    FilterConcat(a, b, IsUnresolved);
  }

  lemma PenalisedOnce(confidence: real, n: nat)
    ensures Penalised(confidence, n + 1) == Penalised(confidence, n) * 0.85
  {}

  /** Every node of a query has a whole size between 0 and the baseline. */
  lemma {:induction false} SizeInRange(node: QueryNode, res: Resolutions)
    requires CoveragesOk(res)
    ensures InRange(Score(node, res))
  {
    match node
    case LeafNode(dimension, value, confidence) =>
      var key := Key(dimension, value);
      if key in res && res[key].matches != [] {
        var top := res[key].matches[0];
        assert top in res[key].matches;
        MulNonNegative(top.coverage, US_ADULT_BASELINE as real);
        MulMonotone(top.coverage, 1.0, US_ADULT_BASELINE as real);
      }
    case AndNode(cs) =>
      var rs := seq(|cs|, i requires 0 <= i < |cs| => Score(cs[i], res));
      forall i | 0 <= i < |cs| ensures InRange(rs[i]) {
        SizeInRange(cs[i], res);
      }
      if rs != [] {
        AndBounds(rs, WorkingSet(rs)[0]);
      }
    case OrNode(cs) =>
      var rs := seq(|cs|, i requires 0 <= i < |cs| => Score(cs[i], res));
      forall i | 0 <= i < |cs| ensures InRange(rs[i]) {
        SizeInRange(cs[i], res);
      }
      if rs != [] {
        OrBounds(rs, rs[0]);
      }
    case NotNode(cs) =>
      if cs != [] {
        SizeInRange(cs[0], res);
      }
  }
}
