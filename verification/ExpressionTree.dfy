// src/analytics/audienceMath.ts: the boolean expression tree over catalog signals, its
// validator and its recursive reach evaluator.
module ExpressionTree {
  import opened Numbers
  import opened Sequences
  import opened AudienceMath
  import R = Ranking
  import M = OrderedMap

  const MAX_AST_DEPTH: nat := 5
  const MAX_AST_NODES: nat := 30

  datatype BoolOp = OR | AND | NOT

  datatype Node =
    | Leaf(id: string, signalId: string)
    | Branch(id: string, op: BoolOp, children: seq<Node>)

  // ---------------------------------------------------------------------
  // Validation
  // ---------------------------------------------------------------------

  datatype Problem = TooDeep | MissingSignalId | MisplacedNot | NotArity | TooFewChildren(op: BoolOp) | TooManyNodes(count: nat)

  datatype ValidationError = ValidationError(path: seq<nat>, problem: Problem)

  /** The errors reported at a branch itself, before its children are visited. */
  function BranchErrors(op: BoolOp, arity: nat, path: seq<nat>, parentOp: Option<BoolOp>): seq<ValidationError> {
    if op == NOT then
      (if parentOp != Some(AND) then [ValidationError(path, MisplacedNot)] else [])
      + (if arity != 1 then [ValidationError(path, NotArity)] else [])
    else if arity < 2 then [ValidationError(path, TooFewChildren(op))]
    else []
  }

  function WalkErrors(node: Node, depth: nat, path: seq<nat>, parentOp: Option<BoolOp>): seq<ValidationError>
    decreases node, 1, 0
  {
    if depth > MAX_AST_DEPTH then [ValidationError(path, TooDeep)]
    else match node
      case Leaf(_, signalId) => if signalId == "" then [ValidationError(path, MissingSignalId)] else []
      case Branch(_, op, children) => BranchErrors(op, |children|, path, parentOp) + ChildErrors(node, |children|, depth, path)
  }

  function ChildErrors(node: Node, k: nat, depth: nat, path: seq<nat>): seq<ValidationError>
    requires node.Branch? && k <= |node.children|
    decreases node, 0, k
  {
    if k == 0 then []
    else ChildErrors(node, k - 1, depth, path) + WalkErrors(node.children[k - 1], depth + 1, path + [k - 1], Some(node.op))
  }

  /** Nodes visited: children of a node that is too deep are not. */
  function WalkCount(node: Node, depth: nat): nat
    decreases node, 1, 0
  {
    if depth > MAX_AST_DEPTH || node.Leaf? then 1 else 1 + ChildCount(node, |node.children|, depth)
  }

  function ChildCount(node: Node, k: nat, depth: nat): nat
    requires node.Branch? && k <= |node.children|
    decreases node, 0, k
  {
    if k == 0 then 0 else ChildCount(node, k - 1, depth) + WalkCount(node.children[k - 1], depth + 1)
  }

  class Validator {
    var errors: seq<ValidationError>
    var nodeCount: nat

    constructor ()
      ensures errors == [] && nodeCount == 0
    {
      errors, nodeCount := [], 0;
    }

    method CheckBranch(op: BoolOp, arity: nat, path: seq<nat>, parentOp: Option<BoolOp>)
      modifies this`errors
      ensures errors == old(errors) + BranchErrors(op, arity, path, parentOp)
    {
      if op == NOT {
        if parentOp != Some(AND) {
          errors := errors + [ValidationError(path, MisplacedNot)];
        }
        if arity != 1 {
          errors := errors + [ValidationError(path, NotArity)];
        }
      } else {
        if arity < 2 {
          errors := errors + [ValidationError(path, TooFewChildren(op))];
        }
      }
    }

    method Walk(node: Node, depth: nat, path: seq<nat>, parentOp: Option<BoolOp>)
      modifies this
      ensures errors == old(errors) + WalkErrors(node, depth, path, parentOp)
      ensures nodeCount == old(nodeCount) + WalkCount(node, depth)
      decreases node, |path|, 1
    {
      nodeCount := nodeCount + 1;
      if depth > MAX_AST_DEPTH {
        errors := errors + [ValidationError(path, TooDeep)];
        return;
      }
      if node.Leaf? {
        if node.signalId == "" {
          errors := errors + [ValidationError(path, MissingSignalId)];
        }
        return;
      }
      CheckBranch(node.op, |node.children|, path, parentOp);
      WalkChildren(node, depth, path);
    }

    method WalkChildren(node: Node, depth: nat, path: seq<nat>)
      requires node.Branch?
      modifies this
      ensures errors == old(errors) + ChildErrors(node, |node.children|, depth, path)
      ensures nodeCount == old(nodeCount) + ChildCount(node, |node.children|, depth)
      decreases node, |path|, 0
    {
      hide WalkErrors, WalkCount;
      for i := 0 to |node.children|
        invariant errors == old(errors) + ChildErrors(node, i, depth, path)
        invariant nodeCount == old(nodeCount) + ChildCount(node, i, depth)
      {
        Walk(node.children[i], depth + 1, path + [i], Some(node.op));
      }
    }
  }

  function ValidationErrors(root: Node): seq<ValidationError> {
    var count := WalkCount(root, 1);
    WalkErrors(root, 1, [], None) + if count > MAX_AST_NODES then [ValidationError([], TooManyNodes(count))] else []
  }

  method ValidateAST(root: Node) returns (errors: seq<ValidationError>)
    ensures errors == ValidationErrors(root)
  {
    var v := new Validator();
    v.Walk(root, 1, [], None);
    errors := v.errors;
    if v.nodeCount > MAX_AST_NODES {
      errors := errors + [ValidationError([], TooManyNodes(v.nodeCount))];
    }
  }

  // What a valid tree is, without walking it.

  ghost function Depth(node: Node): nat
    decreases node, 1, 0
  {
    if node.Leaf? then 1 else 1 + MaxDepth(node, |node.children|)
  }

  ghost function MaxDepth(node: Node, k: nat): nat
    requires node.Branch? && k <= |node.children|
    decreases node, 0, k
  {
    if k == 0 then 0
    else
      var a, b := MaxDepth(node, k - 1), Depth(node.children[k - 1]);
      if a >= b then a else b
  }

  ghost function Size(node: Node): nat
    decreases node, 1, 0
  {
    if node.Leaf? then 1 else 1 + TotalSize(node, |node.children|)
  }

  ghost function TotalSize(node: Node, k: nat): nat
    requires node.Branch? && k <= |node.children|
    decreases node, 0, k
  {
    if k == 0 then 0 else TotalSize(node, k - 1) + Size(node.children[k - 1])
  }

  /** OR and AND have at least two children, NOT has one and sits under AND, leaves name a signal. */
  ghost predicate WellFormed(node: Node, parentOp: Option<BoolOp>) {
    match node
    case Leaf(_, signalId) => signalId != ""
    case Branch(_, op, children) =>
      && (if op == NOT then parentOp == Some(AND) && |children| == 1 else |children| >= 2)
      && forall c :: c in children ==> WellFormed(c, Some(op))
  }

  ghost predicate ValidTree(root: Node) {
    Depth(root) <= MAX_AST_DEPTH && Size(root) <= MAX_AST_NODES && WellFormed(root, None)
  }

  lemma {:induction false} WalkSound(node: Node, depth: nat, path: seq<nat>, parentOp: Option<BoolOp>)
    requires depth >= 1
    ensures WalkErrors(node, depth, path, parentOp) == [] <==>
            depth + Depth(node) - 1 <= MAX_AST_DEPTH && WellFormed(node, parentOp)
    ensures depth + Depth(node) - 1 <= MAX_AST_DEPTH ==> WalkCount(node, depth) == Size(node)
    decreases node, 1, 0
  {
    if node.Branch? && depth <= MAX_AST_DEPTH {
      ChildrenSound(node, |node.children|, depth, path);
    }
  }

  lemma {:induction false} ChildrenSound(node: Node, k: nat, depth: nat, path: seq<nat>)
    requires depth >= 1 && node.Branch? && k <= |node.children| && depth <= MAX_AST_DEPTH
    ensures ChildErrors(node, k, depth, path) == [] <==>
            depth + MaxDepth(node, k) <= MAX_AST_DEPTH && forall i :: 0 <= i < k ==> WellFormed(node.children[i], Some(node.op))
    ensures depth + MaxDepth(node, k) <= MAX_AST_DEPTH ==> ChildCount(node, k, depth) == TotalSize(node, k)
    decreases node, 0, k
  {
    if k > 0 {
      hide WellFormed;
      ChildrenSound(node, k - 1, depth, path);
      WalkSound(node.children[k - 1], depth + 1, path + [k - 1], Some(node.op));
    }
  }

  /** The validator is silent exactly on the valid trees. */
  lemma ValidateExact(root: Node)
    ensures ValidationErrors(root) == [] <==> ValidTree(root)
  {
    WalkSound(root, 1, [], None);
  }

  // ---------------------------------------------------------------------
  // Evaluation
  // ---------------------------------------------------------------------

  datatype EvalResult = EvalResult(
    nodeId: string,
    op: Option<BoolOp>,
    reach: real,
    children: seq<EvalResult>,
    signalsUnder: seq<Signal>,
    error: Option<string>)

  type Catalog = map<string, Signal>

  function CategoryOf(s: Signal): string {
    if s.category == "" then "composite" else s.category
  }

  /** Reach per category, in order of first appearance. */
  function CategoryCounts(signals: seq<Signal>): M.Entries<string, real> {
    if signals == [] then []
    else
      var before, s := CategoryCounts(signals[..|signals| - 1]), signals[|signals| - 1];
      M.Put(before, CategoryOf(s), M.GetOr(before, CategoryOf(s), 0.0) + Reach(s))
  }

  function NegCount(e: (string, real)): real {
    -e.1
  }

  function Dominant(signals: seq<Signal>): string {
    var ranked := R.SortBy(CategoryCounts(signals), NegCount);
    if ranked == [] then "composite" else ranked[0].0
  }

  /** The reach of one category among the signals. */
  ghost function CategoryReach(signals: seq<Signal>, c: string): real {
    if signals == [] then 0.0
    else
      CategoryReach(signals[..|signals| - 1], c)
      + if CategoryOf(signals[|signals| - 1]) == c then Reach(signals[|signals| - 1]) else 0.0
  }

  lemma {:induction false} CountKeysDistinct(signals: seq<Signal>)
    ensures M.Distinct(M.Keys(CategoryCounts(signals)))
  {
    if signals != [] {
      hide M.Put, M.Get, M.Keys;
      var before, s := CategoryCounts(signals[..|signals| - 1]), signals[|signals| - 1];
      CountKeysDistinct(signals[..|signals| - 1]);
      M.PutDistinct(before, CategoryOf(s), M.GetOr(before, CategoryOf(s), 0.0) + Reach(s));
    }
  }

  ghost predicate Occurs(c: string, signals: seq<Signal>) {
    exists s :: s in signals && CategoryOf(s) == c
  }

  lemma OccursAppend(c: string, signals: seq<Signal>, s: Signal)
    ensures Occurs(c, signals + [s]) <==> Occurs(c, signals) || CategoryOf(s) == c
  {
    if x :| x in signals && CategoryOf(x) == c {
      assert x in signals + [s];
    }
    assert s in signals + [s];
  }

  lemma CountsStep(signals: seq<Signal>, s: Signal)
    ensures CategoryCounts(signals + [s]) ==
            M.Put(CategoryCounts(signals), CategoryOf(s), M.GetOr(CategoryCounts(signals), CategoryOf(s), 0.0) + Reach(s))
  {
    assert (signals + [s])[..|signals|] == signals;
  }

  lemma NothingCounted(signals: seq<Signal>, c: string)
    requires signals == []
    ensures c !in M.Keys(CategoryCounts(signals)) && !Occurs(c, signals)
  {}

  lemma {:induction false} CountKeys(signals: seq<Signal>, c: string)
    ensures c in M.Keys(CategoryCounts(signals)) <==> Occurs(c, signals)
  {
    hide *;
    if signals == [] {
      NothingCounted(signals, c);
    } else {
      var init, s := signals[..|signals| - 1], signals[|signals| - 1];
      assert signals == init + [s];
      CountKeys(init, c);
      CountsStep(init, s);
      M.KeyInPut(CategoryCounts(init), CategoryOf(s), M.GetOr(CategoryCounts(init), CategoryOf(s), 0.0) + Reach(s), c);
      OccursAppend(c, init, s);
    }
  }

  /** The accumulated map holds each category's reach. */
  lemma {:induction false} CountsAreReaches(signals: seq<Signal>, c: string)
    ensures M.GetOr(CategoryCounts(signals), c, 0.0) == CategoryReach(signals, c)
  {
    if signals != [] {
      hide M.Put, M.Get;
      var before, s := CategoryCounts(signals[..|signals| - 1]), signals[|signals| - 1];
      CountsAreReaches(signals[..|signals| - 1], c);
      M.GetPut(before, CategoryOf(s), M.GetOr(before, CategoryOf(s), 0.0) + Reach(s), c);
    }
  }

  /** The dominant category occurs among the signals and no category reaches more. */
  lemma DominantIsLargest(signals: seq<Signal>, s: Signal)
    requires s in signals
    ensures Occurs(Dominant(signals), signals)
    ensures CategoryReach(signals, CategoryOf(s)) <= CategoryReach(signals, Dominant(signals))
  {
    var counts := CategoryCounts(signals);
    CountsAreReaches(signals, CategoryOf(s));
    CountKeys(signals, CategoryOf(s));
    CountKeysDistinct(signals);
    hide CategoryCounts, M.Keys, M.Get;
    var d := LargestEntry(counts, CategoryOf(s));
    assert counts[d].0 == Dominant(signals);
    CountsAreReaches(signals, counts[d].0);
    CountKeys(signals, counts[d].0);
  }

  lemma LargestEntry(m: M.Entries<string, real>, k: string) returns (d: nat)
    requires k in M.Keys(m) && M.Distinct(M.Keys(m))
    ensures d < |m| && R.SortBy(m, NegCount) != [] && R.SortBy(m, NegCount)[0] == m[d]
    ensures m[d].0 in M.Keys(m) && M.GetOr(m, k, 0.0) <= M.GetOr(m, m[d].0, 0.0)
  {
    var ranked := R.SortBy(m, NegCount);
    R.SortSorted(m, NegCount);
    EntryOf(m, k);
    hide R.SortBy;
    var i :| 0 <= i < |m| && m[i].0 == k;
    assert m[i] in multiset(ranked) && m[i] in ranked;
    var j :| 0 <= j < |ranked| && ranked[j] == m[i];
    assert j == 0 || NegCount(ranked[0]) <= NegCount(ranked[j]);
    assert ranked[0] in multiset(m) && ranked[0] in m;
    d :| 0 <= d < |m| && m[d] == ranked[0];
    M.GetAt(m, i);
    M.GetAt(m, d);
    assert M.Keys(m)[d] == m[d].0;
  }

  lemma EntryOf(m: M.Entries<string, real>, k: string)
    requires k in M.Keys(m)
    ensures exists i :: 0 <= i < |m| && m[i].0 == k
  {
    var i :| 0 <= i < |M.Keys(m)| && M.Keys(m)[i] == k;
  }

  /** The stand-in for a subtree: its reach under its dominant category. */
  function VirtualComposite(signals: seq<Signal>, reach: real): Signal {
    if signals == [] then Signal("", "composite", Some(reach))
    else signals[0].(size := Some(reach), category := Dominant(signals))
  }

  function Composites(rs: seq<EvalResult>): (ss: seq<Signal>)
    ensures |ss| == |rs|
    ensures forall i :: 0 <= i < |rs| ==> ss[i] == VirtualComposite(rs[i].signalsUnder, rs[i].reach)
  {
    seq(|rs|, i requires 0 <= i < |rs| => VirtualComposite(rs[i].signalsUnder, rs[i].reach))
  }

  function SignalsOf(rs: seq<EvalResult>): seq<Signal> {
    if rs == [] then [] else SignalsOf(rs[..|rs| - 1]) + rs[|rs| - 1].signalsUnder
  }

  /** The errors of the children, joined with "; "; none when there are none. */
  function JoinErrors(rs: seq<EvalResult>): Option<string> {
    if rs == [] then None
    else
      match (JoinErrors(rs[..|rs| - 1]), rs[|rs| - 1].error)
      case (None, e) => e
      case (e, None) => e
      case (Some(a), Some(b)) => Some(a + "; " + b)
  }

  predicate IsNot(r: EvalResult) {
    r.op == Some(NOT)
  }

  predicate IsPositive(r: EvalResult) {
    !IsNot(r)
  }

  /** What a NOT child excludes: its own child when it has one. */
  function Excluded(neg: EvalResult): Signal {
    var inner := if neg.children != [] then neg.children[0] else neg;
    VirtualComposite(inner.signalsUnder, inner.reach)
  }

  function ExcludedAll(negs: seq<EvalResult>): (ss: seq<Signal>)
    ensures |ss| == |negs| && forall i :: 0 <= i < |negs| ==> ss[i] == Excluded(negs[i])
  {
    seq(|negs|, i requires 0 <= i < |negs| => Excluded(negs[i]))
  }

  function OrReach(children: seq<Node>, rs: seq<EvalResult>): real {
    if forall c :: c in children ==> c.Leaf? then UnionReach(SignalsOf(rs)) as real
    else UnionReach(Composites(rs)) as real
  }

  function AndReach(positives: seq<EvalResult>, negatives: seq<EvalResult>): real
    requires positives != []
  {
    var anchor := VirtualComposite(positives[0].signalsUnder, positives[0].reach);
    var r := IntersectReach(positives[0].reach, Some(anchor), Composites(positives[1..]));
    if negatives == [] then r else ExcludeReach(r, [anchor], ExcludedAll(negatives))
  }

  /** The result of a branch from the results of its children. */
  function Combine(id: string, op: BoolOp, children: seq<Node>, rs: seq<EvalResult>): EvalResult {
    match op
    case OR => EvalResult(id, Some(OR), OrReach(children, rs), rs, SignalsOf(rs), JoinErrors(rs))
    case AND =>
      var positives, negatives := Filter(rs, IsPositive), Filter(rs, IsNot);
      if positives == [] then
        EvalResult(id, Some(AND), 0.0, rs, [], Some("AND needs at least one non-NOT child"))
      else
        EvalResult(id, Some(AND), AndReach(positives, negatives), rs, SignalsOf(positives), JoinErrors(rs))
    case NOT =>
      if rs == [] then EvalResult(id, Some(NOT), 0.0, rs, [], Some("NOT has no child"))
      else EvalResult(id, Some(NOT), rs[0].reach, rs, rs[0].signalsUnder, JoinErrors(rs))
  }

  function Evaluate(node: Node, byId: Catalog): EvalResult {
    match node
    case Leaf(id, signalId) =>
      if signalId in byId then EvalResult(id, None, Reach(byId[signalId]), [], [byId[signalId]], None)
      else EvalResult(id, None, 0.0, [], [], Some("unknown signal: " + signalId))
    case Branch(id, op, children) =>
      Combine(id, op, children, seq(|children|, i requires 0 <= i < |children| => Evaluate(children[i], byId)))
  }

  // ---------------------------------------------------------------------
  // Errors of the evaluator
  // ---------------------------------------------------------------------

  /** Every leaf is known, every AND has a non-NOT child, every NOT has a child. */
  ghost predicate Clean(node: Node, byId: Catalog) {
    match node
    case Leaf(_, signalId) => signalId in byId
    case Branch(_, op, children) =>
      && (op == AND ==> exists c :: c in children && !(c.Branch? && c.op == NOT))
      && (op == NOT ==> children != [])
      && forall c :: c in children ==> Clean(c, byId)
  }

  lemma {:induction false} JoinErrorsNone(rs: seq<EvalResult>)
    ensures JoinErrors(rs).None? <==> forall i :: 0 <= i < |rs| ==> rs[i].error.None?
  {
    if rs != [] {
      JoinErrorsNone(rs[..|rs| - 1]);
    }
  }

  lemma OpOfResult(node: Node, byId: Catalog)
    ensures IsNot(Evaluate(node, byId)) <==> node.Branch? && node.op == NOT
  {}

  lemma CombineError(id: string, op: BoolOp, cs: seq<Node>, rs: seq<EvalResult>)
    requires |cs| == |rs|
    ensures Combine(id, op, cs, rs).error.None? <==>
            JoinErrors(rs).None? && (op == AND ==> Filter(rs, IsPositive) != []) && (op == NOT ==> rs != [])
  {}

  lemma ErrorsFromChildren(node: Node, rs: seq<EvalResult>, byId: Catalog)
    requires node.Branch? && |rs| == |node.children|
    requires forall i :: 0 <= i < |rs| ==> rs[i] == Evaluate(node.children[i], byId)
    requires forall i :: 0 <= i < |rs| ==> (rs[i].error.None? <==> Clean(node.children[i], byId))
    ensures Combine(node.id, node.op, node.children, rs).error.None? <==> Clean(node, byId)
  {
    hide JoinErrors, Combine, Filter, Evaluate;
    JoinErrorsNone(rs);
    PositiveChild(node.children, rs, byId);
    CombineError(node.id, node.op, node.children, rs);
  }

  /** The root carries no error exactly on clean trees. */
  lemma {:induction false} ErrorFreeExact(node: Node, byId: Catalog)
    ensures Evaluate(node, byId).error.None? <==> Clean(node, byId)
  {
    if node.Branch? {
      hide JoinErrors, Combine, Filter, Clean;
      var cs := node.children;
      var rs := seq(|cs|, i requires 0 <= i < |cs| => Evaluate(cs[i], byId));
      forall i | 0 <= i < |cs| ensures rs[i].error.None? <==> Clean(cs[i], byId) {
        ErrorFreeExact(cs[i], byId);
      }
      assert Evaluate(node, byId) == Combine(node.id, node.op, cs, rs);
      ErrorsFromChildren(node, rs, byId);
    }
  }

  lemma PositiveChild(cs: seq<Node>, rs: seq<EvalResult>, byId: Catalog)
    requires |rs| == |cs| && forall i :: 0 <= i < |cs| ==> rs[i] == Evaluate(cs[i], byId)
    ensures Filter(rs, IsPositive) != [] <==> exists c :: c in cs && !(c.Branch? && c.op == NOT)
  {
    forall i | 0 <= i < |cs| ensures IsNot(rs[i]) <==> cs[i].Branch? && cs[i].op == NOT {
      OpOfResult(cs[i], byId);
    }
    if Filter(rs, IsPositive) != [] {
      var r := Filter(rs, IsPositive)[0];
      assert r in rs && IsPositive(r);
      var i :| 0 <= i < |rs| && rs[i] == r;
      assert cs[i] in cs;
    }
    if c :| c in cs && !(c.Branch? && c.op == NOT) {
      var i :| 0 <= i < |cs| && cs[i] == c;
      assert rs[i] in rs && IsPositive(rs[i]);
    }
  }

  /** On trees the validator accepts the condition on NOT is given. */
  ghost predicate KnownAndAnchored(node: Node, byId: Catalog) {
    match node
    case Leaf(_, signalId) => signalId in byId
    case Branch(_, op, children) =>
      && (op == AND ==> exists c :: c in children && !(c.Branch? && c.op == NOT))
      && forall c :: c in children ==> KnownAndAnchored(c, byId)
  }

  lemma {:induction false} WellFormedClean(node: Node, parentOp: Option<BoolOp>, byId: Catalog)
    requires WellFormed(node, parentOp)
    ensures Clean(node, byId) <==> KnownAndAnchored(node, byId)
  {
    if node.Branch? {
      forall c | c in node.children ensures Clean(c, byId) <==> KnownAndAnchored(c, byId) {
        WellFormedClean(c, Some(node.op), byId);
      }
    }
  }

  /** For valid trees the evaluator reports no error exactly when every leaf is known and every
      AND has a non-NOT child. */
  lemma ValidTreeErrors(root: Node, byId: Catalog)
    requires ValidationErrors(root) == []
    ensures Evaluate(root, byId).error.None? <==> KnownAndAnchored(root, byId)
  {
    ValidateExact(root);
    WellFormedClean(root, None, byId);
    ErrorFreeExact(root, byId);
  }

  // ---------------------------------------------------------------------
  // Reach bounds of every node
  // ---------------------------------------------------------------------

  /** Catalog sizes are head counts. */
  ghost predicate HeadCounts(byId: Catalog) {
    forall k :: k in byId ==> Count(Reach(byId[k]))
  }

  /** A whole, non-negative reach, at most what the signals underneath add up to. */
  ghost predicate Bounded(r: EvalResult) {
    Count(r.reach) && AllCounts(r.signalsUnder) && r.reach <= SumBy(r.signalsUnder, Reach)
  }

  ghost predicate AllBounded(rs: seq<EvalResult>) {
    forall i :: 0 <= i < |rs| ==> Bounded(rs[i])
  }

  function ReachOfResult(r: EvalResult): real {
    r.reach
  }

  lemma {:induction false} SignalsBounded(rs: seq<EvalResult>)
    requires AllBounded(rs)
    ensures AllCounts(SignalsOf(rs)) && SumBy(rs, ReachOfResult) <= SumBy(SignalsOf(rs), Reach)
  {
    if rs != [] {
      var n := |rs| - 1;
      SignalsBounded(rs[..n]);
      assert Bounded(rs[n]);
      SumByConcat(SignalsOf(rs[..n]), rs[n].signalsUnder, Reach);
    }
  }

  lemma CompositeReach(signals: seq<Signal>, reach: real)
    ensures Reach(VirtualComposite(signals, reach)) == reach
  {
    hide Dominant;
  }

  lemma {:induction false} CompositesBounded(rs: seq<EvalResult>)
    requires AllBounded(rs)
    ensures AllCounts(Composites(rs)) && SumBy(Composites(rs), Reach) == SumBy(rs, ReachOfResult)
  {
    hide VirtualComposite;
    if rs != [] {
      var n := |rs| - 1;
      CompositesBounded(rs[..n]);
      CompositeReach(rs[n].signalsUnder, rs[n].reach);
      assert Bounded(rs[n]);
      assert Composites(rs) == Composites(rs[..n]) + [VirtualComposite(rs[n].signalsUnder, rs[n].reach)];
    }
  }

  lemma OrReachBounded(children: seq<Node>, rs: seq<EvalResult>)
    requires AllBounded(rs)
    ensures Count(OrReach(children, rs)) && OrReach(children, rs) <= SumBy(SignalsOf(rs), Reach)
  {
    SignalsBounded(rs);
    CompositesBounded(rs);
    UnionCount(SignalsOf(rs));
    UnionCount(Composites(rs));
  }

  lemma FilterBounded(rs: seq<EvalResult>, p: EvalResult -> bool)
    requires AllBounded(rs)
    ensures AllBounded(Filter(rs, p))
  {
    forall i | 0 <= i < |Filter(rs, p)| ensures Bounded(Filter(rs, p)[i]) {
      assert Filter(rs, p)[i] in rs;
    }
  }

  /** An AND keeps at most the reach of each child that is not excluded. */
  lemma AndReachBounded(positives: seq<EvalResult>, negatives: seq<EvalResult>)
    requires positives != [] && AllBounded(positives) && NonNegativeReach(ExcludedAll(negatives))
    ensures Count(AndReach(positives, negatives))
    ensures forall i :: 0 <= i < |positives| ==> AndReach(positives, negatives) <= positives[i].reach
  {
    hide VirtualComposite, IntersectFold, ExcludeFold;
    var p := positives[0];
    var anchor := VirtualComposite(p.signalsUnder, p.reach);
    var folds := Composites(positives[1..]);
    CompositeReach(p.signalsUnder, p.reach);
    assert AllBounded(positives[1..]);
    CompositesBounded(positives[1..]);
    assert Bounded(p);
    IntersectBounds(p.reach, anchor.category, folds);
    var r := IntersectReach(p.reach, Some(anchor), folds);
    assert r <= p.reach && Count(r);
    forall i | 1 <= i < |positives| ensures r <= positives[i].reach {
      assert folds[i - 1] in folds;
      CompositeReach(positives[i].signalsUnder, positives[i].reach);
    }
    ExcludeBounds(r, [anchor], ExcludedAll(negatives));
  }

  lemma ExcludedNonNegative(negs: seq<EvalResult>)
    requires AllBounded(negs) && forall i :: 0 <= i < |negs| ==> AllBounded(negs[i].children)
    ensures NonNegativeReach(ExcludedAll(negs))
  {
    forall s | s in ExcludedAll(negs) ensures Reach(s) >= 0.0 {
      var i :| 0 <= i < |negs| && ExcludedAll(negs)[i] == s;
      var inner := if negs[i].children != [] then negs[i].children[0] else negs[i];
      assert Bounded(inner);
      CompositeReach(inner.signalsUnder, inner.reach);
    }
  }

  lemma CombineBounded(id: string, op: BoolOp, children: seq<Node>, rs: seq<EvalResult>)
    requires AllBounded(rs) && forall i :: 0 <= i < |rs| ==> AllBounded(rs[i].children)
    ensures Bounded(Combine(id, op, children, rs))
  {
    hide OrReach, AndReach;
    if op == OR {
      SignalsBounded(rs);
      OrReachBounded(children, rs);
    } else if op == AND {
      var positives, negatives := Filter(rs, IsPositive), Filter(rs, IsNot);
      if positives != [] {
        FilterBounded(rs, IsPositive);
        FilterBounded(rs, IsNot);
        forall i | 0 <= i < |negatives| ensures AllBounded(negatives[i].children) {
          assert negatives[i] in rs;
        }
        ExcludedNonNegative(negatives);
        AndReachBounded(positives, negatives);
        SignalsBounded(positives);
        FirstWithinSum(positives);
      }
    } else if rs != [] {
      assert Bounded(rs[0]);
    }
  }

  lemma {:induction false} FirstWithinSum(rs: seq<EvalResult>)
    requires rs != [] && AllBounded(rs)
    ensures rs[0].reach <= SumBy(rs, ReachOfResult)
  {
    var n := |rs| - 1;
    assert Bounded(rs[n]);
    if n > 0 {
      FirstWithinSum(rs[..n]);
    } else {
      assert SumBy(rs[..0], ReachOfResult) == 0.0;
    }
  }

  /** Every evaluated node reaches a whole number of people, at most the sum of the reaches
      of the signals it reports underneath. */
  lemma {:induction false} EvaluateBounded(node: Node, byId: Catalog)
    requires HeadCounts(byId)
    ensures Bounded(Evaluate(node, byId)) && AllBounded(Evaluate(node, byId).children)
  {
    if node.Branch? {
      hide Combine;
      var cs := node.children;
      var rs := seq(|cs|, i requires 0 <= i < |cs| => Evaluate(cs[i], byId));
      forall i | 0 <= i < |cs| ensures Bounded(rs[i]) && AllBounded(rs[i].children) {
        EvaluateBounded(cs[i], byId);
      }
      CombineBounded(node.id, node.op, cs, rs);
      assert Evaluate(node, byId) == Combine(node.id, node.op, cs, rs);
      CombineChildren(node.id, node.op, cs, rs);
    } else if node.signalId in byId {
      SumByAppend([], byId[node.signalId], Reach);
      assert [] + [byId[node.signalId]] == [byId[node.signalId]];
    }
  }

  lemma CombineChildren(id: string, op: BoolOp, children: seq<Node>, rs: seq<EvalResult>)
    ensures Combine(id, op, children, rs).children == rs
  {}

  /** AND: at most the reach of each non-NOT child; 0 when there is none. */
  lemma AndBounds(node: Node, byId: Catalog, i: nat)
    requires HeadCounts(byId) && node.Branch? && node.op == AND && i < |node.children|
    requires !(node.children[i].Branch? && node.children[i].op == NOT)
    ensures Evaluate(node, byId).reach <= Evaluate(node.children[i], byId).reach
  {
    var cs := node.children;
    var rs := seq(|cs|, k requires 0 <= k < |cs| => Evaluate(cs[k], byId));
    assert Evaluate(node, byId) == Combine(node.id, AND, cs, rs);
    EvaluateBounded(node, byId);
    forall k | 0 <= k < |cs| ensures Bounded(rs[k]) && AllBounded(rs[k].children) {
      EvaluateBounded(cs[k], byId);
    }
    OpOfResult(cs[i], byId);
    hide AndReach, Evaluate;
    assert rs[i] in rs && IsPositive(rs[i]);
    var positives, negatives := Filter(rs, IsPositive), Filter(rs, IsNot);
    FilterBounded(rs, IsPositive);
    FilterBounded(rs, IsNot);
    forall k | 0 <= k < |negatives| ensures AllBounded(negatives[k].children) {
      assert negatives[k] in rs;
    }
    ExcludedNonNegative(negatives);
    AndReachBounded(positives, negatives);
    var k :| 0 <= k < |positives| && positives[k] == rs[i];
  }

  /** The members an OR unites stand for its children, in order: an unknown leaf stands for nothing. */
  ghost predicate StandIns(ss: seq<Signal>, rs: seq<EvalResult>) {
    && |ss| <= |rs|
    && (forall i :: 0 <= i < |rs| && rs[i].reach > 0.0 ==> exists s :: s in ss && Reach(s) == rs[i].reach)
    && (rs != [] && rs[0].reach > 0.0 ==> ss != [] && Reach(ss[0]) == rs[0].reach)
    && SumBy(ss, Reach) <= SumBy(rs, ReachOfResult)
  }

  lemma CompositesStandIn(rs: seq<EvalResult>)
    requires AllBounded(rs)
    ensures StandIns(Composites(rs), rs)
  {
    hide VirtualComposite;
    CompositesBounded(rs);
    forall i | 0 <= i < |rs| ensures Reach(Composites(rs)[i]) == rs[i].reach {
      CompositeReach(rs[i].signalsUnder, rs[i].reach);
    }
    forall i | 0 <= i < |rs| && rs[i].reach > 0.0 ensures exists s :: s in Composites(rs) && Reach(s) == rs[i].reach {
      assert Composites(rs)[i] in Composites(rs);
    }
  }

  /** Results of leaves: one signal with the leaf's reach, or none and reach 0. */
  ghost predicate LeafResult(r: EvalResult) {
    (r.signalsUnder == [] && r.reach == 0.0) || (|r.signalsUnder| == 1 && Reach(r.signalsUnder[0]) == r.reach)
  }

  lemma LeafSum(before: seq<Signal>, r: EvalResult)
    requires LeafResult(r)
    ensures SumBy(before + r.signalsUnder, Reach) == SumBy(before, Reach) + r.reach
  {
    var last := r.signalsUnder;
    if last == [] {
      assert before + last == before;
    } else {
      assert before + last == before + [last[0]];
      SumByAppend(before, last[0], Reach);
    }
  }

  lemma StandInAppend(ss: seq<Signal>, rs: seq<EvalResult>, r: EvalResult)
    requires StandIns(ss, rs) && LeafResult(r) && (rs == [] ==> ss == [])
    ensures StandIns(ss + r.signalsUnder, rs + [r])
  {
    LeafSum(ss, r);
    SumByAppend(rs, r, ReachOfResult);
    hide SumBy;
    var more, all := ss + r.signalsUnder, rs + [r];
    forall i | 0 <= i < |all| && all[i].reach > 0.0 ensures exists s :: s in more && Reach(s) == all[i].reach {
      if i < |rs| {
        assert all[i] == rs[i];
        var s :| s in ss && Reach(s) == rs[i].reach;
        assert s in more;
      } else {
        assert r.signalsUnder[0] in more;
      }
    }
  }

  lemma NoneStandIn()
    ensures StandIns([], [])
  {}

  lemma {:induction false} LeavesStandIn(rs: seq<EvalResult>)
    requires forall i :: 0 <= i < |rs| ==> LeafResult(rs[i])
    ensures StandIns(SignalsOf(rs), rs)
  {
    hide StandIns, LeafResult;
    if rs == [] {
      NoneStandIn();
    } else {
      var n := |rs| - 1;
      LeavesStandIn(rs[..n]);
      StandInAppend(SignalsOf(rs[..n]), rs[..n], rs[n]);
      assert rs == rs[..n] + [rs[n]];
    }
  }

  /** The bounds of a union over stand-ins, seen from the children. */
  lemma UnionOfStandIns(ss: seq<Signal>, rs: seq<EvalResult>, i: nat)
    requires AllCounts(ss) && AllBounded(rs) && StandIns(ss, rs) && i < |rs|
    ensures rs[0].reach <= UnionReach(ss) as real <= SumBy(rs, ReachOfResult)
    ensures |rs| <= 4 ==> rs[i].reach <= UnionReach(ss) as real
  {
    hide UnionSum, UnionReach, SumBy;
    CountsNonNegative(ss);
    UnionCount(ss);
    UnionBounds(ss);
    assert Bounded(rs[0]) && Bounded(rs[i]);
    if ss != [] {
      assert ss[0] in ss;
      if |rs| <= 4 {
        UnionCoversLargest(ss);
      }
    }
  }

  /** OR: at least its first child and at most the sum of its children; with up to four children
      at least each of them. */
  lemma OrBounds(node: Node, byId: Catalog, i: nat)
    requires HeadCounts(byId) && node.Branch? && node.op == OR && i < |node.children|
    ensures Evaluate(node.children[0], byId).reach <= Evaluate(node, byId).reach
    ensures Evaluate(node, byId).reach <= SumBy(Evaluate(node, byId).children, ReachOfResult)
    ensures |node.children| <= 4 ==> Evaluate(node.children[i], byId).reach <= Evaluate(node, byId).reach
  {
    var cs := node.children;
    var rs := seq(|cs|, k requires 0 <= k < |cs| => Evaluate(cs[k], byId));
    assert Evaluate(node, byId) == Combine(node.id, OR, cs, rs);
    forall k | 0 <= k < |cs| ensures Bounded(rs[k]) && (cs[k].Leaf? ==> LeafResult(rs[k])) {
      EvaluateBounded(cs[k], byId);
    }
    hide UnionSum, UnionReach, VirtualComposite;
    if forall c :: c in cs ==> c.Leaf? {
      forall k | 0 <= k < |cs| ensures LeafResult(rs[k]) {
        assert cs[k] in cs;
      }
      LeavesStandIn(rs);
      SignalsBounded(rs);
      UnionOfStandIns(SignalsOf(rs), rs, i);
    } else {
      CompositesStandIn(rs);
      CompositesBounded(rs);
      UnionOfStandIns(Composites(rs), rs, i);
    }
  }

  /** An OR of n children is never below any of them. */
  ghost predicate OrAlwaysCovers(n: nat) {
    forall node, byId, i: nat :: OrOf(node, byId, n) && i < n ==>
      Evaluate(node.children[i], byId).reach <= Evaluate(node, byId).reach
  }

  ghost predicate OrOf(node: Node, byId: Catalog, n: nat) {
    HeadCounts(byId) && node.Branch? && node.op == OR && |node.children| == n
  }

  function FiveCatalog(): Catalog {
    map["a" := Sized(100.0), "b" := Sized(100.0), "c" := Sized(100.0), "d" := Sized(128.0), "e" := Sized(158.0), "z" := Sized(0.0)]
  }

  /** Leaves a to e, then n times z. */
  function FiveLeaves(n: nat): (cs: seq<Node>)
    ensures |cs| == n + 5 && forall i :: 0 <= i < |cs| ==> cs[i].Leaf? && cs[i].signalId in FiveCatalog()
  {
    [Leaf("1", "a"), Leaf("2", "b"), Leaf("3", "c"), Leaf("4", "d"), Leaf("5", "e")] + seq(n, _ => Leaf("6", "z"))
  }

  function LeafSignals(cs: seq<Node>, byId: Catalog): (ss: seq<Signal>)
    requires forall i :: 0 <= i < |cs| ==> cs[i].Leaf? && cs[i].signalId in byId
    ensures |ss| == |cs| && forall i :: 0 <= i < |cs| ==> ss[i] == byId[cs[i].signalId]
  {
    seq(|cs|, i requires 0 <= i < |cs| => byId[cs[i].signalId])
  }

  lemma {:induction false} KnownLeaves(cs: seq<Node>, rs: seq<EvalResult>, byId: Catalog)
    requires forall i :: 0 <= i < |cs| ==> cs[i].Leaf? && cs[i].signalId in byId
    requires |rs| == |cs| && forall i :: 0 <= i < |cs| ==> rs[i] == Evaluate(cs[i], byId)
    ensures SignalsOf(rs) == LeafSignals(cs, byId)
  {
    if cs != [] {
      var n := |cs| - 1;
      KnownLeaves(cs[..n], rs[..n], byId);
      assert rs[n].signalsUnder == [byId[cs[n].signalId]];
      assert LeafSignals(cs, byId) == LeafSignals(cs[..n], byId) + [byId[cs[n].signalId]];
    }
  }

  lemma {:induction false} SameZeros(n: nat)
    ensures Zeros(n) == seq(n, _ => Sized(0.0))
  {
    if n > 0 {
      SameZeros(n - 1);
    }
  }

  /** An OR of known leaves reaches the union of their signals. */
  lemma OrOfLeaves(id: string, cs: seq<Node>, byId: Catalog)
    requires forall i :: 0 <= i < |cs| ==> cs[i].Leaf? && cs[i].signalId in byId
    ensures Evaluate(Branch(id, OR, cs), byId).reach == UnionReach(LeafSignals(cs, byId)) as real
  {
    var rs := seq(|cs|, k requires 0 <= k < |cs| => Evaluate(cs[k], byId));
    KnownLeaves(cs, rs, byId);
    hide UnionReach, LeafSignals, SignalsOf, JoinErrors, Composites;
    forall c | c in cs ensures c.Leaf? {
      var k :| 0 <= k < |cs| && cs[k] == c;
    }
    assert Evaluate(Branch(id, OR, cs), byId) == Combine(id, OR, cs, rs);
  }

  lemma FiveSignals(n: nat)
    ensures LeafSignals(FiveLeaves(n), FiveCatalog()) == Shrinking() + Zeros(n)
    ensures HeadCounts(FiveCatalog())
  {
    SameZeros(n);
  }

  /** An OR of five or more known leaves, one of them larger than the whole. */
  lemma OrShrinks(n: nat)
    ensures var node := Branch("or", OR, FiveLeaves(n));
            && OrOf(node, FiveCatalog(), n + 5)
            && Evaluate(node, FiveCatalog()).reach == 145.0
            && Evaluate(node.children[4], FiveCatalog()).reach == 158.0
  {
    assert FiveLeaves(n)[4] == Leaf("5", "e") && Reach(FiveCatalog()["e"]) == 158.0;
    hide UnionReach, Zeros, LeafSignals, HeadCounts, FiveLeaves, Shrinking;
    OrOfLeaves("or", FiveLeaves(n), FiveCatalog());
    FiveSignals(n);
    WitnessReported(n);
  }

  /** In a tree an OR of n children is never below any of them if and only if n is at most four. */
  lemma OrCoversIff(n: nat)
    requires n >= 1
    ensures OrAlwaysCovers(n) <==> n <= 4
  {
    hide Evaluate, HeadCounts;
    if n <= 4 {
      forall node, byId, i: nat | OrOf(node, byId, n) && i < n
        ensures Evaluate(node.children[i], byId).reach <= Evaluate(node, byId).reach
      {
        OrBounds(node, byId, i);
      }
    } else {
      OrShrinks(n - 5);
      var node := Branch("or", OR, FiveLeaves(n - 5));
      assert OrOf(node, FiveCatalog(), n) && Evaluate(node.children[4], FiveCatalog()).reach > Evaluate(node, FiveCatalog()).reach;
    }
  }
}
