// src/analytics/audienceMath.ts: which error the validator reports for which node, and in which order.
module ValidatorLaws {
  import opened Numbers
  import opened ExpressionTree

  /** The node at a path of child indices. */
  ghost function At(node: Node, path: seq<nat>): Option<Node> {
    if path == [] then Some(node)
    else if node.Branch? && path[0] < |node.children| then At(node.children[path[0]], path[1..])
    else None
  }

  /** The operator above the node at a path; parentOp is that above the root. */
  ghost function Above(node: Node, path: seq<nat>, parentOp: Option<BoolOp>): Option<BoolOp> {
    if path == [] then parentOp
    else if node.Branch? && path[0] < |node.children| then Above(node.children[path[0]], path[1..], Some(node.op))
    else None
  }

  /** What is wrong with a node found k levels below the root, under the operator above. */
  ghost predicate Wrong(n: Node, k: nat, above: Option<BoolOp>, problem: Problem) {
    match problem
    case TooDeep => k == 5
    case MissingSignalId => k < 5 && n.Leaf? && n.signalId == ""
    case MisplacedNot => k < 5 && n.Branch? && n.op == NOT && above != Some(AND)
    case NotArity => k < 5 && n.Branch? && n.op == NOT && |n.children| != 1
    case TooFewChildren(op) => k < 5 && n.Branch? && n.op == op && (op == OR || op == AND) && |n.children| < 2
    case TooManyNodes(_) => false
  }

  /** An error found below a node that itself is k levels below the root. */
  ghost predicate Found(node: Node, k: nat, parentOp: Option<BoolOp>, path: seq<nat>, problem: Problem) {
    At(node, path).Some? && Wrong(At(node, path).value, k + |path|, Above(node, path, parentOp), problem)
  }

  /** e is reported at path below the given prefix. */
  ghost predicate Reports(errors: seq<ValidationError>, prefix: seq<nat>, path: seq<nat>, problem: Problem) {
    ValidationError(prefix + path, problem) in errors
  }

  lemma {:induction false} PathsExtend(node: Node, depth: nat, prefix: seq<nat>, parentOp: Option<BoolOp>)
    ensures forall e :: e in WalkErrors(node, depth, prefix, parentOp) ==> prefix <= e.path
    decreases node, 1, 0
  {
    if depth <= MAX_AST_DEPTH && node.Branch? {
      ChildPathsExtend(node, |node.children|, depth, prefix);
    }
  }

  lemma {:induction false} ChildPathsExtend(node: Node, k: nat, depth: nat, prefix: seq<nat>)
    requires node.Branch? && k <= |node.children|
    ensures forall e :: e in ChildErrors(node, k, depth, prefix) ==>
              prefix < e.path && e.path[|prefix|] < k
    decreases node, 0, k
  {
    hide WalkErrors;
    if k > 0 {
      ChildPathsExtend(node, k - 1, depth, prefix);
      PathsExtend(node.children[k - 1], depth + 1, prefix + [k - 1], Some(node.op));
    }
  }

  lemma {:induction false} WalkExact(node: Node, k: nat, prefix: seq<nat>, parentOp: Option<BoolOp>, path: seq<nat>, problem: Problem)
    requires k <= 5
    ensures Reports(WalkErrors(node, k + 1, prefix, parentOp), prefix, path, problem) <==> Found(node, k, parentOp, path, problem)
    decreases node, 1, 0
  {
    if k == 5 {
      DeepExact(node, prefix, parentOp, path, problem);
    } else if node.Leaf? {
      LeafExact(node, k, prefix, parentOp, path, problem);
    } else {
      hide WalkErrors, ChildErrors, BranchErrors, Wrong, At, Above;
      ChildPathsExtend(node, |node.children|, k + 1, prefix);
      BranchSplit(node, k, prefix, parentOp, path, problem);
      if path == [] {
        HereExact(node, k, prefix, parentOp, problem);
      } else {
        ChildrenExact(node, |node.children|, k, prefix, path, problem);
        BelowExact(node, k, parentOp, path, problem);
      }
    }
  }

  lemma DeepExact(node: Node, prefix: seq<nat>, parentOp: Option<BoolOp>, path: seq<nat>, problem: Problem)
    ensures Reports(WalkErrors(node, 6, prefix, parentOp), prefix, path, problem) <==> Found(node, 5, parentOp, path, problem)
  {
    assert prefix + path == prefix <==> path == [];
  }

  lemma LeafExact(node: Node, k: nat, prefix: seq<nat>, parentOp: Option<BoolOp>, path: seq<nat>, problem: Problem)
    requires k < 5 && node.Leaf?
    ensures Reports(WalkErrors(node, k + 1, prefix, parentOp), prefix, path, problem) <==> Found(node, k, parentOp, path, problem)
  {
    assert prefix + path == prefix <==> path == [];
  }

  lemma BranchSplit(node: Node, k: nat, prefix: seq<nat>, parentOp: Option<BoolOp>, path: seq<nat>, problem: Problem)
    requires k < 5 && node.Branch?
    ensures Reports(WalkErrors(node, k + 1, prefix, parentOp), prefix, path, problem) <==>
            || Reports(BranchErrors(node.op, |node.children|, prefix, parentOp), prefix, path, problem)
            || Reports(ChildErrors(node, |node.children|, k + 1, prefix), prefix, path, problem)
    ensures path != [] ==> !Reports(BranchErrors(node.op, |node.children|, prefix, parentOp), prefix, path, problem)
  {
    hide ChildErrors;
    if path != [] {
      assert |prefix + path| > |prefix|;
    }
  }

  lemma HereExact(node: Node, k: nat, prefix: seq<nat>, parentOp: Option<BoolOp>, problem: Problem)
    requires k < 5 && node.Branch?
    ensures Reports(BranchErrors(node.op, |node.children|, prefix, parentOp), prefix, [], problem) <==> Found(node, k, parentOp, [], problem)
  {
    assert prefix + [] == prefix;
  }

  lemma BelowExact(node: Node, k: nat, parentOp: Option<BoolOp>, path: seq<nat>, problem: Problem)
    requires k < 5 && node.Branch? && path != []
    ensures Found(node, k, parentOp, path, problem) <==>
            path[0] < |node.children| && Found(node.children[path[0]], k + 1, Some(node.op), path[1..], problem)
  {
    hide Wrong;
  }

  lemma {:induction false} ChildrenExact(node: Node, j: nat, k: nat, prefix: seq<nat>, path: seq<nat>, problem: Problem)
    requires k < 5 && node.Branch? && j <= |node.children| && path != []
    ensures Reports(ChildErrors(node, j, k + 1, prefix), prefix, path, problem) <==>
            path[0] < j && Found(node.children[path[0]], k + 1, Some(node.op), path[1..], problem)
    decreases node, 0, j
  {
    hide WalkErrors, Found;
    if j > 0 {
      ChildrenExact(node, j - 1, k, prefix, path, problem);
      PathsExtend(node.children[j - 1], k + 2, prefix + [j - 1], Some(node.op));
      WalkExact(node.children[j - 1], k + 1, prefix + [j - 1], Some(node.op), path[1..], problem);
      assert path[0] == j - 1 ==> prefix + path == prefix + [j - 1] + path[1..];
      assert (prefix + path)[|prefix|] == path[0];
    }
  }

  /** What the validator reports of the nodes: one error for each node and each rule the node breaks.
      Nodes below the sixth level are not looked at. */
  lemma ErrorsExact(root: Node, path: seq<nat>, problem: Problem)
    ensures ValidationError(path, problem) in ValidationErrors(root) && !problem.TooManyNodes? <==>
            Found(root, 0, None, path, problem)
  {
    hide WalkErrors;
    WalkExact(root, 0, [], None, path, problem);
    assert [] + path == path;
  }

  // ---------------------------------------------------------------------
  // The number of nodes
  // ---------------------------------------------------------------------

  /** The tree without what is more than k levels below its root. */
  ghost function Cut(node: Node, k: nat): Node {
    if node.Leaf? then node
    else if k == 0 then Branch(node.id, node.op, [])
    else Branch(node.id, node.op, seq(|node.children|, i requires 0 <= i < |node.children| => Cut(node.children[i], k - 1)))
  }

  lemma {:induction false} CutSize(node: Node, k: nat)
    requires k <= 5
    ensures WalkCount(node, 6 - k) == Size(Cut(node, k))
    decreases node, 1, 0
  {
    if node.Branch? && k > 0 {
      hide WalkCount, Size;
      CutTotal(node, |node.children|, k);
      CountUnfolds(node, k);
    }
  }

  lemma CountUnfolds(node: Node, k: nat)
    requires node.Branch? && 0 < k <= 5
    ensures WalkCount(node, 6 - k) == 1 + ChildCount(node, |node.children|, 6 - k)
    ensures Size(Cut(node, k)) == 1 + TotalSize(Cut(node, k), |node.children|)
  {
    hide ChildCount, TotalSize;
  }

  lemma {:induction false} CutTotal(node: Node, j: nat, k: nat)
    requires 0 < k <= 5 && node.Branch? && j <= |node.children|
    ensures ChildCount(node, j, 6 - k) == TotalSize(Cut(node, k), j)
    decreases node, 0, j
  {
    hide WalkCount, Size;
    if j > 0 {
      CutTotal(node, j - 1, k);
      CutSize(node.children[j - 1], k - 1);
    }
  }

  /** The node limit is reported exactly when the first six levels hold more than 30 nodes, with their number,
      as the last error. */
  lemma NodeLimitExact(root: Node)
    ensures var n, errors := Size(Cut(root, 5)), ValidationErrors(root);
            && (n > 30 ==> errors != [] && errors[|errors| - 1] == ValidationError([], TooManyNodes(n)))
            && (forall e :: e in errors && e.problem.TooManyNodes? ==> n > 30 && e == ValidationError([], TooManyNodes(n)))
  {
    hide WalkErrors, WalkCount, Size, Cut;
    CutSize(root, 5);
    forall e | e in WalkErrors(root, 1, [], None) ensures !e.problem.TooManyNodes? {
      WalkExact(root, 0, [], None, e.path, e.problem);
      assert [] + e.path == e.path;
    }
  }

  // ---------------------------------------------------------------------
  // Order
  // ---------------------------------------------------------------------

  /** A node comes ahead of what is below it and of what is to its right. */
  ghost predicate PathBefore(a: seq<nat>, b: seq<nat>) {
    a < b || exists k :: 0 <= k < |a| && k < |b| && a[..k] == b[..k] && a[k] < b[k]
  }

  ghost predicate Before(a: ValidationError, b: ValidationError) {
    PathBefore(a.path, b.path) || (a.path == b.path && a.problem == MisplacedNot && b.problem == NotArity)
  }

  ghost predicate InOrder(errors: seq<ValidationError>) {
    forall i, j :: 0 <= i < j < |errors| ==> Before(errors[i], errors[j])
  }

  lemma {:induction false} WalkOrdered(node: Node, depth: nat, prefix: seq<nat>, parentOp: Option<BoolOp>)
    ensures InOrder(WalkErrors(node, depth, prefix, parentOp))
    decreases node, 1, 0
  {
    hide ChildErrors, Before;
    if depth <= MAX_AST_DEPTH && node.Branch? {
      ChildrenOrdered(node, |node.children|, depth, prefix);
      ChildPathsExtend(node, |node.children|, depth, prefix);
      HereOrdered(node.op, |node.children|, prefix, parentOp);
      var here, below := BranchErrors(node.op, |node.children|, prefix, parentOp), ChildErrors(node, |node.children|, depth, prefix);
      hide BranchErrors;
      forall a, b | a in here && b in below ensures Before(a, b) {
        ParentBefore(a, b);
      }
      Concatenated(here, below);
    }
  }

  lemma ParentBefore(a: ValidationError, b: ValidationError)
    requires a.path < b.path
    ensures Before(a, b)
  {}

  lemma HereOrdered(op: BoolOp, arity: nat, prefix: seq<nat>, parentOp: Option<BoolOp>)
    ensures InOrder(BranchErrors(op, arity, prefix, parentOp))
    ensures forall e :: e in BranchErrors(op, arity, prefix, parentOp) ==> e.path == prefix
  {
    hide PathBefore;
  }

  lemma Concatenated(xs: seq<ValidationError>, ys: seq<ValidationError>)
    requires InOrder(xs) && InOrder(ys) && forall a, b :: a in xs && b in ys ==> Before(a, b)
    ensures InOrder(xs + ys)
  {
    hide Before;
    var all := xs + ys;
    forall i, j | 0 <= i < j < |all| ensures Before(all[i], all[j]) {
      if i < |xs| <= j {
        assert xs[i] in xs && ys[j - |xs|] in ys;
      } else if j < |xs| {
        assert all[i] == xs[i] && all[j] == xs[j];
      } else {
        assert all[i] == ys[i - |xs|] && all[j] == ys[j - |xs|];
      }
    }
  }

  lemma LeftBefore(a: ValidationError, b: ValidationError, prefix: seq<nat>, j: nat)
    requires prefix < a.path && a.path[|prefix|] < j && prefix + [j] <= b.path
    ensures Before(a, b)
  {
    var k := |prefix|;
    assert a.path[..k] == b.path[..k] && a.path[k] < b.path[k];
  }

  lemma {:induction false} ChildrenOrdered(node: Node, k: nat, depth: nat, prefix: seq<nat>)
    requires node.Branch? && k <= |node.children|
    ensures InOrder(ChildErrors(node, k, depth, prefix))
    decreases node, 0, k
  {
    hide WalkErrors, Before;
    if k > 0 {
      ChildrenOrdered(node, k - 1, depth, prefix);
      ChildPathsExtend(node, k - 1, depth, prefix);
      WalkOrdered(node.children[k - 1], depth + 1, prefix + [k - 1], Some(node.op));
      PathsExtend(node.children[k - 1], depth + 1, prefix + [k - 1], Some(node.op));
      var left, right := ChildErrors(node, k - 1, depth, prefix), WalkErrors(node.children[k - 1], depth + 1, prefix + [k - 1], Some(node.op));
      forall a, b | a in left && b in right ensures Before(a, b) {
        LeftBefore(a, b, prefix, k - 1);
      }
      Concatenated(left, right);
    }
  }

  /** The errors of the nodes come in the order in which the tree is read, each once. */
  lemma ErrorsOrdered(root: Node, i: nat, j: nat)
    requires i < j < |ValidationErrors(root)| && !ValidationErrors(root)[j].problem.TooManyNodes?
    ensures Before(ValidationErrors(root)[i], ValidationErrors(root)[j])
  {
    hide WalkErrors, Before;
    WalkOrdered(root, 1, [], None);
    var errors := WalkErrors(root, 1, [], None);
    assert errors[i] == ValidationErrors(root)[i] && errors[j] == ValidationErrors(root)[j];
  }
}
