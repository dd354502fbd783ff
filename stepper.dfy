/**
 * The stepper `simplifyLowestLevel`/`simplifyAtDepth` and `getMaxDepth`, as
 * functions on tree values, and what one call and repeated calls do.
 */
module Stepper {
  import opened Wrappers
  import opened Lexer
  import opened Numbers
  import opened Trees

  function Max(a: nat, b: nat): nat
  {
    if a >= b then a else b
  }

  /** `getMaxDepth`: 0 for null, 1 for a childless node, else one more than
      the deeper child. */
  function MaxDepth(t: Tree): nat
  {
    match t
    case Nil => 0
    case Node(_, l, r) => if l == Nil && r == Nil then 1 else 1 + Max(MaxDepth(l), MaxDepth(r))
  }

  /** The tree after a step, and what the step returned or threw. */
  datatype Stepped = Stepped(tree: Tree, outcome: Result<bool, Error>)

  predicate IsOperatorNode(t: Tree)
  {
    t.Node? && IsOperator(t.data)
  }

  /** An operator node none of whose present children is an operator node. */
  predicate Ready(t: Tree)
  {
    IsOperatorNode(t) && !IsOperatorNode(t.left) && !IsOperatorNode(t.right)
  }

  /** The part of `simplifyAtDepth` after both children reported no change:
      fold a ready node of depth 2 into a leaf holding its formatted value. */
  function Fold(t: Tree): Stepped
    requires t.Node?
  {
    var Node(d, l, r) := t;
    if !IsOperator(d) || !Ready(t) || MaxDepth(t) != 2 then Stepped(t, Ok(false))
    else if d == "_NEG_" then
      if r == Nil then Stepped(t, Ok(false))
      else
        match ParseOperand(r.data)
        case Err(e) => Stepped(t, Err(e))
        case Ok(v) => Stepped(Node(FormatNumber(-v), l, Nil), Ok(true))
    else if l != Nil && r != Nil then
      match ParseOperand(l.data)
      case Err(e) => Stepped(t, Err(e))
      case Ok(a) =>
        match ParseOperand(r.data)
        case Err(e) => Stepped(t, Err(e))
        case Ok(b) =>
          match CalcOp(d, a, b)
          case Err(e) => Stepped(t, Err(e))
          case Ok(v) => Stepped(Leaf(FormatNumber(v)), Ok(true))
    else Stepped(t, Ok(false))
  }

  /** `simplifyAtDepth`: simplify the left subtree, then the right one even
      if the left changed, and fold this node only when neither changed. An
      error stops the walk and keeps the folds made before it. */
  function SimplifyAt(t: Tree): Stepped
  {
    match t
    case Nil => Stepped(Nil, Ok(false))
    case Node(d, l, r) =>
      var sl := if l != Nil then SimplifyAt(l) else Stepped(l, Ok(false));
      if sl.outcome.Err? then Stepped(Node(d, sl.tree, r), sl.outcome)
      else
        var sr := if r != Nil then SimplifyAt(r) else Stepped(r, Ok(false));
        var t' := Node(d, sl.tree, sr.tree);
        if sr.outcome.Err? then Stepped(t', sr.outcome)
        else if sl.outcome.value || sr.outcome.value then Stepped(t', Ok(true))
        else Fold(t')
  }

  /** What `simplifyAtDepth` does to one child: nothing for an absent one. */
  function Child(c: Tree): Stepped
  {
    if c != Nil then SimplifyAt(c) else Stepped(c, Ok(false))
  }

  /** The four ways a call on a node ends: the left child throws, the right
      child throws, a child changed, or the node itself is tried. This only
      unfolds `SimplifyAt` one level, in terms of `Child`, for the proofs
      that walk the nodes; it is not a property of the pass. */
  lemma SimplifyAtCases(d: string, l: Tree, r: Tree)
    ensures Child(l).outcome.Err? ==>
              SimplifyAt(Node(d, l, r)) == Stepped(Node(d, Child(l).tree, r), Child(l).outcome)
    ensures Child(l).outcome.Ok? && Child(r).outcome.Err? ==>
              SimplifyAt(Node(d, l, r)) == Stepped(Node(d, Child(l).tree, Child(r).tree), Child(r).outcome)
    ensures Child(l).outcome.Ok? && Child(r).outcome.Ok? && (Child(l).outcome.value || Child(r).outcome.value) ==>
              SimplifyAt(Node(d, l, r)) == Stepped(Node(d, Child(l).tree, Child(r).tree), Ok(true))
    ensures Child(l).outcome == Ok(false) && Child(r).outcome == Ok(false) ==>
              SimplifyAt(Node(d, l, r)) == Fold(Node(d, Child(l).tree, Child(r).tree))
  {
  }

  /** `simplifyLowestLevel`: nothing to do for an empty tree or a root that
      is not an operator. */
  function SimplifyLowestLevel(t: Tree): Stepped
  {
    if t == Nil || !IsOperator(t.data) then Stepped(t, Ok(false)) else SimplifyAt(t)
  }

  // ---- The reference: fold every ready node at once ----

  /** Every ready node evaluates without error. */
  predicate ReadyEvaluates(t: Tree)
  {
    match t
    case Nil => true
    case Node(_, l, r) => if Ready(t) then Eval(t).Ok? else ReadyEvaluates(l) && ReadyEvaluates(r)
  }

  /** Replace every ready node by a leaf holding its formatted value; all
      other nodes keep their text. */
  function FoldLevel(t: Tree): Tree
  {
    match t
    case Nil => Nil
    case Node(d, l, r) =>
      if Ready(t) then
        (match Eval(t)
         case Ok(v) => Leaf(FormatNumber(v))
         case Err(_) => t)
      else Node(d, FoldLevel(l), FoldLevel(r))
  }

  function OperatorCount(t: Tree): nat
  {
    match t
    case Nil => 0
    case Node(d, l, r) => OperatorCount(l) + OperatorCount(r) + (if IsOperator(d) then 1 else 0)
  }

  /** A folded leaf is never mistaken for an operator. */
  lemma FormatNotOperator(v: real)
    ensures !IsOperator(FormatNumber(v))
  {
    var s := FormatNumber(v);
    if |s| == 5 { assert s[2] == '.'; assert "_NEG_"[2] == 'E'; }
  }

  /** In a well-shaped tree the height-2 guard of the fold always holds. */
  lemma ReadyHasDepthTwo(t: Tree)
    requires WellShaped(t) && Ready(t)
    ensures MaxDepth(t) == 2
  {
  }

  lemma LeafStep(t: Tree)
    requires WellShaped(t) && t.Node? && !IsOperator(t.data)
    ensures SimplifyAt(t) == Stepped(t, Ok(false))
    ensures ReadyEvaluates(t) && FoldLevel(t) == t
  {
  }

  /** The facts about one child that the induction passes upwards. */
  predicate StepsLikeFold(t: Tree)
  {
    && (SimplifyAt(t).outcome.Ok? <==> ReadyEvaluates(t))
    && (ReadyEvaluates(t) ==> SimplifyAt(t) == Stepped(FoldLevel(t), Ok(IsOperatorNode(t))))
  }

  lemma ReadyStep(t: Tree)
    requires WellShaped(t) && Ready(t)
    ensures SimplifyAt(t) == Fold(t)
  {
    var Node(d, l, r) := t;
    if l != Nil { LeafStep(l); }
    if r != Nil { LeafStep(r); }
    assert t == Node(d, l, r);
  }

  lemma NegReady(t: Tree)
    requires WellShaped(t) && Ready(t) && t.data == "_NEG_"
    ensures StepsLikeFold(t)
  {
    ReadyStep(t);
    ReadyHasDepthTwo(t);
    assert Eval(t.right) == ParseOperand(t.right.data);
  }

  lemma BinaryReady(t: Tree)
    requires WellShaped(t) && Ready(t) && t.data != "_NEG_"
    ensures StepsLikeFold(t)
  {
    ReadyStep(t);
    ReadyHasDepthTwo(t);
    assert Eval(t.left) == ParseOperand(t.left.data);
    assert Eval(t.right) == ParseOperand(t.right.data);
  }

  lemma NegNotReady(t: Tree)
    requires WellShaped(t) && t.Node? && t.data == "_NEG_" && !Ready(t)
    requires StepsLikeFold(t.right)
    ensures StepsLikeFold(t)
  {
    var Node(d, l, r) := t;
    assert IsOperatorNode(r);
    var sr := SimplifyAt(r);
    assert SimplifyAt(t) == (if sr.outcome.Err? then Stepped(Node(d, Nil, sr.tree), sr.outcome)
                             else Stepped(Node(d, Nil, sr.tree), Ok(true)));
  }

  lemma BinaryNotReady(t: Tree)
    requires WellShaped(t) && IsOperatorNode(t) && t.data != "_NEG_" && !Ready(t)
    requires StepsLikeFold(t.left) && StepsLikeFold(t.right)
    ensures StepsLikeFold(t)
  {
    var Node(d, l, r) := t;
    var sl := SimplifyAt(l);
    if sl.outcome.Ok? {
      var sr := SimplifyAt(r);
      assert SimplifyAt(t) == (if sr.outcome.Err? then Stepped(Node(d, sl.tree, sr.tree), sr.outcome)
                               else Stepped(Node(d, sl.tree, sr.tree), Ok(true)));
    }
  }

  /**
   * One call of `simplifyAtDepth` on a well-shaped tree succeeds exactly
   * when every ready node evaluates, and then it has folded every ready node
   * and nothing else, and it reports a change exactly when the tree's root is
   * an operator.
   */
  lemma {:induction false} SimplifyAtFoldsLevel(t: Tree)
    requires WellShaped(t)
    ensures SimplifyAt(t).outcome.Ok? <==> ReadyEvaluates(t)
    ensures ReadyEvaluates(t) ==> SimplifyAt(t) == Stepped(FoldLevel(t), Ok(IsOperatorNode(t)))
  {
    match t
    case Nil =>
    case Node(d, l, r) =>
      if !IsOperator(d) {
        LeafStep(t);
      } else if Ready(t) {
        if d == "_NEG_" { NegReady(t); } else { BinaryReady(t); }
      } else if d == "_NEG_" {
        SimplifyAtFoldsLevel(r);
        NegNotReady(t);
      } else {
        SimplifyAtFoldsLevel(l);
        SimplifyAtFoldsLevel(r);
        BinaryNotReady(t);
      }
  }

  /** Folding a level keeps the tree well-shaped, lowers its depth by exactly
      one and removes at least one operator node. A tree without an operator
      root is left as it is. */
  lemma {:induction false} FoldLevelShrinks(t: Tree)
    requires WellShaped(t) && ReadyEvaluates(t)
    ensures WellShaped(FoldLevel(t))
    ensures IsOperatorNode(t) ==> MaxDepth(FoldLevel(t)) == MaxDepth(t) - 1
    ensures IsOperatorNode(t) ==> OperatorCount(FoldLevel(t)) < OperatorCount(t)
    ensures !IsOperatorNode(t) ==> FoldLevel(t) == t
    ensures t != Nil ==> (IsOperatorNode(t) <==> MaxDepth(t) > 1)
  {
    match t
    case Nil =>
    case Node(d, l, r) =>
      if Ready(t) {
        FormatNotOperator(Eval(t).value);
      } else if IsOperator(d) {
        FoldLevelShrinks(l);
        FoldLevelShrinks(r);
      }
  }

  // ---- The error path: a pass that throws keeps the folds it made ----

  /** `u` is `t` with some of its ready nodes folded as `FoldLevel` folds
      them and every other node kept with its text: what a pass leaves when
      it stops part way. */
  predicate PartFold(t: Tree, u: Tree)
  {
    match t
    case Nil => u == Nil
    case Node(d, l, r) =>
      if Ready(t) then u == t || u == FoldLevel(t)
      else u.Node? && u.data == d && PartFold(l, u.left) && PartFold(r, u.right)
  }

  lemma {:induction false} PartFoldRefl(t: Tree)
    ensures PartFold(t, t)
  {
    match t
    case Nil =>
    case Node(_, l, r) =>
      if !Ready(t) {
        PartFoldRefl(l);
        PartFoldRefl(r);
      }
  }

  /** A partial fold of a well-shaped tree is well-shaped. */
  lemma {:induction false} PartFoldShape(t: Tree, u: Tree)
    requires WellShaped(t) && PartFold(t, u)
    ensures WellShaped(u)
  {
    match t
    case Nil =>
    case Node(d, l, r) =>
      if Ready(t) {
        if u != t {
          FormatNotOperator(Eval(t).value);
        }
      } else {
        PartFoldShape(l, u.left);
        PartFoldShape(r, u.right);
      }
  }

  /** A pass on a well-shaped operator node never reports "no change": it
      either throws or folds something. */
  lemma OperatorNodeChanges(t: Tree)
    requires WellShaped(t) && IsOperatorNode(t)
    ensures SimplifyAt(t).outcome != Ok(false)
  {
    SimplifyAtFoldsLevel(t);
  }

  lemma {:induction false} PartFoldAt(t: Tree)
    requires WellShaped(t)
    ensures PartFold(t, SimplifyAt(t).tree)
  {
    match t
    case Nil =>
    case Node(d, l, r) =>
      if !IsOperator(d) {
        LeafStep(t);
        PartFoldRefl(t);
      } else if Ready(t) {
        ReadyStep(t);
        SimplifyAtFoldsLevel(t);
      } else {
        SimplifyAtCases(d, l, r);
        if l != Nil { PartFoldAt(l); }
        if r != Nil { PartFoldAt(r); }
        PartFoldRefl(r);
        if IsOperatorNode(l) { OperatorNodeChanges(l); } else { OperatorNodeChanges(r); }
      }
  }

  /**
   * Whatever a call of `simplifyAtDepth` on a well-shaped tree returns,
   * error included, the tree it leaves is well-shaped and a partial fold of
   * the old one: every node the walk did not fold keeps its text. Which
   * folds a throw leaves in place is `SimplifyAtThrows`.
   */
  lemma SimplifyAtPartFolds(t: Tree)
    requires WellShaped(t)
    ensures PartFold(t, SimplifyAt(t).tree)
    ensures WellShaped(SimplifyAt(t).tree)
  {
    PartFoldAt(t);
    PartFoldShape(t, SimplifyAt(t).tree);
  }

  /**
   * A call of `simplifyAtDepth` on a well-shaped tree throws exactly when
   * some ready node fails to evaluate (`SimplifyAtFoldsLevel`), and then:
   * at a ready node, the node is left as it was with the error of its own
   * evaluation; at any other node, a failing left subtree is walked and the
   * right one left untouched, and otherwise the left subtree is left fully
   * folded, as `FoldLevel` folds it, and the right subtree is walked. So a
   * throw keeps every fold made to its left.
   */
  lemma SimplifyAtThrows(t: Tree)
    requires WellShaped(t) && !ReadyEvaluates(t)
    ensures SimplifyAt(t).outcome.Err?
    ensures Ready(t) ==> SimplifyAt(t) == Stepped(t, Err(Eval(t).error))
    ensures !Ready(t) && !ReadyEvaluates(t.left) ==>
              SimplifyAt(t) == Stepped(Node(t.data, SimplifyAt(t.left).tree, t.right), SimplifyAt(t.left).outcome)
    ensures !Ready(t) && ReadyEvaluates(t.left) ==>
              SimplifyAt(t) == Stepped(Node(t.data, FoldLevel(t.left), SimplifyAt(t.right).tree), SimplifyAt(t.right).outcome)
  {
    SimplifyAtFoldsLevel(t);
    var Node(d, l, r) := t;
    if Ready(t) {
      ReadyStep(t);
      ReadyHasDepthTwo(t);
      if d == "_NEG_" {
        assert Eval(r) == ParseOperand(r.data);
      } else {
        assert Eval(l) == ParseOperand(l.data);
        assert Eval(r) == ParseOperand(r.data);
      }
    } else {
      SimplifyAtCases(d, l, r);
      SimplifyAtFoldsLevel(l);
      SimplifyAtFoldsLevel(r);
    }
  }

  /**
   * A successful call of `simplifyLowestLevel` on a well-shaped tree returns
   * true exactly when the tree has depth above 1; when it does, the new tree
   * is well-shaped, one level shallower and has fewer operators; when it
   * does not, nothing changed.
   */
  lemma StepLowersDepth(t: Tree)
    requires WellShaped(t) && SimplifyLowestLevel(t).outcome.Ok?
    ensures var s := SimplifyLowestLevel(t);
            && WellShaped(s.tree)
            && (s.outcome.value <==> MaxDepth(t) > 1)
            && (s.outcome.value ==> MaxDepth(s.tree) == MaxDepth(t) - 1 && OperatorCount(s.tree) < OperatorCount(t))
            && (!s.outcome.value ==> s.tree == t)
  {
    if t != Nil && IsOperator(t.data) {
      SimplifyAtFoldsLevel(t);
      FoldLevelShrinks(t);
    } else if t != Nil {
      assert ReadyEvaluates(t) by { LeafStep(t); }
      FoldLevelShrinks(t);
    }
  }

  /** `n` calls of `simplifyLowestLevel`, stopping at the first error. */
  function Steps(t: Tree, n: nat): Result<Tree, Error>
    decreases n
  {
    if n == 0 then Ok(t)
    else
      var s := SimplifyLowestLevel(t);
      if s.outcome.Err? then Err(s.outcome.error) else Steps(s.tree, n - 1)
  }

  /** Each successful call lowers the depth by one until the tree is a single
      leaf; from then on calls change nothing. So a tree of depth h is a
      single leaf after h - 1 successful calls. */
  lemma {:induction false} StepsConverge(t: Tree, n: nat, r: Tree)
    requires WellShaped(t) && t != Nil && Steps(t, n) == Ok(r)
    decreases n
    ensures WellShaped(r) && r != Nil
    ensures MaxDepth(r) == (if n < MaxDepth(t) then MaxDepth(t) - n else 1)
  {
    DepthPositive(t);
    if n == 0 {
      NoSteps(t, r);
    } else {
      var u := StepOnce(t, n, r);
      StepsConverge(u, n - 1, r);
      DepthAfterSteps(MaxDepth(t), MaxDepth(u), n, MaxDepth(r));
    }
  }

  /** Zero steps leave the tree as it is. */
  lemma NoSteps(t: Tree, r: Tree)
    requires Steps(t, 0) == Ok(r)
    ensures r == t
  {
  }

  /** A non-empty tree has depth at least one. */
  lemma DepthPositive(t: Tree)
    requires t != Nil
    ensures MaxDepth(t) >= 1
  {
  }

  /** A run of `n > 0` successful steps is one step, to a well-shaped tree
      `u` one level lower (or still a leaf), followed by `n - 1` steps. */
  lemma StepOnce(t: Tree, n: nat, r: Tree) returns (u: Tree)
    requires WellShaped(t) && t != Nil && n > 0 && Steps(t, n) == Ok(r)
    ensures Steps(u, n - 1) == Ok(r)
    ensures WellShaped(u) && u != Nil
    ensures MaxDepth(u) == (if MaxDepth(t) > 1 then MaxDepth(t) - 1 else 1)
  {
    StepDepth(t);
    u := SimplifyLowestLevel(t).tree;
  }

  /** The depth count of the convergence argument. */
  lemma DepthAfterSteps(h: nat, m: nat, n: nat, k: nat)
    requires h >= 1 && n > 0
    requires m == (if h > 1 then h - 1 else 1)
    requires k == (if n - 1 < m then m - (n - 1) else 1)
    ensures k == (if n < h then h - n else 1)
  {
  }

  /** `StepLowersDepth` in the form the convergence argument uses. */
  lemma StepDepth(t: Tree)
    requires WellShaped(t) && t != Nil && SimplifyLowestLevel(t).outcome.Ok?
    ensures var u := SimplifyLowestLevel(t).tree;
            && WellShaped(u) && u != Nil
            && MaxDepth(u) == (if MaxDepth(t) > 1 then MaxDepth(t) - 1 else 1)
  {
    StepLowersDepth(t);
  }

  /** Once the tree is a single leaf, every further call returns false and
      changes nothing. */
  lemma FullyReduced(t: Tree)
    requires WellShaped(t) && MaxDepth(t) == 1
    ensures SimplifyLowestLevel(t) == Stepped(t, Ok(false))
    ensures t.left == Nil && t.right == Nil && !IsOperator(t.data)
  {
  }
}
