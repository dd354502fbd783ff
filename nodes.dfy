/**
 * `AST::BNode` and the engine's recursive walks over linked nodes:
 * `copyTree`, `getMaxDepth`, `calculateRecursive` and `simplifyAtDepth`.
 * Each node owns its subtree exclusively; `Model` is the subtree as a value.
 */
module Nodes {
  import opened Wrappers
  import opened Lexer
  import opened Numbers
  import opened Trees
  import opened Stepper

  class BNode {
    var data: string
    var left: BNode?
    var right: BNode?
    ghost var Repr: set<BNode>
    ghost var Model: Tree

    /** The node's footprint is itself and its children's footprints, which
        are disjoint, and `Model` is the subtree rooted here. */
    ghost predicate Valid()
      reads this, Repr
      decreases Repr
    {
      && this in Repr
      && (left != null ==> left in Repr && left.Repr <= Repr && this !in left.Repr && left.Valid())
      && (right != null ==> right in Repr && right.Repr <= Repr && this !in right.Repr && right.Valid())
      && (left != null && right != null ==> left.Repr !! right.Repr)
      && Repr == {this} + ReprOf(left) + ReprOf(right)
      && Model == Node(data, ModelOf(left), ModelOf(right))
    }

    /** `BNode(val, l, r)`: a node over two existing, unshared subtrees. */
    constructor (val: string, l: BNode?, r: BNode?)
      requires l != null ==> l.Valid()
      requires r != null ==> r.Valid()
      requires l != null && r != null ==> l.Repr !! r.Repr
      ensures Valid()
      ensures data == val && left == l && right == r
      ensures Model == Node(val, ModelOf(l), ModelOf(r))
      ensures Repr == {this} + ReprOf(l) + ReprOf(r)
    {
      data := val;
      left := l;
      right := r;
      Repr := {this} + ReprOf(l) + ReprOf(r);
      Model := Node(val, ModelOf(l), ModelOf(r));
    }
  }

  /** The tree a possibly-null pointer denotes. */
  ghost function ModelOf(n: BNode?): Tree
    reads n
  {
    if n == null then Nil else n.Model
  }

  ghost function ReprOf(n: BNode?): set<BNode>
    reads n
  {
    if n == null then {} else n.Repr
  }

  ghost predicate ValidOrNull(n: BNode?)
    reads n, ReprOf(n)
  {
    n != null ==> n.Valid()
  }

  /** Each child is outside the other child's footprint, and the node is in
      neither. */
  lemma ChildrenApart(node: BNode)
    requires node.Valid()
    ensures node.left != null ==> node.left in node.left.Repr && node !in node.left.Repr
    ensures node.right != null ==> node.right in node.right.Repr && node !in node.right.Repr
    ensures node.left != null && node.right != null ==>
              node.right !in node.left.Repr && node.left !in node.right.Repr
  {
  }

  /** `copyTree`: a deep copy made of fresh nodes. */
  method CopyTree(node: BNode?) returns (c: BNode?)
    requires ValidOrNull(node)
    ensures ValidOrNull(c)
    ensures fresh(ReprOf(c))
    ensures ModelOf(c) == ModelOf(node)
    ensures c == null <==> node == null
    decreases ReprOf(node)
  {
    if node == null {
      return null;
    }
    var l := CopyTree(node.left);
    ghost var lr := ReprOf(l);
    assert fresh(lr);
    var r := CopyTree(node.right);
    ghost var rr := ReprOf(r);
    assert fresh(rr);
    c := new BNode(node.data, l, r);
    assert c.Repr == {c} + lr + rr;
  }

  /** `getMaxDepth` over the nodes: the depth of the modelled tree. */
  function GetMaxDepth(node: BNode?): (d: nat)
    requires ValidOrNull(node)
    reads node, ReprOf(node)
    ensures d == MaxDepth(ModelOf(node))
    ensures d == 0 <==> node == null
    decreases ReprOf(node)
  {
    if node == null then 0
    else if node.left == null && node.right == null then 1
    else 1 + Max(GetMaxDepth(node.left), GetMaxDepth(node.right))
  }

  /** `calculateRecursive` over the nodes: the value of the modelled tree. */
  function CalculateRecursive(node: BNode?): (r: Result<real, Error>)
    requires ValidOrNull(node)
    reads node, ReprOf(node)
    ensures r == Eval(ModelOf(node))
    decreases ReprOf(node)
  {
    if node == null then Ok(0.0)
    else
      NodeFacts(node);
      var d, left, right := node.data, node.left, node.right;
      if !IsOperator(d) then ParseOperand(d)
      else if d == "_NEG_" then
        match CalculateRecursive(right)
        case Err(e) => Err(e)
        case Ok(v) => Ok(-v)
      else
        match CalculateRecursive(left)
        case Err(e) => Err(e)
        case Ok(a) =>
          match CalculateRecursive(right)
          case Err(e) => Err(e)
          case Ok(b) => CalcOp(d, a, b)
  }

  /** What a valid node says about its children: valid, strictly smaller
      footprints, and the node's model built from theirs. */
  lemma NodeFacts(node: BNode)
    requires node.Valid()
    ensures ValidOrNull(node.left) && ValidOrNull(node.right)
    ensures ReprOf(node.left) < node.Repr && ReprOf(node.right) < node.Repr
    ensures node.Model == Node(node.data, ModelOf(node.left), ModelOf(node.right))
  {
  }

  /**
   * `simplifyAtDepth` over the nodes, in place: the subtree afterwards is the
   * tree `SimplifyAt` computes from the subtree before, and the result or
   * the error is its outcome. The depth arguments are carried but unused,
   * as in the engine. No node outside the subtree is touched.
   */
  method SimplifyAtDepth(node: BNode?, currentDepth: int, targetDepth: int) returns (r: Result<bool, Error>)
    requires ValidOrNull(node)
    modifies ReprOf(node)
    ensures ValidOrNull(node) && ReprOf(node) <= old(ReprOf(node))
    ensures Stepped(ModelOf(node), r) == SimplifyAt(old(ModelOf(node)))
    decreases ReprOf(node), 1
  {
    if node == null {
      return Ok(false);
    }
    ghost var d, L, R := node.data, ModelOf(node.left), ModelOf(node.right);
    SimplifyAtCases(d, L, R);
    var changed := false;
    if node.left != null {
      var c := SimplifyChild(node, true, currentDepth + 1, targetDepth);
      if c.Err? {
        return c;
      }
      if c.value {
        changed := true;
      }
    }
    assert ModelOf(node.left) == Child(L).tree && Child(L).outcome == Ok(changed);
    assert ModelOf(node.right) == R;
    ghost var changedLeft := changed;
    if node.right != null {
      var c := SimplifyChild(node, false, currentDepth + 1, targetDepth);
      if c.Err? {
        return c;
      }
      if c.value {
        changed := true;
      }
    }
    assert ModelOf(node.right) == Child(R).tree && Child(R).outcome.Ok?;
    assert changed <==> changedLeft || Child(R).outcome.value;
    if changed {
      return Ok(true);
    }
    r := FoldNode(node);
  }

  /** The recursive call on one child (the left one when `onLeft`), with the
      node's footprint and model brought up to date; the other child and the
      node's own fields are left alone. */
  method SimplifyChild(node: BNode, onLeft: bool, currentDepth: int, targetDepth: int) returns (c: Result<bool, Error>)
    requires node.Valid() && (if onLeft then node.left else node.right) != null
    modifies node.Repr
    ensures node.Valid() && node.Repr <= old(node.Repr)
    ensures node.data == old(node.data) && node.left == old(node.left) && node.right == old(node.right)
    ensures var child := if onLeft then node.left else node.right;
            var other := if onLeft then node.right else node.left;
            && Stepped(ModelOf(child), c) == SimplifyAt(old(ModelOf(child)))
            && ModelOf(other) == old(ModelOf(other))
    ensures node.Model == Node(node.data, ModelOf(node.left), ModelOf(node.right))
    decreases node.Repr, 0
  {
    ChildrenApart(node);
    var child := if onLeft then node.left else node.right;
    c := SimplifyAtDepth(child, currentDepth, targetDepth);
    Reattach(node);
  }

  /** The node's footprint and model brought up to date with its children,
      which are valid and apart. */
  method Reattach(node: BNode)
    requires ValidOrNull(node.left) && ValidOrNull(node.right)
    requires node !in ReprOf(node.left) && node !in ReprOf(node.right)
    requires ReprOf(node.left) !! ReprOf(node.right)
    modifies node
    ensures node.Valid() && node.Repr == {node} + ReprOf(node.left) + ReprOf(node.right)
    ensures node.data == old(node.data) && node.left == old(node.left) && node.right == old(node.right)
    ensures node.Model == Node(node.data, ModelOf(node.left), ModelOf(node.right))
  {
    node.Repr := {node} + ReprOf(node.left) + ReprOf(node.right);
    node.Model := Node(node.data, ModelOf(node.left), ModelOf(node.right));
  }

  /** The tail of `simplifyAtDepth` once neither child changed: fold a ready
      node of depth 2 into a number leaf. */
  method FoldNode(node: BNode) returns (r: Result<bool, Error>)
    requires node.Valid()
    modifies node
    ensures node.Valid() && node.Repr <= old(node.Repr)
    ensures Stepped(node.Model, r) == Fold(old(node.Model))
  {
    ghost var t := node.Model;
    if !IsOperator(node.data) {
      return Ok(false);
    }
    var leftReady := node.left == null || !IsOperator(node.left.data);
    var rightReady := node.right == null || !IsOperator(node.right.data);
    assert leftReady && rightReady <==> Ready(t);
    if leftReady && rightReady {
      var myDepthFromBottom := GetMaxDepth(node);
      if myDepthFromBottom == 2 {
        if node.data == "_NEG_" {
          if node.right != null {
            r := FoldNegation(node);
            return;
          }
        } else {
          if node.left != null && node.right != null {
            r := FoldBinary(node);
            return;
          }
        }
      }
    }
    return Ok(false);
  }

  /** The `_NEG_` fold: the node takes the negated value of its right child,
      which is dropped. */
  method FoldNegation(node: BNode) returns (r: Result<bool, Error>)
    requires node.Valid() && node.right != null
    requires node.data == "_NEG_" && Ready(node.Model) && MaxDepth(node.Model) == 2
    modifies node
    ensures node.Valid() && node.Repr <= old(node.Repr)
    ensures Stepped(node.Model, r) == Fold(old(node.Model))
  {
    var v := ParseOperand(node.right.data);
    FoldNegationCases(node.Model, node.right.data, v);
    if v.Err? {
      return Err(v.error);
    }
    DropRight(node, FormatNumber(-v.value));
    return Ok(true);
  }

  /** The binary fold: the node takes `calculateOp` of its two children's
      values, and both children are dropped. */
  method FoldBinary(node: BNode) returns (r: Result<bool, Error>)
    requires node.Valid() && node.left != null && node.right != null
    requires IsOperator(node.data) && node.data != "_NEG_" && Ready(node.Model) && MaxDepth(node.Model) == 2
    modifies node
    ensures node.Valid() && node.Repr <= old(node.Repr)
    ensures Stepped(node.Model, r) == Fold(old(node.Model))
  {
    ghost var t := node.Model;
    var l := ParseOperand(node.left.data);
    assert l == ParseOperand(t.left.data);
    if l.Err? {
      FoldBinaryLeftError(t, l.error);
      return Err(l.error);
    }
    var rv := ParseOperand(node.right.data);
    assert rv == ParseOperand(t.right.data);
    if rv.Err? {
      FoldBinaryRightError(t, l.value, rv.error);
      return Err(rv.error);
    }
    var res := CalcOp(node.data, l.value, rv.value);
    if res.Err? {
      FoldBinaryCalcError(t, l.value, rv.value, res.error);
      return Err(res.error);
    }
    FoldBinaryValue(t, l.value, rv.value, res.value);
    DropChildren(node, FormatNumber(res.value));
    return Ok(true);
  }

  /** The node takes the text `val` and loses its right child. */
  method DropRight(node: BNode, val: string)
    requires node.Valid()
    modifies node
    ensures node.Valid() && node.Repr <= old(node.Repr)
    ensures node.data == val && node.right == null && node.left == old(node.left)
    ensures node.Model == Node(val, old(node.Model).left, Nil)
  {
    node.data := val;
    node.right := null;
    node.Repr := {node} + ReprOf(node.left);
    node.Model := Node(node.data, ModelOf(node.left), Nil);
  }

  /** The node takes the text `val` and loses both children. */
  method DropChildren(node: BNode, val: string)
    requires node.Valid()
    modifies node
    ensures node.Valid() && node.Repr <= old(node.Repr)
    ensures node.data == val && node.left == null && node.right == null
    ensures node.Model == Leaf(val)
  {
    node.data := val;
    node.left := null;
    node.right := null;
    node.Repr := {node};
    node.Model := Leaf(node.data);
  }

  lemma FoldNegationCases(t: Tree, text: string, v: Result<real, Error>)
    requires t.Node? && t.data == "_NEG_" && t.right != Nil && Ready(t) && MaxDepth(t) == 2
    requires text == t.right.data && v == ParseOperand(text)
    ensures v.Err? ==> Fold(t) == Stepped(t, Err(v.error))
    ensures v.Ok? ==> Fold(t) == Stepped(Node(FormatNumber(-v.value), t.left, Nil), Ok(true))
  {
  }

  lemma FoldBinaryLeftError(t: Tree, e: Error)
    requires t.Node? && IsOperator(t.data) && t.data != "_NEG_" && Ready(t) && MaxDepth(t) == 2
    requires t.left != Nil && t.right != Nil && ParseOperand(t.left.data) == Err(e)
    ensures Fold(t) == Stepped(t, Err(e))
  {
  }

  lemma FoldBinaryRightError(t: Tree, a: real, e: Error)
    requires t.Node? && IsOperator(t.data) && t.data != "_NEG_" && Ready(t) && MaxDepth(t) == 2
    requires t.left != Nil && t.right != Nil && ParseOperand(t.left.data) == Ok(a)
    requires ParseOperand(t.right.data) == Err(e)
    ensures Fold(t) == Stepped(t, Err(e))
  {
  }

  lemma FoldBinaryCalcError(t: Tree, a: real, b: real, e: Error)
    requires t.Node? && IsOperator(t.data) && t.data != "_NEG_" && Ready(t) && MaxDepth(t) == 2
    requires t.left != Nil && t.right != Nil && ParseOperand(t.left.data) == Ok(a)
    requires ParseOperand(t.right.data) == Ok(b) && CalcOp(t.data, a, b) == Err(e)
    ensures Fold(t) == Stepped(t, Err(e))
  {
  }

  lemma FoldBinaryValue(t: Tree, a: real, b: real, v: real)
    requires t.Node? && IsOperator(t.data) && t.data != "_NEG_" && Ready(t) && MaxDepth(t) == 2
    requires t.left != Nil && t.right != Nil && ParseOperand(t.left.data) == Ok(a)
    requires ParseOperand(t.right.data) == Ok(b) && CalcOp(t.data, a, b) == Ok(v)
    ensures Fold(t) == Stepped(Leaf(FormatNumber(v)), Ok(true))
  {
  }
}
