/**
 * The expression tree as a value: the tree builder `buildTree` and the
 * evaluator `calculateRecursive`/`calculateOp`, each with an independent
 * reference (postorder, and a stack machine run directly on the postfix).
 */
module Trees {
  import opened Wrappers
  import opened Lexer
  import opened Numbers
  import opened Seqs

  /** A `BNode*`: null, or a node with its text and two child pointers. */
  datatype Tree = Nil | Node(data: string, left: Tree, right: Tree)

  function Leaf(text: string): Tree
  {
    Node(text, Nil, Nil)
  }

  /** Left subtree, right subtree, then the node itself; absent children
      contribute nothing. */
  function Postorder(t: Tree): seq<string>
  {
    match t
    case Nil => []
    case Node(d, l, r) => Postorder(l) + Postorder(r) + [d]
  }

  /** The shape the builder gives a tree: a `_NEG_` node has only a right
      child, a binary operator node has both, any other text is a leaf. */
  predicate WellShaped(t: Tree)
  {
    match t
    case Nil => true
    case Node(d, l, r) =>
      if d == "_NEG_" then l == Nil && r != Nil && WellShaped(r)
      else if IsOperator(d) then l != Nil && r != Nil && WellShaped(l) && WellShaped(r)
      else l == Nil && r == Nil
  }

  // ---- buildTree ----

  /** The builder's loop over `p` with node stack `st` (top last). */
  function BuildLoop(p: seq<string>, st: seq<Tree>): Result<seq<Tree>, Error>
    decreases |p|
  {
    if p == [] then Ok(st)
    else
      var part := p[0];
      if part == "_NEG_" then
        if st == [] then Err(MissingUnaryOperand)
        else BuildLoop(p[1..], st[..|st| - 1] + [Node(part, Nil, st[|st| - 1])])
      else if IsOperator(part) then
        if |st| < 2 then Err(MissingOperands(part))
        else BuildLoop(p[1..], st[..|st| - 2] + [Node(part, st[|st| - 2], st[|st| - 1])])
      else BuildLoop(p[1..], st + [Leaf(part)])
  }

  /** One iteration of the builder's loop, case by case. */
  lemma BuildLoopNext(p: seq<string>, st: seq<Tree>)
    requires p != []
    ensures p[0] == "_NEG_" ==>
              BuildLoop(p, st) == if st == [] then Err(MissingUnaryOperand)
                                  else BuildLoop(p[1..], st[..|st| - 1] + [Node(p[0], Nil, st[|st| - 1])])
    ensures p[0] != "_NEG_" && IsOperator(p[0]) ==>
              BuildLoop(p, st) == if |st| < 2 then Err(MissingOperands(p[0]))
                                  else BuildLoop(p[1..], st[..|st| - 2] + [Node(p[0], st[|st| - 2], st[|st| - 1])])
    ensures !IsOperator(p[0]) ==> BuildLoop(p, st) == BuildLoop(p[1..], st + [Leaf(p[0])])
  {
  }

  /** The tree `buildTree` leaves in `head` for the postfix buffer `p`:
      `Nil` for an empty buffer, otherwise the single node left on the stack. */
  function BuildTree(p: seq<string>): Result<Tree, Error>
  {
    if p == [] then Ok(Nil)
    else
      match BuildLoop(p, [])
      case Err(e) => Err(e)
      case Ok(st) => if |st| != 1 then Err(Malformed) else Ok(st[0])
  }

  /** The builder's loop fails only for a missing operand. */
  lemma {:induction false} BuildLoopErrors(p: seq<string>, st: seq<Tree>)
    ensures BuildLoop(p, st).Err? ==>
              BuildLoop(p, st).error == MissingUnaryOperand || BuildLoop(p, st).error.MissingOperands?
    decreases |p|
  {
    if p != [] {
      BuildLoopNext(p, st);
      var part := p[0];
      if part == "_NEG_" {
        if st != [] { BuildLoopErrors(p[1..], st[..|st| - 1] + [Node(part, Nil, st[|st| - 1])]); }
      } else if IsOperator(part) {
        if |st| >= 2 { BuildLoopErrors(p[1..], st[..|st| - 2] + [Node(part, st[|st| - 2], st[|st| - 1])]); }
      } else {
        BuildLoopErrors(p[1..], st + [Leaf(part)]);
      }
    }
  }

  /** `buildTree` throws one of three errors and never the parenthesis one. */
  lemma BuildTreeError(p: seq<string>)
    ensures BuildTree(p).Err? ==>
              || BuildTree(p).error == MissingUnaryOperand
              || BuildTree(p).error.MissingOperands?
              || BuildTree(p).error == Malformed
  {
    BuildLoopErrors(p, []);
  }

  /** The postorders of a stack of trees, bottom to top. */
  function Flatten(st: seq<Tree>): seq<string>
  {
    if st == [] then [] else Flatten(st[..|st| - 1]) + Postorder(st[|st| - 1])
  }

  ghost predicate AllBuilt(st: seq<Tree>)
  {
    forall i :: 0 <= i < |st| ==> st[i] != Nil && WellShaped(st[i])
  }

  lemma FlattenPush(st: seq<Tree>, t: Tree)
    ensures Flatten(st + [t]) == Flatten(st) + Postorder(t)
  {
    assert (st + [t])[..|st|] == st;
  }

  lemma BuildStepNeg(p: seq<string>, st: seq<Tree>)
    requires p != [] && p[0] == "_NEG_" && st != [] && AllBuilt(st)
    ensures var st' := st[..|st| - 1] + [Node(p[0], Nil, st[|st| - 1])];
            AllBuilt(st') && Flatten(st') == Flatten(st) + [p[0]]
  {
    var rest := st[..|st| - 1];
    FlattenPush(rest, Node(p[0], Nil, st[|st| - 1]));
    assert st == rest + [st[|st| - 1]];
    FlattenPush(rest, st[|st| - 1]);
  }

  lemma BuildStepBinary(p: seq<string>, st: seq<Tree>)
    requires p != [] && IsOperator(p[0]) && p[0] != "_NEG_" && |st| >= 2 && AllBuilt(st)
    ensures var st' := st[..|st| - 2] + [Node(p[0], st[|st| - 2], st[|st| - 1])];
            AllBuilt(st') && Flatten(st') == Flatten(st) + [p[0]]
  {
    var rest := st[..|st| - 2];
    var l, r := st[|st| - 2], st[|st| - 1];
    FlattenPush(rest, Node(p[0], l, r));
    assert st == (rest + [l]) + [r];
    FlattenPush(rest + [l], r);
    FlattenPush(rest, l);
  }

  lemma BuildStepLeaf(p: seq<string>, st: seq<Tree>)
    requires p != [] && !IsOperator(p[0]) && AllBuilt(st)
    ensures AllBuilt(st + [Leaf(p[0])]) && Flatten(st + [Leaf(p[0])]) == Flatten(st) + [p[0]]
  {
    FlattenPush(st, Leaf(p[0]));
  }

  /** One step of the builder on a run that succeeds: the next stack is
      built and spells out one more token. */
  lemma BuildNext(p: seq<string>, st: seq<Tree>, out: seq<Tree>) returns (st': seq<Tree>)
    requires p != [] && AllBuilt(st) && BuildLoop(p, st) == Ok(out)
    ensures BuildLoop(p[1..], st') == Ok(out)
    ensures AllBuilt(st') && Flatten(st') == Flatten(st) + [p[0]]
  {
    BuildLoopNext(p, st);
    if p[0] == "_NEG_" {
      BuildStepNeg(p, st);
      st' := st[..|st| - 1] + [Node(p[0], Nil, st[|st| - 1])];
    } else if IsOperator(p[0]) {
      BuildStepBinary(p, st);
      st' := st[..|st| - 2] + [Node(p[0], st[|st| - 2], st[|st| - 1])];
    } else {
      BuildStepLeaf(p, st);
      st' := st + [Leaf(p[0])];
    }
  }

  /** Every stack the builder produces holds well-shaped trees whose
      postorders spell out what it has read. */
  lemma {:induction false} BuildLoopSound(p: seq<string>, st: seq<Tree>, out: seq<Tree>)
    requires AllBuilt(st) && BuildLoop(p, st) == Ok(out)
    ensures AllBuilt(out) && Flatten(out) == Flatten(st) + p
    decreases |p|
  {
    if p == [] {
      assert Flatten(st) + p == Flatten(st);
    } else {
      var st' := BuildNext(p, st, out);
      BuildLoopSound(p[1..], st', out);
      AppendHead(Flatten(st), p);
    }
  }

  /** The postorder of a `_NEG_` node followed by `rest`. */
  lemma PostorderNeg(r: Tree, rest: seq<string>)
    ensures Postorder(Node("_NEG_", Nil, r)) + rest == Postorder(r) + (["_NEG_"] + rest)
  {
  }

  /** The postorder of a binary node followed by `rest`. */
  lemma PostorderBinary(d: string, l: Tree, r: Tree, rest: seq<string>)
    ensures Postorder(Node(d, l, r)) + rest == Postorder(l) + (Postorder(r) + ([d] + rest))
  {
  }

  /** The builder's `_NEG_` step on a stack with `r` on top. */
  lemma BuildLoopNegStep(rest: seq<string>, st: seq<Tree>, r: Tree)
    ensures BuildLoop(["_NEG_"] + rest, st + [r]) == BuildLoop(rest, st + [Node("_NEG_", Nil, r)])
  {
    var q, w := ["_NEG_"] + rest, st + [r];
    assert q[0] == "_NEG_" && q[1..] == rest;
    assert w[..|w| - 1] == st && w[|w| - 1] == r;
  }

  /** The builder's step for a binary operator on a stack with `l`, `r` on top. */
  lemma BuildLoopBinaryStep(d: string, rest: seq<string>, st: seq<Tree>, l: Tree, r: Tree)
    requires IsOperator(d) && d != "_NEG_"
    ensures BuildLoop([d] + rest, st + [l] + [r]) == BuildLoop(rest, st + [Node(d, l, r)])
  {
    var q, w := [d] + rest, st + [l] + [r];
    assert q[0] == d && q[1..] == rest;
    assert w[..|w| - 2] == st && w[|w| - 2] == l && w[|w| - 1] == r;
  }

  /** A well-shaped tree's postorder makes the builder push exactly that tree. */
  lemma {:induction false} BuildLoopPostorder(t: Tree, rest: seq<string>, st: seq<Tree>)
    requires WellShaped(t) && t != Nil
    ensures BuildLoop(Postorder(t) + rest, st) == BuildLoop(rest, st + [t])
  {
    var Node(d, l, r) := t;
    if d == "_NEG_" {
      BuildLoopPostorder(r, [d] + rest, st);
      BuildLoopPostorderNeg(r, rest, st);
    } else if IsOperator(d) {
      BuildLoopPostorder(l, Postorder(r) + ([d] + rest), st);
      BuildLoopPostorder(r, [d] + rest, st + [l]);
      BuildLoopPostorderBinary(d, l, r, rest, st);
    } else {
      BuildLoopPostorderLeaf(d, rest, st);
    }
  }

  lemma BuildLoopPostorderNeg(r: Tree, rest: seq<string>, st: seq<Tree>)
    requires BuildLoop(Postorder(r) + (["_NEG_"] + rest), st) == BuildLoop(["_NEG_"] + rest, st + [r])
    ensures BuildLoop(Postorder(Node("_NEG_", Nil, r)) + rest, st) == BuildLoop(rest, st + [Node("_NEG_", Nil, r)])
  {
    PostorderNeg(r, rest);
    BuildLoopNegStep(rest, st, r);
  }

  lemma BuildLoopPostorderBinary(d: string, l: Tree, r: Tree, rest: seq<string>, st: seq<Tree>)
    requires IsOperator(d) && d != "_NEG_"
    requires BuildLoop(Postorder(l) + (Postorder(r) + ([d] + rest)), st) == BuildLoop(Postorder(r) + ([d] + rest), st + [l])
    requires BuildLoop(Postorder(r) + ([d] + rest), st + [l]) == BuildLoop([d] + rest, st + [l] + [r])
    ensures BuildLoop(Postorder(Node(d, l, r)) + rest, st) == BuildLoop(rest, st + [Node(d, l, r)])
  {
    PostorderBinary(d, l, r, rest);
    BuildLoopBinaryStep(d, rest, st, l, r);
  }

  lemma BuildLoopPostorderLeaf(d: string, rest: seq<string>, st: seq<Tree>)
    requires !IsOperator(d)
    ensures BuildLoop(Postorder(Leaf(d)) + rest, st) == BuildLoop(rest, st + [Leaf(d)])
  {
    assert Postorder(Leaf(d)) + rest == [d] + rest;
    assert ([d] + rest)[0] == d && ([d] + rest)[1..] == rest;
  }

  lemma BuiltIsPostorder(p: seq<string>, t: Tree)
    requires BuildTree(p) == Ok(t)
    ensures WellShaped(t) && Postorder(t) == p
  {
    if p != [] {
      var st := BuildLoop(p, []).value;
      BuildLoopSound(p, [], st);
      assert st == [] + [st[0]];
      FlattenPush([], st[0]);
      assert Flatten(st) == Postorder(t);
      assert Flatten([]) + p == p;
    }
  }

  lemma PostorderIsBuilt(p: seq<string>, t: Tree)
    requires WellShaped(t) && Postorder(t) == p
    ensures BuildTree(p) == Ok(t)
  {
    if t != Nil {
      assert p != [] by { assert p[|p| - 1] == t.data; }
      BuildLoopPostorder(t, [], []);
      assert p + [] == p;
      assert [] + [t] == [t];
      assert BuildLoop(p, []) == Ok([t]);
    }
  }

  /**
   * The builder inverts postorder: it succeeds on `p` with tree `t` exactly
   * when `t` is well-shaped and its postorder is `p`. So the postorder of a
   * built tree is the postfix buffer, and rebuilding from the same buffer
   * gives the same tree.
   */
  lemma BuildTreeIsPostorderInverse(p: seq<string>, t: Tree)
    ensures BuildTree(p) == Ok(t) <==> WellShaped(t) && Postorder(t) == p
  {
    if BuildTree(p) == Ok(t) {
      BuiltIsPostorder(p, t);
    }
    if WellShaped(t) && Postorder(t) == p {
      PostorderIsBuilt(p, t);
    }
  }

  // ---- calculateOp, calculateRecursive, calculate ----

  /** `calculateOp`: "Div by zero" exactly for "/" with a zero right operand;
      any text other than the four operators yields 0. */
  function CalcOp(op: string, a: real, b: real): (r: Result<real, Error>)
    ensures r.Err? <==> op == "/" && b == 0.0
    ensures r.Err? ==> r.error == DivByZero
  {
    if op == "+" then Ok(a + b)
    else if op == "-" then Ok(a - b)
    else if op == "*" then Ok(a * b)
    else if op == "/" then (if b == 0.0 then Err(DivByZero) else Ok(a / b))
    else Ok(0.0)
  }

  /** A leaf's value: `stod` of its text. */
  function ParseOperand(text: string): Result<real, Error>
  {
    match ParseNumber(text)
    case None => Err(InvalidOperand(text))
    case Some(v) => Ok(v)
  }

  /** `calculateRecursive`: a null child counts 0, a non-operator node is
      parsed, `_NEG_` negates its right child, and a binary node applies its
      operator to the left value and then the right value. */
  function Eval(t: Tree): Result<real, Error>
  {
    match t
    case Nil => Ok(0.0)
    case Node(d, l, r) =>
      if !IsOperator(d) then ParseOperand(d)
      else if d == "_NEG_" then
        (match Eval(r)
         case Err(e) => Err(e)
         case Ok(v) => Ok(-v))
      else
        match Eval(l)
        case Err(e) => Err(e)
        case Ok(a) =>
          match Eval(r)
          case Err(e) => Err(e)
          case Ok(b) => CalcOp(d, a, b)
  }

  /** `calculate`: "Tree not built." on an empty tree. */
  function Calculate(t: Tree): (r: Result<real, Error>)
    ensures t == Nil <==> r == Err(TreeNotBuilt)
  {
    if t == Nil then Err(TreeNotBuilt) else EvalNotBuiltFree(t); Eval(t)
  }

  /** Evaluation never reports "Tree not built." */
  lemma {:induction false} EvalNotBuiltFree(t: Tree)
    ensures Eval(t) != Err(TreeNotBuilt)
  {
    match t
    case Nil =>
    case Node(d, l, r) => EvalNotBuiltFree(l); EvalNotBuiltFree(r);
  }

  // ---- A stack machine on the postfix buffer, the evaluator's reference ----

  function EvalLoop(p: seq<string>, vs: seq<real>): Result<seq<real>, Error>
    decreases |p|
  {
    if p == [] then Ok(vs)
    else
      var part := p[0];
      if part == "_NEG_" then
        if vs == [] then Err(MissingUnaryOperand)
        else EvalLoop(p[1..], vs[..|vs| - 1] + [-vs[|vs| - 1]])
      else if IsOperator(part) then
        if |vs| < 2 then Err(MissingOperands(part))
        else
          match CalcOp(part, vs[|vs| - 2], vs[|vs| - 1])
          case Err(e) => Err(e)
          case Ok(v) => EvalLoop(p[1..], vs[..|vs| - 2] + [v])
      else
        match ParseOperand(part)
        case Err(e) => Err(e)
        case Ok(v) => EvalLoop(p[1..], vs + [v])
  }

  /** Evaluates a postfix sequence directly, without building a tree. */
  function EvalPostfix(p: seq<string>): Result<real, Error>
  {
    if p == [] then Err(TreeNotBuilt)
    else
      match EvalLoop(p, [])
      case Err(e) => Err(e)
      case Ok(vs) => if |vs| != 1 then Err(Malformed) else Ok(vs[0])
  }

  /** The value stack after a tree's postorder has run: one more value, or the error. */
  function Pushed(e: Result<real, Error>, rest: seq<string>, vs: seq<real>): Result<seq<real>, Error>
  {
    match e
    case Err(err) => Err(err)
    case Ok(v) => EvalLoop(rest, vs + [v])
  }

  /** One `_NEG_` step of the stack machine. */
  lemma EvalLoopNegStep(rest: seq<string>, vs: seq<real>, v: real)
    ensures Pushed(Ok(v), ["_NEG_"] + rest, vs) == Pushed(Ok(-v), rest, vs)
  {
    var q, w := ["_NEG_"] + rest, vs + [v];
    assert q[0] == "_NEG_" && q[1..] == rest;
    assert w[..|w| - 1] == vs && w[|w| - 1] == v;
  }

  /** One binary-operator step of the stack machine. */
  lemma EvalLoopBinaryStep(d: string, rest: seq<string>, vs: seq<real>, a: real, b: real)
    requires IsOperator(d) && d != "_NEG_"
    ensures EvalLoop([d] + rest, vs + [a] + [b]) == Pushed(CalcOp(d, a, b), rest, vs)
  {
    var q, w := [d] + rest, vs + [a] + [b];
    assert q[0] == d && q[1..] == rest;
    assert w[..|w| - 2] == vs && w[|w| - 2] == a && w[|w| - 1] == b;
  }

  lemma EvalLoopNeg(r: Tree, rest: seq<string>, vs: seq<real>)
    requires EvalLoop(Postorder(r) + (["_NEG_"] + rest), vs) == Pushed(Eval(r), ["_NEG_"] + rest, vs)
    ensures EvalLoop(Postorder(Node("_NEG_", Nil, r)) + rest, vs) == Pushed(Eval(Node("_NEG_", Nil, r)), rest, vs)
  {
    PostorderNeg(r, rest);
    match Eval(r)
    case Err(e) =>
    case Ok(v) => EvalLoopNegOk(r, rest, vs, v);
  }

  lemma EvalLoopNegOk(r: Tree, rest: seq<string>, vs: seq<real>, v: real)
    requires Eval(r) == Ok(v)
    requires EvalLoop(Postorder(r) + (["_NEG_"] + rest), vs) == Pushed(Eval(r), ["_NEG_"] + rest, vs)
    ensures Eval(Node("_NEG_", Nil, r)) == Ok(-v)
    ensures EvalLoop(Postorder(r) + (["_NEG_"] + rest), vs) == Pushed(Ok(-v), rest, vs)
  {
    NegValue(r, v);
    EvalLoopNegStep(rest, vs, v);
  }

  lemma NegValue(r: Tree, v: real)
    requires Eval(r) == Ok(v)
    ensures Eval(Node("_NEG_", Nil, r)) == Ok(-v)
  {
  }

  lemma EvalLoopBinary(d: string, l: Tree, r: Tree, rest: seq<string>, vs: seq<real>)
    requires IsOperator(d) && d != "_NEG_"
    requires EvalLoop(Postorder(l) + (Postorder(r) + ([d] + rest)), vs) == Pushed(Eval(l), Postorder(r) + ([d] + rest), vs)
    requires Eval(l).Ok? ==>
               EvalLoop(Postorder(r) + ([d] + rest), vs + [Eval(l).value]) == Pushed(Eval(r), [d] + rest, vs + [Eval(l).value])
    ensures EvalLoop(Postorder(Node(d, l, r)) + rest, vs) == Pushed(Eval(Node(d, l, r)), rest, vs)
  {
    PostorderBinary(d, l, r, rest);
    if Eval(l).Ok? && Eval(r).Ok? {
      EvalLoopBinaryStep(d, rest, vs, Eval(l).value, Eval(r).value);
    }
  }

  /** Running a well-shaped tree's postorder on the value stack pushes the
      tree's value, or stops with the evaluator's error. */
  lemma {:induction false} EvalLoopPostorder(t: Tree, rest: seq<string>, vs: seq<real>)
    requires WellShaped(t) && t != Nil
    ensures EvalLoop(Postorder(t) + rest, vs) == Pushed(Eval(t), rest, vs)
  {
    var Node(d, l, r) := t;
    if d == "_NEG_" {
      EvalLoopPostorder(r, [d] + rest, vs);
      EvalLoopNeg(r, rest, vs);
    } else if IsOperator(d) {
      EvalLoopPostorder(l, Postorder(r) + ([d] + rest), vs);
      if Eval(l).Ok? {
        EvalLoopPostorder(r, [d] + rest, vs + [Eval(l).value]);
      }
      EvalLoopBinary(d, l, r, rest, vs);
    } else {
      assert Postorder(t) + rest == [d] + rest;
    }
  }

  /** Evaluating the built tree agrees with running the postfix buffer on a
      value stack, errors included. */
  lemma CalculateBuiltTree(p: seq<string>, t: Tree)
    requires BuildTree(p) == Ok(t)
    ensures Calculate(t) == EvalPostfix(p)
  {
    BuildTreeIsPostorderInverse(p, t);
    if p != [] {
      assert t != Nil;
      EvalLoopPostorder(t, [], []);
      assert p + [] == p;
      assert [] + [0.0] == [0.0];
    }
  }
}
