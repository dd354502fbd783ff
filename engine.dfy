/**
 * The `AST` class: it parses an expression into a postfix buffer and a
 * linked tree, evaluates the tree, and folds it one level at a time. Each
 * method is proved against the value-level functions of the other modules.
 */
module Engine {
  import opened Wrappers
  import opened Lexer
  import opened ShuntingYard
  import opened Trees
  import opened Stepper
  import opened Nodes
  import opened Buffers

  /** What building an `AST` from `expression` leaves behind: the postfix
      buffer and the tree, or the first error thrown. */
  function Parse(expression: string): Result<(seq<string>, Tree), Error>
  {
    Assemble(ResolveUnary(Tokens(expression)))
  }

  /** The same for tokens already resolved: convert them to postfix, then
      build the tree from the postfix sequence. */
  function Assemble(tokens: seq<string>): Result<(seq<string>, Tree), Error>
  {
    match ShuntingYard.InfixToPostfix(tokens)
    case Err(e) => Err(e)
    case Ok(p) =>
      match BuildTree(p)
      case Err(e) => Err(e)
      case Ok(t) => Ok((p, t))
  }

  lemma ParsePostfixFails(expression: string, e: Error)
    requires ShuntingYard.InfixToPostfix(ResolveUnary(Tokens(expression))) == Err(e)
    ensures Parse(expression) == Err(e)
  {
  }

  lemma ParseBuildFails(expression: string, p: seq<string>, e: Error)
    requires ShuntingYard.InfixToPostfix(ResolveUnary(Tokens(expression))) == Ok(p)
    requires BuildTree(p) == Err(e)
    ensures Parse(expression) == Err(e)
  {
  }

  lemma ParseSucceeds(expression: string, p: seq<string>, t: Tree)
    requires ShuntingYard.InfixToPostfix(ResolveUnary(Tokens(expression))) == Ok(p)
    requires BuildTree(p) == Ok(t)
    ensures Parse(expression) == Ok((p, t))
  {
  }

  /** Building an `AST` fails exactly on an unclosed "(" or a postfix
      sequence that is not one tree; when it succeeds, the buffer holds no
      parenthesis, keeps the operands in order, and is the postorder of the
      tree, whose value is that of the postfix sequence. */
  lemma ParseSpec(expression: string)
    ensures var tokens := ResolveUnary(Tokens(expression));
            Depth(tokens) > 0 <==> Parse(expression) == Err(UnmatchedLeftParen)
    ensures var tokens := ResolveUnary(Tokens(expression));
            Parse(expression).Ok? ==>
              var (p, t) := Parse(expression).value;
              && NoParens(p)
              && Operands(p) == Operands(tokens)
              && WellShaped(t) && Postorder(t) == p
              && (t == Nil <==> p == [])
              && Trees.Calculate(t) == EvalPostfix(p)
  {
    var tokens := ResolveUnary(Tokens(expression));
    InfixToPostfixSpec(tokens);
    match ShuntingYard.InfixToPostfix(tokens)
    case Err(_) =>
    case Ok(p) =>
      match BuildTree(p)
      case Err(e) =>
        if e == UnmatchedLeftParen {
          BuildTreeError(p);
        }
      case Ok(t) =>
        BuildTreeIsPostorderInverse(p, t);
        CalculateBuiltTree(p, t);
  }

  class AST {
    var head: BNode?
    const postfixContainer: StringArray
    ghost var Repr: set<object>

    ghost predicate Valid()
      reads this, Repr
    {
      && this in Repr && postfixContainer in Repr
      && postfixContainer.Valid()
      && (head != null ==> head in Repr && head.Repr <= Repr && head.Valid())
      && Repr == {this, postfixContainer} + ReprOf(head)
    }

    /** The tree `head` points to, as a value. */
    ghost function TreeModel(): Tree
      reads this, Repr
      requires Valid()
    {
      ModelOf(head)
    }

    /** The contents of `postfixContainer`. */
    ghost function PostfixModel(): seq<string>
      reads this, postfixContainer, postfixContainer.data
    {
      postfixContainer.Contents()
    }

    /** An engine with no tree and an empty postfix buffer: the state the
        constructor starts from. */
    constructor Empty()
      ensures Valid() && fresh(Repr) && fresh(postfixContainer.data)
      ensures TreeModel() == Nil && PostfixModel() == []
    {
      head := null;
      postfixContainer := new StringArray();
      Repr := {this, postfixContainer};
    }

    /**
     * `AST(expression)`: tokenize, resolve unary minus, convert to postfix
     * and build the tree. It fails exactly when `Parse` does, with the same
     * error; otherwise the buffer and the tree are the ones `Parse` gives.
     */
    static method Create(expression: string) returns (r: Result<AST, Error>)
      ensures r.Ok? <==> Parse(expression).Ok?
      ensures r.Err? ==> r.error == Parse(expression).error
      ensures r.Ok? ==> && r.value.Valid() && fresh(r.value.Repr)
                        && r.value.PostfixModel() == Parse(expression).value.0
                        && r.value.TreeModel() == Parse(expression).value.1
    {
      var rawTokens := Tokenize(expression);
      var processedTokens := HandleUnaryOperators(rawTokens);
      r := FromTokens(processedTokens);
      if r.Ok? {
        label Built:
        rawTokens.Clear();
        processedTokens.Clear();
        r.value.StaysValid@Built();
      }
    }

    /** The constructor's work once the tokens are resolved: convert them to
        postfix and build the tree. It fails exactly when `Assemble` does,
        with the same error; otherwise the buffer and the tree are the ones
        `Assemble` gives. */
    static method FromTokens(tokens: StringArray) returns (r: Result<AST, Error>)
      requires tokens.Valid()
      ensures r.Ok? <==> Assemble(tokens.Contents()).Ok?
      ensures r.Err? ==> r.error == Assemble(tokens.Contents()).error
      ensures r.Ok? ==> && r.value.Valid() && fresh(r.value.Repr)
                        && r.value.PostfixModel() == Assemble(tokens.Contents()).value.0
                        && r.value.TreeModel() == Assemble(tokens.Contents()).value.1
    {
      var ast := new AST.Empty();
      var o := ast.InfixToPostfix(tokens);
      if o.Fail? {
        return Err(o.error);
      }
      var b := ast.BuildTree();
      if b.Fail? {
        return Err(b.error);
      }
      return Ok(ast);
    }

    /** Changing objects outside the engine's footprint leaves the engine,
        its buffer and its tree as they were. */
    twostate lemma StaysValid()
      requires old(Valid()) && unchanged(this, old(Repr), old(postfixContainer.data))
      ensures Valid() && Repr == old(Repr)
      ensures PostfixModel() == old(PostfixModel()) && TreeModel() == old(TreeModel())
    {
    }

    /** `tokenize`: the symbol tokens and maximal runs of `expression`, in order. */
    static method Tokenize(expression: string) returns (parts: StringArray)
      ensures fresh(parts) && parts.Valid()
      ensures parts.Contents() == Tokens(expression)
    {
      parts := new StringArray();
      var currentPart: string := [];
      var i := 0;
      assert expression[..0] == [];
      while i < |expression|
        invariant 0 <= i <= |expression|
        invariant fresh(parts) && parts.Valid()
        invariant TokenizerState(parts.Contents(), currentPart, expression[..i])
      {
        var c := expression[i];
        assert expression[..i + 1] == expression[..i] + [c];
        if IsSymbol(c) {
          TokenizeSymbol(parts.Contents(), currentPart, expression[..i], c);
          if currentPart != [] {
            parts.Add(currentPart);
            currentPart := [];
          }
          parts.Add([c]);
        } else {
          TokenizeRunChar(parts.Contents(), currentPart, expression[..i], c);
          currentPart := currentPart + [c];
        }
        i := i + 1;
      }
      if currentPart != [] {
        parts.Add(currentPart);
      }
      assert expression[..i] == expression;
      TokenizationUnique(parts.Contents(), expression);
    }

    /** `handleUnaryOperators`: a copy of `tokens` in which every `-` in
        unary position has become `_NEG_`. */
    static method HandleUnaryOperators(tokens: StringArray) returns (processed: StringArray)
      requires tokens.Valid()
      ensures fresh(processed) && processed.Valid()
      ensures processed.Contents() == ResolveUnary(tokens.Contents())
    {
      ghost var ts := tokens.Contents();
      ghost var rs := ResolveUnary(ts);
      processed := new StringArray();
      var i := 0;
      while i < tokens.size
        invariant 0 <= i <= tokens.size
        invariant fresh(processed) && fresh(processed.data) && processed.Valid()
        invariant processed.Contents() == ts[..i]
      {
        processed.Add(tokens.data[i]);
        assert ts[..i + 1] == ts[..i] + [ts[i]];
        i := i + 1;
      }
      assert ts[..i] == ts;
      if processed.size == 0 {
        return;
      }
      ResolveUnaryPointwise(ts);
      MarkNegations(processed.data, rs);
    }

    /** The second pass of `handleUnaryOperators`, in place: a `-` in cell 0,
        or after a cell that now holds an operator or `(`, becomes `_NEG_`.
        The cells end up as `rs` when `rs` resolves them position by
        position. */
    static method MarkNegations(a: array<string>, ghost rs: seq<string>)
      requires a.Length > 0 && |rs| == a.Length
      requires forall k :: 0 <= k < a.Length ==> ResolvedAt(a[..], rs, k)
      modifies a
      ensures a[..] == rs
    {
      ghost var ts := a[..];
      if a[0] == "-" {
        a[0] := "_NEG_";
      }
      assert ResolvedAt(ts, rs, 0);
      var i := 1;
      while i < a.Length
        invariant 1 <= i <= a.Length
        invariant forall k :: 0 <= k < i ==> a[k] == rs[k]
        invariant forall k :: i <= k < a.Length ==> a[k] == ts[k]
      {
        assert ResolvedAt(ts, rs, i);
        if a[i] == "-" {
          var prevPart := a[i - 1];
          if IsOperator(prevPart) || prevPart == "(" {
            a[i] := "_NEG_";
          }
        }
        i := i + 1;
      }
      assert a[..] == rs;
    }

    /**
     * `infixToPostfix`: refill `postfixContainer` by the shunting-yard loop.
     * It fails exactly when the conversion function does, with the same
     * error; otherwise the buffer holds the converted sequence. The tree is
     * not touched.
     */
    method InfixToPostfix(tokens: StringArray) returns (o: Outcome<Error>)
      requires Valid() && tokens.Valid() && tokens != postfixContainer
      modifies this, postfixContainer
      ensures Valid() && head == old(head) && Repr == old(Repr)
      ensures ShuntingYard.InfixToPostfix(old(tokens.Contents())).Ok? <==> o.Pass?
      ensures o.Fail? ==> o.error == ShuntingYard.InfixToPostfix(old(tokens.Contents())).error
      ensures o.Pass? ==> PostfixModel() == ShuntingYard.InfixToPostfix(old(tokens.Contents())).value
    {
      ghost var ts := tokens.Contents();
      var opStack: seq<string> := [];
      postfixContainer.Clear();
      var i := 0;
      while i < tokens.size
        invariant 0 <= i <= tokens.size == |ts| && tokens.Contents() == ts
        invariant postfixContainer.Valid() && head == old(head) && Repr == old(Repr)
        invariant ConsumeAll(State(PostfixModel(), opStack), ts[i..]) == ConsumeAll(State([], []), ts)
      {
        var part := tokens.data[i];
        ghost var before := State(PostfixModel(), opStack);
        assert ts[i..][0] == part && ts[i..][1..] == ts[i + 1..];
        if !IsOperator(part) && part != "(" && part != ")" {
          postfixContainer.Add(part);
        } else if part == "(" {
          opStack := opStack + [part];
        } else if part == ")" {
          while opStack != [] && Top(opStack) != "("
            invariant postfixContainer.Valid() && tokens.Contents() == ts
            invariant head == old(head) && Repr == old(Repr)
            invariant PopToParen(State(PostfixModel(), opStack)) == PopToParen(before)
            decreases |opStack|
          {
            postfixContainer.Add(Top(opStack));
            opStack := Pop(opStack);
          }
          if opStack != [] {
            opStack := Pop(opStack);
          }
        } else if IsOperator(part) {
          while opStack != [] && Top(opStack) != "(" && Precedence(Top(opStack)) >= Precedence(part)
            invariant postfixContainer.Valid() && tokens.Contents() == ts
            invariant head == old(head) && Repr == old(Repr)
            invariant PopWhileAtLeast(State(PostfixModel(), opStack), Precedence(part)) ==
                      PopWhileAtLeast(before, Precedence(part))
            decreases |opStack|
          {
            postfixContainer.Add(Top(opStack));
            opStack := Pop(opStack);
          }
          opStack := opStack + [part];
        }
        assert State(PostfixModel(), opStack) == Consume(before, part);
        i := i + 1;
      }
      ghost var consumed := State(PostfixModel(), opStack);
      assert consumed == ConsumeAll(State([], []), ts);
      while opStack != []
        invariant postfixContainer.Valid() && head == old(head) && Repr == old(Repr)
        invariant Drain(State(PostfixModel(), opStack)) == Drain(consumed)
        decreases |opStack|
      {
        if Top(opStack) == "(" {
          return Fail(UnmatchedLeftParen);
        }
        postfixContainer.Add(Top(opStack));
        opStack := Pop(opStack);
      }
      return Pass;
    }
 
    /**
     * `buildTree`: drop the old tree and rebuild it from the postfix buffer
     * with a stack of nodes. On success the tree is the one `BuildTree`
     * gives; on failure it fails with the same error and no tree is left.
     * The new nodes are all fresh.
     */
    method BuildTree() returns (o: Outcome<Error>)
      requires Valid()
      modifies this
      ensures Valid() && fresh(ReprOf(head))
      ensures Trees.BuildTree(PostfixModel()).Ok? <==> o.Pass?
      ensures o.Pass? ==> TreeModel() == Trees.BuildTree(PostfixModel()).value
      ensures o.Fail? ==> o.error == Trees.BuildTree(PostfixModel()).error && head == null
    {
      head := null;
      Repr := {this, postfixContainer};
      if postfixContainer.size == 0 {
        return Pass;
      }
      var h;
      o, h := BuildNodes(postfixContainer);
      if o.Pass? {
        head := h;
        Repr := {this, postfixContainer} + h.Repr;
      }
    }

    /** `calculate`: the value of the tree, or "Tree not built." when there
        is none. */
    method Calculate() returns (r: Result<real, Error>)
      requires Valid()
      ensures r == Trees.Calculate(TreeModel())
    {
      if head == null {
        return Err(TreeNotBuilt);
      }
      return CalculateRecursive(head);
    }

    /** `simplifyLowestLevel`: one folding pass over the tree in place. */
    method SimplifyLowestLevel() returns (r: Result<bool, Error>)
      requires Valid()
      modifies Repr
      ensures Valid() && Repr <= old(Repr)
      ensures Stepped(TreeModel(), r) == Stepper.SimplifyLowestLevel(old(TreeModel()))
      ensures PostfixModel() == old(PostfixModel())
    {
      if head == null || !IsOperator(head.data) {
        return Ok(false);
      }
      r := SimplifyAtDepth(head, 1, 0);
      Repr := {this, postfixContainer} + head.Repr;
    }

    /** The copy constructor: a deep copy of `other`'s tree; the postfix
        buffer starts empty, as it is not copied. */
    constructor Copy(other: AST)
      requires other.Valid()
      ensures Valid() && fresh(Repr)
      ensures TreeModel() == other.TreeModel() && PostfixModel() == []
    {
      postfixContainer := new StringArray();
      var h := CopyTree(other.head);
      head := h;
      Repr := {this, postfixContainer} + ReprOf(h);
    }

    /** `operator=`: unless `other` is this engine, replace the tree by a deep
        copy of `other`'s; the postfix buffer is kept. */
    method Assign(other: AST)
      requires Valid() && other.Valid()
      modifies this
      ensures Valid() && TreeModel() == old(other.TreeModel())
      ensures PostfixModel() == old(PostfixModel())
      ensures other == this ==> head == old(head)
      ensures other != this ==> fresh(ReprOf(head))
    {
      if this != other {
        var h := CopyTree(other.head);
        head := h;
        Repr := {this, postfixContainer} + ReprOf(h);
      }
    }

    /** `getRoot`: the node the tree hangs from. */
    function GetRoot(): (root: BNode?)
      reads this, Repr
      requires Valid()
      ensures ValidOrNull(root) && ModelOf(root) == TreeModel()
    {
      head
    }
  }

  /** A stack of valid nodes with pairwise disjoint footprints inside
      `built`, modelled by `models`. */
  ghost predicate NodeStack(ns: seq<BNode>, models: seq<Tree>, built: set<BNode>)
    reads set k | 0 <= k < |ns| :: ns[k]
    reads set k, o | 0 <= k < |ns| && o in ns[k].Repr :: o
  {
    && |ns| == |models|
    && (forall k :: 0 <= k < |ns| ==> ns[k].Valid() && ns[k].Model == models[k] && ns[k].Repr <= built)
    && (forall j, k :: 0 <= j < k < |ns| ==> ns[j].Repr !! ns[k].Repr)
  }

  /** `buildTree`'s loop over a non-empty postfix buffer: fail as the
      builder does, or hand back the one node left on the stack, made of
      fresh nodes and denoting the tree `BuildTree` gives. */
  method BuildNodes(buf: StringArray) returns (o: Outcome<Error>, h: BNode?)
    requires buf.Valid() && buf.size > 0
    ensures Trees.BuildTree(buf.Contents()).Ok? <==> o.Pass?
    ensures o.Fail? ==> o.error == Trees.BuildTree(buf.Contents()).error
    ensures o.Pass? ==> h != null && h.Valid() && fresh(h.Repr) && h.Model == Trees.BuildTree(buf.Contents()).value
  {
    ghost var p := buf.Contents();
    var nodeStack: seq<BNode> := [];
    ghost var models: seq<Tree> := [];
    ghost var built: set<BNode> := {};
    var i := 0;
    assert p[0..] == p;
    while i < buf.size
      invariant 0 <= i <= |p|
      invariant NodeStack(nodeStack, models, built) && fresh(built)
      invariant BuildLoop(p[i..], models) == BuildLoop(p, [])
    {
      var part := buf.data[i];
      assert p[i..][0] == part && p[i..][1..] == p[i + 1..];
      var step;
      step, nodeStack, models, built := BuildStep(nodeStack, models, built, part, p[i..]);
      if step.Fail? {
        return step, null;
      }
      i := i + 1;
    }
    assert p[i..] == [];
    if |nodeStack| != 1 {
      return Fail(Malformed), null;
    }
    return Pass, nodeStack[0];
  }

  /** One iteration of `buildTree`'s loop on `part`, the head of the
      postfix suffix `q` still to be read: fail as the builder does, or push
      the new node. Only fresh nodes join the footprint. */
  method BuildStep(ns: seq<BNode>, ghost models: seq<Tree>, ghost built: set<BNode>, part: string, ghost q: seq<string>)
    returns (o: Outcome<Error>, ns': seq<BNode>, ghost models': seq<Tree>, ghost built': set<BNode>)
    requires NodeStack(ns, models, built) && q != [] && q[0] == part
    ensures NodeStack(ns', models', built') && fresh(built' - built) && built <= built'
    ensures o.Fail? ==> BuildLoop(q, models) == Err(o.error)
    ensures o.Pass? ==> BuildLoop(q, models) == BuildLoop(q[1..], models')
  {
    BuildLoopNext(q, models);
    if part == "_NEG_" {
      if |ns| == 0 {
        return Fail(MissingUnaryOperand), ns, models, built;
      }
      ns', models' := PushNegation(ns, models, built);
      built' := built + {ns'[|ns'| - 1]};
    } else if IsOperator(part) {
      if |ns| < 2 {
        return Fail(MissingOperands(part)), ns, models, built;
      }
      ns', models' := PushBinary(ns, models, built, part);
      built' := built + {ns'[|ns'| - 1]};
    } else {
      ns', models' := PushLeaf(ns, models, built, part);
      built' := built + {ns'[|ns'| - 1]};
    }
    o := Pass;
  }

  /** Pushing a node built over popped tops keeps the stack's invariant. */
  lemma PushNode(ns: seq<BNode>, models: seq<Tree>, built: set<BNode>, n: BNode)
    requires NodeStack(ns, models, built) && n.Valid() && n.Repr <= built
    requires forall k :: 0 <= k < |ns| ==> n.Repr !! ns[k].Repr
    ensures NodeStack(ns + [n], models + [n.Model], built)
  {
  }

  /** `buildTree` on `_NEG_`: pop the top node and push a negation over it. */
  method PushNegation(ns: seq<BNode>, ghost models: seq<Tree>, ghost built: set<BNode>)
    returns (ns': seq<BNode>, ghost models': seq<Tree>)
    requires NodeStack(ns, models, built) && |ns| >= 1
    ensures |ns'| == |ns| && fresh(ns'[|ns| - 1])
    ensures NodeStack(ns', models', built + {ns'[|ns| - 1]})
    ensures models' == models[..|models| - 1] + [Node("_NEG_", Nil, models[|models| - 1])]
  {
    var right := ns[|ns| - 1];
    var rest := ns[..|ns| - 1];
    var n := new BNode("_NEG_", null, right);
    PushNode(rest, models[..|models| - 1], built + {n}, n);
    ns' := rest + [n];
    models' := models[..|models| - 1] + [n.Model];
  }

  /** `buildTree` on a binary operator: pop the right, then the left node,
      and push the operator node over them. */
  method PushBinary(ns: seq<BNode>, ghost models: seq<Tree>, ghost built: set<BNode>, part: string)
    returns (ns': seq<BNode>, ghost models': seq<Tree>)
    requires NodeStack(ns, models, built) && |ns| >= 2
    ensures |ns'| == |ns| - 1 && fresh(ns'[|ns| - 2])
    ensures NodeStack(ns', models', built + {ns'[|ns| - 2]})
    ensures models' == models[..|models| - 2] + [Node(part, models[|models| - 2], models[|models| - 1])]
  {
    var right := ns[|ns| - 1];
    var left := ns[|ns| - 2];
    var rest := ns[..|ns| - 2];
    var n := new BNode(part, left, right);
    PushNode(rest, models[..|models| - 2], built + {n}, n);
    ns' := rest + [n];
    models' := models[..|models| - 2] + [n.Model];
  }

  /** `buildTree` on an operand: push a fresh leaf. */
  method PushLeaf(ns: seq<BNode>, ghost models: seq<Tree>, ghost built: set<BNode>, part: string)
    returns (ns': seq<BNode>, ghost models': seq<Tree>)
    requires NodeStack(ns, models, built)
    ensures |ns'| == |ns| + 1 && fresh(ns'[|ns|])
    ensures NodeStack(ns', models', built + {ns'[|ns|]})
    ensures models' == models + [Leaf(part)]
  {
    var n := new BNode(part, null, null);
    PushNode(ns, models, built + {n}, n);
    ns' := ns + [n];
    models' := models + [n.Model];
  }
}
