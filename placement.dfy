/**
 * Where `infixToPostfix` puts the operators. On an expression made of
 * operands and the four binary operators, with no parenthesis and no unary
 * minus, the postfix sequence is the postorder of the usual reading: every
 * operator groups to the left, and `*` and `/` bind more tightly than `+`
 * and `-`. The reading is defined on its own and characterised by its
 * in-order text and the precedence order of its nodes.
 */
module Placement {
  import opened Wrappers
  import opened Lexer
  import opened ShuntingYard
  import opened Trees

  predicate IsBinary(o: string)
  {
    o == "+" || o == "-" || o == "*" || o == "/"
  }

  predicate IsAdditive(o: string)
  {
    o == "+" || o == "-"
  }

  /** `x0 o1 x1 ... on xn`: the pairs are the operators with the operand
      after each. */
  function Flat(x0: string, ps: seq<(string, string)>): seq<string>
  {
    if ps == [] then [x0]
    else Flat(x0, ps[..|ps| - 1]) + [ps[|ps| - 1].0, ps[|ps| - 1].1]
  }

  /** Operands and binary operators only. */
  predicate Alternating(x0: string, ps: seq<(string, string)>)
  {
    IsOperand(x0) && forall i :: 0 <= i < |ps| ==> IsBinary(ps[i].0) && IsOperand(ps[i].1)
  }

  /** Reading `o x` after the expression read so far: a `+` or `-` takes the
      whole expression as its left operand; a `*` or `/` takes only the last
      term, which is the right operand of a `+` or `-` at the root. */
  function Extend(e: Tree, o: string, x: string): Tree
  {
    if !IsAdditive(o) && e.Node? && IsAdditive(e.data) then Node(e.data, e.left, Node(o, e.right, Leaf(x)))
    else Node(o, e, Leaf(x))
  }

  /** The usual reading of `Flat(x0, ps)`, left to right. */
  function Reading(x0: string, ps: seq<(string, string)>): Tree
  {
    if ps == [] then Leaf(x0)
    else Extend(Reading(x0, ps[..|ps| - 1]), ps[|ps| - 1].0, ps[|ps| - 1].1)
  }

  // ---- What makes the reading the usual one ----

  /** Left subtree, the node, then the right subtree. */
  function Inorder(t: Tree): seq<string>
  {
    match t
    case Nil => []
    case Node(d, l, r) => Inorder(l) + [d] + Inorder(r)
  }

  /** How tightly a subtree is bound: a leaf tightest, an operator node by
      its operator's precedence. */
  function Binding(t: Tree): nat
  {
    if t.Node? && IsBinary(t.data) then Precedence(t.data) else 3
  }

  /** Every binary node's left operand binds at least as tightly as the node
      (grouping to the left), and its right operand strictly more tightly. */
  predicate Ordered(t: Tree)
  {
    match t
    case Nil => true
    case Node(d, l, r) =>
      && Ordered(l) && Ordered(r)
      && (IsBinary(d) ==> Binding(l) >= Precedence(d) && Binding(r) > Precedence(d))
  }

  /** The reading spells out the expression in order, respects precedence
      and left grouping, and is a tree the builder accepts. */
  lemma {:induction false} ReadingIsUsual(x0: string, ps: seq<(string, string)>)
    requires Alternating(x0, ps)
    ensures Inorder(Reading(x0, ps)) == Flat(x0, ps)
    ensures Ordered(Reading(x0, ps))
    ensures WellShaped(Reading(x0, ps)) && Reading(x0, ps) != Nil
    decreases |ps|
  {
    if ps != [] {
      var pre := ps[..|ps| - 1];
      assert Alternating(x0, pre) by {
        forall i | 0 <= i < |pre| ensures IsBinary(pre[i].0) && IsOperand(pre[i].1) {
          assert pre[i] == ps[i];
        }
      }
      ReadingIsUsual(x0, pre);
      var (o, x) := ps[|ps| - 1];
      assert IsBinary(o) && IsOperand(x);
      ExtendIsUsual(Reading(x0, pre), o, x);
    }
  }

  lemma ExtendIsUsual(e: Tree, o: string, x: string)
    requires Ordered(e) && WellShaped(e) && e != Nil && IsBinary(o) && IsOperand(x)
    ensures Inorder(Extend(e, o, x)) == Inorder(e) + [o, x]
    ensures Ordered(Extend(e, o, x))
    ensures WellShaped(Extend(e, o, x))
  {
    if !IsAdditive(o) && IsAdditive(e.data) {
      var Node(p, l, r) := e;
      assert Inorder(Leaf(x)) == [x];
      assert Inorder(Node(o, r, Leaf(x))) == Inorder(r) + [o, x];
      assert Inorder(Extend(e, o, x)) == Inorder(l) + [p] + (Inorder(r) + [o, x]);
      assert Inorder(e) == Inorder(l) + [p] + Inorder(r);
    } else {
      assert Inorder(Leaf(x)) == [x];
    }
  }

  // ---- The shunting-yard state along the way ----

  /** The state after reading up to an operand, against the reading `e` so
      far. The stack is empty (the reading is one operand), one operator,
      or a `+`/`-` under a `*`/`/`: the operators on `e`'s right spine whose
      right operand may still grow. The output followed by them, top first,
      is `e`'s postorder. */
  predicate Tracks(s: State, e: Tree)
  {
    && e.Node? && |s.stack| <= 2
    && (|s.stack| == 0 ==> !IsAdditive(e.data) && s.out == Postorder(e))
    && (|s.stack| == 1 ==>
          IsBinary(s.stack[0]) && e.data == s.stack[0] && s.out + [s.stack[0]] == Postorder(e))
    && (|s.stack| == 2 ==>
          && IsAdditive(s.stack[0]) && IsBinary(s.stack[1]) && !IsAdditive(s.stack[1])
          && e.data == s.stack[0] && e.right.Node? && e.right.data == s.stack[1]
          && s.out + [s.stack[1], s.stack[0]] == Postorder(e))
  }

  /** Reading `o x` keeps the state in step with the reading. */
  lemma ConsumePair(s: State, e: Tree, o: string, x: string)
    requires Tracks(s, e) && IsBinary(o) && IsOperand(x)
    ensures Tracks(Consume(Consume(s, o), x), Extend(e, o, x))
  {
    var t := PopWhileAtLeast(s, Precedence(o));
    assert Consume(Consume(s, o), x) == State(t.out + [x], t.stack + [o]);
    if |s.stack| == 0 {
      PairOnEmpty(s, e, o, x);
    } else if |s.stack| == 1 {
      PopOne(s, o);
      if IsAdditive(o) || !IsAdditive(s.stack[0]) {
        PairPopsAll(s, e, o, x, s.out + [s.stack[0]]);
      } else {
        PairGrafts(s, e, o, x);
      }
    } else {
      PopTwo(s, o);
      if IsAdditive(o) {
        PairPopsAll(s, e, o, x, s.out + [s.stack[1], s.stack[0]]);
      } else {
        PairRegrafts(s, e, o, x);
      }
    }
  }

  lemma PairOnEmpty(s: State, e: Tree, o: string, x: string)
    requires Tracks(s, e) && |s.stack| == 0 && IsBinary(o) && IsOperand(x)
    ensures Tracks(State(s.out + [x], [o]), Extend(e, o, x))
  {
    assert Extend(e, o, x) == Node(o, e, Leaf(x));
    PostorderBinary(o, e, Leaf(x));
  }

  /** The incoming operator emptied the stack: it takes the whole reading
      so far as its left operand. */
  lemma PairPopsAll(s: State, e: Tree, o: string, x: string, out: seq<string>)
    requires Tracks(s, e) && IsBinary(o) && IsOperand(x)
    requires out == Postorder(e)
    requires IsAdditive(o) || !IsAdditive(e.data)
    ensures Tracks(State(out + [x], [o]), Extend(e, o, x))
  {
    assert Extend(e, o, x) == Node(o, e, Leaf(x));
    PostorderBinary(o, e, Leaf(x));
  }

  /** A `*` or `/` over a `+` or `-`: it binds the last operand. */
  lemma PairGrafts(s: State, e: Tree, o: string, x: string)
    requires Tracks(s, e) && |s.stack| == 1 && IsBinary(o) && IsOperand(x)
    requires !IsAdditive(o) && IsAdditive(s.stack[0])
    ensures Tracks(State(s.out + [x], s.stack + [o]), Extend(e, o, x))
  {
    PostorderGraft(e, o, x);
    CancelLast(s.out, Postorder(e.left) + Postorder(e.right), s.stack[0], e.data);
    assert s.stack + [o] == [s.stack[0], o];
  }

  /** A `*` or `/` after a `*` or `/` over a `+` or `-`: the product so far
      becomes its left operand. */
  lemma PairRegrafts(s: State, e: Tree, o: string, x: string)
    requires Tracks(s, e) && |s.stack| == 2 && IsBinary(o) && IsOperand(x) && !IsAdditive(o)
    ensures Tracks(State(s.out + [s.stack[1]] + [x], [s.stack[0]] + [o]), Extend(e, o, x))
  {
    PostorderGraft(e, o, x);
    CancelLast(s.out + [s.stack[1]], Postorder(e.left) + Postorder(e.right), s.stack[0], e.data);
  }

  /** With one operator stacked, an incoming operator pops it unless the
      stacked one is a `+` or `-` and the incoming one a `*` or `/`. */
  lemma PopOne(s: State, o: string)
    requires |s.stack| == 1 && IsBinary(s.stack[0]) && IsBinary(o)
    ensures IsAdditive(o) || !IsAdditive(s.stack[0]) ==>
              PopWhileAtLeast(s, Precedence(o)) == State(s.out + [s.stack[0]], [])
    ensures !IsAdditive(o) && IsAdditive(s.stack[0]) ==> PopWhileAtLeast(s, Precedence(o)) == s
  {
    assert Top(s.stack) == s.stack[0] && Pop(s.stack) == [];
  }

  /** With a `+`/`-` under a `*`/`/`, an incoming `+`/`-` pops both and an
      incoming `*`/`/` pops only the top. */
  lemma PopTwo(s: State, o: string)
    requires |s.stack| == 2 && IsAdditive(s.stack[0]) && IsBinary(s.stack[1]) && !IsAdditive(s.stack[1])
    requires IsBinary(o)
    ensures IsAdditive(o) ==>
              PopWhileAtLeast(s, Precedence(o)) == State(s.out + [s.stack[1], s.stack[0]], [])
    ensures !IsAdditive(o) ==>
              PopWhileAtLeast(s, Precedence(o)) == State(s.out + [s.stack[1]], [s.stack[0]])
  {
    var u := Emit(s);
    assert Top(s.stack) == s.stack[1] && Pop(s.stack) == [s.stack[0]];
    assert u == State(s.out + [s.stack[1]], [s.stack[0]]);
    assert Top(u.stack) == s.stack[0] && Pop(u.stack) == [];
    assert Emit(u) == State(s.out + [s.stack[1], s.stack[0]], []);
    if IsAdditive(o) {
      assert PopWhileAtLeast(s, Precedence(o)) == PopWhileAtLeast(u, Precedence(o));
      assert PopWhileAtLeast(u, Precedence(o)) == PopWhileAtLeast(Emit(u), Precedence(o));
    }
  }

  lemma CancelLast<T>(a: seq<T>, b: seq<T>, u: T, v: T)
    requires a + [u] == b + [v]
    ensures a == b && u == v
  {
    assert a == (a + [u])[..|a|];
    assert b == (b + [v])[..|b|];
  }

  lemma PostorderBinary(o: string, l: Tree, r: Tree)
    ensures Postorder(Node(o, l, r)) == Postorder(l) + Postorder(r) + [o]
  {
  }

  /** The postorder of a grafted `*`/`/`: the old postorder with `x o`
      inserted before the root. */
  lemma PostorderGraft(e: Tree, o: string, x: string)
    requires e.Node?
    ensures Postorder(Node(e.data, e.left, Node(o, e.right, Leaf(x))))
            == Postorder(e.left) + Postorder(e.right) + [x, o, e.data]
    ensures Postorder(e) == Postorder(e.left) + Postorder(e.right) + [e.data]
  {
    var Node(p, l, r) := e;
    var g := Node(o, r, Leaf(x));
    assert Postorder(Leaf(x)) == [x];
    assert Postorder(g) == Postorder(r) + [x] + [o];
    assert Postorder(Node(p, l, g)) == Postorder(l) + Postorder(g) + [p];
    assert Postorder(l) + (Postorder(r) + [x] + [o]) + [p] == Postorder(l) + Postorder(r) + [x, o, p];
  }

  /** The final loop emits the stack, top first. */
  lemma DrainTracked(s: State, e: Tree)
    requires Tracks(s, e)
    ensures Drain(s) == Ok(Postorder(e))
  {
    if |s.stack| == 1 {
      assert Top(s.stack) == s.stack[0] && Pop(s.stack) == [];
      assert Emit(s) == State(s.out + [s.stack[0]], []);
    } else if |s.stack| == 2 {
      var u := Emit(s);
      assert Top(s.stack) == s.stack[1] && Pop(s.stack) == [s.stack[0]];
      assert u == State(s.out + [s.stack[1]], [s.stack[0]]);
      assert Top(u.stack) == s.stack[0] && Pop(u.stack) == [];
      assert Emit(u) == State(s.out + [s.stack[1], s.stack[0]], []);
      assert Drain(s) == Drain(u) == Drain(Emit(u));
    }
  }

  lemma {:induction false} ConsumeAllAppend(s: State, a: seq<string>, b: seq<string>)
    ensures ConsumeAll(s, a + b) == ConsumeAll(ConsumeAll(s, a), b)
    decreases |a|
  {
    if a != [] {
      assert (a + b)[0] == a[0] && (a + b)[1..] == a[1..] + b;
      ConsumeAllAppend(Consume(s, a[0]), a[1..], b);
    } else {
      assert a + b == b;
    }
  }

  lemma {:induction false} ConsumeFlat(x0: string, ps: seq<(string, string)>)
    requires Alternating(x0, ps)
    ensures Tracks(ConsumeAll(State([], []), Flat(x0, ps)), Reading(x0, ps))
    decreases |ps|
  {
    if ps == [] {
      assert ConsumeAll(State([], []), [x0]) == ConsumeAll(State([x0], []), []);
    } else {
      var pre := ps[..|ps| - 1];
      var (o, x) := ps[|ps| - 1];
      assert Alternating(x0, pre) by {
        forall i | 0 <= i < |pre| ensures IsBinary(pre[i].0) && IsOperand(pre[i].1) {
          assert pre[i] == ps[i];
        }
      }
      assert IsBinary(o) && IsOperand(x);
      ConsumeFlat(x0, pre);
      var s := ConsumeAll(State([], []), Flat(x0, pre));
      ConsumeAllAppend(State([], []), Flat(x0, pre), [o, x]);
      assert ConsumeAll(s, [o, x]) == Consume(Consume(s, o), x) by {
        assert [o, x][0] == o && [o, x][1..] == [x];
        assert ConsumeAll(s, [o, x]) == ConsumeAll(Consume(s, o), [x]);
        assert [x][1..] == [];
        assert ConsumeAll(Consume(s, o), [x]) == ConsumeAll(Consume(Consume(s, o), x), []);
      }
      ConsumePair(s, Reading(x0, pre), o, x);
    }
  }

  /**
   * `infixToPostfix` of an expression of operands and binary operators puts
   * every operator where the usual reading puts it: the output is the
   * postorder of `Reading`, so operators of equal precedence are emitted
   * left to right and `*`, `/` before the `+`, `-` they bind under.
   */
  lemma InfixToPostfixPlacement(x0: string, ps: seq<(string, string)>)
    requires Alternating(x0, ps)
    ensures InfixToPostfix(Flat(x0, ps)) == Ok(Postorder(Reading(x0, ps)))
    ensures BuildTree(Postorder(Reading(x0, ps))) == Ok(Reading(x0, ps))
  {
    ConsumeFlat(x0, ps);
    DrainTracked(ConsumeAll(State([], []), Flat(x0, ps)), Reading(x0, ps));
    ReadingIsUsual(x0, ps);
    BuildTreeIsPostorderInverse(Postorder(Reading(x0, ps)), Reading(x0, ps));
  }
}
