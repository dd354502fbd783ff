/**
 * The shunting-yard conversion `infixToPostfix`, as a function of the
 * resolved token sequence, and what it guarantees about its output.
 * Stacks are sequences whose last element is the top.
 */
module ShuntingYard {
  import opened Wrappers
  import opened Lexer
  import opened Seqs

  /** A token that goes straight to the output: neither an operator nor a parenthesis. */
  predicate IsOperand(part: string)
  {
    !IsOperator(part) && part != "(" && part != ")"
  }

  function Top(st: seq<string>): string
    requires st != []
  {
    st[|st| - 1]
  }

  function Pop(st: seq<string>): seq<string>
    requires st != []
  {
    st[..|st| - 1]
  }

  /** The output emitted so far and the operator stack. */
  datatype State = State(out: seq<string>, stack: seq<string>)

  /** Moves the top of the stack to the output. */
  function Emit(s: State): State
    requires s.stack != []
  {
    State(s.out + [Top(s.stack)], Pop(s.stack))
  }

  /** The inner loop for ")": emit operators down to the nearest "(" (kept). */
  function PopToParen(s: State): State
    decreases |s.stack|
  {
    if s.stack == [] || Top(s.stack) == "(" then s else PopToParen(Emit(s))
  }

  /** The inner loop for an incoming operator of precedence `p`: emit the
      operators above the nearest "(" while their precedence is at least `p`. */
  function PopWhileAtLeast(s: State, p: nat): State
    decreases |s.stack|
  {
    if s.stack == [] || Top(s.stack) == "(" || Precedence(Top(s.stack)) < p then s
    else PopWhileAtLeast(Emit(s), p)
  }

  /** A ")": emit down to the nearest "(" and discard it, if there is one. */
  function CloseParen(s: State): State
  {
    var t := PopToParen(s);
    if t.stack == [] then t else State(t.out, Pop(t.stack))
  }

  /** One iteration of the main loop. */
  function Consume(s: State, part: string): State
  {
    if IsOperand(part) then State(s.out + [part], s.stack)
    else if part == "(" then State(s.out, s.stack + [part])
    else if part == ")" then CloseParen(s)
    else
      var t := PopWhileAtLeast(s, Precedence(part));
      State(t.out, t.stack + [part])
  }

  function ConsumeAll(s: State, parts: seq<string>): State
    decreases |parts|
  {
    if parts == [] then s else ConsumeAll(Consume(s, parts[0]), parts[1..])
  }

  lemma ConsumeAllCons(s: State, part: string, rest: seq<string>)
    ensures ConsumeAll(s, [part] + rest) == ConsumeAll(Consume(s, part), rest)
  {
    assert ([part] + rest)[1..] == rest;
  }

  lemma ConsumeAllNext(s: State, parts: seq<string>)
    requires parts != []
    ensures ConsumeAll(s, parts) == ConsumeAll(Consume(s, parts[0]), parts[1..])
  {
  }

  /** The final loop: emit what is left, failing on a "(" still stacked. */
  function Drain(s: State): Result<seq<string>, Error>
    decreases |s.stack|
  {
    if s.stack == [] then Ok(s.out)
    else if Top(s.stack) == "(" then Err(UnmatchedLeftParen)
    else Drain(Emit(s))
  }

  /** The postfix sequence `infixToPostfix` leaves in `postfixContainer`. */
  function InfixToPostfix(tokens: seq<string>): Result<seq<string>, Error>
  {
    Drain(ConsumeAll(State([], []), tokens))
  }

  // ---- Reference quantities, each computed from the back ----

  /** The operand tokens of `s`, in order. */
  function Operands(s: seq<string>): seq<string>
  {
    if s == [] then []
    else Operands(Pop(s)) + (if IsOperand(Top(s)) then [Top(s)] else [])
  }

  /** The operator tokens of `s`, in order. */
  function Operators(s: seq<string>): seq<string>
  {
    if s == [] then []
    else Operators(Pop(s)) + (if IsOperator(Top(s)) then [Top(s)] else [])
  }

  /** The number of "(" in `s`. */
  function Opens(s: seq<string>): nat
  {
    if s == [] then 0 else Opens(Pop(s)) + (if Top(s) == "(" then 1 else 0)
  }

  /** How many "(" are still open after `tokens`; a ")" with none open counts
      for nothing. */
  function Depth(tokens: seq<string>): nat
  {
    if tokens == [] then 0
    else
      var d := Depth(Pop(tokens));
      if Top(tokens) == "(" then d + 1
      else if Top(tokens) == ")" then (if d > 0 then d - 1 else 0)
      else d
  }

  predicate NoParens(s: seq<string>)
  {
    forall i :: 0 <= i < |s| ==> s[i] != "(" && s[i] != ")"
  }

  /** What the conversion keeps true after reading `seen`. */
  ghost predicate Inv(s: State, seen: seq<string>)
  {
    && NoParens(s.out)
    && (forall i :: 0 <= i < |s.stack| ==> s.stack[i] == "(" || IsOperator(s.stack[i]))
    && Operands(s.out) == Operands(seen)
    && multiset(Operators(s.out)) + multiset(Operators(s.stack)) == multiset(Operators(seen))
    && Opens(s.stack) == Depth(seen)
  }

  lemma Appended(s: seq<string>, x: string)
    ensures Pop(s + [x]) == s && Top(s + [x]) == x
  {
  }

  /** Emitting an operator keeps the invariant. */
  lemma EmitInv(s: State, seen: seq<string>)
    requires Inv(s, seen) && s.stack != [] && Top(s.stack) != "("
    ensures Inv(Emit(s), seen)
    ensures Opens(Emit(s).stack) == Opens(s.stack)
  {
    var x, rest := Top(s.stack), Pop(s.stack);
    StackCells(s.stack);
    assert IsOperator(x);
    PushCounts(s.out, x);
    PushCounts(rest, x);
    MoveOperators(Operators(s.out), Operators(rest), [x]);
    var o := s.out + [x];
    assert NoParens(o) by {
      forall i | 0 <= i < |o| ensures o[i] != "(" && o[i] != ")" {
        if i < |s.out| { assert o[i] == s.out[i]; }
      }
    }
  }

  /** Moving the last element of one sequence onto another keeps the
      multiset of both together. */
  lemma MoveOperators(out: seq<string>, rest: seq<string>, x: seq<string>)
    ensures multiset(out + x) + multiset(rest) == multiset(out) + multiset(rest + x)
  {
  }

  lemma {:induction false} PopToParenInv(s: State, seen: seq<string>)
    requires Inv(s, seen)
    ensures Inv(PopToParen(s), seen)
    ensures Opens(PopToParen(s).stack) == Opens(s.stack)
    ensures PopToParen(s).stack == [] || Top(PopToParen(s).stack) == "("
    decreases |s.stack|
  {
    if s.stack != [] && Top(s.stack) != "(" {
      EmitInv(s, seen);
      PopToParenInv(Emit(s), seen);
    }
  }

  lemma {:induction false} PopWhileAtLeastInv(s: State, seen: seq<string>, p: nat)
    requires Inv(s, seen)
    ensures Inv(PopWhileAtLeast(s, p), seen)
    ensures Opens(PopWhileAtLeast(s, p).stack) == Opens(s.stack)
    decreases |s.stack|
  {
    if s.stack != [] && Top(s.stack) != "(" && Precedence(Top(s.stack)) >= p {
      EmitInv(s, seen);
      PopWhileAtLeastInv(Emit(s), seen, p);
    }
  }

  lemma StackCells(st: seq<string>)
    requires st != []
    ensures st == Pop(st) + [Top(st)]
    ensures forall i :: 0 <= i < |Pop(st)| ==> Pop(st)[i] == st[i]
  {
  }

  lemma OperandInv(s: State, seen: seq<string>, part: string)
    requires Inv(s, seen) && IsOperand(part)
    ensures Inv(State(s.out + [part], s.stack), seen + [part])
  {
    Appended(seen, part);
    Appended(s.out, part);
    var o := s.out + [part];
    assert NoParens(o) by {
      forall i | 0 <= i < |o| ensures o[i] != "(" && o[i] != ")" {
        if i < |s.out| { assert o[i] == s.out[i]; }
      }
    }
  }

  lemma PushInv(s: State, seen: seq<string>, part: string)
    requires Inv(s, seen) && (part == "(" || IsOperator(part))
    requires Opens(s.stack) + (if part == "(" then 1 else 0) == Depth(seen + [part])
    ensures Inv(State(s.out, s.stack + [part]), seen + [part])
  {
    PushCounts(s.stack, part);
    PushCounts(seen, part);
    PushCells(s.stack, part);
    PushOperators(Operators(s.out), Operators(s.stack), Operators(seen), if IsOperator(part) then [part] else []);
  }

  /** Pushing "(" or an operator keeps every stack cell one of those. */
  lemma PushCells(st: seq<string>, part: string)
    requires forall i :: 0 <= i < |st| ==> st[i] == "(" || IsOperator(st[i])
    requires part == "(" || IsOperator(part)
    ensures forall i :: 0 <= i < |st + [part]| ==> (st + [part])[i] == "(" || IsOperator((st + [part])[i])
  {
    var st' := st + [part];
    forall i | 0 <= i < |st'| ensures st'[i] == "(" || IsOperator(st'[i]) {
      if i < |st| { assert st'[i] == st[i]; }
    }
  }

  lemma PushOperators(out: seq<string>, stack: seq<string>, seen: seq<string>, extra: seq<string>)
    requires multiset(out) + multiset(stack) == multiset(seen)
    ensures multiset(out) + multiset(stack + extra) == multiset(seen + extra)
  {
  }

  /** The counts of a sequence with a non-operand appended. */
  lemma PushCounts(s: seq<string>, part: string)
    requires part == "(" || IsOperator(part)
    ensures Operands(s + [part]) == Operands(s)
    ensures Operators(s + [part]) == Operators(s) + (if IsOperator(part) then [part] else [])
    ensures Opens(s + [part]) == Opens(s) + (if part == "(" then 1 else 0)
  {
    Appended(s, part);
  }

  /** Discarding the "(" that a ")" matches. */
  lemma DiscardParenInv(t: State, seen: seq<string>)
    requires Inv(t, seen) && t.stack != [] && Top(t.stack) == "("
    ensures Inv(State(t.out, Pop(t.stack)), seen + [")"])
  {
    StackCells(t.stack);
    PopParenCounts(t.stack);
    CloseCounts(seen);
  }

  /** The counts of a stack whose top "(" is popped. */
  lemma PopParenCounts(st: seq<string>)
    requires st != [] && Top(st) == "("
    ensures Opens(st) == Opens(Pop(st)) + 1
    ensures Operators(st) == Operators(Pop(st))
  {
  }

  /** The counts of a token sequence with a ")" appended. */
  lemma CloseCounts(seen: seq<string>)
    ensures Operands(seen + [")"]) == Operands(seen)
    ensures Operators(seen + [")"]) == Operators(seen)
    ensures Depth(seen + [")"]) == if Depth(seen) > 0 then Depth(seen) - 1 else 0
  {
    Appended(seen, ")");
  }

  lemma CloseInv(s: State, seen: seq<string>)
    requires Inv(s, seen)
    ensures Inv(CloseParen(s), seen + [")"])
  {
    PopToParenInv(s, seen);
    var t := PopToParen(s);
    if t.stack != [] {
      DiscardParenInv(t, seen);
    } else {
      CloseCounts(seen);
    }
  }

  /** One main-loop iteration keeps the invariant. */
  lemma ConsumeInv(s: State, seen: seq<string>, part: string)
    requires Inv(s, seen)
    ensures Inv(Consume(s, part), seen + [part])
  {
    Appended(seen, part);
    if IsOperand(part) {
      OperandInv(s, seen, part);
    } else if part == "(" {
      PushInv(s, seen, part);
    } else if part == ")" {
      CloseInv(s, seen);
    } else {
      PopWhileAtLeastInv(s, seen, Precedence(part));
      PushInv(PopWhileAtLeast(s, Precedence(part)), seen, part);
    }
  }

  lemma {:induction false} ConsumeAllInv(s: State, seen: seq<string>, rest: seq<string>)
    requires Inv(s, seen)
    ensures Inv(ConsumeAll(s, rest), seen + rest)
    decreases |rest|
  {
    if rest != [] {
      ConsumeAllNext(s, rest);
      ConsumeInv(s, seen, rest[0]);
      ConsumeAllInv(Consume(s, rest[0]), seen + [rest[0]], rest[1..]);
      AppendHead(seen, rest);
    } else {
      assert seen + rest == seen;
    }
  }

  /** The final loop fails exactly when a "(" is still stacked; otherwise
      the output holds every operand and operator that was read. */
  lemma {:induction false} DrainInv(s: State, seen: seq<string>)
    requires Inv(s, seen)
    ensures Drain(s).Err? <==> Opens(s.stack) > 0
    ensures Drain(s).Err? ==> Drain(s).error == UnmatchedLeftParen
    ensures Drain(s).Ok? ==> Inv(State(Drain(s).value, []), seen)
    decreases |s.stack|
  {
    if s.stack != [] {
      StackCells(s.stack);
      if Top(s.stack) != "(" {
        EmitInv(s, seen);
        DrainInv(Emit(s), seen);
      }
    }
  }

  /**
   * What `infixToPostfix` guarantees: it fails, with "Unmatched left
   * parenthesis", exactly when some "(" is never closed (a ")" with nothing
   * open is dropped); on success the output has no parentheses, keeps the
   * operands in their input order and holds every operator exactly once.
   */
  lemma InfixToPostfixSpec(tokens: seq<string>)
    ensures InfixToPostfix(tokens).Err? <==> Depth(tokens) > 0
    ensures InfixToPostfix(tokens).Err? ==> InfixToPostfix(tokens).error == UnmatchedLeftParen
    ensures InfixToPostfix(tokens).Ok? ==>
              var out := InfixToPostfix(tokens).value;
              && NoParens(out)
              && Operands(out) == Operands(tokens)
              && multiset(Operators(out)) == multiset(Operators(tokens))
  {
    assert Inv(State([], []), []);
    ConsumeAllInv(State([], []), [], tokens);
    assert [] + tokens == tokens;
    DrainInv(ConsumeAll(State([], []), tokens), tokens);
  }
}
