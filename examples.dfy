/**
 * Worked examples of the model on small expressions, each proved: an expression whose
 * spaces become operands, a doubled unary minus, a chain of minus signs
 * without spaces, and the step-by-step simplification of a sum with a
 * product in it.
 */
module Examples {
  import opened Wrappers
  import opened Lexer
  import opened ShuntingYard
  import opened Trees
  import opened Stepper
  import opened Numbers
  import opened Engine
  import opened Placement

  lemma SymbolTokens()
    ensures forall t :: t in ["+", "-", "*", "/", "(", ")"] ==> IsSymbolToken(t) && !IsRun(t)
  {
    assert IsSymbol("+"[0]) && IsSymbol("-"[0]) && IsSymbol("*"[0]);
    assert IsSymbol("/"[0]) && IsSymbol("("[0]) && IsSymbol(")"[0]);
  }

  // ---- "5 - - - 3": the spaces between the minus signs are operands ----

  /** The tokenizer keeps spaces inside the runs around the symbols. */
  lemma SpacedTokens()
    ensures Tokens("5 - - - 3") == ["5 ", "-", " ", "-", " ", "-", " 3"]
  {
    var ts := ["5 ", "-", " ", "-", " ", "-", " 3"];
    SpacedConcat();
    SymbolTokens();
    SpacedRuns();
    assert IsTokenization(ts, "5 - - - 3");
    TokenizationUnique(ts, "5 - - - 3");
  }

  lemma ConcatCons(t: string, rest: seq<string>)
    ensures Concat([t] + rest) == t + Concat(rest)
  {
    assert ([t] + rest)[1..] == rest;
  }

  lemma SpacedConcat()
    ensures Concat(["5 ", "-", " ", "-", " ", "-", " 3"]) == "5 - - - 3"
  {
    ConcatOne(" 3");
    ConcatCons("-", [" 3"]);
    assert Concat(["-", " 3"]) == "- 3";
    ConcatCons(" ", ["-", " 3"]);
    assert Concat([" ", "-", " 3"]) == " - 3";
    ConcatCons("-", [" ", "-", " 3"]);
    assert Concat(["-", " ", "-", " 3"]) == "- - 3";
    ConcatCons(" ", ["-", " ", "-", " 3"]);
    assert Concat([" ", "-", " ", "-", " 3"]) == " - - 3";
    ConcatCons("-", [" ", "-", " ", "-", " 3"]);
    assert Concat(["-", " ", "-", " ", "-", " 3"]) == "- - - 3";
    ConcatCons("5 ", ["-", " ", "-", " ", "-", " 3"]);
  }

  lemma ConcatOne(t: string)
    ensures Concat([t]) == t
  {
    assert [t][1..] == [];
  }

  lemma SpacedRuns()
    ensures IsRun("5 ") && IsRun(" ") && IsRun(" 3")
  {
    assert !IsSymbol('5') && !IsSymbol(' ') && !IsSymbol('3');
    assert "5 "[0] == '5' && "5 "[1] == ' ';
    assert " 3"[0] == ' ' && " 3"[1] == '3';
    assert " "[0] == ' ';
  }

  /** Every "-" follows an operand token, so none of them becomes unary. */
  lemma SpacedStayBinary()
    ensures ResolveUnary(["5 ", "-", " ", "-", " ", "-", " 3"]) == ["5 ", "-", " ", "-", " ", "-", " 3"]
  {
    var ts := ["5 ", "-", " ", "-", " ", "-", " 3"];
    forall i | 0 <= i < |ts| ensures ResolveUnary(ts)[i] == ts[i] {
      ResolveUnaryAt(ts, i);
      if i > 0 { ResolveUnaryAt(ts, i - 1); }
    }
  }

  // The conversion of the spaced tokens, one suffix of the input at a time.

  lemma SpacedConsume7()
    ensures ConsumeAll(State(["5 ", " ", "-", " ", "-"], ["-"]), [" 3"])
         == State(["5 ", " ", "-", " ", "-", " 3"], ["-"])
  {
    assert [" 3"][1..] == [];
  }

  lemma SpacedConsume6()
    ensures ConsumeAll(State(["5 ", " ", "-", " "], ["-"]), ["-", " 3"])
         == State(["5 ", " ", "-", " ", "-", " 3"], ["-"])
  {
    assert ["-", " 3"][1..] == [" 3"];
    SpacedConsume7();
  }

  lemma SpacedConsume5()
    ensures ConsumeAll(State(["5 ", " ", "-"], ["-"]), [" ", "-", " 3"])
         == State(["5 ", " ", "-", " ", "-", " 3"], ["-"])
  {
    assert [" ", "-", " 3"][1..] == ["-", " 3"];
    assert ["5 ", " ", "-"] + [" "] == ["5 ", " ", "-", " "];
    SpacedConsume6();
  }

  lemma SpacedConsume4()
    ensures ConsumeAll(State(["5 ", " "], ["-"]), ["-", " ", "-", " 3"])
         == State(["5 ", " ", "-", " ", "-", " 3"], ["-"])
  {
    assert ["-", " ", "-", " 3"][1..] == [" ", "-", " 3"];
    assert Emit(State(["5 ", " "], ["-"])) == State(["5 ", " ", "-"], []);
    SpacedConsume5();
  }

  lemma SpacedConsume3()
    ensures ConsumeAll(State(["5 "], ["-"]), [" ", "-", " ", "-", " 3"])
         == State(["5 ", " ", "-", " ", "-", " 3"], ["-"])
  {
    assert [" ", "-", " ", "-", " 3"][1..] == ["-", " ", "-", " 3"];
    assert ["5 "] + [" "] == ["5 ", " "];
    SpacedConsume4();
  }

  lemma SpacedConsume2()
    ensures ConsumeAll(State(["5 "], []), ["-", " ", "-", " ", "-", " 3"])
         == State(["5 ", " ", "-", " ", "-", " 3"], ["-"])
  {
    assert ["-", " ", "-", " ", "-", " 3"][1..] == [" ", "-", " ", "-", " 3"];
    SpacedConsume3();
  }

  lemma SpacedConsume1()
    ensures ConsumeAll(State([], []), ["5 ", "-", " ", "-", " ", "-", " 3"])
         == State(["5 ", " ", "-", " ", "-", " 3"], ["-"])
  {
    assert ["5 ", "-", " ", "-", " ", "-", " 3"][1..] == ["-", " ", "-", " ", "-", " 3"];
    assert [] + ["5 "] == ["5 "];
    SpacedConsume2();
  }

  /** Left-associative: each "-" pops the one before it. */
  lemma SpacedPostfix()
    ensures ShuntingYard.InfixToPostfix(["5 ", "-", " ", "-", " ", "-", " 3"])
         == Ok(["5 ", " ", "-", " ", "-", " 3", "-"])
  {
    SpacedConsume1();
    var o := ["5 ", " ", "-", " ", "-", " 3"];
    assert Pop(["-"]) == [];
    assert Emit(State(o, ["-"])) == State(o + ["-"], []);
    assert Drain(State(o, ["-"])) == Drain(State(o + ["-"], []));
    assert o + ["-"] == ["5 ", " ", "-", " ", "-", " 3", "-"];
  }

  /** The tree of "5 - - - 3": ((("5 " - " ") - " ") - " 3"). */
  function SpacedTree(): Tree
  {
    Node("-", Node("-", Node("-", Leaf("5 "), Leaf(" ")), Leaf(" ")), Leaf(" 3"))
  }

  lemma SpacedBuild()
    ensures BuildTree(["5 ", " ", "-", " ", "-", " 3", "-"]) == Ok(SpacedTree())
  {
  }

  /** "5 - - - 3" parses into the left-leaning tree of four operands. */
  lemma SpacedParse()
    ensures Parse("5 - - - 3") == Ok((["5 ", " ", "-", " ", "-", " 3", "-"], SpacedTree()))
  {
    SpacedTokens();
    SpacedStayBinary();
    SpacedPostfix();
    SpacedBuild();
    ParseSucceeds("5 - - - 3", ["5 ", " ", "-", " ", "-", " 3", "-"], SpacedTree());
  }

  /** Its value is the error for the operand " ", not 2. */
  lemma SpacedValue()
    ensures Trees.Calculate(SpacedTree()) == Err(InvalidOperand(" "))
  {
    var e := InvalidOperand(" ");
    DigitThenSpace('5');
    assert ['5', ' '] == "5 ";
    LeafValue("5 ", 5.0);
    BlankOperand();
    LeafError(" ");
    var inner := Node("-", Leaf("5 "), Leaf(" "));
    BinaryRightError("-", Leaf("5 "), Leaf(" "), 5.0, e);
    var middle := Node("-", inner, Leaf(" "));
    BinaryLeftError("-", inner, Leaf(" "), e);
    BinaryLeftError("-", middle, Leaf(" 3"), e);
    CalculateIs(SpacedTree());
  }

  // ---- "--3": a doubled unary minus ----

  lemma DoubledTokens()
    ensures Tokens("--3") == ["-", "-", "3"]
  {
    var ts := ["-", "-", "3"];
    assert Concat(ts) == "--3";
    SymbolTokens();
    TokenizationUnique(ts, "--3");
  }

  lemma DoubledUnary()
    ensures ResolveUnary(["-", "-", "3"]) == ["_NEG_", "_NEG_", "3"]
  {
    var ts := ["-", "-", "3"];
    forall i | 0 <= i < |ts| ensures ResolveUnary(ts)[i] == ["_NEG_", "_NEG_", "3"][i] {
      ResolveUnaryAt(ts, i);
      if i > 0 { ResolveUnaryAt(ts, i - 1); }
    }
  }

  lemma DoubledConsume()
    ensures ConsumeAll(State([], []), ["_NEG_", "_NEG_", "3"]) == State(["_NEG_", "3"], ["_NEG_"])
  {
    assert ["_NEG_", "_NEG_", "3"][1..] == ["_NEG_", "3"];
    assert ["_NEG_", "3"][1..] == ["3"];
    assert ["3"][1..] == [];
    assert Consume(State([], []), "_NEG_") == State([], ["_NEG_"]);
    assert Emit(State([], ["_NEG_"])) == State(["_NEG_"], []);
    assert Consume(State([], ["_NEG_"]), "_NEG_") == State(["_NEG_"], ["_NEG_"]);
  }

  /** The second `_NEG_` pops the first one to the output before any
      operand, so building the tree fails. */
  lemma DoubledMinus()
    ensures Parse("--3") == Err(MissingUnaryOperand)
  {
    DoubledTokens();
    DoubledUnary();
    DoubledConsume();
    DoubledDrain();
    assert ShuntingYard.InfixToPostfix(["_NEG_", "_NEG_", "3"]) == Ok(["_NEG_", "3", "_NEG_"]);
    DoubledBuild();
    ParseBuildFails("--3", ["_NEG_", "3", "_NEG_"], MissingUnaryOperand);
  }

  lemma DoubledDrain()
    ensures Drain(State(["_NEG_", "3"], ["_NEG_"])) == Ok(["_NEG_", "3", "_NEG_"])
  {
    assert Emit(State(["_NEG_", "3"], ["_NEG_"])) == State(["_NEG_", "3", "_NEG_"], []);
  }

  /** The second `_NEG_` finds no operand left on the node stack. */
  lemma DoubledBuild()
    ensures BuildTree(["_NEG_", "3", "_NEG_"]) == Err(MissingUnaryOperand)
  {
  }

  // ---- "5---3": with no spaces, the unary minus signs pair up wrongly ----

  lemma TightTokens()
    ensures Tokens("5---3") == ["5", "-", "-", "-", "3"]
  {
    var ts := ["5", "-", "-", "-", "3"];
    assert Concat(ts) == "5---3";
    SymbolTokens();
    TokenizationUnique(ts, "5---3");
  }

  /** The first "-" follows an operand and stays binary; the other two
      follow an operator and become unary. */
  lemma TightUnary()
    ensures ResolveUnary(["5", "-", "-", "-", "3"]) == ["5", "-", "_NEG_", "_NEG_", "3"]
  {
    var ts := ["5", "-", "-", "-", "3"];
    forall i | 0 <= i < |ts| ensures ResolveUnary(ts)[i] == ["5", "-", "_NEG_", "_NEG_", "3"][i] {
      ResolveUnaryAt(ts, i);
      if i > 0 { ResolveUnaryAt(ts, i - 1); }
    }
  }

  lemma TightConsume5()
    ensures ConsumeAll(State(["5", "_NEG_"], ["-", "_NEG_"]), ["3"])
         == State(["5", "_NEG_", "3"], ["-", "_NEG_"])
  {
    assert ["3"][1..] == [];
    assert ["5", "_NEG_"] + ["3"] == ["5", "_NEG_", "3"];
  }

  /** The second `_NEG_` pops the first one, as their precedences are equal. */
  lemma TightConsume4()
    ensures ConsumeAll(State(["5"], ["-", "_NEG_"]), ["_NEG_", "3"])
         == State(["5", "_NEG_", "3"], ["-", "_NEG_"])
  {
    assert ["_NEG_", "3"][1..] == ["3"];
    assert Emit(State(["5"], ["-", "_NEG_"])) == State(["5", "_NEG_"], ["-"]);
    assert ["-"] + ["_NEG_"] == ["-", "_NEG_"];
    TightConsume5();
  }

  lemma TightConsume3()
    ensures ConsumeAll(State(["5"], ["-"]), ["_NEG_", "_NEG_", "3"])
         == State(["5", "_NEG_", "3"], ["-", "_NEG_"])
  {
    assert ["_NEG_", "_NEG_", "3"][1..] == ["_NEG_", "3"];
    assert ["-"] + ["_NEG_"] == ["-", "_NEG_"];
    TightConsume4();
  }

  lemma TightConsume2()
    ensures ConsumeAll(State(["5"], []), ["-", "_NEG_", "_NEG_", "3"])
         == State(["5", "_NEG_", "3"], ["-", "_NEG_"])
  {
    assert ["-", "_NEG_", "_NEG_", "3"][1..] == ["_NEG_", "_NEG_", "3"];
    assert Consume(State(["5"], []), "-") == State(["5"], ["-"]);
    TightConsume3();
  }

  lemma TightConsume1()
    ensures ConsumeAll(State([], []), ["5", "-", "_NEG_", "_NEG_", "3"])
         == State(["5", "_NEG_", "3"], ["-", "_NEG_"])
  {
    assert ["5", "-", "_NEG_", "_NEG_", "3"] == ["5"] + ["-", "_NEG_", "_NEG_", "3"];
    ConsumeAllCons(State([], []), "5", ["-", "_NEG_", "_NEG_", "3"]);
    assert Consume(State([], []), "5") == State(["5"], []);
    TightConsume2();
  }

  /** The last `_NEG_` pops before the binary "-" below it. */
  lemma TightDrain1()
    ensures Drain(State(["5", "_NEG_", "3", "_NEG_"], ["-"])) == Ok(["5", "_NEG_", "3", "_NEG_", "-"])
  {
    var s := State(["5", "_NEG_", "3", "_NEG_"], ["-"]);
    assert Emit(s) == State(["5", "_NEG_", "3", "_NEG_", "-"], []);
  }

  lemma TightDrain2()
    ensures Drain(State(["5", "_NEG_", "3"], ["-", "_NEG_"])) == Ok(["5", "_NEG_", "3", "_NEG_", "-"])
  {
    var s := State(["5", "_NEG_", "3"], ["-", "_NEG_"]);
    assert Emit(s) == State(["5", "_NEG_", "3", "_NEG_"], ["-"]);
    TightDrain1();
  }

  lemma TightPostfix()
    ensures ShuntingYard.InfixToPostfix(["5", "-", "_NEG_", "_NEG_", "3"])
         == Ok(["5", "_NEG_", "3", "_NEG_", "-"])
  {
    TightConsume1();
    TightDrain2();
  }

  /** The tree of "5---3": (-5) - (-3). */
  function TightTree(): Tree
  {
    Node("-", Node("_NEG_", Nil, Leaf("5")), Node("_NEG_", Nil, Leaf("3")))
  }

  lemma TightBuild()
    ensures BuildTree(["5", "_NEG_", "3", "_NEG_", "-"]) == Ok(TightTree())
  {
  }

  lemma TightParse()
    ensures Parse("5---3") == Ok((["5", "_NEG_", "3", "_NEG_", "-"], TightTree()))
  {
    TightTokens();
    TightUnary();
    TightPostfix();
    TightBuild();
    ParseSucceeds("5---3", ["5", "_NEG_", "3", "_NEG_", "-"], TightTree());
  }

  /** The value is -2, where 5 - (-(-3)) would be 2. */
  lemma TightValue()
    ensures Trees.Calculate(TightTree()) == Ok(-2.0)
  {
    DigitLeaf('5');
    DigitLeaf('3');
    NegValue(Leaf("5"), 5.0);
    NegValue(Leaf("3"), 3.0);
    BinaryValue("-", Node("_NEG_", Nil, Leaf("5")), Node("_NEG_", Nil, Leaf("3")), -5.0, -3.0);
    assert CalcOp("-", -5.0, -3.0) == Ok(-2.0);
    CalculateIs(TightTree());
  }

  // ---- "1+2*3": precedence, then two simplification steps ----

  lemma ProductTokens()
    ensures Tokens("1+2*3") == ["1", "+", "2", "*", "3"]
  {
    var ts := ["1", "+", "2", "*", "3"];
    assert Concat(ts) == "1+2*3";
    SymbolTokens();
    TokenizationUnique(ts, "1+2*3");
  }

  lemma ProductStayBinary()
    ensures ResolveUnary(["1", "+", "2", "*", "3"]) == ["1", "+", "2", "*", "3"]
  {
    var ts := ["1", "+", "2", "*", "3"];
    forall i | 0 <= i < |ts| ensures ResolveUnary(ts)[i] == ts[i] {
      ResolveUnaryAt(ts, i);
      if i > 0 { ResolveUnaryAt(ts, i - 1); }
    }
  }

  lemma ProductConsume5()
    ensures ConsumeAll(State(["1", "2"], ["+", "*"]), ["3"]) == State(["1", "2", "3"], ["+", "*"])
  {
    assert ["3"][1..] == [];
    assert ["1", "2"] + ["3"] == ["1", "2", "3"];
  }

  lemma ProductConsume4()
    ensures ConsumeAll(State(["1", "2"], ["+"]), ["*", "3"]) == State(["1", "2", "3"], ["+", "*"])
  {
    assert ["*", "3"][1..] == ["3"];
    assert ["+"] + ["*"] == ["+", "*"];
    ProductConsume5();
  }

  lemma ProductConsume3()
    ensures ConsumeAll(State(["1"], ["+"]), ["2", "*", "3"]) == State(["1", "2", "3"], ["+", "*"])
  {
    assert ["2", "*", "3"][1..] == ["*", "3"];
    assert ["1"] + ["2"] == ["1", "2"];
    ProductConsume4();
  }

  lemma ProductConsume2()
    ensures ConsumeAll(State(["1"], []), ["+", "2", "*", "3"]) == State(["1", "2", "3"], ["+", "*"])
  {
    assert ["+", "2", "*", "3"][1..] == ["2", "*", "3"];
    ProductConsume3();
  }

  lemma ProductConsume1()
    ensures ConsumeAll(State([], []), ["1", "+", "2", "*", "3"]) == State(["1", "2", "3"], ["+", "*"])
  {
    assert ["1", "+", "2", "*", "3"][1..] == ["+", "2", "*", "3"];
    assert [] + ["1"] == ["1"];
    ProductConsume2();
  }

  /** "*" stays above "+" on the stack, so the product is emitted first. */
  lemma ProductPostfix()
    ensures ShuntingYard.InfixToPostfix(["1", "+", "2", "*", "3"]) == Ok(["1", "2", "3", "*", "+"])
  {
    ProductConsume1();
    ProductDrain2();
  }

  lemma ProductDrain1()
    ensures Drain(State(["1", "2", "3", "*"], ["+"])) == Ok(["1", "2", "3", "*", "+"])
  {
    assert Emit(State(["1", "2", "3", "*"], ["+"])) == State(["1", "2", "3", "*", "+"], []);
  }

  lemma ProductDrain2()
    ensures Drain(State(["1", "2", "3"], ["+", "*"])) == Ok(["1", "2", "3", "*", "+"])
  {
    assert Emit(State(["1", "2", "3"], ["+", "*"])) == State(["1", "2", "3", "*"], ["+"]);
    ProductDrain1();
  }

  /** The tree of "1+2*3": the product is the right operand of the sum. */
  function ProductTree(): Tree
  {
    Node("+", Leaf("1"), Node("*", Leaf("2"), Leaf("3")))
  }

  lemma ProductBuild()
    ensures BuildTree(["1", "2", "3", "*", "+"]) == Ok(ProductTree())
  {
  }

  lemma ProductParse()
    ensures Parse("1+2*3") == Ok((["1", "2", "3", "*", "+"], ProductTree()))
  {
    ProductTokens();
    ProductStayBinary();
    ProductPostfix();
    ProductBuild();
    ParseSucceeds("1+2*3", ["1", "2", "3", "*", "+"], ProductTree());
  }

  /** A single digit reads as its own value. */
  lemma SingleDigit(c: char)
    requires IsDigit(c)
    ensures ParseOperand([c]) == Ok(DigitValue(c) as real)
  {
    var s := [c];
    assert !IsSpace(c);
    assert SkipSpaces(s, 0) == 0;
    assert DigitsEnd(s, 1) == 1;
    assert DigitsEnd(s, 0) == 1;
    assert s[0..1] == s && s[..0] == [];
    assert NatOf(s) == DigitValue(c);
    assert ExponentAt(s, 1) == 0;
  }

  /** A one-digit leaf evaluates to its digit. */
  lemma DigitLeaf(c: char)
    requires IsDigit(c)
    ensures Eval(Leaf([c])) == Ok(DigitValue(c) as real)
  {
    SingleDigit(c);
    LeafValue([c], DigitValue(c) as real);
  }

  /** A digit followed by a space still reads as the digit. */
  lemma DigitThenSpace(c: char)
    requires IsDigit(c)
    ensures ParseNumber([c, ' ']) == Some(DigitValue(c) as real)
  {
    var s := [c, ' '];
    assert !IsSpace(c) && !IsDigit(' ');
    assert SkipSpaces(s, 0) == 0;
    assert DigitsEnd(s, 1) == 1;
    assert DigitsEnd(s, 0) == 1;
    assert s[0..1] == [c];
    assert NatOf([c]) == DigitValue(c);
    assert ExponentAt(s, 1) == 0;
  }

  /** A single space holds no digit. */
  lemma BlankOperand()
    ensures ParseNumber(" ") == None
  {
    assert IsSpace(" "[0]);
    assert SkipSpaces(" ", 1) == 1;
    assert SkipSpaces(" ", 0) == 1;
    assert DigitsEnd(" ", 1) == 1;
  }

  lemma LeafValue(d: string, v: real)
    requires !IsOperator(d) && ParseNumber(d) == Some(v)
    ensures Eval(Leaf(d)) == Ok(v)
  {
  }

  lemma LeafError(d: string)
    requires !IsOperator(d) && ParseNumber(d) == None
    ensures Eval(Leaf(d)) == Err(InvalidOperand(d))
  {
  }

  lemma BinaryValue(d: string, l: Tree, r: Tree, a: real, b: real)
    requires IsOperator(d) && d != "_NEG_" && Eval(l) == Ok(a) && Eval(r) == Ok(b)
    ensures Eval(Node(d, l, r)) == CalcOp(d, a, b)
  {
  }

  lemma BinaryLeftError(d: string, l: Tree, r: Tree, e: Error)
    requires IsOperator(d) && d != "_NEG_" && Eval(l) == Err(e)
    ensures Eval(Node(d, l, r)) == Err(e)
  {
  }

  lemma BinaryRightError(d: string, l: Tree, r: Tree, a: real, e: Error)
    requires IsOperator(d) && d != "_NEG_" && Eval(l) == Ok(a) && Eval(r) == Err(e)
    ensures Eval(Node(d, l, r)) == Err(e)
  {
  }

  lemma CalculateIs(t: Tree)
    requires t != Nil
    ensures Trees.Calculate(t) == Eval(t)
  {
  }

  lemma ProductOperand()
    ensures Eval(Node("*", Leaf("2"), Leaf("3"))) == Ok(6.0)
  {
    DigitLeaf('2');
    DigitLeaf('3');
    BinaryValue("*", Leaf("2"), Leaf("3"), 2.0, 3.0);
    assert CalcOp("*", 2.0, 3.0) == Ok(6.0);
  }

  lemma ProductValue()
    ensures Trees.Calculate(ProductTree()) == Ok(7.0)
  {
    DigitLeaf('1');
    ProductOperand();
    BinaryValue("+", Leaf("1"), Node("*", Leaf("2"), Leaf("3")), 1.0, 6.0);
    assert CalcOp("+", 1.0, 6.0) == Ok(7.0);
    CalculateIs(ProductTree());
  }

  /** A ready binary node over two leaves folds into the leaf of its value. */
  lemma FoldLeaves(d: string, x: string, y: string, a: real, b: real, v: real)
    requires IsOperator(d) && d != "_NEG_" && !IsOperator(x) && !IsOperator(y)
    requires ParseOperand(x) == Ok(a) && ParseOperand(y) == Ok(b) && CalcOp(d, a, b) == Ok(v)
    ensures Fold(Node(d, Leaf(x), Leaf(y))) == Stepped(Leaf(FormatNumber(v)), Ok(true))
  {
    var t := Node(d, Leaf(x), Leaf(y));
    assert Ready(t) && MaxDepth(t) == 2;
  }

  lemma FormatSix()
    ensures FormatNumber(6.0) == "6.00"
  {
    assert (600.0).Floor == 600;
    assert Cents(6.0) == 600;
    assert NatToString(6) == "6";
    assert DigitChar(0) == '0';
  }

  lemma FormatSeven()
    ensures FormatNumber(7.0) == "7.00"
  {
    assert (700.0).Floor == 700;
    assert Cents(7.0) == 700;
    assert NatToString(7) == "7";
    assert DigitChar(0) == '0';
  }

  lemma ParseSix()
    ensures ParseNumber("6.00") == Some(6.0)
  {
    var s := "6.00";
    assert SkipSpaces(s, 0) == 0;
    assert DigitsEnd(s, 0) == 1;
    assert DigitsEnd(s, 2) == 4;
    assert s[0..1] == "6" && s[2..4] == "00";
    assert NatOf("6") == 6;
    assert NatOf("00") == 0;
    assert ExponentAt(s, 4) == 0;
  }

  lemma ProductFold()
    ensures Fold(Node("*", Leaf("2"), Leaf("3"))) == Stepped(Leaf("6.00"), Ok(true))
  {
    SingleDigit('2');
    SingleDigit('3');
    assert CalcOp("*", 2.0, 3.0) == Ok(6.0);
    FoldLeaves("*", "2", "3", 2.0, 3.0, 6.0);
    FormatSix();
  }

  lemma SumFold()
    ensures Fold(Node("+", Leaf("1"), Leaf("6.00"))) == Stepped(Leaf("7.00"), Ok(true))
  {
    SingleDigit('1');
    ParseSix();
    assert ParseOperand("6.00") == Ok(6.0);
    assert CalcOp("+", 1.0, 6.0) == Ok(7.0);
    FoldLeaves("+", "1", "6.00", 1.0, 6.0, 7.0);
    FormatSeven();
  }

  /** The product is the only ready node, so the first step folds it. */
  lemma ProductFoldsFirst()
    ensures SimplifyLowestLevel(ProductTree()) == Stepped(Node("+", Leaf("1"), Leaf("6.00")), Ok(true))
  {
    var m := Node("*", Leaf("2"), Leaf("3"));
    ProductFold();
    SimplifyAtCases("*", Leaf("2"), Leaf("3"));
    assert Child(Leaf("2")) == Stepped(Leaf("2"), Ok(false));
    assert Child(Leaf("3")) == Stepped(Leaf("3"), Ok(false));
    assert Child(m) == Stepped(Leaf("6.00"), Ok(true));
    assert Child(Leaf("1")) == Stepped(Leaf("1"), Ok(false));
    SimplifyAtCases("+", Leaf("1"), m);
  }

  /** The second step folds the sum into the final leaf. */
  lemma SumFoldsNext()
    ensures SimplifyLowestLevel(Node("+", Leaf("1"), Leaf("6.00"))) == Stepped(Leaf("7.00"), Ok(true))
  {
    SumFold();
    assert Child(Leaf("1")) == Stepped(Leaf("1"), Ok(false));
    assert Child(Leaf("6.00")) == Stepped(Leaf("6.00"), Ok(false));
    SimplifyAtCases("+", Leaf("1"), Leaf("6.00"));
  }
  // ---- A throw keeps the folds made before it: (1+2)*(3/0) ----

  function SumTree(): Tree
  {
    Node("+", Leaf("1"), Leaf("2"))
  }

  function QuotientTree(): Tree
  {
    Node("/", Leaf("3"), Leaf("0"))
  }

  function GuardedTree(): Tree
  {
    Node("*", SumTree(), QuotientTree())
  }

  lemma FormatThree()
    ensures FormatNumber(3.0) == "3.00"
  {
    assert (300.0).Floor == 300;
    assert Cents(3.0) == 300;
    assert NatToString(3) == "3";
    assert DigitChar(0) == '0';
  }

  lemma SumFoldsToThree()
    ensures Fold(SumTree()) == Stepped(Leaf("3.00"), Ok(true))
  {
    SingleDigit('1');
    SingleDigit('2');
    assert CalcOp("+", 1.0, 2.0) == Ok(3.0);
    FoldLeaves("+", "1", "2", 1.0, 2.0, 3.0);
    FormatThree();
  }

  lemma FoldThrows(d: string, x: string, y: string, a: real, b: real)
    requires IsOperator(d) && d != "_NEG_" && !IsOperator(x) && !IsOperator(y)
    requires ParseOperand(x) == Ok(a) && ParseOperand(y) == Ok(b) && CalcOp(d, a, b).Err?
    ensures Fold(Node(d, Leaf(x), Leaf(y))) == Stepped(Node(d, Leaf(x), Leaf(y)), Err(CalcOp(d, a, b).error))
  {
    var t := Node(d, Leaf(x), Leaf(y));
    assert Ready(t) && MaxDepth(t) == 2;
  }

  lemma QuotientThrows()
    ensures Fold(QuotientTree()) == Stepped(QuotientTree(), Err(DivByZero))
  {
    SingleDigit('3');
    SingleDigit('0');
    assert CalcOp("/", 3.0, 0.0) == Err(DivByZero);
    FoldThrows("/", "3", "0", 3.0, 0.0);
  }

  /** The sum folds to "3.00" before the division throws, and the fold stays. */
  lemma DivisionThrowsAfterSum()
    ensures SimplifyLowestLevel(GuardedTree()) == Stepped(Node("*", Leaf("3.00"), QuotientTree()), Err(DivByZero))
  {
    SumFoldsToThree();
    QuotientThrows();
    SimplifyAtCases("+", Leaf("1"), Leaf("2"));
    SimplifyAtCases("/", Leaf("3"), Leaf("0"));
    assert Child(Leaf("1")) == Stepped(Leaf("1"), Ok(false));
    assert Child(Leaf("2")) == Stepped(Leaf("2"), Ok(false));
    assert Child(Leaf("3")) == Stepped(Leaf("3"), Ok(false));
    assert Child(Leaf("0")) == Stepped(Leaf("0"), Ok(false));
    assert Child(SumTree()) == Stepped(Leaf("3.00"), Ok(true));
    assert Child(QuotientTree()) == Stepped(QuotientTree(), Err(DivByZero));
    SimplifyAtCases("*", SumTree(), QuotientTree());
  }

  // ---- Operators of equal precedence group to the left: 1-2-3 ----

  /** `1-2-3` converts to `1 2 - 3 -`, that is `(1-2)-3`. */
  lemma MinusGroupsLeft()
    ensures ShuntingYard.InfixToPostfix(["1", "-", "2", "-", "3"]) == Ok(["1", "2", "-", "3", "-"])
  {
    var ps := [("-", "2"), ("-", "3")];
    assert Alternating("1", ps);
    assert Flat("1", ps) == ["1", "-", "2", "-", "3"] by {
      assert ps[..1] == [("-", "2")] && ps[..1][..0] == [];
    }
    assert Postorder(Reading("1", ps)) == ["1", "2", "-", "3", "-"] by {
      assert ps[..1] == [("-", "2")] && ps[..1][..0] == [];
    }
    InfixToPostfixPlacement("1", ps);
  }
}
