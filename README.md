# Syntax tree calculator: a Dafny model of the expression engine

This project models the expression engine of the Syntax Tree Calculator, the
`AST` class of `AST.cpp`/`AST.h`, and proves properties of that model. The
engine turns an infix arithmetic expression into a postfix token buffer. It
then builds a binary expression tree from the buffer, evaluates the tree, and
can fold the tree one level at a time, replacing each innermost operation by a
leaf holding its value formatted to two decimals.

The model has two layers.

* Value-level functions over token sequences and a `Tree` datatype. These
  carry the properties:
  * the tokenizer's output is the unique split into symbols and maximal runs;
  * the shunting-yard conversion fails exactly on an unclosed "(";
  * without parentheses or unary minus, it places operators as precedence and left grouping say;
  * the builder is the inverse of postorder;
  * evaluating the tree equals evaluating the postfix sequence;
  * one folding step lowers the tree's depth by one, and repeated steps reach a single leaf;
  * a step that throws keeps the folds it made before the throw.
* Imperative Dafny that follows the C++ code:
  * `StringArray` reallocates an `array` on every append;
  * `BNode` is a linked node with a ghost footprint;
  * `AST` owns a node tree and a postfix buffer.
  Each of their methods is proved to leave exactly the state the value-level
  function computes.

Modules, one per concern:

| file | module | C++ counterpart |
|---|---|---|
| wrappers.dfy | `Wrappers` | the exceptions the engine throws, as an `Error` datatype in `Result`/`Outcome` values |
| numbers.dfy | `Numbers` | `std::stod` on operand text and `formatNumber` |
| lexer.dfy | `Lexer` | `isOperator`, `getPrecedence`, `tokenize`, `handleUnaryOperators` |
| shunting_yard.dfy | `ShuntingYard` | `infixToPostfix` |
| placement.dfy | `Placement` | where `infixToPostfix` puts the operators of an expression without parentheses or unary minus, against the usual reading by precedence |
| trees.dfy | `Trees` | `buildTree`, `calculateOp`, `calculateRecursive`, `calculate` |
| stepper.dfy | `Stepper` | `getMaxDepth`, `simplifyAtDepth`, `simplifyLowestLevel` |
| buffers.dfy | `Buffers` | `AST::StringArray` |
| nodes.dfy | `Nodes` | `AST::BNode`, `copyTree` and the recursive walks over nodes |
| engine.dfy | `Engine` | the `AST` class itself |
| seqs.dfy | `Seqs` | none: a sequence-concatenation fact the proofs share |
| examples.dfy | `Examples` | worked examples on concrete expressions, each proved |

Modelling choices:

* **Numbers are exact reals, not IEEE doubles.**
  * `ParseNumber` is the decimal subset of `strtod` that `std::stod` uses: leading whitespace, optional sign, digits with an optional fraction (at least one digit in all), an optional exponent, and trailing text ignored. It returns `None` where `stod` throws `invalid_argument`.
  * `FormatNumber` is `"{:.2f}"`: sign, integer part, point and two decimals, rounding half to even.
* **Exceptions become values.** Every `throw` site is an `Error` constructor. A C++ function that may throw returns a `Result` (or an `Outcome` for `void` functions).
* **Constructing an `AST` fails with a value.** The C++ constructor `AST(string)` can throw, and a Dafny constructor cannot return an error. `AST.Create` is therefore a static method returning `Result<AST, Error>`. It tokenizes, resolves unary minus, and hands the tokens to `AST.FromTokens`, which starts from `AST.Empty`, converts to postfix and builds the tree.

Two points where the code differs from what the repository expects of it. The
model follows the code in both:

* **Spaces are not skipped.** `tokenize` keeps every non-symbol character, spaces included, inside the current run. So `"5 - - - 3"` yields the seven tokens `"5 "`, `"-"`, `" "`, `"-"`, `" "`, `"-"`, `" 3"`.
  * Every minus sign then follows an operand token, so none becomes unary.
  * The expression parses to `((("5 " - " ") - " ") - " 3")`, and its value is the `stod` error for the operand `" "`. `repro_bug.cpp` expects 2 (`Examples.SpacedParse`, `Examples.SpacedValue`).
* **Repeated unary minus is left-associative.** `infixToPostfix` pops while the stacked precedence is at least that of the incoming operator, and that test includes `_NEG_` against `_NEG_`.
  * Without spaces, `"5---3"` becomes `(-5) - (-3)`, which is -2 (`Examples.TightParse`, `Examples.TightValue`).
  * `"--3"` fails with "Missing operand for unary -" (`Examples.DoubledMinus`).

## Model

| member | source | states |
|---|---|---|
| Lexer.IsOperator | AST.cpp:64-66 | `isOperator`: exactly the texts "+", "-", "*", "/" and `_NEG_`; `Lexer.Precedence` proves these are the texts of non-zero precedence |
| Lexer.Precedence | AST.cpp:57-66 | operator precedence is at most 3 and is non-zero exactly for the five operators `isOperator` accepts |
| Lexer.Tokens | AST.cpp:68-85 | `tokenize` as a function on the expression; `Lexer.TokensAreTokenization` and `Lexer.TokenizationUnique` prove its output is the one split into symbols and maximal runs |
| Lexer.TokensAreTokenization | AST.cpp:68-85 | the tokens concatenate back to the expression, each is a one-character symbol or a run of non-symbols, and no two runs are adjacent |
| Lexer.TokenizationUnique | AST.cpp:68-85 | any split with those three properties is the tokenizer's output |
| Lexer.TokenizeSymbol | AST.cpp:73-78 | reading a symbol flushes the pending run and appends the symbol, keeping the tokenizer's loop invariant |
| Lexer.TokenizeRunChar | AST.cpp:79-81 | reading a non-symbol extends the pending run, keeping the loop invariant |
| Lexer.ResolveUnary | AST.cpp:87-107 | unary resolution keeps the number of tokens |
| Lexer.ResolveUnaryAt | AST.cpp:94-105 | position `i` becomes `_NEG_` exactly when the token is "-" and it is first or the resolved token before it is an operator or "("; every other token is unchanged |
| ShuntingYard.InfixToPostfix | AST.cpp:109-138 | `infixToPostfix` as the main loop followed by the draining loop; `ShuntingYard.InfixToPostfixSpec` proves when it fails and what its output holds |
| ShuntingYard.InfixToPostfixSpec | AST.cpp:109-138 | the conversion fails exactly when a "(" is left unclosed, and then with the unmatched-parenthesis error; on success the output has no parentheses, keeps the operands in input order and holds the same multiset of operators |
| ShuntingYard.ConsumeAllInv | AST.cpp:112-132 | the main loop keeps the output, stack and tokens read in balance: operands in order, operators accounted for, one stacked "(" per open parenthesis |
| ShuntingYard.DrainInv | AST.cpp:133-137 | the final loop empties the stack into the output, or fails on a stacked "(" |
| Placement.ReadingIsUsual | AST.cpp:57-62 | the reference reading of an expression of operands and `+ - * /` spells the expression out in order, groups every operator to the left, binds `*` and `/` more tightly than `+` and `-`, and is a tree the builder accepts |
| Placement.InfixToPostfixPlacement | AST.cpp:115-137 | on such an expression, the `>=` popping rule makes the postfix output exactly the postorder of that reading, and building from it gives the reading back |
| Trees.BuildLoop | AST.cpp:161-176 | the loop of `buildTree` over a stack of trees; `Trees.BuildLoopSound` proves the stack holds well-shaped trees whose postorders are the tokens read |
| Trees.BuildTree | AST.cpp:155-179 | `buildTree`: an empty tree for an empty buffer, otherwise the loop, which must leave exactly one tree; `Trees.BuildTreeIsPostorderInverse` proves it inverts postorder |
| Trees.BuildTreeIsPostorderInverse | AST.cpp:155-179 | building succeeds with tree `t` exactly when `t` is well shaped (unary nodes have only a right child, binary nodes two children, leaves none) and its postorder is the buffer |
| Trees.BuildLoopSound | AST.cpp:161-176 | the builder's stack holds well-shaped trees whose postorders, bottom to top, are the tokens read |
| Trees.BuildTreeError | AST.cpp:165-177 | building fails only with a missing unary operand, missing binary operands or a malformed expression |
| Trees.CalcOp | AST.cpp:181-190 | applying an operator fails exactly for "/" with a zero right operand, and then with the division error |
| Trees.Calculate | AST.cpp:265-268 | evaluation reports "Tree not built." exactly for the empty tree |
| Trees.Eval | AST.cpp:258-263 | `calculateRecursive`, which evaluates the left operand before the right (see the argument-order line under "## Left out"); `Trees.EvalLoopPostorder` proves it agrees with a stack evaluation of the postorder |
| Trees.EvalNotBuiltFree | AST.cpp:258-263 | the recursive evaluator never reports "Tree not built." |
| Trees.EvalLoopPostorder | AST.cpp:258-263 | evaluating a tree recursively agrees with a stack evaluation of its postorder |
| Trees.CalculateBuiltTree | AST.cpp:155-179 | the value of a built tree is the value of its postfix buffer computed by a stack machine |
| Numbers.ParseNumber | AST.cpp:260 | the decimal subset of `std::stod`, with `None` where `stod` throws; `Numbers.ParseFormat` proves it reads every formatted number back to its rounded value |
| Numbers.FormatNumber | AST.cpp:192-194 | a formatted number ends in a point and two digits |
| Numbers.ParseFormat | AST.cpp:192-194 | parsing a formatted number gives the value rounded to hundredths, within 0.005 of the original |
| Numbers.NatOfNatToString | AST.cpp:192-194 | reading back the decimal digits of a natural gives the natural |
| Numbers.RoundHalfEven | AST.cpp:192-194 | rounding lands within one half of the input, and on a tie it lands on the even neighbour |
| Stepper.MaxDepth | AST.cpp:196-203 | `getMaxDepth`: 0 for null, 1 for a leaf, one more than the deeper child otherwise; `Nodes.GetMaxDepth` proves the walk over nodes computes it |
| Stepper.ReadyHasDepthTwo | AST.cpp:225-227 | in a well-shaped tree an operator node with no operator children has depth 2, so the depth guard of the fold always holds |
| Stepper.FormatNotOperator | AST.cpp:231 | a formatted number is never an operator text, so a folded node is an operand |
| Stepper.Fold | AST.cpp:221-249 | the fold of `simplifyAtDepth` after neither child changed: a ready node of depth 2 becomes its formatted value, or the `stod` or division error is reported; `Nodes.FoldNode` proves the in-place fold matches it |
| Stepper.SimplifyAt | AST.cpp:205-250 | `simplifyAtDepth`: left child, then right child, then the node's own fold when neither changed, stopping at the first error; `Stepper.SimplifyAtFoldsLevel` and `Stepper.SimplifyAtPartFolds` prove what a pass does on success and on error |
| Stepper.SimplifyAtFoldsLevel | AST.cpp:205-250 | on a well-shaped tree a pass succeeds exactly when every innermost operation evaluates; it then folds all of them at once and reports a change exactly when the root is an operator |
| Stepper.SimplifyAtPartFolds | AST.cpp:205-250 | whatever a pass on a well-shaped tree returns, a thrown `stod` or division error included, the tree it leaves is well shaped, and each node of it is either an innermost operation, left as it was or folded, or a node of the old tree with its text kept |
| Stepper.SimplifyAtThrows | AST.cpp:205-250 | when some innermost operation fails to evaluate, a pass throws; that operation is left as it was with its own error; above it, a throwing left subtree leaves the right one untouched, and a right subtree throws only after the left one has been folded completely, so every fold to the left of a throw remains |
| Stepper.FoldLevelShrinks | AST.cpp:221-249 | folding every innermost operation keeps the tree well shaped, lowers its depth by one and removes operators when the root is an operator, and changes nothing otherwise |
| Stepper.SimplifyLowestLevel | AST.cpp:252-256 | `simplifyLowestLevel`: no change for an empty tree or a non-operator root, otherwise one pass; `Stepper.StepLowersDepth` proves a successful step lowers the depth by one |
| Stepper.StepLowersDepth | AST.cpp:252-256 | a successful step keeps the tree well shaped; it reports a change exactly when the depth exceeds 1, and then the depth drops by one; otherwise the tree is untouched |
| Stepper.StepsConverge | AST.cpp:252-256 | after `n` successful steps on a non-empty well-shaped tree of depth `d` the tree is still well shaped and its depth is `max(d - n, 1)`, so `d - 1` steps reach a single leaf |
| Stepper.FullyReduced | AST.cpp:252-256 | a tree of depth 1 is a non-operator leaf on which a step reports no change |
| Buffers.StringArray.constructor | AST.h:23 | a new buffer is empty |
| Buffers.StringArray.Add | AST.cpp:12-23 | appending puts the string after the old contents in fresh storage |
| Buffers.StringArray.Clear | AST.cpp:25-29 | clearing leaves an empty buffer |
| Nodes.BNode.constructor | AST.cpp:32-33 | a node holds the text and the two subtrees given, and denotes the tree made of them |
| Nodes.CopyTree | AST.cpp:52-55 | the copy is made of fresh nodes, is null exactly for null, and denotes the same tree |
| Nodes.GetMaxDepth | AST.cpp:196-203 | the depth computed over the nodes is the depth of the tree they denote, and is 0 exactly for null |
| Nodes.CalculateRecursive | AST.cpp:258-263 | the value computed over the nodes is that of the tree they denote |
| Nodes.SimplifyAtDepth | AST.cpp:205-250 | rewriting the nodes in place leaves the tree and outcome that the value-level pass computes, touching no node outside the subtree |
| Nodes.FoldNode | AST.cpp:221-249 | a node whose children did not change is folded in place as the value-level fold says |
| Engine.ParseSpec | AST.cpp:140-148 | construction fails with the unmatched-parenthesis error exactly for an unclosed "("; on success the buffer has no parentheses and keeps the operands, the tree is well shaped with the buffer as its postorder, is empty exactly for an empty buffer, and its value is the buffer's stack value |
| Engine.AST.Create | AST.cpp:140-148 | construction succeeds exactly when parsing does, with the same error otherwise, and leaves the parsed buffer and tree in fresh objects |
| Engine.AST.FromTokens | AST.cpp:143-144 | converting resolved tokens and building the tree succeeds exactly when the value-level conversion and builder do, with their error otherwise, and leaves their buffer and tree in fresh objects |
| Engine.AST.Empty | AST.cpp:140 | the starting state has no tree and an empty buffer |
| Engine.AST.Tokenize | AST.cpp:68-85 | the loop fills a fresh buffer with the expression's tokens |
| Engine.AST.HandleUnaryOperators | AST.cpp:87-107 | the copy-then-retag loops leave the resolved tokens in a fresh buffer |
| Engine.AST.MarkNegations | AST.cpp:96-105 | the retagging pass in place turns a "-" into `_NEG_` when it is first or follows a cell that now holds an operator or "(", and so leaves exactly the resolved tokens |
| Lexer.ResolveUnaryPointwise | AST.cpp:96-105 | every position of the resolved tokens is decided by the token there and the resolved token before it |
| Engine.AST.InfixToPostfix | AST.cpp:109-138 | the loop succeeds exactly when the conversion does, fails with its error, leaves its output in the buffer and does not touch the tree |
| Engine.AST.BuildTree | AST.cpp:155-179 | rebuilding succeeds exactly when the value-level builder does and leaves its tree in fresh nodes; on failure the error is the same and no tree is left |
| Engine.BuildNodes | AST.cpp:159-178 | the builder's loop over a non-empty buffer fails exactly where the value-level builder fails, with its error, and otherwise returns one node, made of fresh nodes, denoting the tree it builds |
| Engine.BuildStep | AST.cpp:162-175 | one iteration pushes the new node or fails exactly where the value-level loop fails |
| Engine.AST.Calculate | AST.cpp:265-268 | the result is the evaluation of the tree held |
| Engine.AST.SimplifyLowestLevel | AST.cpp:252-256 | one pass in place leaves the tree and outcome of the value-level step, within the old footprint, and leaves the postfix buffer as it was |
| Engine.AST.Copy | AST.cpp:40-42 | the copy holds a fresh deep copy of the tree and an empty buffer |
| Engine.AST.Assign | AST.cpp:44-50 | assignment from another engine replaces the tree by a fresh deep copy; self-assignment keeps the tree; the buffer is kept |
| Engine.AST.GetRoot | AST.cpp:270 | the root returned denotes the tree held |
| Examples.SpacedTokens | AST.cpp:68-85 | "5 - - - 3" tokenizes with the spaces kept in the runs |
| Examples.SpacedParse | AST.cpp:140-148 | "5 - - - 3" parses into a left-leaning tree whose operands include `" "` |
| Examples.SpacedValue | AST.cpp:258-263 | that tree evaluates to the error for the operand `" "` |
| Examples.DoubledMinus | AST.cpp:126-129 | "--3" fails with the missing unary operand error |
| Examples.TightParse | AST.cpp:126-129 | "5---3" parses into `(-5) - (-3)` |
| Examples.TightValue | AST.cpp:258-263 | that tree evaluates to -2 |
| Examples.ProductParse | AST.cpp:126-130 | "1+2*3" parses with the product below the sum |
| Examples.ProductValue | AST.cpp:258-268 | "1+2*3" evaluates to 7 |
| Examples.ProductFoldsFirst | AST.cpp:205-256 | the first step on "1+2*3" folds the product to `"6.00"` |
| Examples.SumFoldsNext | AST.cpp:205-256 | the second step folds the sum to `"7.00"` |
| Examples.DivisionThrowsAfterSum | AST.cpp:205-256 | a step on `(1+2)*(3/0)` folds the sum to `"3.00"`, then throws the division error and keeps that fold |
| Examples.MinusGroupsLeft | AST.cpp:126-131 | `1-2-3` converts to `1 2 - 3 -`, so equal precedences group to the left |

## Left out

- Floating point: values are exact reals. Rounding of `+ - * /` in doubles, overflow to infinity, `stod`'s `out_of_range`, and its hexadecimal, `inf` and `nan` inputs are not modelled. A negative zero does not exist, so `FormatNumber` never prints "-0.00" for one.
- Numbers.FormatNumber: ties are decided on the exact decimal value. The C++ formatting decides them on the nearest double.
- Memory management: the destructors of `AST` and `BNode`, every `delete`/`delete[]`, and the leaks on the exception paths are absent. Garbage collection stands in for them.
- `StringArray` is copied by value in C++ (a shallow copy of the pointer). The model hands out fresh buffer objects instead, and does not model the aliasing this creates.
- `AST(string)` is `AST.Create`: a static factory that starts from `AST.Empty` and returns the error instead of throwing. A partially built engine is never visible after an error, as in C++.
- Argument order: `calculateOp(op, calculateRecursive(left), calculateRecursive(right))` evaluates its arguments in an unspecified order. The model evaluates left first, which decides which error is reported when both operands fail.
- ShuntingYard.InfixToPostfixSpec: it fixes which tokens the output holds, not where the operators go. Their placement is proved for the operands and binary operators of `Placement.InfixToPostfixPlacement`. With parentheses or unary minus it is shown only by the examples.
- Nodes.SimplifyAtDepth: the `currentDepth` and `targetDepth` arguments are passed along but unused, as in the C++ code.
- Wrappers.Message: the exception texts are recorded but nothing is proved about them. The `stod` exception's text is implementation-defined and is shortened to "stod".
- The Qt window (`mainwindow.cpp`, `MainWindow.h`) and its history, drawing and layout are not part of this model.
