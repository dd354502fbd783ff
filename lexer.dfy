/**
 * Lexical layer of the expression engine: the operator table, the tokenizer's
 * specification and the unary-minus resolver's specification.
 */
module Lexer {

  /** `isOperator`: the four binary operators and the unary-minus tag. */
  predicate IsOperator(part: string)
  {
    part == "+" || part == "-" || part == "*" || part == "/" || part == "_NEG_"
  }

  /** `getPrecedence`: unary minus binds tightest, then `* /`, then `+ -`;
      everything else (parentheses, operands) has precedence 0. */
  function Precedence(op: string): (p: nat)
    ensures p <= 3
    ensures p > 0 <==> IsOperator(op)
  {
    if op == "_NEG_" then 3
    else if op == "*" || op == "/" then 2
    else if op == "+" || op == "-" then 1
    else 0
  }

  /** A character the tokenizer always emits as a token of its own. */
  predicate IsSymbol(c: char)
  {
    c == '+' || c == '-' || c == '*' || c == '/' || c == '(' || c == ')'
  }

  predicate IsSymbolToken(t: string)
  {
    |t| == 1 && IsSymbol(t[0])
  }

  /** A non-empty run of non-symbol characters (spaces included). */
  predicate IsRun(t: string)
  {
    t != [] && forall k :: 0 <= k < |t| ==> !IsSymbol(t[k])
  }

  function Concat(ts: seq<string>): string
  {
    if ts == [] then [] else ts[0] + Concat(ts[1..])
  }

  /** `ts` cuts `s` into symbol tokens and maximal runs. */
  ghost predicate IsTokenization(ts: seq<string>, s: string)
  {
    && Concat(ts) == s
    && (forall i :: 0 <= i < |ts| ==> IsSymbolToken(ts[i]) || IsRun(ts[i]))
    && (forall i :: 0 <= i < |ts| - 1 ==> !(IsRun(ts[i]) && IsRun(ts[i + 1])))
  }

  /** The end of the run of non-symbol characters starting at `i`. */
  function RunEnd(s: string, i: nat): (j: nat)
    requires i <= |s|
    ensures i <= j <= |s|
    ensures forall k :: i <= k < j ==> !IsSymbol(s[k])
    ensures j < |s| ==> IsSymbol(s[j])
    decreases |s| - i
  {
    if i == |s| || IsSymbol(s[i]) then i else RunEnd(s, i + 1)
  }

  /** The tokens `tokenize` produces for `s`, read from the front. */
  function Tokens(s: string): seq<string>
    decreases |s|
  {
    if s == [] then []
    else if IsSymbol(s[0]) then [s[..1]] + Tokens(s[1..])
    else var k := RunEnd(s, 1); [s[..k]] + Tokens(s[k..])
  }

  lemma {:induction false} ConcatAppend(ts: seq<string>, t: string)
    ensures Concat(ts + [t]) == Concat(ts) + t
  {
    if ts != [] {
      assert (ts + [t])[1..] == ts[1..] + [t];
      ConcatAppend(ts[1..], t);
    }
  }

  /** `Tokens(s)` cuts `s` into symbol tokens and maximal runs: the tokens
      concatenate back to `s`, none is empty, and no two runs are adjacent. */
  lemma {:induction false} TokensAreTokenization(s: string)
    ensures IsTokenization(Tokens(s), s)
    decreases |s|
  {
    if s != [] {
      var k := if IsSymbol(s[0]) then 1 else RunEnd(s, 1);
      var rest := Tokens(s[k..]);
      TokensAreTokenization(s[k..]);
      assert Tokens(s) == [s[..k]] + rest;
      assert s == s[..k] + s[k..];
      if !IsSymbol(s[0]) && rest != [] {
        assert k < |s|;
        assert rest[0][0] == s[k] by {
          assert Concat(rest) == rest[0] + Concat(rest[1..]);
        }
        assert !IsRun(rest[0]);
      }
    }
  }

  /** In a tokenization, the second token starts right after the first. */
  lemma NextTokenStart(ts: seq<string>, s: string)
    requires IsTokenization(ts, s) && ts != [] && |ts[0]| < |s|
    ensures |ts| >= 2 && ts[1] != [] && ts[1][0] == s[|ts[0]|]
    ensures IsRun(ts[0]) ==> !IsRun(ts[1])
  {
    assert s == ts[0] + Concat(ts[1..]);
    assert Concat(ts[1..]) != [];
    assert ts[1..] != [];
    assert Concat(ts[1..]) == ts[1] + Concat(ts[2..]);
    assert ts[1] != [] by { assert IsSymbolToken(ts[1]) || IsRun(ts[1]); }
  }

  /** There is only one way to cut a string into symbol tokens and maximal
      runs, so any such cut is `Tokens(s)`. */
  lemma {:induction false} TokenizationUnique(ts: seq<string>, s: string)
    requires IsTokenization(ts, s)
    ensures ts == Tokens(s)
    decreases |s|
  {
    if ts == [] {
    } else {
      var t := ts[0];
      assert s == t + Concat(ts[1..]);
      assert t != [];
      var k := if IsSymbol(s[0]) then 1 else RunEnd(s, 1);
      if IsSymbol(s[0]) {
        assert !IsRun(t) by { assert t[0] == s[0]; }
        assert t == s[..1];
      } else {
        assert IsRun(t) by { assert t[0] == s[0]; }
        // The run ends where a symbol or the end of s starts.
        assert forall m :: 0 <= m < |t| ==> s[m] == t[m];
        if |t| < k {
          NextTokenStart(ts, s);
          assert false;
        }
        assert t == s[..k];
      }
      assert Concat(ts[1..]) == s[k..];
      assert IsTokenization(ts[1..], s[k..]);
      TokenizationUnique(ts[1..], s[k..]);
    }
  }

  /** The tokens `tokenize` would hold if it flushed `current` now. */
  function Pending(parts: seq<string>, current: string): seq<string>
  {
    if current == [] then parts else parts + [current]
  }

  /** The tokenizer's loop invariant after reading `s`: flushing the pending
      run would give a tokenization of `s`, and the emitted tokens end with a
      symbol (a run is only emitted right before a symbol). */
  ghost predicate TokenizerState(parts: seq<string>, current: string, s: string)
  {
    && IsTokenization(Pending(parts, current), s)
    && (current == [] || IsRun(current))
    && (parts == [] || IsSymbolToken(parts[|parts| - 1]))
  }

  /** A symbol character flushes the pending run and is emitted on its own. */
  lemma TokenizeSymbol(parts: seq<string>, current: string, s: string, c: char)
    requires TokenizerState(parts, current, s) && IsSymbol(c)
    ensures TokenizerState(Pending(parts, current) + [[c]], [], s + [c])
  {
    var q := Pending(parts, current);
    ConcatAppend(q, [c]);
    var q' := q + [[c]];
    assert !IsRun([c]) by { assert [c][0] == c; }
    assert forall i :: 0 <= i < |q'| - 1 ==> !(IsRun(q'[i]) && IsRun(q'[i + 1])) by {
      forall i | 0 <= i < |q'| - 1
        ensures !(IsRun(q'[i]) && IsRun(q'[i + 1]))
      {
        if i < |q| - 1 {
          assert q'[i] == q[i] && q'[i + 1] == q[i + 1];
        } else {
          assert q'[i + 1] == [c];
        }
      }
    }
  }

  /** Any other character extends the pending run. */
  lemma TokenizeRunChar(parts: seq<string>, current: string, s: string, c: char)
    requires TokenizerState(parts, current, s) && !IsSymbol(c)
    ensures TokenizerState(parts, current + [c], s + [c])
  {
    var run := current + [c];
    assert IsRun(run) by {
      forall k | 0 <= k < |run| ensures !IsSymbol(run[k]) {
        if k < |current| { assert run[k] == current[k]; }
      }
    }
    ConcatAppend(parts, run);
    if current != [] {
      ConcatAppend(parts, current);
      assert Concat(parts + [run]) == Concat(parts) + current + [c];
    }
    var q' := parts + [run];
    assert forall i :: 0 <= i < |q'| ==> IsSymbolToken(q'[i]) || IsRun(q'[i]) by {
      forall i | 0 <= i < |q'| ensures IsSymbolToken(q'[i]) || IsRun(q'[i]) {
        if i < |parts| { assert q'[i] == Pending(parts, current)[i]; }
      }
    }
    assert forall i :: 0 <= i < |q'| - 1 ==> !(IsRun(q'[i]) && IsRun(q'[i + 1])) by {
      forall i | 0 <= i < |q'| - 1
        ensures !(IsRun(q'[i]) && IsRun(q'[i + 1]))
      {
        if i < |parts| - 1 {
          assert q'[i] == Pending(parts, current)[i] && q'[i + 1] == Pending(parts, current)[i + 1];
        } else {
          assert q'[i] == parts[|parts| - 1];
          assert !IsRun(parts[|parts| - 1]);
        }
      }
    }
  }

  /** Whether a `-` whose resolved predecessors are `prev` is a negation:
      it is the first token, or follows an operator (including an already
      resolved `_NEG_`) or an opening parenthesis. */
  predicate UnaryContext(prev: seq<string>)
  {
    prev == [] || IsOperator(prev[|prev| - 1]) || prev[|prev| - 1] == "("
  }

  function Retag(tok: string, prev: seq<string>): string
  {
    if tok == "-" && UnaryContext(prev) then "_NEG_" else tok
  }

  /** The tokens `handleUnaryOperators` produces: one left-to-right pass in
      which the decision at position i sees the resolved token i-1. */
  function ResolveUnary(ts: seq<string>): (rs: seq<string>)
    ensures |rs| == |ts|
  {
    if ts == [] then []
    else
      var prev := ResolveUnary(ts[..|ts| - 1]);
      prev + [Retag(ts[|ts| - 1], prev)]
  }

  lemma {:induction false} ResolveUnaryPrefix(ts: seq<string>, n: nat)
    requires n <= |ts|
    ensures ResolveUnary(ts)[..n] == ResolveUnary(ts[..n])
    decreases |ts|
  {
    if n < |ts| {
      assert ts[..|ts| - 1][..n] == ts[..n];
      ResolveUnaryPrefix(ts[..|ts| - 1], n);
    } else {
      assert ts[..n] == ts;
    }
  }

  /** Position k of `rs` is position k of `ts`, except that a `-` at the
      start or after a resolved operator or `(` reads `_NEG_`. */
  ghost predicate ResolvedAt(ts: seq<string>, rs: seq<string>, k: int)
    requires 0 <= k < |ts| == |rs|
  {
    rs[k] == (if ts[k] == "-" && (k == 0 || IsOperator(rs[k - 1]) || rs[k - 1] == "(") then "_NEG_" else ts[k])
  }

  /** Position i of the result differs from the input only by turning a `-`
      into `_NEG_`, which happens exactly when i = 0 or the resolved token
      i-1 is an operator or `(`. */
  lemma ResolveUnaryAt(ts: seq<string>, i: nat)
    requires i < |ts|
    ensures ResolvedAt(ts, ResolveUnary(ts), i)
    ensures ResolveUnary(ts)[i] != ts[i] ==> ts[i] == "-" && ResolveUnary(ts)[i] == "_NEG_"
  {
    var rs := ResolveUnary(ts);
    ResolveUnaryPrefix(ts, i + 1);
    ResolveUnaryPrefix(ts, i);
    var p := ts[..i + 1];
    assert p[..|p| - 1] == ts[..i];
    assert ResolveUnary(p) == ResolveUnary(ts[..i]) + [Retag(ts[i], ResolveUnary(ts[..i]))];
    assert rs[i] == ResolveUnary(p)[i];
    if i > 0 {
      assert rs[i - 1] == rs[..i][i - 1];
    }
  }

  /** Every position of `ResolveUnary(ts)` is resolved that way. */
  lemma ResolveUnaryPointwise(ts: seq<string>)
    ensures forall k :: 0 <= k < |ts| ==> ResolvedAt(ts, ResolveUnary(ts), k)
  {
    forall k | 0 <= k < |ts|
      ensures ResolvedAt(ts, ResolveUnary(ts), k)
    {
      ResolveUnaryAt(ts, k);
    }
  }
}
