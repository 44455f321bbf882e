/** `__eval` and `eval` of src/eval.h: the evaluation of a tree with the
    header's zero test, and the whole run from text to value, including the
    two ways the header ends the process instead of returning. */
module StandaloneEval {
  import opened Wrappers
  import opened Tokens
  import opened Scanner
  import opened Syntax
  import Grammar
  import StandaloneParser
  import Evaluator

  /** Why the header ends the process. An unsupported operand carries the
      lexer's `pos` at that moment: the message underlines the expression
      with a caret printed `pos + 1` columns wide. */
  datatype Abort = UnsupportedOperand(pos: nat) | DivisionByZero

  /** The bound of the zero test in `__eval`: 10e-7, that is 10^-6. */
  const Tolerance: real := 0.000001

  function Abs(x: real): real
  {
    if x < 0.0 then -x else x
  }

  predicate NearZero(d: real)
  {
    Abs(d) < Tolerance
  }

  /** __eval. `pow` stands for the C library's `pow`. A division whose
      divisor is within 10^-6 of zero aborts, so the one division performed
      is never by zero; that is the only way evaluation fails. An error node
      is 0. */
  function EvalTree(e: Expr, pow: (real, real) -> real): (r: Result<real, Abort>)
    ensures r.Failure? ==> r.error == DivisionByZero
    ensures !Evaluator.HasDivision(e) ==> r.Success?
  {
    match e
    case ErrorNode => Success(0.0)
    case NumberNode(v) => Success(v)
    case Positive(x) => EvalTree(x, pow)
    case Negative(x) =>
      var v :- EvalTree(x, pow);
      Success(-v)
    case Add(l, r) =>
      var a :- EvalTree(l, pow);
      var b :- EvalTree(r, pow);
      Success(a + b)
    case Sub(l, r) =>
      var a :- EvalTree(l, pow);
      var b :- EvalTree(r, pow);
      Success(a - b)
    case Mul(l, r) =>
      var a :- EvalTree(l, pow);
      var b :- EvalTree(r, pow);
      Success(Evaluator.Product(a, b))
    case Div(l, r) =>
      var a :- EvalTree(l, pow);
      var b :- EvalTree(r, pow);
      if NearZero(b) then Failure(DivisionByZero) else Success(Evaluator.Quotient(a, b))
    case Pow(l, r) =>
      var a :- EvalTree(l, pow);
      var b :- EvalTree(r, pow);
      Success(pow(a, b))
  }

  /** Every divisor in the tree, with the value the split version's
      evaluator gives it, is at least 10^-6 away from zero. */
  ghost predicate Guarded(e: Expr, pow: (real, real) -> real)
  {
    match e
    case ErrorNode => true
    case NumberNode(_) => true
    case Positive(x) => Guarded(x, pow)
    case Negative(x) => Guarded(x, pow)
    case Add(l, r) => Guarded(l, pow) && Guarded(r, pow)
    case Sub(l, r) => Guarded(l, pow) && Guarded(r, pow)
    case Mul(l, r) => Guarded(l, pow) && Guarded(r, pow)
    case Div(l, r) =>
      && Guarded(l, pow) && Guarded(r, pow)
      && var d := Evaluator.EvalExpression(r, pow); d.Some? && !NearZero(d.value)
    case Pow(l, r) => Guarded(l, pow) && Guarded(r, pow)
  }

  /** The header's evaluator returns a value exactly when every divisor is
      away from zero, and that value is the one the split version's
      evaluator computes: the two differ only in the zero test. */
  lemma {:induction false} HeaderAgreesWithSplit(e: Expr, pow: (real, real) -> real)
    ensures EvalTree(e, pow).Success? <==> Guarded(e, pow)
    ensures EvalTree(e, pow).Success? ==> Evaluator.EvalExpression(e, pow) == Some(EvalTree(e, pow).value)
  {
    match e
    case ErrorNode =>
    case NumberNode(_) =>
    case Positive(x) =>
      HeaderAgreesWithSplit(x, pow);
    case Negative(x) =>
      HeaderAgreesWithSplit(x, pow);
    case _ =>
      HeaderAgreesWithSplit(e.left, pow);
      HeaderAgreesWithSplit(e.right, pow);
  }

  /** What `eval` does with `input`: parse the token stream from its first
      token at the lowest precedence and evaluate the tree. The parse stops
      at an error token, which no parse step consumes; the header has then
      already ended the process, with `pos` counting the characters of the
      tokens up to and including that one. Tokens after the parse are never
      read. A value comes back only when the parse stopped at something
      other than an error token and every divisor of the tree is away from
      zero. */
  function Evaluate(input: string, pow: (real, real) -> real): (r: Result<real, Abort>)
    ensures var ts := StreamOf(input, false);
      var parsed := Grammar.ParseExpr(ts, 0, PrecMin);
      r.Success? ==> Grammar.KindAt(ts, parsed.next) != Error && Guarded(parsed.tree, pow)
  {
    var toks := TokensFrom(input, 0, false);
    var ts := StreamOf(input, false);
    var parsed := Grammar.ParseExpr(ts, 0, PrecMin);
    if Grammar.KindAt(ts, parsed.next) == Error then
      Failure(UnsupportedOperand(Width(toks, parsed.next + 1)))
    else
      HeaderAgreesWithSplit(parsed.tree, pow);
      EvalTree(parsed.tree, pow)
  }

  /** eval: a lexer and a parser at the start of the expression, the first
      token pulled, one expression parsed at the lowest precedence, and the
      tree evaluated. The parser state is dropped at the end. */
  method Eval(expression: string, pow: (real, real) -> real) returns (r: Result<real, Abort>)
    ensures r == Evaluate(expression, pow)
  {
    var p := new StandaloneParser.Parser(expression);
    p.Advance();
    var tree := p.ParseExpr(PrecMin);
    p.SeesCurrent();
    if p.cur.kind == Error {
      p.ErrorPosition();
      return Failure(UnsupportedOperand(p.lex.pos));
    }
    r := EvalTree(tree, pow);
  }

  /** Where no error token comes before index `k` in the header's stream,
      the two streams show at `k` the same token, or an error token and an
      identifier. */
  lemma StreamsAgreeAt(input: string, k: nat)
    requires Grammar.NoErrorBetween(StreamOf(input, false), 0, k)
    ensures var ts, vs := StreamOf(input, false), StreamOf(input, true);
      Grammar.Cur(ts, k) == Grammar.Cur(vs, k)
        || (Grammar.KindAt(ts, k) == Error && Grammar.KindAt(vs, k) == Identifier)
  {
    var hs, us := TokensFrom(input, 0, false), TokensFrom(input, 0, true);
    forall j | 0 <= j < k && j < |hs|
      ensures hs[j].kind != Error
    {
      LexemeAt(input, hs, j);
      assert Grammar.KindAt(StreamOf(input, false), j) != Error;
    }
    TokensUpToFirstLetter(input, 0);
    SameUpToLetterAt(hs, us, k);
    if k < |hs| {
      LexemeAt(input, hs, k);
      LexemeAt(input, us, k);
    }
  }

  /** Up to and including the first error token of the header's stream,
      the two streams agree in the sense of `Grammar.Agree`: the same
      tokens, and at that error token an identifier, both inert kinds. */
  lemma StreamsAgreeUpTo(input: string, n: nat)
    requires Grammar.NoErrorBetween(StreamOf(input, false), 0, n)
    ensures Grammar.Agree(StreamOf(input, false), StreamOf(input, true), n + 1)
  {
    var ts, vs := StreamOf(input, false), StreamOf(input, true);
    forall k | 0 <= k < n + 1
      ensures Grammar.Cur(ts, k) == Grammar.Cur(vs, k)
        || (Grammar.Inert(Grammar.KindAt(ts, k)) && Grammar.Inert(Grammar.KindAt(vs, k)))
    {
      StreamsAgreeAt(input, k);
    }
  }

  /** src/eval.h and the split version with ADVANCE as intended compute the
      same: where the header returns a value, eval_ returns that value, and
      where eval_ meets a division by exactly zero, the header has aborted.
      A letter makes no difference: the header aborts at the first one it
      reaches, and eval_ stops there, at an identifier. */
  lemma SplitAgreesWithHeader(input: string, pow: (real, real) -> real)
    ensures var h, s := Evaluate(input, pow), Evaluator.Evaluate(input, true, pow);
      && (h.Success? ==> s == Some(h.value))
      && (s.None? ==> h.Failure?)
  {
    var ts := StreamOf(input, false);
    Grammar.ExprConsumesNoError(ts, 0, PrecMin);
    StreamsAgreeUpTo(input, Grammar.ParseExpr(ts, 0, PrecMin).next);
    Grammar.ExprLooksUpTo(ts, StreamOf(input, true), 0, PrecMin);
    HeaderAgreesWithSplit(Grammar.ParseExpr(ts, 0, PrecMin).tree, pow);
  }

  // ---------------------------------------------------------------------
  // When the run aborts

  /** An unsupported operand is reported for the token the parse stops at,
      exactly when that token is an error token; it is the first error
      token of the input, since the parse consumed none before it, and the
      position counts the characters of every token up to it. */
  lemma UnsupportedOperandAtFirstError(input: string, pow: (real, real) -> real)
    ensures var ts := StreamOf(input, false);
      var n := Grammar.ParseExpr(ts, 0, PrecMin).next;
      var r := Evaluate(input, pow);
      && (r.Failure? && r.error.UnsupportedOperand? <==> Grammar.KindAt(ts, n) == Error)
      && (Grammar.KindAt(ts, n) == Error ==>
            && Grammar.NoErrorBetween(ts, 0, n)
            && n < |TokensFrom(input, 0, false)|
            && r.error.pos == Width(TokensFrom(input, 0, false), n + 1))
  {
    var ts := StreamOf(input, false);
    var n := Grammar.ParseExpr(ts, 0, PrecMin).next;
    Grammar.ExprConsumesNoError(ts, 0, PrecMin);
    if Grammar.KindAt(ts, n) != Error {
      var r := EvalTree(Grammar.ParseExpr(ts, 0, PrecMin).tree, pow);
      assert Evaluate(input, pow) == r;
    }
  }

  /** An input whose tokens hold no error token never aborts with an
      unsupported operand: it evaluates its tree, and aborts only for a
      divisor near zero. */
  lemma NoErrorTokenNoAbort(input: string, pow: (real, real) -> real)
    requires forall k | 0 <= k < |StreamOf(input, false)| :: StreamOf(input, false)[k].kind != Error
    ensures var tree := Grammar.ParseExpr(StreamOf(input, false), 0, PrecMin).tree;
      Evaluate(input, pow) == EvalTree(tree, pow)
  {
  }

  /** A division abort happens exactly when the parse meets no error token
      and some divisor of the tree is near zero. */
  lemma DivisionAbort(input: string, pow: (real, real) -> real)
    ensures var ts := StreamOf(input, false);
      var parsed := Grammar.ParseExpr(ts, 0, PrecMin);
      (Evaluate(input, pow) == Failure(DivisionByZero)) <==>
        Grammar.KindAt(ts, parsed.next) != Error && !Guarded(parsed.tree, pow)
  {
    var ts := StreamOf(input, false);
    HeaderAgreesWithSplit(Grammar.ParseExpr(ts, 0, PrecMin).tree, pow);
  }

  // ---------------------------------------------------------------------
  // Where the caret points

  /** The message prints a tab and the expression in quotes on one line,
      and on the next a tab and `pos + 1` columns ending in `^`. Column 0
      after the tab holds the opening quote, so the caret sits under
      character `pos - 1` of the expression. */
  function CaretIndex(pos: nat): int
  {
    pos - 1
  }

  /** `pos` counts the characters of the tokens only, so whitespace before
      the error token moves the caret off it: for ` @` the caret sits under
      the space (index 0) while the `@` is at index 1. */
  lemma CaretMissesAfterSpace(x: char, pow: (real, real) -> real)
    requires CharKind(x) == Error && x != '\0' && !IsSpace(x)
    ensures Evaluate([' ', x], pow) == Failure(UnsupportedOperand(1))
    ensures CaretIndex(1) == 0 && [' ', x][1] == x
  {
    var input := [' ', x];
    assert SkipSpace(input, 0) == 1;
    assert TokensFrom(input, 2, false) == [];
    assert TokensFrom(input, 0, false) == [Token(Error, 1, 1)];
    assert input[1..2] == [x];
    var ts := StreamOf(input, false);
    assert ts == [Lexeme(Error, [x])];
    Grammar.ErrorStops(ts, 0, PrecMin);
    assert Width(TokensFrom(input, 0, false), 1) == 1;
  }

  /** `Evaluate` with the report the message evidently intends: the lexer's
      cursor, which counts whitespace too, instead of `pos`. */
  function EvaluateAtCursor(input: string, pow: (real, real) -> real): (r: Result<real, Abort>)
  {
    var ends := EndsFrom(input, 0, false);
    var ts := StreamOf(input, false);
    var parsed := Grammar.ParseExpr(ts, 0, PrecMin);
    if Grammar.KindAt(ts, parsed.next) == Error && parsed.next < |ends| then
      Failure(UnsupportedOperand(ends[parsed.next]))
    else
      EvalTree(parsed.tree, pow)
  }

  /** Reporting the cursor changes only the position: the run aborts
      for the same reasons, and otherwise has the same outcome. */
  lemma CursorChangesOnlyPosition(input: string, pow: (real, real) -> real)
    ensures var r, w := EvaluateAtCursor(input, pow), Evaluate(input, pow);
      && (r.Failure? && r.error.UnsupportedOperand? <==> w.Failure? && w.error.UnsupportedOperand?)
      && (!(r.Failure? && r.error.UnsupportedOperand?) ==> r == w)
  {
    var ts := StreamOf(input, false);
    var parsed := Grammar.ParseExpr(ts, 0, PrecMin);
    UnsupportedOperandAtFirstError(input, pow);
    EndsMatchTokens(input, 0, false);
    if Grammar.KindAt(ts, parsed.next) != Error {
      assert EvaluateAtCursor(input, pow) == EvalTree(parsed.tree, pow);
    }
  }

  /** Reporting the cursor puts the caret exactly under the error token,
      which is one character wide, whatever whitespace precedes it. */
  lemma CursorCaretUnderError(input: string, pow: (real, real) -> real)
    ensures var r := EvaluateAtCursor(input, pow);
      r.Failure? && r.error.UnsupportedOperand? ==>
        && 0 <= CaretIndex(r.error.pos) < |input|
        && Scan(input, CaretIndex(r.error.pos), false).token == Token(Error, CaretIndex(r.error.pos), 1)
  {
    var toks, ends := TokensFrom(input, 0, false), EndsFrom(input, 0, false);
    var ts := StreamOf(input, false);
    var n := Grammar.ParseExpr(ts, 0, PrecMin).next;
    if Grammar.KindAt(ts, n) == Error && n < |ends| {
      EndsMatchTokens(input, 0, false);
      LexemeAt(input, toks, n);
      ErrorTokenShape(input, n);
    }
  }

  // ---------------------------------------------------------------------
  // Examples

  /** The value of a digit character. */
  function Digit(d: char): real
  {
    (d as int - '0' as int) as real
  }

  /** A one-character number reads as its digit. */
  lemma DigitValueOf(d: char)
    requires IsDigit(d)
    ensures NumberValue([d]) == Digit(d)
  {
    assert DotIndex([d]) == 1;
    assert [d][..0] == [];
    assert DigitsValue([d]) == DigitsValue([d][..0]) * 10 + DigitValue(d);
  }

  /** An empty input, and a sign with nothing after it, parse to an error
      node (under the sign), which evaluates to 0. */
  lemma EmptyOperandIsZero(sign: char, pow: (real, real) -> real)
    requires sign == '+' || sign == '-'
    ensures Evaluate([], pow) == Success(0.0)
    ensures Evaluate([sign], pow) == Success(0.0)
  {
    OneCharStream([]);
    OneCharStream([sign]);
    var ts := StreamOf([sign], false);
    assert ts == [Lexeme(SymbolKind(sign), [sign])];
    assert Grammar.ParsePrefix(ts, 1) == Grammar.Parsed(ErrorNode, 1);
    assert Grammar.ParseOperand(ts, 0).next == 1;
    assert Grammar.ParsePrefix(ts, 0).next == 1;
    assert Grammar.ParseExpr(ts, 0, PrecMin).next == 1;
    assert Grammar.ParseExpr(ts, 0, PrecMin).tree in {Positive(ErrorNode), Negative(ErrorNode)};
  }

  /** The lexemes of five characters that each form a token of their own. */
  lemma FiveCharStream(a: char, op1: char, b: char, op2: char, c: char)
    requires IsDigit(a) && IsDigit(b) && IsDigit(c)
    requires IsOperator(SymbolKind(op1)) && IsOperator(SymbolKind(op2))
    ensures StreamOf([a, op1, b, op2, c], false) ==
      [Lexeme(Number, [a]), Lexeme(SymbolKind(op1), [op1]), Lexeme(Number, [b]),
       Lexeme(SymbolKind(op2), [op2]), Lexeme(Number, [c])]
  {
    var input := [a, op1, b, op2, c];
    assert OneCharTokens(input) by {
      forall k | 0 <= k < 5
        ensures IsDigit(input[k]) <==> k % 2 == 0
        ensures input[k] != '\0' && !IsSpace(input[k]) && input[k] != '.'
      {
      }
    }
    OneCharStream(input);
  }

  /** `a op1 b op2 c`, digits and operators written without spaces, where
      op2 binds tighter than op1, evaluates as a op1 (b op2 c). */
  lemma TighterOperatorFirst(a: char, op1: char, b: char, op2: char, c: char, pow: (real, real) -> real)
    requires IsDigit(a) && IsDigit(b) && IsDigit(c)
    requires IsOperator(SymbolKind(op1)) && IsOperator(SymbolKind(op2))
    requires PrecedenceOf(SymbolKind(op1)) < PrecedenceOf(SymbolKind(op2))
    ensures Evaluate([a, op1, b, op2, c], pow) == EvalTree(
      Binary(SymbolKind(op1), NumberNode(Digit(a)), Binary(SymbolKind(op2), NumberNode(Digit(b)), NumberNode(Digit(c)))), pow)
  {
    FiveCharStream(a, op1, b, op2, c);
    Grammar.TighterGroupsRight(StreamOf([a, op1, b, op2, c], false), 0, PrecMin);
    DigitValueOf(a);
    DigitValueOf(b);
    DigitValueOf(c);
  }

  /** A sum whose right operand divides by zero aborts. */
  lemma SumOfQuotient(x: real, y: real, pow: (real, real) -> real)
    ensures EvalTree(Add(NumberNode(x), Div(NumberNode(y), NumberNode(0.0))), pow) == Failure(DivisionByZero)
  {
    assert EvalTree(Div(NumberNode(y), NumberNode(0.0)), pow) == Failure(DivisionByZero);
  }

  /** `a+b/0` aborts: the divisor of the inner division is zero. */
  lemma NestedDivisionByZero(a: char, plus: char, b: char, slash: char, zero: char, pow: (real, real) -> real)
    requires IsDigit(a) && IsDigit(b) && zero == '0'
    requires SymbolKind(plus) == Plus && SymbolKind(slash) == Slash
    ensures Evaluate([a, plus, b, slash, zero], pow) == Failure(DivisionByZero)
  {
    TighterOperatorFirst(a, plus, b, slash, zero, pow);
    SumOfQuotient(Digit(a), Digit(b), pow);
  }

  /** A digit followed by a character that is no token of the language
      (such as `@`) aborts at that character with `pos` 2. */
  lemma UnknownCharacter(a: char, x: char, pow: (real, real) -> real)
    requires IsDigit(a) && CharKind(x) == Error
    requires x != '\0' && !IsSpace(x) && x != '.'
    ensures Evaluate([a, x], pow) == Failure(UnsupportedOperand(2))
  {
    var input := [a, x];
    OneCharStream(input);
    OneCharTokensFrom(input, 0);
    var ts := StreamOf(input, false);
    var toks := TokensFrom(input, 0, false);
    assert ts == [Lexeme(Number, [a]), Lexeme(Error, [x])];
    Grammar.NumberAlone(ts, 0, PrecMin);
    assert Width(toks, 1) == 1;
  }
}
