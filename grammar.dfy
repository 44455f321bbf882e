/** The parsing algorithm shared by src/eval.h and src/parser.c, stated over
    a stream of lexemes: precedence climbing with a prefix parser that
    handles numbers, parentheses, unary + and -, and implicit multiplication.
    `i` is the index of the current token; reading at or past the end of the
    stream gives EOF, as the lexers keep returning EOF there. */
module Grammar {
  import opened Tokens
  import opened Scanner
  import opened Syntax

  /** A tree and the index of the token after it. */
  datatype Parsed = Parsed(tree: Expr, next: nat)

  function Cur(ts: seq<Lexeme>, i: nat): Lexeme
  {
    if i < |ts| then ts[i] else Lexeme(Eof, [])
  }

  function KindAt(ts: seq<Lexeme>, i: nat): TokenKind
  {
    Cur(ts, i).kind
  }

  /** Tokens that start an operand with no operator before it. */
  predicate StartsOperand(k: TokenKind)
  {
    k == Number || k == LeftParen
  }

  /** Tokens from which a prefix position can be parsed. */
  predicate StartsPrefix(k: TokenKind)
  {
    k == Number || k == LeftParen || k == Plus || k == Minus
  }

  /** The switch of parse_prefix_expr: a number, a parenthesised expression
      whose `)` is consumed only if present, or a unary + or - applied to a
      further prefix parse. Any other token yields an error node and is not
      consumed; a token that starts a prefix always is. */
  function ParseOperand(ts: seq<Lexeme>, i: nat): (r: Parsed)
    requires i <= |ts|
    ensures i <= r.next <= |ts|
    ensures StartsPrefix(KindAt(ts, i)) ==> i < r.next
    ensures !StartsPrefix(KindAt(ts, i)) ==> r == Parsed(ErrorNode, i)
    decreases |ts| - i, 0
  {
    var tok := Cur(ts, i);
    match tok.kind
    case Number => Parsed(NumberNode(NumberValue(tok.text)), i + 1)
    case LeftParen =>
      var inner := ParseExpr(ts, i + 1, PrecMin);
      if KindAt(ts, inner.next) == RightParen then Parsed(inner.tree, inner.next + 1) else inner
    case Plus =>
      var operand := ParsePrefix(ts, i + 1);
      Parsed(Positive(operand.tree), operand.next)
    case Minus =>
      var operand := ParsePrefix(ts, i + 1);
      Parsed(Negative(operand.tree), operand.next)
    case _ => Parsed(ErrorNode, i)
  }

  /** parse_prefix_expr: an operand, then, when a number or `(` follows
      directly, a multiplication whose right side is parsed at Div. */
  function ParsePrefix(ts: seq<Lexeme>, i: nat): (r: Parsed)
    requires i <= |ts|
    ensures i <= r.next <= |ts|
    decreases |ts| - i, 1
  {
    var operand := ParseOperand(ts, i);
    if StartsOperand(KindAt(ts, operand.next)) then
      var right := ParseExpr(ts, operand.next, PrecDiv);
      Parsed(Mul(operand.tree, right.tree), right.next)
    else
      operand
  }

  /** parse_infix_expr, called after the operator token `op` was consumed:
      the right side is parsed at the operator's own precedence. */
  function ParseInfix(ts: seq<Lexeme>, op: TokenKind, left: Expr, i: nat): (r: Parsed)
    requires IsOperator(op) && i <= |ts|
    ensures i <= r.next <= |ts|
    decreases |ts| - i, 4
  {
    var right := ParseExpr(ts, i, PrecedenceOf(op));
    Parsed(Binary(op, left, right.tree), right.next)
  }

  /** The loop of parser_parse_expr: while the current token is an operator
      binding strictly tighter than `prec`, consume it and combine. It stops
      at a token that binds no tighter than `prec`. */
  function ParseLoop(ts: seq<Lexeme>, left: Expr, i: nat, prec: Precedence): (r: Parsed)
    requires i <= |ts|
    ensures i <= r.next <= |ts|
    ensures PrecedenceOf(KindAt(ts, r.next)) <= prec
    decreases |ts| - i, 2
  {
    var op := KindAt(ts, i);
    if PrecedenceOf(op) == PrecMin || prec >= PrecedenceOf(op) then
      Parsed(left, i)
    else
      var combined := ParseInfix(ts, op, left, i + 1);
      ParseLoop(ts, combined.tree, combined.next, prec)
  }

  /** parser_parse_expr: a prefix operand followed by the infix loop. The
      parse never moves backwards and stops at a token that binds no tighter
      than `prec`. */
  function ParseExpr(ts: seq<Lexeme>, i: nat, prec: Precedence): (r: Parsed)
    requires i <= |ts|
    ensures i <= r.next <= |ts|
    ensures PrecedenceOf(KindAt(ts, r.next)) <= prec
    decreases |ts| - i, 3
  {
    var left := ParsePrefix(ts, i);
    ParseLoop(ts, left.tree, left.next, prec)
  }

  // ---------------------------------------------------------------------
  // One step at a time
  //
  // Each parse function's result, as a predicate, and how a result is
  // built from the results of the steps it takes. The parsers follow the
  // functions through these lemmas alone.

  predicate OperandYields(ts: seq<Lexeme>, i: nat, r: Parsed)
    requires i <= |ts|
  {
    ParseOperand(ts, i) == r
  }

  predicate PrefixYields(ts: seq<Lexeme>, i: nat, r: Parsed)
    requires i <= |ts|
  {
    ParsePrefix(ts, i) == r
  }

  predicate InfixYields(ts: seq<Lexeme>, op: TokenKind, left: Expr, i: nat, r: Parsed)
    requires IsOperator(op) && i <= |ts|
  {
    ParseInfix(ts, op, left, i) == r
  }

  predicate LoopYields(ts: seq<Lexeme>, left: Expr, i: nat, prec: Precedence, r: Parsed)
    requires i <= |ts|
  {
    ParseLoop(ts, left, i, prec) == r
  }

  predicate ExprYields(ts: seq<Lexeme>, i: nat, prec: Precedence, r: Parsed)
    requires i <= |ts|
  {
    ParseExpr(ts, i, prec) == r
  }

  /** A number is an operand by itself. */
  lemma NumberStep(ts: seq<Lexeme>, i: nat)
    requires i < |ts| && KindAt(ts, i) == Number
    ensures OperandYields(ts, i, Parsed(NumberNode(NumberValue(ts[i].text)), i + 1))
  { }

  /** Anything but a number, `(` or a sign is no operand: an error node,
      and the token stays current. */
  lemma MissingStep(ts: seq<Lexeme>, i: nat)
    requires i <= |ts| && !StartsPrefix(KindAt(ts, i))
    ensures OperandYields(ts, i, Parsed(ErrorNode, i))
  { }

  /** The `(` case: the inner expression, then a `)` consumed only if it
      follows. */
  lemma ParenthesisedStep(ts: seq<Lexeme>, i: nat, inner: Parsed)
    requires i < |ts| && KindAt(ts, i) == LeftParen
    requires ExprYields(ts, i + 1, PrecMin, inner)
    ensures inner.next <= |ts|
    ensures OperandYields(ts, i, if KindAt(ts, inner.next) == RightParen
                                 then Parsed(inner.tree, inner.next + 1) else inner)
  { }

  /** The sign cases: a sign node over the prefix that follows. */
  lemma SignedStep(ts: seq<Lexeme>, i: nat, operand: Parsed)
    requires i < |ts| && (KindAt(ts, i) == Plus || KindAt(ts, i) == Minus)
    requires PrefixYields(ts, i + 1, operand)
    ensures OperandYields(ts, i, Parsed(if KindAt(ts, i) == Plus then Positive(operand.tree)
                                        else Negative(operand.tree), operand.next))
  { }

  /** A prefix is its operand when no number or `(` follows... */
  lemma PrefixStep(ts: seq<Lexeme>, i: nat, operand: Parsed)
    requires i <= |ts| && OperandYields(ts, i, operand)
    ensures operand.next <= |ts|
    ensures !StartsOperand(KindAt(ts, operand.next)) ==> PrefixYields(ts, i, operand)
  { }

  /** ...and otherwise the product of the operand and the expression, at
      Div, that follows it. */
  lemma JuxtapositionStep(ts: seq<Lexeme>, i: nat, operand: Parsed, right: Parsed)
    requires i <= |ts| && OperandYields(ts, i, operand)
    requires operand.next <= |ts| && StartsOperand(KindAt(ts, operand.next))
    requires ExprYields(ts, operand.next, PrecDiv, right)
    ensures PrefixYields(ts, i, Parsed(Mul(operand.tree, right.tree), right.next))
  { }

  /** An infix node: `op` over `left` and the expression at the operator's
      precedence that follows. */
  lemma InfixStep(ts: seq<Lexeme>, op: TokenKind, left: Expr, i: nat, right: Parsed)
    requires IsOperator(op) && i <= |ts|
    requires ExprYields(ts, i, PrecedenceOf(op), right)
    ensures InfixYields(ts, op, left, i, Parsed(Binary(op, left, right.tree), right.next))
  { }

  /** One round of the operator loop: an operator binding tighter than
      `prec` is combined with what follows, and the loop goes on from there
      to the same end. */
  lemma LoopStep(ts: seq<Lexeme>, left: Expr, i: nat, prec: Precedence, c: Parsed, goal: Parsed)
    requires i < |ts|
    requires PrecedenceOf(KindAt(ts, i)) != PrecMin && prec < PrecedenceOf(KindAt(ts, i))
    requires InfixYields(ts, KindAt(ts, i), left, i + 1, c)
    requires LoopYields(ts, left, i, prec, goal)
    ensures c.next <= |ts| && LoopYields(ts, c.tree, c.next, prec, goal)
  { }

  /** The loop ends at a token that is no operator binding tighter than
      `prec`, with what it has accumulated. */
  lemma LoopStop(ts: seq<Lexeme>, left: Expr, i: nat, prec: Precedence, goal: Parsed)
    requires i <= |ts| && LoopYields(ts, left, i, prec, goal)
    requires PrecedenceOf(KindAt(ts, i)) == PrecMin || prec >= PrecedenceOf(KindAt(ts, i))
    ensures goal == Parsed(left, i)
  { }

  /** An expression is its prefix followed by the operator loop. */
  lemma ExprStep(ts: seq<Lexeme>, i: nat, prec: Precedence, first: Parsed, r: Parsed)
    requires i <= |ts| && PrefixYields(ts, i, first)
    requires first.next <= |ts| && LoopYields(ts, first.tree, first.next, prec, r)
    ensures ExprYields(ts, i, prec, r)
  { }

  // ---------------------------------------------------------------------
  // Where a parse stops

  /** An error token is never consumed: a parse that reaches one stops there. */
  lemma ErrorStops(ts: seq<Lexeme>, i: nat, prec: Precedence)
    requires i <= |ts| && KindAt(ts, i) == Error
    ensures ParsePrefix(ts, i) == Parsed(ErrorNode, i)
    ensures ParseExpr(ts, i, prec) == Parsed(ErrorNode, i)
  {
  }

  /** A prefix parse consumes a token exactly when it starts at a number,
      `(`, `+` or `-`; at any other token it gives an error node there. */
  lemma PrefixConsumes(ts: seq<Lexeme>, i: nat)
    requires i <= |ts|
    ensures i < ParsePrefix(ts, i).next <==> StartsPrefix(KindAt(ts, i))
    ensures !StartsPrefix(KindAt(ts, i)) ==> ParsePrefix(ts, i) == Parsed(ErrorNode, i)
  {
  }

  /** The node of parse_infix_expr keeps the accumulated operand on its
      left, and its right side stops at a token binding no tighter than the
      operator. */
  lemma InfixStops(ts: seq<Lexeme>, op: TokenKind, left: Expr, i: nat)
    requires IsOperator(op) && i <= |ts|
    ensures var r := ParseInfix(ts, op, left, i);
      (r.tree.Add? || r.tree.Sub? || r.tree.Mul? || r.tree.Div? || r.tree.Pow?) && r.tree.left == left
    ensures var r := ParseInfix(ts, op, left, i);
      PrecedenceOf(KindAt(ts, r.next)) <= PrecedenceOf(op)
  {
  }

  /** After a prefix, the current token is never a number or `(`: implicit
      multiplication has taken every operand that follows directly. */
  lemma {:induction false} PrefixStopsBeforeOperand(ts: seq<Lexeme>, i: nat)
    requires i <= |ts|
    ensures !StartsOperand(KindAt(ts, ParsePrefix(ts, i).next))
    decreases |ts| - i, 1
  {
    var operand := ParseOperand(ts, i);
    if StartsOperand(KindAt(ts, operand.next)) {
      ExprStopsBeforeOperand(ts, operand.next, PrecDiv);
    }
  }

  lemma {:induction false} LoopStopsBeforeOperand(ts: seq<Lexeme>, left: Expr, i: nat, prec: Precedence)
    requires i <= |ts| && !StartsOperand(KindAt(ts, i))
    ensures !StartsOperand(KindAt(ts, ParseLoop(ts, left, i, prec).next))
    decreases |ts| - i, 2
  {
    var op := KindAt(ts, i);
    if !(PrecedenceOf(op) == PrecMin || prec >= PrecedenceOf(op)) {
      var combined := ParseInfix(ts, op, left, i + 1);
      ExprStopsBeforeOperand(ts, i + 1, PrecedenceOf(op));
      LoopStopsBeforeOperand(ts, combined.tree, combined.next, prec);
    }
  }

  /** After a whole expression the current token is never a number or `(`. */
  lemma {:induction false} ExprStopsBeforeOperand(ts: seq<Lexeme>, i: nat, prec: Precedence)
    requires i <= |ts|
    ensures !StartsOperand(KindAt(ts, ParseExpr(ts, i, prec).next))
    decreases |ts| - i, 3
  {
    var left := ParsePrefix(ts, i);
    PrefixStopsBeforeOperand(ts, i);
    LoopStopsBeforeOperand(ts, left.tree, left.next, prec);
  }

  /** No error token among the indices i..j-1. */
  ghost predicate NoErrorBetween(ts: seq<Lexeme>, i: nat, j: nat)
  {
    forall k | i <= k < j :: KindAt(ts, k) != Error
  }

  /** A parse never consumes an error token: every token before the one it
      stops at is something other than an error. So a parser that pulls
      tokens one at a time meets the first error token of the stream exactly
      when the parse stops there. */
  lemma {:induction false} OperandConsumesNoError(ts: seq<Lexeme>, i: nat)
    requires i <= |ts|
    ensures NoErrorBetween(ts, i, ParseOperand(ts, i).next)
    decreases |ts| - i, 0
  {
    var k := KindAt(ts, i);
    if k == LeftParen {
      ExprConsumesNoError(ts, i + 1, PrecMin);
    } else if k == Plus || k == Minus {
      PrefixConsumesNoError(ts, i + 1);
    }
  }

  lemma {:induction false} PrefixConsumesNoError(ts: seq<Lexeme>, i: nat)
    requires i <= |ts|
    ensures NoErrorBetween(ts, i, ParsePrefix(ts, i).next)
    decreases |ts| - i, 1
  {
    var operand := ParseOperand(ts, i);
    OperandConsumesNoError(ts, i);
    if StartsOperand(KindAt(ts, operand.next)) {
      ExprConsumesNoError(ts, operand.next, PrecDiv);
    }
  }

  lemma {:induction false} LoopConsumesNoError(ts: seq<Lexeme>, left: Expr, i: nat, prec: Precedence)
    requires i <= |ts|
    ensures NoErrorBetween(ts, i, ParseLoop(ts, left, i, prec).next)
    decreases |ts| - i, 2
  {
    var op := KindAt(ts, i);
    if !(PrecedenceOf(op) == PrecMin || prec >= PrecedenceOf(op)) {
      var combined := ParseInfix(ts, op, left, i + 1);
      ExprConsumesNoError(ts, i + 1, PrecedenceOf(op));
      LoopConsumesNoError(ts, combined.tree, combined.next, prec);
    }
  }

  lemma {:induction false} ExprConsumesNoError(ts: seq<Lexeme>, i: nat, prec: Precedence)
    requires i <= |ts|
    ensures NoErrorBetween(ts, i, ParseExpr(ts, i, prec).next)
    decreases |ts| - i, 3
  {
    var left := ParsePrefix(ts, i);
    PrefixConsumesNoError(ts, i);
    LoopConsumesNoError(ts, left.tree, left.next, prec);
  }

  // ---------------------------------------------------------------------
  // Grouping

  function Leaf(ts: seq<Lexeme>, i: nat): Expr
  {
    NumberNode(NumberValue(Cur(ts, i).text))
  }

  /** A number followed by a token that neither continues it nor binds
      tighter than `prec` parses as that number alone. */
  lemma NumberAlone(ts: seq<Lexeme>, i: nat, prec: Precedence)
    requires i < |ts| && KindAt(ts, i) == Number
    requires PrecedenceOf(KindAt(ts, i + 1)) <= prec && !StartsOperand(KindAt(ts, i + 1))
    ensures ParseExpr(ts, i, prec) == Parsed(Leaf(ts, i), i + 1)
  {
    assert ParseOperand(ts, i) == Parsed(Leaf(ts, i), i + 1);
    assert ParsePrefix(ts, i) == Parsed(Leaf(ts, i), i + 1);
  }

  /** The right side of an operator that is a number followed by nothing
      binding tighter: the operator's node over that number. */
  lemma InfixOnNumber(ts: seq<Lexeme>, op: TokenKind, left: Expr, i: nat)
    requires IsOperator(op) && i < |ts| && KindAt(ts, i) == Number
    requires PrecedenceOf(KindAt(ts, i + 1)) <= PrecedenceOf(op) && !StartsOperand(KindAt(ts, i + 1))
    ensures ParseInfix(ts, op, left, i) == Parsed(Binary(op, left, Leaf(ts, i)), i + 1)
  {
    NumberAlone(ts, i, PrecedenceOf(op));
  }

  /** `a op1 b op2 c` where op2 binds no tighter than op1 groups to the left:
      `a-b-c` is Sub(Sub(a,b),c), `2^3^2` is Pow(Pow(2,3),2), and since
      Mul < Div, `a/b*c` is Mul(Div(a,b),c). */
  lemma GroupsLeft(ts: seq<Lexeme>, i: nat, prec: Precedence)
    requires i + 5 <= |ts|
    requires KindAt(ts, i) == Number && KindAt(ts, i + 2) == Number && KindAt(ts, i + 4) == Number
    requires IsOperator(KindAt(ts, i + 1)) && IsOperator(KindAt(ts, i + 3))
    requires prec < PrecedenceOf(KindAt(ts, i + 3)) <= PrecedenceOf(KindAt(ts, i + 1))
    requires PrecedenceOf(KindAt(ts, i + 5)) <= prec && !StartsOperand(KindAt(ts, i + 5))
    ensures ParseExpr(ts, i, prec) == Parsed(
      Binary(KindAt(ts, i + 3), Binary(KindAt(ts, i + 1), Leaf(ts, i), Leaf(ts, i + 2)), Leaf(ts, i + 4)),
      i + 5)
  {
    var op1, op2 := KindAt(ts, i + 1), KindAt(ts, i + 3);
    var a, b, c := Leaf(ts, i), Leaf(ts, i + 2), Leaf(ts, i + 4);
    assert ParsePrefix(ts, i) == Parsed(a, i + 1);
    InfixOnNumber(ts, op1, a, i + 2);
    InfixOnNumber(ts, op2, Binary(op1, a, b), i + 4);
    assert ParseLoop(ts, Binary(op2, Binary(op1, a, b), c), i + 5, prec).next == i + 5;
    assert ParseLoop(ts, Binary(op1, a, b), i + 3, prec) == Parsed(Binary(op2, Binary(op1, a, b), c), i + 5);
  }

  /** `a op1 b op2 c` where op2 binds tighter than op1 groups to the right:
      `a+b*c` is Add(a,Mul(b,c)), and since Mul < Div, `a*b/c` is
      Mul(a,Div(b,c)). */
  lemma TighterGroupsRight(ts: seq<Lexeme>, i: nat, prec: Precedence)
    requires i + 5 <= |ts|
    requires KindAt(ts, i) == Number && KindAt(ts, i + 2) == Number && KindAt(ts, i + 4) == Number
    requires IsOperator(KindAt(ts, i + 1)) && IsOperator(KindAt(ts, i + 3))
    requires prec < PrecedenceOf(KindAt(ts, i + 1)) < PrecedenceOf(KindAt(ts, i + 3))
    requires PrecedenceOf(KindAt(ts, i + 5)) <= prec && !StartsOperand(KindAt(ts, i + 5))
    ensures ParseExpr(ts, i, prec) == Parsed(
      Binary(KindAt(ts, i + 1), Leaf(ts, i), Binary(KindAt(ts, i + 3), Leaf(ts, i + 2), Leaf(ts, i + 4))),
      i + 5)
  {
    var op1, op2 := KindAt(ts, i + 1), KindAt(ts, i + 3);
    var a, b, c := Leaf(ts, i), Leaf(ts, i + 2), Leaf(ts, i + 4);
    assert ParsePrefix(ts, i) == Parsed(a, i + 1);
    assert ParsePrefix(ts, i + 2) == Parsed(b, i + 3);
    NumberAlone(ts, i + 4, PrecedenceOf(op2));
    assert ParseInfix(ts, op2, b, i + 4) == Parsed(Binary(op2, b, c), i + 5);
    assert ParseLoop(ts, Binary(op2, b, c), i + 5, PrecedenceOf(op1)).next == i + 5;
    assert ParseExpr(ts, i + 2, PrecedenceOf(op1)) == Parsed(Binary(op2, b, c), i + 5);
    assert ParseInfix(ts, op1, a, i + 2) == Parsed(Binary(op1, a, Binary(op2, b, c)), i + 5);
    assert ParseLoop(ts, Binary(op1, a, Binary(op2, b, c)), i + 5, prec).next == i + 5;
  }

  // ---------------------------------------------------------------------
  // Parentheses, unary operators and implicit multiplication

  /** A token that ends an expression at any precedence: neither an
      operator nor the start of an operand, such as EOF or `)`. */
  predicate Ends(k: TokenKind)
  {
    PrecedenceOf(k) == PrecMin && !StartsOperand(k)
  }

  /** `( b )` is an operand whose value is b. */
  lemma ParenthesisedNumber(ts: seq<Lexeme>, i: nat)
    requires i + 3 <= |ts|
    requires KindAt(ts, i) == LeftParen && KindAt(ts, i + 1) == Number && KindAt(ts, i + 2) == RightParen
    ensures ParseOperand(ts, i) == Parsed(Leaf(ts, i + 1), i + 3)
  {
    NumberAlone(ts, i + 1, PrecMin);
  }

  /** `a ( b ) op c`: the implicit multiplication parses its right side at
      Div, so only `^` binds into it; `a(b)^c` is Mul(a,Pow(b,c)), while
      `a(b)/c` is Div(Mul(a,b),c) and `a(b)+c` is Add(Mul(a,b),c). */
  lemma JuxtapositionBinding(ts: seq<Lexeme>, i: nat)
    requires i + 6 <= |ts|
    requires KindAt(ts, i) == Number && KindAt(ts, i + 1) == LeftParen && KindAt(ts, i + 2) == Number
    requires KindAt(ts, i + 3) == RightParen && IsOperator(KindAt(ts, i + 4)) && KindAt(ts, i + 5) == Number
    requires Ends(KindAt(ts, i + 6))
    ensures var op, a, b, c := KindAt(ts, i + 4), Leaf(ts, i), Leaf(ts, i + 2), Leaf(ts, i + 5);
      ParseExpr(ts, i, PrecMin) == Parsed(
        if op == Caret then Mul(a, Pow(b, c)) else Binary(op, Mul(a, b), c),
        i + 6)
  {
    var op, a, b, c := KindAt(ts, i + 4), Leaf(ts, i), Leaf(ts, i + 2), Leaf(ts, i + 5);
    assert ParseOperand(ts, i) == Parsed(a, i + 1);
    ParenthesisedNumber(ts, i + 1);
    assert ParsePrefix(ts, i + 1) == Parsed(b, i + 4);
    NumberAlone(ts, i + 5, PrecedenceOf(op));
    assert ParseInfix(ts, op, b, i + 5) == Parsed(Binary(op, b, c), i + 6);
    if op == Caret {
      assert ParseLoop(ts, Pow(b, c), i + 6, PrecDiv) == Parsed(Pow(b, c), i + 6);
      assert ParseExpr(ts, i + 1, PrecDiv) == Parsed(Pow(b, c), i + 6);
      assert ParsePrefix(ts, i) == Parsed(Mul(a, Pow(b, c)), i + 6);
    } else {
      assert ParseExpr(ts, i + 1, PrecDiv) == Parsed(b, i + 4);
      assert ParsePrefix(ts, i) == Parsed(Mul(a, b), i + 4);
      assert ParseInfix(ts, op, Mul(a, b), i + 5) == Parsed(Binary(op, Mul(a, b), c), i + 6);
      assert ParseLoop(ts, Binary(op, Mul(a, b), c), i + 6, PrecMin) == Parsed(Binary(op, Mul(a, b), c), i + 6);
    }
  }

  /** `a(b)(c)` nests to the right: Mul(a,Mul(b,c)). */
  lemma ChainedJuxtaposition(ts: seq<Lexeme>, i: nat)
    requires i + 7 <= |ts|
    requires KindAt(ts, i) == Number
    requires KindAt(ts, i + 1) == LeftParen && KindAt(ts, i + 2) == Number && KindAt(ts, i + 3) == RightParen
    requires KindAt(ts, i + 4) == LeftParen && KindAt(ts, i + 5) == Number && KindAt(ts, i + 6) == RightParen
    requires Ends(KindAt(ts, i + 7))
    ensures ParseExpr(ts, i, PrecMin)
      == Parsed(Mul(Leaf(ts, i), Mul(Leaf(ts, i + 2), Leaf(ts, i + 5))), i + 7)
  {
    var a, b, c := Leaf(ts, i), Leaf(ts, i + 2), Leaf(ts, i + 5);
    assert ParseOperand(ts, i) == Parsed(a, i + 1);
    ParenthesisedNumber(ts, i + 1);
    ParenthesisedNumber(ts, i + 4);
    assert ParsePrefix(ts, i + 4) == Parsed(c, i + 7);
    assert ParseExpr(ts, i + 4, PrecDiv) == Parsed(c, i + 7);
    assert ParsePrefix(ts, i + 1) == Parsed(Mul(b, c), i + 7);
    assert ParseExpr(ts, i + 1, PrecDiv) == Parsed(Mul(b, c), i + 7);
    assert ParsePrefix(ts, i) == Parsed(Mul(a, Mul(b, c)), i + 7);
  }

  /** A unary sign applies to the whole implicit product after it:
      `-a(b)` is Negative(Mul(a,b)). */
  lemma NegationWrapsJuxtaposition(ts: seq<Lexeme>, i: nat)
    requires i + 5 <= |ts|
    requires KindAt(ts, i) == Minus && KindAt(ts, i + 1) == Number
    requires KindAt(ts, i + 2) == LeftParen && KindAt(ts, i + 3) == Number && KindAt(ts, i + 4) == RightParen
    requires Ends(KindAt(ts, i + 5))
    ensures ParseExpr(ts, i, PrecMin) == Parsed(Negative(Mul(Leaf(ts, i + 1), Leaf(ts, i + 3))), i + 5)
  {
    var a, b := Leaf(ts, i + 1), Leaf(ts, i + 3);
    assert ParseOperand(ts, i + 1) == Parsed(a, i + 2);
    ParenthesisedNumber(ts, i + 2);
    assert ParseExpr(ts, i + 2, PrecDiv) == Parsed(b, i + 5);
    assert ParsePrefix(ts, i + 1) == Parsed(Mul(a, b), i + 5);
    assert ParsePrefix(ts, i) == Parsed(Negative(Mul(a, b)), i + 5);
  }

  /** A unary sign binds tighter than every infix operator, `^` included:
      `-a^b` is Pow(Negative(a),b), so `-2^2` denotes 4. */
  lemma UnaryBindsTighterThanPower(ts: seq<Lexeme>, i: nat)
    requires i + 5 <= |ts|
    requires KindAt(ts, i) == Minus && KindAt(ts, i + 1) == Number
    requires KindAt(ts, i + 2) == Caret && KindAt(ts, i + 3) == Number
    requires Ends(KindAt(ts, i + 4))
    ensures ParseExpr(ts, i, PrecMin) == Parsed(Pow(Negative(Leaf(ts, i + 1)), Leaf(ts, i + 3)), i + 4)
  {
    var a, b := Leaf(ts, i + 1), Leaf(ts, i + 3);
    assert ParsePrefix(ts, i + 1) == Parsed(a, i + 2);
    assert ParsePrefix(ts, i) == Parsed(Negative(a), i + 2);
    InfixOnNumber(ts, Caret, Negative(a), i + 3);
    assert ParseLoop(ts, Pow(Negative(a), b), i + 4, PrecMin) == Parsed(Pow(Negative(a), b), i + 4);
  }

  /** A missing `)` is tolerated: `(a+b` at the end of the input is
      Add(a,b), exactly as `(a+b)`. */
  lemma UnclosedParenthesis(ts: seq<Lexeme>, i: nat)
    requires i + 4 == |ts|
    requires KindAt(ts, i) == LeftParen && KindAt(ts, i + 1) == Number
    requires KindAt(ts, i + 2) == Plus && KindAt(ts, i + 3) == Number
    ensures ParseExpr(ts, i, PrecMin) == Parsed(Add(Leaf(ts, i + 1), Leaf(ts, i + 3)), i + 4)
  {
    var a, b := Leaf(ts, i + 1), Leaf(ts, i + 3);
    assert KindAt(ts, i + 4) == Eof;
    assert ParsePrefix(ts, i + 1) == Parsed(a, i + 2);
    InfixOnNumber(ts, Plus, a, i + 3);
    assert ParseLoop(ts, Add(a, b), i + 4, PrecMin) == Parsed(Add(a, b), i + 4);
    assert ParseExpr(ts, i + 1, PrecMin) == Parsed(Add(a, b), i + 4);
    assert ParseOperand(ts, i) == Parsed(Add(a, b), i + 4);
  }

  /** `(2)`: the loop inside the parentheses is entered with `)` as the
      current token, so `precedence[]` is consulted for RIGHT_PAREN. */
  lemma ParenthesisConsultsTable()
    ensures var ts := [Lexeme(LeftParen, "("), Lexeme(Number, "2"), Lexeme(RightParen, ")")];
      && ParsePrefix(ts, 1).next == 2
      && KindAt(ts, 2) == RightParen
      && ParseExpr(ts, 1, PrecMin) == ParseLoop(ts, NumberNode(2.0), 2, PrecMin)
      && ParseExpr(ts, 0, PrecMin) == Parsed(NumberNode(2.0), 3)
  {
    var ts := [Lexeme(LeftParen, "("), Lexeme(Number, "2"), Lexeme(RightParen, ")")];
    assert NumberValue("2") == 2.0 by {
      assert DotIndex("2") == 1;
      assert DigitsValue("2") == DigitsValue("2"[..0]) * 10 + DigitValue('2');
    }
    ParenthesisedNumber(ts, 0);
  }

  // ---------------------------------------------------------------------
  // Tokens after the stopping point are never looked at

  /** Kinds at which every parse step stops without consuming the token:
      none starts a prefix, binds as an operator or closes a parenthesis.
      Error, EOF and Identifier are such kinds. */
  predicate Inert(k: TokenKind)
  {
    !StartsPrefix(k) && PrecedenceOf(k) == PrecMin && k != RightParen
  }

  /** At every index below `n` the two streams show the same token, or
      tokens of two inert kinds. */
  ghost predicate Agree(ts: seq<Lexeme>, us: seq<Lexeme>, n: nat)
  {
    forall k | 0 <= k < n :: Cur(ts, k) == Cur(us, k) || (Inert(KindAt(ts, k)) && Inert(KindAt(us, k)))
  }

  /** One index of `Agree`, spelled out. */
  lemma AgreeAt(ts: seq<Lexeme>, us: seq<Lexeme>, n: nat, k: nat)
    requires Agree(ts, us, n) && k < n
    ensures Cur(ts, k) == Cur(us, k) || (Inert(KindAt(ts, k)) && Inert(KindAt(us, k)))
  {
  }

  lemma {:induction false} OperandLooksUpTo(ts: seq<Lexeme>, us: seq<Lexeme>, i: nat)
    requires i <= |ts| && i <= |us|
    requires Agree(ts, us, ParseOperand(ts, i).next + 1)
    ensures ParseOperand(us, i) == ParseOperand(ts, i)
    decreases |ts| - i, 0
  {
    AgreeAt(ts, us, ParseOperand(ts, i).next + 1, i);
    if Cur(ts, i) == Cur(us, i) {
      match KindAt(ts, i)
      case LeftParen =>
        var inner := ParseExpr(ts, i + 1, PrecMin);
        ExprLooksUpTo(ts, us, i + 1, PrecMin);
        AgreeAt(ts, us, ParseOperand(ts, i).next + 1, inner.next);
      case Plus =>
        PrefixLooksUpTo(ts, us, i + 1);
      case Minus =>
        PrefixLooksUpTo(ts, us, i + 1);
      case _ =>
    }
  }

  lemma {:induction false} PrefixLooksUpTo(ts: seq<Lexeme>, us: seq<Lexeme>, i: nat)
    requires i <= |ts| && i <= |us|
    requires Agree(ts, us, ParsePrefix(ts, i).next + 1)
    ensures ParsePrefix(us, i) == ParsePrefix(ts, i)
    decreases |ts| - i, 1
  {
    var operand := ParseOperand(ts, i);
    OperandLooksUpTo(ts, us, i);
    AgreeAt(ts, us, ParsePrefix(ts, i).next + 1, operand.next);
    if StartsOperand(KindAt(ts, operand.next)) {
      ExprLooksUpTo(ts, us, operand.next, PrecDiv);
    }
  }

  lemma {:induction false} InfixLooksUpTo(ts: seq<Lexeme>, us: seq<Lexeme>, op: TokenKind, left: Expr, i: nat)
    requires IsOperator(op) && i <= |ts| && i <= |us|
    requires Agree(ts, us, ParseInfix(ts, op, left, i).next + 1)
    ensures ParseInfix(us, op, left, i) == ParseInfix(ts, op, left, i)
    decreases |ts| - i, 4
  {
    ExprLooksUpTo(ts, us, i, PrecedenceOf(op));
  }

  lemma {:induction false} LoopLooksUpTo(ts: seq<Lexeme>, us: seq<Lexeme>, left: Expr, i: nat, prec: Precedence)
    requires i <= |ts| && i <= |us|
    requires Agree(ts, us, ParseLoop(ts, left, i, prec).next + 1)
    ensures ParseLoop(us, left, i, prec) == ParseLoop(ts, left, i, prec)
    decreases |ts| - i, 2
  {
    AgreeAt(ts, us, ParseLoop(ts, left, i, prec).next + 1, i);
    var op := KindAt(ts, i);
    if !(PrecedenceOf(op) == PrecMin || prec >= PrecedenceOf(op)) {
      var combined := ParseInfix(ts, op, left, i + 1);
      InfixLooksUpTo(ts, us, op, left, i + 1);
      LoopLooksUpTo(ts, us, combined.tree, combined.next, prec);
    }
  }

  /** A parse reads no token past the one it stops at, and of that token
      only whether its kind is inert: any stream that agrees up to and
      including that token parses the same way. */
  lemma {:induction false} ExprLooksUpTo(ts: seq<Lexeme>, us: seq<Lexeme>, i: nat, prec: Precedence)
    requires i <= |ts| && i <= |us|
    requires Agree(ts, us, ParseExpr(ts, i, prec).next + 1)
    ensures ParseExpr(us, i, prec) == ParseExpr(ts, i, prec)
    decreases |ts| - i, 3
  {
    var left := ParsePrefix(ts, i);
    PrefixLooksUpTo(ts, us, i);
    LoopLooksUpTo(ts, us, left.tree, left.next, prec);
  }

  /** Whatever follows the token where the top-level parse stops is ignored:
      `2)+3` parses as `2)` does. */
  lemma TrailingTokensIgnored(ts: seq<Lexeme>, rest: seq<Lexeme>)
    requires var r := ParseExpr(ts, 0, PrecMin); r.next < |ts|
    ensures var r := ParseExpr(ts, 0, PrecMin);
      ParseExpr(ts[..r.next + 1] + rest, 0, PrecMin) == r
  {
    var r := ParseExpr(ts, 0, PrecMin);
    var us := ts[..r.next + 1] + rest;
    assert Agree(ts, us, r.next + 1);
    ExprLooksUpTo(ts, us, 0, PrecMin);
  }
}
