/** Printing a syntax tree back as tokens, fully parenthesised, and the
    proof that the parser recovers the tree from what is printed. */
module Rendering {
  import opened Tokens
  import opened Scanner
  import opened Syntax
  import opened Grammar

  /** The decimal digits of a natural number, most significant first. */
  function DecimalText(n: nat): (s: string)
    ensures |s| > 0
    ensures forall k | 0 <= k < |s| :: IsDigit(s[k])
  {
    var last := ['0' + (n % 10) as char];
    if n < 10 then last else DecimalText(n / 10) + last
  }

  /** Reading back the digits of a natural number gives that number. */
  lemma {:induction false} DecimalValue(n: nat)
    ensures DigitsValue(DecimalText(n)) == n
  {
    var s := DecimalText(n);
    var last := ['0' + (n % 10) as char];
    assert DigitValue(s[|s| - 1]) == n % 10;
    if n < 10 {
      assert s[..0] == [];
    } else {
      DecimalValue(n / 10);
      assert s[..|s| - 1] == DecimalText(n / 10);
    }
  }

  /** A number literal made of digits alone denotes the natural it spells. */
  lemma DecimalRoundTrip(n: nat)
    ensures IsNumberText(DecimalText(n))
    ensures NumberValue(DecimalText(n)) == n as real
  {
    var s := DecimalText(n);
    assert DotIndex(s) == |s|;
    DecimalValue(n);
  }

  /** Trees that can be printed: no error nodes, and every number a natural
      (the lexer has no sign or exponent in literals; negative values are
      written with a unary minus). */
  predicate Printable(e: Expr)
  {
    match e
    case ErrorNode => false
    case NumberNode(v) => 0.0 <= v && v.Floor as real == v
    case Positive(x) => Printable(x)
    case Negative(x) => Printable(x)
    case Add(l, r) => Printable(l) && Printable(r)
    case Sub(l, r) => Printable(l) && Printable(r)
    case Mul(l, r) => Printable(l) && Printable(r)
    case Div(l, r) => Printable(l) && Printable(r)
    case Pow(l, r) => Printable(l) && Printable(r)
  }

  function Symbol(k: TokenKind, c: char): Lexeme
  {
    Lexeme(k, [c])
  }

  function OperatorText(op: TokenKind): char
  {
    match op
    case Plus => '+'
    case Minus => '-'
    case Star => '*'
    case Slash => '/'
    case _ => '^'
  }

  /** `( l op r )`: a binary node inside its own parentheses. */
  function Bracketed(op: TokenKind, l: seq<Lexeme>, r: seq<Lexeme>): seq<Lexeme>
  {
    [Symbol(LeftParen, '(')] + l + [Symbol(op, OperatorText(op))] + r + [Symbol(RightParen, ')')]
  }

  /** The tokens of a tree: numbers as their digits, a sign before its
      operand, and every binary node bracketed. */
  function Render(e: Expr): (ls: seq<Lexeme>)
    requires Printable(e)
    ensures |ls| > 0
  {
    match e
    case NumberNode(v) => [Lexeme(Number, DecimalText(v.Floor))]
    case Positive(x) => [Symbol(Plus, '+')] + Render(x)
    case Negative(x) => [Symbol(Minus, '-')] + Render(x)
    case Add(l, r) => Bracketed(Plus, Render(l), Render(r))
    case Sub(l, r) => Bracketed(Minus, Render(l), Render(r))
    case Mul(l, r) => Bracketed(Star, Render(l), Render(r))
    case Div(l, r) => Bracketed(Slash, Render(l), Render(r))
    case Pow(l, r) => Bracketed(Caret, Render(l), Render(r))
  }

  /** `s` occurs in `ts` from index `i`. */
  predicate Within(ts: seq<Lexeme>, i: nat, s: seq<Lexeme>)
  {
    i + |s| <= |ts| && ts[i..i + |s|] == s
  }

  lemma WithinSplit(ts: seq<Lexeme>, i: nat, a: seq<Lexeme>, b: seq<Lexeme>)
    requires Within(ts, i, a + b)
    ensures Within(ts, i, a) && Within(ts, i + |a|, b)
  {
    assert ts[i..i + |a|] == (a + b)[..|a|];
    assert ts[i + |a|..i + |a| + |b|] == (a + b)[|a|..];
  }

  /** The right side of a bracketed node: its prefix parse stops at `)`,
      where the loop at the operator's precedence stops too. */
  lemma RightSideStops(op: TokenKind, l: Expr, r: Expr, ts: seq<Lexeme>, m: nat, n: nat)
    requires IsOperator(op) && m < n < |ts| && KindAt(ts, n) == RightParen
    requires ParsePrefix(ts, m + 1) == Parsed(r, n)
    ensures ParseInfix(ts, op, l, m + 1) == Parsed(Binary(op, l, r), n)
  {
    assert ParseLoop(ts, r, n, PrecedenceOf(op)) == Parsed(r, n);
  }

  /** The step for a bracketed node: `(` at i, the operator at m and `)` at
      n, with both sides parsing back up to the next of these. */
  lemma BracketedRoundTrip(op: TokenKind, l: Expr, r: Expr, ts: seq<Lexeme>, i: nat, m: nat, n: nat)
    requires IsOperator(op) && i < m < n < |ts|
    requires KindAt(ts, i) == LeftParen && KindAt(ts, m) == op && KindAt(ts, n) == RightParen
    requires ParsePrefix(ts, i + 1) == Parsed(l, m)
    requires ParsePrefix(ts, m + 1) == Parsed(r, n)
    ensures ParseOperand(ts, i) == Parsed(Binary(op, l, r), n + 1)
  {
    var e := Binary(op, l, r);
    RightSideStops(op, l, r, ts, m, n);
    assert ParseLoop(ts, e, n, PrecMin) == Parsed(e, n);
    assert ParseLoop(ts, l, m, PrecMin) == Parsed(e, n);
  }

  /** Where the parts of a bracketed rendering lie in the stream. */
  lemma BracketedParts(op: TokenKind, ls: seq<Lexeme>, rs: seq<Lexeme>, ts: seq<Lexeme>, i: nat, m: nat, n: nat)
    requires Within(ts, i, Bracketed(op, ls, rs))
    requires m == i + 1 + |ls| && n == m + 1 + |rs|
    ensures Within(ts, i + 1, ls) && Within(ts, m + 1, rs)
    ensures KindAt(ts, i) == LeftParen && KindAt(ts, m) == op && KindAt(ts, n) == RightParen
    ensures i < m < n < |ts|
  {
    var open, opening, closing := [Symbol(LeftParen, '(')], [Symbol(op, OperatorText(op))], [Symbol(RightParen, ')')];
    WithinSplit(ts, i, open + ls + opening + rs, closing);
    WithinSplit(ts, i, open + ls + opening, rs);
    WithinSplit(ts, i, open + ls, opening);
    WithinSplit(ts, i, open, ls);
    assert Cur(ts, i) == open[0];
    assert Cur(ts, i + 1 + |ls|) == opening[0];
    assert Cur(ts, i + 2 + |ls| + |rs|) == closing[0];
  }

  /** When nothing after an operand starts another, the prefix is the
      operand alone. */
  lemma PrefixIsOperand(ts: seq<Lexeme>, i: nat)
    requires i <= |ts| && !StartsOperand(KindAt(ts, ParseOperand(ts, i).next))
    ensures ParsePrefix(ts, i) == ParseOperand(ts, i)
  {
  }

  /** The operator token of a binary node. */
  function OperatorOf(e: Expr): (op: TokenKind)
    requires e.Add? || e.Sub? || e.Mul? || e.Div? || e.Pow?
    ensures IsOperator(op) && e == Binary(op, e.left, e.right)
  {
    match e
    case Add(_, _) => Plus
    case Sub(_, _) => Minus
    case Mul(_, _) => Star
    case Div(_, _) => Slash
    case Pow(_, _) => Caret
  }

  /** A printable binary node is rendered bracketed, from printable sides. */
  lemma RenderBinary(e: Expr)
    requires Printable(e) && (e.Add? || e.Sub? || e.Mul? || e.Div? || e.Pow?)
    ensures Printable(e.left) && Printable(e.right)
    ensures Render(e) == Bracketed(OperatorOf(e), Render(e.left), Render(e.right))
  {
  }

  /** Parsing the rendering of a tree, followed by anything that does not
      start an operand, gives back the tree and consumes exactly the
      rendering. */
  lemma {:induction false} RenderRoundTrip(e: Expr, ts: seq<Lexeme>, i: nat)
    requires Printable(e) && Within(ts, i, Render(e))
    requires !StartsOperand(KindAt(ts, i + |Render(e)|))
    ensures ParsePrefix(ts, i) == Parsed(e, i + |Render(e)|)
    decreases e, 2
  {
    if e.NumberNode? {
      assert Cur(ts, i) == Render(e)[0];
      DecimalRoundTrip(e.value.Floor);
      assert ParseOperand(ts, i) == Parsed(e, i + 1);
    } else if e.Positive? {
      UnaryRoundTrip(Plus, e, ts, i);
    } else if e.Negative? {
      UnaryRoundTrip(Minus, e, ts, i);
    } else {
      RenderBinary(e);
      BinaryRoundTrip(OperatorOf(e), e, ts, i);
      PrefixIsOperand(ts, i);
    }
  }

  lemma {:induction false} UnaryRoundTrip(sign: TokenKind, e: Expr, ts: seq<Lexeme>, i: nat)
    requires (e.Positive? && sign == Plus) || (e.Negative? && sign == Minus)
    requires Printable(e) && Render(e) == [Symbol(sign, if sign == Plus then '+' else '-')] + Render(e.operand)
    requires Within(ts, i, Render(e)) && !StartsOperand(KindAt(ts, i + |Render(e)|))
    ensures ParsePrefix(ts, i) == Parsed(e, i + |Render(e)|)
    decreases e, 0
  {
    var x := e.operand;
    WithinSplit(ts, i, [Symbol(sign, if sign == Plus then '+' else '-')], Render(x));
    assert Cur(ts, i) == Render(e)[0];
    RenderRoundTrip(x, ts, i + 1);
  }

  lemma {:induction false} BinaryRoundTrip(op: TokenKind, e: Expr, ts: seq<Lexeme>, i: nat)
    requires IsOperator(op) && Printable(e)
    requires (e.Add? || e.Sub? || e.Mul? || e.Div? || e.Pow?) && e == Binary(op, e.left, e.right)
    requires Printable(e.left) && Printable(e.right)
    requires Render(e) == Bracketed(op, Render(e.left), Render(e.right))
    requires Within(ts, i, Render(e))
    ensures ParseOperand(ts, i) == Parsed(e, i + |Render(e)|)
    decreases e, 1
  {
    var l, r := e.left, e.right;
    var m := i + 1 + |Render(l)|;
    var n := m + 1 + |Render(r)|;
    BracketedParts(op, Render(l), Render(r), ts, i, m, n);
    BothSides(e, ts, i, m, n);
    BracketedRoundTrip(op, l, r, ts, i, m, n);
  }

  /** The two sides of a bracketed node parse back, each stopping at the
      token after it (the operator, then `)`). */
  lemma {:induction false} BothSides(e: Expr, ts: seq<Lexeme>, i: nat, m: nat, n: nat)
    requires (e.Add? || e.Sub? || e.Mul? || e.Div? || e.Pow?) && Printable(e.left) && Printable(e.right)
    requires m == i + 1 + |Render(e.left)| && n == m + 1 + |Render(e.right)|
    requires Within(ts, i + 1, Render(e.left)) && Within(ts, m + 1, Render(e.right))
    requires !StartsOperand(KindAt(ts, m)) && !StartsOperand(KindAt(ts, n))
    ensures ParsePrefix(ts, i + 1) == Parsed(e.left, m)
    ensures ParsePrefix(ts, m + 1) == Parsed(e.right, n)
    decreases e, 0
  {
    RenderRoundTrip(e.left, ts, i + 1);
    RenderRoundTrip(e.right, ts, m + 1);
  }

  /** A printed tree, parsed on its own, gives back exactly that tree. */
  lemma ParseRendered(e: Expr)
    requires Printable(e)
    ensures ParseExpr(Render(e), 0, PrecMin) == Parsed(e, |Render(e)|)
  {
    var ts := Render(e);
    assert Within(ts, 0, ts);
    RenderRoundTrip(e, ts, 0);
  }
}
