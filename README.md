# eval — a verified model of a small arithmetic-expression evaluator

The repository evaluates arithmetic expressions written as C strings:
decimal numbers, `+ - * / ^`, parentheses, unary `+` and `-`, and implicit
multiplication by a directly following number or `(` (`2(3)` is `2*3`). It
ships two variants of the same algorithm:

- **the single header** `src/eval.h`: a lexer that also counts the
  characters of the tokens it returns (`pos`), a parser holding one current
  token that ends the process with a caret message when it pulls an error
  token, and `__eval`, which ends the process on a divisor within 10^-6 of
  zero; `eval` runs all three.
- **the split version**: `src/lexer.c` (which also produces identifier
  tokens), `src/parser.c` (a current and a next token, advanced by the
  `ADVANCE` macro), and `src/include/eval.h` with `eval_expression` and
  `eval_`, which parses and evaluates without any check.

The model has one functional specification of each stage and proves the
imperative code of both variants against it:

- `Scanner.Scan` is one call of a lexer as a function of the input and the
  cursor (with or without identifiers); the two lexer classes
  (`StandaloneLexer.Lexer`, `Lexer.Lexer`) are proved to compute it, and the
  lemmas about it say what a token is and that the tokens lose nothing of the
  input but whitespace.
- `Grammar.ParseExpr` and its companions are the precedence-climbing
  algorithm over a stream of lexemes; the two parser classes
  (`StandaloneParser.Parser`, `Parser.Parser`) are proved, method by method,
  to build the tree these functions give. The lemmas about it fix how
  operators group, where a parse stops, that it never consumes an error
  token, and that it reads nothing past where it stops; `Rendering` proves
  that every tree without error nodes and with natural numbers, printed fully
  parenthesised, parses back to itself.
- `StandaloneEval.EvalTree` and `Evaluator.EvalExpression` are the two
  evaluators; `StandaloneEval.Eval` and `Evaluator.Eval` run the whole
  pipeline and are proved equal to the functions `Evaluate` of their modules.

The C library's `pow` is a parameter of every evaluator. Doubles are modelled
as exact reals.

## Model

| member | source | states |
|---|---|---|
| Syntax.PrecedenceOf | src/eval.h:183-186 | exactly the five operator kinds `+ - * / ^` have a precedence above Min, and no kind has Max |
| Syntax.Binary | src/parser.c:84-112 | each operator builds its own binary node kind (`+` Add, `-` Sub, `*` Mul, `/` Div, `^` Pow), with the accumulated operand on the left and the new one on the right |
| Syntax.TablesAgree | src/parser.c:8-12 | wherever either C precedence table has an entry, it equals `PrecedenceOf`: `+ -` at Term, `*` at Mul, `/` at Div, `^` at Pow, every other kind at Min |
| Syntax.ParenthesesOutsideTables | src/eval.h:183-186 | the indices of `(` and `)` lie past the end of both C tables (a read of them is out of bounds) |
| Scanner.SkipSpace | src/eval.h:115-119 | the whitespace skip stops at the first character that is not space, CR, LF or tab, and everything skipped is whitespace |
| Scanner.DigitsEnd | src/lexer.c:56 | a digit run ends at the first non-digit and covers only digits |
| Scanner.IdentEnd | src/lexer.c:69 | an identifier run ends at the first character that is neither letter, `_` nor digit |
| Scanner.NumberEnd | src/eval.h:82-99 | the rest of a number literal covers digits and at most one `.`, stops before a digit never, and before a `.` only if it already has one |
| Scanner.Scan | src/eval.h:112-155 | one lexer call: its token starts after the cursor and ends at the new cursor inside the input; it is EOF (of length 0) exactly at a NUL or the end; any other token moves the cursor forward |
| Scanner.ScanCovers | src/lexer.c:83-125 | a call skips only whitespace before its token, and the token contains neither whitespace nor NUL |
| Scanner.EofStays | src/eval.h:123-126 | after an EOF token the next call yields EOF again, at the same place, without moving |
| Scanner.EofRepeats | src/lexer.c:89-92 | an EOF token has length 0, leaves the cursor at its start, repeats on the next call, and no token follows it |
| Scanner.ScanFromStart | src/lexer.c:86-87 | scanning again from where a token starts yields the same token and cursor |
| Scanner.NumberTokenShape | src/lexer.c:53-64 | a number token is produced exactly at a digit; its text is digits with at most one `.`, and it is maximal |
| Scanner.IdentifierTokenShape | src/lexer.c:66-71 | an identifier is produced exactly at a letter or `_` when identifiers are on; it is a maximal run of letters, digits and `_` |
| Scanner.SymbolKind | src/eval.h:135-154 | a character has a kind other than Error exactly when it is one of `()+-*/^`; the kind is never EOF, Number, Identifier, Comma or Max |
| Scanner.SymbolTokenShape | src/lexer.c:106-124 | any other character gives a one-character token of the symbol's kind, an Error token for anything outside `()+-*/^`; Comma and Max are never produced |
| Scanner.ErrorTokenShape | src/eval.h:153-154 | an error token of the stream is one character wide and the cursor stands right after it |
| Scanner.TokensFrom | src/eval.h:112-155 | the tokens up to EOF are never EOF and lie inside the input after the cursor |
| Scanner.EndsMatchTokens | src/eval.h:112-155 | one cursor position is recorded per token |
| Scanner.ScanAt | src/eval.h:112-155 | scanning from the cursor left by the first k tokens yields token k and its end cursor, and EOF once the tokens are used up |
| Scanner.LexemeAt | src/parser.c:17 | the k-th lexeme of the stream is the kind and text of the k-th token |
| Scanner.TokensCoverInput | src/lexer.c:83-125 | round trip: the token texts, concatenated, are the C string from the cursor with its whitespace removed |
| Scanner.NoLettersSameTokens | src/lexer.c:101-104 | on an input without letters or `_` the two lexers yield the same tokens |
| Scanner.TokensUpToFirstLetter | src/lexer.c:101-104 | on any input the two lexers yield the same tokens up to the first letter or `_`, where the header's token is an error and the split lexer's an identifier |
| Scanner.SameUpToLetterAt | src/lexer.c:101-104 | at every index up to the header's first error token the two token sequences either both end or hold the same token, or the header's error faces the split lexer's identifier |
| Scanner.OneCharScan | src/eval.h:128-151 | where every character is a token of its own, one call takes exactly the character at the cursor |
| Scanner.OneCharTokensFrom | src/eval.h:112-155 | such an input yields one token per character, of that character's kind |
| Scanner.OneCharStream | src/eval.h:112-155 | ... and its lexeme stream holds each character as its own lexeme |
| Scanner.DotIndex | src/eval.h:90 | the index of the first `.`, or the length when there is none |
| Scanner.NumberValueBounds | src/eval.h:237 | a literal's value lies between its integer part and the next integer |
| Scanner.FractionBelowOne | src/eval.h:237 | the digits after the `.` add a value in [0, 1) |
| Scanner.NumberValue | src/parser.c:17 | a literal's value is never negative |
| Scanner.NumberValueExact | src/eval.h:237 | a literal's value is the integer its digits spell with the `.` removed, divided by 10 to the number of digits after the `.` |
| StandaloneLexer.Lexer.constructor | src/eval.h:407-410 | the lexer starts with both indices and `pos` at zero |
| StandaloneLexer.Lexer.MakeToken | src/eval.h:79-110 | for a number, consumes the rest of the literal (`NumberEnd`); the token spans start to cursor and `pos` grows by its length |
| StandaloneLexer.Lexer.NextToken | src/eval.h:112-155 | one lexer call computes `Scan` without identifiers, and `pos` grows by the token's length |
| Lexer.Lexer.constructor | src/lexer.c:73-81 | both indices at the start of the expression |
| Lexer.Lexer.SkipWhitespace | src/lexer.c:25-43 | the cursor moves to `SkipSpace` of where it was |
| Lexer.Lexer.NumberToken | src/lexer.c:53-64 | the cursor moves to `NumberEnd`, and the token spans start to cursor |
| Lexer.Lexer.IdentifierToken | src/lexer.c:66-71 | the cursor moves to `IdentEnd`, and the token spans start to cursor |
| Lexer.Lexer.NextToken | src/lexer.c:83-125 | one lexer call computes `Scan` with identifiers, and `start` is the token's start |
| LexerSync.StreamScanned | src/eval.h:112-155 | successive lexer calls from the start yield the tokens of `TokensFrom`, then EOF |
| LexerSync.Pull | src/lexer.c:83-125 | one more call returns the next token of the stream, or EOF of length 0 once they are used up |
| LexerSync.PullTracked | src/eval.h:101-103 | the header lexer's `pos` is the total width of the tokens pulled, EOF adding nothing |
| LexerSync.Current | src/eval.h:232 | the token pulled last is what the parse functions read at its index |
| Grammar.ParseOperand | src/eval.h:252-294 | a number, a parenthesised expression (its `)` consumed only if present) or a signed prefix consumes at least one token; any other token gives an error node and is not consumed |
| Grammar.ParsePrefix | src/eval.h:252-307 | a prefix parse never moves backwards and stays inside the stream |
| Grammar.ParseInfix | src/eval.h:314-341 | an infix parse never moves backwards and stays inside the stream |
| Grammar.PrefixConsumes | src/eval.h:252-307 | a prefix parse consumes a token exactly when it starts at a number, `(`, `+` or `-`; at any other token it gives an error node and consumes nothing |
| Grammar.InfixStops | src/eval.h:314-341 | the node keeps the accumulated operand on its left, and its right side, parsed at the operator's own precedence, stops at a token binding no tighter than the operator |
| Grammar.InfixOnNumber | src/eval.h:314-341 | an operator followed by a number, then by a token that neither continues it nor binds tighter than the operator, builds the operator's node of the left side and that number, consuming the number only |
| Grammar.ParseLoop | src/eval.h:355-364 | the loop stops at a token binding no tighter than the caller's precedence |
| Grammar.ParseExpr | src/eval.h:347-367 | an expression parse never moves backwards and stops at a token binding no tighter than the caller's precedence |
| Grammar.ErrorStops | src/eval.h:290-294 | a parse that reaches an error token builds an error node there and consumes nothing |
| Grammar.PrefixStopsBeforeOperand | src/eval.h:296-304 | after a prefix the current token is never a number or `(`: implicit multiplication took it |
| Grammar.LoopStopsBeforeOperand | src/eval.h:355-364 | the infix loop keeps that property |
| Grammar.ExprStopsBeforeOperand | src/eval.h:347-367 | after any expression the current token is never a number or `(` |
| Grammar.OperandConsumesNoError | src/eval.h:252-294 | an operand parse consumes no error token |
| Grammar.PrefixConsumesNoError | src/eval.h:296-304 | a prefix parse consumes no error token |
| Grammar.LoopConsumesNoError | src/eval.h:355-364 | the infix loop consumes no error token |
| Grammar.ExprConsumesNoError | src/eval.h:347-367 | an expression parse consumes no error token, so the first error token pulled is where it stops |
| Grammar.NumberAlone | src/eval.h:234-245 | a number followed by a token that neither continues it nor binds tighter parses as that number alone |
| Grammar.GroupsLeft | src/eval.h:355-364 | `a op1 b op2 c` with op2 no tighter than op1 groups left (`a-b-c`, `2^3^2`, `a/b*c`) |
| Grammar.TighterGroupsRight | src/eval.h:355-364 | `a op1 b op2 c` with op2 tighter groups right (`a+b*c`, `a*b/c`) |
| Grammar.ParenthesisedNumber | src/eval.h:263-268 | `( b )` is an operand with the value b |
| Grammar.JuxtapositionBinding | src/eval.h:296-304 | implicit multiplication parses its right side at Div: `a(b)^c` is `a*(b^c)`, `a(b)/c` is `(a*b)/c` |
| Grammar.ChainedJuxtaposition | src/eval.h:296-304 | `a(b)(c)` nests to the right |
| Grammar.NegationWrapsJuxtaposition | src/eval.h:280-286 | a sign applies to the whole implicit product after it |
| Grammar.UnaryBindsTighterThanPower | src/eval.h:271-287 | a sign binds tighter than `^`: `-a^b` is `(-a)^b` |
| Grammar.UnclosedParenthesis | src/eval.h:267 | a missing `)` at the end is tolerated: `(a+b` parses as `(a+b)` |
| Grammar.ParenthesisConsultsTable | src/eval.h:352 | in `(2)` the loop inside the parentheses reads the precedence of `)`; with Min there, `(2)` is 2 |
| Grammar.OperandLooksUpTo | src/eval.h:252-294 | an operand parse reads no token past where it stops |
| Grammar.PrefixLooksUpTo | src/eval.h:252-307 | a prefix parse reads no token past where it stops |
| Grammar.InfixLooksUpTo | src/eval.h:314-341 | an infix parse reads no token past where it stops |
| Grammar.LoopLooksUpTo | src/eval.h:355-364 | the loop reads no token past where it stops |
| Grammar.ExprLooksUpTo | src/eval.h:347-367 | an expression parse reads no token past where it stops, and of that token only whether it is inert (no number, `(`, sign, operator or `)`) |
| Grammar.TrailingTokensIgnored | src/eval.h:420 | whatever follows the token where the top-level parse stops is ignored (`2)+3` parses as `2)`) |
| StandaloneParser.Parser.SeesCurrent | src/eval.h:232 | the current token is what the parse functions read at index `pulled - 1` |
| StandaloneParser.Parser.SeesNumber | src/eval.h:237 | for a number the parse functions read the same text |
| StandaloneParser.Parser.ErrorPosition | src/eval.h:225-229 | an error token is a token of the stream and `pos` counts every token pulled, the error token included |
| StandaloneParser.Parser.constructor | src/eval.h:412-415 | a fresh lexer at the start, a zero current token, nothing pulled |
| StandaloneParser.Parser.Advance | src/eval.h:232 | one more token pulled; the lexer stays in step with the stream |
| StandaloneParser.Parser.ParseNumber | src/eval.h:234-245 | the number node of the current literal, one token consumed, as `ParseOperand` gives |
| StandaloneParser.Parser.ParseOperand | src/eval.h:252-294 | the switch of the prefix parser builds exactly `Grammar.ParseOperand`'s tree and consumes as many tokens |
| StandaloneParser.Parser.ParseParenthesised | src/eval.h:263-268 | the `(` case, as `ParseOperand` gives |
| StandaloneParser.Parser.ParseSigned | src/eval.h:271-287 | the sign cases, as `ParseOperand` gives |
| StandaloneParser.Parser.ParsePrefix | src/eval.h:252-307 | the prefix parser builds exactly `Grammar.ParsePrefix`'s tree |
| StandaloneParser.Parser.ParseInfix | src/eval.h:314-341 | the infix parser builds exactly `Grammar.ParseInfix`'s tree |
| StandaloneParser.Parser.ParseExpr | src/eval.h:347-367 | the precedence-climbing loop builds exactly `Grammar.ParseExpr`'s tree and stops where it does |
| StandaloneParser.Parser.Combine | src/eval.h:360-363 | one loop iteration keeps the loop on course to the same result and consumes at least one token |
| Parser.Parser.SeesCurrent | src/parser.c:31 | the current token is what the parse functions read at index `pulled - 2` of what the parser can see |
| Parser.Parser.constructor | src/parser.c:114-127 | after parser_init's two ADVANCEs, nothing consumed; as written the parser sees only the zero token, as intended the lexeme stream |
| Parser.Parser.Advance | src/parser.c:5 | `cur` takes the old `next`, the lexer is called once; only the intended version keeps its token in `next` |
| Parser.Parser.ParseNumber | src/parser.c:14-24 | the number node of the current literal, as `ParseOperand` gives |
| Parser.Parser.ParseOperand | src/parser.c:31-69 | the switch builds exactly `Grammar.ParseOperand`'s tree |
| Parser.Parser.ParseParenthesised | src/parser.c:37-43 | the `(` case, as `ParseOperand` gives |
| Parser.Parser.ParseSigned | src/parser.c:45-61 | the sign cases, as `ParseOperand` gives |
| Parser.Parser.ParsePrefix | src/parser.c:26-82 | parse_prefix_expr builds exactly `Grammar.ParsePrefix`'s tree |
| Parser.Parser.ParseInfix | src/parser.c:84-112 | parse_infix_expr builds exactly `Grammar.ParseInfix`'s tree |
| Parser.Parser.ParseExpression | src/parser.c:129-148 | parser_parse_expression builds exactly `Grammar.ParseExpr`'s tree |
| Parser.Parser.Combine | src/parser.c:141-144 | one loop iteration keeps the loop on course and consumes at least one token |
| Evaluator.EvalExpression | src/include/eval.h:20-49 | a tree without a division always has a value |
| Evaluator.Evaluate | src/include/eval.h:51-74 | with ADVANCE as written the result is 0 whatever the expression |
| Evaluator.Eval | src/include/eval.h:51-74 | eval_ returns the value of the tree parsed from the expression at the lowest precedence |
| Evaluator.AsWrittenIsZero | src/parser.c:5 | with ADVANCE as written the parser sees only the zero token, builds one error node, and eval_ returns 0 for every expression |
| StandaloneEval.EvalTree | src/eval.h:369-401 | `__eval` fails only by a division abort, so a tree without a division always has a value |
| StandaloneEval.HeaderAgreesWithSplit | src/include/eval.h:20-49 | `__eval` returns a value exactly when every divisor is at least 10^-6 from zero, and then the same value as eval_expression |
| StandaloneEval.Evaluate | src/eval.h:403-428 | eval returns a value only when the top-level parse stopped at a token other than an error token and every divisor of the tree is at least 10^-6 from zero |
| StandaloneEval.Eval | src/eval.h:403-428 | eval computes `Evaluate`: a caret abort at the first error token, otherwise the value or the division abort of the parsed tree |
| StandaloneEval.StreamsAgreeAt | src/lexer.c:101-104 | at any index up to the header's first error lexeme the two lexeme streams hold the same lexeme, or the header's error faces the split lexer's identifier |
| StandaloneEval.StreamsAgreeUpTo | src/lexer.c:101-104 | up to and including the header's first error lexeme the two streams agree as far as the parse functions can tell |
| StandaloneEval.SplitAgreesWithHeader | src/include/eval.h:51-74 | on any input, letters included, where the header returns a value eval_ (as intended) returns the same, and where eval_ divides by zero the header has aborted |
| StandaloneEval.UnsupportedOperandAtFirstError | src/eval.h:225-229 | the caret abort happens exactly when the parse stops at an error token, which is the first one of the input, with `pos` the width of the tokens up to it |
| StandaloneEval.NoErrorTokenNoAbort | src/eval.h:225-229 | an input without error tokens evaluates its tree |
| StandaloneEval.DivisionAbort | src/eval.h:386-394 | the division abort happens exactly when no error token stops the parse and some divisor is near zero |
| StandaloneEval.CaretMissesAfterSpace | src/eval.h:101-103 | for ` @` the message's caret lands under the space, not the `@` |
| StandaloneEval.CursorChangesOnlyPosition | src/eval.h:225-229 | reporting the lexer cursor instead of `pos` changes only the reported position |
| StandaloneEval.CursorCaretUnderError | src/eval.h:225-229 | reporting the cursor puts the caret exactly on the error token, whatever whitespace precedes it |
| StandaloneEval.DigitValueOf | src/eval.h:237 | a one-digit literal has that digit's value |
| StandaloneEval.EmptyOperandIsZero | src/eval.h:290-294 | an empty input, and a sign with nothing after it, evaluate to 0 through an error node |
| StandaloneEval.FiveCharStream | src/eval.h:112-155 | `a op b op c` written without spaces lexes into five one-character lexemes |
| StandaloneEval.TighterOperatorFirst | src/eval.h:355-364 | `a op1 b op2 c` with op2 tighter evaluates as `a op1 (b op2 c)` |
| StandaloneEval.SumOfQuotient | src/eval.h:386-394 | a sum whose right side divides by zero aborts |
| StandaloneEval.NestedDivisionByZero | src/eval.h:386-394 | `a+b/0` aborts with division by zero |
| StandaloneEval.UnknownCharacter | src/eval.h:153-154 | a digit followed by a character that is no token aborts with `pos` 2 |
| Rendering.DecimalValue | src/eval.h:237 | the decimal digits of a natural read back as that natural |
| Rendering.DecimalRoundTrip | src/eval.h:237 | the decimal text of a natural is a number literal whose value is that natural |
| Rendering.Render | src/eval.h:252-367 | the rendering of a printable tree is never empty |
| Rendering.RenderRoundTrip | src/eval.h:252-307 | a rendered tree, followed by anything that starts no operand, parses back to itself and stops right after it |
| Rendering.ParseRendered | src/eval.h:347-367 | a printed tree, parsed on its own, gives back exactly that tree |

## Left out

- Ending the process (`die`, `exit(1)`) is modelled as a `Failure` result carrying the reason; the message text and stderr are not modelled beyond the caret position.
- Memory management: `__mem`, `mem_alloc`, `mem_free`, `malloc`/`calloc`, the never-freed trees and `parser_free` (empty in the source). Allocation failure is not modelled.
- Logging and timing in eval_ (`options->log`, `clock`, `printf`): I/O and a clock, left out; `Evaluator.Eval` computes what eval_ returns. The reversed `start - end` in the time printed is part of that left-out output.
- The `eval` macro of src/include/eval.h passes `exp` (the math function) instead of its argument; it cannot evaluate an expression as written, so `Evaluator.Eval` models `eval_` called directly with the expression.
- Doubles are modelled as exact reals, `strtod` as the exact decimal value of the literal, and `pow` as a parameter: rounding, overflow, infinities and NaN are not modelled.
- Scanner.NumberValue, Evaluator.Evaluate: `strtod` at src/parser.c:17 reads from the token's start into the rest of the input, so with ADVANCE as intended eval_ gives 2000 for `2e3` and 16 for `0x10`, where the model's value of the number token (`2`, `0`) followed by an identifier gives 2 and 0; the header is not affected, since every character `strtod` could read past a number token is a letter, which it lexes as an error token and aborts on.
- Evaluator.EvalExpression: a division by exactly zero, an infinity or NaN in C, is `None`; the model does not say which value C produces.
- `pos` (an `unsigned int`) and token lengths are unbounded naturals: wrap-around beyond 2^32 characters is not modelled.
- Syntax.PrecedenceOf: the out-of-bounds table read for `)` (and `(`) is modelled as PrecMin, the value that ends the loop; what the C code reads there is undefined.
- The duplicate `lex_peek` definition and the unused `is_whitespace` of src/lexer.c have no behaviour to model.
- A token's `lexeme` (`value` in src/eval.h) is modelled as a start index into the input; its aliasing with the input string is not modelled.

## Findings

| source | as written | input that shows it | evidently intended | confidence | as-written member | corrected member |
|---|---|---|---|---|---|---|
| src/parser.c:5 | ADVANCE moves `next` into `cur` and calls the lexer but discards the token it returns, so `next` stays the zero token (TOKEN_ERROR) and the parser never sees the input | `1+2`: eval_ returns 0 | store the lexer's token in `next` | high; not executed | Evaluator.AsWrittenIsZero | StandaloneEval.SplitAgreesWithHeader |
| src/eval.h:352 | `precedence[p->cur.type]` is read with `)` as the current token, an index past the end of the table (likewise src/parser.c:134 with src/parser.c:8-12) | `(2)` | an entry of PREC_MIN for `)` | high; not executed | Syntax.ParenthesesOutsideTables | Grammar.ParenthesisConsultsTable |
| src/eval.h:228-229 | the caret is placed by `pos`, which counts token characters only, so whitespace before the error token moves it left | ` @`: the caret sits under the space | the caret under the offending character | medium; not executed | StandaloneEval.CaretMissesAfterSpace | StandaloneEval.CursorCaretUnderError |
