# Calculator

A model of the `Calculator` object in `Main.kt`. It is a command-line
calculator over arbitrary-precision integers. Each line of input is one of:

- a command (`/help`), answered with a fixed text;
- an assignment (`name = number` or `name = name`), stored in a table of
  variables;
- the name of a variable, echoed;
- an infix expression with `+ - * /` and parentheses.

An expression is handled in four steps:

1. A whole-line shape check (a regular expression).
2. Three textual rewrites that simplify runs of signs.
3. Spacing and splitting into tokens.
4. Dijkstra's shunting-yard conversion to postfix, then evaluation on a stack
   of number texts.

The model is written in Dafny, one module per part of the source:

| module | file | models |
|---|---|---|
| `Outcomes` | `outcomes.dfy` | the faults after which the original throws, plus `Result` and `Option` |
| `Text` | `text.dfy` | `isNum`, `isVar`, decimal text and integers, whitespace |
| `Operators` | `operators.dfy` | `applyOperator` (with truncating division) and `hasPrecedence` |
| `Shape` | `shape.dfy` | the shape check of `performCalculus` |
| `Lexer` | `lexer.dfy` | the sign rewrites, the spacing and the split |
| `ShuntingYard` | `shunting.dfy` | `convertInfixToPostfix`, as functions and as the original's loop |
| `Evaluator` | `evaluator.dfy` | the postfix evaluation loop |
| `Expressions` | `expressions.dfy` | expression trees, and the correctness of conversion and evaluation for them |
| `Interpreter` | `interpreter.dfy` | `performCalculus`, `performAssignment`, `processInput`; the class `Calculator` with its variable store |
| `Scenarios` | `scenarios.dfy` | worked lines of input followed through the whole pipeline |

How the model represents the original:

- **Output.** What `processInput` prints for a line is an `Output` value:
  `Printed(text)`, `Silent` after a successful assignment, or
  `Aborted(fault)` where the original throws.
- **Store.** The store after a line is `NextStore`.
- **State.** The class `Interpreter.Calculator` holds the store as a `map`
  field. Its methods update that field and are proved to agree with these
  functions.
- **The converter.** `convertInfixToPostfix` is a method with the
  original's loops. It is proved to compute `ShuntingYard.ToPostfix`, and
  that function's properties are proved as lemmas.
- **Sign rewrites.** `Lexer.Tokens`, `ShuntingYard.ConvertInfixToPostfix`,
  `Interpreter.Calculus` and everything built on them follow the code as
  written: the three rewrites of Main.kt:69-71 are `Lexer.NormaliseAsWritten`.
  These rewrites leave some runs of signs unresolved (see Findings). The
  rewrite they evidently aim at is `Lexer.Normalise`, and
  `Lexer.IntendedTokens` with `Interpreter.IntendedCalculus` is the
  calculation with it in their place.

## Model

| member | source | states |
|---|---|---|
| Text.NumberIsNoName | Main.kt:6-7 | no token is both a number and a name |
| Text.IntToString | Main.kt:41 | the printed result is number text that parses back to the value, in canonical form |
| Text.ParseThenPrint | Main.kt:39-41 | parsing number text and printing it again gives the same text exactly when it is canonical (no leading zero, no "-0") |
| Text.DigitsRoundTrip | Main.kt:39-41 | a digit string with no leading zero is what printing its value gives |
| Text.SubstringsOfPair | Main.kt:63 | `op in "*/"` holds for "", "*", "/" and "*/" and nothing else |
| Text.RemoveSpacesConcat | Main.kt:72-73 | dropping whitespace distributes over concatenation |
| Operators.HasPrecedenceByTier | Main.kt:63 | for operators: precedence holds iff the operator is multiplicative and the other is not, or the operator is additive and the other is "("; an operator never has precedence over one of its own tier |
| Operators.OperatorPrecedesParen | Main.kt:63 | every operator has precedence over an opening parenthesis |
| Operators.TruncDivRemainder | Main.kt:14 | `BigInteger` division leaves a remainder smaller than the divisor, with the dividend's sign |
| Operators.TruncDivIsNotEuclidean | Main.kt:14 | the source's division rounds toward zero (-7 / 2 is -3), unlike Dafny's |
| Operators.ApplyOperator | Main.kt:10-15 | applying succeeds iff the token is one of the four operators and it is not a division by zero; otherwise the fault says which |
| Shape.Operand | Main.kt:22 | an operand ends on a letter or digit, not followed by another, and uses only the characters the pattern names |
| Shape.ShapeHasAlnum | Main.kt:22 | a line that passes the shape check holds a letter or digit |
| Shape.ShapeChars | Main.kt:22 | a line that passes is non-empty, starts with '(', a sign or an operand character, and holds no character outside the pattern's (no '=') |
| Shape.JuxtapositionPasses | Main.kt:22 | "3  5" (two operands and two spaces) passes, since the sign run may be empty |
| Shape.ParenthesisedOperandFails | Main.kt:22 | "(2)" fails: the first operand cannot be followed by ')' |
| Shape.MixedOperatorFails | Main.kt:22 | "2 +* 3" fails: a sign run and '*' do not combine |
| Lexer.ReplaceDoubleMinus | Main.kt:69 | the result has no "--" and the same characters other than signs |
| Lexer.CollapsePluses | Main.kt:70 | the result has no "++", starts as the text does, and has the same characters other than signs |
| Lexer.ReplacePlusMinus | Main.kt:71 | the result has the same characters other than signs, and starts with '-' where the text starts with "+-" |
| Lexer.ReplacePlusMinusPairs | Main.kt:70-71 | after line 70, line 71 leaves neither "++" nor "+-" |
| Lexer.NormaliseAsWritten | Main.kt:69-71 | the three rewrites in order leave neither "++" nor "+-" and keep the characters other than signs |
| Lexer.Normalise | Main.kt:69-71 | the intended rewrite leaves no two signs in a row, keeps the other characters, and starts with a sign iff the text does |
| Lexer.NormaliseRun | Main.kt:69-71 | a maximal run of signs becomes '-' iff it holds an odd number of '-', and '+' otherwise |
| Lexer.NormaliseOfNormal | Main.kt:69-71 | text without two signs in a row is left unchanged |
| Lexer.ReplaceDoubleMinusKeepsSigns | Main.kt:69 | line 69 does not change what the signs stand for |
| Lexer.CollapsePlusesKeepsSigns | Main.kt:70 | line 70 does not change what the signs stand for |
| Lexer.ReplacePlusMinusKeepsSigns | Main.kt:71 | line 71 does not change what the signs stand for |
| Lexer.AsWrittenAgrees | Main.kt:69-71 | the rewrites as written reach the intended result exactly when they leave no two signs in a row |
| Lexer.AsWrittenOfNormal | Main.kt:69-71 | text without two signs in a row passes the three rewrites unchanged |
| Lexer.SpaceOperatorsKeepsText | Main.kt:72 | spacing the operators changes only whitespace |
| Lexer.SpaceOperatorsSpaced | Main.kt:72 | after spacing, every operator character and every '-' not followed by a digit has a space on each side |
| Lexer.SplitWords | Main.kt:73 | the split gives at least one piece, and the pieces are the text without its whitespace |
| Lexer.SplitLex | Main.kt:72-73 | spacing and splitting equal a direct left-to-right scan into tokens |
| Lexer.TokensAtomic | Main.kt:69-73 | every token is one operator character on its own or holds none |
| Lexer.TokensKeepText | Main.kt:69-73 | the tokens, joined, are the line after the three rewrites as written, without its whitespace |
| Lexer.TokensKeepAlnum | Main.kt:69-73 | every letter or digit of the line is in some token |
| ShuntingYard.ConvertInfixToPostfix | Main.kt:65-124 | the loops of the original compute `ToPostfix` of the tokens |
| ShuntingYard.RunConcat | Main.kt:75-113 | scanning two token lists one after the other equals scanning their concatenation |
| ShuntingYard.RunUnbalanced | Main.kt:93 | once a parenthesis mismatch is found, the rest of the tokens change nothing |
| ShuntingYard.ConvertKeepsTokens | Main.kt:78-121 | a successful conversion keeps the operands in their order and is a permutation of the tokens other than parentheses |
| ShuntingYard.ConvertKeepsToken | Main.kt:78-121 | in a successful conversion, every token other than a parenthesis reaches the output |
| ShuntingYard.CloseParenDepth | Main.kt:86-93 | a ')' fails iff no '(' is open, and otherwise closes one |
| ShuntingYard.PopAndPushDepth | Main.kt:103-111 | an operator never fails and never changes how many '(' are open |
| ShuntingYard.RunDepth | Main.kt:75-113 | the scan ends with no '(' open iff the parentheses of the tokens balance |
| ShuntingYard.FlushDepth | Main.kt:115-121 | the final flush fails iff a '(' is still open |
| ShuntingYard.ConvertFailsIffUnbalanced | Main.kt:86-119 | for operator and operand tokens, the conversion fails iff the parentheses do not balance |
| Evaluator.Eval | Main.kt:32-44 | the evaluation keeps a stack of number texts, which is non-empty when anything was pushed |
| Evaluator.EvalConcat | Main.kt:34-44 | evaluating two postfix lists one after the other equals evaluating their concatenation |
| Expressions.PostorderNonEmpty | Main.kt:65-124 | an expression's postorder is never empty |
| Expressions.TreeEval | Main.kt:36-41 | a successful evaluation of an expression tree is number text |
| Expressions.SpineFacts | Main.kt:98-111 | the operators the scan holds back for a tree bind at least as tightly as the tree, and complete its postorder |
| Expressions.RunRender | Main.kt:75-113 | scanning a tree's tokens outputs everything except the operators held back, which are stacked |
| Expressions.ConvertRender | Main.kt:65-124 | the converter turns the infix tokens of every well-formed expression into that expression's postorder: precedence, left grouping and parentheses as usual |
| Expressions.EvalPostorder | Main.kt:34-44 | evaluating a tree's postorder pushes the tree's value, or stops with its fault |
| Expressions.EvalRender | Main.kt:27-44 | conversion and then evaluation of an expression's tokens give its value as the only stack entry |
| Interpreter.Calculus | Main.kt:20-48 | a calculation always prints or aborts; what it prints is "Invalid Expression" or number text |
| Interpreter.IntendedCalculus | Main.kt:20-48 | with the intended sign rewrite in place of lines 69-71, a calculation still always prints or aborts, and prints "Invalid Expression" or number text |
| Interpreter.CalculusOfTree | Main.kt:20-48 | a line that passes the shape check and whose tokens spell an expression prints that expression's value, or aborts with its fault |
| Interpreter.CalculusOfRender | Main.kt:22-44 | whatever rewrite produced them, tokens that spell an expression, on a line that passes the shape check, give that expression's value or its fault |
| Interpreter.InvalidExpressionIff | Main.kt:22-30 | "Invalid Expression" is printed iff the shape check fails or the conversion fails, that is, for operator and operand tokens, iff the parentheses do not balance |
| Interpreter.EmptyPostfixIffMismatch | Main.kt:27-30 | for a line that passes the shape check, the postfix is empty only when the conversion found a mismatch |
| Interpreter.SplitAt | Main.kt:51 | the pieces hold no separator, and there are at least two when the separator occurs |
| Interpreter.SplitAtCount | Main.kt:51 | splitting gives one piece more than the separator's number of occurrences |
| Interpreter.JoinSplitAt | Main.kt:51 | joining the pieces with the separator gives back the text |
| Interpreter.SplitAssignmentParts | Main.kt:51 | splitting at `\s*=\s*` gives one piece more than the number of '='; the pieces hold no '=', no piece after the first starts with whitespace and no piece before the last ends with it |
| Interpreter.Assign | Main.kt:50-60 | checked in this order: a left part that is no name gives "Invalid identifier"; more than two parts, or a right part that is neither number nor name, gives "Invalid assignment"; an unassigned name on the right gives "Unknown variable"; otherwise the left name is bound to the number text as typed, or to the text the right name holds now |
| Interpreter.AssignStable | Main.kt:55-58 | an assignment that succeeded does the same again in the store it produced |
| Interpreter.Respond | Main.kt:126-135 | nothing is printed only for an assignment line |
| Interpreter.DispatchOrder | Main.kt:128-130 | whatever the store: "/help" prints the help text, any other line starting with '/' prints "Unknown command", the empty line aborts, and a line with '=' is answered by the assignment alone, printing its message when it is rejected |
| Interpreter.NextStore | Main.kt:57-58 | the store holds number texts after every line |
| Interpreter.OnlyAssignmentsChangeStore | Main.kt:53-59 | the store changes only after a successful assignment, and then at the assigned name alone |
| Interpreter.QueryEchoes | Main.kt:131-132 | a name prints its stored text, or "Unknown variable", and leaves the store alone |
| Interpreter.BindStep | Main.kt:57-58 | a successful assignment prints nothing and stores the bound text under the name |
| Interpreter.RepeatIsIdempotent | Main.kt:126-135 | entering the same line twice leaves the store as once, and the second answer is the first |
| Interpreter.RepeatAssignment | Main.kt:50-60 | repeating a successful assignment changes nothing and prints nothing |
| Interpreter.Calculator.constructor | Main.kt:18 | the store starts empty |
| Interpreter.Calculator.PerformCalculus | Main.kt:20-48 | the original's loop prints what `Calculus` says |
| Interpreter.Calculator.EvaluatePostfix | Main.kt:33-44 | the original's stack loop computes `Eval` |
| Interpreter.Calculator.PerformAssignment | Main.kt:50-60 | the printed message and the new store are those of `Assign` |
| Interpreter.Calculator.ProcessInput | Main.kt:126-135 | the answer is `Respond` and the new store is `NextStore` of the old store |
| Scenarios.SignRunAsWritten | Main.kt:69-73 | "1 -+- 2" passes the shape check, the rewrites as written make it "1 -- 2", its postfix is "1 - 2 -", and the line aborts on the empty stack |
| Scenarios.SignRunCorrected | Main.kt:69-71 | with the intended rewrite, "1 -+- 2" becomes "1 + 2", its tokens are 1 + 2, and it prints 3 |
| Scenarios.MinusPlusAsWritten | Main.kt:69-73 | "1 -+ 2" passes the shape check, no rewrite changes it, its tokens are 1 - + 2, its postfix is "1 - 2 +", and the line aborts on the empty stack |
| Scenarios.MinusPlusCorrected | Main.kt:69-71 | with the intended rewrite, "1 -+ 2" becomes "1 - 2", its tokens are 1 - 2, and it prints -1 |
| Scenarios.UnspacedOperatorRejected | Main.kt:22-23 | "1++2" prints "Invalid Expression": operators must be spaced |
| Scenarios.LeftGrouping | Main.kt:98-111 | "5 - 3 - 1" converts to "5 3 - 1 -" |
| Scenarios.ProductFirst | Main.kt:98-111 | "2 + 3 * 4" converts to "2 3 4 * +" |
| Scenarios.ParenthesesFirst | Main.kt:81-93 | "( 2 + 3 ) * 4" converts to "2 3 + 4 *" |
| Scenarios.ConvertPair | Main.kt:98-121 | two operators in a row, the second binding no tighter than the first, convert with the second moved after the next operand, so the first lacks an operand |
| Scenarios.MixedOperandDropsParen | Main.kt:98-109 | the tokens "( 1 + 5a )" balance, yet their conversion fails: "5a" is scanned as an operator and drops the "(" |
| Scenarios.RunDroppingParen | Main.kt:84-109 | in "( a o w )", a token w that takes precedence over neither o nor "(" pops o, drops the "(", and leaves the ")" unmatched |
| Scenarios.EvalUnderflow | Main.kt:39-40 | an operator met with a single operand on the stack underflows it |
| Scenarios.NumberAssignment | Main.kt:51-57 | "a = n", for number text n, prints nothing and stores n under "a" |
| Scenarios.StoredTextEchoed | Main.kt:57 | "a = 007" stores the text "007", which "a" then prints unchanged |
| Scenarios.AssignmentLine | Main.kt:50-58 | "x = t", for a letter x and a number or assigned name t, prints nothing and binds x to t's text, or to the text t holds |
| Scenarios.CopyChain | Main.kt:54-58 | after "x = m", "y = x" and "x = n", the store maps x to n and y to m, and "y" prints m |
| Scenarios.CopyByValue | Main.kt:54-58 | after "x = 5", "y = x" and "x = 9", "y" prints 5: assigning from a name copies its text |
| Scenarios.UndefinedNameAborts | Main.kt:37 | "a + 1" with an empty store aborts on the undefined name |
| Scenarios.UndefinedNameLine | Main.kt:37 | any line "x o d" with an unassigned one-letter name x, an operator o among '+', '*' and '/', and a digit d aborts on that name |
| Scenarios.DivisionByZeroAborts | Main.kt:14 | "1 / 0" aborts with a division by zero |
| Scenarios.DivisionByZeroLine | Main.kt:14 | any line "d / 0" with a digit d aborts with a division by zero |

## Left out

- The `main` loop (Main.kt:138-147) is not modelled, because it is I/O. It
  reads lines, skips empty ones, stops on "/exit" and prints "Bye!". Its one
  effect on a line is `trim()`, and the model takes the line as already
  passed to `processInput`.
- `println` is not modelled. What a line prints is the `Output` value.
- Exceptions are modelled as faults. Where the original throws
  (`s.first()`, `!!`, `removeLast()`, `BigInteger` division by zero), the
  model ends in `Aborted` with the fault. The remaining lines are not
  processed.
- Digits and letters are ASCII only. `toBigIntegerOrNull` also accepts
  non-ASCII Unicode digits, and the model does not. `\s` is modelled as the
  space and the characters 9 to 13, as `java.util.regex` defines it.
- `isNum`, as in the Kotlin library, accepts a leading '-' but rejects a
  leading '+'. "a = +5" therefore answers "Invalid assignment".
- The regular expressions are not modelled by a regex engine. The model
  uses hand-written recognisers for the shape of Main.kt:22, the
  replacements of Main.kt:70 and 72, and the splits of Main.kt:51 and 73.
- `Calculator` is a Kotlin singleton object. The model makes it a class that
  a caller constructs once.
- Operators must be separated by whitespace: the shape check of Main.kt:22
  rejects "1++2", which prints "Invalid Expression"
  (`Scenarios.UnspacedOperatorRejected`).
- Expressions.ConvertRender and Expressions.EvalRender cover expressions
  built from operands, the four operators and parentheses. An operand may
  carry a '-' before its digits, as in "-3 + 1". The lemmas do not cover a
  sign that becomes a token of its own, as in "-a + 1" or "+3". The general
  properties still apply to such lines: ConvertKeepsTokens,
  ConvertFailsIffUnbalanced and InvalidExpressionIff.
- ShuntingYard.ConvertFailsIffUnbalanced and Interpreter.InvalidExpressionIff
  tie a failed conversion to unbalanced parentheses only for lines whose
  tokens are all numbers, names, operators and parentheses. The shape check
  also passes a token that mixes digits and letters, such as "5a". The
  converter treats such a token as an operator, which pops and drops a "(",
  so "(1 + 5a)" prints "Invalid Expression" although its parentheses
  balance (Scenarios.MixedOperandDropsParen).

## Findings

| source | as written | input that shows it | evidently intended | confidence | as-written member | corrected member |
|---|---|---|---|---|---|---|
| Main.kt:69-71 | the three sign rewrites run once each, in the order "--", then runs of "+", then "+-". None of them touches "-+", and "-+-" becomes "--" after the last one, with no rewrite run again. The result agrees with the intended one exactly when it has no two signs in a row (Lexer.AsWrittenAgrees) | "1 -+ 2", the shortest: it passes the shape check, no rewrite changes it, and its tokens 1 - + 2 convert to "1 - 2 +", which throws on the empty stack. "1 -+- 2" becomes "1 -- 2" and throws the same way | every run of signs stands for one sign ('-' for an odd number of '-'), so the lines are "1 - 2" and "1 + 2" and print -1 and 3 | not executed | Scenarios.MinusPlusAsWritten, Scenarios.SignRunAsWritten (with Lexer.NormaliseAsWritten) | Scenarios.MinusPlusCorrected, Scenarios.SignRunCorrected (with Lexer.Normalise, Interpreter.IntendedCalculus) |
