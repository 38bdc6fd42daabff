/** `convertInfixToPostfix` (Main.kt:65-124): Dijkstra's shunting-yard
    conversion of the token list into postfix order, with an operator stack.
    The functions give its meaning one token at a time; the method is the loop
    of the original, proved to compute them. */
module ShuntingYard {
  import opened Outcomes
  import opened Text
  import opened Operators
  import opened Lexer

  /** Main.kt:76: numbers and names are operands, copied to the output. */
  predicate IsOperand(t: string) {
    IsNum(t) || IsVar(t)
  }

  /** The state between two tokens: the operator stack (top last) and the
      output so far, or the state after an unmatched ")" ended the scan. */
  datatype Scan = Scanning(stack: seq<string>, postfix: seq<string>) | Unbalanced

  function Last(s: seq<string>): string
    requires |s| > 0
  {
    s[|s| - 1]
  }

  function Init(s: seq<string>): seq<string>
    requires |s| > 0
  {
    s[..|s| - 1]
  }

  /** Main.kt:84-93: pop to the output until a "(" comes off the stack; an
      empty stack ends the scan. */
  function CloseParen(stack: seq<string>, postfix: seq<string>): Scan
    decreases |stack|
  {
    if stack == [] then Unbalanced
    else if Last(stack) == "(" then Scanning(Init(stack), postfix)
    else CloseParen(Init(stack), postfix + [Last(stack)])
  }

  /** Main.kt:103-111: pop to the output until the top is an operator `op`
      takes precedence over; a "(" reached first is popped and dropped; then
      push `op`. */
  function PopAndPush(op: string, stack: seq<string>, postfix: seq<string>): Scan
    decreases |stack|
  {
    if stack == [] then Scanning([op], postfix)
    else if HasPrecedence(op, Last(stack)) then Scanning(stack + [op], postfix)
    else if Last(stack) == "(" then Scanning(Init(stack) + [op], postfix)
    else PopAndPush(op, Init(stack), postfix + [Last(stack)])
  }

  /** Main.kt:73-112: one token of the scan. */
  function Step(sc: Scan, t: string): Scan {
    match sc
    case Unbalanced => Unbalanced
    case Scanning(stack, postfix) =>
      if IsOperand(t) then Scanning(stack, postfix + [t])
      else if t == "(" then Scanning(stack + [t], postfix)
      else if t == ")" then CloseParen(stack, postfix)
      else if stack == [] || Last(stack) == "(" || HasPrecedence(t, Last(stack)) then Scanning(stack + [t], postfix)
      else PopAndPush(t, stack, postfix)
  }

  /** The scan of the tokens `ts` from the state `sc`. */
  function Run(sc: Scan, ts: seq<string>): Scan
    decreases |ts|
  {
    if ts == [] then sc else Run(Step(sc, ts[0]), ts[1..])
  }

  /** Main.kt:115-120: pop the rest of the stack to the output; a "(" left on
      the stack means the parentheses did not match. */
  function Flush(stack: seq<string>, postfix: seq<string>): Option<seq<string>>
    decreases |stack|
  {
    if stack == [] then Some(postfix)
    else if Last(stack) == "(" then None
    else Flush(Init(stack), postfix + [Last(stack)])
  }

  /** The postfix form of a token list, or None when its parentheses do not match. */
  function Convert(ts: seq<string>): Option<seq<string>> {
    match Run(Scanning([], []), ts)
    case Unbalanced => None
    case Scanning(stack, postfix) => Flush(stack, postfix)
  }

  /** What `convertInfixToPostfix` returns: the cleared list stands for a
      mismatch. */
  function ToPostfix(ts: seq<string>): seq<string> {
    match Convert(ts)
    case None => []
    case Some(p) => p
  }

  /** Main.kt:65-124. */
  method ConvertInfixToPostfix(s: string) returns (postfix: seq<string>)
    ensures postfix == ToPostfix(Tokens(s))
  {
    var stack: seq<string> := [];
    postfix := [];
    var infix := Tokens(s);
    ghost var unbalanced := false;

    label scanner:
    for i := 0 to |infix|
      invariant !unbalanced
      invariant Run(Scanning(stack, postfix), infix[i..]) == Run(Scanning([], []), infix)
    {
      var op := infix[i];
      ghost var before := Scanning(stack, postfix);
      RunStep(before, infix, i);
      if IsNum(op) || IsVar(op) {
        postfix := postfix + [op];
      } else if op == "(" {
        stack := stack + [op];
      } else if op == ")" {
        while stack != []
          invariant CloseParen(stack, postfix) == Step(before, op)
          decreases |stack|
        {
          var op2 := stack[|stack| - 1];
          stack := stack[..|stack| - 1];
          if op2 == "(" {
            assert Step(before, op) == Scanning(stack, postfix);
            continue scanner;
          }
          postfix := postfix + [op2];
        }
        // The stack is empty here: the parentheses did not match.
        RunUnbalanced(infix[i + 1..]);
        assert Run(Scanning([], []), infix) == Unbalanced;
        postfix := [];
        unbalanced := true;
        break scanner;
      } else if stack == [] || stack[|stack| - 1] == "(" || HasPrecedence(op, stack[|stack| - 1]) {
        stack := stack + [op];
      } else {
        while stack != []
          invariant PopAndPush(op, stack, postfix) == Step(before, op)
          decreases |stack|
        {
          if HasPrecedence(op, stack[|stack| - 1]) {
            assert Step(before, op) == Scanning(stack + [op], postfix);
            break;
          }
          var op2 := stack[|stack| - 1];
          stack := stack[..|stack| - 1];
          if op2 == "(" {
            assert Step(before, op) == Scanning(stack + [op], postfix);
            break;
          }
          postfix := postfix + [op2];
        }
        stack := stack + [op];
      }
      assert Step(before, op) == Scanning(stack, postfix);
    }
    assert !unbalanced ==> infix[|infix|..] == [] && Run(Scanning([], []), infix) == Scanning(stack, postfix);

    while stack != []
      invariant !unbalanced ==> Flush(stack, postfix) == Convert(infix)
      invariant unbalanced ==> stack == [] && postfix == [] && Convert(infix) == None
      decreases |stack|
    {
      var op2 := stack[|stack| - 1];
      stack := stack[..|stack| - 1];
      if op2 == "(" {
        postfix := [];
        break;
      }
      postfix := postfix + [op2];
    }
  }

  /** Scanning from token `i` is one step, then scanning from token `i + 1`. */
  lemma RunStep(sc: Scan, ts: seq<string>, i: nat)
    requires i < |ts|
    ensures Run(sc, ts[i..]) == Run(Step(sc, ts[i]), ts[i + 1..])
  {
    assert ts[i..][0] == ts[i] && ts[i..][1..] == ts[i + 1..];
  }

  /** Once the scan has ended, the remaining tokens change nothing. */
  lemma {:induction false} RunUnbalanced(ts: seq<string>)
    ensures Run(Unbalanced, ts) == Unbalanced
    decreases |ts|
  {
    if ts != [] {
      RunUnbalanced(ts[1..]);
    }
  }

  /** Scanning `a + b` is scanning `a`, then `b`. */
  lemma {:induction false} RunConcat(sc: Scan, a: seq<string>, b: seq<string>)
    ensures Run(sc, a + b) == Run(Run(sc, a), b)
    decreases |a|
  {
    if a == [] {
      assert a + b == b;
    } else {
      assert (a + b)[0] == a[0] && (a + b)[1..] == a[1..] + b;
      RunConcat(Step(sc, a[0]), a[1..], b);
    }
  }

  predicate IsParen(t: string) {
    t == "(" || t == ")"
  }

  /** A one-character token that is neither a digit nor a letter is no operand. */
  lemma SymbolIsNoOperand(t: string)
    requires |t| == 1 && !IsDigit(t[0]) && !IsLetter(t[0])
    ensures !IsOperand(t)
  {
  }

  /** Operators and parentheses are no operands, and no operator is a parenthesis. */
  lemma OperatorIsNoOperand(t: string)
    requires IsOperator(t) || IsParen(t)
    ensures !IsOperand(t)
    ensures IsOperator(t) ==> !IsParen(t)
  {
    SymbolIsNoOperand(t);
  }

  /** The tokens that the conversion copies to its output: all but the
      parentheses, in order. */
  function NonParens(ts: seq<string>): (r: seq<string>)
    ensures |r| <= |ts|
    decreases |ts|
  {
    if ts == [] then []
    else if IsParen(Last(ts)) then NonParens(Init(ts))
    else NonParens(Init(ts)) + [Last(ts)]
  }

  /** The operands of `ts`, in order. */
  function Operands(ts: seq<string>): (r: seq<string>)
    ensures |r| <= |ts|
    decreases |ts|
  {
    if ts == [] then []
    else if IsOperand(Last(ts)) then Operands(Init(ts)) + [Last(ts)]
    else Operands(Init(ts))
  }

  lemma {:induction false} NonParensConcat(a: seq<string>, b: seq<string>)
    ensures NonParens(a + b) == NonParens(a) + NonParens(b)
    decreases |b|
  {
    if b == [] {
      assert a + b == a;
    } else {
      assert Init(a + b) == a + Init(b) && Last(a + b) == Last(b);
      NonParensConcat(a, Init(b));
    }
  }

  lemma {:induction false} OperandsConcat(a: seq<string>, b: seq<string>)
    ensures Operands(a + b) == Operands(a) + Operands(b)
    decreases |b|
  {
    if b == [] {
      assert a + b == a;
    } else {
      assert Init(a + b) == a + Init(b) && Last(a + b) == Last(b);
      OperandsConcat(a, Init(b));
    }
  }

  lemma {:induction false} NonParensKeeps(ts: seq<string>, k: nat)
    requires k < |ts| && !IsParen(ts[k])
    ensures ts[k] in NonParens(ts)
    decreases |ts|
  {
    if k < |ts| - 1 {
      assert Init(ts)[k] == ts[k];
      NonParensKeeps(Init(ts), k);
    }
  }

  /** One token, appended, is kept or dropped by each filter. */
  lemma FiltersOfOne(t: string)
    ensures NonParens([t]) == if IsParen(t) then [] else [t]
    ensures Operands([t]) == if IsOperand(t) then [t] else []
  {
    assert Init([t]) == [] && Last([t]) == t;
  }

  /** The operands of the output are the operands consumed, in order. */
  predicate OperandsKept(consumed: seq<string>, postfix: seq<string>) {
    Operands(postfix) == Operands(consumed)
  }

  /** The other tokens consumed, parentheses aside, are on the output or the
      stack, each as often as it was consumed. */
  predicate TokensKept(consumed: seq<string>, stack: seq<string>, postfix: seq<string>) {
    multiset(postfix) + multiset(NonParens(stack)) == multiset(NonParens(consumed))
  }

  /** A token the stack can hold: an operator or "(". */
  predicate Stackable(t: string) {
    !IsOperand(t) && t != ")"
  }

  predicate StackHolds(stack: seq<string>) {
    forall k | 0 <= k < |stack| :: Stackable(stack[k])
  }

  /** What the tokens consumed so far have become. */
  predicate Accounts(consumed: seq<string>, stack: seq<string>, postfix: seq<string>) {
    OperandsKept(consumed, postfix) && TokensKept(consumed, stack, postfix) && StackHolds(stack)
  }

  lemma StackPush(stack: seq<string>, t: string)
    requires StackHolds(stack) && Stackable(t)
    ensures StackHolds(stack + [t])
  {
    var s := stack + [t];
    assert forall k | 0 <= k < |s| :: s[k] == (if k < |stack| then stack[k] else t);
  }

  lemma StackPop(stack: seq<string>)
    requires StackHolds(stack) && |stack| > 0
    ensures StackHolds(Init(stack)) && Stackable(Last(stack))
  {
    assert forall k | 0 <= k < |Init(stack)| :: Init(stack)[k] == stack[k];
  }

  /** Moving a non-operand from the stack to the output keeps the multiset part. */
  lemma TokensMove(consumed: seq<string>, stack: seq<string>, postfix: seq<string>)
    requires TokensKept(consumed, stack, postfix) && |stack| > 0 && !IsParen(Last(stack))
    ensures TokensKept(consumed, Init(stack), postfix + [Last(stack)])
  {
    var x := Last(stack);
    assert stack == Init(stack) + [x];
    NonParensConcat(Init(stack), [x]);
    FiltersOfOne(x);
  }

  /** A token appended that is no operand leaves the operands as they are. */
  lemma OperandsSkip(a: seq<string>, t: string)
    requires !IsOperand(t)
    ensures Operands(a + [t]) == Operands(a)
  {
    OperandsConcat(a, [t]);
    FiltersOfOne(t);
  }

  /** Moving a non-operand from the stack to the output keeps the account. */
  lemma MoveKeepsAccount(consumed: seq<string>, stack: seq<string>, postfix: seq<string>)
    requires Accounts(consumed, stack, postfix) && |stack| > 0 && Last(stack) != "("
    ensures Accounts(consumed, Init(stack), postfix + [Last(stack)])
  {
    StackPop(stack);
    OperandsSkip(postfix, Last(stack));
    TokensMove(consumed, stack, postfix);
  }

  /** Dropping a "(" from the stack keeps the account. */
  lemma DropKeepsAccount(consumed: seq<string>, stack: seq<string>, postfix: seq<string>)
    requires Accounts(consumed, stack, postfix) && |stack| > 0 && Last(stack) == "("
    ensures Accounts(consumed, Init(stack), postfix)
  {
    StackPop(stack);
    assert stack == Init(stack) + ["("];
    NonParensConcat(Init(stack), ["("]);
    FiltersOfOne("(");
  }

  /** The same token appended to both sides keeps their operands equal. */
  lemma OperandsAppend(a: seq<string>, b: seq<string>, t: string)
    requires Operands(a) == Operands(b)
    ensures Operands(a + [t]) == Operands(b + [t])
  {
    OperandsConcat(a, [t]);
    OperandsConcat(b, [t]);
  }

  /** A token consumed and put on the stack keeps the multiset part. */
  lemma TokensPush(consumed: seq<string>, stack: seq<string>, postfix: seq<string>, t: string)
    requires TokensKept(consumed, stack, postfix)
    ensures TokensKept(consumed + [t], stack + [t], postfix)
  {
    NonParensConcat(consumed, [t]);
    NonParensConcat(stack, [t]);
    FiltersOfOne(t);
  }

  /** A token other than a parenthesis, consumed and put on the output, keeps
      the multiset part. */
  lemma TokensOutput(consumed: seq<string>, stack: seq<string>, postfix: seq<string>, t: string)
    requires TokensKept(consumed, stack, postfix) && !IsParen(t)
    ensures TokensKept(consumed + [t], stack, postfix + [t])
  {
    NonParensConcat(consumed, [t]);
    FiltersOfOne(t);
  }

  /** Consuming a token that goes onto the stack keeps the account. */
  lemma PushKeepsAccount(consumed: seq<string>, stack: seq<string>, postfix: seq<string>, t: string)
    requires Accounts(consumed, stack, postfix) && !IsOperand(t) && t != ")"
    ensures Accounts(consumed + [t], stack + [t], postfix)
  {
    OperandsSkip(consumed, t);
    TokensPush(consumed, stack, postfix, t);
    StackPush(stack, t);
  }

  /** Copying an operand to the output keeps the account. */
  lemma OutputKeepsAccount(consumed: seq<string>, stack: seq<string>, postfix: seq<string>, t: string)
    requires Accounts(consumed, stack, postfix) && IsOperand(t)
    ensures Accounts(consumed + [t], stack, postfix + [t])
  {
    OperandsAppend(postfix, consumed, t);
    OperatorIsNoOperand("(");
    OperatorIsNoOperand(")");
    TokensOutput(consumed, stack, postfix, t);
  }

  /** A ")" consumed adds nothing to the account. */
  lemma CloseKeepsAccount(consumed: seq<string>, stack: seq<string>, postfix: seq<string>)
    ensures Accounts(consumed, stack, postfix) <==> Accounts(consumed + [")"], stack, postfix)
  {
    OperatorIsNoOperand(")");
    OperandsSkip(consumed, ")");
    NonParensConcat(consumed, [")"]);
    FiltersOfOne(")");
    assert NonParens(consumed + [")"]) == NonParens(consumed);
  }

  lemma {:induction false} CloseParenAccounts(consumed: seq<string>, stack: seq<string>, postfix: seq<string>)
    requires Accounts(consumed, stack, postfix)
    ensures CloseParen(stack, postfix).Scanning? ==>
              Accounts(consumed, CloseParen(stack, postfix).stack, CloseParen(stack, postfix).postfix)
    decreases |stack|
  {
    if stack != [] {
      if Last(stack) == "(" {
        DropKeepsAccount(consumed, stack, postfix);
      } else {
        MoveKeepsAccount(consumed, stack, postfix);
        CloseParenAccounts(consumed, Init(stack), postfix + [Last(stack)]);
      }
    }
  }

  lemma {:induction false} PopAndPushAccounts(consumed: seq<string>, stack: seq<string>, postfix: seq<string>, op: string)
    requires Accounts(consumed, stack, postfix) && !IsOperand(op) && op != ")"
    ensures PopAndPush(op, stack, postfix).Scanning?
    ensures Accounts(consumed + [op], PopAndPush(op, stack, postfix).stack, PopAndPush(op, stack, postfix).postfix)
    decreases |stack|
  {
    if stack == [] || HasPrecedence(op, Last(stack)) {
      PushKeepsAccount(consumed, stack, postfix, op);
    } else if Last(stack) == "(" {
      DropKeepsAccount(consumed, stack, postfix);
      PushKeepsAccount(consumed, Init(stack), postfix, op);
    } else {
      MoveKeepsAccount(consumed, stack, postfix);
      PopAndPushAccounts(consumed, Init(stack), postfix + [Last(stack)], op);
    }
  }

  lemma StepAccounts(consumed: seq<string>, stack: seq<string>, postfix: seq<string>, t: string)
    requires Accounts(consumed, stack, postfix)
    ensures Step(Scanning(stack, postfix), t).Scanning? ==>
              Accounts(consumed + [t], Step(Scanning(stack, postfix), t).stack, Step(Scanning(stack, postfix), t).postfix)
  {
    if IsOperand(t) {
      OutputKeepsAccount(consumed, stack, postfix, t);
    } else if t == ")" {
      CloseParenAccounts(consumed, stack, postfix);
      CloseKeepsAccount(consumed, stack, postfix);
    } else if t == "(" || stack == [] || Last(stack) == "(" || HasPrecedence(t, Last(stack)) {
      PushKeepsAccount(consumed, stack, postfix, t);
    } else {
      PopAndPushAccounts(consumed, stack, postfix, t);
    }
  }

  lemma {:induction false} RunAccounts(consumed: seq<string>, stack: seq<string>, postfix: seq<string>, ts: seq<string>)
    requires Accounts(consumed, stack, postfix)
    ensures Run(Scanning(stack, postfix), ts).Scanning? ==>
              Accounts(consumed + ts, Run(Scanning(stack, postfix), ts).stack, Run(Scanning(stack, postfix), ts).postfix)
    decreases |ts|
  {
    if ts == [] {
      assert consumed + ts == consumed;
    } else {
      StepAccounts(consumed, stack, postfix, ts[0]);
      assert consumed + ts == (consumed + [ts[0]]) + ts[1..];
      match Step(Scanning(stack, postfix), ts[0])
      case Unbalanced => RunUnbalanced(ts[1..]);
      case Scanning(st, pf) => RunAccounts(consumed + [ts[0]], st, pf, ts[1..]);
    }
  }

  lemma {:induction false} FlushAccounts(consumed: seq<string>, stack: seq<string>, postfix: seq<string>)
    requires Accounts(consumed, stack, postfix)
    ensures Flush(stack, postfix).Some? ==> Accounts(consumed, [], Flush(stack, postfix).value)
    decreases |stack|
  {
    if stack != [] && Last(stack) != "(" {
      MoveKeepsAccount(consumed, stack, postfix);
      FlushAccounts(consumed, Init(stack), postfix + [Last(stack)]);
    }
  }

  /** A successful conversion outputs the operands in their input order, and
      every token but the parentheses exactly as often as the input has it. */
  lemma ConvertKeepsTokens(ts: seq<string>)
    requires Convert(ts).Some?
    ensures Operands(Convert(ts).value) == Operands(ts)
    ensures multiset(Convert(ts).value) == multiset(NonParens(ts))
  {
    assert Accounts([], [], []);
    RunAccounts([], [], [], ts);
    assert [] + ts == ts;
    var sc := Run(Scanning([], []), ts);
    FlushAccounts(ts, sc.stack, sc.postfix);
    assert NonParens([]) == [];
  }

  /** A successful conversion keeps every token that is not a parenthesis. */
  lemma ConvertKeepsToken(ts: seq<string>, k: nat)
    requires Convert(ts).Some? && k < |ts| && !IsParen(ts[k])
    ensures ts[k] in Convert(ts).value
  {
    NonParensKeeps(ts, k);
    ConvertKeepsTokens(ts);
    assert ts[k] in multiset(NonParens(ts));
  }

  /** The tokens the tokeniser makes of well-typed input: operands, the four
      operators and parentheses. */
  predicate StdToken(t: string) {
    IsOperand(t) || IsOperator(t) || IsParen(t)
  }

  /** Reference definition of matching parentheses: reading left to right
      from depth `depth`, no ")" goes below depth zero and the input ends at
      depth zero. */
  predicate BalancedFrom(ts: seq<string>, depth: nat)
    decreases |ts|
  {
    if ts == [] then depth == 0
    else if ts[0] == "(" then BalancedFrom(ts[1..], depth + 1)
    else if ts[0] == ")" then depth > 0 && BalancedFrom(ts[1..], depth - 1)
    else BalancedFrom(ts[1..], depth)
  }

  predicate Balanced(ts: seq<string>) {
    BalancedFrom(ts, 0)
  }

  predicate OpStack(stack: seq<string>) {
    forall k | 0 <= k < |stack| :: stack[k] == "(" || IsOperator(stack[k])
  }

  /** How many "(" are on the stack. */
  function Opens(stack: seq<string>): nat {
    multiset(stack)["("]
  }

  lemma OpensInit(stack: seq<string>)
    requires |stack| > 0
    ensures Opens(stack) == Opens(Init(stack)) + (if Last(stack) == "(" then 1 else 0)
  {
    assert stack == Init(stack) + [Last(stack)];
  }

  lemma {:induction false} CloseParenDepth(stack: seq<string>, postfix: seq<string>)
    requires OpStack(stack)
    ensures CloseParen(stack, postfix).Unbalanced? <==> Opens(stack) == 0
    ensures CloseParen(stack, postfix).Scanning? ==>
              OpStack(CloseParen(stack, postfix).stack) && Opens(CloseParen(stack, postfix).stack) == Opens(stack) - 1
    decreases |stack|
  {
    if stack != [] {
      OpensInit(stack);
      if Last(stack) != "(" {
        CloseParenDepth(Init(stack), postfix + [Last(stack)]);
      }
    }
  }

  /** An operator never pops a "(": the stack keeps its parentheses. */
  lemma {:induction false} PopAndPushDepth(op: string, stack: seq<string>, postfix: seq<string>)
    requires IsOperator(op) && OpStack(stack)
    ensures PopAndPush(op, stack, postfix).Scanning?
    ensures OpStack(PopAndPush(op, stack, postfix).stack)
    ensures Opens(PopAndPush(op, stack, postfix).stack) == Opens(stack)
    decreases |stack|
  {
    if stack != [] {
      OperatorPrecedesParen(op);
      OpensInit(stack);
      if !HasPrecedence(op, Last(stack)) {
        PopAndPushDepth(op, Init(stack), postfix + [Last(stack)]);
      } else {
        OpensInit(stack + [op]);
      }
    } else {
      assert Opens([op]) == 0;
    }
  }

  lemma StepDepth(stack: seq<string>, postfix: seq<string>, t: string)
    requires OpStack(stack) && StdToken(t)
    ensures Step(Scanning(stack, postfix), t).Unbalanced? <==> t == ")" && Opens(stack) == 0
    ensures Step(Scanning(stack, postfix), t).Scanning? ==>
              OpStack(Step(Scanning(stack, postfix), t).stack) &&
              Opens(Step(Scanning(stack, postfix), t).stack) ==
                if t == "(" then Opens(stack) + 1 else if t == ")" then Opens(stack) - 1 else Opens(stack)
  {
    if IsOperand(t) {
    } else if t == "(" {
      OpensInit(stack + [t]);
    } else if t == ")" {
      CloseParenDepth(stack, postfix);
    } else if stack == [] || Last(stack) == "(" || HasPrecedence(t, Last(stack)) {
      OpensInit(stack + [t]);
    } else {
      PopAndPushDepth(t, stack, postfix);
    }
  }

  lemma {:induction false} RunDepth(stack: seq<string>, postfix: seq<string>, ts: seq<string>)
    requires OpStack(stack) && forall k | 0 <= k < |ts| :: StdToken(ts[k])
    ensures Run(Scanning(stack, postfix), ts).Scanning? ==> OpStack(Run(Scanning(stack, postfix), ts).stack)
    ensures (Run(Scanning(stack, postfix), ts).Scanning? && Opens(Run(Scanning(stack, postfix), ts).stack) == 0)
              <==> BalancedFrom(ts, Opens(stack))
    decreases |ts|
  {
    if ts != [] {
      StepDepth(stack, postfix, ts[0]);
      match Step(Scanning(stack, postfix), ts[0])
      case Unbalanced => RunUnbalanced(ts[1..]);
      case Scanning(st, pf) => RunDepth(st, pf, ts[1..]);
    }
  }

  lemma {:induction false} FlushDepth(stack: seq<string>, postfix: seq<string>)
    requires OpStack(stack)
    ensures Flush(stack, postfix).Some? <==> Opens(stack) == 0
    decreases |stack|
  {
    if stack != [] {
      OpensInit(stack);
      if Last(stack) != "(" {
        FlushDepth(Init(stack), postfix + [Last(stack)]);
      }
    }
  }

  /** For operands, operators and parentheses, the conversion fails exactly
      when the parentheses do not match. */
  lemma ConvertFailsIffUnbalanced(ts: seq<string>)
    requires forall k | 0 <= k < |ts| :: StdToken(ts[k])
    ensures Convert(ts).Some? <==> Balanced(ts)
  {
    RunDepth([], [], ts);
    match Run(Scanning([], []), ts)
    case Unbalanced =>
    case Scanning(st, pf) => FlushDepth(st, pf);
  }
}
