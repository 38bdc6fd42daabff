/** The infix expressions the calculator is meant to read, as trees, and what
    the converter and the evaluator make of them: the shunting-yard scan turns
    the infix tokens of a tree into the tree's postorder, and the stack machine
    evaluates the postorder to the tree's value. The precedence rules are the
    usual ones: '*' and '/' bind more tightly than '+' and '-', and operators
    of one tier group to the left (Main.kt:63, 98-111). */
module Expressions {
  import opened Outcomes
  import opened Text
  import opened Operators
  import opened ShuntingYard
  import opened Evaluator

  datatype Expr =
    | Leaf(token: string)
    | Binary(op: string, left: Expr, right: Expr)
    | Paren(inner: Expr)

  /** The tier of an operator: 2 for '*' and '/', 1 for '+' and '-'. */
  function OpTier(op: string): nat {
    if IsMultiplicative(op) then 2 else 1
  }

  /** How tightly an expression holds together: an operand or a parenthesised
      expression does not come apart at all. */
  function Tier(e: Expr): nat {
    match e
    case Leaf(_) => 3
    case Paren(_) => 3
    case Binary(op, _, _) => OpTier(op)
  }

  /** A tree that its infix rendering denotes: operands at the leaves, and a
      parenthesis wherever precedence or left grouping would otherwise regroup
      the operands. */
  predicate WellFormed(e: Expr) {
    match e
    case Leaf(t) => IsOperand(t)
    case Paren(i) => WellFormed(i)
    case Binary(op, l, r) =>
      IsOperator(op) && WellFormed(l) && WellFormed(r) && Tier(l) >= OpTier(op) && Tier(r) > OpTier(op)
  }

  /** The infix tokens of a tree. */
  function Render(e: Expr): seq<string> {
    match e
    case Leaf(t) => [t]
    case Paren(i) => ["("] + Render(i) + [")"]
    case Binary(op, l, r) => Render(l) + [op] + Render(r)
  }

  function Postorder(e: Expr): seq<string> {
    match e
    case Leaf(t) => [t]
    case Paren(i) => Postorder(i)
    case Binary(op, l, r) => Postorder(l) + Postorder(r) + [op]
  }

  lemma {:induction false} PostorderNonEmpty(e: Expr)
    ensures |Postorder(e)| > 0
  {
    if e.Paren? {
      PostorderNonEmpty(e.inner);
    }
  }

  /** The value of a tree, as the text the evaluation stack holds for it: the
      operand as written or as stored, or the printed result of the operator.
      Faults arise left to right, as in the postorder. */
  function TreeEval(e: Expr, vars: map<string, string>): (r: Result<string>)
    requires WellFormed(e) && ValidStore(vars)
    ensures r.Ok? ==> IsNum(r.value)
  {
    match e
    case Leaf(t) =>
      if IsNum(t) then Ok(t) else if t in vars then Ok(vars[t]) else Err(UndefinedName)
    case Paren(i) => TreeEval(i, vars)
    case Binary(op, l, r) =>
      match TreeEval(l, vars)
      case Err(f) => Err(f)
      case Ok(x) =>
        match TreeEval(r, vars)
        case Err(f) => Err(f)
        case Ok(y) =>
          match ApplyOperator(op, ParseInt(x), ParseInt(y))
          case Err(f) => Err(f)
          case Ok(v) => Ok(IntToString(v))
  }

  /** The operators still on the stack once the tokens of `e` are scanned:
      the chain of operators down the right edge of the tree. */
  function Spine(e: Expr): seq<string> {
    match e
    case Binary(op, _, r) => [op] + Spine(r)
    case _ => []
  }

  /** The tokens output while the tokens of `e` are scanned. */
  function Emitted(e: Expr): seq<string> {
    match e
    case Leaf(t) => [t]
    case Paren(i) => Postorder(i)
    case Binary(_, l, r) => Postorder(l) + Emitted(r)
  }

  /** `s` taken from its last element to its first, as it comes off a stack. */
  function Reverse(s: seq<string>): (r: seq<string>)
    ensures |r| == |s|
  {
    if s == [] then [] else [Last(s)] + Reverse(Init(s))
  }

  lemma {:induction false} ReverseCons(x: string, s: seq<string>)
    ensures Reverse([x] + s) == Reverse(s) + [x]
    decreases |s|
  {
    if s != [] {
      assert Last([x] + s) == Last(s) && Init([x] + s) == [x] + Init(s);
      ReverseCons(x, Init(s));
    } else {
      assert Init([x]) == [];
    }
  }

  /** The operators on the spine have at least the tier of the tree, and
      popping them after the emitted tokens completes the postorder. */
  lemma SpineFacts(e: Expr)
    requires WellFormed(e)
    ensures forall k | 0 <= k < |Spine(e)| :: IsOperator(Spine(e)[k]) && OpTier(Spine(e)[k]) >= Tier(e)
    ensures Emitted(e) + Reverse(Spine(e)) == Postorder(e)
  {
    SpineTiers(e);
    SpineCompletes(e);
  }

  lemma {:induction false} SpineTiers(e: Expr)
    requires WellFormed(e)
    ensures forall k | 0 <= k < |Spine(e)| :: IsOperator(Spine(e)[k]) && OpTier(Spine(e)[k]) >= Tier(e)
  {
    if e.Binary? {
      SpineTiers(e.right);
      assert forall k | 1 <= k < |Spine(e)| :: Spine(e)[k] == Spine(e.right)[k - 1];
    }
  }

  lemma {:induction false} SpineCompletes(e: Expr)
    ensures Emitted(e) + Reverse(Spine(e)) == Postorder(e)
  {
    if e.Binary? {
      var l, r := e.left, e.right;
      SpineCompletes(r);
      ReverseCons(e.op, Spine(r));
      ConcatAssoc(Postorder(l) + Emitted(r), Reverse(Spine(r)), [e.op]);
      ConcatAssoc(Postorder(l), Emitted(r), Reverse(Spine(r)));
    } else {
      assert Spine(e) == [];
    }
  }

  /** A stack on which the scan of an expression of tier `tier` begins
      without popping anything below it. */
  predicate Admits(stack: seq<string>, tier: nat) {
    stack == [] || tier >= 3 || Last(stack) == "(" || (tier == 2 && IsAdditive(Last(stack)))
  }

  /** An operator pops the spine left by its left operand, and nothing below it. */
  lemma {:induction false} PopAndPushSpine(op: string, stack: seq<string>, spine: seq<string>, postfix: seq<string>)
    requires IsOperator(op) && Admits(stack, OpTier(op))
    requires forall k | 0 <= k < |spine| :: IsOperator(spine[k]) && OpTier(spine[k]) >= OpTier(op)
    ensures PopAndPush(op, stack + spine, postfix) == Scanning(stack + [op], postfix + Reverse(spine))
    decreases |spine|
  {
    if spine == [] {
      assert stack + spine == stack;
      OperatorPrecedesParen(op);
      if stack != [] && Last(stack) != "(" {
        HasPrecedenceByTier(op, Last(stack));
      }
    } else {
      var top := Last(spine);
      TopOfSpine(stack, spine);
      HasPrecedenceByTier(op, top);
      assert PopAndPush(op, stack + spine, postfix) == PopAndPush(op, stack + Init(spine), postfix + [top]);
      PopAndPushSpine(op, stack, Init(spine), postfix + [top]);
      ReverseSnoc(postfix, top, Init(spine));
    }
  }

  /** What an operator token does to the scan. */
  lemma StepOnOperator(op: string, stack: seq<string>, postfix: seq<string>)
    requires IsOperator(op)
    ensures Step(Scanning(stack, postfix), op) ==
              if stack == [] || Last(stack) == "(" || HasPrecedence(op, Last(stack)) then Scanning(stack + [op], postfix)
              else PopAndPush(op, stack, postfix)
  {
    OperatorIsNoOperand(op);
  }

  lemma StepOperator(op: string, stack: seq<string>, spine: seq<string>, postfix: seq<string>)
    requires IsOperator(op) && Admits(stack, OpTier(op))
    requires forall k | 0 <= k < |spine| :: IsOperator(spine[k]) && OpTier(spine[k]) >= OpTier(op)
    ensures Step(Scanning(stack + spine, postfix), op) == Scanning(stack + [op], postfix + Reverse(spine))
  {
    PopAndPushSpine(op, stack, spine, postfix);
    StepOnOperator(op, stack + spine, postfix);
    if spine == [] {
      assert stack + spine == stack;
      if stack != [] && Last(stack) != "(" {
        HasPrecedenceByTier(op, Last(stack));
      }
    } else {
      assert Last(stack + spine) == Last(spine);
      HasPrecedenceByTier(op, Last(spine));
    }
  }

  /** A ")" pops the operators above the matching "(". */
  lemma {:induction false} CloseParenSpine(stack: seq<string>, spine: seq<string>, postfix: seq<string>)
    requires forall k | 0 <= k < |spine| :: IsOperator(spine[k])
    ensures CloseParen(stack + ["("] + spine, postfix) == Scanning(stack, postfix + Reverse(spine))
    decreases |spine|
  {
    var below := stack + ["("];
    if spine == [] {
      assert below + spine == below;
      assert Init(below) == stack;
    } else {
      var top := Last(spine);
      TopOfSpine(below, spine);
      assert top != "(";
      assert CloseParen(below + spine, postfix) == CloseParen(below + Init(spine), postfix + [top]);
      CloseParenSpine(stack, Init(spine), postfix + [top]);
      ReverseSnoc(postfix, top, Init(spine));
    }
  }

  /** The top of a stack with a non-empty spine on it is the spine's top. */
  lemma TopOfSpine(below: seq<string>, spine: seq<string>)
    requires spine != []
    ensures Last(below + spine) == Last(spine) && Init(below + spine) == below + Init(spine)
  {
  }

  lemma ReverseSnoc(postfix: seq<string>, top: string, rest: seq<string>)
    ensures postfix + [top] + Reverse(rest) == postfix + Reverse(rest + [top])
  {
    assert Last(rest + [top]) == top && Init(rest + [top]) == rest;
  }

  lemma {:induction false} FlushSpine(spine: seq<string>, postfix: seq<string>)
    requires forall k | 0 <= k < |spine| :: IsOperator(spine[k])
    ensures Flush(spine, postfix) == Some(postfix + Reverse(spine))
    decreases |spine|
  {
    if spine != [] {
      assert IsOperator(Last(spine));
      assert Flush(spine, postfix) == Flush(Init(spine), postfix + [Last(spine)]);
      FlushSpine(Init(spine), postfix + [Last(spine)]);
      ConcatAssoc(postfix, [Last(spine)], Reverse(Init(spine)));
    } else {
      assert postfix + Reverse(spine) == postfix;
    }
  }

  lemma RunOne(sc: Scan, t: string)
    ensures Run(sc, [t]) == Step(sc, t)
  {
  }

  /** Scanning the tokens of a tree leaves its spine on the stack and its
      emitted tokens on the output, and touches nothing below. */
  lemma {:induction false} RunRender(e: Expr, stack: seq<string>, postfix: seq<string>)
    requires WellFormed(e) && Admits(stack, Tier(e))
    ensures Run(Scanning(stack, postfix), Render(e)) == Scanning(stack + Spine(e), postfix + Emitted(e))
    decreases e, 1
  {
    match e
    case Leaf(t) =>
      RunOne(Scanning(stack, postfix), t);
      assert stack + Spine(e) == stack;
    case Paren(i) =>
      RunParen(i, stack, postfix);
      assert stack + Spine(e) == stack;
    case Binary(op, l, r) =>
      RunBinary(op, l, r, stack, postfix);
      ConcatAssoc(stack, [op], Spine(r));
      ConcatAssoc(postfix, Postorder(l), Emitted(r));
  }

  lemma {:induction false} RunParen(i: Expr, stack: seq<string>, postfix: seq<string>)
    requires WellFormed(i)
    ensures Run(Scanning(stack, postfix), Render(Paren(i))) == Scanning(stack, postfix + Postorder(i))
    decreases Paren(i), 0
  {
    var start := Scanning(stack, postfix);
    var withParen := Scanning(stack + ["("], postfix);
    var inside := Scanning(stack + ["("] + Spine(i), postfix + Emitted(i));
    RunParenSplit(start, i);
    RunOne(start, "(");
    RunRender(i, stack + ["("], postfix);
    assert Run(withParen, Render(i)) == inside;
    CloseParenStep(i, stack, postfix);
  }

  lemma RunParenSplit(sc: Scan, i: Expr)
    ensures Run(sc, Render(Paren(i))) == Run(Run(Run(sc, ["("]), Render(i)), [")"])
  {
    RunConcat(sc, ["("] + Render(i), [")"]);
    RunConcat(sc, ["("], Render(i));
  }

  lemma CloseParenStep(i: Expr, stack: seq<string>, postfix: seq<string>)
    requires WellFormed(i)
    ensures Run(Scanning(stack + ["("] + Spine(i), postfix + Emitted(i)), [")"]) == Scanning(stack, postfix + Postorder(i))
  {
    SpineFacts(i);
    RunOne(Scanning(stack + ["("] + Spine(i), postfix + Emitted(i)), ")");
    OperatorIsNoOperand(")");
    CloseParenSpine(stack, Spine(i), postfix + Emitted(i));
    ConcatAssoc(postfix, Emitted(i), Reverse(Spine(i)));
  }

  lemma {:induction false} RunBinary(op: string, l: Expr, r: Expr, stack: seq<string>, postfix: seq<string>)
    requires WellFormed(Binary(op, l, r)) && Admits(stack, OpTier(op))
    ensures Run(Scanning(stack, postfix), Render(Binary(op, l, r))) ==
              Scanning(stack + [op] + Spine(r), postfix + Postorder(l) + Emitted(r))
    decreases Binary(op, l, r), 0
  {
    var start := Scanning(stack, postfix);
    RunBinarySplit(start, op, l, r);
    RunRender(l, stack, postfix);
    OperatorStep(op, l, stack, postfix);
    RunRender(r, stack + [op], postfix + Postorder(l));
  }

  lemma RunBinarySplit(sc: Scan, op: string, l: Expr, r: Expr)
    ensures Run(sc, Render(Binary(op, l, r))) == Run(Run(Run(sc, Render(l)), [op]), Render(r))
  {
    RunConcat(sc, Render(l) + [op], Render(r));
    RunConcat(sc, Render(l), [op]);
  }

  /** The operator of a tree pops the spine of its left operand. */
  lemma OperatorStep(op: string, l: Expr, stack: seq<string>, postfix: seq<string>)
    requires IsOperator(op) && WellFormed(l) && Tier(l) >= OpTier(op) && Admits(stack, OpTier(op))
    ensures Run(Scanning(stack + Spine(l), postfix + Emitted(l)), [op]) == Scanning(stack + [op], postfix + Postorder(l))
  {
    SpineFacts(l);
    RunOne(Scanning(stack + Spine(l), postfix + Emitted(l)), op);
    StepOperator(op, stack, Spine(l), postfix + Emitted(l));
    ConcatAssoc(postfix, Emitted(l), Reverse(Spine(l)));
  }

  /** The conversion of the infix tokens of a well-formed tree succeeds with
      the tree's postorder. */
  lemma ConvertRender(e: Expr)
    requires WellFormed(e)
    ensures Convert(Render(e)) == Some(Postorder(e))
    ensures ToPostfix(Render(e)) == Postorder(e)
  {
    RunRender(e, [], []);
    SpineFacts(e);
    FlushSpine(Spine(e), Emitted(e));
    assert [] + Spine(e) == Spine(e) && [] + Emitted(e) == Emitted(e);
  }

  /** Evaluating the postorder of a tree pushes the tree's value, or stops with
      its first fault. */
  lemma {:induction false} EvalPostorder(e: Expr, vars: map<string, string>, stack: seq<string>, rest: seq<string>)
    requires WellFormed(e) && ValidStore(vars) && NumericStack(stack)
    ensures Eval(Postorder(e) + rest, vars, stack) ==
              match TreeEval(e, vars)
              case Err(f) => Err(f)
              case Ok(x) => Eval(rest, vars, stack + [x])
  {
    match e
    case Leaf(t) =>
      assert (Postorder(e) + rest)[0] == t && (Postorder(e) + rest)[1..] == rest;
    case Paren(i) =>
      EvalPostorder(i, vars, stack, rest);
    case Binary(op, l, r) =>
      assert Postorder(e) + rest == Postorder(l) + (Postorder(r) + ([op] + rest));
      EvalPostorder(l, vars, stack, Postorder(r) + ([op] + rest));
      match TreeEval(l, vars)
      case Err(_) =>
      case Ok(x) =>
        EvalPostorder(r, vars, stack + [x], [op] + rest);
        match TreeEval(r, vars)
        case Err(_) =>
        case Ok(y) =>
          EvalOperator(op, x, y, vars, stack, rest);
  }

  /** An operator applied to the two values on top of the stack. */
  lemma EvalOperator(op: string, x: string, y: string, vars: map<string, string>, stack: seq<string>, rest: seq<string>)
    requires IsOperator(op) && ValidStore(vars) && NumericStack(stack) && IsNum(x) && IsNum(y)
    ensures var a := ApplyOperator(op, ParseInt(x), ParseInt(y));
            Eval([op] + rest, vars, stack + [x] + [y]) ==
              if a.Err? then Err(a.fault) else Eval(rest, vars, stack + [IntToString(a.value)])
  {
    var st := stack + [x] + [y];
    assert ([op] + rest)[0] == op && ([op] + rest)[1..] == rest;
    assert st[|st| - 1] == y && st[|st| - 2] == x && st[..|st| - 2] == stack;
  }

  /** The whole pipeline on the tokens of a tree: conversion and evaluation
      leave exactly the tree's value on the stack. */
  lemma EvalRender(e: Expr, vars: map<string, string>)
    requires WellFormed(e) && ValidStore(vars)
    ensures Eval(ToPostfix(Render(e)), vars, []) ==
              match TreeEval(e, vars)
              case Err(f) => Err(f)
              case Ok(x) => Ok([x])
  {
    ConvertRender(e);
    EvalPostorder(e, vars, [], []);
    assert Postorder(e) + [] == Postorder(e);
    match TreeEval(e, vars)
    case Err(_) =>
    case Ok(x) => assert [] + [x] == [x];
  }
}
