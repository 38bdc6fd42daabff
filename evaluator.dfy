/** The evaluation of a postfix token list in `performCalculus`
    (Main.kt:32-44): a stack of number texts, onto which numbers are pushed as
    written, names as the text stored for them, and operator results as
    `BigInteger.toString` writes them. */
module Evaluator {
  import opened Outcomes
  import opened Text
  import opened Operators

  /** What `performAssignment` keeps in `vars` (Main.kt:18, 57-58): names
      mapped to number texts. */
  predicate ValidStore(vars: map<string, string>) {
    forall k | k in vars :: IsVar(k) && IsNum(vars[k])
  }

  predicate NumericStack(stack: seq<string>) {
    forall k | 0 <= k < |stack| :: IsNum(stack[k])
  }

  /** The stack left after evaluating `postfix` from `stack`, or the fault that
      stops the evaluation. An operator pops its right operand first, then its
      left one (Main.kt:39-40), before it is looked up. */
  function Eval(postfix: seq<string>, vars: map<string, string>, stack: seq<string>): (r: Result<seq<string>>)
    requires ValidStore(vars) && NumericStack(stack)
    ensures r.Ok? ==> NumericStack(r.value)
    ensures r.Ok? && (|stack| > 0 || |postfix| > 0) ==> |r.value| > 0
    decreases |postfix|
  {
    if postfix == [] then Ok(stack)
    else
      var op := postfix[0];
      if IsNum(op) then Eval(postfix[1..], vars, stack + [op])
      else if IsVar(op) then
        if op in vars then Eval(postfix[1..], vars, stack + [vars[op]]) else Err(UndefinedName)
      else if |stack| < 2 then Err(StackUnderflow)
      else
        var b := ParseInt(stack[|stack| - 1]);
        var a := ParseInt(stack[|stack| - 2]);
        match ApplyOperator(op, a, b)
        case Err(f) => Err(f)
        case Ok(v) => Eval(postfix[1..], vars, stack[..|stack| - 2] + [IntToString(v)])
  }

  /** Evaluating `a + b` is evaluating `a`, then `b` from the stack `a` leaves. */
  lemma {:induction false} EvalConcat(a: seq<string>, b: seq<string>, vars: map<string, string>, stack: seq<string>)
    requires ValidStore(vars) && NumericStack(stack)
    ensures Eval(a + b, vars, stack) ==
              match Eval(a, vars, stack)
              case Err(f) => Err(f)
              case Ok(st) => Eval(b, vars, st)
    decreases |a|
  {
    if a == [] {
      assert a + b == b;
    } else {
      assert (a + b)[0] == a[0] && (a + b)[1..] == a[1..] + b;
      var op := a[0];
      if IsNum(op) {
        EvalConcat(a[1..], b, vars, stack + [op]);
      } else if IsVar(op) {
        if op in vars {
          EvalConcat(a[1..], b, vars, stack + [vars[op]]);
        }
      } else if |stack| >= 2 {
        var y := ParseInt(stack[|stack| - 1]);
        var x := ParseInt(stack[|stack| - 2]);
        if ApplyOperator(op, x, y).Ok? {
          EvalConcat(a[1..], b, vars, stack[..|stack| - 2] + [IntToString(ApplyOperator(op, x, y).value)]);
        }
      }
    }
  }
}
