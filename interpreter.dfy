/** The `Calculator` object (Main.kt:5-136): one line of input at a time, it
    answers a command, performs an assignment into its variable store, echoes
    a variable or evaluates an expression. What the original prints is the
    `Output` of a line; a line after which the original would throw ends in
    `Aborted` with the fault. */
module Interpreter {
  import opened Outcomes
  import opened Text
  import opened Operators
  import opened Lexer
  import opened Shape
  import opened ShuntingYard
  import opened Evaluator
  import opened Expressions

  datatype Output =
    | Printed(line: string)  // one `println`
    | Silent                 // a successful assignment prints nothing
    | Aborted(fault: Fault)  // the line throws

  const HelpText: string := "I will do your math homework."

  /** `performCalculus` (Main.kt:20-48) as a function of the line and the store. */
  function Calculus(s: string, vars: map<string, string>): (r: Output)
    requires ValidStore(vars)
    ensures r != Silent
    ensures r.Printed? ==> r.line == "Invalid Expression" || IsNum(r.line)
  {
    CalculusOf(s, Tokens(s), vars)
  }

  /** The calculation with the intended sign rewrite of Main.kt:69-71 in
      place of the one written there. */
  function IntendedCalculus(s: string, vars: map<string, string>): (r: Output)
    requires ValidStore(vars)
    ensures r != Silent
    ensures r.Printed? ==> r.line == "Invalid Expression" || IsNum(r.line)
  {
    CalculusOf(s, IntendedTokens(s), vars)
  }

  /** The steps of `performCalculus` for the line `s` read as the tokens `ts`:
      the shape check on the line, the conversion of the tokens, and the
      evaluation, which prints the bottom of the stack. */
  function CalculusOf(s: string, ts: seq<string>, vars: map<string, string>): (r: Output)
    requires ValidStore(vars)
    ensures r != Silent
    ensures r.Printed? ==> r.line == "Invalid Expression" || IsNum(r.line)
  {
    if !ValidShape(s) then Printed("Invalid Expression")
    else
      var postfix := ToPostfix(ts);
      if postfix == [] then Printed("Invalid Expression")
      else
        match Eval(postfix, vars, [])
        case Err(f) => Aborted(f)
        case Ok(stack) => Printed(stack[0])
  }

  /** The position of the first `c` in `s`, or `|s|` when there is none. */
  function Find(s: string, c: char): (i: nat)
    ensures i <= |s| && (i < |s| ==> s[i] == c)
    ensures forall k | 0 <= k < i :: s[k] != c
  {
    if s == [] || s[0] == c then 0 else 1 + Find(s[1..], c)
  }

  /** The pieces of `s` between its occurrences of `c`, empty ones included. */
  function SplitAt(s: string, c: char): (parts: seq<string>)
    ensures |parts| >= 1 && (c in s ==> |parts| >= 2)
    ensures forall k | 0 <= k < |parts| :: c !in parts[k]
    decreases |s|
  {
    var i := Find(s, c);
    if i == |s| then
      [s]
    else
      assert forall k | 0 <= k < i :: s[..i][k] != c;
      [s[..i]] + SplitAt(s[i + 1..], c)
  }

  /** There is one piece more than there are occurrences of `c`. */
  lemma {:induction false} SplitAtCount(s: string, c: char)
    ensures |SplitAt(s, c)| == multiset(s)[c] + 1
    decreases |s|
  {
    var i := Find(s, c);
    if i == |s| {
      assert c !in multiset(s);
    } else {
      SplitAtCount(s[i + 1..], c);
      SplitAtFirst(s, c);
      FirstOccurrence(s, c, i);
      CountAround(s, s[..i], s[i + 1..], c);
    }
  }

  /** The text before the first `c` holds none, and `s` is that text, `c` and the rest. */
  lemma FirstOccurrence(s: string, c: char, i: nat)
    requires i < |s| && s[i] == c
    requires forall k | 0 <= k < i :: s[k] != c
    ensures c !in s[..i] && s == s[..i] + [c] + s[i + 1..]
  {
    assert forall k | 0 <= k < i :: s[..i][k] == s[k];
    assert s[i..] == [c] + s[i + 1..];
    assert s == s[..i] + s[i..];
  }

  /** The occurrences of `c` around its first one. */
  lemma CountAround(s: string, head: string, tail: string, c: char)
    requires s == head + [c] + tail && c !in head
    ensures multiset(s)[c] == multiset(tail)[c] + 1
  {
    assert multiset(s) == multiset(head) + multiset([c]) + multiset(tail);
  }

  /** The pieces joined again, with one `c` between two neighbours. */
  function Join(parts: seq<string>, c: char): string
    requires |parts| > 0
  {
    if |parts| == 1 then parts[0] else parts[0] + [c] + Join(parts[1..], c)
  }

  /** Splitting and joining again gives back the text. */
  lemma {:induction false} JoinSplitAt(s: string, c: char)
    ensures Join(SplitAt(s, c), c) == s
    decreases |s|
  {
    var i := Find(s, c);
    if i < |s| {
      var head, tail := s[..i], s[i + 1..];
      var rest := SplitAt(tail, c);
      assert Join(rest, c) == tail by {
        JoinSplitAt(tail, c);
      }
      assert SplitAt(s, c) == [head] + rest by {
        SplitAtFirst(s, c);
      }
      assert Join([head] + rest, c) == head + [c] + Join(rest, c) by {
        JoinCons(head, rest, c);
      }
      assert s == head + [c] + tail;
    }
  }

  lemma SplitAtFirst(s: string, c: char)
    requires Find(s, c) < |s|
    ensures SplitAt(s, c) == [s[..Find(s, c)]] + SplitAt(s[Find(s, c) + 1..], c)
  {
  }

  lemma JoinCons(p: string, rest: seq<string>, c: char)
    requires |rest| > 0
    ensures Join([p] + rest, c) == p + [c] + Join(rest, c)
  {
    assert ([p] + rest)[1..] == rest;
  }

  /** `s` without its leading whitespace. */
  function TrimStart(s: string): (r: string)
    ensures |r| <= |s| && r == s[|s| - |r|..]
    ensures forall i | 0 <= i < |s| - |r| :: IsSpace(s[i])
    ensures r == [] || !IsSpace(r[0])
  {
    s[Span(s, IsSpace)..]
  }

  /** `s` without its trailing whitespace. */
  function TrimEnd(s: string): (r: string)
    ensures |r| <= |s| && r == s[..|r|]
    ensures forall i | |r| <= i < |s| :: IsSpace(s[i])
    ensures r == [] || !IsSpace(r[|r| - 1])
    decreases |s|
  {
    if s != [] && IsSpace(s[|s| - 1]) then TrimEnd(s[..|s| - 1]) else s
  }

  /** Part `k` of the pieces: whitespace next to an '=' taken off. */
  function Part(pieces: seq<string>, k: nat): (p: string)
    requires k < |pieces|
    ensures '=' !in pieces[k] ==> '=' !in p
    ensures k > 0 ==> p == [] || !IsSpace(p[0])
    ensures k < |pieces| - 1 ==> p == [] || !IsSpace(p[|p| - 1])
  {
    var q := if k < |pieces| - 1 then TrimEnd(pieces[k]) else pieces[k];
    SliceKeepsAbsent(pieces[k], 0, |q|, '=');
    if k > 0 then TrimStartKeeps(q); TrimStart(q) else q
  }

  /** Trimming the start keeps the absence of '=' and the last character. */
  lemma TrimStartKeeps(q: string)
    ensures '=' !in q ==> '=' !in TrimStart(q)
    ensures TrimStart(q) == [] || TrimStart(q)[|TrimStart(q)| - 1] == q[|q| - 1]
  {
    var p := TrimStart(q);
    SliceKeepsAbsent(q, |q| - |p|, |q|, '=');
  }

  lemma SliceKeepsAbsent(q: string, i: nat, j: nat, c: char)
    requires i <= j <= |q|
    ensures c !in q ==> c !in q[i..j]
  {
    if c in q[i..j] {
      var k :| 0 <= k < j - i && q[i..j][k] == c;
      assert q[i + k] == c;
    }
  }

  /** Main.kt:51, `s.split(Regex("\\s*=\\s*"))`: every '=' together with the
      whitespace on both sides of it separates two parts; like every Kotlin
      split, empty parts are kept. The first part keeps its leading
      whitespace, the last its trailing whitespace. */
  function SplitAssignment(s: string): (parts: seq<string>)
    ensures |parts| >= 1 && ('=' in s ==> |parts| >= 2)
  {
    Parts(SplitAt(s, '='))
  }

  function Parts(pieces: seq<string>): (parts: seq<string>)
    ensures |parts| == |pieces|
    ensures forall k | 0 <= k < |parts| :: parts[k] == Part(pieces, k)
  {
    seq(|pieces|, k requires 0 <= k < |pieces| => Part(pieces, k))
  }

  /** No part holds an '=', and the whitespace next to every '=' is gone: no
      part after an '=' starts with it, no part before one ends with it. */
  predicate Separated(parts: seq<string>) {
    (forall k | 0 <= k < |parts| :: '=' !in parts[k]) &&
    (forall k | 0 < k < |parts| :: parts[k] == [] || !IsSpace(parts[k][0])) &&
    (forall k | 0 <= k < |parts| - 1 :: parts[k] == [] || !IsSpace(parts[k][|parts[k]| - 1]))
  }

  /** Every '=' separates two parts, and the parts are separated cleanly. */
  lemma SplitAssignmentParts(s: string)
    ensures |SplitAssignment(s)| == multiset(s)['='] + 1
    ensures Separated(SplitAssignment(s))
  {
    SplitAtCount(s, '=');
    PartsClean(SplitAt(s, '='));
  }

  lemma PartsClean(pieces: seq<string>)
    requires forall k | 0 <= k < |pieces| :: '=' !in pieces[k]
    ensures Separated(Parts(pieces))
  {
    PartsHaveNoEquals(pieces);
    PartsStartTrimmed(pieces);
    PartsEndTrimmed(pieces);
  }

  lemma PartsHaveNoEquals(pieces: seq<string>)
    requires forall k | 0 <= k < |pieces| :: '=' !in pieces[k]
    ensures var parts := Parts(pieces);
      forall k | 0 <= k < |parts| :: '=' !in parts[k]
  {
    var parts := Parts(pieces);
    forall k | 0 <= k < |parts|
      ensures '=' !in parts[k]
    {
      assert parts[k] == Part(pieces, k);
    }
  }

  lemma PartsStartTrimmed(pieces: seq<string>)
    ensures var parts := Parts(pieces);
      forall k | 0 < k < |parts| :: parts[k] == [] || !IsSpace(parts[k][0])
  {
    var parts := Parts(pieces);
    forall k | 0 < k < |parts|
      ensures parts[k] == [] || !IsSpace(parts[k][0])
    {
      assert parts[k] == Part(pieces, k);
    }
  }

  lemma PartsEndTrimmed(pieces: seq<string>)
    ensures var parts := Parts(pieces);
      forall k | 0 <= k < |parts| - 1 :: parts[k] == [] || !IsSpace(parts[k][|parts[k]| - 1])
  {
    var parts := Parts(pieces);
    forall k | 0 <= k < |parts| - 1
      ensures parts[k] == [] || !IsSpace(parts[k][|parts[k]| - 1])
    {
      assert parts[k] == Part(pieces, k);
    }
  }

  /** What an assignment line does: a message, or a name bound to a number text. */
  datatype Assignment = Rejected(message: string) | Bind(name: string, text: string)

  /** `performAssignment` (Main.kt:50-60). A name on the right is copied by
      value: the target gets the text stored for it now. */
  function Assign(s: string, vars: map<string, string>): (a: Assignment)
    requires '=' in s
    ensures a.Bind? ==> IsVar(a.name) && a.name == SplitAssignment(s)[0]
    ensures a.Bind? && ValidStore(vars) ==> IsNum(a.text)
    ensures var p := SplitAssignment(s);
      !IsVar(p[0]) ==> a == Rejected("Invalid identifier")
    ensures var p := SplitAssignment(s);
      IsVar(p[0]) && (|p| > 2 || (!IsNum(p[1]) && !IsVar(p[1]))) ==> a == Rejected("Invalid assignment")
    ensures var p := SplitAssignment(s);
      IsVar(p[0]) && |p| == 2 && IsVar(p[1]) && p[1] !in vars ==> a == Rejected("Unknown variable")
    ensures var p := SplitAssignment(s);
      IsVar(p[0]) && |p| == 2 && IsNum(p[1]) ==> a == Bind(p[0], p[1])
    ensures var p := SplitAssignment(s);
      IsVar(p[0]) && |p| == 2 && IsVar(p[1]) && p[1] in vars ==> a == Bind(p[0], vars[p[1]])
  {
    var parts := SplitAssignment(s);
    assert |parts| >= 2;
    if !IsVar(parts[0]) then Rejected("Invalid identifier")
    else if (!IsNum(parts[1]) && !IsVar(parts[1])) || |parts| > 2 then Rejected("Invalid assignment")
    else if !IsNum(parts[1]) && parts[1] !in vars then Rejected("Unknown variable")
    else if IsNum(parts[1]) then Bind(parts[0], parts[1])
    else Bind(parts[0], vars[parts[1]])
  }

  /** What `processInput` (Main.kt:126-135) prints for the line `s`, the
      checks taken in the original's order. */
  function Respond(s: string, vars: map<string, string>): (r: Output)
    requires ValidStore(vars)
    ensures r == Silent ==> s != [] && s[0] != '/' && '=' in s
  {
    if s == "/help" then Printed(HelpText)
    else if s == [] then Aborted(EmptyLine)
    else if s[0] == '/' then Printed("Unknown command")
    else if '=' in s then
      match Assign(s, vars)
      case Rejected(m) => Printed(m)
      case Bind(_, _) => Silent
    else if s in vars then Printed(vars[s])
    else if IsVar(s) then Printed("Unknown variable")
    else Calculus(s, vars)
  }

  /** The store after `processInput(s)`: only a successful assignment changes it. */
  function NextStore(s: string, vars: map<string, string>): (r: map<string, string>)
    requires ValidStore(vars)
    ensures ValidStore(r)
  {
    if s != "/help" && s != [] && s[0] != '/' && '=' in s then
      match Assign(s, vars)
      case Rejected(_) => vars
      case Bind(x, t) => vars[x := t]
    else vars
  }

  /** The first branches of `processInput` (Main.kt:128-130), whatever the
      store holds: "/help" prints the help text, any other line starting
      with '/' is an unknown command, the empty line fails on `s.first()`,
      and a line with '=' is answered by the assignment alone, with its
      message when it is rejected. */
  lemma DispatchOrder(s: string, vars: map<string, string>)
    requires ValidStore(vars)
    ensures s == "/help" ==> Respond(s, vars) == Printed(HelpText)
    ensures s != "/help" && s != [] && s[0] == '/' ==> Respond(s, vars) == Printed("Unknown command")
    ensures s == [] ==> Respond(s, vars) == Aborted(EmptyLine)
    ensures s != [] && s[0] != '/' && '=' in s ==>
              Respond(s, vars) == if Assign(s, vars).Rejected? then Printed(Assign(s, vars).message) else Silent
  {
    if s != [] && s[0] != '/' {
      assert s != "/help" by { assert "/help"[0] == '/'; }
    }
  }

  /** The store changes only when a line is an assignment that succeeds,
      and then exactly at the name left of the '='. */
  lemma OnlyAssignmentsChangeStore(s: string, vars: map<string, string>)
    requires ValidStore(vars)
    ensures Respond(s, vars) != Silent ==> NextStore(s, vars) == vars
    ensures Respond(s, vars) == Silent ==>
              NextStore(s, vars) == vars[SplitAssignment(s)[0] := Assign(s, vars).text]
  {
  }

  /** A stored name typed on its own line prints its text, whatever it is;
      a name never stored gets "Unknown variable". */
  lemma QueryEchoes(s: string, vars: map<string, string>)
    requires ValidStore(vars) && IsVar(s)
    ensures Respond(s, vars) == if s in vars then Printed(vars[s]) else Printed("Unknown variable")
    ensures NextStore(s, vars) == vars
  {
    assert IsLetter(s[0]);
  }

  /** Repeating a line changes nothing more: the store it leaves is a fixed
      point, and the line prints what it printed the first time. An
      assignment from a name copies the text, so reading it again finds
      the same text. */
  lemma RepeatIsIdempotent(s: string, vars: map<string, string>)
    requires ValidStore(vars)
    ensures NextStore(s, NextStore(s, vars)) == NextStore(s, vars)
    ensures Respond(s, NextStore(s, vars)) == Respond(s, vars)
  {
    if s != "/help" && s != [] && s[0] != '/' && '=' in s && Assign(s, vars).Bind? {
      RepeatAssignment(s, vars);
    } else {
      assert NextStore(s, vars) == vars;
    }
  }

  lemma RepeatAssignment(s: string, vars: map<string, string>)
    requires ValidStore(vars)
    requires s != "/help" && s != [] && s[0] != '/' && '=' in s && Assign(s, vars).Bind?
    ensures NextStore(s, NextStore(s, vars)) == NextStore(s, vars)
    ensures Respond(s, NextStore(s, vars)) == Respond(s, vars) == Silent
  {
    var a := Assign(s, vars);
    var after := vars[a.name := a.text];
    BindStep(s, vars);
    AssignStable(s, vars);
    BindStep(s, after);
    assert after[a.name := a.text] == after;
  }

  /** What a line does whose assignment succeeds. */
  lemma BindStep(s: string, vars: map<string, string>)
    requires ValidStore(vars)
    requires s != "/help" && s != [] && s[0] != '/' && '=' in s && Assign(s, vars).Bind?
    ensures NextStore(s, vars) == vars[Assign(s, vars).name := Assign(s, vars).text]
    ensures Respond(s, vars) == Silent
  {
  }

  /** An assignment that succeeded succeeds again, with the same binding, on
      the store it left. */
  lemma AssignStable(s: string, vars: map<string, string>)
    requires '=' in s && Assign(s, vars).Bind?
    ensures Assign(s, vars[Assign(s, vars).name := Assign(s, vars).text]) == Assign(s, vars)
  {
  }

  /** A line of the right shape whose tokens render a well-formed tree prints
      the tree's value or stops with its first fault. */
  lemma CalculusOfTree(s: string, e: Expr, vars: map<string, string>)
    requires ValidStore(vars) && ValidShape(s) && WellFormed(e) && Tokens(s) == Render(e)
    ensures Calculus(s, vars) ==
              match TreeEval(e, vars)
              case Err(f) => Aborted(f)
              case Ok(x) => Printed(x)
  {
    CalculusOfRender(s, Tokens(s), e, vars);
  }

  /** The same for any reading `ts` of the line. */
  lemma CalculusOfRender(s: string, ts: seq<string>, e: Expr, vars: map<string, string>)
    requires ValidStore(vars) && ValidShape(s) && WellFormed(e) && ts == Render(e)
    ensures CalculusOf(s, ts, vars) ==
              match TreeEval(e, vars)
              case Err(f) => Aborted(f)
              case Ok(x) => Printed(x)
  {
    ConvertRender(e);
    PostorderNonEmpty(e);
    EvalRender(e, vars);
  }

  /** A line of the right shape is converted to an empty list exactly when
      its parentheses fail to match up: it holds an operand, and a successful
      conversion keeps it. */
  lemma EmptyPostfixIffMismatch(s: string)
    requires ValidShape(s)
    ensures ToPostfix(Tokens(s)) == [] <==> Convert(Tokens(s)).None?
  {
    var ts := Tokens(s);
    if Convert(ts).Some? {
      var k := OperandToken(s);
      ConvertKeepsToken(ts, k);
    }
  }

  /** A line of the right shape has a token that is not a parenthesis. */
  lemma OperandToken(s: string) returns (k: nat)
    requires ValidShape(s)
    ensures k < |Tokens(s)| && !IsParen(Tokens(s)[k])
  {
    var ts := Tokens(s);
    ShapeHasAlnum(s);
    var i :| 0 <= i < |s| && IsAlnum(s[i]);
    TokensKeepAlnum(s, s[i]);
    k :| 0 <= k < |ts| && s[i] in ts[k];
    AlnumIsNoParen(ts[k], s[i]);
  }

  lemma AlnumIsNoParen(t: string, c: char)
    requires IsAlnum(c) && c in t
    ensures !IsParen(t)
  {
    var i :| 0 <= i < |t| && t[i] == c;
  }

  /** "Invalid Expression" is the answer to a calculation exactly when the line
      fails the shape check or the conversion; for lines made of operands,
      operators and parentheses, when the shape check fails or the
      parentheses do not match. */
  lemma InvalidExpressionIff(s: string, vars: map<string, string>)
    requires ValidStore(vars)
    ensures Calculus(s, vars) == Printed("Invalid Expression") <==> !ValidShape(s) || Convert(Tokens(s)).None?
    ensures (forall k | 0 <= k < |Tokens(s)| :: StdToken(Tokens(s)[k])) ==>
              (Calculus(s, vars) == Printed("Invalid Expression") <==> !ValidShape(s) || !Balanced(Tokens(s)))
  {
    if ValidShape(s) {
      EmptyPostfixIffMismatch(s);
      if forall k | 0 <= k < |Tokens(s)| :: StdToken(Tokens(s)[k]) {
        ConvertFailsIffUnbalanced(Tokens(s));
      }
    }
  }

  /** The object, with its variable store (Main.kt:18). */
  class Calculator {
    var vars: map<string, string>

    ghost predicate Valid()
      reads this
    {
      ValidStore(vars)
    }

    constructor ()
      ensures Valid() && vars == map[]
    {
      vars := map[];
    }

    /** Main.kt:20-48. */
    method PerformCalculus(s: string) returns (out: Output)
      requires Valid()
      ensures out == Calculus(s, vars)
    {
      if !ValidShape(s) {
        return Printed("Invalid Expression");
      }
      var postfix := ConvertInfixToPostfix(s);
      if postfix == [] {
        return Printed("Invalid Expression");
      }
      var r := EvaluatePostfix(postfix);
      match r
      case Err(f) => return Aborted(f);
      case Ok(stack) => return Printed(stack[0]);
    }

    /** Main.kt:32-44, the evaluation loop; a thrown exception ends it with
        the fault. */
    method EvaluatePostfix(postfix: seq<string>) returns (r: Result<seq<string>>)
      requires Valid()
      ensures r == Eval(postfix, vars, [])
    {
      var stack: seq<string> := [];
      for i := 0 to |postfix|
        invariant NumericStack(stack)
        invariant Eval(postfix[i..], vars, stack) == Eval(postfix, vars, [])
      {
        var op := postfix[i];
        assert postfix[i..][0] == op && postfix[i..][1..] == postfix[i + 1..];
        if IsNum(op) {
          stack := stack + [op];
        } else if IsVar(op) {
          if op !in vars {
            return Err(UndefinedName);
          }
          stack := stack + [vars[op]];
        } else {
          ghost var before := stack;
          if |stack| == 0 {
            return Err(StackUnderflow);
          }
          var op2 := ParseInt(stack[|stack| - 1]);
          stack := stack[..|stack| - 1];
          if |stack| == 0 {
            return Err(StackUnderflow);
          }
          var op1 := ParseInt(stack[|stack| - 1]);
          stack := stack[..|stack| - 1];
          assert stack == before[..|before| - 2];
          var v := ApplyOperator(op, op1, op2);
          if v.Err? {
            return Err(v.fault);
          }
          stack := stack + [IntToString(v.value)];
        }
      }
      assert postfix[|postfix|..] == [];
      return Ok(stack);
    }

    /** Main.kt:50-60. */
    method PerformAssignment(s: string) returns (out: Output)
      requires Valid() && '=' in s
      modifies this
      ensures Valid()
      ensures out == (match Assign(s, old(vars)) case Rejected(m) => Printed(m) case Bind(_, _) => Silent)
      ensures vars == (match Assign(s, old(vars)) case Rejected(_) => old(vars) case Bind(x, t) => old(vars)[x := t])
    {
      var parts := SplitAssignment(s);
      if !IsVar(parts[0]) {
        out := Printed("Invalid identifier");
      } else if (!IsNum(parts[1]) && !IsVar(parts[1])) || |parts| > 2 {
        out := Printed("Invalid assignment");
      } else if !IsNum(parts[1]) && parts[1] !in vars {
        out := Printed("Unknown variable");
      } else if IsNum(parts[1]) {
        vars := vars[parts[0] := parts[1]];
        out := Silent;
      } else {
        vars := vars[parts[0] := vars[parts[1]]];
        out := Silent;
      }
    }

    /** Main.kt:126-135. */
    method ProcessInput(s: string) returns (out: Output)
      requires Valid()
      modifies this
      ensures Valid()
      ensures out == Respond(s, old(vars)) && vars == NextStore(s, old(vars))
    {
      if s == "/help" {
        out := Printed(HelpText);
      } else if s == [] {
        out := Aborted(EmptyLine);
      } else if s[0] == '/' {
        out := Printed("Unknown command");
      } else if '=' in s {
        out := PerformAssignment(s);
      } else if s in vars {
        out := Printed(vars[s]);
      } else if IsVar(s) {
        out := Printed("Unknown variable");
      } else {
        out := PerformCalculus(s);
      }
    }
  }
}
