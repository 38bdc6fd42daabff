/** Worked lines of input, each followed through the whole pipeline of
    `processInput`: the shape check, the three sign rewrites, the spacing and
    split, the conversion to postfix and the evaluation. The lines "1 -+ 2"
    and "1 -+- 2" show where the sign rewrites of Main.kt:69-71 fall short of
    their purpose: as written, both stop on an empty stack, and with the
    intended rewrite they print -1 and 3. The other lines show the checks of
    Main.kt:22 and the assignment path. Each lemma takes its line as a
    parameter fixed by its precondition. */
module Scenarios {
  import opened Outcomes
  import opened Text
  import opened Operators
  import opened Lexer
  import opened Shape
  import opened ShuntingYard
  import opened Evaluator
  import opened Expressions
  import opened Interpreter

  predicate Alnums(w: string) {
    forall i | 0 <= i < |w| :: IsAlnum(w[i])
  }

  lemma {:induction false} LexRun(acc: string, w: string, x: string)
    requires Alnums(w)
    ensures Lex(acc, w + x) == Lex(acc + w, x)
    decreases |w|
  {
    if w == [] {
      assert w + x == x && acc + w == acc;
    } else {
      var y := w + x;
      assert y[0] == w[0] && y[1..] == w[1..] + x;
      assert !IsolatedAt(y, 0);
      LexRun(acc + [w[0]], w[1..], x);
      assert acc + [w[0]] + w[1..] == acc + w;
    }
  }

  /** An operand followed by a space is one token. */
  lemma LexOperand(w: string, x: string)
    requires |w| > 0 && Alnums(w)
    ensures Lex([], w + " " + x) == [w] + Lex([], x)
  {
    assert w + " " + x == w + (" " + x);
    LexRun([], w, " " + x);
    assert [] + w == w && (" " + x)[1..] == x;
  }

  lemma LexLastOperand(w: string)
    requires |w| > 0 && Alnums(w)
    ensures Lex([], w) == [w]
  {
    assert w + [] == w;
    LexRun([], w, []);
    assert [] + w == w;
  }

  /** An operator followed by a space is one token. */
  lemma LexOperator(c: char, x: string)
    requires SpacedOperator(c) || c == '-'
    ensures Lex([], [c] + " " + x) == [[c]] + Lex([], x)
  {
    var y := [c] + " " + x;
    assert y[0] == c && y[1] == ' ' && y[1..] == " " + x && (" " + x)[1..] == x;
    assert IsolatedAt(y, 0);
    assert Lex([], y) == [] + [[c]] + Lex([], y[1..]);
  }

  /** A character the rewrite isolates is one token even when another
      non-whitespace character follows it. */
  lemma LexIsolatedChar(x: string)
    requires |x| > 0 && IsolatedAt(x, 0)
    ensures Lex([], x) == [[x[0]]] + Lex([], x[1..])
  {
    assert Lex([], x) == [] + [[x[0]]] + Lex([], x[1..]);
  }

  lemma SignRunNoLikePair(s: string)
    requires s == "1 -+- 2"
    ensures !HasPair(s, '-', '-') && !HasPair(s, '+', '+')
  {
    forall i | 0 <= i < |s| - 1 ensures !(s[i] == '-' && s[i + 1] == '-') && !(s[i] == '+' && s[i + 1] == '+') {
      assert i == 2 || i == 3 ==> s[i + 1] != s[i];
    }
  }

  lemma PlusMinusCopy(s: string)
    requires |s| > 0 && (s[0] != '+' || |s| == 1 || s[1] != '-')
    ensures ReplacePlusMinus(s) == [s[0]] + ReplacePlusMinus(s[1..])
  {
    if |s| > 1 { assert s[..2] == [s[0], s[1]]; }
  }

  lemma PlusMinusPair(s: string)
    requires |s| > 1 && s[0] == '+' && s[1] == '-'
    ensures ReplacePlusMinus(s) == "-" + ReplacePlusMinus(s[2..])
  {
    assert s[..2] == "+-";
  }

  lemma SignRunPlusMinus(s: string)
    requires s == "1 -+- 2"
    ensures ReplacePlusMinus(s) == "1 -- 2"
  {
    PlusMinusCopy(s[6..]);
    assert s[6..][1..] == [];
    PlusMinusCopy(s[5..]);
    assert s[5..][1..] == s[6..];
    PlusMinusPair(s[3..]);
    assert s[3..][2..] == s[5..];
    PlusMinusCopy(s[2..]);
    assert s[2..][1..] == s[3..];
    PlusMinusCopy(s[1..]);
    assert s[1..][1..] == s[2..];
    PlusMinusCopy(s);
  }

  lemma SignRunAsWrittenText(s: string)
    requires s == "1 -+- 2"
    ensures NormaliseAsWritten(s) == "1 -- 2"
  {
    SignRunNoLikePair(s);
    NoDoubleMinusFixed(s);
    NoPlusPairFixed(s);
    SignRunPlusMinus(s);
  }

  lemma SignRunAsWrittenLex()
    ensures Lex([], "1 -- 2") == ["1", "-", "-", "2"]
  {
    LexLastOperand("2");
    LexOperator('-', "2");
    assert "-" + " " + "2" == "- 2";
    LexIsolatedChar("-- 2");
    assert "-- 2"[1..] == "- 2";
    LexOperand("1", "-- 2");
    assert "1" + " " + "-- 2" == "1 -- 2";
  }

  lemma ScanOperand(stack: seq<string>, postfix: seq<string>, a: string)
    requires IsOperand(a)
    ensures Step(Scanning(stack, postfix), a) == Scanning(stack, postfix + [a])
  {
  }

  lemma ScanFirstOperator(postfix: seq<string>, o: string)
    requires !IsOperand(o) && o != "(" && o != ")"
    ensures Step(Scanning([], postfix), o) == Scanning([o], postfix)
  {
  }

  /** An operator met while a lower-or-equal one waits on the stack pops it. */
  lemma ScanLowerOperator(postfix: seq<string>, o: string, p: string)
    requires o != "(" && !IsOperand(p) && p != "(" && p != ")" && !HasPrecedence(p, o)
    ensures Step(Scanning([o], postfix), p) == Scanning([p], postfix + [o])
  {
    assert Last([o]) == o && Init([o]) == [];
    assert PopAndPush(p, [o], postfix) == PopAndPush(p, [], postfix + [o]);
  }

  /** Two operators in a row, the second not above the first, end up after
      the operand that follows them: [a, o, p, b] becomes [a, o, b, p]. */
  lemma ConvertPair(a: string, o: string, p: string, b: string)
    requires IsOperand(a) && IsOperand(b) && !IsOperand(o) && o != "(" && o != ")"
    requires !IsOperand(p) && p != "(" && p != ")" && !HasPrecedence(p, o)
    ensures Convert([a, o, p, b]) == Some([a, o, b, p])
  {
    var ts := [a, o, p, b];
    assert Run(Scanning([], []), ts) == Scanning([p], [a, o, b]) by {
      RunPair(ts, a, o, p, b);
    }
    FlushOne(p, [a, o, b]);
    assert [a, o, b] + [p] == [a, o, b, p];
  }

  lemma RunPair(ts: seq<string>, a: string, o: string, p: string, b: string)
    requires ts == [a, o, p, b]
    requires IsOperand(a) && IsOperand(b) && !IsOperand(o) && o != "(" && o != ")"
    requires !IsOperand(p) && p != "(" && p != ")" && !HasPrecedence(p, o)
    ensures Run(Scanning([], []), ts) == Scanning([p], [a, o, b])
  {
    var s1, s2, s3 := Scanning([], [a]), Scanning([o], [a]), Scanning([p], [a, o]);
    assert ts[0..] == ts && ts[4..] == [];
    RunStep(Scanning([], []), ts, 0);
    ScanOperand([], [], a);
    assert [] + [a] == [a];
    RunStep(s1, ts, 1);
    ScanFirstOperator([a], o);
    RunStep(s2, ts, 2);
    ScanLowerOperator([a], o, p);
    assert [a] + [o] == [a, o];
    RunStep(s3, ts, 3);
    ScanOperand([p], [a, o], b);
    assert [a, o] + [b] == [a, o, b];
  }

  lemma FlushOne(o: string, postfix: seq<string>)
    requires o != "("
    ensures Flush([o], postfix) == Some(postfix + [o])
  {
    assert Last([o]) == o && Init([o]) == [];
  }

  /** Operators of one tier group to the left: "5 - 3 - 1" is (5 - 3) - 1. */
  lemma LeftGrouping(ts: seq<string>)
    requires ts == ["5", "-", "3", "-", "1"]
    ensures ToPostfix(ts) == ["5", "3", "-", "1", "-"]
  {
    assert IsNum("5") && IsNum("3") && IsNum("1");
    var l := Binary("-", Leaf("5"), Leaf("3"));
    var e := Binary("-", l, Leaf("1"));
    assert WellFormed(e);
    assert Render(e) == ts by {
      assert Render(l) == ["5", "-", "3"];
    }
    ConvertRender(e);
    assert Postorder(l) == ["5", "3", "-"];
  }

  /** '*' binds more tightly than '+': "2 + 3 * 4" is 2 + (3 * 4). */
  lemma ProductFirst(ts: seq<string>)
    requires ts == ["2", "+", "3", "*", "4"]
    ensures ToPostfix(ts) == ["2", "3", "4", "*", "+"]
  {
    assert IsNum("2") && IsNum("3") && IsNum("4");
    var r := Binary("*", Leaf("3"), Leaf("4"));
    var e := Binary("+", Leaf("2"), r);
    assert WellFormed(e);
    assert Render(e) == ts by {
      assert Render(r) == ["3", "*", "4"];
    }
    ConvertRender(e);
    assert Postorder(r) == ["3", "4", "*"];
  }

  /** Parentheses override precedence: "( 2 + 3 ) * 4" is (2 + 3) * 4. */
  lemma ParenthesesFirst(ts: seq<string>)
    requires ts == ["(", "2", "+", "3", ")", "*", "4"]
    ensures ToPostfix(ts) == ["2", "3", "+", "4", "*"]
  {
    assert IsNum("2") && IsNum("3") && IsNum("4");
    var sum := Binary("+", Leaf("2"), Leaf("3"));
    var e := Binary("*", Paren(sum), Leaf("4"));
    assert WellFormed(e);
    assert Render(e) == ts by {
      assert Render(sum) == ["2", "+", "3"];
      assert Render(Paren(sum)) == ["(", "2", "+", "3", ")"];
    }
    ConvertRender(e);
    assert Postorder(sum) == ["2", "3", "+"];
  }

  /** A token that is neither number, name, operator nor parenthesis, such
      as "5a", which the shape check lets through, is scanned as an
      operator: it pops the "(" below it and drops it, so balanced
      parentheses around it still end the scan at the ")". */
  lemma MixedOperandDropsParen(ts: seq<string>)
    requires ts == ["(", "1", "+", "5a", ")"]
    ensures Balanced(ts)
    ensures Convert(ts) == None
  {
    MixedToken(ts[3]);
    assert IsOperand("1") && !IsOperand("+") && HasPrecedence("+", "(");
    RunDroppingParen(ts, "1", "+", ts[3]);
    BalancedAroundThree(ts);
  }

  lemma MixedToken(w: string)
    requires w == "5a"
    ensures !IsOperand(w) && w != "(" && w != ")"
    ensures !HasPrecedence(w, "+") && !HasPrecedence(w, "(")
  {
    assert !IsDigit(w[1]) && !IsLetter(w[0]);
    assert !IsSubstring(w, "*/") && !IsSubstring(w, "+-");
  }

  /** "( a o w )" with an operand `a`, an operator `o` and a token `w` that
      takes precedence over neither: `w` pops `o` and drops the "(", and the
      ")" then finds no "(" open. */
  lemma RunDroppingParen(ts: seq<string>, a: string, o: string, w: string)
    requires ts == ["(", a, o, w, ")"]
    requires IsOperand(a) && !IsOperand(o) && o != "(" && o != ")" && HasPrecedence(o, "(")
    requires !IsOperand(w) && w != "(" && w != ")" && !HasPrecedence(w, o) && !HasPrecedence(w, "(")
    ensures Convert(ts) == None
  {
    RunOpening(ts, a, o);
    RunDropping(ts[3..], o, w, [a]);
  }

  lemma RunOpening(ts: seq<string>, a: string, o: string)
    requires |ts| > 3 && ts[0] == "(" && ts[1] == a && ts[2] == o
    requires IsOperand(a) && !IsOperand(o) && o != "(" && o != ")"
    ensures Run(Scanning([], []), ts) == Run(Scanning(["(", o], [a]), ts[3..])
  {
    var s1, s2 := Scanning(["("], []), Scanning(["("], [a]);
    assert ts[0..] == ts;
    RunStep(Scanning([], []), ts, 0);
    assert [] + ["("] == ["("];
    assert !IsOperand("(") by { assert !IsDigit('(') && !IsLetter('('); }
    assert Step(Scanning([], []), "(") == s1;
    RunStep(s1, ts, 1);
    assert [] + [a] == [a];
    assert Step(s1, a) == s2;
    RunStep(s2, ts, 2);
    assert Last(["("]) == "(" && ["("] + [o] == ["(", o];
    assert Step(s2, o) == Scanning(["(", o], [a]);
  }

  lemma RunDropping(ts: seq<string>, o: string, w: string, postfix: seq<string>)
    requires ts == [w, ")"]
    requires !IsOperand(w) && w != "(" && w != ")" && !HasPrecedence(w, o) && !HasPrecedence(w, "(")
    requires o != "("
    ensures Run(Scanning(["(", o], postfix), ts) == Unbalanced
  {
    var s4 := Scanning([w], postfix + [o]);
    assert Last(["(", o]) == o && Init(["(", o]) == ["("];
    assert PopAndPush(w, ["(", o], postfix) == PopAndPush(w, ["("], postfix + [o]);
    assert Last(["("]) == "(" && Init(["("]) == [] && [] + [w] == [w];
    assert PopAndPush(w, ["("], postfix + [o]) == s4;
    assert Step(Scanning(["(", o], postfix), w) == s4;
    assert Last([w]) == w && Init([w]) == [];
    assert !IsOperand(")") by { assert !IsDigit(')') && !IsLetter(')'); }
    assert CloseParen([w], postfix + [o]) == CloseParen([], postfix + [o] + [w]);
    assert Step(s4, ")") == Unbalanced;
    assert ts[1..] == [")"] && ts[1..][1..] == [];
    assert Run(Scanning(["(", o], postfix), ts) == Run(s4, ts[1..]);
    assert Run(s4, ts[1..]) == Run(Unbalanced, []);
  }

  lemma BalancedAroundThree(ts: seq<string>)
    requires |ts| == 5 && ts[0] == "(" && ts[4] == ")"
    requires forall k | 1 <= k < 4 :: !IsParen(ts[k])
    ensures Balanced(ts)
  {
    assert !IsParen(ts[1]) && !IsParen(ts[2]) && !IsParen(ts[3]);
    assert ts[5..] == [];
    assert BalancedFrom(ts[4..], 1) by { assert ts[4..][1..] == ts[5..]; }
    assert BalancedFrom(ts[3..], 1) by { assert ts[3..][1..] == ts[4..]; }
    assert BalancedFrom(ts[2..], 1) by { assert ts[2..][1..] == ts[3..]; }
    assert BalancedFrom(ts[1..], 1) by { assert ts[1..][1..] == ts[2..]; }
  }

  /** An operator met with one number on the stack underflows it (Main.kt:40). */
  lemma EvalUnderflow(a: string, o: string, rest: seq<string>, vars: map<string, string>)
    requires ValidStore(vars) && IsNum(a) && !IsNum(o) && !IsVar(o)
    ensures Eval([a, o] + rest, vars, []) == Err(StackUnderflow)
  {
    var p := [a, o] + rest;
    assert p[0] == a && p[1..] == [o] + rest;
    assert ([o] + rest)[0] == o;
    assert [] + [a] == [a];
  }

  lemma SignRunShape(s: string)
    requires s == "1 -+- 2"
    ensures ValidShape(s)
  {
    assert Skip(s, 0, IsOpenParen) == 0;
    assert Skip(s, 0, IsAlnum) == 1;
    assert Operand(s, 0) == Some(1);
    assert Skip(s, 5, IsSign) == 5;
    assert Skip(s, 4, IsSign) == 5;
    assert Skip(s, 3, IsSign) == 5;
    assert Skip(s, 2, IsSign) == 5;
    assert Skip(s, 6, IsOpenParen) == 6;
    assert Skip(s, 6, IsAlnum) == 7;
    assert Operand(s, 6) == Some(7);
    assert Skip(s, 7, IsCloseParen) == 7;
    assert Group(s, 1) == Some(7);
  }

  /** The run "-+-" holds two '-' and becomes '+'. */
  lemma SignRunTail(t: string)
    requires t == "-+- 2"
    ensures Normalise(t) == "+ 2"
  {
    var run, rest := t[..3], t[3..];
    assert rest[0] == ' ' && |rest| == 2;
    NormaliseOfNormal(rest);
    assert Minuses(run) == 2 by {
      assert run == ['-'] + ['+'] + ['-'];
    }
    NormaliseRun(run, rest);
    assert run + rest == t;
  }

  lemma SignRunNormalised(s: string)
    requires s == "1 -+- 2"
    ensures Normalise(s) == "1 + 2"
  {
    var u, t := s[1..], s[2..];
    SignRunTail(t);
    NormaliseCons(s[1], t);
    NormaliseCons(s[0], u);
    assert u == [s[1]] + t && s == [s[0]] + u;
  }

  lemma SignRunTokens(s: string)
    requires s == "1 -+- 2"
    ensures Tokens(s) == ["1", "-", "-", "2"]
  {
    SignRunAsWrittenText(s);
    SplitLex(NormaliseAsWritten(s));
    SignRunAsWrittenLex();
  }

  lemma SignRunPostfix(ts: seq<string>)
    requires ts == ["1", "-", "-", "2"]
    ensures ToPostfix(ts) == ["1", "-", "2", "-"]
  {
    assert IsOperand("1") && IsOperand("2");
    OperatorIsNoOperand("-");
    ConvertPair("1", "-", "-", "2");
  }

  lemma SignRunUnderflow(p: seq<string>)
    requires p == ["1", "-", "2", "-"]
    ensures Eval(p, map[], []) == Err(StackUnderflow)
  {
    EvalUnderflow("1", "-", ["2", "-"], map[]);
    assert ["1", "-"] + ["2", "-"] == p;
  }

  lemma SignRunCalculus(s: string)
    requires s == "1 -+- 2"
    ensures Calculus(s, map[]) == Aborted(StackUnderflow)
  {
    SignRunShape(s);
    SignRunTokens(s);
    SignRunPostfix(Tokens(s));
    SignRunUnderflow(ToPostfix(Tokens(s)));
  }

  lemma SignRunResponds(s: string, vars: map<string, string>)
    requires s == "1 -+- 2" && vars == map[]
    ensures Respond(s, vars) == Aborted(StackUnderflow)
  {
    SignRunCalculus(s);
    assert !IsVar(s) by { assert !IsLetter(s[1]); }
    assert '=' !in s;
    RespondCalculates(s, vars);
  }

  /** Lines 69-71 as written leave "-+-" as two minus signs in a row, which
      the converter then treats as two binary operators, and the evaluation
      runs out of operands: the line stops with an error. */
  lemma SignRunAsWritten(s: string)
    requires s == "1 -+- 2"
    ensures ValidShape(s)
    ensures NormaliseAsWritten(s) == "1 -- 2"
    ensures Tokens(s) == ["1", "-", "-", "2"]
    ensures ToPostfix(Tokens(s)) == ["1", "-", "2", "-"]
    ensures Respond(s, map[]) == Aborted(StackUnderflow)
  {
    SignRunShape(s);
    SignRunAsWrittenText(s);
    SignRunTokens(s);
    SignRunPostfix(Tokens(s));
    SignRunResponds(s, map[]);
  }

  /** What `toString` writes for a value given by its canonical text. */
  lemma Prints(n: int, t: string)
    requires Canonical(t) && ParseInt(t) == n
    ensures IntToString(n) == t
  {
    ParseThenPrint(t);
  }

  /** A line of the right shape whose tokens are two numbers around an
      operator prints what the operator makes of them. */
  lemma CalculusOfBinary(s: string, ts: seq<string>, a: string, o: string, b: string, vars: map<string, string>)
    requires ValidStore(vars) && ValidShape(s) && ts == [a, o, b]
    requires IsNum(a) && IsNum(b) && IsOperator(o)
    ensures CalculusOf(s, ts, vars) ==
              match ApplyOperator(o, ParseInt(a), ParseInt(b))
              case Err(f) => Aborted(f)
              case Ok(v) => Printed(IntToString(v))
  {
    var e := BinaryTree(a, o, b);
    CalculusOfRender(s, ts, e, vars);
    assert TreeEval(Leaf(a), vars) == Ok(a) && TreeEval(Leaf(b), vars) == Ok(b);
  }

  function BinaryTree(a: string, o: string, b: string): (e: Expr)
    requires IsOperand(a) && IsOperand(b) && IsOperator(o)
    ensures WellFormed(e) && Render(e) == [a, o, b]
  {
    var e := Binary(o, Leaf(a), Leaf(b));
    assert Tier(e.right) == 3 && OpTier(o) <= 2;
    assert Render(e) == [a] + [o] + [b];
    e
  }

  lemma CorrectedTokens(x: string)
    requires x == "1 + 2"
    ensures Lex([], x) == ["1", "+", "2"]
  {
    LexLastOperand("2");
    LexOperator('+', "2");
    assert "+" + " " + "2" == "+ 2";
    LexOperand("1", "+ 2");
    assert "1" + " " + "+ 2" == x;
  }

  lemma SignRunIntendedTokens(s: string)
    requires s == "1 -+- 2"
    ensures IntendedTokens(s) == ["1", "+", "2"]
  {
    SignRunNormalised(s);
    SplitLex(Normalise(s));
    CorrectedTokens(Normalise(s));
  }

  lemma SignRunIntended(s: string)
    requires s == "1 -+- 2"
    ensures IntendedCalculus(s, map[]) == Printed("3")
  {
    SignRunShape(s);
    SignRunIntendedTokens(s);
    assert ParseInt("1") == 1 && ParseInt("2") == 2;
    CalculusOfBinary(s, IntendedTokens(s), "1", "+", "2", map[]);
    Prints(3, "3");
  }

  /** With each sign run read as the sign it stands for, "1 -+- 2" is 1 + 2. */
  lemma SignRunCorrected(s: string)
    requires s == "1 -+- 2"
    ensures Normalise(s) == "1 + 2"
    ensures IntendedTokens(s) == ["1", "+", "2"]
    ensures IntendedCalculus(s, map[]) == Printed("3")
  {
    SignRunNormalised(s);
    SignRunIntendedTokens(s);
    SignRunIntended(s);
  }

  lemma MinusPlusShape(s: string)
    requires s == "1 -+ 2"
    ensures ValidShape(s)
  {
    assert Skip(s, 0, IsOpenParen) == 0;
    assert Skip(s, 0, IsAlnum) == 1;
    assert Operand(s, 0) == Some(1);
    assert Skip(s, 4, IsSign) == 4;
    assert Skip(s, 3, IsSign) == 4;
    assert Skip(s, 2, IsSign) == 4;
    assert Skip(s, 5, IsOpenParen) == 5;
    assert Skip(s, 5, IsAlnum) == 6;
    assert Operand(s, 5) == Some(6);
    assert Skip(s, 6, IsCloseParen) == 6;
    assert Group(s, 1) == Some(6);
  }

  /** None of the three rewrites of lines 69-71 applies to "1 -+ 2". */
  lemma MinusPlusAsWrittenText(s: string)
    requires s == "1 -+ 2"
    ensures NormaliseAsWritten(s) == s
  {
    forall i | 0 <= i < |s| - 1
      ensures !PairAt(s, i, '-', '-') && !PairAt(s, i, '+', '+') && !PairAt(s, i, '+', '-')
    {
      assert i == 2 ==> s[i + 1] == '+';
      assert i == 3 ==> s[i + 1] == ' ';
    }
    NoDoubleMinusFixed(s);
    NoPlusPairFixed(s);
    NoPlusMinusFixed(s);
  }

  lemma MinusPlusLex()
    ensures Lex([], "1 -+ 2") == ["1", "-", "+", "2"]
  {
    LexLastOperand("2");
    LexOperator('+', "2");
    assert "+" + " " + "2" == "+ 2";
    LexIsolatedChar("-+ 2");
    assert "-+ 2"[1..] == "+ 2";
    LexOperand("1", "-+ 2");
    assert "1" + " " + "-+ 2" == "1 -+ 2";
  }

  lemma MinusPlusTokens(s: string)
    requires s == "1 -+ 2"
    ensures Tokens(s) == ["1", "-", "+", "2"]
  {
    MinusPlusAsWrittenText(s);
    SplitLex(s);
    MinusPlusLex();
  }

  lemma MinusPlusPostfix(ts: seq<string>)
    requires ts == ["1", "-", "+", "2"]
    ensures ToPostfix(ts) == ["1", "-", "2", "+"]
  {
    assert IsOperand("1") && IsOperand("2");
    OperatorIsNoOperand("-");
    OperatorIsNoOperand("+");
    ConvertPair("1", "-", "+", "2");
  }

  lemma MinusPlusUnderflow(p: seq<string>)
    requires p == ["1", "-", "2", "+"]
    ensures Eval(p, map[], []) == Err(StackUnderflow)
  {
    EvalUnderflow("1", "-", ["2", "+"], map[]);
    assert ["1", "-"] + ["2", "+"] == p;
  }

  lemma MinusPlusCalculus(s: string)
    requires s == "1 -+ 2"
    ensures Calculus(s, map[]) == Aborted(StackUnderflow)
  {
    MinusPlusShape(s);
    MinusPlusTokens(s);
    MinusPlusPostfix(Tokens(s));
    MinusPlusUnderflow(ToPostfix(Tokens(s)));
  }

  lemma MinusPlusResponds(s: string, vars: map<string, string>)
    requires s == "1 -+ 2" && vars == map[]
    ensures Respond(s, vars) == Aborted(StackUnderflow)
  {
    MinusPlusCalculus(s);
    assert !IsVar(s) by { assert !IsLetter(s[1]); }
    assert '=' !in s;
    RespondCalculates(s, vars);
  }

  /** The shortest line on which lines 69-71 fall short: no rewrite applies
      to "-+", so the converter sees two operators in a row and the
      evaluation runs out of operands. */
  lemma MinusPlusAsWritten(s: string)
    requires s == "1 -+ 2"
    ensures ValidShape(s)
    ensures NormaliseAsWritten(s) == s
    ensures Tokens(s) == ["1", "-", "+", "2"]
    ensures ToPostfix(Tokens(s)) == ["1", "-", "2", "+"]
    ensures Respond(s, map[]) == Aborted(StackUnderflow)
  {
    MinusPlusShape(s);
    MinusPlusAsWrittenText(s);
    MinusPlusTokens(s);
    MinusPlusPostfix(Tokens(s));
    MinusPlusResponds(s, map[]);
  }

  /** The run "-+" holds one '-' and becomes '-'. */
  lemma MinusPlusTail(t: string)
    requires t == "-+ 2"
    ensures Normalise(t) == "- 2"
  {
    var run, rest := t[..2], t[2..];
    assert rest[0] == ' ' && |rest| == 2;
    NormaliseOfNormal(rest);
    assert Minuses(run) == 1 by {
      assert run == ['-'] + ['+'];
    }
    NormaliseRun(run, rest);
    assert run + rest == t;
  }

  lemma MinusPlusNormalised(s: string)
    requires s == "1 -+ 2"
    ensures Normalise(s) == "1 - 2"
  {
    var u, t := s[1..], s[2..];
    MinusPlusTail(t);
    NormaliseCons(s[1], t);
    NormaliseCons(s[0], u);
    assert u == [s[1]] + t && s == [s[0]] + u;
  }

  lemma DifferenceTokens(x: string)
    requires x == "1 - 2"
    ensures Lex([], x) == ["1", "-", "2"]
  {
    LexLastOperand("2");
    LexOperator('-', "2");
    assert "-" + " " + "2" == "- 2";
    LexOperand("1", "- 2");
    assert "1" + " " + "- 2" == x;
  }

  lemma MinusPlusIntendedTokens(s: string)
    requires s == "1 -+ 2"
    ensures IntendedTokens(s) == ["1", "-", "2"]
  {
    MinusPlusNormalised(s);
    SplitLex(Normalise(s));
    DifferenceTokens(Normalise(s));
  }

  lemma MinusPlusIntended(s: string)
    requires s == "1 -+ 2"
    ensures IntendedCalculus(s, map[]) == Printed("-1")
  {
    MinusPlusShape(s);
    MinusPlusIntendedTokens(s);
    assert ParseInt("1") == 1 && ParseInt("2") == 2;
    CalculusOfBinary(s, IntendedTokens(s), "1", "-", "2", map[]);
    assert "-1"[1..] == "1";
    assert ParseInt("-1") == -1;
    Prints(-1, "-1");
  }

  /** With "-+" read as the sign it stands for, "1 -+ 2" is 1 - 2. */
  lemma MinusPlusCorrected(s: string)
    requires s == "1 -+ 2"
    ensures Normalise(s) == "1 - 2"
    ensures IntendedTokens(s) == ["1", "-", "2"]
    ensures IntendedCalculus(s, map[]) == Printed("-1")
  {
    MinusPlusNormalised(s);
    MinusPlusIntendedTokens(s);
    MinusPlusIntended(s);
  }

  /** A line that is no command, no assignment and no name is calculated. */
  lemma RespondCalculates(s: string, vars: map<string, string>)
    requires ValidStore(vars) && s != [] && s[0] != '/' && '=' !in s && s !in vars && !IsVar(s)
    ensures Respond(s, vars) == Calculus(s, vars)
  {
    assert s != "/help" by { assert s[0] != "/help"[0]; }
  }

  /** Operators need whitespace around them: "1++2" fails the shape check
      (Main.kt:22) and is answered "Invalid Expression". */
  lemma UnspacedOperatorRejected(s: string)
    requires s == "1++2"
    ensures Respond(s, map[]) == Printed("Invalid Expression")
  {
    assert Skip(s, 1, IsAlnum) == 1;
    assert Skip(s, 0, IsAlnum) == 1;
    assert Skip(s, 0, IsOpenParen) == 0;
    assert Operand(s, 0) == Some(1);
    assert Group(s, 1) == None;
    assert !IsVar(s) by { assert !IsLetter(s[1]); }
    assert '=' !in s;
    RespondCalculates(s, map[]);
  }

  /** A number text holds digits and a leading '-' only. */
  lemma NumberChars(t: string)
    requires IsNum(t)
    ensures forall i | 0 <= i < |t| :: t[i] == '-' || IsDigit(t[i])
  {
    if t[0] == '-' {
      assert forall i | 1 <= i < |t| :: t[i] == t[1..][i - 1];
    }
  }

  /** A number or a name holds no whitespace and no '='. */
  lemma OperandChars(t: string)
    requires IsNum(t) || IsVar(t)
    ensures forall i | 0 <= i < |t| :: !IsSpace(t[i]) && t[i] != '='
  {
    if IsNum(t) {
      NumberChars(t);
    }
  }

  lemma PiecesOfAssignment(s: string, x: char, t: string)
    requires IsLetter(x) && (IsNum(t) || IsVar(t)) && s == [x] + " = " + t
    ensures SplitAt(s, '=') == [[x, ' '], " " + t]
  {
    assert s[0] == x && s[1] == ' ' && s[2] == '=';
    assert Find(s, '=') == 2;
    var u := s[3..];
    assert u == " " + t;
    OperandChars(t);
    assert forall i | 0 < i < |u| :: u[i] == t[i - 1];
    assert Find(u, '=') == |u|;
    assert SplitAt(u, '=') == [u];
    assert s[..2] == [x, ' '];
  }

  lemma TrimmedName(p: string, x: char)
    requires p == [x, ' '] && IsLetter(x)
    ensures TrimEnd(p) == [x]
  {
    assert TrimEnd(p) == TrimEnd(p[..1]);
    assert p[..1] == [x];
  }

  lemma TrimmedValue(q: string, t: string)
    requires (IsNum(t) || IsVar(t)) && q == " " + t
    ensures TrimStart(q) == t
  {
    OperandChars(t);
    assert q[1..] == t;
    assert Span(q, IsSpace) == 1 by {
      assert Span(q[1..], IsSpace) == 0;
    }
  }

  lemma SplitSimpleAssignment(s: string, x: char, t: string)
    requires IsLetter(x) && (IsNum(t) || IsVar(t)) && s == [x] + " = " + t
    ensures SplitAssignment(s) == [[x], t]
  {
    PiecesOfAssignment(s, x, t);
    var pieces := SplitAt(s, '=');
    TrimmedName(pieces[0], x);
    TrimmedValue(pieces[1], t);
    assert Part(pieces, 0) == [x];
    assert Part(pieces, 1) == t;
    var parts := SplitAssignment(s);
    assert |parts| == 2 && parts[0] == Part(pieces, 0) && parts[1] == Part(pieces, 1);
  }

  /** "x = t" with a one-letter name prints nothing; a number `t` is bound
      as typed, a known name `t` has its current text copied into `x`. */
  lemma AssignmentLine(s: string, x: char, t: string, vars: map<string, string>)
    requires ValidStore(vars) && IsLetter(x) && s == [x] + " = " + t
    requires IsNum(t) || (IsVar(t) && t in vars)
    ensures Respond(s, vars) == Silent
    ensures NextStore(s, vars) == vars[[x] := if IsNum(t) then t else vars[t]]
  {
    AssignSimple(s, x, t, vars);
    AssignmentLineKind(s, x, t);
    BindStep(s, vars);
  }

  lemma AssignmentLineKind(s: string, x: char, t: string)
    requires IsLetter(x) && s == [x] + " = " + t
    ensures s != "/help" && s != [] && s[0] != '/' && '=' in s
  {
    assert s[2] == '=';
  }

  lemma AssignSimple(s: string, x: char, t: string, vars: map<string, string>)
    requires ValidStore(vars) && IsLetter(x) && s == [x] + " = " + t
    requires IsNum(t) || (IsVar(t) && t in vars)
    ensures Assign(s, vars) == Bind([x], if IsNum(t) then t else vars[t])
  {
    SplitSimpleAssignment(s, x, t);
    assert IsVar([x]);
  }

  /** "a = " followed by a number prints nothing and binds `a` to the
      number's text as typed. */
  lemma NumberAssignment(s: string, t: string)
    requires IsNum(t) && s == "a = " + t
    ensures Respond(s, map[]) == Silent
    ensures NextStore(s, map[]) == map["a" := t]
  {
    var none: map<string, string> := map[];
    assert s == ['a'] + " = " + t;
    AssignmentLine(s, 'a', t, none);
  }

  /** "y = x" copies the text of `x` at that moment: a later "x = 9" leaves
      `y` as it was. */
  lemma CopyByValue(s1: string, s2: string, s3: string, q: string)
    requires s1 == "x = 5" && s2 == "y = x" && s3 == "x = 9" && q == "y"
    ensures NextStore(s3, NextStore(s2, NextStore(s1, map[]))) == map["x" := "9", "y" := "5"]
    ensures Respond(q, NextStore(s3, NextStore(s2, NextStore(s1, map[])))) == Printed("5")
  {
    assert IsNum("5") && IsNum("9");
    assert s1 == ['x'] + " = " + "5" && s3 == ['x'] + " = " + "9";
    assert s2 == ['y'] + " = " + ['x'] && q == ['y'];
    CopyChain(s1, s2, s3, q, 'x', 'y', "5", "9");
  }

  /** Assign a number to `x`, copy `x` into `y`, assign another number to
      `x`: `y` keeps the first number. */
  lemma CopyChain(s1: string, s2: string, s3: string, q: string, x: char, y: char, m: string, n: string)
    requires IsLetter(x) && IsLetter(y) && x != y && IsNum(m) && IsNum(n)
    requires s1 == [x] + " = " + m && s2 == [y] + " = " + [x] && s3 == [x] + " = " + n && q == [y]
    ensures NextStore(s3, NextStore(s2, NextStore(s1, map[]))) == map[[x] := n, [y] := m]
    ensures Respond(q, NextStore(s3, NextStore(s2, NextStore(s1, map[])))) == Printed(m)
  {
    var none: map<string, string> := map[];
    AssignmentLine(s1, x, m, none);
    var v1 := none[[x] := m];
    assert IsVar([x]) && IsVar([y]);
    NumberIsNoName([x]);
    AssignmentLine(s2, y, [x], v1);
    assert v1[[x]] == m;
    var v2 := v1[[y] := m];
    AssignmentLine(s3, x, n, v2);
    var v3 := v2[[x] := n];
    assert v3 == map[[x] := n, [y] := m] by {
      StoreOfTwo([x], [y], m, n);
    }
    QueryEchoes(q, v3);
  }

  lemma StoreOfTwo(x: string, y: string, m: string, n: string)
    requires x != y
    ensures map[x := m][y := m][x := n] == map[x := n, y := m]
  {
    var v := map[x := m][y := m][x := n];
    assert v.Keys == {x, y};
  }

  /** The store keeps text, not numbers: after "a = 007" the line "a" prints
      "007", leading zeros and all. */
  lemma StoredTextEchoed(s: string, q: string)
    requires s == "a = 007" && q == "a"
    ensures NextStore(s, map[]) == map["a" := "007"]
    ensures Respond(q, NextStore(s, map[])) == Printed("007")
  {
    assert IsNum("007") by { assert AllDigits("007"); }
    assert s == "a = " + "007";
    NumberAssignment(s, "007");
    assert IsVar(q);
    QueryEchoes(q, map["a" := "007"]);
  }

  /** A line that starts with no '/', holds no '=' and has whitespace second
      is neither a command nor an assignment nor a name: it is calculated. */
  lemma RespondsByCalculus(s: string, vars: map<string, string>)
    requires ValidStore(vars) && |s| > 1 && s[0] != '/' && s[1] == ' ' && '=' !in s
    ensures Respond(s, vars) == Calculus(s, vars)
  {
    assert !IsVar(s) by { assert !IsLetter(s[1]); }
    assert s !in vars;
    RespondCalculates(s, vars);
  }

  lemma SimpleTokens(s: string, a: char, o: char, b: char)
    requires s == [a, ' ', o, ' ', b] && IsAlnum(a) && IsAlnum(b) && SpacedOperator(o)
    ensures Tokens(s) == [[a], [o], [b]]
  {
    SimpleNormal(s);
    SplitLex(s);
    SimpleLex(s, a, o, b);
  }

  /** No two signs touch in a line of three characters spaced apart, so no
      sign rewrite changes it. */
  lemma SimpleNormal(s: string)
    requires |s| == 5 && s[1] == ' ' && s[3] == ' '
    ensures NormaliseAsWritten(s) == s
  {
    forall i | 0 <= i < |s| - 1
      ensures !SignPairAt(s, i)
    {
      assert s[i] == ' ' || s[i + 1] == ' ';
    }
    AsWrittenOfNormal(s);
  }

  lemma SimpleLex(s: string, a: char, o: char, b: char)
    requires s == [a, ' ', o, ' ', b] && IsAlnum(a) && IsAlnum(b) && SpacedOperator(o)
    ensures Lex([], s) == [[a], [o], [b]]
  {
    var x := [o] + " " + [b];
    LexLastOperand([b]);
    LexOperator(o, [b]);
    LexOperand([a], x);
    assert [a] + " " + x == s;
  }

  /** ... and its shape. */
  lemma SimpleShape(s: string, a: char, o: char, b: char)
    requires s == [a, ' ', o, ' ', b] && IsAlnum(a) && IsAlnum(b)
    requires o == '+' || o == '*' || o == '/'
    ensures ValidShape(s)
  {
    assert Skip(s, 0, IsOpenParen) == 0;
    assert Skip(s, 0, IsAlnum) == 1;
    assert Operand(s, 0) == Some(1);
    if o == '+' {
      assert Skip(s, 3, IsSign) == 3;
      assert Skip(s, 2, IsSign) == 3;
    }
    assert Skip(s, 4, IsOpenParen) == 4;
    assert Skip(s, 4, IsAlnum) == 5;
    assert Operand(s, 4) == Some(5);
    assert Skip(s, 5, IsCloseParen) == 5;
    assert Group(s, 1) == Some(5);
  }

  /** A line whose tokens are a name never assigned, an operator and a number. */
  lemma CalculusOfUndefined(s: string, a: string, o: string, b: string, vars: map<string, string>)
    requires ValidStore(vars) && ValidShape(s) && Tokens(s) == [a, o, b]
    requires IsVar(a) && a !in vars && IsNum(b) && IsOperator(o)
    ensures Calculus(s, vars) == Aborted(UndefinedName)
  {
    var e := BinaryTree(a, o, b);
    CalculusOfTree(s, e, vars);
    NumberIsNoName(a);
    assert TreeEval(Leaf(a), vars) == Err(UndefinedName);
  }

  /** A name never assigned inside an expression stops the line (Main.kt:37). */
  lemma UndefinedNameAborts(s: string)
    requires s == "a + 1"
    ensures Respond(s, map[]) == Aborted(UndefinedName)
  {
    UndefinedNameLine(s, 'a', '+', '1', map[]);
  }

  lemma UndefinedNameLine(s: string, a: char, o: char, b: char, vars: map<string, string>)
    requires s == [a, ' ', o, ' ', b] && IsLetter(a) && IsDigit(b) && (o == '+' || o == '*' || o == '/')
    requires ValidStore(vars) && [a] !in vars
    ensures Respond(s, vars) == Aborted(UndefinedName)
  {
    SimpleLine(s, a, o, b, vars);
    SimpleOperands(a, o, b);
    CalculusOfUndefined(s, [a], [o], [b], vars);
  }

  /** A line of two one-character operands around a spaced operator has the
      right shape, splits into its three characters and is calculated. */
  lemma SimpleLine(s: string, a: char, o: char, b: char, vars: map<string, string>)
    requires s == [a, ' ', o, ' ', b] && IsAlnum(a) && IsAlnum(b) && (o == '+' || o == '*' || o == '/')
    requires ValidStore(vars)
    ensures ValidShape(s) && Tokens(s) == [[a], [o], [b]]
    ensures Respond(s, vars) == Calculus(s, vars)
  {
    SimpleSyntax(s, a, o, b);
    SimpleResponds(s, a, o, b, vars);
  }

  lemma SimpleSyntax(s: string, a: char, o: char, b: char)
    requires s == [a, ' ', o, ' ', b] && IsAlnum(a) && IsAlnum(b) && (o == '+' || o == '*' || o == '/')
    ensures ValidShape(s) && Tokens(s) == [[a], [o], [b]]
  {
    SimpleShape(s, a, o, b);
    SimpleTokens(s, a, o, b);
  }

  lemma SimpleResponds(s: string, a: char, o: char, b: char, vars: map<string, string>)
    requires s == [a, ' ', o, ' ', b] && IsAlnum(a) && IsAlnum(b) && (o == '+' || o == '*' || o == '/')
    requires ValidStore(vars)
    ensures Respond(s, vars) == Calculus(s, vars)
  {
    assert '=' !in s by {
      forall k | 0 <= k < |s|
        ensures s[k] != '='
      {
      }
    }
    RespondsByCalculus(s, vars);
  }

  lemma SimpleOperands(a: char, o: char, b: char)
    requires IsLetter(a) && IsDigit(b) && (o == '+' || o == '*' || o == '/')
    ensures IsVar([a]) && IsNum([b]) && IsOperator([o])
  {
  }

  lemma SingleDigit(c: char)
    requires IsDigit(c)
    ensures ParseInt([c]) == DigitValue(c)
  {
    assert [c][..0] == [] && [c][0] == c;
    assert DigitsValue([c]) == DigitsValue([]) * 10 + DigitValue(c);
  }

  /** Division by zero stops the line (Main.kt:14). */
  lemma DivisionByZeroAborts(s: string)
    requires s == "1 / 0"
    ensures Respond(s, map[]) == Aborted(DivisionByZero)
  {
    DivisionByZeroLine(s, '1', map[]);
  }

  lemma DivisionByZeroLine(s: string, a: char, vars: map<string, string>)
    requires s == [a, ' ', '/', ' ', '0'] && IsDigit(a) && ValidStore(vars)
    ensures Respond(s, vars) == Aborted(DivisionByZero)
  {
    SimpleLine(s, a, '/', '0', vars);
    DigitOperands(a, '0');
    CalculusOfBinary(s, Tokens(s), [a], "/", "0", vars);
  }

  lemma DigitOperands(a: char, b: char)
    requires IsDigit(a) && b == '0'
    ensures IsNum([a]) && IsNum([b]) && IsOperator("/") && ParseInt([b]) == 0
  {
    SingleDigit(b);
  }
}
