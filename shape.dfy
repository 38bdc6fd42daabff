/** The syntax check that `performCalculus` runs before converting a line
    (Main.kt:22). The pattern is: an operand, then any number of groups made of
    one whitespace character, an operator (a possibly empty run of signs, or a
    single '*' or '/'), one whitespace character and another operand followed by
    closing parentheses. An operand is a run of opening parentheses, an optional
    sign and a non-empty run of letters and digits.

    Every repetition in the pattern is followed by a character it cannot
    consume, so the pattern never needs to backtrack, and matching it is the
    same as taking each run as far as it goes. The recogniser below does that. */
module Shape {
  import opened Outcomes
  import opened Text

  predicate IsOpenParen(c: char) {
    c == '('
  }

  predicate IsCloseParen(c: char) {
    c == ')'
  }

  /** The characters a line of the right shape can hold. */
  predicate ShapeChar(c: char) {
    IsSpace(c) || IsAlnum(c) || c == '(' || c == ')' || IsSign(c) || c == '*' || c == '/'
  }

  /** The position of the first character at or after `i` that fails `p`. */
  function Skip(s: string, i: nat, p: char -> bool): (j: nat)
    requires i <= |s|
    ensures i <= j <= |s|
    ensures forall k | i <= k < j :: p(s[k])
    ensures j < |s| ==> !p(s[j])
    decreases |s| - i
  {
    if i < |s| && p(s[i]) then Skip(s, i + 1, p) else i
  }

  /** An operand starting at `i`: where it ends, if there is one. */
  function Operand(s: string, i: nat): (r: Option<nat>)
    requires i <= |s|
    ensures r.Some? ==> i < r.value <= |s| && IsAlnum(s[r.value - 1])
    ensures r.Some? ==> r.value == |s| || !IsAlnum(s[r.value])
    ensures r.Some? ==> forall p | i <= p < r.value :: ShapeChar(s[p])
  {
    var j := Skip(s, i, IsOpenParen);
    var k := if j < |s| && IsSign(s[j]) then j + 1 else j;
    var m := Skip(s, k, IsAlnum);
    if m == k then None else Some(m)
  }

  // One group starting at `i`: a whitespace character, a run of signs or one
  // multiplicative operator, a whitespace character, an operand and a run of
  // closing parentheses.
  function Group(s: string, i: nat): (r: Option<nat>)
    requires i <= |s|
    ensures r.Some? ==> i < r.value <= |s|
  {
    if i < |s| && IsSpace(s[i]) then
      var j := i + 1;
      var k := if j < |s| && (s[j] == '*' || s[j] == '/') then j + 1 else Skip(s, j, IsSign);
      if k < |s| && IsSpace(s[k]) then
        match Operand(s, k + 1)
        case None => None
        case Some(m) => Some(Skip(s, m, IsCloseParen))
      else None
    else None
  }

  /** The groups, repeated, reach the end of `s` from `i`. */
  predicate Groups(s: string, i: nat)
    requires i <= |s|
    decreases |s| - i
  {
    i == |s| ||
    match Group(s, i)
    case None => false
    case Some(j) => Groups(s, j)
  }

  /** `s.matches(...)` at Main.kt:22: the whole line has the shape. */
  predicate ValidShape(s: string) {
    match Operand(s, 0)
    case None => false
    case Some(m) => Groups(s, m)
  }

  /** A line of the right shape holds a letter or digit. */
  lemma ShapeHasAlnum(s: string)
    requires ValidShape(s)
    ensures exists p | 0 <= p < |s| :: IsAlnum(s[p])
  {
    var m := Operand(s, 0).value;
    assert IsAlnum(s[m - 1]);
  }

  /** A line of the right shape is not empty, starts with '(', a sign, a letter
      or a digit, and holds no character outside the ones the pattern names (no
      '=' in particular). */
  lemma ShapeChars(s: string)
    requires ValidShape(s)
    ensures |s| > 0 && (s[0] == '(' || IsSign(s[0]) || IsAlnum(s[0]))
    ensures forall p | 0 <= p < |s| :: ShapeChar(s[p])
  {
    var m := Operand(s, 0).value;
    GroupsChars(s, m);
  }

  lemma {:induction false} GroupsChars(s: string, i: nat)
    requires i <= |s| && Groups(s, i)
    ensures forall p | i <= p < |s| :: ShapeChar(s[p])
    decreases |s| - i
  {
    if i < |s| {
      GroupChars(s, i);
      GroupsChars(s, Group(s, i).value);
    }
  }

  /** A group holds only characters the pattern names. */
  lemma GroupChars(s: string, i: nat)
    requires i <= |s| && Group(s, i).Some?
    ensures forall p | i <= p < Group(s, i).value :: ShapeChar(s[p])
  {
    var j := i + 1;
    var k := if j < |s| && (s[j] == '*' || s[j] == '/') then j + 1 else Skip(s, j, IsSign);
    var m := Operand(s, k + 1).value;
    var e := Skip(s, m, IsCloseParen);
    assert Group(s, i) == Some(e);
    forall p | i <= p < e
      ensures ShapeChar(s[p])
    {
      if p == i || p == k {
        assert IsSpace(s[p]);
      } else if p < k {
        if !(j < |s| && (s[j] == '*' || s[j] == '/')) {
          assert IsSign(s[p]);
        }
      } else if p >= m {
        assert IsCloseParen(s[p]);
      }
    }
  }

  /** Two spaces between operands pass: the run of signs between them may be empty. */
  lemma JuxtapositionPasses()
    ensures ValidShape("3  5")
  {
    var s := "3  5";
    assert Skip(s, 0, IsOpenParen) == 0;
    assert Skip(s, 0, IsAlnum) == 1;
    assert Operand(s, 0) == Some(1);
    assert Skip(s, 2, IsSign) == 2;
    assert Skip(s, 3, IsOpenParen) == 3;
    assert Skip(s, 3, IsAlnum) == 4;
    assert Operand(s, 3) == Some(4);
    assert Skip(s, 4, IsCloseParen) == 4;
    assert Group(s, 1) == Some(4);
  }

  /** The first operand carries no closing parenthesis. */
  lemma ParenthesisedOperandFails()
    ensures !ValidShape("(2)")
  {
    var s := "(2)";
    assert Skip(s, 0, IsOpenParen) == 1;
    assert Skip(s, 1, IsAlnum) == 2;
    assert Operand(s, 0) == Some(2);
    assert Group(s, 2) == None;
  }

  /** A sign run and a multiplicative operator do not combine. */
  lemma MixedOperatorFails()
    ensures !ValidShape("2 +* 3")
  {
    var s := "2 +* 3";
    assert Skip(s, 0, IsOpenParen) == 0;
    assert Skip(s, 0, IsAlnum) == 1;
    assert Operand(s, 0) == Some(1);
    assert Skip(s, 2, IsSign) == 3;
    assert Group(s, 1) == None;
  }
}
