/** The four arithmetic operators (`applyOperator`, Main.kt:10-15) and the
    ordering predicate of the converter (`hasPrecedence`, Main.kt:63). */
module Operators {
  import opened Outcomes
  import opened Text

  predicate IsMultiplicative(t: string) {
    t == "*" || t == "/"
  }

  predicate IsAdditive(t: string) {
    t == "+" || t == "-"
  }

  predicate IsOperator(t: string) {
    IsAdditive(t) || IsMultiplicative(t)
  }

  // `hasPrecedence(op, op2)`: the two `in` tests against the strings of the
  // multiplicative and of the additive operators are substring tests.
  predicate HasPrecedence(op: string, other: string) {
    (IsSubstring(op, "*/") && !IsSubstring(other, "*/")) || (IsSubstring(op, "+-") && other == "(")
  }

  /** For the operator and parenthesis tokens the tokeniser produces, the
      substring tests are membership tests: a multiplicative operator takes
      precedence over anything that is not multiplicative, an additive one only
      over "(", and operators of one tier never over each other. */
  lemma HasPrecedenceByTier(op: string, other: string)
    requires IsOperator(op)
    requires IsOperator(other) || other == "("
    ensures HasPrecedence(op, other) <==>
              (IsMultiplicative(op) && !IsMultiplicative(other)) || (IsAdditive(op) && other == "(")
    ensures IsOperator(other) && IsMultiplicative(op) == IsMultiplicative(other) ==> !HasPrecedence(op, other)
  {
    SubstringsOfPair(op, '*', '/');
    SubstringsOfPair(op, '+', '-');
    SubstringsOfPair(other, '*', '/');
  }

  /** Every operator takes precedence over "(", so no operator pops one. */
  lemma OperatorPrecedesParen(op: string)
    requires IsOperator(op)
    ensures HasPrecedence(op, "(")
  {
    HasPrecedenceByTier(op, "(");
  }

  function Abs(n: int): nat {
    if n < 0 then -n else n
  }

  /** `BigInteger.divide`: the quotient of the magnitudes, negated when the
      signs differ, so it rounds toward zero. (Dafny's own `/` rounds toward
      negative infinity for a positive divisor instead.) */
  function TruncDiv(a: int, b: int): int
    requires b != 0
  {
    var q0 := Abs(a) / Abs(b);
    if (a < 0) == (b < 0) then q0 else -q0
  }

  /** The truncated quotient leaves a remainder smaller than the divisor that
      never has the opposite sign of the dividend, and its magnitude times the
      divisor's does not exceed the dividend's. */
  lemma TruncDivRemainder(a: int, b: int)
    requires b != 0
    ensures var q := TruncDiv(a, b); Abs(a - q * b) < Abs(b)
    ensures var q := TruncDiv(a, b); a - q * b == 0 || (a - q * b < 0 <==> a < 0)
    ensures Abs(TruncDiv(a, b)) * Abs(b) <= Abs(a)
  {
    var n: int, d: int := Abs(a), Abs(b);
    var q0: int, r0: int := n / d, n % d;
    var m := q0 * d;
    DivisionParts(n, d);
    var q := TruncDiv(a, b);
    assert Abs(q) == q0;
    SignedProduct(q0, d, q, b);
    assert q * b == (if a < 0 then -m else m);
    assert a - q * b == (if a < 0 then -r0 else r0);
  }

  lemma DivisionParts(n: int, d: int)
    requires n >= 0 && d > 0
    ensures n == (n / d) * d + n % d && 0 <= n % d < d && n / d >= 0
  {
  }

  lemma SignedProduct(x: int, y: int, sx: int, sy: int)
    requires x >= 0 && y >= 0
    requires sx == x || sx == -x
    requires sy == y || sy == -y
    ensures sx * sy == (if (sx == x) == (sy == y) then x * y else -(x * y))
  {
  }

  /** The two roundings differ for a negative dividend. */
  lemma TruncDivIsNotEuclidean()
    ensures TruncDiv(-7, 2) == -3 && -7 / 2 == -4
    ensures TruncDiv(7, -2) == -3
  {
  }

  /** `applyOperator[op]!!(a, b)`: the lookup fails for a token that is no
      operator, and the division fails for a zero divisor. */
  function ApplyOperator(op: string, a: int, b: int): (r: Result<int>)
    ensures r.Ok? <==> IsOperator(op) && !(op == "/" && b == 0)
    ensures r.Err? ==> r.fault == (if IsOperator(op) then DivisionByZero else NotAnOperator)
  {
    if op == "+" then Ok(a + b)
    else if op == "-" then Ok(a - b)
    else if op == "*" then Ok(a * b)
    else if op == "/" then (if b == 0 then Err(DivisionByZero) else Ok(TruncDiv(a, b)))
    else Err(NotAnOperator)
  }
}
