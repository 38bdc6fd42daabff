/** Character classes, the number and name syntax of the calculator, and the
    conversions between decimal text and integers. */
module Text {

  /** `\s` of java.util.regex: space, and tab, newline, vertical tab, form
      feed and carriage return, which are the characters 9 to 13. */
  predicate IsSpace(c: char) {
    c == ' ' || '\t' <= c <= '\r'
  }

  predicate IsDigit(c: char) {
    '0' <= c <= '9'
  }

  predicate IsLetter(c: char) {
    ('a' <= c <= 'z') || ('A' <= c <= 'Z')
  }

  predicate IsAlnum(c: char) {
    IsDigit(c) || IsLetter(c)
  }

  predicate IsSign(c: char) {
    c == '+' || c == '-'
  }

  predicate NotSpace(c: char) {
    !IsSpace(c)
  }

  predicate AllDigits(s: string) {
    forall i | 0 <= i < |s| :: IsDigit(s[i])
  }

  /** `isNum` (Main.kt:6): `toBigIntegerOrNull` accepts one or more decimal
      digits, optionally preceded by a single '-'. */
  predicate IsNum(s: string) {
    if |s| > 0 && s[0] == '-' then |s| > 1 && AllDigits(s[1..]) else |s| > 0 && AllDigits(s)
  }

  /** `isVar` (Main.kt:7): the whole string matches `[a-zA-Z]+`. */
  predicate IsVar(s: string) {
    |s| > 0 && forall i | 0 <= i < |s| :: IsLetter(s[i])
  }

  lemma NumberIsNoName(s: string)
    ensures !(IsNum(s) && IsVar(s))
  {
    if IsNum(s) {
      if s[0] == '-' {
        assert s[1..][|s| - 2] == s[|s| - 1];
      }
      assert !IsLetter(s[|s| - 1]);
    }
  }

  function DigitValue(c: char): nat
    requires IsDigit(c)
  {
    c as int - '0' as int
  }

  function DigitChar(d: nat): (c: char)
    requires d < 10
    ensures IsDigit(c) && DigitValue(c) == d
  {
    ('0' as int + d) as char
  }

  /** The value of a string of decimal digits, most significant first. */
  function DigitsValue(s: string): nat
    requires AllDigits(s)
  {
    if s == [] then 0 else DigitsValue(s[..|s| - 1]) * 10 + DigitValue(s[|s| - 1])
  }

  /** Decimal digits of `n` without leading zeros, as `BigInteger.toString` writes them. */
  function NatToDigits(n: nat): (r: string)
    ensures |r| > 0 && AllDigits(r)
    ensures r[0] == '0' ==> n == 0 && r == "0"
    ensures DigitsValue(r) == n
  {
    if n < 10 then [DigitChar(n)]
    else
      var r := NatToDigits(n / 10) + [DigitChar(n % 10)];
      assert r[..|r| - 1] == NatToDigits(n / 10);
      r
  }

  /** `toBigInteger()` of a string that `isNum` accepts. */
  function ParseInt(s: string): int
    requires IsNum(s)
  {
    if s[0] == '-' then -(DigitsValue(s[1..]) as int) else DigitsValue(s)
  }

  /** `BigInteger.toString()`: a '-' for negative values, then the digits. */
  function IntToString(n: int): (r: string)
    ensures IsNum(r) && ParseInt(r) == n
    ensures Canonical(r)
  {
    if n < 0 then "-" + NatToDigits(-n) else NatToDigits(n)
  }

  /** Text that `BigInteger.toString()` can produce: no leading zero, no "-0". */
  predicate Canonical(s: string) {
    IsNum(s) &&
    (if s[0] == '-' then s[1] != '0' else s[0] != '0' || s == "0")
  }

  lemma {:induction false} LeadingDigitBound(s: string)
    requires |s| > 0 && AllDigits(s)
    ensures DigitsValue(s) >= DigitValue(s[0])
  {
    if |s| > 1 {
      LeadingDigitBound(s[..|s| - 1]);
    }
  }

  lemma {:induction false} DigitsRoundTrip(s: string)
    requires |s| > 0 && AllDigits(s) && (s[0] != '0' || s == "0")
    ensures NatToDigits(DigitsValue(s)) == s
  {
    var init := s[..|s| - 1];
    if init != [] {
      LeadingDigitBound(init);
      DigitsRoundTrip(init);
      var n := DigitsValue(s);
      assert n / 10 == DigitsValue(init) && n % 10 == DigitValue(s[|s| - 1]);
      assert s == init + [s[|s| - 1]];
    }
  }

  /** Printing a parsed number gives back the text exactly when the text is
      canonical: "007" is read as 7 and printed as "7". */
  lemma ParseThenPrint(s: string)
    requires IsNum(s)
    ensures IntToString(ParseInt(s)) == s <==> Canonical(s)
  {
    if Canonical(s) {
      if s[0] == '-' {
        DigitsRoundTrip(s[1..]);
        LeadingDigitBound(s[1..]);
        assert s == "-" + s[1..];
      } else {
        DigitsRoundTrip(s);
      }
    }
  }

  /** `t` is a prefix of `s`. */
  predicate IsPrefix(t: string, s: string) {
    |t| <= |s| && s[..|t|] == t
  }

  /** A two-character prefix, character by character. */
  lemma PrefixOfPair(s: string, a: char, b: char)
    ensures IsPrefix([a, b], s) <==> |s| > 1 && s[0] == a && s[1] == b
  {
    if |s| > 1 {
      assert s[..2] == [s[0], s[1]];
    }
  }

  /** `s.contains(t)`, which is what Kotlin's `t in s` means for two strings:
      `t` occurs in `s` as a contiguous block (the empty string occurs everywhere). */
  predicate IsSubstring(t: string, s: string)
    decreases |s|
  {
    IsPrefix(t, s) || (|s| > 0 && IsSubstring(t, s[1..]))
  }

  /** The substrings of a two-character string are exactly the empty string,
      each character, and the whole string. */
  lemma SubstringsOfPair(t: string, a: char, b: char)
    ensures IsSubstring(t, [a, b]) <==> t == [] || t == [a] || t == [b] || t == [a, b]
  {
    var ab: string := [a, b];
    assert ab[1..] == [b];
    assert [b][1..] == [];
    assert IsSubstring(t, []) <==> t == [];
    assert IsSubstring(t, [b]) <==> t == [] || t == [b];
    assert IsPrefix(t, ab) <==> t == [] || t == [a] || t == ab by {
      if |t| == 1 { assert ab[..1] == [a]; }
      if |t| == 2 { assert ab[..2] == ab; }
    }
  }

  /** The string with every `\s` character taken out. */
  function RemoveSpaces(s: string): (r: string)
    ensures |r| <= |s|
    ensures forall i | 0 <= i < |r| :: !IsSpace(r[i])
  {
    if s == [] then []
    else if IsSpace(s[0]) then RemoveSpaces(s[1..])
    else [s[0]] + RemoveSpaces(s[1..])
  }

  lemma {:induction false} RemoveSpacesConcat(a: string, b: string)
    ensures RemoveSpaces(a + b) == RemoveSpaces(a) + RemoveSpaces(b)
  {
    if a == [] {
      assert a + b == b;
    } else {
      assert (a + b)[0] == a[0];
      assert (a + b)[1..] == a[1..] + b;
      RemoveSpacesConcat(a[1..], b);
    }
  }

  lemma {:induction false} RemoveSpacesKeeps(s: string, c: char)
    requires !IsSpace(c)
    ensures c in s <==> c in RemoveSpaces(s)
  {
    if s != [] {
      RemoveSpacesKeeps(s[1..], c);
      assert c in s <==> c == s[0] || c in s[1..];
    }
  }

  lemma {:induction false} RemoveSpacesOfSpaceless(s: string)
    requires forall i | 0 <= i < |s| :: !IsSpace(s[i])
    ensures RemoveSpaces(s) == s
  {
    if s != [] {
      RemoveSpacesOfSpaceless(s[1..]);
    }
  }

  /** The length of the longest prefix of `s` whose characters all satisfy `p`. */
  function Span(s: string, p: char -> bool): (k: nat)
    ensures k <= |s|
    ensures forall i | 0 <= i < k :: p(s[i])
    ensures k < |s| ==> !p(s[k])
  {
    if s == [] || !p(s[0]) then 0 else 1 + Span(s[1..], p)
  }

  /** The strings of `ws` written one after another. */
  function Concat(ws: seq<string>): string {
    if ws == [] then [] else ws[0] + Concat(ws[1..])
  }

  lemma {:induction false} ConcatMember(ws: seq<string>, c: char)
    requires c in Concat(ws)
    ensures exists k | 0 <= k < |ws| :: c in ws[k]
  {
    if c !in ws[0] {
      ConcatMember(ws[1..], c);
      var k :| 0 <= k < |ws[1..]| && c in ws[1..][k];
      assert c in ws[k + 1];
    }
  }

  /** Concatenation regrouped. */
  lemma ConcatAssoc<T>(a: seq<T>, b: seq<T>, c: seq<T>)
    ensures a + (b + c) == a + b + c
  {
  }
}
