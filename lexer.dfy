/** The normaliser and tokeniser of `convertInfixToPostfix` (Main.kt:69-73):
    three sign rewrites, the spacing of operators, and the split on whitespace. */
module Lexer {
  import opened Text

  /** `a` at position `i` of `s`, followed by `b`. */
  predicate PairAt(s: string, i: nat, a: char, b: char)
    requires i + 1 < |s|
  {
    s[i] == a && s[i + 1] == b
  }

  /** The characters `a` and `b` stand next to each other somewhere in `s`. */
  predicate HasPair(s: string, a: char, b: char) {
    exists i | 0 <= i < |s| - 1 :: PairAt(s, i, a, b)
  }

  lemma HasPairCons(c: char, t: string, a: char, b: char)
    ensures HasPair([c] + t, a, b) <==> (|t| > 0 && c == a && t[0] == b) || HasPair(t, a, b)
  {
    var s := [c] + t;
    if |t| > 0 && c == a && t[0] == b {
      assert PairAt(s, 0, a, b);
    }
    if HasPair(t, a, b) {
      var i :| 0 <= i < |t| - 1 && PairAt(t, i, a, b);
      assert PairAt(s, i + 1, a, b);
    }
    if HasPair(s, a, b) {
      var i :| 0 <= i < |s| - 1 && PairAt(s, i, a, b);
      if i > 0 {
        assert PairAt(t, i - 1, a, b);
      }
    }
  }

  /** The text with its sign characters '+' and '-' taken out. */
  function Unsigned(s: string): string {
    if s == [] then []
    else if s[0] == '+' || s[0] == '-' then Unsigned(s[1..])
    else [s[0]] + Unsigned(s[1..])
  }

  lemma {:induction false} UnsignedKeeps(s: string, c: char)
    requires c != '+' && c != '-'
    ensures c in s <==> c in Unsigned(s)
  {
    if s != [] {
      UnsignedKeeps(s[1..], c);
      assert c in s <==> c == s[0] || c in s[1..];
    }
  }

  /** Main.kt:69, `replace("--", "+")`: scanning left to right, every
      non-overlapping "--" becomes "+". */
  function ReplaceDoubleMinus(s: string): (r: string)
    ensures |s| > 0 ==> |r| > 0 && r[0] == (if IsPrefix("--", s) then '+' else s[0])
    ensures !HasPair(r, '-', '-')
    ensures Unsigned(r) == Unsigned(s)
    decreases |s|
  {
    if s == [] then []
    else if IsPrefix("--", s) then
      var t := ReplaceDoubleMinus(s[2..]);
      HasPairCons('+', t, '-', '-');
      assert Unsigned(s) == Unsigned(s[1..][1..]);
      "+" + t
    else
      var t := ReplaceDoubleMinus(s[1..]);
      HasPairCons(s[0], t, '-', '-');
      assert s[0] == '-' && |t| > 0 ==> t[0] != '-' by {
        if s[0] == '-' && |s| > 1 { assert s[..2] == "--" <==> s[1] == '-'; }
      }
      [s[0]] + t
  }

  predicate IsPlus(c: char) {
    c == '+'
  }

  /** Main.kt:70, `replace(Regex("\\++"), "+")`: every run of '+' becomes one '+'. */
  function CollapsePluses(s: string): (r: string)
    ensures |s| > 0 ==> |r| > 0 && r[0] == s[0]
    ensures !HasPair(r, '+', '+')
    ensures Unsigned(r) == Unsigned(s)
    decreases |s|
  {
    if s == [] then []
    else if s[0] == '+' then
      var k := Span(s, IsPlus);
      var t := CollapsePluses(s[k..]);
      HasPairCons('+', t, '+', '+');
      UnsignedOfPluses(s, k);
      "+" + t
    else
      var t := CollapsePluses(s[1..]);
      HasPairCons(s[0], t, '+', '+');
      [s[0]] + t
  }

  lemma {:induction false} UnsignedOfPluses(s: string, k: nat)
    requires k <= |s| && forall i | 0 <= i < k :: s[i] == '+'
    ensures Unsigned(s) == Unsigned(s[k..])
  {
    if k > 0 {
      UnsignedOfPluses(s[1..], k - 1);
      assert s[1..][k - 1..] == s[k..];
    }
  }

  /** Main.kt:71, `replace("+-", "-")`: scanning left to right, every
      non-overlapping "+-" becomes "-". On text without "++" (what line 70
      leaves) the result has neither "++" nor "+-"; it may still hold "--",
      as `-+-` turns into `--`. */
  function ReplacePlusMinus(s: string): (r: string)
    ensures |s| > 0 ==> |r| > 0 && r[0] == (if IsPrefix("+-", s) then '-' else s[0])
    ensures Unsigned(r) == Unsigned(s)
    decreases |s|
  {
    if s == [] then []
    else if IsPrefix("+-", s) then
      PrefixOfPair(s, '+', '-');
      assert Unsigned(s) == Unsigned(s[1..][1..]);
      "-" + ReplacePlusMinus(s[2..])
    else
      [s[0]] + ReplacePlusMinus(s[1..])
  }

  /** On text without "++" (what line 70 leaves), line 71 leaves neither "++"
      nor "+-"; it may still leave "--", as "-+-" turns into "--". */
  lemma {:induction false} ReplacePlusMinusPairs(s: string)
    requires !HasPair(s, '+', '+')
    ensures !HasPair(ReplacePlusMinus(s), '+', '+') && !HasPair(ReplacePlusMinus(s), '+', '-')
    decreases |s|
  {
    if s != [] {
      PrefixOfPair(s, '+', '-');
      assert s == [s[0]] + s[1..];
      HasPairCons(s[0], s[1..], '+', '+');
      if IsPrefix("+-", s) {
        assert s[1..] == [s[1]] + s[2..];
        HasPairCons(s[1], s[2..], '+', '+');
        ReplacePlusMinusPairs(s[2..]);
        var t := ReplacePlusMinus(s[2..]);
        HasPairCons('-', t, '+', '+');
        HasPairCons('-', t, '+', '-');
        assert ReplacePlusMinus(s) == ['-'] + t;
      } else {
        ReplacePlusMinusPairs(s[1..]);
        var t := ReplacePlusMinus(s[1..]);
        HasPairCons(s[0], t, '+', '+');
        HasPairCons(s[0], t, '+', '-');
        if s[0] == '+' && |s| > 1 {
          PrefixOfPair(s[1..], '+', '-');
        }
        assert ReplacePlusMinus(s) == [s[0]] + t;
      }
    }
  }

  /** Lines 69-71 in order, as written. The result has neither "++" nor "+-",
      but "-+" and "--" can remain (see `Scenarios.MinusPlusAsWritten` and
      `Scenarios.SignRunAsWritten`). */
  function NormaliseAsWritten(s: string): (r: string)
    ensures !HasPair(r, '+', '+') && !HasPair(r, '+', '-')
    ensures Unsigned(r) == Unsigned(s)
  {
    var c := CollapsePluses(ReplaceDoubleMinus(s));
    ReplacePlusMinusPairs(c);
    ReplacePlusMinus(c)
  }

  lemma {:induction false} NoDoubleMinusFixed(s: string)
    requires !HasPair(s, '-', '-')
    ensures ReplaceDoubleMinus(s) == s
    decreases |s|
  {
    if s != [] {
      HasPairCons(s[0], s[1..], '-', '-');
      assert s == [s[0]] + s[1..];
      if |s| > 1 { assert s[..2] == [s[0], s[1]]; }
      NoDoubleMinusFixed(s[1..]);
    }
  }

  lemma {:induction false} NoPlusPairFixed(s: string)
    requires !HasPair(s, '+', '+')
    ensures CollapsePluses(s) == s
    decreases |s|
  {
    if s != [] {
      HasPairCons(s[0], s[1..], '+', '+');
      assert s == [s[0]] + s[1..];
      if s[0] == '+' {
        assert Span(s, IsPlus) == 1;
      }
      NoPlusPairFixed(s[1..]);
    }
  }

  lemma {:induction false} NoPlusMinusFixed(s: string)
    requires !HasPair(s, '+', '-')
    ensures ReplacePlusMinus(s) == s
    decreases |s|
  {
    if s != [] {
      HasPairCons(s[0], s[1..], '+', '-');
      assert s == [s[0]] + s[1..];
      if |s| > 1 { assert s[..2] == [s[0], s[1]]; }
      NoPlusMinusFixed(s[1..]);
    }
  }

  /** The three rewrites as written, like the intended one, leave text with
      no two signs in a row unchanged. */
  lemma AsWrittenOfNormal(s: string)
    requires NoSignPair(s)
    ensures NormaliseAsWritten(s) == s
  {
    forall a: char, b: char | IsSign(a) && IsSign(b)
      ensures !HasPair(s, a, b)
    {
      if HasPair(s, a, b) {
        var i :| 0 <= i < |s| - 1 && PairAt(s, i, a, b);
        assert SignPairAt(s, i);
      }
    }
    NoDoubleMinusFixed(s);
    NoPlusPairFixed(s);
    NoPlusMinusFixed(s);
  }

  /** No two sign characters stand next to each other. */
  predicate NoSignPair(s: string) {
    forall i | 0 <= i < |s| - 1 :: !SignPairAt(s, i)
  }

  /** Two sign characters at `i` and `i + 1`. */
  predicate SignPairAt(s: string, i: nat)
    requires i + 1 < |s|
  {
    IsSign(s[i]) && IsSign(s[i + 1])
  }

  /** The sign two signs in a row stand for: like signs give '+', unlike ones '-'. */
  function SignProduct(a: char, b: char): char
    requires IsSign(a) && IsSign(b)
  {
    if a == b then '+' else '-'
  }

  /** The sign `c` put in front of already normalised text `r`: it merges
      with a sign that `r` starts with. */
  function AttachSign(c: char, r: string): string
    requires IsSign(c)
  {
    if |r| > 0 && IsSign(r[0]) then [SignProduct(c, r[0])] + r[1..] else [c] + r
  }

  /** What lines 69-71 are there for: every maximal run of sign characters
      becomes the one sign it stands for. The result has no two signs in a
      row and the same other characters; it starts with a sign exactly when
      the text does. */
  function Normalise(s: string): (r: string)
    ensures NoSignPair(r)
    ensures Unsigned(r) == Unsigned(s)
    ensures |s| > 0 ==> |r| > 0 && (IsSign(r[0]) <==> IsSign(s[0]))
    decreases |s|
  {
    if s == [] then []
    else if IsSign(s[0]) then
      var t := Normalise(s[1..]);
      AttachKeepsNoSignPair(s[0], t);
      AttachSign(s[0], t)
    else
      var t := Normalise(s[1..]);
      ConsKeepsNoSignPair(s[0], t);
      [s[0]] + t
  }

  lemma AttachKeepsNoSignPair(c: char, t: string)
    requires IsSign(c) && NoSignPair(t)
    ensures NoSignPair(AttachSign(c, t))
  {
    var r := AttachSign(c, t);
    forall i | 0 <= i < |r| - 1
      ensures !SignPairAt(r, i)
    {
      if |t| > 0 && IsSign(t[0]) {
        assert r[i + 1] == t[i + 1];
        if i > 0 {
          assert r[i] == t[i] && !SignPairAt(t, i);
        } else {
          assert !SignPairAt(t, 0);
        }
      } else {
        assert r[i + 1] == t[i];
        if i > 0 {
          assert r[i] == t[i - 1] && !SignPairAt(t, i - 1);
        }
      }
    }
  }

  lemma ConsKeepsNoSignPair(c: char, t: string)
    requires !IsSign(c) && NoSignPair(t)
    ensures NoSignPair([c] + t)
  {
    var r := [c] + t;
    forall i | 0 <= i < |r| - 1
      ensures !SignPairAt(r, i)
    {
      if i > 0 {
        assert r[i] == t[i - 1] && r[i + 1] == t[i] && !SignPairAt(t, i - 1);
      }
    }
  }

  /** The number of '-' in a text. */
  function Minuses(s: string): nat {
    multiset(s)['-']
  }

  /** A run of signs followed by something other than a sign becomes a single
      sign: '-' when the run holds an odd number of '-', '+' otherwise. */
  lemma {:induction false} NormaliseRun(run: string, t: string)
    requires |run| > 0 && forall i | 0 <= i < |run| :: IsSign(run[i])
    requires |t| > 0 ==> !IsSign(t[0])
    ensures Normalise(run + t) == [if Minuses(run) % 2 == 1 then '-' else '+'] + Normalise(t)
    decreases |run|
  {
    var c, rest, n := run[0], run[1..], Normalise(t);
    SplitFirst(run, t);
    MinusesCons(c, rest);
    if |run| == 1 {
      assert rest + t == t && Minuses(rest) == 0;
      NormaliseSignBeforeOther(c, t);
    } else {
      var m := Minuses(rest);
      NormaliseRun(rest, t);
      NormaliseSignBeforeSign(c, rest + t, if m % 2 == 1 then '-' else '+', n);
      SignParity(c, m);
    }
  }

  /** A sign in front of text that does not start with one stays as it is. */
  lemma NormaliseSignBeforeOther(c: char, t: string)
    requires IsSign(c) && (|t| > 0 ==> !IsSign(t[0]))
    ensures Normalise([c] + t) == [c] + Normalise(t)
  {
    NormaliseCons(c, t);
    AttachBeforeOther(c, t);
  }

  /** A sign in front of text that normalises to a sign merges with it. */
  lemma NormaliseSignBeforeSign(c: char, u: string, d: char, n: string)
    requires IsSign(c) && IsSign(d) && Normalise(u) == [d] + n
    ensures Normalise([c] + u) == [SignProduct(c, d)] + n
  {
    NormaliseCons(c, u);
    AttachBeforeSign(c, d, n);
  }

  /** One more sign in front flips the parity of the '-' exactly when it is one. */
  lemma SignParity(c: char, m: nat)
    requires IsSign(c)
    ensures SignProduct(c, if m % 2 == 1 then '-' else '+') ==
              if ((if c == '-' then 1 else 0) + m) % 2 == 1 then '-' else '+'
  {
  }

  lemma SplitFirst(run: string, t: string)
    requires |run| > 0
    ensures run == [run[0]] + run[1..] && run + t == [run[0]] + (run[1..] + t)
  {
  }

  lemma AttachBeforeOther(c: char, t: string)
    requires IsSign(c) && (|t| > 0 ==> !IsSign(t[0]))
    ensures AttachSign(c, Normalise(t)) == [c] + Normalise(t)
  {
  }

  lemma AttachBeforeSign(c: char, d: char, n: string)
    requires IsSign(c) && IsSign(d)
    ensures AttachSign(c, [d] + n) == [SignProduct(c, d)] + n
  {
    assert ([d] + n)[1..] == n;
  }

  lemma MinusesCons(c: char, r: string)
    ensures Minuses([c] + r) == (if c == '-' then 1 else 0) + Minuses(r)
  {
    assert multiset([c] + r) == multiset([c]) + multiset(r);
  }

  /** Two signs attached one after the other are their product attached once. */
  lemma AttachSignTwice(a: char, b: char, r: string)
    requires IsSign(a) && IsSign(b)
    ensures AttachSign(a, AttachSign(b, r)) == AttachSign(SignProduct(a, b), r)
  {
    if |r| > 0 && IsSign(r[0]) {
      assert AttachSign(b, r)[1..] == r[1..];
    } else {
      assert AttachSign(b, r)[1..] == r;
    }
  }

  lemma NormaliseCons(c: char, t: string)
    ensures Normalise([c] + t) == if IsSign(c) then AttachSign(c, Normalise(t)) else [c] + Normalise(t)
  {
    assert ([c] + t)[1..] == t;
  }

  /** Text without two signs in a row is already normalised. */
  lemma {:induction false} NormaliseOfNormal(s: string)
    requires NoSignPair(s)
    ensures Normalise(s) == s
    decreases |s|
  {
    if s != [] {
      assert NoSignPair(s[1..]) by {
        forall i | 0 <= i < |s[1..]| - 1
          ensures !SignPairAt(s[1..], i)
        {
          assert s[1..][i] == s[i + 1] && s[1..][i + 1] == s[i + 2] && !SignPairAt(s, i + 1);
        }
      }
      NormaliseOfNormal(s[1..]);
      if IsSign(s[0]) && |s| > 1 {
        assert !SignPairAt(s, 0);
      }
    }
  }

  /** Line 69 keeps what the text stands for. */
  lemma {:induction false} ReplaceDoubleMinusKeepsSigns(s: string)
    ensures Normalise(ReplaceDoubleMinus(s)) == Normalise(s)
    decreases |s|
  {
    if s != [] {
      if IsPrefix("--", s) {
        ReplaceDoubleMinusKeepsSigns(s[2..]);
        DoubleMinusStep(s, ReplaceDoubleMinus(s[2..]));
      } else {
        ReplaceDoubleMinusKeepsSigns(s[1..]);
        CopyStep(s, ReplaceDoubleMinus(s[1..]));
      }
    }
  }

  /** A run of '+' in front of text stands for one '+' in front of it. */
  lemma {:induction false} PlusesKeepSigns(s: string, k: nat)
    requires 0 < k <= |s| && forall i | 0 <= i < k :: s[i] == '+'
    ensures Normalise(s) == AttachSign('+', Normalise(s[k..]))
    decreases k
  {
    NormaliseCons(s[0], s[1..]);
    assert s == [s[0]] + s[1..];
    if k > 1 {
      PlusesKeepSigns(s[1..], k - 1);
      assert s[1..][k - 1..] == s[k..];
      AttachSignTwice('+', '+', Normalise(s[k..]));
    }
  }

  /** Line 70 keeps what the text stands for. */
  lemma {:induction false} CollapsePlusesKeepsSigns(s: string)
    ensures Normalise(CollapsePluses(s)) == Normalise(s)
    decreases |s|
  {
    if s != [] {
      if s[0] == '+' {
        var k := Span(s, IsPlus);
        CollapsePlusesKeepsSigns(s[k..]);
        NormaliseCons('+', CollapsePluses(s[k..]));
        PlusesKeepSigns(s, k);
      } else {
        CollapsePlusesKeepsSigns(s[1..]);
        NormaliseCons(s[0], CollapsePluses(s[1..]));
        NormaliseCons(s[0], s[1..]);
        assert s == [s[0]] + s[1..];
      }
    }
  }

  /** Line 71 keeps what the text stands for. */
  lemma {:induction false} ReplacePlusMinusKeepsSigns(s: string)
    ensures Normalise(ReplacePlusMinus(s)) == Normalise(s)
    decreases |s|
  {
    if s != [] {
      if IsPrefix("+-", s) {
        ReplacePlusMinusKeepsSigns(s[2..]);
        PlusMinusStep(s, ReplacePlusMinus(s[2..]));
      } else {
        ReplacePlusMinusKeepsSigns(s[1..]);
        CopyStep(s, ReplacePlusMinus(s[1..]));
      }
    }
  }

  lemma DoubleMinusStep(s: string, t: string)
    requires IsPrefix("--", s) && Normalise(t) == Normalise(s[2..])
    ensures Normalise("+" + t) == Normalise(s)
  {
    assert s[..2] == "--";
    assert s[0] == '-' && s[1] == '-' by { assert s[0] == s[..2][0] && s[1] == s[..2][1]; }
    var u := s[2..];
    assert s == ['-'] + (['-'] + u);
    NormaliseCons('+', t);
    NormaliseCons('-', ['-'] + u);
    NormaliseCons('-', u);
    AttachSignTwice('-', '-', Normalise(u));
  }

  lemma PlusMinusStep(s: string, t: string)
    requires IsPrefix("+-", s) && Normalise(t) == Normalise(s[2..])
    ensures Normalise("-" + t) == Normalise(s)
  {
    assert s[..2] == "+-";
    assert s[0] == '+' && s[1] == '-' by { assert s[0] == s[..2][0] && s[1] == s[..2][1]; }
    var u := s[2..];
    assert s == ['+'] + (['-'] + u);
    NormaliseCons('-', t);
    NormaliseCons('+', ['-'] + u);
    NormaliseCons('-', u);
    AttachSignTwice('+', '-', Normalise(u));
  }

  lemma CopyStep(s: string, t: string)
    requires |s| > 0 && Normalise(t) == Normalise(s[1..])
    ensures Normalise([s[0]] + t) == Normalise(s)
  {
    NormaliseCons(s[0], t);
    NormaliseCons(s[0], s[1..]);
    assert s == [s[0]] + s[1..];
  }

  /** Each of the three rewrites only ever replaces signs by the sign they
      stand for, so the source's normalisation gives the intended text exactly
      when it leaves no two signs in a row. */
  lemma AsWrittenAgrees(s: string)
    ensures NormaliseAsWritten(s) == Normalise(s) <==> NoSignPair(NormaliseAsWritten(s))
  {
    var a := ReplaceDoubleMinus(s);
    var b := CollapsePluses(a);
    ReplaceDoubleMinusKeepsSigns(s);
    CollapsePlusesKeepsSigns(a);
    ReplacePlusMinusKeepsSigns(b);
    if NoSignPair(NormaliseAsWritten(s)) {
      NormaliseOfNormal(NormaliseAsWritten(s));
    }
  }

  predicate SpacedOperator(c: char) {
    c == '+' || c == '*' || c == '/' || c == '(' || c == ')'
  }

  /** The characters the rewrite of Main.kt:72 surrounds with spaces: one of
      `+ * / ( )`, or a '-' that no digit follows. */
  predicate IsolatedAt(s: string, j: nat)
    requires j < |s|
  {
    SpacedOperator(s[j]) || (s[j] == '-' && !(j + 1 < |s| && IsDigit(s[j + 1])))
  }

  /** Every isolated character of `r` stands between two spaces. */
  predicate Spaced(r: string) {
    forall i | 0 <= i < |r| && IsolatedAt(r, i) :: 0 < i < |r| - 1 && r[i - 1] == ' ' && r[i + 1] == ' '
  }

  /** Where the whitespace at the start of `s` ends. */
  function Lead(s: string): (j: nat)
    ensures j <= |s|
    ensures forall i | 0 <= i < j :: IsSpace(s[i])
    ensures j < |s| ==> !IsSpace(s[j])
  {
    Span(s, IsSpace)
  }

  /** `s` starts with a match of the pattern of line 72: whitespace, then an
      isolated character. */
  predicate MatchesAtStart(s: string) {
    Lead(s) < |s| && IsolatedAt(s, Lead(s))
  }

  /** Where that match ends: after the whitespace that follows the isolated
      character. */
  function MatchEnd(s: string): (k: nat)
    requires MatchesAtStart(s)
    ensures Lead(s) < k <= |s|
    ensures forall i | Lead(s) < i < k :: IsSpace(s[i])
    ensures k < |s| ==> !IsSpace(s[k])
  {
    var n := Span(s[Lead(s) + 1..], IsSpace);
    assert forall i | Lead(s) < i < Lead(s) + 1 + n :: s[i] == s[Lead(s) + 1..][i - Lead(s) - 1];
    Lead(s) + 1 + n
  }

  /** Main.kt:72, the regular-expression replacement that puts " $1 " in
      place of an isolated character and the whitespace around it: scanning
      left to right, an isolated character together with the whitespace on
      both sides of it becomes that character between two single spaces;
      everything else is copied. */
  function SpaceOperators(s: string): (r: string)
    ensures |s| > 0 && !IsSpace(s[0]) && !IsolatedAt(s, 0) ==> |r| > 0 && r[0] == s[0]
    decreases |s|
  {
    if s == [] then []
    else if MatchesAtStart(s) then [' ', s[Lead(s)], ' '] + SpaceOperators(s[MatchEnd(s)..])
    else [s[0]] + SpaceOperators(s[1..])
  }

  /** Line 72 replaces a match by the isolated character between two spaces. */
  lemma SpaceOperatorsMatch(x: string)
    requires MatchesAtStart(x)
    ensures SpaceOperators(x) == [' ', x[Lead(x)], ' '] + SpaceOperators(x[MatchEnd(x)..])
  {
  }

  /** Line 72 copies a character that does not start a match. */
  lemma SpaceOperatorsCopies(w: string, x: string)
    requires |x| > 0 && !MatchesAtStart(x)
    ensures w + SpaceOperators(x) == w + [x[0]] + SpaceOperators(x[1..])
  {
  }

  /** Line 72 changes only whitespace. */
  lemma {:induction false} SpaceOperatorsKeepsText(s: string)
    ensures RemoveSpaces(SpaceOperators(s)) == RemoveSpaces(s)
    decreases |s|
  {
    if s != [] {
      if MatchesAtStart(s) {
        SpaceOperatorsMatch(s);
        SpaceOperatorsKeepsText(s[MatchEnd(s)..]);
        MatchKeepsText(s, Lead(s), MatchEnd(s), SpaceOperators(s[MatchEnd(s)..]));
      } else {
        SpaceOperatorsCopies([], s);
        assert [] + SpaceOperators(s) == SpaceOperators(s);
        SpaceOperatorsKeepsText(s[1..]);
        CopyKeepsText(s, SpaceOperators(s[1..]));
      }
    }
  }

  /** After line 72 every isolated character stands between two spaces. */
  lemma {:induction false} SpaceOperatorsSpaced(s: string)
    ensures Spaced(SpaceOperators(s))
    decreases |s|
  {
    if s != [] {
      if MatchesAtStart(s) {
        SpaceOperatorsMatch(s);
        SpaceOperatorsSpaced(s[MatchEnd(s)..]);
        SpacedAround(s[Lead(s)], SpaceOperators(s[MatchEnd(s)..]));
      } else {
        SpaceOperatorsSpaced(s[1..]);
        CopySpaced(s);
      }
    }
  }

  lemma CopySpaced(s: string)
    requires s != [] && !MatchesAtStart(s) && Spaced(SpaceOperators(s[1..]))
    ensures Spaced(SpaceOperators(s))
  {
    var t := SpaceOperators(s[1..]);
    SpaceOperatorsCopies([], s);
    assert [] + SpaceOperators(s) == [s[0]] + t;
    CopiedNotIsolated(s, t);
    SpacedCons(s[0], t);
  }

  lemma CopiedNotIsolated(s: string, t: string)
    requires s != [] && !MatchesAtStart(s) && t == SpaceOperators(s[1..])
    ensures !IsolatedAt([s[0]] + t, 0)
  {
    var r := [s[0]] + t;
    if !IsSpace(s[0]) {
      NoMatchAtWord(s);
      if s[0] == '-' {
        SpaceOperatorsKeepsDigit(s[1..]);
        assert r[1] == s[1];
      }
    }
  }

  /** Text that starts with a character other than whitespace and has no
      match there does not start with an isolated character. */
  lemma NoMatchAtWord(s: string)
    requires s != [] && !IsSpace(s[0]) && !MatchesAtStart(s)
    ensures !IsolatedAt(s, 0)
  {
    assert Lead(s) == 0;
  }

  /** Line 72 leaves a leading digit where it is. */
  lemma SpaceOperatorsKeepsDigit(u: string)
    requires |u| > 0 && IsDigit(u[0])
    ensures |SpaceOperators(u)| > 0 && SpaceOperators(u)[0] == u[0]
  {
    assert !IsSpace(u[0]) && !IsolatedAt(u, 0);
  }

  lemma IsolatedShift(r: string, t: string, d: nat, i: nat)
    requires |r| == |t| + d && d <= i < |r|
    requires r[d..] == t
    ensures IsolatedAt(r, i) <==> IsolatedAt(t, i - d)
  {
    assert r[i] == t[i - d];
    if i + 1 < |r| {
      assert r[i + 1] == t[i + 1 - d];
    }
  }

  lemma SpacedCons(c: char, t: string)
    requires Spaced(t) && !IsolatedAt([c] + t, 0)
    ensures Spaced([c] + t)
  {
    var r := [c] + t;
    forall i | 0 <= i < |r| && IsolatedAt(r, i)
      ensures 0 < i < |r| - 1 && r[i - 1] == ' ' && r[i + 1] == ' '
    {
      IsolatedShift(r, t, 1, i);
      assert r[i - 1] == t[i - 2] && r[i + 1] == t[i];
    }
  }

  lemma SpacedAround(x: char, t: string)
    requires Spaced(t)
    ensures Spaced([' ', x, ' '] + t)
  {
    var r := [' ', x, ' '] + t;
    forall i | 0 <= i < |r| && IsolatedAt(r, i)
      ensures 0 < i < |r| - 1 && r[i - 1] == ' ' && r[i + 1] == ' '
    {
      if i >= 3 {
        IsolatedShift(r, t, 3, i);
        assert r[i - 1] == t[i - 4] && r[i + 1] == t[i - 2];
      } else {
        assert i == 1;
      }
    }
  }

  lemma MatchKeepsText(s: string, j: nat, k: nat, t: string)
    requires j < k <= |s| && IsolatedAt(s, j)
    requires forall i | 0 <= i < j :: IsSpace(s[i])
    requires forall i | j < i < k :: IsSpace(s[i])
    requires RemoveSpaces(t) == RemoveSpaces(s[k..])
    ensures RemoveSpaces([' ', s[j], ' '] + t) == RemoveSpaces(s)
  {
    MatchText(s, j, k);
    RemoveSpacesConcat([' ', s[j], ' '], t);
    RemoveSpacesOfSpacedChar(s[j]);
  }

  /** What is not whitespace in a match is its isolated character. */
  lemma MatchText(s: string, j: nat, k: nat)
    requires j < k <= |s| && IsolatedAt(s, j)
    requires forall i | 0 <= i < j :: IsSpace(s[i])
    requires forall i | j < i < k :: IsSpace(s[i])
    ensures RemoveSpaces(s) == [s[j]] + RemoveSpaces(s[k..])
  {
    assert s[0..] == s;
    RemoveSpacesBetween(s, 0, j);
    RemoveSpacesAt(s, j);
    RemoveSpacesBetween(s, j + 1, k);
  }

  /** A character that is not whitespace is kept at the head. */
  lemma RemoveSpacesAt(s: string, j: nat)
    requires j < |s| && !IsSpace(s[j])
    ensures RemoveSpaces(s[j..]) == [s[j]] + RemoveSpaces(s[j + 1..])
  {
    assert s[j..][0] == s[j] && s[j..][1..] == s[j + 1..];
  }

  /** A stretch of whitespace is taken out and nothing else. */
  lemma {:induction false} RemoveSpacesBetween(s: string, a: nat, b: nat)
    requires a <= b <= |s| && forall i | a <= i < b :: IsSpace(s[i])
    ensures RemoveSpaces(s[a..]) == RemoveSpaces(s[b..])
    decreases b - a
  {
    if a < b {
      assert s[a..][0] == s[a] && s[a..][1..] == s[a + 1..];
      RemoveSpacesBetween(s, a + 1, b);
    }
  }

  lemma RemoveSpacesOfSpacedChar(x: char)
    requires !IsSpace(x)
    ensures RemoveSpaces([' ', x, ' ']) == [x]
  {
    var w: string := [' ', x, ' '];
    assert w[1..] == [x, ' '] && [x, ' '][1..] == [' '] && [' '][1..] == [];
    assert RemoveSpaces([' ']) == [];
    assert RemoveSpaces([x, ' ']) == [x] + RemoveSpaces([' ']);
  }

  lemma CopyKeepsText(s: string, t: string)
    requires |s| > 0 && RemoveSpaces(t) == RemoveSpaces(s[1..])
    ensures RemoveSpaces([s[0]] + t) == RemoveSpaces(s)
  {
    assert s == [s[0]] + s[1..];
    RemoveSpacesConcat([s[0]], s[1..]);
    RemoveSpacesConcat([s[0]], t);
  }

  /** The maximal runs of non-whitespace characters of `s`, left to right. */
  function Words(s: string): (ws: seq<string>)
    ensures forall k | 0 <= k < |ws| :: |ws[k]| > 0 && forall i | 0 <= i < |ws[k]| :: !IsSpace(ws[k][i])
    ensures Concat(ws) == RemoveSpaces(s)
    decreases |s|
  {
    if s == [] then []
    else if IsSpace(s[0]) then Words(s[1..])
    else
      var k := Span(s, NotSpace);
      var w := s[..k];
      RemoveSpacesOfSpaceless(w);
      assert s == w + s[k..];
      RemoveSpacesConcat(w, s[k..]);
      [w] + Words(s[k..])
  }

  /** Main.kt:73, `trim().split(Regex("\\s+"))`: the words of the text, or a
      single empty string when the text is all whitespace. */
  function SplitWords(s: string): (ws: seq<string>)
    ensures |ws| > 0
    ensures Concat(ws) == RemoveSpaces(s)
  {
    var ws := Words(s);
    if ws == [] then [""] else ws
  }

  /** Lines 72-73, the spacing and the split, on text after a sign rewrite. */
  function Tokenise(n: string): seq<string> {
    SplitWords(SpaceOperators(n))
  }

  /** Main.kt:69-73 as written: the token strings the converter scans. */
  function Tokens(s: string): seq<string> {
    Tokenise(NormaliseAsWritten(s))
  }

  /** Lines 69-73 with the intended sign rewrite `Normalise`. */
  function IntendedTokens(s: string): seq<string> {
    Tokenise(Normalise(s))
  }

  /** A token is one isolated character on its own, or holds no isolated character. */
  predicate Atomic(w: string) {
    |w| == 1 || forall i | 0 <= i < |w| :: !IsolatedAt(w, i)
  }

  /** No isolated character of `x` touches another non-whitespace character. */
  predicate Detached(x: string) {
    forall i | 0 <= i < |x| && IsolatedAt(x, i) ::
      (i == 0 || IsSpace(x[i - 1])) && (i == |x| - 1 || IsSpace(x[i + 1]))
  }

  lemma DetachedSuffix(x: string, d: nat)
    requires Detached(x) && d <= |x|
    ensures Detached(x[d..])
  {
    var t := x[d..];
    forall i | 0 <= i < |t| && IsolatedAt(t, i)
      ensures (i == 0 || IsSpace(t[i - 1])) && (i == |t| - 1 || IsSpace(t[i + 1]))
    {
      IsolatedShift(x, t, d, i + d);
    }
  }

  lemma FirstWordAtomic(x: string, k: nat)
    requires Detached(x) && 0 < k <= |x|
    requires forall i | 0 <= i < k :: !IsSpace(x[i])
    requires k < |x| ==> IsSpace(x[k])
    ensures Atomic(x[..k])
  {
    var w := x[..k];
    if k > 1 {
      forall i | 0 <= i < k
        ensures !IsolatedAt(w, i)
      {
        assert w[i] == x[i];
        if i + 1 < k {
          assert w[i + 1] == x[i + 1];
        }
        assert IsolatedAt(w, i) ==> IsolatedAt(x, i);
        // an isolated character of x has whitespace on both sides, and a word
        // of two or more characters gives each of its characters a
        // non-whitespace neighbour
        if i > 0 {
          assert !IsSpace(x[i - 1]);
        } else {
          assert !IsSpace(x[1]);
        }
      }
    }
  }

  lemma {:induction false} WordsAtomic(x: string)
    requires Detached(x)
    ensures forall k | 0 <= k < |Words(x)| :: Atomic(Words(x)[k])
    decreases |x|
  {
    if x != [] {
      if IsSpace(x[0]) {
        DetachedSuffix(x, 1);
        WordsAtomic(x[1..]);
      } else {
        var k := Span(x, NotSpace);
        FirstWordAtomic(x, k);
        DetachedSuffix(x, k);
        WordsAtomic(x[k..]);
        assert Words(x) == [x[..k]] + Words(x[k..]);
      }
    }
  }

  /** Every token is a single isolated character, or holds none: after the
      spacing of line 72 no operator or parenthesis is glued to anything, and a
      '-' stays glued only in front of a digit. */
  lemma TokensAtomic(s: string)
    ensures forall k | 0 <= k < |Tokens(s)| :: Atomic(Tokens(s)[k])
  {
    var n := NormaliseAsWritten(s);
    SpaceOperatorsSpaced(n);
    SpacedDetached(SpaceOperators(n));
    SplitWordsAtomic(SpaceOperators(n));
  }

  lemma SpacedDetached(x: string)
    requires Spaced(x)
    ensures Detached(x)
  {
  }

  lemma SplitWordsAtomic(x: string)
    requires Detached(x)
    ensures forall k | 0 <= k < |SplitWords(x)| :: Atomic(SplitWords(x)[k])
  {
    WordsAtomic(x);
  }

  /** The current token `w` as a list: none when it is empty. */
  function Finish(w: string): seq<string> {
    if w == [] then [] else [w]
  }

  /** A direct reading of what lines 72-73 do to normalised text, for
      comparison: scanning left to right, whitespace ends the current token
      `w`, an isolated character is a token of its own, and any other
      character extends `w`. */
  function Lex(w: string, x: string): seq<string>
    decreases |x|
  {
    if x == [] then Finish(w)
    else if IsSpace(x[0]) then Finish(w) + Lex([], x[1..])
    else if IsolatedAt(x, 0) then Finish(w) + [[x[0]]] + Lex([], x[1..])
    else Lex(w + [x[0]], x[1..])
  }

  predicate Spaceless(w: string) {
    forall i | 0 <= i < |w| :: !IsSpace(w[i])
  }

  lemma {:induction false} SpanOfSpaceless(w: string, y: string)
    requires Spaceless(w) && (y == [] || IsSpace(y[0]))
    ensures Span(w + y, NotSpace) == |w|
    decreases |w|
  {
    if w != [] {
      assert (w + y)[1..] == w[1..] + y;
      SpanOfSpaceless(w[1..], y);
    } else {
      assert w + y == y;
    }
  }

  /** A word at the end of the text is the last word. */
  lemma WordsOfWord(w: string)
    requires Spaceless(w)
    ensures Words(w) == Finish(w)
  {
    if w != [] {
      SpanOfSpaceless(w, []);
      assert w + [] == w && w[|w|..] == [];
    }
  }

  /** Leading whitespace ends no token when none has been started. */
  lemma {:induction false} LexSkip(x: string, n: nat)
    requires n <= |x| && forall i | 0 <= i < n :: IsSpace(x[i])
    ensures Lex([], x) == Lex([], x[n..])
    decreases n
  {
    if n > 0 {
      assert Lex([], x) == [] + Lex([], x[1..]);
      assert x[1..][n - 1..] == x[n..];
      LexSkip(x[1..], n - 1);
    }
  }

  /** The match step of line 72, on the side of `Lex`: the whitespace before
      and after an isolated character only ends the current token. */
  lemma LexIsolated(w: string, x: string, j: nat, k: nat)
    requires j < k <= |x| && IsolatedAt(x, j)
    requires forall i | 0 <= i < j :: IsSpace(x[i])
    requires forall i | j < i < k :: IsSpace(x[i])
    ensures Lex(w, x) == Finish(w) + [[x[j]]] + Lex([], x[k..])
  {
    if j == 0 {
      LexIsolatedFirst(w, x, k);
    } else {
      LexIsolatedAt(x, j, k);
      LexLeadingSpace(w, x, j);
      ConcatAssoc(Finish(w), [[x[j]]], Lex([], x[k..]));
    }
  }

  /** From an isolated character at `j` on, no token is being read. */
  lemma LexIsolatedAt(x: string, j: nat, k: nat)
    requires j < k <= |x| && IsolatedAt(x, j)
    requires forall i | j < i < k :: IsSpace(x[i])
    ensures Lex([], x[j..]) == [[x[j]]] + Lex([], x[k..])
  {
    var z := x[j..];
    IsolatedShift(x, z, j, j);
    assert forall i | 0 < i < k - j :: z[i] == x[j + i];
    assert z[k - j..] == x[k..];
    LexIsolatedFirst([], z, k - j);
    var none: string := [];
    assert Finish(none) == [];
  }

  /** Whitespace before position `j` ends the current token and nothing more. */
  lemma LexLeadingSpace(w: string, x: string, j: nat)
    requires 0 < j <= |x| && forall i | 0 <= i < j :: IsSpace(x[i])
    ensures Lex(w, x) == Finish(w) + Lex([], x[j..])
  {
    assert Lex(w, x) == Finish(w) + Lex([], x[1..]);
    LexSkip(x[1..], j - 1);
    assert x[1..][j - 1..] == x[j..];
  }

  /** An isolated character at the start, then whitespace up to `k`. */
  lemma LexIsolatedFirst(w: string, z: string, k: nat)
    requires 0 < k <= |z| && IsolatedAt(z, 0)
    requires forall i | 0 < i < k :: IsSpace(z[i])
    ensures Lex(w, z) == Finish(w) + [[z[0]]] + Lex([], z[k..])
  {
    assert !IsSpace(z[0]);
    assert Lex(w, z) == Finish(w) + [[z[0]]] + Lex([], z[1..]);
    LexSkip(z[1..], k - 1);
    assert z[1..][k - 1..] == z[k..];
  }

  /** Lines 72-73 compute `Lex`: splitting the spaced text into words, after a
      word `w` already read, gives the tokens `Lex` reads. */
  lemma {:induction false} WordsOfSpaced(w: string, x: string)
    requires Spaceless(w)
    ensures Words(w + SpaceOperators(x)) == Lex(w, x)
    decreases |x|
  {
    if x == [] {
      assert w + [] == w;
      WordsOfWord(w);
    } else if MatchesAtStart(x) {
      WordsOfSpaced([], x[MatchEnd(x)..]);
      assert [] + SpaceOperators(x[MatchEnd(x)..]) == SpaceOperators(x[MatchEnd(x)..]);
      MatchStep(w, x);
    } else if IsSpace(x[0]) {
      WordsOfSpaced([], x[1..]);
      assert [] + SpaceOperators(x[1..]) == SpaceOperators(x[1..]);
      SpaceStep(w, x);
    } else {
      WordsOfSpaced(w + [x[0]], x[1..]);
      CopyWordStep(w, x);
    }
  }

  lemma MatchStep(w: string, x: string)
    requires Spaceless(w) && MatchesAtStart(x)
    requires Words(SpaceOperators(x[MatchEnd(x)..])) == Lex([], x[MatchEnd(x)..])
    ensures Words(w + SpaceOperators(x)) == Lex(w, x)
  {
    SpaceOperatorsMatches(w, x);
    IsolatedWord(w, x[Lead(x)], SpaceOperators(x[MatchEnd(x)..]), x[MatchEnd(x)..]);
    LexIsolated(w, x, Lead(x), MatchEnd(x));
  }

  lemma SpaceOperatorsMatches(w: string, x: string)
    requires MatchesAtStart(x)
    ensures w + SpaceOperators(x) == w + [' '] + ([x[Lead(x)]] + [' '] + SpaceOperators(x[MatchEnd(x)..]))
  {
    SpaceOperatorsMatch(x);
    Regroup(w, x[Lead(x)], SpaceOperators(x[MatchEnd(x)..]));
  }

  lemma Regroup(w: string, c: char, z: string)
    ensures w + ([' ', c, ' '] + z) == w + [' '] + ([c] + [' '] + z)
  {
  }

  lemma IsolatedWord(w: string, c: char, z: string, y: string)
    requires Spaceless(w) && !IsSpace(c) && Words(z) == Lex([], y)
    ensures Words(w + [' '] + ([c] + [' '] + z)) == Finish(w) + [[c]] + Lex([], y)
  {
    WordsAfterSpace(w, ' ', [c] + [' '] + z);
    WordsOfSingle(c, z);
    ConcatAssoc(Finish(w), [[c]], Lex([], y));
  }

  /** A character followed by a space is a word of its own. */
  lemma WordsOfSingle(c: char, z: string)
    requires !IsSpace(c)
    ensures Words([c] + [' '] + z) == [[c]] + Words(z)
  {
    WordsAfterSpace([c], ' ', z);
    assert Finish([c]) == [[c]];
  }

  lemma LexSpace(w: string, x: string)
    requires |x| > 0 && IsSpace(x[0])
    ensures Lex(w, x) == Finish(w) + Lex([], x[1..])
  {
  }

  lemma SpaceWord(w: string, c: char, z: string, y: string)
    requires Spaceless(w) && IsSpace(c) && Words(z) == Lex([], y)
    ensures Words(w + [c] + z) == Finish(w) + Lex([], y)
  {
    WordsAfterSpace(w, c, z);
  }

  lemma SpaceStep(w: string, x: string)
    requires Spaceless(w) && |x| > 0 && IsSpace(x[0])
    requires !MatchesAtStart(x)
    requires Words(SpaceOperators(x[1..])) == Lex([], x[1..])
    ensures Words(w + SpaceOperators(x)) == Lex(w, x)
  {
    SpaceOperatorsCopies(w, x);
    SpaceWord(w, x[0], SpaceOperators(x[1..]), x[1..]);
    LexSpace(w, x);
  }

  lemma WordsAfterSpace(w: string, c: char, y: string)
    requires Spaceless(w) && IsSpace(c)
    ensures Words(w + [c] + y) == Finish(w) + Words(y)
  {
    var s := w + [c] + y;
    if w == [] {
      assert s == [c] + y && s[1..] == y;
    } else {
      assert s == w + ([c] + y);
      SpanOfSpaceless(w, [c] + y);
      assert s[..|w|] == w && s[|w|..] == [c] + y;
      assert ([c] + y)[1..] == y;
    }
  }

  lemma LexCopy(w: string, x: string)
    requires |x| > 0 && !IsSpace(x[0]) && !IsolatedAt(x, 0)
    ensures Lex(w, x) == Lex(w + [x[0]], x[1..])
  {
  }

  lemma CopyWordStep(w: string, x: string)
    requires Spaceless(w) && |x| > 0 && !IsSpace(x[0])
    requires !MatchesAtStart(x)
    requires Words((w + [x[0]]) + SpaceOperators(x[1..])) == Lex(w + [x[0]], x[1..])
    ensures Words(w + SpaceOperators(x)) == Lex(w, x)
  {
    assert Lead(x) == 0;
    SpaceOperatorsCopies(w, x);
    LexCopy(w, x);
  }

  /** Lines 72-73 on any normalised text `x` give the tokens of the direct
      reading `Lex`, or the one empty token when there are none. */
  lemma SplitLex(x: string)
    ensures SplitWords(SpaceOperators(x)) == (var ts := Lex([], x); if ts == [] then [""] else ts)
  {
    WordsOfSpaced([], x);
    assert [] + SpaceOperators(x) == SpaceOperators(x);
  }

  /** The tokens hold exactly the non-whitespace characters of the text
      the three sign rewrites leave. */
  lemma TokensKeepText(s: string)
    ensures Concat(Tokens(s)) == RemoveSpaces(NormaliseAsWritten(s))
  {
    SpaceOperatorsKeepsText(NormaliseAsWritten(s));
  }

  /** Every letter or digit of the line ends up in some token. */
  lemma TokensKeepAlnum(s: string, c: char)
    requires IsAlnum(c) && c in s
    ensures exists k | 0 <= k < |Tokens(s)| :: c in Tokens(s)[k]
  {
    var n := NormaliseAsWritten(s);
    UnsignedKeeps(s, c);
    UnsignedKeeps(n, c);
    RemoveSpacesKeeps(n, c);
    TokensKeepText(s);
    ConcatMember(Tokens(s), c);
  }
}
