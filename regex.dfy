/** The regex normaliser of scanner/thompson.py: explicit concatenation insertion. */
module Regex {

  const LParen: char := '('
  const RParen: char := ')'
  const Concatenation: char := '.'
  const Alternation: char := '|'
  const Closure: char := '*'

  /** OPERATORS = {ALTERNATION, CLOSURE} */
  predicate IsOperator(c: char) {
    c == Alternation || c == Closure
  }

  /** SPECIAL_CHARS = OPERATORS plus the two parentheses and the concatenation operator. */
  predicate IsSpecial(c: char) {
    IsOperator(c) || c == LParen || c == RParen || c == Concatenation
  }

  /** `a` can end an operand and `b` can start one (or is a literal following one). */
  predicate ShouldConcatenate(a: char, b: char) {
    a != LParen && b != RParen && a != Alternation && !IsOperator(b)
  }

  /** Each character followed by a '.' exactly when it and its successor should be concatenated. */
  function FormatRegex(regex: string): (r: string)
    ensures |regex| > 0 ==> |r| > 0 && r[0] == regex[0]
  {
    if |regex| <= 1 then regex
    else [regex[0]] + (if ShouldConcatenate(regex[0], regex[1]) then [Concatenation] else [])
         + FormatRegex(regex[1..])
  }

  /** `out` is `r` with zero or one '.' placed after each character but the last. */
  ghost predicate DotPadded(r: string, out: string)
    decreases |r|
  {
    if |r| <= 1 then out == r
    else
      |out| >= 2 && out[0] == r[0] &&
      (DotPadded(r[1..], out[1..]) || (out[1] == Concatenation && DotPadded(r[1..], out[2..])))
  }

  lemma {:induction false} FormatRegexIsDotPadded(r: string)
    ensures DotPadded(r, FormatRegex(r))
    decreases |r|
  {
    if |r| > 1 {
      FormatRegexIsDotPadded(r[1..]);
      var rest := FormatRegex(r[1..]);
      if ShouldConcatenate(r[0], r[1]) {
        assert FormatRegex(r)[2..] == rest;
      } else {
        assert FormatRegex(r)[1..] == rest;
      }
    }
  }

  /** Deletes every '.'. */
  function RemoveDots(s: string): (r: string)
    ensures |r| <= |s|
    ensures forall i :: 0 <= i < |r| ==> r[i] != Concatenation
  {
    if s == [] then []
    else (if s[0] == Concatenation then [] else [s[0]]) + RemoveDots(s[1..])
  }

  lemma RemoveDotsAppend(a: string, b: string)
    ensures RemoveDots(a + b) == RemoveDots(a) + RemoveDots(b)
  {
    if a == [] {
      assert a + b == b;
    } else {
      var head := if a[0] == Concatenation then [] else [a[0]];
      calc {
        RemoveDots(a + b);
        { assert (a + b)[0] == a[0] && (a + b)[1..] == a[1..] + b; }
        head + RemoveDots(a[1..] + b);
        { RemoveDotsAppend(a[1..], b); }
        head + (RemoveDots(a[1..]) + RemoveDots(b));
        RemoveDots(a) + RemoveDots(b);
      }
    }
  }

  /** For a regex written without explicit '.', deleting the inserted dots gives the regex back. */
  lemma {:induction false} FormatRegexRoundTrip(r: string)
    requires forall i :: 0 <= i < |r| ==> r[i] != Concatenation
    ensures RemoveDots(FormatRegex(r)) == r
    decreases |r|
  {
    if |r| > 1 {
      FormatRegexRoundTrip(r[1..]);
      var dot := if ShouldConcatenate(r[0], r[1]) then [Concatenation] else [];
      RemoveDotsAppend([r[0]] + dot, FormatRegex(r[1..]));
      RemoveDotsAppend([r[0]], dot);
      assert RemoveDots([r[0]]) == [r[0]];
      assert r == [r[0]] + r[1..];
    } else if |r| == 1 {
      assert RemoveDots(r) == [r[0]] + RemoveDots(r[1..]);
    }
  }

  /** Every '.' sits between two characters that should be concatenated. */
  ghost predicate DotsWellPlaced(out: string) {
    forall i :: 0 <= i < |out| && out[i] == Concatenation ==>
      0 < i < |out| - 1 && ShouldConcatenate(out[i - 1], out[i + 1])
  }

  /** Two adjacent non-'.' characters that should be concatenated never occur. */
  ghost predicate NoMissingDots(out: string) {
    forall i :: 0 <= i < |out| - 1 && out[i] != Concatenation && out[i + 1] != Concatenation ==>
      !ShouldConcatenate(out[i], out[i + 1])
  }

  /**
   * For a regex without explicit '.': a '.' is inserted exactly between adjacent characters that
   * should be concatenated.
   */
  lemma {:induction false} FormatRegexDots(r: string)
    requires forall i :: 0 <= i < |r| ==> r[i] != Concatenation
    ensures DotsWellPlaced(FormatRegex(r))
    ensures NoMissingDots(FormatRegex(r))
    decreases |r|
  {
    var out := FormatRegex(r);
    if |r| > 1 {
      FormatRegexDots(r[1..]);
      var rest := FormatRegex(r[1..]);
      assert rest[0] == r[1];
      if ShouldConcatenate(r[0], r[1]) {
        assert out == [r[0], Concatenation] + rest;
        forall i | 0 <= i < |out| && out[i] == Concatenation
          ensures 0 < i < |out| - 1 && ShouldConcatenate(out[i - 1], out[i + 1])
        {
          if i >= 2 {
            assert rest[i - 2] == Concatenation;
            assert out[i - 1] == rest[i - 3] && out[i + 1] == rest[i - 1];
          }
        }
        forall i | 0 <= i < |out| - 1 && out[i] != Concatenation && out[i + 1] != Concatenation
          ensures !ShouldConcatenate(out[i], out[i + 1])
        {
          assert i >= 2;
          assert out[i] == rest[i - 2] && out[i + 1] == rest[i - 1];
        }
      } else {
        assert out == [r[0]] + rest;
        forall i | 0 <= i < |out| && out[i] == Concatenation
          ensures 0 < i < |out| - 1 && ShouldConcatenate(out[i - 1], out[i + 1])
        {
          assert i >= 1 && rest[i - 1] == Concatenation;
          assert out[i - 1] == rest[i - 2] && out[i + 1] == rest[i];
        }
        forall i | 0 <= i < |out| - 1 && out[i] != Concatenation && out[i + 1] != Concatenation
          ensures !ShouldConcatenate(out[i], out[i + 1])
        {
          if i == 0 {
            assert out[1] == r[1];
          } else {
            assert out[i] == rest[i - 1] && out[i + 1] == rest[i];
          }
        }
      }
    }
  }

  /** No '.' is placed after '(' or '|', nor before ')', '|' or '*'. */
  lemma FormatRegexNeverAfterOpenOrBar(r: string, i: int)
    requires forall k :: 0 <= k < |r| ==> r[k] != Concatenation
    requires 0 <= i < |FormatRegex(r)| && FormatRegex(r)[i] == Concatenation
    ensures 0 < i < |FormatRegex(r)| - 1
    ensures FormatRegex(r)[i - 1] !in {LParen, Alternation}
    ensures FormatRegex(r)[i + 1] !in {RParen, Alternation, Closure}
  {
    FormatRegexDots(r);
    var out := FormatRegex(r);
    assert 0 < i < |out| - 1 && ShouldConcatenate(out[i - 1], out[i + 1]);
  }

  lemma FormatRegexShortUnchanged(r: string)
    requires |r| <= 1
    ensures FormatRegex(r) == r
  {
  }

  /** One step of the recursion: the first character, then its '.' if any, then the rest. */
  lemma FormatRegexStep(c: char, rest: string)
    requires |rest| >= 1
    ensures FormatRegex([c] + rest) == [c] + (if ShouldConcatenate(c, rest[0]) then [Concatenation] else []) + FormatRegex(rest)
  {
    assert ([c] + rest)[1..] == rest;
  }

  /** "ab" becomes "a.b", for any two literals. */
  lemma FormatRegexExampleAB(a: char, b: char)
    requires !IsSpecial(a) && !IsSpecial(b)
    ensures FormatRegex([a, b]) == [a, Concatenation, b]
  {
    FormatRegexStep(a, [b]);
    assert [a] + [b] == [a, b];
  }

  /** The tail "a|b)*b" of the next example becomes "a|b)*.b". */
  lemma FormatRegexExampleStarTail(a: char, b: char)
    requires !IsSpecial(a) && !IsSpecial(b)
    ensures FormatRegex([a, Alternation, b, RParen, Closure, b]) == [a, Alternation, b, RParen, Closure, Concatenation, b]
  {
    var s6 := [Closure, b];
    var s5 := [RParen] + s6;
    var s4 := [b] + s5;
    var s3 := [Alternation] + s4;
    assert [Closure] + [b] == s6;
    assert [a] + s3 == [a, Alternation, b, RParen, Closure, b];
    FormatRegexStep(Closure, [b]);
    assert FormatRegex(s6) == [Closure, Concatenation, b];
    FormatRegexStep(RParen, s6);
    assert FormatRegex(s5) == [RParen, Closure, Concatenation, b];
    FormatRegexStep(b, s5);
    assert FormatRegex(s4) == [b, RParen, Closure, Concatenation, b];
    FormatRegexStep(Alternation, s4);
    assert FormatRegex(s3) == [Alternation, b, RParen, Closure, Concatenation, b];
    FormatRegexStep(a, s3);
  }

  /** "a(a|b)*b" becomes "a.(a|b)*.b", for any two literals. */
  lemma FormatRegexExampleStarGroup(a: char, b: char)
    requires !IsSpecial(a) && !IsSpecial(b)
    ensures FormatRegex([a, LParen, a, Alternation, b, RParen, Closure, b])
         == [a, Concatenation, LParen, a, Alternation, b, RParen, Closure, Concatenation, b]
  {
    var s2 := [a, Alternation, b, RParen, Closure, b];
    var s1 := [LParen] + s2;
    assert [a] + s1 == [a, LParen, a, Alternation, b, RParen, Closure, b];
    FormatRegexExampleStarTail(a, b);
    FormatRegexStep(LParen, s2);
    assert FormatRegex(s1) == [LParen, a, Alternation, b, RParen, Closure, Concatenation, b];
    FormatRegexStep(a, s1);
  }

  /** "a(b|c)*" becomes "a.(b|c)*": nothing follows the trailing star. */
  lemma FormatRegexExampleTrailingStar(a: char, b: char, c: char)
    requires !IsSpecial(a) && !IsSpecial(b) && !IsSpecial(c)
    ensures FormatRegex([a, LParen, b, Alternation, c, RParen, Closure])
         == [a, Concatenation, LParen, b, Alternation, c, RParen, Closure]
  {
    var s5 := [RParen, Closure];
    FormatRegexStep(RParen, [Closure]);
    assert [RParen] + [Closure] == s5;
    assert FormatRegex(s5) == s5;
    var s4 := [c] + s5;
    FormatRegexStep(c, s5);
    var s3 := [Alternation] + s4;
    FormatRegexStep(Alternation, s4);
    var s2 := [b] + s3;
    FormatRegexStep(b, s3);
    var s1 := [LParen] + s2;
    FormatRegexStep(LParen, s2);
    assert FormatRegex(s1) == s1;
    FormatRegexStep(a, s1);
    assert [a] + s1 == [a, LParen, b, Alternation, c, RParen, Closure];
  }
}
