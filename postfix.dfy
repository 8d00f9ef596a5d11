/** The restricted shunting-yard converter of scanner/thompson.py (convert_to_postfix). */
module Postfix {
  import opened Wrappers
  import opened Regex

  /**
   * PRECEDENCE: a lower number binds tighter. Only the table's five keys are ever looked up:
   * the operator stack holds nothing but '(' and the three operators (see OperatorStack).
   */
  function Precedence(c: char): nat {
    if c == Closure then 1
    else if c == Concatenation then 2
    else if c == Alternation then 3
    else 4
  }

  /** The converter's state: the output deque and the operator list (its top is the last element). */
  datatype Shunt = Shunt(output: string, operators: string)

  /** What can sit on the operator stack. */
  predicate Stackable(c: char) {
    c == LParen || c == Concatenation || c == Alternation || c == Closure
  }

  ghost predicate OperatorStack(ops: string) {
    forall i :: 0 <= i < |ops| ==> Stackable(ops[i])
  }

  /** The ')' branch: pop into the output until a '(' is popped and dropped; an empty list raises. */
  function PopToLParen(output: string, operators: string): Result<Shunt>
    decreases |operators|
  {
    if operators == [] then Err(IndexError)
    else
      var o := operators[|operators| - 1];
      if o == LParen then Ok(Shunt(output, operators[..|operators| - 1]))
      else PopToLParen(output + [o], operators[..|operators| - 1])
  }

  /** The operator branch: pop every operator whose precedence is at most c's, then push c. */
  function PushOperator(output: string, operators: string, c: char): Shunt
    decreases |operators|
  {
    if operators != [] && Precedence(operators[|operators| - 1]) <= Precedence(c) then
      PushOperator(output + [operators[|operators| - 1]], operators[..|operators| - 1], c)
    else Shunt(output, operators + [c])
  }

  /** One iteration of the loop over the regex. */
  function Step(st: Shunt, c: char): Result<Shunt> {
    if !IsSpecial(c) then Ok(Shunt(st.output + [c], st.operators))
    else if c == LParen then Ok(Shunt(st.output, st.operators + [c]))
    else if c == RParen then PopToLParen(st.output, st.operators)
    else Ok(PushOperator(st.output, st.operators, c))
  }

  function Scan(st: Shunt, s: string): Result<Shunt>
    decreases |s|
  {
    if s == [] then Ok(st)
    else
      match Step(st, s[0])
      case Err(e) => Err(e)
      case Ok(next) => Scan(next, s[1..])
  }

  function Reverse(s: string): (r: string)
    ensures |r| == |s|
    ensures forall i :: 0 <= i < |s| ==> r[i] == s[|s| - 1 - i]
  {
    if s == [] then [] else Reverse(s[1..]) + [s[0]]
  }

  /** convert_to_postfix: the scan, then the operators left on the stack, last pushed first. */
  function ToPostfix(regex: string): Result<string> {
    match Scan(Shunt([], []), regex)
    case Err(e) => Err(e)
    case Ok(st) => Ok(st.output + Reverse(st.operators))
  }

  // ---------------------------------------------------------------------------------------------
  // What the conversion means

  /** Nesting depth after s: the number of '(' minus the number of ')'. */
  function Depth(s: string): int {
    multiset(s)[LParen] as int - multiset(s)[RParen] as int
  }

  /** Some prefix of s closes more parentheses than it opens. */
  ghost predicate UnmatchedClose(s: string) {
    exists k :: 0 < k <= |s| && Depth(s[..k]) < 0
  }

  /** The non-special characters of s, in order. */
  function Literals(s: string): string
    decreases |s|
  {
    if s == [] then []
    else Literals(s[..|s| - 1]) + (if IsSpecial(s[|s| - 1]) then [] else [s[|s| - 1]])
  }

  /** The characters of s with the parentheses removed, as a multiset. */
  function NonParens(s: string): multiset<char> {
    multiset(s)[LParen := 0][RParen := 0]
  }

  lemma {:induction false} LiteralsAppend(a: string, b: string)
    ensures Literals(a + b) == Literals(a) + Literals(b)
    decreases |b|
  {
    if b == [] {
      assert a + b == a;
    } else {
      var b' := b[..|b| - 1];
      assert (a + b)[..|a + b| - 1] == a + b';
      LiteralsAppend(a, b');
    }
  }

  lemma {:induction false} LiteralsOfOperators(ops: string)
    requires OperatorStack(ops)
    ensures Literals(ops) == []
    decreases |ops|
  {
    if ops != [] {
      LiteralsOfOperators(ops[..|ops| - 1]);
    }
  }

  lemma {:induction false} ReverseKeepsElements(s: string)
    ensures multiset(Reverse(s)) == multiset(s)
    ensures OperatorStack(s) ==> OperatorStack(Reverse(s))
    decreases |s|
  {
    if s != [] {
      ReverseKeepsElements(s[1..]);
      assert s == [s[0]] + s[1..];
    }
  }

  /** The scan invariant after consuming the prefix p. */
  ghost predicate Inv(st: Shunt, p: string) {
    && OperatorStack(st.operators)
    && multiset(st.operators)[LParen] as int == Depth(p)
    && multiset(st.output)[LParen] == 0
    && multiset(st.output)[RParen] == 0
    && Literals(st.output) == Literals(p)
    && multiset(st.output) + multiset(st.operators)[LParen := 0] == NonParens(p)
  }

  lemma {:induction false} PopToLParenFacts(output: string, ops: string)
    requires OperatorStack(ops)
    ensures PopToLParen(output, ops).Err? <==> multiset(ops)[LParen] == 0
    ensures PopToLParen(output, ops).Ok? ==>
      var st := PopToLParen(output, ops).value;
      && OperatorStack(st.operators)
      && multiset(st.operators)[LParen] == multiset(ops)[LParen] - 1
      && multiset(st.output)[LParen] == multiset(output)[LParen]
      && multiset(st.output)[RParen] == multiset(output)[RParen]
      && Literals(st.output) == Literals(output)
      && multiset(st.output) + multiset(st.operators)[LParen := 0]
         == multiset(output) + multiset(ops)[LParen := 0]
    decreases |ops|
  {
    if ops != [] {
      var o := ops[|ops| - 1];
      var rest := ops[..|ops| - 1];
      assert ops == rest + [o];
      assert OperatorStack(rest);
      if o != LParen {
        PopToLParenFacts(output + [o], rest);
        assert (output + [o])[..|output|] == output;
      }
    }
  }

  /** The operator branch keeps the operator stack, its '(' and the output's parentheses. */
  lemma {:induction false} PushOperatorFacts(output: string, ops: string, c: char)
    requires OperatorStack(ops)
    requires c == Concatenation || c == Alternation || c == Closure
    ensures var st := PushOperator(output, ops, c);
      && OperatorStack(st.operators)
      && multiset(st.operators)[LParen] == multiset(ops)[LParen]
      && multiset(st.output)[LParen] == multiset(output)[LParen]
      && multiset(st.output)[RParen] == multiset(output)[RParen]
      && Literals(st.output) == Literals(output)
      && multiset(st.output) + multiset(st.operators)[LParen := 0]
         == multiset(output) + multiset(ops)[LParen := 0] + multiset{c}
  {
    PushOperatorStack(output, ops, c);
    PushOperatorLiterals(output, ops, c);
    PushOperatorMultiset(output, ops, c);
  }

  lemma {:induction false} PushOperatorStack(output: string, ops: string, c: char)
    requires OperatorStack(ops)
    requires c == Concatenation || c == Alternation || c == Closure
    ensures OperatorStack(PushOperator(output, ops, c).operators)
    ensures multiset(PushOperator(output, ops, c).operators)[LParen] == multiset(ops)[LParen]
    decreases |ops|
  {
    if ops != [] && Precedence(ops[|ops| - 1]) <= Precedence(c) {
      var o := ops[|ops| - 1];
      var rest := ops[..|ops| - 1];
      assert ops == rest + [o];
      assert o != LParen;
      PushOperatorStack(output + [o], rest, c);
      assert multiset(ops) == multiset(rest) + multiset{o};
    } else {
      assert multiset(ops + [c]) == multiset(ops) + multiset{c};
    }
  }

  lemma {:induction false} PushOperatorLiterals(output: string, ops: string, c: char)
    requires OperatorStack(ops)
    ensures Literals(PushOperator(output, ops, c).output) == Literals(output)
    decreases |ops|
  {
    if ops != [] && Precedence(ops[|ops| - 1]) <= Precedence(c) {
      var o := ops[|ops| - 1];
      var rest := ops[..|ops| - 1];
      assert OperatorStack(rest);
      PushOperatorLiterals(output + [o], rest, c);
      assert (output + [o])[..|output|] == output;
    }
  }

  lemma {:induction false} PushOperatorMultiset(output: string, ops: string, c: char)
    requires OperatorStack(ops)
    requires c == Concatenation || c == Alternation || c == Closure
    ensures var st := PushOperator(output, ops, c);
      && multiset(st.output)[LParen] == multiset(output)[LParen]
      && multiset(st.output)[RParen] == multiset(output)[RParen]
      && multiset(st.output) + multiset(st.operators)[LParen := 0]
         == multiset(output) + multiset(ops)[LParen := 0] + multiset{c}
    decreases |ops|
  {
    if ops != [] && Precedence(ops[|ops| - 1]) <= Precedence(c) {
      var o := ops[|ops| - 1];
      var rest := ops[..|ops| - 1];
      assert ops == rest + [o];
      assert o != LParen && o != RParen;
      assert OperatorStack(rest);
      PushOperatorMultiset(output + [o], rest, c);
      assert multiset(output + [o]) == multiset(output) + multiset{o};
      assert multiset(ops) == multiset(rest) + multiset{o};
    } else {
      assert multiset(ops + [c]) == multiset(ops) + multiset{c};
    }
  }

  lemma DepthSnoc(p: string, c: char)
    ensures Depth(p + [c]) == Depth(p) + (if c == LParen then 1 else if c == RParen then -1 else 0)
    ensures NonParens(p + [c]) == NonParens(p) + (if c == LParen || c == RParen then multiset{} else multiset{c})
  {
    assert multiset(p + [c]) == multiset(p) + multiset{c};
  }

  lemma StepFacts(st: Shunt, p: string, c: char)
    requires Inv(st, p)
    ensures Step(st, c).Err? <==> c == RParen && Depth(p) == 0
    ensures Step(st, c).Ok? ==> Inv(Step(st, c).value, p + [c])
  {
    if !IsSpecial(c) {
      StepLiteralFacts(st, p, c);
    } else if c == LParen {
      StepLParenFacts(st, p);
    } else if c == RParen {
      DepthSnoc(p, c);
      LiteralsSnocSpecial(p, c);
      PopToLParenFacts(st.output, st.operators);
    } else {
      DepthSnoc(p, c);
      LiteralsSnocSpecial(p, c);
      PushOperatorFacts(st.output, st.operators, c);
    }
  }

  /** A special character adds no literal. */
  lemma LiteralsSnocSpecial(p: string, c: char)
    requires IsSpecial(c)
    ensures Literals(p + [c]) == Literals(p)
  {
    assert (p + [c])[..|p|] == p;
  }

  lemma StepLiteralFacts(st: Shunt, p: string, c: char)
    requires Inv(st, p) && !IsSpecial(c)
    ensures Inv(Shunt(st.output + [c], st.operators), p + [c])
  {
    DepthSnoc(p, c);
    assert (p + [c])[..|p|] == p;
    assert (st.output + [c])[..|st.output|] == st.output;
    assert multiset(st.output + [c]) == multiset(st.output) + multiset{c};
  }

  /** Adding c to a multiset and then dropping every c drops the addition. */
  lemma ZeroAfterAdd(m: multiset<char>, c: char)
    ensures (m + multiset{c})[c := 0] == m[c := 0]
  {
  }

  lemma StepLParenFacts(st: Shunt, p: string)
    requires Inv(st, p)
    ensures Inv(Shunt(st.output, st.operators + [LParen]), p + [LParen])
  {
    DepthSnoc(p, LParen);
    LiteralsSnocSpecial(p, LParen);
    var ops := st.operators + [LParen];
    assert multiset(ops) == multiset(st.operators) + multiset{LParen};
    ZeroAfterAdd(multiset(st.operators), LParen);
    assert OperatorStack(ops);
  }

  lemma ScanInv(st: Shunt, p: string, s: string)
    requires Inv(st, p)
    ensures Scan(st, s).Ok? ==> Inv(Scan(st, s).value, p + s)
    decreases |s|
  {
    if s == [] {
      assert p + s == p;
    } else {
      StepFacts(st, p, s[0]);
      if Step(st, s[0]).Ok? {
        ScanInv(Step(st, s[0]).value, p + [s[0]], s[1..]);
        assert p + s == (p + [s[0]]) + s[1..];
      }
    }
  }

  /** Some non-empty prefix of s, appended to p, closes more parentheses than it opens. */
  ghost predicate UnmatchedCloseAfter(p: string, s: string) {
    exists k :: 0 < k <= |s| && Depth(p + s[..k]) < 0
  }

  lemma PrefixShift(p: string, s: string, k: int)
    requires 0 < k <= |s|
    ensures p + s[..k] == (p + [s[0]]) + s[1..][..k - 1]
  {
    assert s[..k] == [s[0]] + s[1..][..k - 1];
  }

  lemma UnmatchedCloseAfterCons(p: string, s: string)
    requires s != [] && Depth(p + [s[0]]) >= 0
    ensures UnmatchedCloseAfter(p, s) <==> UnmatchedCloseAfter(p + [s[0]], s[1..])
  {
    if UnmatchedCloseAfter(p, s) {
      UnmatchedCloseAfterTail(p, s);
    }
    if UnmatchedCloseAfter(p + [s[0]], s[1..]) {
      UnmatchedCloseAfterHead(p, s);
    }
  }

  lemma UnmatchedCloseAfterHead(p: string, s: string)
    requires s != [] && UnmatchedCloseAfter(p + [s[0]], s[1..])
    ensures UnmatchedCloseAfter(p, s)
  {
    var k' :| 0 < k' <= |s[1..]| && Depth((p + [s[0]]) + s[1..][..k']) < 0;
    PrefixShift(p, s, k' + 1);
    assert 0 < k' + 1 <= |s| && Depth(p + s[..k' + 1]) < 0;
  }

  lemma UnmatchedCloseAfterTail(p: string, s: string)
    requires s != [] && Depth(p + [s[0]]) >= 0 && UnmatchedCloseAfter(p, s)
    ensures UnmatchedCloseAfter(p + [s[0]], s[1..])
  {
    var k :| 0 < k <= |s| && Depth(p + s[..k]) < 0;
    PrefixShift(p, s, k);
    assert 0 < k - 1 <= |s[1..]| && Depth((p + [s[0]]) + s[1..][..k - 1]) < 0;
  }

  lemma {:induction false} ScanError(st: Shunt, p: string, s: string)
    requires Inv(st, p)
    ensures Scan(st, s).Err? <==> UnmatchedCloseAfter(p, s)
    decreases |s|
  {
    if s != [] {
      var c := s[0];
      StepFacts(st, p, c);
      DepthSnoc(p, c);
      if c == RParen && Depth(p) == 0 {
        assert s[..1] == [c];
        assert Depth(p + s[..1]) < 0;
      } else {
        ScanError(Step(st, c).value, p + [c], s[1..]);
        UnmatchedCloseAfterCons(p, s);
      }
    }
  }

  /**
   * convert_to_postfix fails exactly when a ')' finds no '(' on the stack; otherwise it keeps
   * the literals in order, drops every ')' and the '(' each one matched, keeps every other
   * character, and flushes the '(' left unmatched at the end into the output.
   */
  lemma ToPostfixMeaning(regex: string)
    ensures ToPostfix(regex).Err? <==> UnmatchedClose(regex)
    ensures ToPostfix(regex).Ok? ==>
      var out := ToPostfix(regex).value;
      && Literals(out) == Literals(regex)
      && multiset(out)[RParen] == 0
      && multiset(out)[LParen] as int == Depth(regex)
      && multiset(out)[LParen := 0] == NonParens(regex)
  {
    var init := Shunt([], []);
    assert Inv(init, []) by {
      assert multiset(init.output) == multiset{};
    }
    ScanError(init, [], regex);
    ScanInv(init, [], regex);
    assert UnmatchedCloseAfter([], regex) <==> UnmatchedClose(regex) by {
      assert forall k :: 0 < k <= |regex| ==> [] + regex[..k] == regex[..k];
    }
    if Scan(init, regex).Ok? {
      assert [] + regex == regex;
      Flush(Scan(init, regex).value, regex);
    }
  }

  /** The final `output.extend(operators[::-1])`. */
  lemma Flush(st: Shunt, regex: string)
    requires Inv(st, regex)
    ensures var out := st.output + Reverse(st.operators);
      && Literals(out) == Literals(regex)
      && multiset(out)[RParen] == 0
      && multiset(out)[LParen] as int == Depth(regex)
      && multiset(out)[LParen := 0] == NonParens(regex)
  {
    LiteralsAppend(st.output, Reverse(st.operators));
    ReverseKeepsElements(st.operators);
    LiteralsOfOperators(Reverse(st.operators));
    FlushCounts(st, regex);
  }

  lemma FlushCounts(st: Shunt, regex: string)
    requires Inv(st, regex)
    requires multiset(Reverse(st.operators)) == multiset(st.operators)
    ensures var out := st.output + Reverse(st.operators);
      && multiset(out)[RParen] == 0
      && multiset(out)[LParen] as int == Depth(regex)
      && multiset(out)[LParen := 0] == NonParens(regex)
  {
    assert multiset(st.operators)[RParen] == 0 by {
      assert RParen !in st.operators;
    }
    var out := st.output + Reverse(st.operators);
    assert multiset(out) == multiset(st.output) + multiset(st.operators);
  }

  /** For balanced input the output has no parentheses and is a permutation of the rest. */
  lemma ToPostfixBalanced(regex: string)
    requires !UnmatchedClose(regex) && Depth(regex) == 0
    ensures ToPostfix(regex).Ok?
    ensures multiset(ToPostfix(regex).value) == NonParens(regex)
    ensures Literals(ToPostfix(regex).value) == Literals(regex)
  {
    ToPostfixMeaning(regex);
    var out := ToPostfix(regex).value;
    assert multiset(out) == multiset(out)[LParen := 0];
  }

  // ---------------------------------------------------------------------------------------------
  // The imperative converter

  method ConvertToPostfix(regex: string) returns (r: Result<string>)
    ensures r == ToPostfix(regex)
    ensures r.Err? <==> UnmatchedClose(regex)
    ensures r.Ok? ==> Literals(r.value) == Literals(regex)
  {
    ToPostfixMeaning(regex);
    var output: string := [];
    var operators: string := [];
    var i := 0;
    while i < |regex|
      invariant 0 <= i <= |regex|
      invariant Scan(Shunt(output, operators), regex[i..]) == Scan(Shunt([], []), regex)
    {
      var c := regex[i];
      assert regex[i..][0] == c && regex[i..][1..] == regex[i + 1..];
      if !IsSpecial(c) {
        output := output + [c];
      } else if c == LParen {
        operators := operators + [c];
      } else if c == RParen {
        ghost var target := PopToLParen(output, operators);
        while true
          invariant PopToLParen(output, operators) == target
          decreases |operators|
        {
          if operators == [] {
            return Err(IndexError);
          }
          var o := operators[|operators| - 1];
          operators := operators[..|operators| - 1];
          if o == LParen {
            break;
          }
          output := output + [o];
        }
      } else {
        ghost var target := PushOperator(output, operators, c);
        while true
          invariant PushOperator(output, operators, c) == target
          decreases |operators|
        {
          if operators != [] && Precedence(operators[|operators| - 1]) <= Precedence(c) {
            output := output + [operators[|operators| - 1]];
            operators := operators[..|operators| - 1];
          } else {
            operators := operators + [c];
            break;
          }
        }
      }
      i := i + 1;
    }
    output := output + Reverse(operators);
    return Ok(output);
  }

  /** A scan that takes the steps ts[0] to ts[|s|], one per character. */
  lemma {:induction false} ScanTrace(ts: seq<Shunt>, s: string)
    requires |ts| == |s| + 1
    requires forall i :: 0 <= i < |s| ==> Step(ts[i], s[i]) == Ok(ts[i + 1])
    ensures Scan(ts[0], s) == Ok(ts[|s|])
    decreases |s|
  {
    if s != [] {
      ScanTrace(ts[1..], s[1..]);
    }
  }

  /** The conversion of a regex whose scan from the empty state takes the steps ts. */
  lemma ToPostfixTrace(ts: seq<Shunt>, s: string)
    requires |ts| == |s| + 1 && ts[0] == Shunt([], [])
    requires forall i :: 0 <= i < |s| ==> Step(ts[i], s[i]) == Ok(ts[i + 1])
    ensures ToPostfix(s) == Ok(ts[|s|].output + Reverse(ts[|s|].operators))
  {
    ScanTrace(ts, s);
  }

  /** The five steps of the scan of "a.a.b". */
  lemma ConcatenationsSteps(a: char, b: char)
    requires !IsSpecial(a) && !IsSpecial(b)
    ensures var d := Concatenation;
      && Step(Shunt([], []), a) == Ok(Shunt([a], []))
      && Step(Shunt([a], []), d) == Ok(Shunt([a], [d]))
      && Step(Shunt([a], [d]), a) == Ok(Shunt([a, a], [d]))
      && Step(Shunt([a, a], [d]), d) == Ok(Shunt([a, a, d], [d]))
      && Step(Shunt([a, a, d], [d]), b) == Ok(Shunt([a, a, d, b], [d]))
  {
    var d := Concatenation;
    assert [] + [a] == [a] && [] + [d] == [d] && [a] + [a] == [a, a];
    assert [a, a] + [d] == [a, a, d] && [d][..0] == [] && [a, a, d] + [b] == [a, a, d, b];
    assert PushOperator([a, a, d], [], d) == Shunt([a, a, d], [d]);
  }

  /** Equal precedence pops: "a.a.b" becomes "aa.b.", so concatenation is left-associative. */
  lemma ToPostfixExampleConcatenations(a: char, b: char)
    requires !IsSpecial(a) && !IsSpecial(b)
    ensures ToPostfix([a, Concatenation, a, Concatenation, b]) == Ok([a, a, Concatenation, b, Concatenation])
  {
    var d := Concatenation;
    ConcatenationsSteps(a, b);
    ToPostfixTrace([Shunt([], []), Shunt([a], []), Shunt([a], [d]), Shunt([a, a], [d]), Shunt([a, a, d], [d]),
      Shunt([a, a, d, b], [d])], [a, d, a, d, b]);
    assert Reverse([d]) == [d] by {
      assert [d][1..] == [];
    }
    assert [a, a, d, b] + [d] == [a, a, d, b, d];
  }

  /** The four steps of the scan of "a|b*". */
  lemma AlternationSteps(a: char, b: char)
    requires !IsSpecial(a) && !IsSpecial(b)
    ensures var u, k := Alternation, Closure;
      && Step(Shunt([], []), a) == Ok(Shunt([a], []))
      && Step(Shunt([a], []), u) == Ok(Shunt([a], [u]))
      && Step(Shunt([a], [u]), b) == Ok(Shunt([a, b], [u]))
      && Step(Shunt([a, b], [u]), k) == Ok(Shunt([a, b], [u, k]))
  {
    var u, k := Alternation, Closure;
    assert [] + [a] == [a] && [] + [u] == [u] && [a] + [b] == [a, b] && [u] + [k] == [u, k];
  }

  /** "a|b" becomes "ab|". */
  lemma ToPostfixExampleAlternation(a: char, b: char)
    requires !IsSpecial(a) && !IsSpecial(b)
    ensures ToPostfix([a, Alternation, b]) == Ok([a, b, Alternation])
  {
    var u := Alternation;
    AlternationSteps(a, b);
    ToPostfixTrace([Shunt([], []), Shunt([a], []), Shunt([a], [u]), Shunt([a, b], [u])], [a, u, b]);
    assert Reverse([u]) == [u] by {
      assert [u][1..] == [];
    }
    assert [a, b] + [u] == [a, b, u];
  }

  /** "a|b*" becomes "ab*|": the closure binds tighter than the alternation below it. */
  lemma ToPostfixExampleClosureBindsTighter(a: char, b: char)
    requires !IsSpecial(a) && !IsSpecial(b)
    ensures ToPostfix([a, Alternation, b, Closure]) == Ok([a, b, Closure, Alternation])
  {
    var u, k := Alternation, Closure;
    AlternationSteps(a, b);
    ToPostfixTrace([Shunt([], []), Shunt([a], []), Shunt([a], [u]), Shunt([a, b], [u]), Shunt([a, b], [u, k])],
      [a, u, b, k]);
    assert Reverse([u, k]) == [k, u] by {
      assert [u, k][1..] == [k] && [k][1..] == [];
      assert Reverse([k]) == [k];
    }
    assert [a, b] + [k, u] == [a, b, k, u];
  }

  /** The first five steps of the scan of "a.(a|b)*.b": '(' is pushed and not popped by '|'. */
  lemma GroupStepsOpen(a: char, b: char)
    requires !IsSpecial(a) && !IsSpecial(b)
    ensures var d, l, u := Concatenation, LParen, Alternation;
      && Step(Shunt([], []), a) == Ok(Shunt([a], []))
      && Step(Shunt([a], []), d) == Ok(Shunt([a], [d]))
      && Step(Shunt([a], [d]), l) == Ok(Shunt([a], [d, l]))
      && Step(Shunt([a], [d, l]), a) == Ok(Shunt([a, a], [d, l]))
      && Step(Shunt([a, a], [d, l]), u) == Ok(Shunt([a, a], [d, l, u]))
  {
    var d, l, u := Concatenation, LParen, Alternation;
    assert [] + [a] == [a] && [] + [d] == [d] && [d] + [l] == [d, l] && [a] + [a] == [a, a];
    assert [d, l] + [u] == [d, l, u];
  }

  /** The last five steps of the scan of "a.(a|b)*.b": ')' pops back to '(', '.' pops '*' and '.'. */
  lemma GroupStepsClose(a: char, b: char)
    requires !IsSpecial(a) && !IsSpecial(b)
    ensures var d, l, r, u, k := Concatenation, LParen, RParen, Alternation, Closure;
      && Step(Shunt([a, a], [d, l, u]), b) == Ok(Shunt([a, a, b], [d, l, u]))
      && Step(Shunt([a, a, b], [d, l, u]), r) == Ok(Shunt([a, a, b, u], [d]))
      && Step(Shunt([a, a, b, u], [d]), k) == Ok(Shunt([a, a, b, u], [d, k]))
      && Step(Shunt([a, a, b, u], [d, k]), d) == Ok(Shunt([a, a, b, u, k, d], [d]))
      && Step(Shunt([a, a, b, u, k, d], [d]), b) == Ok(Shunt([a, a, b, u, k, d, b], [d]))
  {
    var d, l, r, u, k := Concatenation, LParen, RParen, Alternation, Closure;
    assert [a, a] + [b] == [a, a, b] && [d] + [k] == [d, k];
    assert [a, a, b] + [u] == [a, a, b, u] && [d, l, u][..2] == [d, l] && [d, l][..1] == [d];
    assert PopToLParen([a, a, b, u], [d, l]) == Ok(Shunt([a, a, b, u], [d]));
    assert [a, a, b, u] + [k] == [a, a, b, u, k] && [d, k][..1] == [d];
    assert [a, a, b, u, k] + [d] == [a, a, b, u, k, d] && [d][..0] == [];
    assert PushOperator([a, a, b, u, k, d], [], d) == Shunt([a, a, b, u, k, d], [d]);
    assert PushOperator([a, a, b, u, k], [d], d) == Shunt([a, a, b, u, k, d], [d]);
    assert [a, a, b, u, k, d] + [b] == [a, a, b, u, k, d, b];
  }

  /** "a.(a|b)*.b" becomes "aab|*.b.": a group closes with ')', and '(' is never popped by an operator. */
  lemma ToPostfixExampleGroup(a: char, b: char)
    requires !IsSpecial(a) && !IsSpecial(b)
    ensures ToPostfix([a, Concatenation, LParen, a, Alternation, b, RParen, Closure, Concatenation, b])
         == Ok([a, a, b, Alternation, Closure, Concatenation, b, Concatenation])
  {
    var d, l, r, u, k := Concatenation, LParen, RParen, Alternation, Closure;
    GroupStepsOpen(a, b);
    GroupStepsClose(a, b);
    ToPostfixTrace([Shunt([], []), Shunt([a], []), Shunt([a], [d]), Shunt([a], [d, l]), Shunt([a, a], [d, l]),
      Shunt([a, a], [d, l, u]), Shunt([a, a, b], [d, l, u]), Shunt([a, a, b, u], [d]), Shunt([a, a, b, u], [d, k]),
      Shunt([a, a, b, u, k, d], [d]), Shunt([a, a, b, u, k, d, b], [d])], [a, d, l, a, u, b, r, k, d, b]);
    assert Reverse([d]) == [d] by {
      assert [d][1..] == [];
    }
    GroupOutput(a, b);
  }

  lemma GroupOutput(a: char, b: char)
    ensures [a, a, b, Alternation, Closure, Concatenation, b] + [Concatenation]
         == [a, a, b, Alternation, Closure, Concatenation, b, Concatenation]
  {
  }
}
