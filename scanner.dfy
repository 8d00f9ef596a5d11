/**
 * create_nfa of scanner.py: a stack machine over postfix tokens. Each literal pushes a symbol
 * fragment, '?' and '|' pop two fragments and push their concatenation or union, '*' pops one
 * and pushes its closure; the answer is the fragment on top of the stack at the end.
 */
module Scanner {
  import opened Wrappers
  import opened StateGraph
  import opened Thompson

  /** The concatenation token of create_nfa (not the '.' the postfix converter writes). */
  const Concatenate := '?'
  const Union := '|'
  const Star := '*'

  /** How many fragments a token pops. */
  function Arity(c: char): nat {
    if c == Concatenate || c == Union then 2 else if c == Star then 1 else 0
  }

  /** The stack height after the tokens of p, when no pop fails: each token pushes one. */
  function Height(p: string): int
    decreases |p|
  {
    if p == [] then 0 else Height(p[..|p| - 1]) + 1 - Arity(p[|p| - 1])
  }

  /** Every operator of p finds as many fragments as it pops. */
  ghost predicate Enough(p: string)
    decreases |p|
  {
    p == [] || (Enough(p[..|p| - 1]) && Height(p[..|p| - 1]) >= Arity(p[|p| - 1]))
  }

  /** Enough and Height of a token sequence extended by one token that finds its operands. */
  lemma EnoughSnoc(p: string, c: char)
    requires Enough(p) && Height(p) >= Arity(c)
    ensures Enough(p + [c]) && Height(p + [c]) == Height(p) + 1 - Arity(c)
  {
    assert (p + [c])[..|p|] == p;
  }

  /** Every prefix of a token sequence whose operators find their operands has the same property. */
  lemma {:induction false} EnoughPrefix(p: string, k: nat)
    requires Enough(p) && k <= |p|
    ensures Enough(p[..k])
    decreases |p|
  {
    if k == |p| {
      assert p[..k] == p;
    } else {
      EnoughPrefix(p[..|p| - 1], k);
      assert p[..|p| - 1][..k] == p[..k];
    }
  }

  /** The literal tokens of p: every character that is not one of the three operators. */
  function Symbols(p: string): set<char> {
    set c | c in p && Arity(c) == 0
  }

  /** The literal tokens of a sequence extended by one token. */
  lemma SymbolsSnoc(p: string, c: char)
    ensures Symbols(p + [c]) == if Arity(c) == 0 then Symbols(p) + {c} else Symbols(p)
  {
    assert forall x :: x in p + [c] <==> x in p || x == c;
  }

  /** The union of the alphabets of a stack of fragments. */
  function Alphabets(stack: seq<Fragment>): set<char>
    decreases |stack|
  {
    if stack == [] then {} else Alphabets(stack[..|stack| - 1]) + stack[|stack| - 1].alphabet
  }

  /**
   * The stack invariant. Every fragment is shaped and uses only states from base on, and the
   * fragments occupy increasing ranges of states: lows[k] is at most every state of stack[k],
   * and every state of stack[k] lies below lows[k + 1]. So no two fragments share a state.
   */
  ghost predicate StackInv(
    stack: seq<Fragment>, trans: seq<map<char, set<nat>>>, eps: seq<seq<nat>>, base: nat, lows: seq<nat>)
  {
    && |lows| == |stack|
    && (forall k :: 0 <= k < |stack| ==> Shape(stack[k], trans, eps))
    && (forall k :: 0 <= k < |stack| ==> base <= lows[k])
    && (forall k, l :: 0 <= k < l < |stack| ==> lows[k] <= lows[l])
    && (forall k, s :: 0 <= k < |stack| && s in stack[k].states ==> lows[k] <= s)
    && (forall k, s :: 0 <= k < |stack| - 1 && s in stack[k].states ==> s < lows[k + 1])
  }

  /** Two fragments of the stack share no state. */
  lemma Disjoint(
    stack: seq<Fragment>, trans: seq<map<char, set<nat>>>, eps: seq<seq<nat>>, base: nat, lows: seq<nat>,
    k: nat, l: nat)
    requires StackInv(stack, trans, eps, base, lows) && k < l < |stack|
    ensures stack[k].states !! stack[l].states
  {
    forall s | s in stack[k].states
      ensures s !in stack[l].states
    {
      assert s < lows[k + 1] <= lows[l];
    }
  }

  /** The accepting states of the top two fragments of the stack are different states. */
  lemma AcceptingApart(
    stack: seq<Fragment>, trans: seq<map<char, set<nat>>>, eps: seq<seq<nat>>, base: nat, lows: seq<nat>,
    x: nat, y: nat)
    requires StackInv(stack, trans, eps, base, lows) && |stack| >= 2
    requires x in stack[|stack| - 2].accepting && y in stack[|stack| - 1].accepting
    ensures x != y
  {
    var m := |stack|;
    Disjoint(stack, trans, eps, base, lows, m - 2, m - 1);
    assert Shape(stack[m - 2], trans, eps) && Shape(stack[m - 1], trans, eps);
  }

  /** The fragments from index keep upwards lie at or above lows[keep], which is inside the arena. */
  lemma TopLow(
    stack: seq<Fragment>, trans: seq<map<char, set<nat>>>, eps: seq<seq<nat>>, base: nat, lows: seq<nat>,
    keep: nat)
    requires StackInv(stack, trans, eps, base, lows) && keep < |stack|
    ensures base <= lows[keep] <= |eps|
    ensures forall k, s :: keep <= k < |stack| && s in stack[k].states ==> lows[keep] <= s
    ensures forall k, s :: keep <= k < |stack| && s in stack[k].accepting ==> lows[keep] <= s
  {
    assert Shape(stack[keep], trans, eps) && stack[keep].initial in stack[keep].states;
    forall k, s | keep <= k < |stack| && s in stack[k].accepting
      ensures lows[keep] <= s
    {
      assert Shape(stack[k], trans, eps) && s in stack[k].states;
    }
  }

  /** Replacing the top two fragments by one built from them keeps the union of the alphabets. */
  lemma MergeTop(stack: seq<Fragment>, f: Fragment)
    requires |stack| >= 2
    requires f.alphabet == stack[|stack| - 2].alphabet + stack[|stack| - 1].alphabet
    ensures Alphabets(stack[..|stack| - 2] + [f]) == Alphabets(stack)
  {
    var m := |stack|;
    AlphabetsSnoc(stack[..m - 2], f);
    AlphabetsSnoc(stack[..m - 2], stack[m - 2]);
    AlphabetsSnoc(stack[..m - 1], stack[m - 1]);
    assert stack[..m - 2] + [stack[m - 2]] == stack[..m - 1];
    assert stack[..m - 1] + [stack[m - 1]] == stack;
  }

  /** Replacing the top fragment by one with the same alphabet keeps the union of the alphabets. */
  lemma ReplaceLast(stack: seq<Fragment>, f: Fragment)
    requires |stack| >= 1 && f.alphabet == stack[|stack| - 1].alphabet
    ensures Alphabets(stack[..|stack| - 1] + [f]) == Alphabets(stack)
  {
    var m := |stack|;
    AlphabetsSnoc(stack[..m - 1], f);
    AlphabetsSnoc(stack[..m - 1], stack[m - 1]);
    assert stack[..m - 1] + [stack[m - 1]] == stack;
  }

  /** The alphabets of a stack with one more fragment on top. */
  lemma AlphabetsSnoc(stack: seq<Fragment>, f: Fragment)
    ensures Alphabets(stack + [f]) == Alphabets(stack) + f.alphabet
  {
    assert (stack + [f])[..|stack|] == stack;
  }

  /** The top fragment's alphabet is part of the stack's, and all of it on a stack of one. */
  lemma TopAlphabet(stack: seq<Fragment>)
    requires |stack| >= 1
    ensures stack[|stack| - 1].alphabet <= Alphabets(stack)
    ensures |stack| == 1 ==> Alphabets(stack) == stack[0].alphabet
  {
  }

  /** A set of one element is the singleton of any of its members. */
  lemma Singleton(a: set<nat>, x: nat)
    requires |a| == 1 && x in a
    ensures a == {x}
  {
    assert |a - {x}| == 0;
  }

  /**
   * Replacing the fragments from index keep upwards by f keeps the stack invariant when f is
   * shaped, f and the states whose edges changed lie at or above low, and low is where the
   * replaced fragments began (or the arena's size when nothing is replaced). States below base
   * keep their edges.
   */
  lemma ReplaceTop(
    stack: seq<Fragment>, keep: nat, f: Fragment, changed: set<nat>, low: nat,
    trans: seq<map<char, set<nat>>>, eps: seq<seq<nat>>,
    trans': seq<map<char, set<nat>>>, eps': seq<seq<nat>>, base: nat, lows: seq<nat>)
    requires keep <= |stack| && StackInv(stack, trans, eps, base, lows) && base <= low <= |eps|
    requires if keep < |stack| then low == lows[keep] else low == |eps|
    requires |trans| == |eps| && |trans'| == |eps'| >= |eps|
    requires forall s :: s in changed ==> low <= s
    requires forall s :: 0 <= s < |eps| && s !in changed ==> trans'[s] == trans[s] && eps'[s] == eps[s]
    requires Shape(f, trans', eps') && forall s :: s in f.states ==> low <= s
    ensures StackInv(stack[..keep] + [f], trans', eps', base, lows[..keep] + [low])
    ensures trans'[..base] == trans[..base] && eps'[..base] == eps[..base]
  {
    BelowLow(stack, keep, low, trans, eps, base, lows);
    KeptShapes(stack, keep, changed, low, trans, eps, trans', eps');
  }

  /** The fragments below index keep lie below low, where the replaced ones began. */
  lemma BelowLow(
    stack: seq<Fragment>, keep: nat, low: nat, trans: seq<map<char, set<nat>>>, eps: seq<seq<nat>>,
    base: nat, lows: seq<nat>)
    requires keep <= |stack| && StackInv(stack, trans, eps, base, lows)
    requires if keep < |stack| then low == lows[keep] else low == |eps|
    ensures forall k, s :: 0 <= k < keep && s in stack[k].states ==> s < low
    ensures forall k :: 0 <= k < keep ==> lows[k] <= low
  {
    forall k, s | 0 <= k < keep && s in stack[k].states
      ensures s < low
    {
      if k + 1 < |stack| {
        if keep < |stack| {
          assert lows[k + 1] <= lows[keep];
        } else {
          assert Shape(stack[k + 1], trans, eps) && stack[k + 1].initial in stack[k + 1].states;
        }
        assert s < lows[k + 1];
      } else {
        assert Shape(stack[k], trans, eps);
      }
    }
    forall k | 0 <= k < keep
      ensures lows[k] <= low
    {
      assert Shape(stack[k], trans, eps) && stack[k].initial in stack[k].states;
    }
  }

  /** Fragments below low keep their shape while only states from low on change. */
  lemma KeptShapes(
    stack: seq<Fragment>, keep: nat, changed: set<nat>, low: nat,
    trans: seq<map<char, set<nat>>>, eps: seq<seq<nat>>,
    trans': seq<map<char, set<nat>>>, eps': seq<seq<nat>>)
    requires keep <= |stack| && forall k :: 0 <= k < |stack| ==> Shape(stack[k], trans, eps)
    requires forall k, s :: 0 <= k < keep && s in stack[k].states ==> s < low
    requires |trans| == |eps| && |trans'| == |eps'| >= |eps|
    requires forall s :: s in changed ==> low <= s
    requires forall s :: 0 <= s < |eps| && s !in changed ==> trans'[s] == trans[s] && eps'[s] == eps[s]
    ensures forall k :: 0 <= k < keep ==> Shape(stack[k], trans', eps')
  {
    forall k | 0 <= k < keep
      ensures Shape(stack[k], trans', eps')
    {
      ShapeFrame(stack[k], trans, eps, trans', eps');
    }
  }

  /** The stack invariant after pushing a new symbol fragment. */
  lemma SymbolStep(
    stack: seq<Fragment>, c: char, f: Fragment, trans: seq<map<char, set<nat>>>, eps: seq<seq<nat>>,
    trans': seq<map<char, set<nat>>>, eps': seq<seq<nat>>, base: nat, lows: seq<nat>)
    requires StackInv(stack, trans, eps, base, lows) && base <= |eps| && |trans| == |eps|
    requires trans' == trans + [map[c := {|eps| + 1}], map[]] && eps' == eps + [[], []]
    requires f == Fragment({|eps|, |eps| + 1}, {c}, |eps|, {|eps| + 1}) && Shape(f, trans', eps')
    ensures StackInv(stack + [f], trans', eps', base, lows + [|eps|])
    ensures Alphabets(stack + [f]) == Alphabets(stack) + {c}
    ensures trans'[..base] == trans[..base] && eps'[..base] == eps[..base]
  {
    ReplaceTop(stack, |stack|, f, {}, |eps|, trans, eps, trans', eps', base, lows);
    assert stack[..|stack|] == stack && lows[..|stack|] == lows;
    AlphabetsSnoc(stack, f);
  }

  /** The concatenation of the top two fragments is shaped, and only first's accepting states changed. */
  lemma ConcatenationOnStack(
    stack: seq<Fragment>, f: Fragment, trans: seq<map<char, set<nat>>>, eps: seq<seq<nat>>,
    eps': seq<seq<nat>>, base: nat, lows: seq<nat>)
    requires |stack| >= 2 && StackInv(stack, trans, eps, base, lows) && |trans| == |eps|
    requires var first, second := stack[|stack| - 2], stack[|stack| - 1];
      && |eps'| == |eps|
      && (forall i :: 0 <= i < |eps| ==> eps'[i] == if i in first.accepting then eps[i] + [second.initial] else eps[i])
      && f == Fragment(first.states + second.states, first.alphabet + second.alphabet, first.initial, second.accepting)
    ensures Shape(f, trans, eps')
    ensures forall s :: 0 <= s < |eps| && s !in stack[|stack| - 2].accepting ==> eps'[s] == eps[s]
  {
    var m := |stack|;
    assert Shape(stack[m - 2], trans, eps) && Shape(stack[m - 1], trans, eps);
    Disjoint(stack, trans, eps, base, lows, m - 2, m - 1);
    ConcatenationShape(stack[m - 2], stack[m - 1], trans, eps, eps');
  }

  /** The stack invariant after replacing the top two fragments by a shaped concatenation of them. */
  lemma ConcatenationReplace(
    stack: seq<Fragment>, f: Fragment, trans: seq<map<char, set<nat>>>, eps: seq<seq<nat>>,
    eps': seq<seq<nat>>, base: nat, lows: seq<nat>)
    requires |stack| >= 2 && StackInv(stack, trans, eps, base, lows) && base <= |eps| && |trans| == |eps|
    requires var first, second := stack[|stack| - 2], stack[|stack| - 1];
      && |eps'| == |eps|
      && (forall s :: 0 <= s < |eps| && s !in first.accepting ==> eps'[s] == eps[s])
      && f == Fragment(first.states + second.states, first.alphabet + second.alphabet, first.initial, second.accepting)
      && Shape(f, trans, eps')
    ensures StackInv(stack[..|stack| - 2] + [f], trans, eps', base, lows[..|stack| - 2] + [lows[|stack| - 2]])
    ensures eps'[..base] == eps[..base]
  {
    var m := |stack|;
    var first := stack[m - 2];
    TopLow(stack, trans, eps, base, lows, m - 2);
    ReplaceTop(stack, m - 2, f, first.accepting, lows[m - 2], trans, eps, trans, eps', base, lows);
  }

  /** The stack invariant after replacing the top two fragments by their concatenation. */
  lemma ConcatenationStep(
    stack: seq<Fragment>, f: Fragment, trans: seq<map<char, set<nat>>>, eps: seq<seq<nat>>,
    trans': seq<map<char, set<nat>>>, eps': seq<seq<nat>>, base: nat, lows: seq<nat>)
    requires |stack| >= 2 && StackInv(stack, trans, eps, base, lows) && base <= |eps| && |trans| == |eps|
    requires var first, second := stack[|stack| - 2], stack[|stack| - 1];
      && trans' == trans && |eps'| == |eps|
      && (forall i :: 0 <= i < |eps| ==> eps'[i] == if i in first.accepting then eps[i] + [second.initial] else eps[i])
      && f == Fragment(first.states + second.states, first.alphabet + second.alphabet, first.initial, second.accepting)
    ensures StackInv(stack[..|stack| - 2] + [f], trans', eps', base, lows[..|stack| - 2] + [lows[|stack| - 2]])
    ensures Alphabets(stack[..|stack| - 2] + [f]) == Alphabets(stack)
    ensures trans'[..base] == trans[..base] && eps'[..base] == eps[..base]
  {
    ConcatenationOnStack(stack, f, trans, eps, eps', base, lows);
    ConcatenationReplace(stack, f, trans, eps, eps', base, lows);
    MergeTop(stack, f);
  }

  /** zip over two one-element orders visits each of the two states once and no other. */
  lemma UnionFrame(
    x: nat, y: nat, n: nat, trans: seq<map<char, set<nat>>>, eps: seq<seq<nat>>,
    trans': seq<map<char, set<nat>>>, eps': seq<seq<nat>>)
    requires |trans| == |eps| == n && trans' == trans + [map[], map[]] && |eps'| == n + 2
    requires forall i :: 0 <= i < n ==> eps'[i] == eps[i] + Repeat(n + 1, Zipped([x], [y])[i])
    ensures forall s :: 0 <= s < n && s !in {x, y} ==> trans'[s] == trans[s] && eps'[s] == eps[s]
  {
    assert [x][..1] == [x] && [y][..1] == [y];
    assert Zipped([x], [y]) == multiset{x, y};
    forall s | 0 <= s < n && s !in {x, y}
      ensures eps'[s] == eps[s]
    {
      assert Zipped([x], [y])[s] == 0;
      assert eps'[s] == eps[s] + [];
    }
  }

  /** The union of the top two fragments is shaped, and only the two zipped states changed. */
  lemma UnionOnStack(
    stack: seq<Fragment>, x: nat, y: nat, f: Fragment, trans: seq<map<char, set<nat>>>, eps: seq<seq<nat>>,
    trans': seq<map<char, set<nat>>>, eps': seq<seq<nat>>, base: nat, lows: seq<nat>)
    requires |stack| >= 2 && StackInv(stack, trans, eps, base, lows) && |trans| == |eps|
    requires var first, second, n := stack[|stack| - 2], stack[|stack| - 1], |eps|;
      && trans' == trans + [map[], map[]]
      && |eps'| == n + 2 && eps'[n] == [first.initial, second.initial] && eps'[n + 1] == []
      && (forall i :: 0 <= i < n ==> eps'[i] == eps[i] + Repeat(n + 1, Zipped([x], [y])[i]))
      && f == Fragment(first.states + second.states + {n, n + 1}, first.alphabet + second.alphabet, n, {n + 1})
    ensures Shape(f, trans', eps')
    ensures forall s :: 0 <= s < |eps| && s !in {x, y} ==> trans'[s] == trans[s] && eps'[s] == eps[s]
  {
    var m := |stack|;
    UnionFrame(x, y, |eps|, trans, eps, trans', eps');
    assert Shape(stack[m - 2], trans, eps) && Shape(stack[m - 1], trans, eps);
    UnionShape(stack[m - 2], stack[m - 1], trans, eps, trans', eps', Zipped([x], [y]));
  }

  /** The stack invariant after replacing the top two fragments by a shaped union of them. */
  lemma UnionReplace(
    stack: seq<Fragment>, x: nat, y: nat, f: Fragment, trans: seq<map<char, set<nat>>>, eps: seq<seq<nat>>,
    trans': seq<map<char, set<nat>>>, eps': seq<seq<nat>>, base: nat, lows: seq<nat>)
    requires |stack| >= 2 && StackInv(stack, trans, eps, base, lows) && base <= |eps| && |trans| == |eps|
    requires var first, second, n := stack[|stack| - 2], stack[|stack| - 1], |eps|;
      && x in first.accepting && y in second.accepting
      && |trans'| == |eps'| == n + 2
      && (forall s :: 0 <= s < n && s !in {x, y} ==> trans'[s] == trans[s] && eps'[s] == eps[s])
      && f == Fragment(first.states + second.states + {n, n + 1}, first.alphabet + second.alphabet, n, {n + 1})
      && Shape(f, trans', eps')
    ensures StackInv(stack[..|stack| - 2] + [f], trans', eps', base, lows[..|stack| - 2] + [lows[|stack| - 2]])
    ensures trans'[..base] == trans[..base] && eps'[..base] == eps[..base]
  {
    var m := |stack|;
    TopLow(stack, trans, eps, base, lows, m - 2);
    ReplaceTop(stack, m - 2, f, {x, y}, lows[m - 2], trans, eps, trans', eps', base, lows);
  }

  /** The stack invariant after replacing the top two fragments by their union. */
  lemma UnionStep(
    stack: seq<Fragment>, x: nat, y: nat, f: Fragment, trans: seq<map<char, set<nat>>>, eps: seq<seq<nat>>,
    trans': seq<map<char, set<nat>>>, eps': seq<seq<nat>>, base: nat, lows: seq<nat>)
    requires |stack| >= 2 && StackInv(stack, trans, eps, base, lows) && base <= |eps| && |trans| == |eps|
    requires var first, second, n := stack[|stack| - 2], stack[|stack| - 1], |eps|;
      && x in first.accepting && y in second.accepting
      && trans' == trans + [map[], map[]]
      && |eps'| == n + 2 && eps'[n] == [first.initial, second.initial] && eps'[n + 1] == []
      && (forall i :: 0 <= i < n ==> eps'[i] == eps[i] + Repeat(n + 1, Zipped([x], [y])[i]))
      && f == Fragment(first.states + second.states + {n, n + 1}, first.alphabet + second.alphabet, n, {n + 1})
    ensures StackInv(stack[..|stack| - 2] + [f], trans', eps', base, lows[..|stack| - 2] + [lows[|stack| - 2]])
    ensures Alphabets(stack[..|stack| - 2] + [f]) == Alphabets(stack)
    ensures trans'[..base] == trans[..base] && eps'[..base] == eps[..base]
  {
    UnionOnStack(stack, x, y, f, trans, eps, trans', eps', base, lows);
    UnionReplace(stack, x, y, f, trans, eps, trans', eps', base, lows);
    MergeTop(stack, f);
  }

  /** The fragment build_closure_nfa(top) returns when the arena held n states: start n + 1, accepting n. */
  function ClosureFragment(top: Fragment, n: nat): Fragment {
    Fragment(top.states + {n + 1, n}, top.alphabet, n + 1, {n})
  }

  /**
   * The epsilon lists after build_closure_nfa(top) on lists eps: new states n (accepting, no
   * edges) and n + 1 (edges to top's initial state and to n), and each of top's accepting states
   * gains the same two edges.
   */
  ghost predicate ClosureEdges(eps: seq<seq<nat>>, eps': seq<seq<nat>>, top: Fragment) {
    var n := |eps|;
    && |eps'| == n + 2 && eps'[n] == [] && eps'[n + 1] == [top.initial, n]
    && forall i :: 0 <= i < n ==> eps'[i] == if i in top.accepting then eps[i] + [top.initial, n] else eps[i]
  }

  /** The closure of the top fragment is shaped, and only its accepting states changed. */
  lemma ClosureOnStack(
    stack: seq<Fragment>, f: Fragment, trans: seq<map<char, set<nat>>>, eps: seq<seq<nat>>,
    trans': seq<map<char, set<nat>>>, eps': seq<seq<nat>>, base: nat, lows: seq<nat>)
    requires |stack| >= 1 && StackInv(stack, trans, eps, base, lows) && |trans| == |eps|
    requires var top, n := stack[|stack| - 1], |eps|;
      && trans' == trans + [map[], map[]]
      && ClosureEdges(eps, eps', top)
      && f == ClosureFragment(top, n)
    ensures Shape(f, trans', eps')
    ensures forall s :: 0 <= s < |eps| && s !in stack[|stack| - 1].accepting ==> trans'[s] == trans[s] && eps'[s] == eps[s]
  {
    assert Shape(stack[|stack| - 1], trans, eps);
    ClosureShape(stack[|stack| - 1], trans, eps, trans', eps');
  }

  /** The stack invariant after replacing the top fragment by a shaped closure of it. */
  lemma ClosureReplace(
    stack: seq<Fragment>, f: Fragment, trans: seq<map<char, set<nat>>>, eps: seq<seq<nat>>,
    trans': seq<map<char, set<nat>>>, eps': seq<seq<nat>>, base: nat, lows: seq<nat>)
    requires |stack| >= 1 && StackInv(stack, trans, eps, base, lows) && base <= |eps| && |trans| == |eps|
    requires var top, n := stack[|stack| - 1], |eps|;
      && |trans'| == |eps'| == n + 2
      && (forall s :: 0 <= s < n && s !in top.accepting ==> trans'[s] == trans[s] && eps'[s] == eps[s])
      && f == ClosureFragment(top, n)
      && Shape(f, trans', eps')
    ensures StackInv(stack[..|stack| - 1] + [f], trans', eps', base, lows)
    ensures trans'[..base] == trans[..base] && eps'[..base] == eps[..base]
  {
    var m := |stack|;
    var top := stack[m - 1];
    TopLow(stack, trans, eps, base, lows, m - 1);
    ReplaceTop(stack, m - 1, f, top.accepting, lows[m - 1], trans, eps, trans', eps', base, lows);
    assert lows[..m - 1] + [lows[m - 1]] == lows;
  }

  /** The stack invariant after replacing the top fragment by its closure. */
  lemma ClosureStep(
    stack: seq<Fragment>, f: Fragment, trans: seq<map<char, set<nat>>>, eps: seq<seq<nat>>,
    trans': seq<map<char, set<nat>>>, eps': seq<seq<nat>>, base: nat, lows: seq<nat>)
    requires |stack| >= 1 && StackInv(stack, trans, eps, base, lows) && base <= |eps| && |trans| == |eps|
    requires var top, n := stack[|stack| - 1], |eps|;
      && trans' == trans + [map[], map[]]
      && ClosureEdges(eps, eps', top)
      && f == ClosureFragment(top, n)
    ensures StackInv(stack[..|stack| - 1] + [f], trans', eps', base, lows)
    ensures Alphabets(stack[..|stack| - 1] + [f]) == Alphabets(stack)
    ensures trans'[..base] == trans[..base] && eps'[..base] == eps[..base]
  {
    ClosureOnStack(stack, f, trans, eps, trans', eps', base, lows);
    ClosureReplace(stack, f, trans, eps, trans', eps', base, lows);
    ReplaceLast(stack, f);
  }

  /** What an arena holds, as a value: its labels, symbol transitions and epsilon lists. */
  datatype Snapshot = Snapshot(labels: seq<string>, trans: seq<map<char, set<nat>>>, eps: seq<seq<nat>>)

  function Contents(g: Arena): Snapshot
    reads g
  {
    Snapshot(g.labels, g.trans, g.eps)
  }

  /** The epsilon lists after extra is appended to the list of every state in targets. */
  function AppendTo(eps: seq<seq<nat>>, targets: set<nat>, extra: seq<nat>): seq<seq<nat>> {
    seq(|eps|, i requires 0 <= i < |eps| => if i in targets then eps[i] + extra else eps[i])
  }

  /** build_symbol_nfa(c) on an arena: two new states with a c-edge between them. */
  function SymbolBuilt(a: Snapshot, c: char): (Snapshot, Fragment) {
    var n := |a.labels|;
    (Snapshot(a.labels + ["initial_" + [c], "accepting_" + [c]], a.trans + [map[c := {n + 1}], map[]], a.eps + [[], []]),
     Fragment({n, n + 1}, {c}, n, {n + 1}))
  }

  /** build_concatenation_nfa(first, second): first's accepting states lead to second's initial one. */
  function ConcatenationBuilt(a: Snapshot, first: Fragment, second: Fragment): (Snapshot, Fragment) {
    (Snapshot(a.labels, a.trans, AppendTo(a.eps, first.accepting, [second.initial])),
     Fragment(first.states + second.states, first.alphabet + second.alphabet, first.initial, second.accepting))
  }

  /**
   * build_union_nfa(first, second): a new initial state leads to first's initial state and then to
   * second's, and the accepting states of both lead to a new accepting state.
   */
  function UnionBuilt(a: Snapshot, first: Fragment, second: Fragment): (Snapshot, Fragment) {
    var n := |a.labels|;
    (Snapshot(a.labels + ["initial_union", "accepting_union"], a.trans + [map[], map[]],
       AppendTo(a.eps, first.accepting + second.accepting, [n + 1]) + [[first.initial, second.initial], []]),
     Fragment(first.states + second.states + {n, n + 1}, first.alphabet + second.alphabet, n, {n + 1}))
  }

  /**
   * build_closure_nfa(top): a new accepting state n and a new initial state n + 1 that leads to
   * top's initial state and to n; top's accepting states lead to the same two.
   */
  function ClosureBuilt(a: Snapshot, top: Fragment): (Snapshot, Fragment) {
    var n := |a.labels|;
    (Snapshot(a.labels + ["accepting_closure", "initial_closure"], a.trans + [map[], map[]],
       AppendTo(a.eps, top.accepting, [top.initial, n]) + [[], [top.initial, n]]),
     ClosureFragment(top, n))
  }

  /**
   * One token of create_nfa on an arena and a stack holding its operands. A binary operator pops
   * with pop(-2) before pop(), so its first operand is the fragment pushed earlier.
   */
  function Apply(a: Snapshot, stack: seq<Fragment>, c: char): (r: (Snapshot, seq<Fragment>))
    requires Arity(c) <= |stack|
    ensures |r.1| == |stack| + 1 - Arity(c)
    ensures r.1[..|stack| - Arity(c)] == stack[..|stack| - Arity(c)]
  {
    var m := |stack|;
    if c == Concatenate then
      var built := ConcatenationBuilt(a, stack[m - 2], stack[m - 1]);
      (built.0, stack[..m - 2] + [built.1])
    else if c == Union then
      var built := UnionBuilt(a, stack[m - 2], stack[m - 1]);
      (built.0, stack[..m - 2] + [built.1])
    else if c == Star then
      var built := ClosureBuilt(a, stack[m - 1]);
      (built.0, stack[..m - 1] + [built.1])
    else
      var built := SymbolBuilt(a, c);
      (built.0, stack + [built.1])
  }

  /** The literal tokens of a prefix of p one token longer. */
  lemma SymbolsPrefix(p: string, i: nat)
    requires i < |p|
    ensures Symbols(p[..i + 1]) == if Arity(p[i]) == 0 then Symbols(p[..i]) + {p[i]} else Symbols(p[..i])
  {
    assert p[..i + 1] == p[..i] + [p[i]];
    SymbolsSnoc(p[..i], p[i]);
  }

  /** A sequence that extends another agrees with it on every shorter prefix. */
  lemma PrefixOfPrefix<T>(a: seq<T>, b: seq<T>, k: nat)
    requires k <= |a| <= |b| && b[..|a|] == a
    ensures b[..k] == a[..k]
  {
    assert b[..k] == b[..|a|][..k];
  }

  /** The loop of create_nfa over the tokens p, from a given arena and stack; IndexError on a short stack. */
  function Evaluate(a: Snapshot, stack: seq<Fragment>, p: string): Result<(Snapshot, seq<Fragment>)>
    decreases |p|
  {
    if p == [] then Ok((a, stack))
    else if Arity(p[0]) > |stack| then Err(IndexError)
    else
      var next := Apply(a, stack, p[0]);
      Evaluate(next.0, next.1, p[1..])
  }

  /** create_nfa on an arena: the arena afterwards and the fragment left on top, or IndexError. */
  function Created(a: Snapshot, p: string): Result<(Snapshot, Fragment)> {
    match Evaluate(a, [], p)
    case Err(e) => Err(e)
    case Ok(done) => if done.1 == [] then Err(IndexError) else Ok((done.0, done.1[|done.1| - 1]))
  }

  /** In a token string with enough operands, each token finds its operands after the tokens before it. */
  lemma EnoughAt(r: string, k: nat)
    requires k < |r|
    ensures Enough(r) ==> Enough(r[..k]) && Height(r[..k]) >= Arity(r[k])
  {
    if Enough(r) {
      EnoughPrefix(r, k + 1);
      assert r[..k + 1][..k] == r[..k] && r[..k + 1][k] == r[k];
    }
  }

  /** An operator that finds too few fragments after p leaves p + q without enough operands. */
  lemma ShortStop(p: string, q: string)
    requires q != [] && Height(p) < Arity(q[0])
    ensures !Enough(p + q)
  {
    EnoughAt(p + q, |p|);
    assert (p + q)[..|p|] == p && (p + q)[|p|] == q[0];
  }

  /**
   * The fold of create_nfa fails exactly when some operator finds too few fragments, and otherwise
   * leaves Height fragments: from a stack of Height(p) after tokens p, the tokens q succeed exactly
   * when every operator of p + q finds its operands.
   */
  lemma {:induction false} EvaluateHeight(a: Snapshot, stack: seq<Fragment>, p: string, q: string)
    requires Enough(p) && |stack| == Height(p)
    ensures Evaluate(a, stack, q).Ok? <==> Enough(p + q)
    ensures Evaluate(a, stack, q).Ok? ==> |Evaluate(a, stack, q).value.1| == Height(p + q)
    decreases |q|
  {
    if q == [] {
      assert p + q == p;
    } else if Arity(q[0]) > |stack| {
      ShortStop(p, q);
    } else {
      var next := Apply(a, stack, q[0]);
      var p' := p + [q[0]];
      assert p' + q[1..] == p + q;
      assert Evaluate(a, stack, q) == Evaluate(next.0, next.1, q[1..]);
      EnoughSnoc(p, q[0]);
      EvaluateHeight(next.0, next.1, p', q[1..]);
    }
  }

  /** create_nfa's fold succeeds on exactly the inputs whose operators find their operands and leave a fragment. */
  lemma CreatedSucceeds(a: Snapshot, p: string)
    ensures Created(a, p).Ok? <==> Enough(p) && Height(p) >= 1
  {
    assert Enough([]) && Height([]) == 0;
    EvaluateHeight(a, [], [], p);
    assert [] + p == p;
  }

  /** An arena changed as build_concatenation_nfa's contract says is the arena ConcatenationBuilt describes. */
  lemma ConcatenationSnapshot(a: Snapshot, b: Snapshot, first: Fragment, second: Fragment)
    requires b.labels == a.labels && b.trans == a.trans && |b.eps| == |a.eps|
    requires forall i :: 0 <= i < |b.eps| ==>
      b.eps[i] == if i in first.accepting then a.eps[i] + [second.initial] else a.eps[i]
    ensures b == ConcatenationBuilt(a, first, second).0
  {
  }

  /** zip over two one-element orders of distinct states visits each of them once and nothing else. */
  lemma ZipOfTwo(x: nat, y: nat)
    requires x != y
    ensures forall i :: Zipped([x], [y])[i] == if i == x || i == y then 1 else 0
  {
    assert [x][..1] == [x] && [y][..1] == [y];
    assert Zipped([x], [y]) == multiset{x, y};
  }

  /**
   * An arena changed as build_union_nfa's contract says, with the zip visiting the only accepting
   * states of two disjoint fragments, is the arena UnionBuilt describes.
   */
  lemma UnionSnapshot(a: Snapshot, b: Snapshot, first: Fragment, second: Fragment, x: nat, y: nat)
    requires x != y && first.accepting == {x} && second.accepting == {y} && |a.eps| == |a.labels|
    requires b.labels == a.labels + ["initial_union", "accepting_union"] && b.trans == a.trans + [map[], map[]]
    requires var n := |a.eps|;
      && |b.eps| == n + 2 && b.eps[n] == [first.initial, second.initial] && b.eps[n + 1] == []
      && forall i :: 0 <= i < n ==> b.eps[i] == a.eps[i] + Repeat(n + 1, Zipped([x], [y])[i])
    ensures b == UnionBuilt(a, first, second).0
  {
    var n := |a.eps|;
    ZipOfTwo(x, y);
    var target := AppendTo(a.eps, {x} + {y}, [n + 1]) + [[first.initial, second.initial], []];
    forall i | 0 <= i < n + 2
      ensures b.eps[i] == target[i]
    {
      if i < n && (i == x || i == y) {
        assert Repeat(n + 1, 1) == [n + 1];
      } else if i < n {
        assert b.eps[i] == a.eps[i] + [];
      }
    }
  }

  /** An arena changed as build_closure_nfa's contract says is the arena ClosureBuilt describes. */
  lemma ClosureSnapshot(a: Snapshot, b: Snapshot, top: Fragment)
    requires |a.eps| == |a.labels|
    requires b.labels == a.labels + ["accepting_closure", "initial_closure"] && b.trans == a.trans + [map[], map[]]
    requires ClosureEdges(a.eps, b.eps, top)
    ensures b == ClosureBuilt(a, top).0
  {
  }

  /** A literal token: push a new symbol fragment. */
  method PushSymbol(g: Arena, stack: seq<Fragment>, c: char, ghost base: nat, ghost lows: seq<nat>)
    returns (stack': seq<Fragment>, ghost lows': seq<nat>)
    requires g.Valid() && StackInv(stack, g.trans, g.eps, base, lows) && base <= |g.labels|
    modifies g
    ensures g.Valid() && StackInv(stack', g.trans, g.eps, base, lows')
    ensures var n := old(|g.labels|); stack' == stack + [Fragment({n, n + 1}, {c}, n, {n + 1})]
    ensures Contents(g) == SymbolBuilt(old(Contents(g)), c).0
    ensures Arity(c) == 0 ==> Contents(g) == Apply(old(Contents(g)), stack, c).0 && stack' == Apply(old(Contents(g)), stack, c).1
    ensures Alphabets(stack') == Alphabets(stack) + {c}
    ensures |g.labels| >= old(|g.labels|) && g.labels[..old(|g.labels|)] == old(g.labels)
    ensures g.trans[..base] == old(g.trans[..base]) && g.eps[..base] == old(g.eps[..base])
  {
    ghost var trans, eps := g.trans, g.eps;
    lows' := lows + [|g.labels|];
    var f := BuildSymbol(g, c);
    SymbolStep(stack, c, f, trans, eps, g.trans, g.eps, base, lows);
    stack' := stack + [f];
    if Arity(c) == 0 {
      ApplySymbol(old(Contents(g)), stack, c);
    }
  }

  /**
   * A '?' token on a stack of at least two: the fragment pushed earlier is the first operand, and
   * the top two fragments become their concatenation.
   */
  method ConcatenateTop(g: Arena, stack: seq<Fragment>, ghost base: nat, ghost lows: seq<nat>)
    returns (stack': seq<Fragment>, ghost lows': seq<nat>)
    requires g.Valid() && StackInv(stack, g.trans, g.eps, base, lows) && base <= |g.labels| && |stack| >= 2
    modifies g
    ensures g.Valid() && StackInv(stack', g.trans, g.eps, base, lows')
    ensures var first, second := stack[|stack| - 2], stack[|stack| - 1];
      stack' == stack[..|stack| - 2]
        + [Fragment(first.states + second.states, first.alphabet + second.alphabet, first.initial, second.accepting)]
    ensures Contents(g) == ConcatenationBuilt(old(Contents(g)), stack[|stack| - 2], stack[|stack| - 1]).0
    ensures Contents(g) == Apply(old(Contents(g)), stack, Concatenate).0 && stack' == Apply(old(Contents(g)), stack, Concatenate).1
    ensures Alphabets(stack') == Alphabets(stack)
    ensures |g.labels| >= old(|g.labels|) && g.labels[..old(|g.labels|)] == old(g.labels)
    ensures g.trans[..base] == old(g.trans[..base]) && g.eps[..base] == old(g.eps[..base])
  {
    ghost var before := Contents(g);
    var m := |stack|;
    var first, second := stack[m - 2], stack[m - 1];
    lows' := lows[..m - 2] + [lows[m - 2]];
    var f := BuildConcatenation(g, first, second);
    ConcatenationStep(stack, f, before.trans, before.eps, g.trans, g.eps, base, lows);
    ConcatenationSnapshot(before, Contents(g), first, second);
    stack' := stack[..m - 2] + [f];
    ApplyConcatenate(before, stack);
  }

  /**
   * A '|' token on a stack of at least two: the fragment pushed earlier is the first operand, and
   * the top two fragments become their union.
   */
  method UniteTop(g: Arena, stack: seq<Fragment>, ghost base: nat, ghost lows: seq<nat>)
    returns (stack': seq<Fragment>, ghost lows': seq<nat>)
    requires g.Valid() && StackInv(stack, g.trans, g.eps, base, lows) && base <= |g.labels| && |stack| >= 2
    modifies g
    ensures g.Valid() && StackInv(stack', g.trans, g.eps, base, lows')
    ensures var first, second, n := stack[|stack| - 2], stack[|stack| - 1], old(|g.labels|);
      stack' == stack[..|stack| - 2]
        + [Fragment(first.states + second.states + {n, n + 1}, first.alphabet + second.alphabet, n, {n + 1})]
    ensures Contents(g) == UnionBuilt(old(Contents(g)), stack[|stack| - 2], stack[|stack| - 1]).0
    ensures Contents(g) == Apply(old(Contents(g)), stack, Union).0 && stack' == Apply(old(Contents(g)), stack, Union).1
    ensures Alphabets(stack') == Alphabets(stack)
    ensures |g.labels| >= old(|g.labels|) && g.labels[..old(|g.labels|)] == old(g.labels)
    ensures g.trans[..base] == old(g.trans[..base]) && g.eps[..base] == old(g.eps[..base])
  {
    ghost var before := Contents(g);
    var m := |stack|;
    var first, second := stack[m - 2], stack[m - 1];
    lows' := lows[..m - 2] + [lows[m - 2]];
    var x :| x in first.accepting;
    var y :| y in second.accepting;
    Singleton(first.accepting, x);
    Singleton(second.accepting, y);
    AcceptingApart(stack, before.trans, before.eps, base, lows, x, y);
    ghost var n := |g.labels|;
    var f := BuildUnion(g, first, second, [x], [y]);
    assert f == Fragment(first.states + second.states + {n, n + 1}, first.alphabet + second.alphabet, n, {n + 1});
    UnionSnapshot(before, Contents(g), first, second, x, y);
    UnionStep(stack, x, y, f, before.trans, before.eps, g.trans, g.eps, base, lows);
    stack' := stack[..m - 2] + [f];
    assert n == old(|g.labels|);
    assert stack' == stack[..m - 2] + [Fragment(first.states + second.states + {n, n + 1}, first.alphabet + second.alphabet, n, {n + 1})];
    ApplyUnion(before, stack);
  }

  /** What Kleene promises, on the arena before and after build_closure_nfa as values. */
  lemma ClosureFacts(a: Snapshot, b: Snapshot, stack: seq<Fragment>, f: Fragment, base: nat, lows: seq<nat>)
    requires |stack| >= 1 && StackInv(stack, a.trans, a.eps, base, lows) && base <= |a.labels|
    requires |a.labels| == |a.trans| == |a.eps|
    requires var top, n := stack[|stack| - 1], |a.eps|;
      && f == ClosureFragment(top, n)
      && b.labels == a.labels + ["accepting_closure", "initial_closure"] && b.trans == a.trans + [map[], map[]]
      && ClosureEdges(a.eps, b.eps, top)
    ensures StackInv(stack[..|stack| - 1] + [f], b.trans, b.eps, base, lows)
    ensures b == ClosureBuilt(a, stack[|stack| - 1]).0
    ensures b == Apply(a, stack, Star).0 && stack[..|stack| - 1] + [f] == Apply(a, stack, Star).1
    ensures Alphabets(stack[..|stack| - 1] + [f]) == Alphabets(stack)
    ensures |b.labels| >= |a.labels| && b.labels[..|a.labels|] == a.labels
    ensures b.trans[..base] == a.trans[..base] && b.eps[..base] == a.eps[..base]
  {
    ClosureStep(stack, f, a.trans, a.eps, b.trans, b.eps, base, lows);
    ClosureSnapshot(a, b, stack[|stack| - 1]);
    ApplyStar(a, stack);
    assert b.labels[..|a.labels|] == a.labels;
  }

  /** A '*' token on a non-empty stack: the top fragment becomes its closure. */
  method Kleene(g: Arena, stack: seq<Fragment>, ghost base: nat, ghost lows: seq<nat>) returns (stack': seq<Fragment>)
    requires g.Valid() && StackInv(stack, g.trans, g.eps, base, lows) && base <= |g.labels| && |stack| >= 1
    modifies g
    ensures g.Valid() && StackInv(stack', g.trans, g.eps, base, lows)
    ensures var top, n := stack[|stack| - 1], old(|g.labels|);
      stack' == stack[..|stack| - 1] + [Fragment(top.states + {n + 1, n}, top.alphabet, n + 1, {n})]
    ensures Contents(g) == ClosureBuilt(old(Contents(g)), stack[|stack| - 1]).0
    ensures Contents(g) == Apply(old(Contents(g)), stack, Star).0 && stack' == Apply(old(Contents(g)), stack, Star).1
    ensures Alphabets(stack') == Alphabets(stack)
    ensures |g.labels| >= old(|g.labels|) && g.labels[..old(|g.labels|)] == old(g.labels)
    ensures g.trans[..base] == old(g.trans[..base]) && g.eps[..base] == old(g.eps[..base])
  {
    ghost var before := Contents(g);
    var m := |stack|;
    var f := BuildClosure(g, stack[m - 1]);
    assert ClosureEdges(before.eps, g.eps, stack[m - 1]);
    ClosureFacts(before, Contents(g), stack, f, base, lows);
    stack' := stack[..m - 1] + [f];
  }

  /** Apply on each kind of token, one at a time. */
  lemma ApplyConcatenate(a: Snapshot, stack: seq<Fragment>)
    requires |stack| >= 2
    ensures var first, second := stack[|stack| - 2], stack[|stack| - 1];
      && Apply(a, stack, Concatenate).0 == ConcatenationBuilt(a, first, second).0
      && Apply(a, stack, Concatenate).1 == stack[..|stack| - 2]
        + [Fragment(first.states + second.states, first.alphabet + second.alphabet, first.initial, second.accepting)]
  {
  }

  lemma ApplyUnion(a: Snapshot, stack: seq<Fragment>)
    requires |stack| >= 2
    ensures var first, second, n := stack[|stack| - 2], stack[|stack| - 1], |a.labels|;
      && Apply(a, stack, Union).0 == UnionBuilt(a, first, second).0
      && Apply(a, stack, Union).1 == stack[..|stack| - 2]
        + [Fragment(first.states + second.states + {n, n + 1}, first.alphabet + second.alphabet, n, {n + 1})]
  {
  }

  lemma ApplyStar(a: Snapshot, stack: seq<Fragment>)
    requires |stack| >= 1
    ensures var top, n := stack[|stack| - 1], |a.labels|;
      && Apply(a, stack, Star).0 == ClosureBuilt(a, top).0
      && Apply(a, stack, Star).1 == stack[..|stack| - 1] + [ClosureFragment(top, n)]
  {
  }

  lemma ApplySymbol(a: Snapshot, stack: seq<Fragment>, c: char)
    requires Arity(c) == 0
    ensures var n := |a.labels|;
      && Apply(a, stack, c).0 == SymbolBuilt(a, c).0
      && Apply(a, stack, c).1 == stack + [Fragment({n, n + 1}, {c}, n, {n + 1})]
  {
  }

  /** One token of create_nfa on a stack that holds the fragments the token pops. */
  method Step(g: Arena, stack: seq<Fragment>, c: char, ghost base: nat, ghost lows: seq<nat>)
    returns (stack': seq<Fragment>, ghost lows': seq<nat>)
    requires g.Valid() && StackInv(stack, g.trans, g.eps, base, lows) && base <= |g.labels|
    requires Arity(c) <= |stack|
    modifies g
    ensures g.Valid() && StackInv(stack', g.trans, g.eps, base, lows')
    ensures Contents(g) == Apply(old(Contents(g)), stack, c).0 && stack' == Apply(old(Contents(g)), stack, c).1
    ensures Alphabets(stack') == if Arity(c) == 0 then Alphabets(stack) + {c} else Alphabets(stack)
    ensures |g.labels| >= old(|g.labels|) && g.labels[..old(|g.labels|)] == old(g.labels)
    ensures g.trans[..base] == old(g.trans[..base]) && g.eps[..base] == old(g.eps[..base])
  {
    if c == Concatenate {
      stack', lows' := ConcatenateTop(g, stack, base, lows);
    } else if c == Union {
      stack', lows' := UniteTop(g, stack, base, lows);
    } else if c == Star {
      stack' := Kleene(g, stack, base, lows);
      lows' := lows;
    } else {
      stack', lows' := PushSymbol(g, stack, c, base, lows);
    }
  }

  /** The fold of create_nfa at token i of p, when the stack holds its operands. */
  lemma EvaluateNext(a: Snapshot, stack: seq<Fragment>, p: string, i: nat)
    requires i < |p| && Arity(p[i]) <= |stack|
    ensures Evaluate(a, stack, p[i..]) == Evaluate(Apply(a, stack, p[i]).0, Apply(a, stack, p[i]).1, p[i + 1..])
  {
    assert p[i..][1..] == p[i + 1..];
  }

  /** The fold of create_nfa at token i of p, when the stack is too short for it. */
  lemma EvaluateShort(a: Snapshot, stack: seq<Fragment>, p: string, i: nat)
    requires i < |p| && Arity(p[i]) > |stack|
    ensures Evaluate(a, stack, p[i..]) == Err(IndexError)
  {
  }

  /** The fold of create_nfa after the last token: the arena and the stack as they are. */
  lemma EvaluateDone(a: Snapshot, stack: seq<Fragment>, p: string)
    ensures Evaluate(a, stack, p[|p|..]) == Ok((a, stack))
  {
    assert p[|p|..] == [];
  }

  /** When the fold stops on a short stack, create_nfa raises IndexError. */
  lemma CreatedFails(a: Snapshot, p: string)
    requires Evaluate(a, [], p).Err?
    ensures Created(a, p) == Err(IndexError)
    ensures !(Enough(p) && Height(p) >= 1)
  {
    EvaluateFails(a, [], p);
    CreatedSucceeds(a, p);
  }

  /** The fold only ever fails with IndexError. */
  lemma {:induction false} EvaluateFails(a: Snapshot, stack: seq<Fragment>, p: string)
    ensures Evaluate(a, stack, p).Err? ==> Evaluate(a, stack, p).error == IndexError
    decreases |p|
  {
    if p != [] && Arity(p[0]) <= |stack| {
      var next := Apply(a, stack, p[0]);
      EvaluateFails(next.0, next.1, p[1..]);
    }
  }

  /** When the fold runs to the end, create_nfa pops the top fragment, which exists exactly when Height(p) >= 1. */
  lemma CreatedDone(a: Snapshot, p: string, a': Snapshot, stack: seq<Fragment>)
    requires Evaluate(a, [], p) == Ok((a', stack))
    ensures Created(a, p) == if stack == [] then Err(IndexError) else Ok((a', stack[|stack| - 1]))
    ensures Enough(p) && |stack| == Height(p)
  {
    assert Enough([]) && Height([]) == 0;
    EvaluateHeight(a, [], [], p);
    assert [] + p == p;
  }

  /**
   * The loop of create_nfa: every token in turn, on a stack that starts empty. It stops with
   * IndexError at the first operator that finds too few fragments; otherwise the stack and the
   * arena it leaves are those of the fold Evaluate.
   */
  method PushAll(g: Arena, postfix: string) returns (r: Result<seq<Fragment>>, ghost lows: seq<nat>)
    requires g.Valid()
    modifies g
    ensures g.Valid()
    ensures r.Ok? <==> Evaluate(old(Contents(g)), [], postfix).Ok?
    ensures r.Ok? ==> Evaluate(old(Contents(g)), [], postfix) == Ok((Contents(g), r.value))
    ensures r.Ok? ==> StackInv(r.value, g.trans, g.eps, old(|g.labels|), lows)
    ensures r.Ok? ==> Alphabets(r.value) == Symbols(postfix)
    ensures |g.labels| >= old(|g.labels|) && g.labels[..old(|g.labels|)] == old(g.labels)
    ensures g.trans[..old(|g.labels|)] == old(g.trans) && g.eps[..old(|g.labels|)] == old(g.eps)
  {
    var base := |g.labels|;
    var stack: seq<Fragment> := [];
    lows := [];
    ghost var start := Contents(g);
    for i := 0 to |postfix|
      invariant g.Valid() && |g.labels| >= base && g.labels[..base] == old(g.labels)
      invariant g.trans[..base] == old(g.trans) && g.eps[..base] == old(g.eps)
      invariant StackInv(stack, g.trans, g.eps, base, lows)
      invariant Alphabets(stack) == Symbols(postfix[..i])
      invariant Evaluate(start, [], postfix) == Evaluate(Contents(g), stack, postfix[i..])
    {
      var c := postfix[i];
      if Arity(c) > |stack| {
        EvaluateShort(Contents(g), stack, postfix, i);
        return Err(IndexError), lows;
      }
      SymbolsPrefix(postfix, i);
      EvaluateNext(Contents(g), stack, postfix, i);
      ghost var labelsBefore := g.labels;
      stack, lows := Step(g, stack, c, base, lows);
      PrefixOfPrefix(labelsBefore, g.labels, base);
    }
    assert postfix[..|postfix|] == postfix;
    EvaluateDone(Contents(g), stack, postfix);
    r := Ok(stack);
  }

  /**
   * create_nfa: the fragment on top of the stack after the last token, and the arena it built, are
   * those of the fold Created. A pop from a stack that is too short raises IndexError, and so does
   * an empty input. The zip in the union visits the only accepting state of each operand.
   */
  method CreateNfa(g: Arena, postfix: string) returns (r: Result<Fragment>)
    requires g.Valid()
    modifies g
    ensures g.Valid()
    ensures r.Ok? <==> Created(old(Contents(g)), postfix).Ok?
    ensures r.Ok? ==>
      r.value == Created(old(Contents(g)), postfix).value.1 && Contents(g) == Created(old(Contents(g)), postfix).value.0
    ensures r.Ok? <==> Enough(postfix) && Height(postfix) >= 1
    ensures r.Err? ==> r.error == IndexError
    ensures r.Ok? ==> Shape(r.value, g.trans, g.eps) && r.value.alphabet <= Symbols(postfix)
    ensures r.Ok? && Height(postfix) == 1 ==> r.value.alphabet == Symbols(postfix)
    ensures |g.labels| >= old(|g.labels|) && g.labels[..old(|g.labels|)] == old(g.labels)
    ensures g.trans[..old(|g.labels|)] == old(g.trans) && g.eps[..old(|g.labels|)] == old(g.eps)
  {
    ghost var start := Contents(g);
    var pushed, lows := PushAll(g, postfix);
    if pushed.Err? {
      CreatedFails(start, postfix);
      return Err(IndexError);
    }
    var stack := pushed.value;
    CreatedDone(start, postfix, Contents(g), stack);
    if |stack| == 0 {
      return Err(IndexError);
    }
    TopAlphabet(stack);
    r := Ok(stack[|stack| - 1]);
  }

  /** The two literal fragments of "ab" in an empty arena: a at states 0 and 1, b at 2 and 3. */
  lemma TwoSymbols()
    ensures var a2 := Apply(Apply(Snapshot([], [], []), [], 'a').0, Apply(Snapshot([], [], []), [], 'a').1, 'b');
      && a2.0 == Snapshot(["initial_a", "accepting_a", "initial_b", "accepting_b"],
        [map['a' := {1}], map[], map['b' := {3}], map[]], [[], [], [], []])
      && a2.1 == [Fragment({0, 1}, {'a'}, 0, {1}), Fragment({2, 3}, {'b'}, 2, {3})]
  {
    assert "initial_" + ['a'] == "initial_a" && "accepting_" + ['a'] == "accepting_a";
    assert "initial_" + ['b'] == "initial_b" && "accepting_" + ['b'] == "accepting_b";
  }

  /**
   * "ab?" builds a then b, and the concatenation puts a first: a's accepting state 1 gets the one
   * epsilon edge, to b's initial state 2, and the result starts at 0 and accepts at 3.
   */
  lemma ConcatenationOrder()
    ensures Created(Snapshot([], [], []), "ab?") == Ok((
      Snapshot(["initial_a", "accepting_a", "initial_b", "accepting_b"],
        [map['a' := {1}], map[], map['b' := {3}], map[]], [[], [2], [], []]),
      Fragment({0, 1, 2, 3}, {'a', 'b'}, 0, {3})))
  {
    TwoSymbols();
    var a1 := Apply(Snapshot([], [], []), [], 'a');
    var a2 := Apply(a1.0, a1.1, 'b');
    var e := AppendTo([[], [], [], []], {1}, [2]);
    forall i | 0 <= i < 4
      ensures e[i] == [[], [2], [], []][i]
    {
      assert i == 0 || i == 1 || i == 2 || i == 3;
      assert e[1] == [] + [2];
    }
    assert e == [[], [2], [], []];
    assert Evaluate(Snapshot([], [], []), [], "ab?") == Evaluate(a2.0, a2.1, "?");
    var a3 := Apply(a2.0, a2.1, '?');
    assert "?"[1..] == [];
    assert Evaluate(a2.0, a2.1, "?") == Ok(a3);
    assert a3.0 == Snapshot(a2.0.labels, a2.0.trans, e);
    assert {0, 1} + {2, 3} == {0, 1, 2, 3} && {'a'} + {'b'} == {'a', 'b'};
    assert a3.1 == [Fragment({0, 1, 2, 3}, {'a', 'b'}, 0, {3})];
    assert Created(Snapshot([], [], []), "ab?") == Ok((a3.0, a3.1[0]));
  }

  /** The union of the two literal fragments of "ab": new states 4 and 5 around a, then b. */
  lemma UnionOfTwo()
    ensures var a3 := Apply(Snapshot(["initial_a", "accepting_a", "initial_b", "accepting_b"],
        [map['a' := {1}], map[], map['b' := {3}], map[]], [[], [], [], []]),
        [Fragment({0, 1}, {'a'}, 0, {1}), Fragment({2, 3}, {'b'}, 2, {3})], '|');
      && a3.0 == Snapshot(["initial_a", "accepting_a", "initial_b", "accepting_b", "initial_union", "accepting_union"],
        [map['a' := {1}], map[], map['b' := {3}], map[], map[], map[]], [[], [5], [], [5], [0, 2], []])
      && a3.1 == [Fragment({0, 1, 2, 3, 4, 5}, {'a', 'b'}, 4, {5})]
  {
    var e := AppendTo([[], [], [], []], {1} + {3}, [5]);
    forall i | 0 <= i < 4
      ensures e[i] == [[], [5], [], [5]][i]
    {
      assert i == 0 || i == 1 || i == 2 || i == 3;
      assert e[1] == [] + [5] && e[3] == [] + [5];
    }
    assert e == [[], [5], [], [5]];
    assert e + [[0, 2], []] == [[], [5], [], [5], [0, 2], []];
    assert {0, 1} + {2, 3} + {4, 5} == {0, 1, 2, 3, 4, 5} && {'a'} + {'b'} == {'a', 'b'};
  }

  /**
   * "ab|" builds a then b, and the union puts a first: the new initial state 4 leads to a's
   * initial state 0 and then to b's initial state 2, and both accepting states lead to state 5.
   */
  lemma UnionOrder()
    ensures Created(Snapshot([], [], []), "ab|") == Ok((
      Snapshot(["initial_a", "accepting_a", "initial_b", "accepting_b", "initial_union", "accepting_union"],
        [map['a' := {1}], map[], map['b' := {3}], map[], map[], map[]], [[], [5], [], [5], [0, 2], []]),
      Fragment({0, 1, 2, 3, 4, 5}, {'a', 'b'}, 4, {5})))
  {
    TwoSymbols();
    UnionOfTwo();
    var a1 := Apply(Snapshot([], [], []), [], 'a');
    var a2 := Apply(a1.0, a1.1, 'b');
    assert Evaluate(Snapshot([], [], []), [], "ab|") == Evaluate(a2.0, a2.1, "|");
    var a3 := Apply(a2.0, a2.1, '|');
    assert "|"[1..] == [];
    assert Evaluate(a2.0, a2.1, "|") == Ok(a3);
  }

  /** A single literal finds its operands, leaves one fragment and is its own alphabet. */
  lemma OneLiteral(a: char)
    requires Arity(a) == 0
    ensures Enough([a]) && Height([a]) == 1 && Symbols([a]) == {a}
  {
    assert [a][..0] == [] && [a][..1 - 1] == [];
    assert Symbols([a]) == {a} by {
      assert forall x :: x in [a] <==> x == a;
    }
  }

  /** Two literals and a binary operator leave one fragment over both literals. */
  lemma TwoLiteralsAndOperator(a: char, b: char, op: char)
    requires Arity(a) == 0 && Arity(b) == 0 && Arity(op) == 2
    ensures Enough([a, b, op]) && Height([a, b, op]) == 1 && Symbols([a, b, op]) == {a, b}
  {
    assert [a, b] == [a] + [b] && [a, b, op] == [a, b] + [op];
    OneLiteral(a);
    EnoughSnoc([a], b);
    SymbolsSnoc([a], b);
    EnoughSnoc([a, b], op);
    SymbolsSnoc([a, b], op);
  }

  /**
   * The inputs of the create_nfa test: each finds its operands and leaves one fragment, so by
   * CreateNfa's contract the answer's alphabet is the set of its literals.
   */
  lemma CreateNfaTestInputs()
    ensures Enough("a") && Height("a") == 1 && Symbols("a") == {'a'}
    ensures Enough("b") && Height("b") == 1 && Symbols("b") == {'b'}
    ensures Enough("ab?") && Height("ab?") == 1 && Symbols("ab?") == {'a', 'b'}
    ensures Enough("ab|") && Height("ab|") == 1 && Symbols("ab|") == {'a', 'b'}
  {
    OneLiteral('a');
    OneLiteral('b');
    TwoLiteralsAndOperator('a', 'b', '?');
    TwoLiteralsAndOperator('a', 'b', '|');
  }
}
