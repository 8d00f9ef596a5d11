/**
 * NFA simulation with precomputed epsilon-closures, shared by NFA.accepts in fa.py and
 * NondeterministicFiniteAutomaton.accepts in finite_automaton.py. Both keep a set of current
 * states; for every input symbol the new set is the symbol's transition targets of every state
 * in the closure of a current state.
 */
module Simulation {
  import opened Wrappers
  import opened Reach

  /**
   * One input symbol. Looking up the closure of a current state that has none raises KeyError;
   * a state without a transition on the symbol contributes nothing.
   */
  function Step<S>(cl: map<S, set<S>>, delta: (S, char) -> set<S>, X: set<S>, a: char): (r: Result<set<S>>)
    ensures r.Ok? <==> X <= cl.Keys
    ensures r == Err(KeyError) || r.Ok?
  {
    if X <= cl.Keys then Ok(set c, e, t | c in X && e in cl[c] && t in delta(e, a) :: t)
    else Err(KeyError)
  }

  /** The current-state set after the whole input, without a closure after the last symbol. */
  function Run<S>(cl: map<S, set<S>>, delta: (S, char) -> set<S>, X: set<S>, w: string): Result<set<S>>
    decreases |w|
  {
    if w == [] then Ok(X)
    else
      match Step(cl, delta, X, w[0])
      case Err(e) => Err(e)
      case Ok(Y) => Run(cl, delta, Y, w[1..])
  }

  /** The states in the closure of some state of X. */
  function Close<S>(cl: map<S, set<S>>, X: set<S>): set<S>
    requires X <= cl.Keys
  {
    UnionOf(cl, X)
  }

  /**
   * The language of the automaton, independent of closures: from q, reading w, the automaton
   * can end in r when some walk of epsilon edges and one w[i]-transition per symbol leads there,
   * with epsilon edges allowed after the last symbol too.
   */
  ghost predicate Derives<S(!new)>(succ: map<S, set<S>>, delta: (S, char) -> set<S>, q: S, w: string, r: S)
    decreases |w|
  {
    if w == [] then Reaches(succ, q, r)
    else exists e, t :: Reaches(succ, q, e) && t in delta(e, w[0]) && Derives(succ, delta, t, w[1..], r)
  }

  /** A derivation of a non-empty word starts with epsilon moves and one w[0]-transition. */
  lemma DerivesFirst<S(!new)>(succ: map<S, set<S>>, delta: (S, char) -> set<S>, q: S, w: string, r: S)
    returns (e: S, t: S)
    requires w != [] && Derives(succ, delta, q, w, r)
    ensures Reaches(succ, q, e) && t in delta(e, w[0]) && Derives(succ, delta, t, w[1..], r)
  {
    e, t :| Reaches(succ, q, e) && t in delta(e, w[0]) && Derives(succ, delta, t, w[1..], r);
  }

  /** Epsilon edges and transitions from the given states stay among them. */
  ghost predicate Closed<S>(succ: map<S, set<S>>, delta: (S, char) -> set<S>, states: set<S>) {
    && (forall s :: s in states ==> Succ(succ, s) <= states)
    && (forall s, a :: s in states ==> delta(s, a) <= states)
  }

  /**
   * Simulation is exact up to a final closure: with closures that are exactly epsilon
   * reachability, the closure of the state set reached on w holds precisely the states some
   * state of X derives w into.
   */
  lemma {:induction false} RunMeaning<S(!new)>(
    succ: map<S, set<S>>, delta: (S, char) -> set<S>, states: set<S>, cl: map<S, set<S>>, X: set<S>, w: string)
    requires IsClosureMap(succ, states, cl) && Closed(succ, delta, states) && X <= states
    ensures Run(cl, delta, X, w).Ok? && Run(cl, delta, X, w).value <= states
    ensures forall r :: r in Close(cl, Run(cl, delta, X, w).value) <==> exists q :: q in X && Derives(succ, delta, q, w, r)
    decreases |w|
  {
    if w == [] {
      forall r | r in Close(cl, X)
        ensures exists q :: q in X && Derives(succ, delta, q, w, r)
      {
        var q :| q in X && r in cl[q];
        assert Derives(succ, delta, q, w, r);
      }
      forall r, q | q in X && Derives(succ, delta, q, w, r)
        ensures r in Close(cl, X)
      {
        assert r in cl[q];
      }
    } else {
      var a, rest := w[0], w[1..];
      var Y := Step(cl, delta, X, a).value;
      forall t | t in Y
        ensures t in states
      {
        var c, e :| c in X && e in cl[c] && t in delta(e, a);
        ReachesWithin(succ, states, c, e);
      }
      RunMeaning(succ, delta, states, cl, Y, rest);
      var Z := Run(cl, delta, Y, rest).value;
      assert Run(cl, delta, X, w) == Ok(Z);
      forall r | r in Close(cl, Z)
        ensures exists q :: q in X && Derives(succ, delta, q, w, r)
      {
        var t :| t in Y && Derives(succ, delta, t, rest, r);
        var c, e :| c in X && e in cl[c] && t in delta(e, a);
        assert Derives(succ, delta, c, w, r);
      }
      forall r, q | q in X && Derives(succ, delta, q, w, r)
        ensures r in Close(cl, Z)
      {
        var e, t := DerivesFirst(succ, delta, q, w, r);
        assert e in cl[q];
        assert t in Y;
      }
    }
  }

  /** accepts as written: the current-state set after the input meets the accepting states. */
  function AcceptsAsWritten<S>(
    cl: map<S, set<S>>, delta: (S, char) -> set<S>, initial: S, accepting: set<S>, w: string): Result<bool>
  {
    match Run(cl, delta, {initial}, w)
    case Err(e) => Err(e)
    case Ok(Y) => Ok(Y * accepting != {})
  }

  /** accepts with the closure of the final state set taken before the test. */
  function Accepts<S>(
    cl: map<S, set<S>>, delta: (S, char) -> set<S>, initial: S, accepting: set<S>, w: string): Result<bool>
  {
    match Run(cl, delta, {initial}, w)
    case Err(e) => Err(e)
    case Ok(Y) => if Y <= cl.Keys then Ok(Close(cl, Y) * accepting != {}) else Err(KeyError)
  }

  /** The automaton's language: some derivation of w from the initial state ends accepting. */
  ghost predicate InLanguage<S(!new)>(
    succ: map<S, set<S>>, delta: (S, char) -> set<S>, initial: S, accepting: set<S>, w: string)
  {
    exists r :: r in accepting && Derives(succ, delta, initial, w, r)
  }

  /** With exact closures, acceptance with the final closure is membership in the language. */
  lemma AcceptsIsLanguage<S(!new)>(
    succ: map<S, set<S>>, delta: (S, char) -> set<S>, states: set<S>, cl: map<S, set<S>>,
    initial: S, accepting: set<S>, w: string)
    requires IsClosureMap(succ, states, cl) && Closed(succ, delta, states) && initial in states
    ensures Accepts(cl, delta, initial, accepting, w) == Ok(InLanguage(succ, delta, initial, accepting, w))
  {
    RunMeaning(succ, delta, states, cl, {initial}, w);
    var Y := Run(cl, delta, {initial}, w).value;
    if InLanguage(succ, delta, initial, accepting, w) {
      var r :| r in accepting && Derives(succ, delta, initial, w, r);
      assert r in Close(cl, Y) * accepting;
    }
  }

  /**
   * Without the final closure acceptance is sound but not complete: every accepted word is in
   * the language, and on the empty word only an accepting initial state accepts.
   */
  lemma AcceptsAsWrittenSound<S(!new)>(
    succ: map<S, set<S>>, delta: (S, char) -> set<S>, states: set<S>, cl: map<S, set<S>>,
    initial: S, accepting: set<S>, w: string)
    requires IsClosureMap(succ, states, cl) && Closed(succ, delta, states) && initial in states
    ensures AcceptsAsWritten(cl, delta, initial, accepting, w).Ok?
    ensures AcceptsAsWritten(cl, delta, initial, accepting, w).value ==> InLanguage(succ, delta, initial, accepting, w)
    ensures AcceptsAsWritten(cl, delta, initial, accepting, []) == Ok(initial in accepting)
  {
    RunMeaning(succ, delta, states, cl, {initial}, w);
    var Y := Run(cl, delta, {initial}, w).value;
    assert Run(cl, delta, {initial}, []) == Ok({initial});
    if initial in accepting {
      assert initial in {initial} * accepting;
    }
    if Y * accepting != {} {
      var r :| r in Y * accepting;
      ReachesRefl(succ, r);
      assert r in Close(cl, Y);
    }
  }

  /** Once no state is current, none ever is again. */
  lemma {:induction false} RunEmpty<S>(cl: map<S, set<S>>, delta: (S, char) -> set<S>, w: string)
    ensures Run(cl, delta, {}, w) == Ok({})
    decreases |w|
  {
    if w != [] {
      var Y := Step(cl, delta, {}, w[0]).value;
      assert forall t :: t !in Y;
      assert Y == {};
      RunEmpty(cl, delta, w[1..]);
    }
  }

  /** Reading a then w: one Step, then the rest of the run. */
  lemma RunStep<S>(cl: map<S, set<S>>, delta: (S, char) -> set<S>, X: set<S>, a: char, w: string, Y: set<S>)
    requires Step(cl, delta, X, a) == Ok(Y)
    ensures Run(cl, delta, X, [a] + w) == Run(cl, delta, Y, w)
  {
    assert ([a] + w)[0] == a && ([a] + w)[1..] == w;
  }
}
