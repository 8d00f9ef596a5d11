/**
 * The NFA class of fa.py over the State arena: the states, alphabet, initial state and accepting
 * states of a fragment, together with the epsilon-closure of every state keyed by the state
 * itself, and accepts.
 */
module ArenaNfa {
  import opened Wrappers
  import opened Reach
  import opened StateGraph
  import opened Thompson
  import Closures
  import Simulation

  /** Every epsilon target of an arena state is an arena state. */
  ghost predicate EpsilonEdgesExist(eps: seq<seq<nat>>) {
    forall s, j :: 0 <= s < |eps| && 0 <= j < |eps[s]| ==> eps[s][j] < |eps|
  }

  /** The epsilon targets of every arena state, as a set per state. */
  function EpsilonSuccessors(eps: seq<seq<nat>>): (succ: map<nat, set<nat>>)
    ensures forall s, t :: 0 <= s < |eps| ==> (t in Succ(succ, s) <==> t in eps[s])
    ensures forall s :: s >= |eps| ==> Succ(succ, s) == {}
  {
    map s: nat | s < |eps| :: set t | t in eps[s]
  }

  /** e.transitions.get(a, {}): the a-targets of an arena state. */
  function Delta(trans: seq<map<char, set<nat>>>): (nat, char) -> set<nat> {
    (s: nat, a: char) => if s < |trans| then Targets(trans[s], a) else {}
  }

  /** The indices of an arena of the given size. */
  function AllStates(size: nat): (all: set<nat>)
    ensures forall s: nat :: s in all <==> s < size
  {
    if size == 0 then {} else AllStates(size - 1) + {size - 1}
  }

  /** The epsilon-predecessors of every arena state. */
  function Predecessors(eps: seq<seq<nat>>): (preds: map<nat, set<nat>>)
    ensures EpsilonEdgesExist(eps) ==> Closures.CoversPredecessors(AllStates(|eps|), EpsilonSuccessors(eps), preds)
  {
    map s | s in AllStates(|eps|) :: set k | k in AllStates(|eps|) && s in eps[k]
  }

  /** An NFA object: the constructor's four arguments and the closures it computes. */
  datatype Nfa = Nfa(
    states: set<nat>, alphabet: set<char>, initial: nat, accepting: set<nat>, closures: map<nat, set<nat>>)

  /**
   * NFA.__init__: the arguments are stored and every given state gets its epsilon-closure.
   * get_epsilon_closure follows epsilon edges out of the given states too, so the closures are
   * computed over the whole arena, here with the work-list of Closures.EpsilonClosures.
   */
  method NewNfa(g: Arena, states: set<nat>, alphabet: set<char>, initial: nat, accepting: set<nat>)
    returns (n: Nfa)
    requires g.Valid() && forall s :: s in states ==> s < |g.labels|
    ensures n.states == states && n.alphabet == alphabet && n.initial == initial && n.accepting == accepting
    ensures IsClosureMap(EpsilonSuccessors(g.eps), states, n.closures)
  {
    var succ := EpsilonSuccessors(g.eps);
    var all := AllStates(|g.eps|);
    assert Closures.TargetsAreStates(all, succ);
    var cl := Closures.EpsilonClosures(all, succ, Predecessors(g.eps));
    n := Nfa(states, alphabet, initial, accepting, map s | s in states :: cl[s]);
  }

  /** get_epsilon_closure's promise: a closure holds its state and that state's epsilon targets. */
  lemma ClosureHoldsTargets(eps: seq<seq<nat>>, states: set<nat>, cl: map<nat, set<nat>>, s: nat)
    requires IsClosureMap(EpsilonSuccessors(eps), states, cl) && s in states && s < |eps|
    ensures s in cl[s]
    ensures forall j :: 0 <= j < |eps[s]| ==> eps[s][j] in cl[s]
  {
    var succ := EpsilonSuccessors(eps);
    ReachesRefl(succ, s);
    forall j | 0 <= j < |eps[s]|
      ensures eps[s][j] in cl[s]
    {
      ReachesRefl(succ, eps[s][j]);
      ReachesStep(succ, s, eps[s][j], eps[s][j]);
    }
  }

  /** The closures are exact and no edge leaves the states; the initial state is one of them. */
  ghost predicate WellFormed(trans: seq<map<char, set<nat>>>, eps: seq<seq<nat>>, n: Nfa) {
    && IsClosureMap(EpsilonSuccessors(eps), n.states, n.closures)
    && Simulation.Closed(EpsilonSuccessors(eps), Delta(trans), n.states)
    && n.initial in n.states
  }

  /** The NFA's language: some derivation of w from the initial state ends in an accepting state. */
  ghost predicate Language(trans: seq<map<char, set<nat>>>, eps: seq<seq<nat>>, n: Nfa, w: string) {
    Simulation.InLanguage(EpsilonSuccessors(eps), Delta(trans), n.initial, n.accepting, w)
  }

  /** The NFA of a shaped fragment, with exact closures, is well formed. */
  lemma FragmentWellFormed(f: Fragment, trans: seq<map<char, set<nat>>>, eps: seq<seq<nat>>, n: Nfa)
    requires Shape(f, trans, eps)
    requires n.states == f.states && n.initial == f.initial
    requires IsClosureMap(EpsilonSuccessors(eps), n.states, n.closures)
    ensures WellFormed(trans, eps, n)
  {
    var succ := EpsilonSuccessors(eps);
    forall s | s in f.states
      ensures Succ(succ, s) <= f.states
    {
      forall t | t in Succ(succ, s)
        ensures t in f.states
      {
        var j :| 0 <= j < |eps[s]| && eps[s][j] == t;
      }
    }
    forall s, a | s in f.states
      ensures Delta(trans)(s, a) <= f.states
    {
    }
  }

  /**
   * NFA.accepts, with the closure of the final state set taken before the test. A current
   * state without a closure raises KeyError. On a well-formed NFA the answer is membership in
   * its language.
   */
  method Accepts(g: Arena, n: Nfa, w: string) returns (r: Result<bool>)
    ensures r == Simulation.Accepts(n.closures, Delta(g.trans), n.initial, n.accepting, w)
    ensures WellFormed(g.trans, g.eps, n) ==> r == Ok(Language(g.trans, g.eps, n, w))
  {
    var cl := n.closures;
    var delta := Delta(g.trans);
    var current := {n.initial};
    if WellFormed(g.trans, g.eps, n) {
      Simulation.AcceptsIsLanguage(EpsilonSuccessors(g.eps), delta, n.states, cl, n.initial, n.accepting, w);
    }
    for i := 0 to |w|
      invariant Simulation.Run(cl, delta, {n.initial}, w) == Simulation.Run(cl, delta, current, w[i..])
    {
      assert w[i..] == [w[i]] + w[i + 1..];
      var next := Simulation.Step(cl, delta, current, w[i]);
      if next.Err? {
        return Err(KeyError);
      }
      current := next.value;
    }
    assert w[|w|..] == [];
    if !(current <= cl.Keys) {
      return Err(KeyError);
    }
    r := Ok(Simulation.Close(cl, current) * n.accepting != {});
  }

  /** Every fragment create_nfa builds, made an NFA, accepts exactly its language. */
  lemma FragmentAcceptsLanguage(f: Fragment, trans: seq<map<char, set<nat>>>, eps: seq<seq<nat>>, n: Nfa, w: string)
    requires Shape(f, trans, eps)
    requires n.states == f.states && n.initial == f.initial && n.accepting == f.accepting
    requires IsClosureMap(EpsilonSuccessors(eps), n.states, n.closures)
    ensures Simulation.Accepts(n.closures, Delta(trans), n.initial, n.accepting, w) == Ok(Language(trans, eps, n, w))
  {
    FragmentWellFormed(f, trans, eps, n);
    Simulation.AcceptsIsLanguage(EpsilonSuccessors(eps), Delta(trans), n.states, n.closures, n.initial, n.accepting, w);
  }

  // ---------------------------------------------------------------------------------------------
  // accepts as written: no closure after the last symbol.

  /** The symbol transitions of the arena build_closure_nfa(build_symbol_nfa("a")) leaves. */
  function StarTrans(): seq<map<char, set<nat>>> {
    [map['a' := {1}], map[], map[], map[]]
  }

  /** Its epsilon edges: 1 and 3 lead to 0 and then 2. */
  function StarEps(): seq<seq<nat>> {
    [[], [0, 2], [], [0, 2]]
  }

  /** build_closure_nfa(build_symbol_nfa("a")) on an empty arena. */
  method BuildStarOfA(g: Arena) returns (f: Fragment)
    requires g.Valid() && g.labels == []
    modifies g
    ensures g.Valid() && g.trans == StarTrans() && g.eps == StarEps()
    ensures f == Fragment({0, 1, 2, 3}, {'a'}, 3, {2})
  {
    var a := BuildSymbol(g, 'a');
    f := BuildClosure(g, a);
    assert |g.eps| == 4 && g.eps[0] == [] && g.eps[1] == [0, 2] && g.eps[2] == [] && g.eps[3] == [0, 2];
  }

  /** In the NFA of "a*" the closure of the initial state 3 is {3, 0, 2}. */
  lemma StarInitialClosure(cl: map<nat, set<nat>>)
    requires IsClosureMap(EpsilonSuccessors(StarEps()), {0, 1, 2, 3}, cl)
    ensures cl[3] == {3, 0, 2}
  {
    var succ := EpsilonSuccessors(StarEps());
    assert Succ(succ, 0) == {} && Succ(succ, 2) == {} && Succ(succ, 3) == {0, 2};
    forall x | x in cl[3]
      ensures x in {3, 0, 2}
    {
      ReachesWithin(succ, {3, 0, 2}, 3, x);
    }
    ReachesRefl(succ, 3);
    ReachesRefl(succ, 0);
    ReachesRefl(succ, 2);
    ReachesStep(succ, 3, 0, 0);
    ReachesStep(succ, 3, 2, 2);
  }

  /** Reading a in the NFA of "a*" from its initial state leads to state 1 only. */
  lemma StarStepA(cl: map<nat, set<nat>>)
    requires IsClosureMap(EpsilonSuccessors(StarEps()), {0, 1, 2, 3}, cl)
    ensures Simulation.Step(cl, Delta(StarTrans()), {3}, 'a') == Ok({1})
  {
    var delta := Delta(StarTrans());
    StarInitialClosure(cl);
    assert delta(0, 'a') == {1} && delta(2, 'a') == {} && delta(3, 'a') == {};
    var Y := Simulation.Step(cl, delta, {3}, 'a').value;
    assert 1 in Y;
    assert Y == {1};
  }

  /** "a" is in the language of the NFA of "a*": 3 reaches 0, a leads to 1, and 1 reaches 2. */
  lemma StarDerivesA()
    ensures Simulation.InLanguage(EpsilonSuccessors(StarEps()), Delta(StarTrans()), 3, {2}, "a")
  {
    var succ, delta := EpsilonSuccessors(StarEps()), Delta(StarTrans());
    assert "a"[1..] == [];
    assert Succ(succ, 1) == {0, 2} && Succ(succ, 3) == {0, 2};
    ReachesRefl(succ, 0);
    ReachesStep(succ, 3, 0, 0);
    ReachesRefl(succ, 2);
    ReachesStep(succ, 1, 2, 2);
    assert 1 in delta(0, 'a');
    assert Simulation.Derives(succ, delta, 1, [], 2);
    assert Simulation.Derives(succ, delta, 3, "a", 2);
  }

  /** Running "a" through the NFA of "a*" without a final closure ends in {1}. */
  lemma StarRunA(cl: map<nat, set<nat>>)
    requires IsClosureMap(EpsilonSuccessors(StarEps()), {0, 1, 2, 3}, cl)
    ensures Simulation.Run(cl, Delta(StarTrans()), {3}, "a") == Ok({1})
  {
    assert ['a'] + [] == "a";
    StarStepA(cl);
    Simulation.RunStep(cl, Delta(StarTrans()), {3}, 'a', [], {1});
  }

  /** The arena of "a*" is a shaped fragment. */
  lemma StarShaped()
    ensures Shape(Fragment({0, 1, 2, 3}, {'a'}, 3, {2}), StarTrans(), StarEps())
  {
  }

  /**
   * Without the final closure the NFA of "a*" rejects "a": reading a from the closure {3, 0, 2}
   * of the initial state leads to 1 only, and the accepting state 2 is one epsilon edge further.
   * "a" is in the language, and the simulation with the final closure accepts it.
   */
  lemma StarRejectsA(cl: map<nat, set<nat>>)
    requires IsClosureMap(EpsilonSuccessors(StarEps()), {0, 1, 2, 3}, cl)
    ensures Simulation.AcceptsAsWritten(cl, Delta(StarTrans()), 3, {2}, "a") == Ok(false)
    ensures Simulation.InLanguage(EpsilonSuccessors(StarEps()), Delta(StarTrans()), 3, {2}, "a")
    ensures Simulation.Accepts(cl, Delta(StarTrans()), 3, {2}, "a") == Ok(true)
  {
    StarRunA(cl);
    StarDerivesA();
    StarShaped();
    FragmentAcceptsLanguage(Fragment({0, 1, 2, 3}, {'a'}, 3, {2}), StarTrans(), StarEps(), Nfa({0, 1, 2, 3}, {'a'}, 3, {2}, cl), "a");
  }

  // ---------------------------------------------------------------------------------------------
  // get_epsilon_closure as written: plain recursion, which never ends on an epsilon cycle.

  /**
   * get_epsilon_closure: the state, its epsilon targets, and the closures of its targets, in
   * order. depth is how many more nested calls the interpreter's recursion limit allows.
   */
  function RecursiveClosure(eps: seq<seq<nat>>, s: nat, depth: nat): (r: Result<set<nat>>)
    requires EpsilonEdgesExist(eps) && s < |eps|
    ensures r.Err? ==> r == Err(RecursionError)
    ensures r.Ok? ==> s in r.value && forall j :: 0 <= j < |eps[s]| ==> eps[s][j] in r.value
    decreases depth, 0
  {
    if depth == 0 then Err(RecursionError)
    else
      match ClosuresOfTargets(eps, eps[s], depth - 1)
      case Err(e) => Err(e)
      case Ok(u) => Ok({s} + (set t | t in eps[s]) + u)
  }

  /** The closures of the given targets, computed one after the other, united. */
  function ClosuresOfTargets(eps: seq<seq<nat>>, ts: seq<nat>, depth: nat): (r: Result<set<nat>>)
    requires EpsilonEdgesExist(eps) && forall j :: 0 <= j < |ts| ==> ts[j] < |eps|
    ensures r.Err? ==> r == Err(RecursionError)
    decreases depth, 1, |ts|
  {
    if ts == [] then Ok({})
    else
      match RecursiveClosure(eps, ts[0], depth)
      case Err(e) => Err(e)
      case Ok(c) =>
        match ClosuresOfTargets(eps, ts[1..], depth)
        case Err(e) => Err(e)
        case Ok(u) => Ok(c + u)
  }

  /** A target whose closure fails makes the whole list fail. */
  lemma {:induction false} TargetFails(eps: seq<seq<nat>>, ts: seq<nat>, t: nat, depth: nat)
    requires EpsilonEdgesExist(eps) && forall j :: 0 <= j < |ts| ==> ts[j] < |eps|
    requires t in ts && t < |eps| && RecursiveClosure(eps, t, depth).Err?
    ensures ClosuresOfTargets(eps, ts, depth).Err?
    decreases |ts|
  {
    if ts[0] != t && RecursiveClosure(eps, ts[0], depth).Ok? {
      TargetFails(eps, ts[1..], t, depth);
    }
  }

  /** On two states with epsilon edges to each other the recursion runs out, at any depth. */
  lemma {:induction false} CycleExhaustsRecursion(eps: seq<seq<nat>>, s: nat, t: nat, depth: nat)
    requires EpsilonEdgesExist(eps) && s < |eps| && t < |eps| && t in eps[s] && s in eps[t]
    ensures RecursiveClosure(eps, s, depth) == Err(RecursionError)
    ensures RecursiveClosure(eps, t, depth) == Err(RecursionError)
    decreases depth
  {
    if depth > 0 {
      CycleExhaustsRecursion(eps, s, t, depth - 1);
      TargetFails(eps, eps[s], t, depth - 1);
      TargetFails(eps, eps[t], s, depth - 1);
    }
  }

  /** The epsilon edges of build_closure_nfa applied twice to build_symbol_nfa("a"). */
  function StarOfStarEps(): seq<seq<nat>> {
    [[], [0, 2], [3, 4], [0, 2], [], [3, 4]]
  }

  /** build_closure_nfa(build_closure_nfa(build_symbol_nfa("a"))) on an empty arena. */
  method BuildStarOfStarOfA(g: Arena) returns (f: Fragment)
    requires g.Valid() && g.labels == []
    modifies g
    ensures g.Valid() && g.eps == StarOfStarEps()
    ensures f == Fragment({0, 1, 2, 3, 4, 5}, {'a'}, 5, {4})
  {
    var star := BuildStarOfA(g);
    f := BuildClosure(g, star);
    assert |g.eps| == 6 && g.eps[0] == [] && g.eps[1] == [0, 2] && g.eps[2] == [3, 4];
    assert g.eps[3] == [0, 2] && g.eps[4] == [] && g.eps[5] == [3, 4];
  }

  /**
   * The closure NFA of "a*" links the old accepting state 2 back to the old initial state 3,
   * which already leads to 2: get_epsilon_closure of 2 never returns, and the NFA constructor
   * of "a**" raises RecursionError.
   */
  lemma StarOfStarRecursion(depth: nat)
    ensures RecursiveClosure(StarOfStarEps(), 2, depth) == Err(RecursionError)
  {
    CycleExhaustsRecursion(StarOfStarEps(), 2, 3, depth);
  }

  /** A state reaches x along a non-trivial walk only through one of its epsilon targets. */
  lemma ReachesFirst(succ: map<nat, set<nat>>, s: nat, x: nat) returns (t: nat)
    requires Reaches(succ, s, x) && x != s
    ensures t in Succ(succ, s) && Reaches(succ, t, x)
  {
    var p :| IsPath(succ, p) && p[0] == s && p[|p| - 1] == x;
    var rest := p[1..];
    assert IsPath(succ, rest) by {
      forall i | 0 <= i < |rest| - 1
        ensures rest[i + 1] in Succ(succ, rest[i])
      {
        assert rest[i] == p[i + 1] && rest[i + 1] == p[i + 2];
      }
    }
    t := p[1];
  }

  /** When the recursion does return, it returns exactly the epsilon-reachable states. */
  lemma {:induction false} RecursiveClosureExact(eps: seq<seq<nat>>, s: nat, depth: nat)
    requires EpsilonEdgesExist(eps) && s < |eps| && RecursiveClosure(eps, s, depth).Ok?
    ensures forall x :: x in RecursiveClosure(eps, s, depth).value <==> Reaches(EpsilonSuccessors(eps), s, x)
    decreases depth, 0
  {
    var succ := EpsilonSuccessors(eps);
    var u := ClosuresOfTargets(eps, eps[s], depth - 1).value;
    ClosuresOfTargetsExact(eps, eps[s], depth - 1);
    forall x | x in RecursiveClosure(eps, s, depth).value
      ensures Reaches(succ, s, x)
    {
      if x == s {
        ReachesRefl(succ, s);
      } else if x in eps[s] {
        ReachesRefl(succ, x);
        ReachesStep(succ, s, x, x);
      } else {
        var j :| 0 <= j < |eps[s]| && Reaches(succ, eps[s][j], x);
        ReachesStep(succ, s, eps[s][j], x);
      }
    }
    forall x | Reaches(succ, s, x) && x != s
      ensures x in u
    {
      var t := ReachesFirst(succ, s, x);
      var j :| 0 <= j < |eps[s]| && eps[s][j] == t;
    }
  }

  /** The united closures of the targets are exactly what some target reaches. */
  lemma {:induction false} ClosuresOfTargetsExact(eps: seq<seq<nat>>, ts: seq<nat>, depth: nat)
    requires EpsilonEdgesExist(eps) && forall j :: 0 <= j < |ts| ==> ts[j] < |eps|
    requires ClosuresOfTargets(eps, ts, depth).Ok?
    ensures forall x :: x in ClosuresOfTargets(eps, ts, depth).value <==>
      exists j :: 0 <= j < |ts| && Reaches(EpsilonSuccessors(eps), ts[j], x)
    decreases depth, 1, |ts|
  {
    if ts != [] {
      RecursiveClosureExact(eps, ts[0], depth);
      ClosuresOfTargetsExact(eps, ts[1..], depth);
      var succ := EpsilonSuccessors(eps);
      forall x | exists j :: 0 <= j < |ts| && Reaches(succ, ts[j], x)
        ensures x in ClosuresOfTargets(eps, ts, depth).value
      {
        var j :| 0 <= j < |ts| && Reaches(succ, ts[j], x);
        if j > 0 {
          assert ts[j] == ts[1..][j - 1];
        }
      }
      forall x | x in ClosuresOfTargets(eps, ts, depth).value
        ensures exists j :: 0 <= j < |ts| && Reaches(succ, ts[j], x)
      {
        if x !in RecursiveClosure(eps, ts[0], depth).value {
          var j :| 0 <= j < |ts[1..]| && Reaches(succ, ts[1..][j], x);
          assert Reaches(succ, ts[j + 1], x);
        }
      }
    }
  }
}
